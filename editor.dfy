/**
  * The editor's global state as an object: the allocation `buffer` of
  * `file_size + 1` bytes, `file_size`, `current_position` and `top_row`.
  * Each method works in place on the array as the C functions do, and is
  * proved against the step functions of KeyDispatch, TextBuffer and Render.
  */
module Editor {
  import opened Sentinel
  import opened TextBuffer
  import opened Cursor
  import opened KeyDispatch
  import opened Render

  class Editor {
    /** `buffer`: `file_size` usable bytes and the spare byte of the allocation. */
    var buffer: array<Byte>
    /** `file_size` */
    var capacity: nat
    /** `current_position` */
    var position: nat
    /** `top_row`; nothing ever changes it. */
    var topRow: int

    /** The buffer and cursor as a value. */
    function State(): Session
      reads this, buffer
    {
      Session(buffer[..], position)
    }

    ghost predicate Valid()
      reads this, buffer
    {
      buffer.Length == capacity + 1 && Consistent(State())
    }

    /**
      * Loading a file: the buffer is sized by the capacity rule, the file is
      * read into it and the rest is zero; the cursor starts at offset 0.
      */
    constructor Load(file: seq<Byte>)
      ensures fresh(buffer) && buffer.Length == capacity + 1
      ensures capacity == Capacity(|file|) && buffer[..] == Loaded(file, capacity)
      ensures Text(buffer[..]) == file[..RealSize(file)] && position == 0 && topRow == 0
      ensures (forall i :: 0 <= i < |file| ==> file[i] != NUL) ==> Valid() && Text(buffer[..]) == file
    {
      var cap := Capacity(|file|);
      var b := new Byte[cap + 1](_ => NUL);
      var i := 0;
      while i < |file|
        invariant 0 <= i <= |file|
        invariant forall k :: 0 <= k < i ==> b[k] == file[k]
        invariant forall k :: i <= k < b.Length ==> b[k] == NUL
      {
        b[i] := file[i];
        i := i + 1;
      }
      assert b[..] == Loaded(file, cap);
      LoadedText(file, cap);
      buffer := b;
      capacity := cap;
      position := 0;
      topRow := 0;
    }

    /** `get_real_file_size()`: the offset of the first zero usable byte, or `file_size`. */
    method GetRealFileSize() returns (n: nat)
      requires Valid()
      ensures n <= capacity
      ensures forall k :: 0 <= k < n ==> buffer[k] != NUL
      ensures n < capacity ==> buffer[n] == NUL
      ensures n == RealSize(buffer[..])
    {
      var i := 0;
      while i < capacity
        invariant 0 <= i <= capacity
        invariant forall k :: 0 <= k < i ==> buffer[k] != NUL
      {
        if buffer[i] == NUL {
          RealSizeIs(buffer[..], i);
          return i;
        }
        i := i + 1;
      }
      RealSizeIs(buffer[..], capacity);
      return capacity;
    }

    /**
      * `add_to_buffer(ch)`: shift the usable bytes after the cursor one
      * place right, write `ch` at the cursor and advance it.
      */
    method AddToBuffer(ch: TextByte)
      requires Valid()
      modifies this`position, buffer
      ensures Valid()
      ensures State() == Insert(old(State()), ch)
    {
      if position < capacity {
        ghost var a := buffer[..];
        ShiftRight(position);
        buffer[position] := ch;
        InsertedAt(a, buffer[..], position, ch);
        InsertedSize(a, position, ch);
        InsertedFiller(a, position, ch);
        position := position + 1;
      }
    }

    /** The loop of `add_to_buffer`: the usable bytes from `p` on move one place right. */
    method ShiftRight(p: nat)
      requires buffer.Length == capacity + 1 && p < capacity
      modifies buffer
      ensures forall k :: 0 <= k <= p ==> buffer[k] == old(buffer[k])
      ensures forall k :: p < k < capacity ==> buffer[k] == old(buffer[k - 1])
      ensures buffer[capacity] == old(buffer[capacity])
    {
      var i := capacity - 1;
      while i > p
        invariant p <= i <= capacity - 1
        invariant forall k :: 0 <= k <= i ==> buffer[k] == old(buffer[k])
        invariant forall k :: i < k < capacity ==> buffer[k] == old(buffer[k - 1])
        invariant buffer[capacity] == old(buffer[capacity])
      {
        buffer[i] := buffer[i - 1];
        i := i - 1;
      }
    }

    /**
      * `remove_from_buffer()`: shift the bytes from the cursor up to the
      * sentinel one place left, stopping once the sentinel has been copied,
      * and move the cursor back; nothing at all at offset 0.
      */
    method RemoveFromBuffer()
      requires Valid()
      modifies this`position, buffer
      ensures Valid()
      ensures State() == Backspace(old(State()))
    {
      if position == 0 {
        return;
      }
      ghost var a := buffer[..];
      ShiftLeft(position);
      RemovedAt(a, buffer[..], position);
      RemovedWellFormed(a, position);
      position := position - 1;
    }

    /**
      * The loop of `remove_from_buffer`: the bytes from `p` up to and
      * including the first zero byte move one place left.
      */
    method ShiftLeft(p: nat)
      requires buffer.Length == capacity + 1 && WellFormed(buffer[..])
      requires 0 < p <= RealSize(buffer[..])
      modifies buffer
      ensures forall k :: 0 <= k < p - 1 ==> buffer[k] == old(buffer[k])
      ensures forall k :: p - 1 <= k < RealSize(old(buffer[..])) ==> buffer[k] == old(buffer[k + 1])
      ensures forall k :: RealSize(old(buffer[..])) <= k < buffer.Length ==> buffer[k] == old(buffer[k])
    {
      ghost var a := buffer[..];
      ghost var n := RealSize(a);
      assert n < buffer.Length;
      var i := p - 1;
      while i < capacity
        invariant p - 1 <= i < n
        invariant forall k :: 0 <= k < p - 1 ==> buffer[k] == a[k]
        invariant forall k :: p - 1 <= k < i ==> buffer[k] == a[k + 1]
        invariant forall k :: i <= k < buffer.Length ==> buffer[k] == a[k]
        decreases capacity - i
      {
        buffer[i] := buffer[i + 1];
        if buffer[i + 1] == NUL {
          break;
        }
        i := i + 1;
      }
    }

    /**
      * `append_newline_to_buffer()`: find the first zero usable byte and
      * write a newline there unless the byte before it is one already. With
      * empty content there is no byte before it, and the newline is written.
      */
    method AppendNewlineToBuffer()
      requires Valid()
      modifies buffer
      ensures Valid()
      ensures buffer[..] == WithNewline(old(buffer[..]))
    {
      ghost var a := buffer[..];
      var i := 0;
      while i < capacity
        invariant 0 <= i <= capacity
        invariant forall k :: 0 <= k < i ==> a[k] != NUL
        invariant buffer[..] == a
      {
        if buffer[i] == NUL {
          RealSizeIs(a, i);
          WithNewlineText(a);
          if i > 0 && buffer[i - 1] == NEWLINE {
            return;
          }
          buffer[i] := NEWLINE;
          return;
        }
        i := i + 1;
      }
      RealSizeIs(a, capacity);
      WithNewlineText(a);
    }

    /**
      * `save_file()`: normalise the trailing newline, then hand the first
      * `get_real_file_size()` bytes to the file.
      */
    method SaveFile() returns (written: seq<Byte>)
      requires Valid()
      modifies buffer
      ensures Valid()
      ensures buffer[..] == WithNewline(old(buffer[..]))
      ensures written == SaveBytes(old(buffer[..]))
    {
      AppendNewlineToBuffer();
      var n := GetRealFileSize();
      written := buffer[..n];
    }

    /** The right-arrow branch: advance when the next byte is not zero. */
    method MoveCursorRight()
      requires Valid()
      modifies this`position
      ensures Valid()
      ensures position == MoveRight(buffer[..], old(position))
    {
      MoveRightSpec(buffer[..], position);
      if position + 1 < buffer.Length && buffer[position + 1] != NUL {
        position := position + 1;
      }
    }

    /** The left-arrow branch: step back, then clamp at 0. */
    method MoveCursorLeft()
      requires Valid()
      modifies this`position
      ensures Valid()
      ensures position == MoveLeft(old(position))
    {
      var p := position - 1;
      if p < 0 {
        p := 0;
      }
      position := p;
    }

    /** One iteration of the main loop, before its redraw. */
    method HandleEvent(e: Event)
      requires Valid()
      modifies this`position, buffer
      ensures Valid()
      ensures State() == Step(old(State()), e)
    {
      match e
      case Erase =>
        RemoveFromBuffer();
      case Enter =>
        AddToBuffer(NEWLINE);
      case Arrow(code) =>
        if code == ARROW_UP {
        } else if code == ARROW_DOWN {
        } else if code == ARROW_RIGHT {
          MoveCursorRight();
        } else if code == ARROW_LEFT {
          MoveCursorLeft();
        }
      case EscapeOther(_) =>
      case Typed(ch) =>
        AddToBuffer(ch);
    }

    /**
      * The text loop of `redraw()`: walk the usable bytes until the first
      * zero byte, collecting the drawn cells and the cursor target.
      */
    method Redraw(lines: int, cols: int) returns (frame: Frame)
      requires buffer.Length == capacity + 1
      ensures frame == Project(buffer[..capacity], position, Screen(topRow, lines, cols))
    {
      ghost var w := buffer[..capacity];
      ghost var sc := Screen(topRow, lines, cols);
      var localRow := 0 - topRow;
      var localCol := 0;
      var cursorX := 0;
      var cursorY := 0;
      var cells: seq<Cell> := [];
      ghost var target := if position <= capacity then PenAt(w, position, sc) else Pen(0, 0);
      var i := 0;
      while i < capacity
        invariant 0 <= i <= capacity
        invariant i <= RealSize(w)
        invariant Pen(localRow, localCol) == PenAt(w, i, sc)
        invariant cells == DrawnUpTo(w, i, sc)
        invariant position < i ==> cursorY == target.row + 2 && cursorX == target.col + 2
        invariant position >= i ==> cursorY == 0 && cursorX == 0
      {
        var b := buffer[i];
        assert b == w[i];
        WalkStep(w, i, sc, localRow, localCol);
        if i == position {
          cursorX := localCol + 2;
          cursorY := localRow + 2;
        }
        if b == NEWLINE {
          localRow := localRow + 1;
          localCol := 0;
        } else if b == NUL {
          assert RealSize(w) == i;
          break;
        } else {
          if localRow >= 0 && localRow <= topRow + lines - 1 && localCol < cols - 4 {
            cells := cells + [Cell(localRow + 2, localCol + 2, b)];
            localCol := localCol + 1;
          }
        }
        i := i + 1;
      }
      assert i == RealSize(w) && buffer[..capacity] == w;
      frame := Frame(cells, cursorY, cursorX);
    }

    /** One full turn of the main loop: handle the event, then redraw. */
    method ProcessEvent(e: Event, lines: int, cols: int) returns (frame: Frame)
      requires Valid()
      modifies this`position, buffer
      ensures Valid()
      ensures State() == Step(old(State()), e)
      ensures frame == Project(buffer[..capacity], position, Screen(topRow, lines, cols))
    {
      HandleEvent(e);
      frame := Redraw(lines, cols);
    }
  }
}
