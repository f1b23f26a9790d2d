/**
  * One turn of the main loop as a step function: the editor state is the
  * allocation image plus the cursor, and an input event selects one buffer
  * or cursor operation.
  */
module KeyDispatch {
  import opened Sentinel
  import opened TextBuffer
  import opened Cursor

  /** Final byte of the `ESC [ x` arrow sequences. */
  const ARROW_UP: Byte := 0x41
  const ARROW_DOWN: Byte := 0x42
  const ARROW_RIGHT: Byte := 0x43
  const ARROW_LEFT: Byte := 0x44

  /** `buffer` (with its spare byte) and `current_position`. */
  datatype Session = Session(image: seq<Byte>, cursor: nat)

  /** The state the editor keeps between keystrokes: a well-formed buffer and a cursor inside the content. */
  predicate Consistent(s: Session) {
    WellFormed(s.image) && s.cursor <= RealSize(s.image)
  }

  /** The usable bytes, `file_size`. */
  function Usable(s: Session): (n: nat)
    requires Consistent(s)
  {
    |s.image| - 1
  }

  /** A key the main loop inserts: not zero, not DEL (127, an erase) and not ESC (0x1B). */
  type Keystroke = b: TextByte | b != 127 && b != 0x1B witness 97

  /** One input event, as the main loop tells them apart. */
  datatype Event =
    | Erase                    // byte 127; the KEY_BACKSPACE and KEY_DC tests never hold on a char
    | Enter                    // the KEY_ENTER test never holds on a char; Return arrives as a typed '\n' with the same effect
    | Arrow(code: Byte)        // ESC '[' code
    | EscapeOther(code: Byte)  // ESC and any byte other than '['
    | Typed(ch: Keystroke)     // any other key

  /**
    * `add_to_buffer(ch)`. A cursor past every usable byte is refused: the
    * write would land in the spare byte and the following one beyond the
    * allocation.
    */
  function Insert(s: Session, ch: TextByte): (t: Session)
    requires Consistent(s)
    ensures |t.image| == |s.image|
    ensures t == s <==> s.cursor == Usable(s)
    ensures t != s ==> t.cursor == s.cursor + 1 && t.image[s.cursor] == ch
  {
    if s.cursor < Usable(s) then Session(Inserted(s.image, s.cursor, ch), s.cursor + 1) else s
  }

  /**
    * `add_to_buffer(ch)` as written, also at a cursor past every usable
    * byte: there nothing is shifted, `ch` is written into the spare byte and
    * the cursor moves beyond the allocation.
    */
  function InsertAsWritten(s: Session, ch: TextByte): (t: Session)
    requires Consistent(s)
    ensures |t.image| == |s.image|
    ensures t.cursor == s.cursor + 1 && t.image[s.cursor] == ch
  {
    if s.cursor < Usable(s) then Insert(s, ch)
    else Session(s.image[s.cursor := ch], s.cursor + 1)
  }

  /**
    * With one free byte and the cursor at the end of the content, two
    * keystrokes as written leave no zero byte anywhere in the allocation and
    * the cursor one place past it, where the next keystroke writes.
    */
  lemma {:induction false} FullBufferOverrun(s: Session, c1: TextByte, c2: TextByte)
    requires Consistent(s) && s.cursor == RealSize(s.image) == Usable(s) - 1
    ensures Consistent(InsertAsWritten(s, c1))
    ensures InsertAsWritten(s, c1).cursor == Usable(s)
    ensures RealSize(InsertAsWritten(InsertAsWritten(s, c1), c2).image) == |s.image|
    ensures InsertAsWritten(InsertAsWritten(s, c1), c2).cursor == |s.image|
  {
    InsertEffect(s, c1);
    var s1 := InsertAsWritten(s, c1);
    var s2 := InsertAsWritten(s1, c2);
    assert forall i :: 0 <= i < |s2.image| ==> s2.image[i] != NUL;
    RealSizeIs(s2.image, |s2.image|);
  }

  /** `remove_from_buffer()`. */
  function Backspace(s: Session): (t: Session)
    requires Consistent(s)
    ensures |t.image| == |s.image|
    ensures t.cursor == MoveLeft(s.cursor)
    ensures s.cursor == 0 ==> t == s
  {
    if s.cursor == 0 then s else Session(Removed(s.image, s.cursor), s.cursor - 1)
  }

  /** The body of the main loop for one event, before the redraw. */
  function Step(s: Session, e: Event): (t: Session)
    requires Consistent(s)
    ensures |t.image| == |s.image|
    ensures t.cursor <= s.cursor + 1
    ensures e.Arrow? || e.EscapeOther? ==> t.image == s.image
  {
    match e
    case Erase => Backspace(s)
    case Enter => Insert(s, NEWLINE)
    case Arrow(code) =>
      if code == ARROW_UP then s
      else if code == ARROW_DOWN then s
      else if code == ARROW_RIGHT then Session(s.image, MoveRight(s.image, s.cursor))
      else if code == ARROW_LEFT then Session(s.image, MoveLeft(s.cursor))
      else s
    case EscapeOther(_) => s
    case Typed(ch) => Insert(s, ch)
  }

  /** Typing a byte at the cursor, in all three cases of room. */
  lemma {:induction false} InsertEffect(s: Session, ch: TextByte)
    requires Consistent(s)
    ensures Consistent(Insert(s, ch))
    ensures RealSize(s.image) < Usable(s) ==>
      Insert(s, ch).cursor == s.cursor + 1 &&
      RealSize(Insert(s, ch).image) == RealSize(s.image) + 1 &&
      Text(Insert(s, ch).image) == Text(s.image)[..s.cursor] + [ch] + Text(s.image)[s.cursor..]
    ensures RealSize(s.image) == Usable(s) && s.cursor < Usable(s) ==>
      Insert(s, ch).cursor == s.cursor + 1 &&
      Text(Insert(s, ch).image) == (Text(s.image)[..s.cursor] + [ch] + Text(s.image)[s.cursor..])[..Usable(s)]
    ensures s.cursor == Usable(s) ==> Insert(s, ch) == s
  {
    if s.cursor < Usable(s) {
      InsertedText(s.image, s.cursor, ch);
    }
  }

  /** Backspace removes the byte before the cursor, and does nothing at offset 0. */
  lemma {:induction false} BackspaceEffect(s: Session)
    requires Consistent(s)
    ensures Consistent(Backspace(s))
    ensures s.cursor == 0 ==> Backspace(s) == s
    ensures s.cursor > 0 ==>
      Backspace(s).cursor == s.cursor - 1 &&
      Text(Backspace(s).image) == Text(s.image)[..s.cursor - 1] + Text(s.image)[s.cursor..] &&
      forall k :: RealSize(s.image) <= k < |s.image| ==> Backspace(s).image[k] == s.image[k]
  {
    if s.cursor > 0 {
      RemovedText(s.image, s.cursor);
    }
  }

  /**
    * Navigation never changes the buffer: left is clamped at 0, right
    * advances only while two bytes before the sentinel, up, down and any
    * other code leave everything as it was.
    */
  lemma {:induction false} ArrowEffect(s: Session, code: Byte)
    requires Consistent(s)
    ensures Consistent(Step(s, Arrow(code)))
    ensures Step(s, Arrow(code)).image == s.image
    ensures code == ARROW_LEFT ==> Step(s, Arrow(code)).cursor == if s.cursor == 0 then 0 else s.cursor - 1
    ensures code == ARROW_RIGHT ==>
      (Step(s, Arrow(code)).cursor == s.cursor + 1 <==> s.cursor + 1 < RealSize(s.image)) &&
      (Step(s, Arrow(code)).cursor == s.cursor || Step(s, Arrow(code)).cursor == s.cursor + 1)
    ensures code != ARROW_LEFT && code != ARROW_RIGHT ==> Step(s, Arrow(code)) == s
  {
    MoveRightSpec(s.image, s.cursor);
  }

  /** Every event keeps the buffer well formed and the cursor inside the content. */
  lemma {:induction false} StepConsistent(s: Session, e: Event)
    requires Consistent(s)
    ensures Consistent(Step(s, e))
  {
    match e
    case Erase => BackspaceEffect(s);
    case Enter => InsertEffect(s, NEWLINE);
    case Arrow(code) => ArrowEffect(s, code);
    case EscapeOther(_) =>
    case Typed(ch) => InsertEffect(s, ch);
  }

  /**
    * Typing a byte and pressing backspace right after restores the whole
    * allocation and the cursor, as long as the buffer was not full.
    */
  lemma {:induction false} TypeThenErase(s: Session, ch: Keystroke)
    requires Consistent(s) && RealSize(s.image) < Usable(s)
    ensures Consistent(Step(s, Typed(ch)))
    ensures Step(Step(s, Typed(ch)), Erase) == s
  {
    var a := s.image;
    var p := s.cursor;
    var n := RealSize(a);
    InsertEffect(s, ch);
    var b := Inserted(a, p, ch);
    assert RealSize(b) == n + 1;
    var c := Removed(b, p + 1);
    forall k | 0 <= k < |a| ensures c[k] == a[k] {
      if p <= k < n + 1 {
        assert c[k] == b[k + 1];
        if k + 1 == |a| - 1 {
          assert k == n;
        }
      } else if k > n && k < |a| - 1 {
        assert c[k] == b[k] == a[k - 1] == NUL;
      }
    }
    assert c == a;
  }

  /** Backspace with the cursor at the end of non-empty content drops its last byte. */
  lemma {:induction false} EraseAtEnd(s: Session)
    requires Consistent(s) && 0 < s.cursor == RealSize(s.image)
    ensures Consistent(Step(s, Erase))
    ensures Step(s, Erase).cursor == s.cursor - 1 == RealSize(Step(s, Erase).image)
    ensures Text(Step(s, Erase).image) == Text(s.image)[..s.cursor - 1]
  {
    BackspaceEffect(s);
    var t := Text(s.image);
    assert t[s.cursor..] == [];
    assert t[..s.cursor - 1] + [] == t[..s.cursor - 1];
  }

  /** "a\nb" loaded at the default size, with the cursor after the 'b'. */
  function LoadedAtEnd(): (s: Session) {
    Session(Loaded([97, 10, 98], Capacity(3)), 3)
  }

  /**
    * Loading "a\nb" with the default size, backspacing three times from
    * offset 3 empties the buffer; the save then writes one newline. A load
    * reaches that start state only through a full buffer: see
    * StaysBeforeEnd and EndThroughFullBuffer.
    */
  lemma {:induction false} EraseAllThenSave()
    ensures Consistent(LoadedAtEnd())
    ensures Consistent(Step(LoadedAtEnd(), Erase))
    ensures Consistent(Step(Step(LoadedAtEnd(), Erase), Erase))
    ensures var s3 := Step(Step(Step(LoadedAtEnd(), Erase), Erase), Erase);
      s3.cursor == 0 && Consistent(s3) && SaveBytes(s3.image) == [NEWLINE]
  {
    LoadedText([97, 10, 98], Capacity(3));
    var s0 := LoadedAtEnd();
    EraseAtEnd(s0);
    var s1 := Step(s0, Erase);
    EraseAtEnd(s1);
    var s2 := Step(s1, Erase);
    EraseAtEnd(s2);
    var s3 := Step(s2, Erase);
    SaveBytesText(s3.image);
  }

  /** "hi" loaded into ten usable bytes saves as "hi\n": no filler reaches the file. */
  lemma {:induction false} TruncatedSave()
    ensures WellFormed(Loaded([104, 105], 10))
    ensures SaveBytes(Loaded([104, 105], 10)) == [104, 105, NEWLINE]
  {
    LoadedText([104, 105], 10);
    SaveBytesText(Loaded([104, 105], 10));
  }

  /**
    * With "a\nb" loaded and the cursor on the 'b' (offset 2), the right
    * arrow does not move: the offset after the last content byte, where
    * typing would append, is out of the right arrow's reach.
    */
  lemma {:induction false} RightArrowStopsShort()
    ensures Consistent(Session(Loaded([97, 10, 98], Capacity(3)), 2))
    ensures Step(Session(Loaded([97, 10, 98], Capacity(3)), 2), Arrow(ARROW_RIGHT)).cursor == 2
    ensures RealSize(Loaded([97, 10, 98], Capacity(3))) == 3
  {
    LoadedText([97, 10, 98], Capacity(3));
    ArrowEffect(Session(Loaded([97, 10, 98], Capacity(3)), 2), ARROW_RIGHT);
  }

  /**
    * Once the cursor is before the end of the content, every event keeps it
    * there until the buffer is full: a load puts the cursor at 0, so in a
    * loaded non-empty file no key reaches the offset after its last byte
    * before the buffer has been full once.
    */
  lemma {:induction false} StaysBeforeEnd(s: Session, e: Event)
    requires Consistent(s) && s.cursor < RealSize(s.image)
    ensures Step(s, e).cursor < RealSize(Step(s, e).image) || RealSize(Step(s, e).image) == Usable(s)
  {
    match e
    case Erase => BackspaceEffect(s);
    case Enter => InsertEffect(s, NEWLINE);
    case Arrow(code) => ArrowEffect(s, code);
    case EscapeOther(_) =>
    case Typed(ch) => InsertEffect(s, ch);
  }

  /**
    * How the end of the content is reached: in a full buffer with the cursor
    * on the last usable byte, typing pushes the last byte out and leaves the
    * cursor at the end of the content; backspacing from there keeps the
    * cursor at the end (EraseAtEnd).
    */
  lemma {:induction false} EndThroughFullBuffer(s: Session, ch: Keystroke)
    requires Consistent(s) && RealSize(s.image) == Usable(s) && s.cursor + 1 == Usable(s)
    ensures Consistent(Step(s, Typed(ch)))
    ensures Step(s, Typed(ch)).cursor == RealSize(Step(s, Typed(ch)).image) == Usable(s)
  {
    InsertEffect(s, ch);
  }
}
