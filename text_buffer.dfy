/**
  * The buffer operations of the editor, as functions from one allocation
  * image (see module Sentinel) to the next, with the lemmas that say what
  * each does to the logical content.
  */
module TextBuffer {
  import opened Sentinel

  const DEFAULT_BUFFER_SIZE: int := 65536

  /**
    * `file_size` after loading a file of `fileLength` bytes: the default size,
    * grown by the file's length when the file fills more than half of it.
    */
  function Capacity(fileLength: int): (cap: int)
    ensures cap >= DEFAULT_BUFFER_SIZE
    ensures fileLength >= 0 ==> cap >= fileLength + DEFAULT_BUFFER_SIZE / 2
    ensures cap == DEFAULT_BUFFER_SIZE <==> fileLength <= DEFAULT_BUFFER_SIZE / 2
  {
    if fileLength > DEFAULT_BUFFER_SIZE / 2 then DEFAULT_BUFFER_SIZE + fileLength
    else DEFAULT_BUFFER_SIZE
  }

  /**
    * `fread` into a fresh `malloc` block: the file's bytes, then whatever
    * the block held before, `heap`, from the end of the file on.
    */
  function ReadInto(heap: seq<Byte>, file: seq<Byte>): (a: seq<Byte>)
    requires |file| < |heap|
    ensures |a| == |heap|
    ensures forall i :: 0 <= i < |a| ==> a[i] == if i < |file| then file[i] else heap[i]
  {
    file + heap[|file|..]
  }

  /**
    * When the byte of the block right after the file is not zero, the
    * sentinel is missing: the content runs on into the old bytes of the
    * block and is no longer the file.
    */
  lemma {:induction false} StaleByteAfterFile(heap: seq<Byte>, file: seq<Byte>)
    requires forall i :: 0 <= i < |file| ==> file[i] != NUL
    requires |file| < |heap| && heap[|file|] != NUL
    ensures RealSize(ReadInto(heap, file)) > |file|
    ensures Text(ReadInto(heap, file)) != file
  {
    var a := ReadInto(heap, file);
    assert forall i :: 0 <= i <= |file| ==> a[i] != NUL;
  }

  /** The allocation of `cap` usable bytes after `file` has been read into a zeroed block. */
  function Loaded(file: seq<Byte>, cap: nat): (a: seq<Byte>)
    requires |file| <= cap
    ensures a == ReadInto(seq(cap + 1, _ => NUL), file)
  {
    file + seq(cap + 1 - |file|, _ => NUL)
  }

  /**
    * Loading keeps the content up to the file's first zero byte; a file
    * without zero bytes loads as exactly its own content, into a well-formed
    * allocation.
    */
  lemma {:induction false} LoadedText(file: seq<Byte>, cap: nat)
    requires 1 <= cap && |file| <= cap
    ensures |Loaded(file, cap)| == cap + 1
    ensures RealSize(Loaded(file, cap)) == RealSize(file)
    ensures Text(Loaded(file, cap)) == file[..RealSize(file)]
    ensures (forall i :: 0 <= i < |file| ==> file[i] != NUL) ==>
      WellFormed(Loaded(file, cap)) && Text(Loaded(file, cap)) == file
  {
    var a := Loaded(file, cap);
    RealSizeIs(a, RealSize(file));
    if forall i :: 0 <= i < |file| ==> file[i] != NUL {
      RealSizeIs(file, |file|);
    }
  }

  /**
    * The allocation after `add_to_buffer(ch)` with the cursor at `p`: every
    * usable byte after `p` takes the value of its left neighbour (so the last
    * usable byte is lost), `ch` is written at `p`, and the spare byte is not
    * touched.
    */
  function Inserted(a: seq<Byte>, p: nat, ch: Byte): (b: seq<Byte>)
    requires p < |a| - 1
    ensures |b| == |a| && b[p] == ch && b[|a| - 1] == a[|a| - 1]
    ensures b[..p] == a[..p]
  {
    seq(|a|, k requires 0 <= k < |a| =>
      if k < p then a[k]
      else if k == p then ch
      else if k < |a| - 1 then a[k - 1]
      else a[k])
  }

  /** The shape of `Inserted`, one index range at a time. */
  lemma {:induction false} InsertedAt(a: seq<Byte>, b: seq<Byte>, p: nat, ch: Byte)
    requires p < |a| - 1 && |b| == |a|
    requires forall k :: 0 <= k < p ==> b[k] == a[k]
    requires b[p] == ch
    requires forall k :: p < k < |a| - 1 ==> b[k] == a[k - 1]
    requires b[|a| - 1] == a[|a| - 1]
    ensures b == Inserted(a, p, ch)
  {
    assert forall k :: 0 <= k < |a| ==> b[k] == Inserted(a, p, ch)[k];
  }

  /**
    * Inserting a nonzero byte at a cursor inside the content: while there is
    * room the content gains exactly that byte at the cursor; when the buffer
    * is already full the last byte of the content is pushed out.
    */
  lemma {:induction false} InsertedText(a: seq<Byte>, p: nat, ch: TextByte)
    requires WellFormed(a) && p <= RealSize(a) && p < |a| - 1
    ensures WellFormed(Inserted(a, p, ch))
    ensures RealSize(a) < |a| - 1 ==>
      RealSize(Inserted(a, p, ch)) == RealSize(a) + 1 &&
      Text(Inserted(a, p, ch)) == Text(a)[..p] + [ch] + Text(a)[p..]
    ensures RealSize(a) == |a| - 1 ==>
      RealSize(Inserted(a, p, ch)) == |a| - 1 &&
      Text(Inserted(a, p, ch)) == (Text(a)[..p] + [ch] + Text(a)[p..])[..|a| - 1]
  {
    InsertedSize(a, p, ch);
    InsertedFiller(a, p, ch);
    InsertedContent(a, p, ch);
    var t := Text(a)[..p] + [ch] + Text(a)[p..];
    if RealSize(a) < |a| - 1 { assert t[..RealSize(a) + 1] == t; }
  }

  /** The new sentinel: one place further right, or none when the buffer fills up. */
  lemma {:induction false} InsertedSize(a: seq<Byte>, p: nat, ch: TextByte)
    requires WellFormed(a) && p <= RealSize(a) && p < |a| - 1
    ensures RealSize(Inserted(a, p, ch)) == if RealSize(a) < |a| - 1 then RealSize(a) + 1 else |a| - 1
  {
    var b := Inserted(a, p, ch);
    var n := RealSize(a);
    var m := if n < |a| - 1 then n + 1 else |a| - 1;
    forall k | 0 <= k < m ensures b[k] != NUL {
      if k > p { assert b[k] == a[k - 1]; }
    }
    if m < |a| - 1 { assert b[m] == a[m - 1]; }
    RealSizeIs(b, m);
  }

  lemma {:induction false} InsertedFiller(a: seq<Byte>, p: nat, ch: TextByte)
    requires WellFormed(a) && p <= RealSize(a) && p < |a| - 1
    requires RealSize(Inserted(a, p, ch)) == if RealSize(a) < |a| - 1 then RealSize(a) + 1 else |a| - 1
    ensures WellFormed(Inserted(a, p, ch))
  {
    var b := Inserted(a, p, ch);
    forall k | RealSize(b) <= k < |b| ensures b[k] == NUL {
      if k < |a| - 1 { assert b[k] == a[k - 1]; }
    }
  }

  lemma {:induction false} InsertedContent(a: seq<Byte>, p: nat, ch: TextByte)
    requires WellFormed(a) && p <= RealSize(a) && p < |a| - 1
    requires RealSize(Inserted(a, p, ch)) == if RealSize(a) < |a| - 1 then RealSize(a) + 1 else |a| - 1
    ensures Text(Inserted(a, p, ch)) == (Text(a)[..p] + [ch] + Text(a)[p..])[..RealSize(Inserted(a, p, ch))]
  {
    var b := Inserted(a, p, ch);
    var m := RealSize(b);
    var ta := Text(a);
    var t := ta[..p] + [ch] + ta[p..];
    assert |t| == |ta| + 1 && m <= |t|;
    var u := t[..m];
    forall k | 0 <= k < m ensures u[k] == b[k] {
      if k < p {
        assert u[k] == ta[k] == a[k];
      } else if k > p {
        assert u[k] == ta[k - 1] == a[k - 1];
      }
    }
    assert Text(b) == u;
  }

  /**
    * The allocation after `remove_from_buffer()` with the cursor at `p`:
    * unchanged at `p == 0`; otherwise every byte from `p - 1` up to the byte
    * before the sentinel takes the value of its right neighbour, and the copy
    * stops once the sentinel itself has been copied.
    */
  function Removed(a: seq<Byte>, p: nat): (b: seq<Byte>)
    requires p <= RealSize(a) < |a|
    ensures |b| == |a|
    ensures p == 0 ==> b == a
    ensures forall k :: RealSize(a) <= k < |a| ==> b[k] == a[k]
  {
    if p == 0 then a
    else
      var n := RealSize(a);
      seq(|a|, k requires 0 <= k < |a| => if p - 1 <= k < n then a[k + 1] else a[k])
  }

  /** The shape of `Removed` at `p > 0`, one index range at a time. */
  lemma {:induction false} RemovedAt(a: seq<Byte>, b: seq<Byte>, p: nat)
    requires 0 < p <= RealSize(a) < |a| && |b| == |a|
    requires forall k :: 0 <= k < p - 1 ==> b[k] == a[k]
    requires forall k :: p - 1 <= k < RealSize(a) ==> b[k] == a[k + 1]
    requires forall k :: RealSize(a) <= k < |a| ==> b[k] == a[k]
    ensures b == Removed(a, p)
  {
    assert forall k :: 0 <= k < |a| ==> b[k] == Removed(a, p)[k];
  }

  /**
    * Backspace at a cursor `p > 0` deletes exactly the byte before the cursor
    * and touches nothing from the old sentinel on.
    */
  lemma {:induction false} RemovedText(a: seq<Byte>, p: nat)
    requires WellFormed(a) && 0 < p <= RealSize(a)
    ensures WellFormed(Removed(a, p))
    ensures RealSize(Removed(a, p)) == RealSize(a) - 1
    ensures Text(Removed(a, p)) == Text(a)[..p - 1] + Text(a)[p..]
    ensures forall k :: RealSize(a) <= k < |a| ==> Removed(a, p)[k] == a[k]
  {
    RemovedWellFormed(a, p);
    RemovedContent(a, p);
  }

  /** The sentinel moves one place left and the filler stays zero. */
  lemma {:induction false} RemovedWellFormed(a: seq<Byte>, p: nat)
    requires WellFormed(a) && 0 < p <= RealSize(a)
    ensures RealSize(Removed(a, p)) == RealSize(a) - 1
    ensures WellFormed(Removed(a, p))
  {
    var b := Removed(a, p);
    var n := RealSize(a);
    forall k | 0 <= k < n - 1 ensures b[k] != NUL {
      if p - 1 <= k { assert b[k] == a[k + 1]; }
    }
    assert b[n - 1] == a[n] == NUL;
    RealSizeIs(b, n - 1);
  }

  lemma {:induction false} RemovedContent(a: seq<Byte>, p: nat)
    requires WellFormed(a) && 0 < p <= RealSize(a)
    requires RealSize(Removed(a, p)) == RealSize(a) - 1
    ensures Text(Removed(a, p)) == Text(a)[..p - 1] + Text(a)[p..]
  {
    var b := Removed(a, p);
    var n := RealSize(a);
    var t := Text(a)[..p - 1] + Text(a)[p..];
    assert |t| == n - 1;
    forall k | 0 <= k < n - 1 ensures t[k] == b[k] {
      if k < p - 1 { assert t[k] == a[k]; }
      else { assert t[k] == Text(a)[k + 1] == a[k + 1]; }
    }
  }

  /**
    * The allocation after `append_newline_to_buffer()`: a newline is written
    * at the sentinel unless the content already ends in one or there is no
    * zero byte among the usable bytes. Empty content gets the newline.
    */
  function WithNewline(a: seq<Byte>): (b: seq<Byte>)
    requires WellFormed(a)
    ensures |b| == |a|
    ensures forall k :: 0 <= k < |a| && k != RealSize(a) ==> b[k] == a[k]
    ensures b[RealSize(a)] == NUL || b[RealSize(a)] == NEWLINE
  {
    var n := RealSize(a);
    if n == |a| - 1 || (n > 0 && a[n - 1] == NEWLINE) then a else a[n := NEWLINE]
  }

  /** What newline normalisation does to the content, in both cases. */
  lemma {:induction false} WithNewlineText(a: seq<Byte>)
    requires WellFormed(a)
    ensures WellFormed(WithNewline(a))
    ensures RealSize(a) == |a| - 1 || EndsInNewline(Text(a)) ==> WithNewline(a) == a
    ensures RealSize(a) < |a| - 1 && !EndsInNewline(Text(a)) ==>
      RealSize(WithNewline(a)) == RealSize(a) + 1 &&
      Text(WithNewline(a)) == Text(a) + [NEWLINE]
    ensures RealSize(WithNewline(a)) >= RealSize(a)
    ensures RealSize(WithNewline(a)) == |a| - 1 || EndsInNewline(Text(WithNewline(a)))
  {
    var n := RealSize(a);
    if !(n == |a| - 1 || (n > 0 && a[n - 1] == NEWLINE)) {
      var b := a[n := NEWLINE];
      RealSizeIs(b, n + 1);
      assert Text(b) == Text(a) + [NEWLINE];
    }
  }

  /**
    * `append_newline_to_buffer()` as written: the byte it tests before the
    * first zero byte is `buffer[i - 1]`, which for empty content is the byte
    * just before the allocation, `before`.
    */
  function WithNewlineAsWritten(a: seq<Byte>, before: Byte): (b: seq<Byte>)
    requires WellFormed(a)
    ensures |b| == |a|
    ensures forall k :: 0 <= k < |a| && k != RealSize(a) ==> b[k] == a[k]
    ensures b[RealSize(a)] == NUL || b[RealSize(a)] == NEWLINE
  {
    var n := RealSize(a);
    var previous := if n == 0 then before else a[n - 1];
    if n == |a| - 1 || previous == NEWLINE then a else a[n := NEWLINE]
  }

  /**
    * The code as written agrees with `WithNewline` except on empty content,
    * where the outcome depends on a byte outside the buffer: when that byte
    * happens to be a newline, nothing is appended and the save writes an
    * empty file.
    */
  lemma {:induction false} NewlineReadsBeforeBuffer(a: seq<Byte>, before: Byte)
    requires WellFormed(a)
    ensures RealSize(a) > 0 || before != NEWLINE ==> WithNewlineAsWritten(a, before) == WithNewline(a)
    ensures RealSize(a) == 0 && before == NEWLINE ==>
      Text(WithNewlineAsWritten(a, before)) == [] && SaveBytes(a) == [NEWLINE]
  {
    if RealSize(a) == 0 {
      assert a[1] == NUL;
      WithNewlineText(a);
    }
  }

  /** Normalising a trailing newline twice is the same as doing it once. */
  lemma {:induction false} WithNewlineIdempotent(a: seq<Byte>)
    requires WellFormed(a)
    ensures WellFormed(WithNewline(a))
    ensures WithNewline(WithNewline(a)) == WithNewline(a)
  {
    WithNewlineText(a);
    var b := WithNewline(a);
    WithNewlineText(b);
  }

  /** The bytes `save_file()` hands to `fwrite`: the first `get_real_file_size()` bytes after normalisation. */
  function SaveBytes(a: seq<Byte>): (bytes: seq<Byte>)
    requires WellFormed(a)
    ensures RealSize(a) <= |bytes| < |a|
    ensures bytes[..RealSize(a)] == Text(a)
    ensures forall i :: 0 <= i < |bytes| ==> bytes[i] != NUL
  {
    WithNewlineText(a);
    Text(WithNewline(a))
  }

  /**
    * A save writes the content, plus one newline when the content is not
    * empty of room and does not already end in one; no filler byte and no
    * zero byte reaches the file.
    */
  lemma {:induction false} SaveBytesText(a: seq<Byte>)
    requires WellFormed(a)
    ensures SaveBytes(a) ==
      Text(a) + (if RealSize(a) < |a| - 1 && !EndsInNewline(Text(a)) then [NEWLINE] else [])
    ensures |SaveBytes(a)| <= |a| - 1
    ensures forall i :: 0 <= i < |SaveBytes(a)| ==> SaveBytes(a)[i] != NUL
  {
    WithNewlineText(a);
    if RealSize(a) == |a| - 1 || EndsInNewline(Text(a)) {
      assert Text(a) + [] == Text(a);
    }
  }

  /**
    * Saving a second time would write the same bytes as the first save. The
    * program itself saves only once, on Ctrl-C, just before it exits.
    */
  lemma {:induction false} SaveTwice(a: seq<Byte>)
    requires WellFormed(a)
    ensures WellFormed(WithNewline(a))
    ensures SaveBytes(WithNewline(a)) == SaveBytes(a)
  {
    WithNewlineIdempotent(a);
  }
}
