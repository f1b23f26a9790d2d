/**
  * Bytes of the edit buffer and its zero-byte sentinel convention.
  *
  * The editor keeps a file in one allocation of `file_size + 1` chars. The
  * logical content is the prefix before the first zero byte; everything from
  * that byte on is filler. Here an allocation is a `seq<Byte>` whose last
  * element is the spare byte beyond `file_size`.
  */
module Sentinel {

  /** One `char` of the buffer, read as an unsigned byte. */
  type Byte = b: int | 0 <= b < 256

  /** A byte other than the sentinel: what a keystroke inserts. */
  type TextByte = b: Byte | b != 0 witness 10

  const NUL: Byte := 0
  const NEWLINE: Byte := 10

  /** Offset of the first zero byte of `s`, or `|s|` when `s` has none. */
  function RealSize(s: seq<Byte>): (n: nat)
    ensures n <= |s|
    ensures forall i :: 0 <= i < n ==> s[i] != NUL
    ensures n < |s| ==> s[n] == NUL
    decreases |s|
  {
    if s == [] || s[0] == NUL then 0 else 1 + RealSize(s[1..])
  }

  /** The three facts RealSize promises determine it. */
  lemma {:induction false} RealSizeIs(s: seq<Byte>, k: nat)
    requires k <= |s|
    requires forall i :: 0 <= i < k ==> s[i] != NUL
    requires k < |s| ==> s[k] == NUL
    ensures RealSize(s) == k
  {
  }

  /** Every byte from the first zero byte on is zero. */
  predicate ZeroFilled(s: seq<Byte>) {
    forall i :: RealSize(s) <= i < |s| ==> s[i] == NUL
  }

  /**
    * An allocation in the state the editor keeps: at least one usable byte,
    * a zero spare byte after the usable ones, and zero filler.
    */
  predicate WellFormed(a: seq<Byte>)
    ensures WellFormed(a) ==> RealSize(a) < |a|
  {
    |a| >= 2 && a[|a| - 1] == NUL && ZeroFilled(a)
  }

  /** The logical content: the bytes before the first zero byte. */
  function Text(a: seq<Byte>): (t: seq<Byte>)
    ensures |t| == RealSize(a)
    ensures forall i :: 0 <= i < |t| ==> t[i] != NUL && t[i] == a[i]
  {
    a[..RealSize(a)]
  }

  predicate EndsInNewline(t: seq<Byte>) {
    |t| > 0 && t[|t| - 1] == NEWLINE
  }

  /**
    * A scan of the usable bytes only (the first `|a| - 1`) finds the same
    * first zero byte as a scan of the whole allocation, since the spare byte
    * is zero.
    */
  lemma {:induction false} WindowSize(a: seq<Byte>)
    requires |a| >= 1 && a[|a| - 1] == NUL
    ensures RealSize(a[..|a| - 1]) == RealSize(a)
  {
    var n := RealSize(a);
    RealSizeIs(a[..|a| - 1], n);
  }
}
