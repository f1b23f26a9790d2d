/**
  * The arrow-key rules of the main loop, on the cursor offset
  * `current_position` into an allocation image (see module Sentinel).
  */
module Cursor {
  import opened Sentinel

  /** Left arrow: one place back, clamped at 0. */
  function MoveLeft(p: nat): (q: nat)
    ensures q <= p
    ensures q == p <==> p == 0
    ensures p > 0 ==> q + 1 == p
  {
    var q := p - 1;
    if q < 0 then 0 else q
  }

  /**
    * Right arrow: one place forward when the byte after the cursor is not
    * zero. A cursor on the last usable byte reads the spare byte; a cursor
    * past every usable byte has nothing to read and stays put.
    */
  function MoveRight(a: seq<Byte>, p: nat): (q: nat)
    requires p < |a|
    ensures q == p || q == p + 1
    ensures q < |a|
    ensures q != p ==> a[q] != NUL
  {
    if p + 1 < |a| && a[p + 1] != NUL then p + 1 else p
  }

  /**
    * On a well-formed allocation the right arrow advances exactly when the
    * cursor is at least two bytes before the sentinel: it never lands on the
    * sentinel, so the end of the content cannot be reached with it.
    */
  lemma {:induction false} MoveRightSpec(a: seq<Byte>, p: nat)
    requires WellFormed(a) && p <= RealSize(a)
    ensures MoveRight(a, p) == p || MoveRight(a, p) == p + 1
    ensures MoveRight(a, p) == p + 1 <==> p + 1 < RealSize(a)
    ensures MoveRight(a, p) <= RealSize(a)
    ensures MoveRight(a, p) != p ==> MoveRight(a, p) < RealSize(a) && a[MoveRight(a, p)] != NUL
  {
    var n := RealSize(a);
    if p + 1 == n {
      assert a[n] == NUL;
    } else if p + 1 > n && p + 1 < |a| {
      assert a[p + 1] == NUL;
    }
  }
}
