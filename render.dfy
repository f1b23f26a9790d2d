/**
  * The text part of `redraw()`: the walk over the buffer that decides which
  * screen cells receive characters and where the hardware cursor goes.
  * The walk reads the `file_size` usable bytes, called the window here.
  */
module Render {
  import opened Sentinel

  /** `(local_row, local_col)` of the walk. */
  datatype Pen = Pen(row: int, col: int)

  /** One `mvaddch(y, x, ch)` of the text loop. */
  datatype Cell = Cell(y: int, x: int, ch: Byte)

  /** The text cells in drawing order and the `move(cursor_y, cursor_x)` target. */
  datatype Frame = Frame(cells: seq<Cell>, cursorY: int, cursorX: int)

  /** `top_row`, `LINES` and `COLS` for one frame. */
  datatype Screen = Screen(top: int, lines: int, cols: int)

  /** The test a non-newline byte must pass to be drawn (it then advances the column). */
  predicate Drawable(pen: Pen, sc: Screen) {
    pen.row >= 0 && pen.row <= sc.top + sc.lines - 1 && pen.col < sc.cols - 4
  }

  /** The pen after one nonzero byte. */
  function Advance(pen: Pen, b: Byte, sc: Screen): (next: Pen)
    ensures next.row == pen.row + 1 <==> b == NEWLINE
    ensures b != NEWLINE ==> next.row == pen.row && pen.col <= next.col <= pen.col + 1
  {
    if b == NEWLINE then Pen(pen.row + 1, 0)
    else if Drawable(pen, sc) then Pen(pen.row, pen.col + 1)
    else pen
  }

  /** The pen when the walk reaches offset `k`, before it looks at `w[k]`. */
  function PenAt(w: seq<Byte>, k: nat, sc: Screen): (pen: Pen)
    requires k <= |w|
    ensures pen.row >= -sc.top && pen.col >= 0
  {
    if k == 0 then Pen(-sc.top, 0) else Advance(PenAt(w, k - 1, sc), w[k - 1], sc)
  }

  /** The cell drawn for byte `b` under pen `pen`, if any. */
  function CellFor(pen: Pen, b: Byte, sc: Screen): (cells: seq<Cell>)
    ensures |cells| <= 1
    ensures cells != [] <==> b != NEWLINE && Drawable(pen, sc)
    ensures cells != [] ==> cells[0].ch == b && cells[0].y == pen.row + 2 && cells[0].x == pen.col + 2
  {
    if b != NEWLINE && Drawable(pen, sc) then [Cell(pen.row + 2, pen.col + 2, b)] else []
  }

  /** The cells drawn for the bytes before offset `k`. */
  function DrawnUpTo(w: seq<Byte>, k: nat, sc: Screen): (cells: seq<Cell>)
    requires k <= |w|
    ensures |cells| <= k
  {
    if k == 0 then [] else DrawnUpTo(w, k - 1, sc) + CellFor(PenAt(w, k - 1, sc), w[k - 1], sc)
  }

  /**
    * One step of the walk from pen `(row, col)` at offset `k`: a newline
    * moves to the next row, a drawable byte adds its cell and advances the
    * column, any other byte changes nothing.
    */
  lemma {:induction false} WalkStep(w: seq<Byte>, k: nat, sc: Screen, row: int, col: int)
    requires k < |w| && PenAt(w, k, sc) == Pen(row, col)
    ensures w[k] == NEWLINE ==>
      PenAt(w, k + 1, sc) == Pen(row + 1, 0) && DrawnUpTo(w, k + 1, sc) == DrawnUpTo(w, k, sc)
    ensures w[k] != NEWLINE && Drawable(Pen(row, col), sc) ==>
      PenAt(w, k + 1, sc) == Pen(row, col + 1) &&
      DrawnUpTo(w, k + 1, sc) == DrawnUpTo(w, k, sc) + [Cell(row + 2, col + 2, w[k])]
    ensures w[k] != NEWLINE && !Drawable(Pen(row, col), sc) ==>
      PenAt(w, k + 1, sc) == Pen(row, col) && DrawnUpTo(w, k + 1, sc) == DrawnUpTo(w, k, sc)
  {
    assert DrawnUpTo(w, k + 1, sc) == DrawnUpTo(w, k, sc) + CellFor(Pen(row, col), w[k], sc);
    if w[k] == NEWLINE || !Drawable(Pen(row, col), sc) {
      assert DrawnUpTo(w, k, sc) + [] == DrawnUpTo(w, k, sc);
    }
  }

  /**
    * The walk reaches offset `p` (and records the cursor there) when `p` is
    * inside the window and no zero byte comes before it.
    */
  predicate Reaches(w: seq<Byte>, p: int) {
    0 <= p <= RealSize(w) && p < |w|
  }

  /**
    * The frame `redraw()` draws from window `w` with the cursor at `p`: the
    * cells of the content, and the cursor two rows down and two columns right
    * of the pen at `p`, or `(0, 0)` when the walk never reaches `p`.
    */
  function Project(w: seq<Byte>, p: int, sc: Screen): (f: Frame)
    ensures |f.cells| <= RealSize(w)
    ensures Reaches(w, p) ==> f.cursorY >= 2 - sc.top && f.cursorX >= 2
    ensures !Reaches(w, p) ==> f.cursorY == 0 && f.cursorX == 0
  {
    var cells := DrawnUpTo(w, RealSize(w), sc);
    if Reaches(w, p) then
      var pen := PenAt(w, p, sc);
      Frame(cells, pen.row + 2, pen.col + 2)
    else
      Frame(cells, 0, 0)
  }

  /** The number of newline bytes in `s`. */
  function Newlines(s: seq<Byte>): (n: nat)
    ensures n <= |s|
  {
    if s == [] then 0
    else Newlines(s[..|s| - 1]) + (if s[|s| - 1] == NEWLINE then 1 else 0)
  }

  function Max(x: int, y: int): (m: int)
    ensures m >= x && m >= y && (m == x || m == y)
  {
    if x < y then y else x
  }

  /** The pen's row is the number of newlines passed, less `top_row`. */
  lemma {:induction false} PenRow(w: seq<Byte>, k: nat, sc: Screen)
    requires k <= |w|
    ensures PenAt(w, k, sc).row == Newlines(w[..k]) - sc.top
  {
    if k == 0 {
      assert w[..0] == [];
    } else {
      PenRow(w, k - 1, sc);
      assert w[..k][..k - 1] == w[..k - 1];
    }
  }

  /**
    * The pen's column never goes negative, never passes `COLS - 4`, and
    * starts again at 0 after every newline.
    */
  lemma {:induction false} PenColumn(w: seq<Byte>, k: nat, sc: Screen)
    requires k <= |w|
    ensures 0 <= PenAt(w, k, sc).col <= Max(0, sc.cols - 4)
    ensures k > 0 && w[k - 1] == NEWLINE ==> PenAt(w, k, sc).col == 0
  {
    if k > 0 {
      PenColumn(w, k - 1, sc);
    }
  }

  /**
    * Where the hardware cursor goes: on the row of the text line holding the
    * cursor (counted from `top_row`, two rows below the top of the screen),
    * in a column between 2 and `COLS - 2`, at column 2 right after a newline;
    * at `(0, 0)` when the walk never reaches the cursor.
    */
  lemma {:induction false} CursorCell(w: seq<Byte>, p: int, sc: Screen)
    ensures Reaches(w, p) ==>
      Project(w, p, sc).cursorY == Newlines(w[..p]) - sc.top + 2 &&
      2 <= Project(w, p, sc).cursorX <= Max(2, sc.cols - 2) &&
      (p > 0 && w[p - 1] == NEWLINE ==> Project(w, p, sc).cursorX == 2)
    ensures !Reaches(w, p) ==> Project(w, p, sc).cursorY == 0 && Project(w, p, sc).cursorX == 0
  {
    if Reaches(w, p) {
      PenRow(w, p, sc);
      PenColumn(w, p, sc);
    }
  }

  /**
    * Every cell drawn for the bytes before `k <= RealSize(w)` holds a
    * content byte other than a newline, lies at or below row 2 and at most
    * `top_row + LINES + 1`, and in a column from 2 to `COLS - 3`.
    */
  lemma {:induction false} DrawnBounds(w: seq<Byte>, k: nat, sc: Screen)
    requires k <= RealSize(w)
    ensures forall c :: c in DrawnUpTo(w, k, sc) ==>
      c.ch != NUL && c.ch != NEWLINE &&
      2 <= c.y <= sc.top + sc.lines + 1 &&
      2 <= c.x <= sc.cols - 3
    ensures |DrawnUpTo(w, k, sc)| <= k
  {
    if k > 0 {
      DrawnBounds(w, k - 1, sc);
      PenColumn(w, k - 1, sc);
    }
  }

  /** The cells of a frame stay in the text area's columns and hold content bytes. */
  lemma {:induction false} CellsInFrame(w: seq<Byte>, p: int, sc: Screen)
    ensures forall c :: c in Project(w, p, sc).cells ==>
      c.ch != NUL && c.ch != NEWLINE &&
      2 <= c.y <= sc.top + sc.lines + 1 &&
      2 <= c.x <= sc.cols - 3
  {
    DrawnBounds(w, RealSize(w), sc);
  }

  /** The walk up to `k` depends only on the first `k` bytes. */
  lemma {:induction false} WalkPrefix(w1: seq<Byte>, w2: seq<Byte>, k: nat, sc: Screen)
    requires k <= |w1| && k <= |w2| && w1[..k] == w2[..k]
    ensures PenAt(w1, k, sc) == PenAt(w2, k, sc)
    ensures DrawnUpTo(w1, k, sc) == DrawnUpTo(w2, k, sc)
  {
    if k > 0 {
      assert w1[..k - 1] == w1[..k][..k - 1];
      assert w2[..k - 1] == w2[..k][..k - 1];
      WalkPrefix(w1, w2, k - 1, sc);
      assert w1[k - 1] == w1[..k][k - 1];
    }
  }

  /**
    * The walk stops at the first zero byte: two windows with the same
    * content, each with a zero byte after it, give the same frame whatever
    * filler follows and whatever their sizes.
    */
  lemma {:induction false} ProjectSeesOnlyText(w1: seq<Byte>, w2: seq<Byte>, p: int, sc: Screen)
    requires Text(w1) == Text(w2)
    requires RealSize(w1) < |w1| && RealSize(w2) < |w2|
    ensures Project(w1, p, sc) == Project(w2, p, sc)
  {
    var n := RealSize(w1);
    assert w1[..n] == Text(w1) && w2[..n] == Text(w2);
    WalkPrefix(w1, w2, n, sc);
    if Reaches(w1, p) {
      assert w1[..p] == w1[..n][..p] && w2[..p] == w2[..n][..p];
      WalkPrefix(w1, w2, p, sc);
    }
  }

  /**
    * "ab\ncd": the cursor on the newline (offset 2) goes to row 2, column 4,
    * just right of "ab"; the cursor at offset 3 (the 'c') goes to row 3,
    * column 2, one line below the first text row.
    */
  lemma {:induction false} CursorOnSecondLine()
    ensures Project([97, 98, 10, 99, 100, 0], 2, Screen(0, 24, 80)).cursorY == 2
    ensures Project([97, 98, 10, 99, 100, 0], 2, Screen(0, 24, 80)).cursorX == 4
    ensures Project([97, 98, 10, 99, 100, 0], 3, Screen(0, 24, 80)).cursorY == 3
    ensures Project([97, 98, 10, 99, 100, 0], 3, Screen(0, 24, 80)).cursorX == 2
  {
    var w: seq<Byte> := [97, 98, 10, 99, 100, 0];
    var sc := Screen(0, 24, 80);
    RealSizeIs(w, 5);
    assert Reaches(w, 2) && Reaches(w, 3);
    assert PenAt(w, 1, sc) == Pen(0, 1);
    assert PenAt(w, 2, sc) == Pen(0, 2);
    assert PenAt(w, 3, sc) == Pen(1, 0);
  }
}
