/**
 * The falling-square stepper that `TetrisView.onOpen` captures in a closure
 * (main.js:97-111): a square of side `Cell` pixels falls down the canvas one
 * cell per tick; when it reaches the bottom it jumps back to the top, one
 * column to the right, and the column wraps around the canvas width.
 *
 * This module is the pure mirror of one tick and of repeated ticks.
 */
module Stepper {

  /** The side of the square and the distance it moves per tick, in pixels. */
  const Cell: int := 10

  /** Canvas widths for which the JavaScript arithmetic stays integral (width 0 gives NaN). */
  type Width = w: int | 0 < w witness 1

  /** The top-left corner of the falling square, in pixels. */
  datatype Pos = Pos(x: int, y: int)

  /** Where every new view starts (main.js:100). */
  const Origin: Pos := Pos(0, 0)

  /**
   * JavaScript's `%` on integers: the remainder of division truncated toward
   * zero, which takes the sign of the dividend (Dafny's `%` never is negative).
   */
  function JsRem(a: int, b: Width): (r: int)
    ensures -(b as int) < r < b
    ensures 0 <= a ==> 0 <= r
    ensures a <= 0 ==> r <= 0
    ensures (a - r) % b == 0
    ensures 0 <= a ==> r == a % b
    ensures 0 <= a < b ==> r == a
  {
    if 0 <= a then
      DivModUnique(a - a % b, a / b, 0, b);
      if a < b then DivModUnique(a, 0, a, b); a % b else a % b
    else
      DivModUnique(a + (-a) % b, -((-a) / b), 0, b);
      -((-a) % b)
  }

  /**
   * One call of the closure's `execute` (main.js:104-111): `y` grows by one cell;
   * once it reaches `height - Cell` it is reset to the top and `x` moves one
   * cell right; finally `x` is reduced modulo `width`.
   */
  function StepFn(p: Pos, width: Width, height: int): (r: Pos)
    // still falling: one cell down, and a column already on the canvas is kept
    ensures p.y + Cell < height - Cell ==> r.y == p.y + Cell
    ensures p.y + Cell < height - Cell && 0 <= p.x < width ==> r.x == p.x
    // bottom reached: back to the top of the next column, wrapping at the width
    ensures p.y + Cell >= height - Cell ==> r.y == 0
    ensures p.y + Cell >= height - Cell && -Cell <= p.x ==> r.x == (p.x + Cell) % width
    // bounds the source relies on for drawing
    ensures 0 <= p.x ==> 0 <= r.x < width
    ensures r.y == 0 || r.y < height - Cell
    ensures -Cell <= p.y ==> 0 <= r.y
    ensures p.y % Cell == 0 ==> r.y % Cell == 0
  {
    var y1 := p.y + Cell;
    if y1 >= height - Cell then Pos(JsRem(p.x + Cell, width), 0)
    else Pos(JsRem(p.x, width), y1)
  }

  /** The position after `n` ticks starting from `p`. */
  function StepN(p: Pos, width: Width, height: int, n: nat): Pos
  {
    if n == 0 then p else StepFn(StepN(p, width, height, n - 1), width, height)
  }

  /**
   * The invariant of every position a view can reach: the square is on the
   * canvas horizontally, `y` is a non-negative multiple of `Cell`, and `y` is
   * above `height - Cell` unless it is the top row.
   */
  ghost predicate Inv(p: Pos, width: Width, height: int)
  {
    0 <= p.x < width && 0 <= p.y && p.y % Cell == 0 && (p.y == 0 || p.y < height - Cell)
  }

  lemma {:induction false} StepNKeepsInv(p: Pos, width: Width, height: int, n: nat)
    requires Inv(p, width, height)
    ensures Inv(StepN(p, width, height, n), width, height)
  {
    if n > 0 {
      StepNKeepsInv(p, width, height, n - 1);
    }
  }

  lemma ReachableFromOrigin(width: Width, height: int, n: nat)
    ensures Inv(StepN(Origin, width, height, n), width, height)
  {
    StepNKeepsInv(Origin, width, height, n);
  }

  /**
   * How many ticks the square spends in one column: the rows it visits are
   * `0, Cell, ..., Cell * (m - 1)`, the last being the first whose successor
   * reaches `height - Cell`.
   */
  function RowsPerColumn(height: int): (m: nat)
    ensures 1 <= m
    ensures Cell * m >= height - Cell
    ensures 1 < m ==> Cell * (m - 1) < height - Cell
  {
    if height - Cell <= Cell then 1 else (height - Cell + Cell - 1) / Cell
  }

  /** Within one column the square falls one row per tick. */
  lemma {:induction false} FallWithinColumn(x: int, width: Width, height: int, r: nat)
    requires 0 <= x < width
    requires r < RowsPerColumn(height)
    ensures StepN(Pos(x, 0), width, height, r) == Pos(x, Cell * r)
  {
    if r > 0 {
      FallWithinColumn(x, width, height, r - 1);
    }
  }

  /** A whole column's worth of ticks moves the square to the top of the next column. */
  lemma FullColumn(x: int, width: Width, height: int)
    requires 0 <= x < width
    ensures StepN(Pos(x, 0), width, height, RowsPerColumn(height)) == Pos((x + Cell) % width, 0)
  {
    var m := RowsPerColumn(height);
    FallWithinColumn(x, width, height, m - 1);
  }

  lemma MulAtLeastOne(d: int, w: Width)
    requires 1 <= d
    ensures w <= d * w
  {
  }

  /** Euclidean division is determined by quotient and remainder. */
  lemma DivModUnique(t: int, k: int, s: int, w: Width)
    requires t == k * w + s && 0 <= s < w
    ensures t / w == k && t % w == s
  {
    var q, r := t / w, t % w;
    assert t == q * w + r;
    assert (k - q) * w == r - s;
    if k - q >= 1 {
      MulAtLeastOne(k - q, w);
    } else if q - k >= 1 {
      MulAtLeastOne(q - k, w);
    }
  }

  lemma ModAddLeft(a: int, b: int, w: Width)
    ensures (a % w + b) % w == (a + b) % w
  {
    var q, r := a / w, a % w;
    var q2, r2 := (r + b) / w, (r + b) % w;
    assert a == q * w + r;
    assert r + b == q2 * w + r2;
    assert a + b == (q + q2) * w + r2;
    DivModUnique(a + b, q + q2, r2, w);
  }

  /** Counting one further: the remainder grows by one, or wraps to 0 and the quotient grows. */
  lemma DivModNext(k: nat, m: Width)
    ensures k % m + 1 < m ==> (k + 1) / m == k / m && (k + 1) % m == k % m + 1
    ensures k % m + 1 == m ==> (k + 1) / m == k / m + 1 && (k + 1) % m == 0
  {
    var q, r := k / m, k % m;
    assert k == q * m + r;
    if r + 1 < m {
      DivModUnique(k + 1, q, r + 1, m);
    } else {
      assert k + 1 == (q + 1) * m + 0;
      DivModUnique(k + 1, q + 1, 0, m);
    }
  }

  /**
   * Closed form of the stepper: after `n` ticks from the origin the square is
   * in column `n / m` (wrapped at the width) and row `n % m`, where `m` is the
   * number of rows per column.
   */
  lemma {:induction false} ClosedForm(width: Width, height: int, n: nat)
    ensures var m := RowsPerColumn(height);
      StepN(Origin, width, height, n) == Pos((Cell * (n / m)) % width, Cell * (n % m))
  {
    var m := RowsPerColumn(height);
    if n > 0 {
      var k := n - 1;
      var q, r := k / m, k % m;
      var x := (Cell * q) % width;
      ClosedForm(width, height, k);
      assert StepN(Origin, width, height, n) == StepFn(Pos(x, Cell * r), width, height);
      DivModNext(k, m);
      if Cell * r + Cell < height - Cell {
        assert r + 1 < m;
      } else {
        assert r + 1 == m;
        ModAddLeft(Cell * q, Cell, width);
      }
    }
  }
}
