/** The cells of a line between two points: on the longer axis one step at a time, on the other the nearest cell. */
module Bresenham {
  import opened Arith

  /** The integer nearest to `k * b / a`; halves go up. */
  function Nearest(k: nat, b: nat, a: nat): nat
    requires a > 0
  {
    (2 * k * b + a) / (2 * a)
  }

  lemma NearestMeans(k: nat, b: nat, a: nat, m: nat)
    requires a > 0
    ensures m == Nearest(k, b, a) <==> 2 * a * m <= 2 * k * b + a < 2 * a * m + 2 * a
  {
    var n, d := 2 * k * b + a, 2 * a;
    Quotient(n, d, m);
    assert (m + 1) * d == d * m + d;
  }

  /** A line, by its two ends. */
  datatype Line = Line(x0: int, y0: int, x1: int, y1: int) {

    function A(): nat { Abs(x1 - x0) }

    function B(): nat { Abs(y1 - y0) }

    function Sx(): int { if x0 < x1 then 1 else -1 }

    function Sy(): int { if y0 < y1 then 1 else -1 }

    /** The number of steps. */
    function Length(): nat { Max(A(), B()) }

    /** How many columns, and how many rows, cell `k` lies away from the first end. */
    function Columns(k: nat): nat
      requires Length() > 0
    {
      if A() >= B() then k else Nearest(k, A(), B())
    }

    function Rows(k: nat): nat
      requires Length() > 0
    {
      if A() >= B() then Nearest(k, B(), A()) else k
    }

    function CellX(k: nat): int { if Length() == 0 then x0 else x0 + Sx() * Columns(k) }

    function CellY(k: nat): int { if Length() == 0 then y0 else y0 + Sy() * Rows(k) }

    /** The cells of the line. */
    ghost predicate On(x: int, y: int) { exists k: nat :: k <= Length() && CellX(k) == x && CellY(k) == y }

    /** The cells in front of cell `n`. */
    ghost predicate Before(n: nat, x: int, y: int) { exists k: nat :: k < n && CellX(k) == x && CellY(k) == y }

    lemma BeforeFirst()
      ensures forall x, y :: !Before(0, x, y)
    {
    }

    lemma BeforeNext(n: nat)
      ensures forall x, y :: Before(n + 1, x, y) <==> Before(n, x, y) || (CellX(n) == x && CellY(n) == y)
      ensures n == Length() ==> forall x, y :: Before(n + 1, x, y) <==> On(x, y)
    {
      forall x, y ensures Before(n + 1, x, y) <==> Before(n, x, y) || (CellX(n) == x && CellY(n) == y) {
        if CellX(n) == x && CellY(n) == y {
          assert n < n + 1 && CellX(n) == x;
        }
      }
    }
  }

  /** The error term of the loop, `i` columns and `j` rows from the first end. */
  function Err(l: Line, i: nat, j: nat): int { (j + 1) * l.A() - (i + 1) * l.B() }

  lemma StartError(l: Line)
    ensures l.Length() > 0 ==> Err(l, l.Columns(0), l.Rows(0)) == l.A() - l.B()
  {
    if l.Length() > 0 {
      if l.A() >= l.B() {
        NearestEnds(l.B(), l.A());
      } else {
        NearestEnds(l.A(), l.B());
      }
    }
  }

  lemma ErrorMoves(l: Line, i: nat, j: nat)
    ensures Err(l, i + 1, j) == Err(l, i, j) - l.B() && Err(l, i, j + 1) == Err(l, i, j) + l.A()
    ensures Err(l, i + 1, j + 1) == Err(l, i, j) - l.B() + l.A()
  {
  }

  /** One round of the loop: both decisions together lead from cell `k` to cell `k + 1`. */
  lemma Step(l: Line, k: nat)
    requires k < l.Length()
    ensures var i, j := l.Columns(k), l.Rows(k);
      && l.Columns(k + 1) == (if 2 * Err(l, i, j) >= 0 - l.B() then i + 1 else i)
      && l.Rows(k + 1) == (if 2 * Err(l, i, j) <= l.A() then j + 1 else j)
  {
    var a, b := l.A(), l.B();
    if a >= b {
      StepMajor(k, b, a);
    } else {
      StepMajor(k, a, b);
    }
  }

  /** A round moves the cell and the error term by what the loop adds to them. */
  lemma StepCell(l: Line, k: nat)
    requires k < l.Length()
    ensures var e := Err(l, l.Columns(k), l.Rows(k));
      && l.CellX(k + 1) == (if 2 * e >= 0 - l.B() then l.CellX(k) + l.Sx() else l.CellX(k))
      && l.CellY(k + 1) == (if 2 * e <= l.A() then l.CellY(k) + l.Sy() else l.CellY(k))
      && Err(l, l.Columns(k + 1), l.Rows(k + 1))
         == e - (if 2 * e >= 0 - l.B() then l.B() else 0) + (if 2 * e <= l.A() then l.A() else 0)
  {
    hide Err, l.Columns, l.Rows;
    Step(l, k);
    ErrorMoves(l, l.Columns(k), l.Rows(k));
  }

  /** On the shorter axis, the nearest cell moves on exactly where the error term says so. */
  lemma StepMajor(k: nat, b: nat, a: nat)
    requires a > 0 && b <= a
    ensures var m := Nearest(k, b, a);
      && Nearest(k + 1, b, a) == (if 2 * ((m + 1) * a - (k + 1) * b) <= a then m + 1 else m)
      && 2 * ((m + 1) * a - (k + 1) * b) >= 0 - b
  {
    hide Nearest;
    var m := Nearest(k, b, a);
    NearestMeans(k, b, a, m);
    assert 2 * (k + 1) * b == 2 * k * b + 2 * b;
    assert 2 * a * (m + 1) == 2 * a * m + 2 * a;
    NearestMeans(k + 1, b, a, m);
    NearestMeans(k + 1, b, a, m + 1);
  }

  lemma NearestEnds(b: nat, a: nat)
    requires a > 0
    ensures Nearest(0, b, a) == 0 && Nearest(a, b, a) == b
  {
    NearestMeans(0, b, a, 0);
    NearestMeans(a, b, a, b);
  }

  /** Never past the end. */
  lemma NearestWithin(k: nat, b: nat, a: nat)
    requires a > 0 && k <= a
    ensures Nearest(k, b, a) <= b
  {
    var m := Nearest(k, b, a);
    NearestMeans(k, b, a, m);
    Times(k, a, b);
    if m > b {
      Times(b + 1, m, a);
      assert false;
    }
  }

  /** A line begins and ends at its two ends, and comes by the second one at its last cell only. */
  lemma Ends(l: Line, k: nat)
    requires k <= l.Length()
    ensures l.CellX(0) == l.x0 && l.CellY(0) == l.y0
    ensures l.CellX(k) == l.x1 && l.CellY(k) == l.y1 <==> k == l.Length()
  {
    if l.Length() > 0 {
      if l.A() >= l.B() {
        NearestEnds(l.B(), l.A());
      } else {
        NearestEnds(l.A(), l.B());
      }
    }
  }

  predicate Between(a: int, x: int, b: int) { a <= x <= b || b <= x <= a }

  /** A line never leaves the bounding box of its ends. */
  lemma LineInBox(l: Line, k: nat)
    requires k <= l.Length()
    ensures Between(l.x0, l.CellX(k), l.x1) && Between(l.y0, l.CellY(k), l.y1)
  {
    if l.Length() > 0 {
      if l.A() >= l.B() {
        NearestWithin(k, l.B(), l.A());
      } else {
        NearestWithin(k, l.A(), l.B());
      }
    }
  }

  /** `n` is at most a half away from `k * b / a`, in whole numbers. */
  predicate WithinHalf(n: nat, k: nat, b: nat, a: nat) { Abs(2 * a * n - 2 * k * b) <= a }

  lemma NearestNear(k: nat, b: nat, a: nat)
    requires a > 0
    ensures WithinHalf(Nearest(k, b, a), k, b, a) && WithinHalf(k, k, a, a)
  {
    NearestMeans(k, b, a, Nearest(k, b, a));
    assert 2 * a * k == 2 * k * a;
  }

  /** Each cell of a line lies within half a cell of the straight line between its ends, on either axis. */
  lemma HalfCell(l: Line, k: nat)
    requires l.Length() > 0
    ensures WithinHalf(l.Columns(k), k, l.A(), l.Length()) && WithinHalf(l.Rows(k), k, l.B(), l.Length())
  {
    hide WithinHalf, Nearest;
    if l.A() >= l.B() {
      NearestNear(k, l.B(), l.A());
    } else {
      NearestNear(k, l.A(), l.B());
    }
  }

  /** Consecutive cells touch: exactly one step on the longer axis, at most one on the other, always towards the end. */
  lemma Touching(l: Line, k: nat)
    requires k < l.Length()
    ensures l.Columns(k) <= l.Columns(k + 1) <= l.Columns(k) + 1 && l.Rows(k) <= l.Rows(k + 1) <= l.Rows(k) + 1
    ensures if l.A() >= l.B() then l.Columns(k + 1) == l.Columns(k) + 1 else l.Rows(k + 1) == l.Rows(k) + 1
  {
    Step(l, k);
  }
}
