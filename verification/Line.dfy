/** draw_line: Bresenham's incremental loop against division with rounding. */
module Line {
  newtype int32 = x: int | -0x8000_0000 <= x < 0x8000_0000

  datatype Pixel = Pixel(x: int, y: int)

  /** Up to this coordinate difference the doubled error term fits 32 bits. */
  const MAX_DIFF := 715_827_882

  function Abs(d: int): nat {
    if d < 0 then -d else d
  }

  /** `n` steps from one coordinate in the direction of the other. */
  function Toward(from: int, to: int, n: nat): int {
    if from < to then from + n else from - n
  }

  /** `n / d` rounded to the nearest integer, halves up. */
  function Round(n: nat, d: nat): nat {
    if d == 0 then 0 else (2 * n + d) / (2 * d)
  }

  /** The `k`-th pixel: `k` steps along the longer axis, the rounded share of them along the other. */
  function Ideal(x0: int, y0: int, x1: int, y1: int, k: nat): Pixel {
    var a, b := Abs(x1 - x0), Abs(y1 - y0);
    if a >= b
    then Pixel(Toward(x0, x1, k), Toward(y0, y1, Round(Prod(b, k), a)))
    else Pixel(Toward(x0, x1, Round(Prod(a, k), b)), Toward(y0, y1, k))
  }

  function Steps(x0: int, y0: int, x1: int, y1: int): nat {
    var a, b := Abs(x1 - x0), Abs(y1 - y0);
    if a >= b then a else b
  }

  /** The product `a * n` by repeated addition, which the solver follows step by step. */
  function Prod(a: nat, n: nat): nat {
    if n == 0 then 0 else Prod(a, n - 1) + a
  }

  lemma {:induction false} ProdIs(a: nat, n: nat)
    ensures Prod(a, n) == a * n
  {
    if n > 0 {
      ProdIs(a, n - 1);
      assert a * n == a * (n - 1) + a;
    }
  }

  lemma {:induction false} ProdMono(a: nat, m: nat, n: nat)
    requires m < n
    ensures Prod(a, m) + a <= Prod(a, n)
    decreases n
  {
    if m < n - 1 {
      ProdMono(a, m, n - 1);
    }
  }

  lemma ProdSwap(a: nat, b: nat)
    ensures Prod(a, b) == Prod(b, a)
  {
    ProdIs(a, b);
    ProdIs(b, a);
  }

  lemma DivIs(n: nat, d: nat, q: nat)
    requires d > 0 && Prod(d, q) <= n < Prod(d, q) + d
    ensures n / d == q
  {
    var p := n / d;
    ProdIs(d, p);
    assert n == d * p + n % d;
    if p < q {
      ProdMono(d, p, q);
    } else if q < p {
      ProdMono(d, q, p);
    }
  }

  lemma {:induction false} ProdDouble(d: nat, q: nat)
    ensures Prod(2 * d, q) == 2 * Prod(d, q)
  {
    if q > 0 {
      ProdDouble(d, q - 1);
    }
  }

  /** `q` is within half of `n / d`, halves counted from above. */
  ghost predicate Near(n: nat, d: nat, q: nat) {
    2 * Prod(d, q) <= 2 * n + d < 2 * Prod(d, q) + 2 * d
  }

  lemma RoundIs(n: nat, d: nat, q: nat)
    requires d > 0 && Near(n, d, q)
    ensures Round(n, d) == q
  {
    ProdDouble(d, q);
    DivIs(2 * n + d, 2 * d, q);
  }

  lemma RoundNear(n: nat, d: nat)
    requires d > 0
    ensures Near(n, d, Round(n, d))
  {
    var q := Round(n, d);
    ProdDouble(d, q);
    ProdIs(2 * d, q);
    assert 2 * n + d == 2 * d * q + (2 * n + d) % (2 * d);
  }

  /** Every ideal pixel is within half a pixel of the exact line along the shorter axis; from halfway
      between two pixels it is the one further from the start. */
  lemma WithinHalfPixel(x0: int, y0: int, x1: int, y1: int, k: nat)
    requires k <= Steps(x0, y0, x1, y1)
    ensures var a, b, p := Abs(x1 - x0), Abs(y1 - y0), Ideal(x0, y0, x1, y1, k);
      if a >= b then Abs(p.x - x0) == k && (a > 0 ==> 0 < 2 * (a * Abs(p.y - y0) - b * k) + a <= 2 * a)
      else Abs(p.y - y0) == k && 0 < 2 * (b * Abs(p.x - x0) - a * k) + b <= 2 * b
  {
    var a, b := Abs(x1 - x0), Abs(y1 - y0);
    if a >= b && a > 0 {
      RoundNear(Prod(b, k), a);
      ProdIs(a, Round(Prod(b, k), a));
      ProdIs(b, k);
    } else if a < b {
      RoundNear(Prod(a, k), b);
      ProdIs(b, Round(Prod(a, k), b));
      ProdIs(a, k);
    }
  }

  /** The line starts and ends on the given points. */
  lemma Endpoints(x0: int, y0: int, x1: int, y1: int)
    ensures Ideal(x0, y0, x1, y1, 0) == Pixel(x0, y0)
    ensures Ideal(x0, y0, x1, y1, Steps(x0, y0, x1, y1)) == Pixel(x1, y1)
  {
    var a, b := Abs(x1 - x0), Abs(y1 - y0);
    ProdSwap(a, b);
    if a >= b && a > 0 {
      RoundIs(0, a, 0);
      RoundIs(Prod(b, a), a, b);
    } else if a < b {
      RoundIs(0, b, 0);
      RoundIs(Prod(a, b), b, a);
    }
  }

  /** Consecutive pixels touch, and differ. */
  lemma Connected(x0: int, y0: int, x1: int, y1: int, k: nat)
    requires k < Steps(x0, y0, x1, y1)
    ensures var p, q := Ideal(x0, y0, x1, y1, k), Ideal(x0, y0, x1, y1, k + 1);
      Abs(q.x - p.x) <= 1 && Abs(q.y - p.y) <= 1 && p != q
  {
    var a, b := Abs(x1 - x0), Abs(y1 - y0);
    RoundStep(if a >= b then b else a, if a >= b then a else b, k);
  }

  lemma RoundStep(n: nat, d: nat, k: nat)
    requires 0 < d && n <= d
    ensures Round(Prod(n, k), d) <= Round(Prod(n, k + 1), d) <= Round(Prod(n, k), d) + 1
  {
    RoundNear(Prod(n, k), d);
    RoundNear(Prod(n, k + 1), d);
    var p, q := Round(Prod(n, k), d), Round(Prod(n, k + 1), d);
    if q < p {
      ProdMono(d, q, p);
    }
    if q > p + 1 {
      ProdMono(d, p + 1, q);
    }
  }

  // ----- the loop -----

  /** The error term after `i` steps in x and `j` in y. */
  function Err(a: nat, b: nat, i: nat, j: nat): int {
    Prod(a, j) + a - Prod(b, i) - b
  }

  /** How far the loop is after some rounds: `i` and `j` steps, the shorter axis rounded. */
  ghost predicate OnLine(a: nat, b: nat, i: nat, j: nat) {
    if a >= b then i <= a && (if a == 0 then j == 0 else Near(Prod(b, i), a, j))
    else j <= b && Near(Prod(a, j), b, i)
  }

  /** One round: the longer axis always steps, the shorter exactly when the next rounding goes up. */
  lemma NextRound(a: nat, b: nat, i: nat, j: nat)
    requires OnLine(a, b, i, j) && (if a >= b then i < a else j < b)
    ensures var e2 := 2 * Err(a, b, i, j);
      && (a >= b ==> e2 + b >= 0) && (a < b ==> e2 <= a)
      && var m, n := if e2 + b >= 0 then i + 1 else i, if e2 <= a then j + 1 else j;
         OnLine(a, b, m, n) && Err(a, b, m, n) == Err(a, b, i, j) - (if e2 + b >= 0 then b else 0) + (if e2 <= a then a else 0)
  {}

  /** Where the loop stands is the ideal pixel. */
  lemma OnLineIdeal(x0: int, y0: int, x1: int, y1: int, i: nat, j: nat)
    requires OnLine(Abs(x1 - x0), Abs(y1 - y0), i, j)
    ensures Ideal(x0, y0, x1, y1, if Abs(x1 - x0) >= Abs(y1 - y0) then i else j) == Pixel(Toward(x0, x1, i), Toward(y0, y1, j))
  {
    var a, b := Abs(x1 - x0), Abs(y1 - y0);
    if a >= b && a > 0 {
      RoundIs(Prod(b, i), a, j);
    } else if a < b {
      RoundIs(Prod(a, j), b, i);
    }
  }

  /** The shorter axis stays in range and ends exactly with the longer one. */
  lemma OnLineBounds(a: nat, b: nat, i: nat, j: nat)
    requires OnLine(a, b, i, j)
    ensures i <= a && j <= b
    ensures (if a >= b then i == a else j == b) <==> i == a && j == b
    ensures a <= MAX_DIFF && b <= MAX_DIFF ==> -3 * MAX_DIFF <= 2 * Err(a, b, i, j) <= 3 * MAX_DIFF
  {
    ProdSwap(a, b);
    if a >= b {
      ShorterBound(a, b, i, j);
    } else {
      ShorterBound(b, a, j, i);
    }
  }

  lemma ShorterBound(d: nat, n: nat, k: nat, q: nat)
    requires n <= d && k <= d && Prod(d, n) == Prod(n, d)
    requires if d == 0 then q == 0 else Near(Prod(n, k), d, q)
    ensures q <= n && (k == d ==> q == n)
  {
    if d > 0 {
      if k < d { ProdMono(n, k, d); }
      if q > n { ProdMono(d, n, q); }
      if k == d && q < n { ProdMono(d, q, n); }
    }
  }

  /** The step count along the longer axis. */
  function Major(a: nat, b: nat, i: nat, j: nat): nat {
    if a >= b then i else j
  }

  /** The loop stands on an ideal pixel, and on the end point exactly after the last step. */
  lemma Standing(x0: int, y0: int, x1: int, y1: int, i: nat, j: nat)
    requires OnLine(Abs(x1 - x0), Abs(y1 - y0), i, j)
    ensures var a, b, x, y := Abs(x1 - x0), Abs(y1 - y0), Toward(x0, x1, i), Toward(y0, y1, j);
      && Ideal(x0, y0, x1, y1, Major(a, b, i, j)) == Pixel(x, y)
      && Major(a, b, i, j) <= Steps(x0, y0, x1, y1)
      && (x == x1 && y == y1 <==> Major(a, b, i, j) == Steps(x0, y0, x1, y1))
  {
    var a, b := Abs(x1 - x0), Abs(y1 - y0);
    OnLineIdeal(x0, y0, x1, y1, i, j);
    OnLineBounds(a, b, i, j);
    TowardStep(x0, x1, i);
    TowardStep(y0, y1, j);
  }

  /** Which coordinates the loop body moves, and the error term it leaves. */
  method Advance(dx: int32, dy: int32, err: int32, ghost i: nat, ghost j: nat)
    returns (stepX: bool, stepY: bool, e: int32, ghost m: nat, ghost n: nat)
    requires 0 <= dx as int <= MAX_DIFF && 0 <= -(dy as int) <= MAX_DIFF
    requires OnLine(dx as int, -(dy as int), i, j) && err as int == Err(dx as int, -(dy as int), i, j)
    requires if dx >= -dy then i < dx as int else j < -(dy as int)
    ensures m == (if stepX then i + 1 else i) && n == (if stepY then j + 1 else j)
    ensures OnLine(dx as int, -(dy as int), m, n) && e as int == Err(dx as int, -(dy as int), m, n)
    ensures if dx >= -dy then stepX else stepY
  {
    ghost var a: nat, b: nat := dx as int, -(dy as int);
    OnLineBounds(a, b, i, j);
    NextRound(a, b, i, j);
    var e2 := 2 * err;
    stepX, stepY, e := e2 >= dy, e2 <= dx, err;
    m, n := if stepX then i + 1 else i, if stepY then j + 1 else j;
    OnLineBounds(a, b, m, n);
    if stepX {
      e := e + dy;
    }
    if stepY {
      e := e + dx;
    }
  }

  /** A coordinate on its way: how many steps are left is how far the target is. */
  lemma TowardStep(from: int, to: int, n: nat)
    requires n <= Abs(to - from)
    ensures (from <= Toward(from, to, n) <= to || to <= Toward(from, to, n) <= from)
    ensures Toward(from, to, n) == to <==> n == Abs(to - from)
    ensures Toward(from, to, n + 1) == Toward(from, to, n) + if from < to then 1 else -1
  {}

  /** A coordinate moves one step towards its target, or stays. */
  method Move(from: int32, to: int32, s: int32, x: int32, step: bool, ghost n: nat, ghost m: nat) returns (r: int32)
    requires s == if from < to then 1 else -1
    requires m == (if step then n + 1 else n) && m <= Abs(to as int - from as int)
    requires x as int == Toward(from as int, to as int, n)
    ensures r as int == Toward(from as int, to as int, m)
  {
    r := if step then x + s else x;
  }

  /** The loop body behind the end test: the error term decides which coordinates move. */
  method NextPixel(x0: int32, y0: int32, x1: int32, y1: int32, dx: int32, dy: int32, sx: int32, sy: int32,
                x: int32, y: int32, err: int32, ghost i: nat, ghost j: nat)
    returns (nx: int32, ny: int32, e: int32, ghost m: nat, ghost n: nat)
    requires dx as int == Abs(x1 as int - x0 as int) <= MAX_DIFF && -(dy as int) == Abs(y1 as int - y0 as int) <= MAX_DIFF
    requires sx == (if x0 < x1 then 1 else -1) && sy == (if y0 < y1 then 1 else -1)
    requires OnLine(dx as int, -(dy as int), i, j) && err as int == Err(dx as int, -(dy as int), i, j)
    requires x as int == Toward(x0 as int, x1 as int, i) && y as int == Toward(y0 as int, y1 as int, j)
    requires Major(dx as int, -(dy as int), i, j) < Steps(x0 as int, y0 as int, x1 as int, y1 as int)
    ensures OnLine(dx as int, -(dy as int), m, n) && e as int == Err(dx as int, -(dy as int), m, n)
    ensures nx as int == Toward(x0 as int, x1 as int, m) && ny as int == Toward(y0 as int, y1 as int, n)
    ensures Major(dx as int, -(dy as int), m, n) == Major(dx as int, -(dy as int), i, j) + 1
  {
    var stepX, stepY;
    stepX, stepY, e, m, n := Advance(dx, dy, err, i, j);
    OnLineBounds(dx as int, -(dy as int), m, n);
    nx := Move(x0, x1, sx, x, stepX, i, m);
    ny := Move(y0, y1, sy, y, stepY, j, n);
  }

  /** How far one coordinate has to go, and the direction. */
  method Axis(from: int32, to: int32) returns (d: int32, s: int32)
    requires Abs(to as int - from as int) <= MAX_DIFF
    ensures d as int == Abs(to as int - from as int)
    ensures s == if from < to then 1 else -1
  {
    d := if to > from then to - from else from - to;
    s := if from < to then 1 else -1;
  }

  /** The pixels so far are the first ideal ones. */
  ghost predicate Drawn(x0: int, y0: int, x1: int, y1: int, plotted: seq<Pixel>) {
    forall k :: 0 <= k < |plotted| ==> plotted[k] == Ideal(x0, y0, x1, y1, k)
  }

  /** Plotting where the loop stands continues the ideal line. */
  lemma DrawnNext(x0: int, y0: int, x1: int, y1: int, plotted: seq<Pixel>, i: nat, j: nat)
    requires Drawn(x0, y0, x1, y1, plotted) && OnLine(Abs(x1 - x0), Abs(y1 - y0), i, j)
    requires |plotted| == Major(Abs(x1 - x0), Abs(y1 - y0), i, j)
    ensures Drawn(x0, y0, x1, y1, plotted + [Pixel(Toward(x0, x1, i), Toward(y0, y1, j))])
    ensures |plotted| <= Steps(x0, y0, x1, y1)
    ensures Toward(x0, x1, i) == x1 && Toward(y0, y1, j) == y1 <==> |plotted| == Steps(x0, y0, x1, y1)
  {
    Standing(x0, y0, x1, y1, i, j);
  }

  method DrawLine(x0: int32, y0: int32, x1: int32, y1: int32) returns (plotted: seq<Pixel>)
    requires Abs(x1 as int - x0 as int) <= MAX_DIFF && Abs(y1 as int - y0 as int) <= MAX_DIFF
    ensures |plotted| == Steps(x0 as int, y0 as int, x1 as int, y1 as int) + 1
    ensures Drawn(x0 as int, y0 as int, x1 as int, y1 as int, plotted)
  {
    var dx, sx := Axis(x0, x1);
    var dy, sy := Axis(y0, y1);
    dy := -dy;
    var err := dx + dy;
    var x, y := x0, y0;
    plotted := [];
    ghost var a: nat, b: nat := Abs(x1 as int - x0 as int), Abs(y1 as int - y0 as int);
    ghost var steps := Steps(x0 as int, y0 as int, x1 as int, y1 as int);
    ghost var i: nat, j: nat := 0, 0;
    while true
      invariant OnLine(a, b, i, j) && err as int == Err(a, b, i, j)
      invariant x as int == Toward(x0 as int, x1 as int, i) && y as int == Toward(y0 as int, y1 as int, j)
      invariant |plotted| == Major(a, b, i, j) <= steps
      invariant Drawn(x0 as int, y0 as int, x1 as int, y1 as int, plotted)
      decreases steps - |plotted|
    {
      DrawnNext(x0 as int, y0 as int, x1 as int, y1 as int, plotted, i, j);
      plotted := plotted + [Pixel(x as int, y as int)];
      if x == x1 && y == y1 {
        break;
      }
      x, y, err, i, j := NextPixel(x0, y0, x1, y1, dx, dy, sx, sy, x, y, err, i, j);
    }
  }
}
