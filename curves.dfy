/** The mathematical reference for both tanglers of the layout module.

    Z-order and Hilbert order are both quadtree curves over a square of side
    `Pow2(n)`: the top bit of each coordinate picks one of four quadrants,
    the curve numbers the quadrants with a two-bit code that becomes the top
    two bits of the index, and the lower bits are re-oriented (swapped and/or
    complemented) before the recursion into the quadrant. Z-order never
    re-orients; the Hilbert curve swaps in quadrant (0,0) and swaps and
    complements in quadrant (1,0), which is what `bit_rotate` does. */
module Curves {
  import opened Bits

  datatype Point = Point(x: nat, y: nat)

  predicate InBox(n: nat, p: Point) {
    p.x < Pow2(n) && p.y < Pow2(n)
  }

  /** High and low parts of both coordinates, split at bit `n`. */
  function Hi(n: nat, p: Point): Point {
    Point(Div(p.x, Pow2(n)), Div(p.y, Pow2(n)))
  }

  function Lo(n: nat, p: Point): (r: Point)
    ensures InBox(n, r)
  {
    Point(p.x % Pow2(n), p.y % Pow2(n))
  }

  /** A transform of an n-bit square: complement both coordinates (`flip`),
      then exchange them (`swap`). The four values form a group. */
  datatype Orientation = Orientation(swap: bool, flip: bool)

  const Upright := Orientation(false, false)

  function Reorient(o: Orientation, n: nat, p: Point): (r: Point)
    requires InBox(n, p)
    ensures InBox(n, r)
  {
    var q := if o.flip then Point(Pow2(n) - 1 - p.x, Pow2(n) - 1 - p.y) else p;
    if o.swap then Point(q.y, q.x) else q
  }

  /** `Then(a, b)` is the transform that applies `a` and then `b`. */
  function Then(a: Orientation, b: Orientation): Orientation {
    Orientation(a.swap != b.swap, a.flip != b.flip)
  }

  lemma ReorientThen(a: Orientation, b: Orientation, n: nat, p: Point)
    requires InBox(n, p)
    ensures Reorient(b, n, Reorient(a, n, p)) == Reorient(Then(a, b), n, p)
  {
  }

  /** Every orientation undoes itself. */
  lemma ReorientTwice(o: Orientation, n: nat, p: Point)
    requires InBox(n, p)
    ensures Reorient(o, n, Reorient(o, n, p)) == p
  {
    ReorientThen(o, o, n, p);
  }

  /** Re-orienting commutes with splitting the square at bit `n`. */
  lemma ReorientHiLo(o: Orientation, j: nat, n: nat, p: Point)
    requires InBox(j + n, p)
    ensures InBox(j, Hi(n, p))
    ensures Hi(n, Reorient(o, j + n, p)) == Reorient(o, j, Hi(n, p))
    ensures Lo(n, Reorient(o, j + n, p)) == Reorient(o, n, Lo(n, p))
  {
    CoordHiLo(p.x, j, n);
    CoordHiLo(p.y, j, n);
  }

  /** One coordinate of `ReorientHiLo`. */
  lemma CoordHiLo(v: nat, j: nat, n: nat)
    requires v < Pow2(j + n)
    ensures v / Pow2(n) < Pow2(j)
    ensures (Pow2(j + n) - 1 - v) / Pow2(n) == Pow2(j) - 1 - v / Pow2(n)
    ensures (Pow2(j + n) - 1 - v) % Pow2(n) == Pow2(n) - 1 - v % Pow2(n)
  {
    var w := n + j;
    assert w == j + n;
    Pow2Add(n, j);
    DivBelow(v, Pow2(n), Pow2(j));
    ComplementSplit(v, n, j);
  }

  /** Splitting at bit `n` and then at bit `n + j`. */
  lemma HiLoNested(j: nat, n: nat, p: Point)
    ensures Hi(j + n, p) == Hi(j, Hi(n, p))
    ensures Hi(n, Lo(j + n, p)) == Lo(j, Hi(n, p))
    ensures Lo(n, Lo(j + n, p)) == Lo(n, p)
  {
    Pow2Nested(p.x, n, j);
    Pow2Nested(p.y, n, j);
  }

  /** A point of the `n`-bit square is its own low part. */
  lemma HiLoInBox(n: nat, p: Point)
    requires InBox(n, p)
    ensures Hi(n, p) == Point(0, 0) && Lo(n, p) == p
  {
    DivModUnique(p.x, Pow2(n), 0, p.x);
    DivModUnique(p.y, Pow2(n), 0, p.y);
  }

  /** Bit `b` of both coordinates, and the bits below it. */
  lemma BitPair(b: nat, p: Point)
    ensures Hi(b, Lo(b + 1, p)) == Point((p.x / Pow2(b)) % 2, (p.y / Pow2(b)) % 2)
    ensures Lo(b, Lo(b + 1, p)) == Lo(b, p)
  {
    HiLoNested(1, b, p);
    Pow2Small();
  }

  /** The pair with the bits of `h` above the low `n` bits `l`. */
  function Join(n: nat, h: Point, l: Point): Point {
    Point(h.x * Pow2(n) + l.x, h.y * Pow2(n) + l.y)
  }

  lemma HiLoJoin(n: nat, p: Point)
    ensures p == Join(n, Hi(n, p), Lo(n, p))
  {
  }

  datatype Curve = ZCurve | HilbertCurve

  /** The two index bits of quadrant `(rx, ry)`: `rx + 2 ry` for Z-order
      (x bit even, y bit odd), `(3 rx) xor ry` for the Hilbert curve. */
  function QuadrantCode(c: Curve, rx: nat, ry: nat): nat
    requires rx < 2 && ry < 2
  {
    match c
    case ZCurve => rx + 2 * ry
    case HilbertCurve => if rx == 0 then ry else 3 - ry
  }

  /** The quadrant of a two-bit code; for the Hilbert curve `rx = (q >> 1) & 1`
      and `ry = (q ^ rx) & 1`. */
  function QuadrantOf(c: Curve, q: nat): (r: Point)
    requires q < 4
    ensures r.x < 2 && r.y < 2
    ensures QuadrantCode(c, r.x, r.y) == q
  {
    match c
    case ZCurve => Point(q % 2, q / 2)
    case HilbertCurve =>
      var rx := (q / 2) % 2;
      Point(rx, (q % 2 + rx) % 2)
  }

  lemma QuadrantOfCode(c: Curve, rx: nat, ry: nat)
    requires rx < 2 && ry < 2
    ensures QuadrantCode(c, rx, ry) < 4
    ensures QuadrantOf(c, QuadrantCode(c, rx, ry)) == Point(rx, ry)
  {
  }

  /** How the lower bits are re-oriented inside quadrant `(rx, ry)`. */
  function LevelTurn(c: Curve, rx: nat, ry: nat): Orientation {
    if c == HilbertCurve && ry == 0 then Orientation(true, rx != 0) else Upright
  }

  /** The top bit of each coordinate of a point in the `n + 1`-bit square. */
  lemma TopBits(n: nat, p: Point)
    requires InBox(n + 1, p)
    ensures Hi(n, p).x < 2 && Hi(n, p).y < 2
    ensures InBox(n, Lo(n, p))
  {
    TopDigit(p.x, n);
    TopDigit(p.y, n);
  }

  /** Index of point `p` of the `n`-bit square along curve `c`, top level first. */
  function CurveIndex(c: Curve, n: nat, p: Point): (t: nat)
    requires InBox(n, p)
    ensures t < Pow2(2 * n)
    decreases n, 0, p
  {
    if n == 0 then 0 else IndexLevel(c, n, p)
  }

  /** The top level of `CurveIndex`: the quadrant code of the top bits,
      followed by the index of the re-oriented lower bits. (A separate
      function, so that a proof unfolds one level at a time.) */
  function IndexLevel(c: Curve, n: nat, p: Point): (t: nat)
    requires 0 < n && InBox(n, p)
    ensures t < Pow2(2 * n)
    decreases n - 1, 1, p
  {
    TopBits(n - 1, p);
    var top := Hi(n - 1, p);
    var rest := Reorient(LevelTurn(c, top.x, top.y), n - 1, Lo(n - 1, p));
    var code := QuadrantCode(c, top.x, top.y);
    var tail := CurveIndex(c, n - 1, rest);
    IndexBound(code, tail, n - 1);
    code * Pow2(2 * (n - 1)) + tail
  }

  lemma IndexBound(code: nat, tail: nat, k: nat)
    requires code < 4 && tail < Pow2(2 * k)
    ensures 0 <= code * Pow2(2 * k) && code * Pow2(2 * k) + tail < Pow2(2 * (k + 1))
  {
    Pow2Add(2, 2 * k);
    Pow2Small();
    MulMono(code, 3, Pow2(2 * k));
  }

  /** Point at index `t` of the `n`-bit square along curve `c`: the inverse
      walk, which rebuilds the point from its lowest level upwards. */
  function CurvePoint(c: Curve, n: nat, t: nat): (p: Point)
    requires t < Pow2(2 * n)
    ensures InBox(n, p)
    decreases n, 0, t
  {
    if n == 0 then Point(0, 0) else PointLevel(c, n, t)
  }

  /** The top level of `CurvePoint`: the quadrant of the top index digit,
      above the re-oriented point of the lower digits. */
  function PointLevel(c: Curve, n: nat, t: nat): (p: Point)
    requires 0 < n && t < Pow2(2 * n)
    ensures InBox(n, p)
    decreases n - 1, 1, t
  {
    IndexDigit(t, n - 1);
    var q := QuadrantOf(c, t / Pow2(2 * (n - 1)));
    var low := Reorient(LevelTurn(c, q.x, q.y), n - 1, CurvePoint(c, n - 1, t % Pow2(2 * (n - 1))));
    TopBitsJoin(q.x, low.x, n - 1);
    TopBitsJoin(q.y, low.y, n - 1);
    Point(q.x * Pow2(n - 1) + low.x, q.y * Pow2(n - 1) + low.y)
  }

  lemma IndexDigit(t: nat, k: nat)
    requires t < Pow2(2 * (k + 1))
    ensures t / Pow2(2 * k) < 4
  {
    Pow2Add(2, 2 * k);
    Pow2Small();
    DivBelow(t, Pow2(2 * k), 4);
  }

  lemma TopBitsJoin(b: nat, low: nat, k: nat)
    requires b < 2 && low < Pow2(k)
    ensures 0 <= b * Pow2(k) && b * Pow2(k) + low < Pow2(k + 1)
    ensures (b * Pow2(k) + low) / Pow2(k) == b && (b * Pow2(k) + low) % Pow2(k) == low
  {
    DivModUnique(b * Pow2(k) + low, Pow2(k), b, low);
  }

  /** The orientation of the lower bits after descending `m` levels into the
      square at point `p`: the composition of the level turns on the way. */
  function Turn(c: Curve, m: nat, p: Point): Orientation
    requires InBox(m, p)
    decreases m, 0, p
  {
    if m == 0 then Upright else TurnLevel(c, m, p)
  }

  /** The top level of `Turn`. */
  function TurnLevel(c: Curve, m: nat, p: Point): Orientation
    requires 0 < m && InBox(m, p)
    decreases m - 1, 1, p
  {
    TopBits(m - 1, p);
    var top := Hi(m - 1, p);
    var o := LevelTurn(c, top.x, top.y);
    Then(o, Turn(c, m - 1, Reorient(o, m - 1, Lo(m - 1, p))))
  }

  /** Z-order never re-orients. */
  lemma {:induction false} ZTurnUpright(m: nat, p: Point)
    requires InBox(m, p)
    ensures Turn(ZCurve, m, p) == Upright
  {
    if m > 0 {
      TurnStep(ZCurve, m - 1, m, p);
      ZTurnUpright(m - 1, Lo(m - 1, p));
    }
  }

  /** One level of `CurveIndex`, stated on its own. */
  lemma IndexStep(c: Curve, k: nat, n: nat, p: Point)
    requires n == k + 1 && InBox(n, p)
    ensures Hi(k, p).x < 2 && Hi(k, p).y < 2 && InBox(k, Lo(k, p))
    ensures
      var top := Hi(k, p);
      CurveIndex(c, n, p)
        == QuadrantCode(c, top.x, top.y) * Pow2(2 * k)
         + CurveIndex(c, k, Reorient(LevelTurn(c, top.x, top.y), k, Lo(k, p)))
  {
    TopBits(k, p);
    assert CurveIndex(c, n, p) == IndexLevel(c, n, p);
  }

  /** One level of `Turn`, stated on its own. */
  lemma TurnStep(c: Curve, k: nat, n: nat, p: Point)
    requires n == k + 1 && InBox(n, p)
    ensures Hi(k, p).x < 2 && Hi(k, p).y < 2 && InBox(k, Lo(k, p))
    ensures
      var o := LevelTurn(c, Hi(k, p).x, Hi(k, p).y);
      Turn(c, n, p) == Then(o, Turn(c, k, Reorient(o, k, Lo(k, p))))
  {
    TopBits(k, p);
    assert Turn(c, n, p) == TurnLevel(c, n, p);
  }

  /** Descending one level into `p` and splitting at bit `n` commute: the
      high part of the descended point is the descended high part, and the
      low part re-oriented by the remaining turn is the low part of `p`
      re-oriented by the whole turn. */
  lemma DescendSplit(c: Curve, j: nat, n: nat, p: Point)
    requires InBox(j + 1 + n, p)
    ensures InBox(j + 1, Hi(n, p))
    ensures
      var k := j + n;
      Hi(k, p).x < 2 && Hi(k, p).y < 2 && InBox(k, Lo(k, p)) &&
      var o := LevelTurn(c, Hi(k, p).x, Hi(k, p).y);
      var p' := Reorient(o, k, Lo(k, p));
      var h := Hi(n, p);
      Hi(j, h) == Hi(k, p) && InBox(j, Lo(j, h)) &&
      Hi(n, p') == Reorient(o, j, Lo(j, h)) &&
      Reorient(Turn(c, j, Hi(n, p')), n, Lo(n, p')) == Reorient(Turn(c, j + 1, h), n, Lo(n, p))
  {
    var k := j + n;
    ReorientHiLo(Upright, j + 1, n, p);
    TopBits(k, p);
    var top := Hi(k, p);
    var o := LevelTurn(c, top.x, top.y);
    var p' := Reorient(o, k, Lo(k, p));
    var h := Hi(n, p);
    assert Hi(j, h) == top && Lo(j, h) == Hi(n, Lo(k, p)) by {
      HiLoNested(j, n, p);
    }
    assert Hi(n, p') == Reorient(o, j, Lo(j, h)) && Lo(n, p') == Reorient(o, n, Lo(n, p)) by {
      ReorientHiLo(o, j, n, Lo(k, p));
      HiLoNested(j, n, p);
    }
    var s := Turn(c, j, Hi(n, p'));
    assert Turn(c, j + 1, h) == Then(o, s) by {
      TurnStep(c, j, j + 1, h);
    }
    ReorientThen(o, s, n, Lo(n, p));
  }

  /** Appending `2n` bits below a top digit and `2n` bits below a tail. */
  lemma DigitsJoin(code: nat, x: nat, y: nat, j: nat, n: nat, k: nat)
    requires k == j + n
    ensures code * Pow2(2 * k) + (x * Pow2(2 * n) + y) == (code * Pow2(2 * j) + x) * Pow2(2 * n) + y
  {
    var a, b, w := 2 * j, 2 * n, 2 * k;
    Pow2Add(a, b);
    MulAddAssoc(code, x, y, Pow2(a), Pow2(b), Pow2(w));
  }

  /** Splitting off no top levels at all. */
  lemma IndexSplitBase(c: Curve, n: nat, p: Point)
    requires InBox(n, p)
    ensures Hi(n, p) == Point(0, 0) && Lo(n, p) == p
    ensures CurveIndex(c, 0, Hi(n, p)) == 0 && Turn(c, 0, Hi(n, p)) == Upright
  {
    HiLoInBox(n, p);
  }

  /** The index of a point of the `m + n`-bit square is the index of its top
      `m` bits, followed by the index of its low `n` bits as re-oriented by
      the top `m` levels. This is what makes the byte-at-a-time tables work. */
  lemma {:induction false} IndexSplit(c: Curve, m: nat, n: nat, p: Point)
    requires InBox(m + n, p)
    ensures InBox(m, Hi(n, p))
    ensures CurveIndex(c, m + n, p)
         == CurveIndex(c, m, Hi(n, p)) * Pow2(2 * n)
          + CurveIndex(c, n, Reorient(Turn(c, m, Hi(n, p)), n, Lo(n, p)))
    decreases m
  {
    if m == 0 {
      IndexSplitBase(c, n, p);
    } else {
      var h := Hi(n, p);
      var j, k := m - 1, m - 1 + n;
      DescendSplit(c, j, n, p);
      var top := Hi(k, p);
      var o := LevelTurn(c, top.x, top.y);
      var p' := Reorient(o, k, Lo(k, p));
      var code := QuadrantCode(c, top.x, top.y);
      var x := CurveIndex(c, j, Hi(n, p'));
      var y := CurveIndex(c, n, Reorient(Turn(c, j, Hi(n, p')), n, Lo(n, p')));
      IndexStep(c, k, m + n, p);
      IndexSplit(c, j, n, p');
      IndexStep(c, j, m, h);
      DigitsJoin(code, x, y, j, n, k);
    }
  }

  /** One level of `CurvePoint`, stated on its own: the top quadrant and the
      re-oriented lower levels of the point at index `t`. */
  lemma PointStep(c: Curve, n: nat, t: nat)
    requires n > 0 && t < Pow2(2 * n)
    ensures t / Pow2(2 * (n - 1)) < 4
    ensures
      var q := QuadrantOf(c, t / Pow2(2 * (n - 1)));
      var p := CurvePoint(c, n, t);
      Hi(n - 1, p) == q &&
      Lo(n - 1, p) == Reorient(LevelTurn(c, q.x, q.y), n - 1, CurvePoint(c, n - 1, t % Pow2(2 * (n - 1))))
  {
    IndexDigit(t, n - 1);
    var q := QuadrantOf(c, t / Pow2(2 * (n - 1)));
    var low := Reorient(LevelTurn(c, q.x, q.y), n - 1, CurvePoint(c, n - 1, t % Pow2(2 * (n - 1))));
    PointJoin(c, n, t);
    HiLoOfPoint(n - 1, CurvePoint(c, n, t), q, low);
  }

  /** `CurvePoint` at its top level, as a join. */
  lemma PointJoin(c: Curve, n: nat, t: nat)
    requires n > 0 && t < Pow2(2 * n)
    ensures t / Pow2(2 * (n - 1)) < 4
    ensures
      var q := QuadrantOf(c, t / Pow2(2 * (n - 1)));
      var low := Reorient(LevelTurn(c, q.x, q.y), n - 1, CurvePoint(c, n - 1, t % Pow2(2 * (n - 1))));
      CurvePoint(c, n, t) == Join(n - 1, q, low)
  {
    IndexDigit(t, n - 1);
    assert CurvePoint(c, n, t) == PointLevel(c, n, t);
  }

  /** `HiLoOfJoin` for a point already known to be the join. */
  lemma HiLoOfPoint(k: nat, p: Point, h: Point, l: Point)
    requires InBox(k, l) && p == Join(k, h, l)
    ensures Hi(k, p) == h && Lo(k, p) == l
  {
    HiLoOfJoin(k, h, l);
  }

  /** The high and low parts of a point assembled from a high and a low part. */
  lemma HiLoOfJoin(k: nat, h: Point, l: Point)
    requires InBox(k, l)
    ensures Hi(k, Point(h.x * Pow2(k) + l.x, h.y * Pow2(k) + l.y)) == h
    ensures Lo(k, Point(h.x * Pow2(k) + l.x, h.y * Pow2(k) + l.y)) == l
  {
    DivModUnique(h.x * Pow2(k) + l.x, Pow2(k), h.x, l.x);
    DivModUnique(h.y * Pow2(k) + l.y, Pow2(k), h.y, l.y);
  }

  /** Distinct points have distinct indices. */
  lemma IndexInjective(c: Curve, n: nat, p: Point, q: Point)
    requires InBox(n, p) && InBox(n, q) && CurveIndex(c, n, p) == CurveIndex(c, n, q)
    ensures p == q
  {
    PointOfIndex(c, n, p);
    PointOfIndex(c, n, q);
  }

  /** Points with the same high and low parts are equal. */
  lemma HiLoEqual(k: nat, p: Point, p': Point)
    requires Hi(k, p) == Hi(k, p') && Lo(k, p) == Lo(k, p')
    ensures p == p'
  {
    HiLoJoin(k, p);
    HiLoJoin(k, p');
  }

  /** Decoding inverts encoding. */
  lemma {:induction false} PointOfIndex(c: Curve, n: nat, p: Point)
    requires InBox(n, p)
    ensures CurvePoint(c, n, CurveIndex(c, n, p)) == p
    decreases n
  {
    if n > 0 {
      var k := n - 1;
      IndexStep(c, k, n, p);
      var top := Hi(k, p);
      var o := LevelTurn(c, top.x, top.y);
      var rest := Reorient(o, k, Lo(k, p));
      var code := QuadrantCode(c, top.x, top.y);
      var tail := CurveIndex(c, k, rest);
      var t := CurveIndex(c, n, p);
      DivModUnique(t, Pow2(2 * k), code, tail);
      QuadrantOfCode(c, top.x, top.y);
      PointStep(c, n, t);
      PointOfIndex(c, k, rest);
      ReorientTwice(o, k, Lo(k, p));
      HiLoEqual(k, CurvePoint(c, n, t), p);
    }
  }

  /** Encoding inverts decoding. */
  lemma {:induction false} IndexOfPoint(c: Curve, n: nat, t: nat)
    requires t < Pow2(2 * n)
    ensures CurveIndex(c, n, CurvePoint(c, n, t)) == t
    decreases n
  {
    if n > 0 {
      PointStep(c, n, t);
      var p := CurvePoint(c, n, t);
      var d := t / Pow2(2 * (n - 1));
      var q := QuadrantOf(c, d);
      var o := LevelTurn(c, q.x, q.y);
      var inner := CurvePoint(c, n - 1, t % Pow2(2 * (n - 1)));
      IndexStep(c, n - 1, n, p);
      ReorientTwice(o, n - 1, inner);
      IndexOfPoint(c, n - 1, t % Pow2(2 * (n - 1)));
      DivMod(t, Pow2(2 * (n - 1)));
    }
  }

  /** The point at index `t` of the `m + n`-bit square: its high part is the
      point of the top `2m` index bits, and its low part, re-oriented by the
      turn of the high part, is the point of the low `2n` index bits. */
  lemma PointSplit(c: Curve, m: nat, n: nat, t: nat)
    requires t < Pow2(2 * (m + n))
    ensures Div(t, Pow2(2 * n)) < Pow2(2 * m)
    ensures InBox(m, Hi(n, CurvePoint(c, m + n, t)))
    ensures CurvePoint(c, m, Div(t, Pow2(2 * n))) == Hi(n, CurvePoint(c, m + n, t))
    ensures CurvePoint(c, n, t % Pow2(2 * n))
         == Reorient(Turn(c, m, Hi(n, CurvePoint(c, m + n, t))), n, Lo(n, CurvePoint(c, m + n, t)))
  {
    var p := CurvePoint(c, m + n, t);
    IndexOfPoint(c, m + n, t);
    IndexSplit(c, m, n, p);
    var h := Hi(n, p);
    var s := Turn(c, m, h);
    var r := Reorient(s, n, Lo(n, p));
    DivModUnique(t, Pow2(2 * n), CurveIndex(c, m, h), CurveIndex(c, n, r));
    PointOfIndex(c, m, h);
    PointOfIndex(c, n, r);
    ReorientTwice(s, n, Lo(n, p));
  }
}
