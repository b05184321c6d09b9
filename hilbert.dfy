/** The Hilbert tangler: a `(u32, u32)` pair and a `u64` are related by the
    Hilbert curve of the 32-bit square (module Curves). `BitEntangle` and
    `BitDetangle` walk the curve a level at a time; `Hilbert.Entangle` and
    `Hilbert.Detangle` walk it a byte pair at a time, with three
    65536-entry tables built by `NewHilbert`: the index of every byte pair,
    the byte pair of every index, and the code of the orientation in which
    every byte pair leaves the bytes below it. */
module HilbertTangle {
  import opened Bits
  import opened Curves
  import opened Tables
  import opened Wrappers

  /** `bit_rotate(logn, pair, rx, ry)` with the `u32` subtraction wrapping:
      in quadrant `(rx, 0)` the coordinates are exchanged, and when `rx != 0`
      both are first complemented against `(1 << logn) - 1` (a
      `Wrapping<u32>` shift, whose amount is taken modulo 32). */
  function BitRotate(logn: nat, pair: Point, rx: nat, ry: nat): (r: Point)
    requires InBox(32, pair)
    ensures InBox(32, r)
  {
    if ry == 0 then
      if rx != 0 then
        var off := Pow2(logn % 32) - 1;
        Point(Wrap(off - pair.y, 32), Wrap(off - pair.x, 32))
      else
        Point(pair.y, pair.x)
    else
      pair
  }

  /** `bit_rotate` as written, where arithmetic is checked: `off` comes out
      of a `Wrapping` computation, but `off - pair.1` and `off - pair.0` are
      plain `u32` subtractions, which fail (`None`) below zero. */
  function BitRotateChecked(logn: nat, pair: Point, rx: nat, ry: nat): (r: Option<Point>)
    ensures r.None? <==> ry == 0 && rx != 0 && !InBox(logn % 32, pair)
  {
    if ry == 0 && rx != 0 then
      var off := Pow2(logn % 32) - 1;
      if off < pair.y || off < pair.x then None
      else Some(Point(off - pair.y, off - pair.x))
    else if ry == 0 then Some(Point(pair.y, pair.x))
    else Some(pair)
  }

  /** Where the checked `bit_rotate` does not fail, it agrees with the
      wrapping `BitRotate`. */
  lemma BitRotateCheckedAgrees(logn: nat, pair: Point, rx: nat, ry: nat)
    requires InBox(32, pair)
    ensures BitRotateChecked(logn, pair, rx, ry).Some? ==>
            BitRotateChecked(logn, pair, rx, ry).value == BitRotate(logn, pair, rx, ry)
  {
    if ry == 0 && rx != 0 {
      var off := Pow2(logn % 32) - 1;
      if off >= pair.y && off >= pair.x {
        Pow2Mono(logn % 32, 32);
        WrapSmall(off - pair.y, 32);
        WrapSmall(off - pair.x, 32);
      }
    }
  }

  /** In quadrant `(1, 0)` the unmasked `pair.0` has bit `logn` set, so it
      exceeds `off = 2^logn - 1` and the checked subtraction fails: every
      time `bit_entangle` meets that quadrant. */
  lemma BitRotateUnderflow(logn: nat, pair: Point)
    requires logn < 32 && (pair.x / Pow2(logn)) % 2 == 1
    ensures BitRotateChecked(logn, pair, 1, 0).None?
  {
    assert logn % 32 == logn;
    BitSetAtLeast(pair.x, logn);
  }

  /** A value with bit `k` set is at least `2^k`. */
  lemma BitSetAtLeast(v: nat, k: nat)
    requires (v / Pow2(k)) % 2 == 1
    ensures v >= Pow2(k)
  {
    if v < Pow2(k) {
      DivModUnique(v, Pow2(k), 0, v);
    }
  }

  /** The first level of `bit_entangle((1 << 31, 0))` is such a case. */
  lemma BitEntangleUnderflow()
    ensures BitRotateChecked(31, Point(0x8000_0000, 0), (0x8000_0000 / Pow2(31)) % 2, (0 / Pow2(31)) % 2).None?
  {
    Pow2Wide();
    assert Pow2(31) == 0x8000_0000;
    BitRotateUnderflow(31, Point(0x8000_0000, 0));
  }

  /** Only the low `logn` bits of the result matter, and on those `BitRotate`
      is the re-orientation that the Hilbert curve gives quadrant `(rx, ry)`. */
  lemma BitRotateLow(logn: nat, pair: Point, rx: nat, ry: nat)
    requires logn < 32 && InBox(32, pair) && rx < 2 && ry < 2
    ensures Lo(logn, BitRotate(logn, pair, rx, ry))
         == Reorient(LevelTurn(HilbertCurve, rx, ry), logn, Lo(logn, pair))
  {
    if ry == 0 && rx != 0 {
      assert logn % 32 == logn;
      ComplementWrapLow(pair.y, logn);
      ComplementWrapLow(pair.x, logn);
    }
  }

  /** One coordinate of `BitRotateLow`: the wrapped complement against
      `2^logn - 1` has the complemented low `logn` bits. */
  lemma ComplementWrapLow(v: nat, logn: nat)
    requires logn < 32
    ensures Wrap(Pow2(logn) - 1 - v, 32) % Pow2(logn) == Pow2(logn) - 1 - v % Pow2(logn)
  {
    WrapLow(Pow2(logn) - 1 - v, logn, 32);
    ComplementLow(v, logn);
  }

  /** On a point of the `logn`-bit square nothing wraps, and `BitRotate` is
      exactly the re-orientation of quadrant `(rx, ry)`. */
  lemma BitRotateInBox(logn: nat, pair: Point, rx: nat, ry: nat)
    requires logn < 32 && InBox(logn, pair) && rx < 2 && ry < 2
    ensures InBox(32, pair)
    ensures BitRotate(logn, pair, rx, ry) == Reorient(LevelTurn(HilbertCurve, rx, ry), logn, pair)
  {
    Pow2Mono(logn, 32);
    if ry == 0 && rx != 0 {
      DivModUnique(logn, 32, 0, logn);
      ComplementFits(pair.y, logn);
      ComplementFits(pair.x, logn);
    }
  }

  /** One coordinate of `BitRotateInBox`. */
  lemma ComplementFits(v: nat, logn: nat)
    requires logn < 32 && v < Pow2(logn)
    ensures Wrap(Pow2(logn) - 1 - v, 32) == Pow2(logn) - 1 - v
  {
    Pow2Mono(logn, 32);
    WrapSmall(Pow2(logn) - 1 - v, 32);
  }

  /** The code `(3 * rx) ^ ry` that `bit_entangle` writes is the Hilbert
      quadrant code: 0, 1, 3, 2 for the quadrants (0,0), (0,1), (1,0), (1,1). */
  lemma XorCode(rx: nat, ry: nat)
    requires rx < 2 && ry < 2
    ensures Xor(3 * rx, ry) == QuadrantCode(HilbertCurve, rx, ry) < 4
  {
    if rx == 1 {
      assert Xor(1, ry / 2) == 1;
    }
  }

  /** `bit_entangle`: from bit 31 down, write the quadrant code of the
      current bits and re-orient the bits below. */
  method BitEntangle(pair0: Point) returns (result: nat)
    requires InBox(32, pair0)
    ensures result == CurveIndex(HilbertCurve, 32, pair0)
  {
    var pair := pair0;
    result := 0;
    ghost var k := 32;
    HiLoInBox(32, pair0);
    ZeroMod(Pow2(2 * k));
    for logSRev := 0 to 32
      invariant k == 32 - logSRev && InBox(32, pair)
      invariant result % Pow2(2 * k) == 0
      invariant CurveIndex(HilbertCurve, 32, pair0) == result + CurveIndex(HilbertCurve, k, Lo(k, pair))
    {
      var logS := 31 - logSRev;
      pair, result := BitEntangleLevel(pair, result, logS);
      k := logS;
    }
    assert CurveIndex(HilbertCurve, k, Lo(k, pair)) == 0;
  }

  /** One pass of the `bit_entangle` loop, at level `logS`: the quadrant
      code is added at bit `2 * logS` and the pair is rotated. */
  method BitEntangleLevel(pair0: Point, result0: nat, logS: nat) returns (pair: Point, result: nat)
    requires logS < 32 && InBox(32, pair0) && result0 % Pow2(2 * (logS + 1)) == 0
    ensures InBox(32, pair) && result % Pow2(2 * logS) == 0
    ensures result0 + CurveIndex(HilbertCurve, logS + 1, Lo(logS + 1, pair0))
         == result + CurveIndex(HilbertCurve, logS, Lo(logS, pair))
  {
    ghost var k := logS + 1;
    var rx := (pair0.x / Pow2(logS)) % 2;
    var ry := (pair0.y / Pow2(logS)) % 2;
    BitEntangleStep(pair0, logS, k);
    CodeField(result0, Xor(3 * rx, ry), logS, k);
    result := result0 + Xor(3 * rx, ry) * Pow2(2 * logS);
    pair := BitRotate(logS, pair0, rx, ry);
  }

  /** One level of `bit_entangle`: the index of the low `k` bits is the code
      of bit `k - 1` followed by the index of the rotated bits below it. */
  lemma BitEntangleStep(pair: Point, logS: nat, k: nat)
    requires k == logS + 1 && logS < 32 && InBox(32, pair)
    ensures
      var rx, ry := (pair.x / Pow2(logS)) % 2, (pair.y / Pow2(logS)) % 2;
      CurveIndex(HilbertCurve, k, Lo(k, pair))
        == Xor(3 * rx, ry) * Pow2(2 * logS)
         + CurveIndex(HilbertCurve, logS, Lo(logS, BitRotate(logS, pair, rx, ry)))
  {
    var rx, ry := (pair.x / Pow2(logS)) % 2, (pair.y / Pow2(logS)) % 2;
    BitPair(logS, pair);
    IndexStep(HilbertCurve, logS, k, Lo(k, pair));
    BitRotateLow(logS, pair, rx, ry);
    XorCode(rx, ry);
  }

  /** Each level writes its code into the two bits `2 logS` and `2 logS + 1`,
      which the levels above left zero; the bits below stay zero. */
  lemma CodeField(result: nat, code: nat, logS: nat, k: nat)
    requires k == logS + 1 && code < 4 && result % Pow2(2 * k) == 0
    ensures code * Pow2(2 * logS) >= 0
    ensures (result + code * Pow2(2 * logS)) % Pow2(2 * logS) == 0
    ensures ((result + code * Pow2(2 * logS)) / Pow2(2 * logS)) % 4 == code
  {
    var w := Pow2(2 * logS);
    assert Pow2(2 * k) == w * 4 by {
      assert 2 * k == 2 * logS + 2;
      Pow2Add(2 * logS, 2);
      Pow2Small();
    }
    var q := result / (w * 4);
    assert result + code * w == (q * 4 + code) * w + 0;
    DivModUnique(result + code * w, w, q * 4 + code, 0);
    DivModUnique(q * 4 + code, 4, q, code);
  }

  /** `bit_detangle`: from bit 0 up, rotate the bits found so far as the
      quadrant of the next index digit demands, and put that quadrant above them. */
  method BitDetangle(tangle: nat) returns (result: Point)
    requires tangle < Pow2(64)
    ensures result == CurvePoint(HilbertCurve, 32, tangle)
  {
    result := Point(0, 0);
    for logS := 0 to 32
      invariant result == CurvePoint(HilbertCurve, logS, tangle % Pow2(2 * logS))
    {
      var shifted := (tangle / Pow2(2 * logS)) % 4;
      var rx := (shifted / 2) % 2;
      var ry := Xor(shifted, rx) % 2;
      BitDetangleStep(tangle, logS, logS + 1);
      result := BitRotate(logS, result, rx, ry);
      result := Point(result.x + rx * Pow2(logS), result.y + ry * Pow2(logS));
    }
    DivModUnique(tangle, Pow2(64), 0, tangle);
  }

  /** `bit_detangle` undoes `bit_entangle` on every `u32` pair. */
  method BitEntangleDetangle(pair: Point) returns (result: Point)
    requires InBox(32, pair)
    ensures result == pair
  {
    var tangle := BitEntangle(pair);
    result := BitDetangle(tangle);
    PointOfIndex(HilbertCurve, 32, pair);
  }

  /** One level of `bit_detangle`: the point of the low `2n` index bits is
      the quadrant of digit `k = n - 1` above the rotated point of the digits below. */
  lemma BitDetangleStep(t: nat, k: nat, n: nat)
    requires n == k + 1 && k < 32
    ensures InBox(32, CurvePoint(HilbertCurve, k, t % Pow2(2 * k)))
    ensures
      var s := (t / Pow2(2 * k)) % 4;
      var rx := (s / 2) % 2;
      var ry := Xor(s, rx) % 2;
      var r := BitRotate(k, CurvePoint(HilbertCurve, k, t % Pow2(2 * k)), rx, ry);
      CurvePoint(HilbertCurve, n, t % Pow2(2 * n)) == Join(k, Point(rx, ry), r)
  {
    var low := CurvePoint(HilbertCurve, k, t % Pow2(2 * k));
    var s := (t / Pow2(2 * k)) % 4;
    var rx := (s / 2) % 2;
    var ry := Xor(s, rx) % 2;
    var tn := t % Pow2(2 * n);
    LowDigits(t, k, n);
    assert n - 1 == k;
    PointStep(HilbertCurve, n, tn);
    QuadrantOfDigit(s);
    BitRotateInBox(k, low, rx, ry);
    HiLoJoin(k, CurvePoint(HilbertCurve, n, tn));
  }

  /** `rx = (shifted >> 1) & 1` and `ry = (shifted ^ rx) & 1` decode the
      Hilbert quadrant of a two-bit digit. */
  lemma QuadrantOfDigit(s: nat)
    requires s < 4
    ensures QuadrantOf(HilbertCurve, s) == Point((s / 2) % 2, Xor(s, (s / 2) % 2) % 2)
  {
    if s == 0 {
    } else if s == 1 {
    } else if s == 2 {
    } else {
    }
  }

  /** Digit `k` and the digits below it, of the low `n = k + 1` digits. */
  lemma LowDigits(t: nat, k: nat, n: nat)
    requires n == k + 1
    ensures (t % Pow2(2 * n)) / Pow2(2 * k) == (t / Pow2(2 * k)) % 4
    ensures (t % Pow2(2 * n)) % Pow2(2 * k) == t % Pow2(2 * k)
  {
    assert 2 * n == 2 * k + 2;
    Pow2Nested(t, 2 * k, 2);
    Pow2Small();
  }

  /** The code of an orientation in the `rotation` table. */
  function RotationCode(o: Orientation): (r: nat)
    ensures r < 0x10
    ensures (r / 2) % 2 != 0 <==> o.swap
    ensures r == 12 || r == 6 <==> o.flip
  {
    match o
    case Orientation(false, false) => 4
    case Orientation(true, false) => 14
    case Orientation(false, true) => 12
    case Orientation(true, true) => 6
  }

  /** The probe point `(0, 1 << 23)` of the 24-bit square, seen through
      orientation `o`, is indexed with `RotationCode(o)` in its top four bits:
      its top two bits are `(0, 2)` seen through `o`. */
  lemma ProbeCode(o: Orientation)
    ensures InBox(2, Reorient(o, 2, Point(0, 2)))
    ensures CurveIndex(HilbertCurve, 2, Reorient(o, 2, Point(0, 2))) == RotationCode(o)
  {
    Pow2Small();
    match o
    case Orientation(false, false) =>
      IndexTwo(Point(0, 2));
    case Orientation(true, false) =>
      IndexTwo(Point(2, 0));
    case Orientation(false, true) =>
      IndexTwo(Point(3, 1));
    case Orientation(true, true) =>
      IndexTwo(Point(1, 3));
  }

  /** The index of a point of the 2-bit square, from its two bit pairs. */
  lemma IndexTwo(p: Point)
    requires p.x < 4 && p.y < 4
    ensures InBox(2, p)
    ensures
      var o := LevelTurn(HilbertCurve, p.x / 2, p.y / 2);
      var q := Reorient(o, 1, Point(p.x % 2, p.y % 2));
      CurveIndex(HilbertCurve, 2, p)
        == QuadrantCode(HilbertCurve, p.x / 2, p.y / 2) * 4 + QuadrantCode(HilbertCurve, q.x, q.y)
  {
    Pow2Small();
    IndexStep(HilbertCurve, 1, 2, p);
    var top := Hi(1, p);
    var q := Reorient(LevelTurn(HilbertCurve, top.x, top.y), 1, Lo(1, p));
    IndexOne(HilbertCurve, q);
  }

  /** The index of a point of the 1-bit square is its quadrant code. */
  lemma IndexOne(c: Curve, q: Point)
    requires InBox(1, q)
    ensures q.x < 2 && q.y < 2 && CurveIndex(c, 1, q) == QuadrantCode(c, q.x, q.y)
  {
    Pow2Small();
    IndexStep(c, 0, 1, q);
    DivModUnique(q.x, 1, q.x, 0);
    DivModUnique(q.y, 1, q.y, 0);
  }

  /** The point `((x << 24), (y << 24) + (1 << 23))` that `new` entangles
      for the byte pair `(x, y)`. */
  function Probe(x: nat, y: nat): Point {
    Point(x * Pow2(24), y * Pow2(24) + Pow2(23))
  }

  /** The index of the probe of `(x, y)` has the index of `(x, y)` in its top
      16 bits and the rotation code of `(x, y)` in the 4 bits below. */
  lemma ProbeIndex(x: nat, y: nat)
    requires x < 0x100 && y < 0x100
    ensures InBox(32, Probe(x, y)) && InBox(8, Point(x, y))
    ensures CurveIndex(HilbertCurve, 32, Probe(x, y)) / Pow2(48) == CurveIndex(HilbertCurve, 8, Point(x, y))
    ensures (CurveIndex(HilbertCurve, 32, Probe(x, y)) / Pow2(44)) % 0x10
         == RotationCode(Turn(HilbertCurve, 8, Point(x, y)))
  {
    var p := Probe(x, y);
    var a, b := Pow2(23), Pow2(24);
    assert b == a * 2 by { Pow2Add(23, 1); Pow2Small(); }
    assert Pow2(32) == b * 0x100 by { Pow2Add(24, 8); Pow2Chunk(); }
    MulMono(x, 0xFF, b);
    MulMono(y, 0xFF, b);
    DivModUnique(p.x, b, x, 0);
    DivModUnique(p.y, b, y, a);
    assert Hi(24, p) == Point(x, y) && Lo(24, p) == Point(0, a);
    Pow2Chunk();
    IndexSplit(HilbertCurve, 8, 24, p);
    var o := Turn(HilbertCurve, 8, Point(x, y));
    var r := Reorient(o, 24, Point(0, a));
    IndexSplit(HilbertCurve, 2, 22, r);
    ReorientHiLo(o, 2, 22, Point(0, a));
    assert Hi(22, Point(0, a)) == Point(0, 2) by {
      Pow2Add(22, 1);
      Pow2Small();
      DivModUnique(a, Pow2(22), 2, 0);
    }
    ProbeCode(o);
    var low := CurveIndex(HilbertCurve, 22, Reorient(Turn(HilbertCurve, 2, Hi(22, r)), 22, Lo(22, r)));
    assert Pow2(48) == 0x10 * Pow2(44) by {
      Pow2Add(44, 4);
      assert Pow2(4) == 0x10 by { Pow2Small(); }
    }
    ProbeDigits(CurveIndex(HilbertCurve, 32, p), CurveIndex(HilbertCurve, 8, Point(x, y)),
                RotationCode(o), low, Pow2(44), Pow2(48));
  }

  /** Reading a 16-bit field and the 4-bit field below it. */
  lemma ProbeDigits(e: nat, high: nat, code: nat, low: nat, w: nat, ww: nat)
    requires w > 0 && ww == 0x10 * w && code < 0x10 && low < w
    requires e == high * ww + (code * w + low)
    ensures e / ww == high && (e / w) % 0x10 == code
  {
    MulMono(code, 0xF, w);
    DivModUnique(e, ww, high, code * w + low);
    MulAddAssoc(high, code, low, 0x10, w, ww);
    DivModUnique(e, w, high * 0x10 + code, low);
    DivModUnique(high * 0x10 + code, 0x10, high, code);
  }

  /** The first `n` keys of `rotation` hold the code of the orientation that
      their byte pair leaves to the bytes below it. */
  ghost predicate RotationFilled(rotation: seq<nat>, n: nat)
    requires n <= |rotation|
  {
    Pow2Chunk();
    forall x, y {:trigger Key(x, y)} :: x < 0x100 && y < 0x100 && Key(x, y) < n ==>
      rotation[Key(x, y)] == RotationCode(Turn(HilbertCurve, 8, Point(x, y)))
  }

  datatype Hilbert = Hilbert(entangle: seq<nat>, detangle: seq<Point>, rotation: seq<nat>)
  {
    /** `entangle[(x << 8) + y]` is the index of the byte pair `(x, y)` in the
        8-bit square, `detangle` maps every 16-bit index back to its byte
        pair, and `rotation[(x << 8) + y]` is the code of the turn of `(x, y)`. */
    ghost predicate Valid() {
      |entangle| == 0x1_0000 && |detangle| == 0x1_0000 && |rotation| == 0x1_0000 &&
      EntangleFilled(HilbertCurve, entangle, 0x1_0000) && DetangleTable(HilbertCurve, detangle) &&
      RotationFilled(rotation, 0x1_0000)
    }

    /** The entries of the byte pair `(xb, yb)`. */
    lemma KeyEntries(xb: nat, yb: nat)
      requires Valid() && xb < 0x100 && yb < 0x100
      ensures Key(xb, yb) < 0x1_0000 && InBox(8, Point(xb, yb))
      ensures entangle[Key(xb, yb)] == CurveIndex(HilbertCurve, 8, Point(xb, yb))
      ensures rotation[Key(xb, yb)] == RotationCode(Turn(HilbertCurve, 8, Point(xb, yb)))
    {
      Pow2Chunk();
      KeyOfPoint(xb, yb);
    }

    /** The entry of the 16-bit index `z`. */
    lemma DetangleEntry(z: nat)
      requires Valid() && z < 0x1_0000
      ensures z < Pow2(16) && detangle[z] == CurvePoint(HilbertCurve, 8, z)
      ensures detangle[z].x < 0x100 && detangle[z].y < 0x100
    {
      Pow2Chunk();
    }

    /** One pass of the `detangle` loop: chunk `logS` of the index. */
    method DetangleChunk(tangle: nat, logS: nat, ghost m: nat, result0: Point) returns (result: Point)
      requires Valid() && m == 8 * logS
      requires result0 == CurvePoint(HilbertCurve, m, tangle % Pow2(2 * m))
      ensures result == CurvePoint(HilbertCurve, m + 8, tangle % Pow2(2 * (m + 8)))
    {
      var shifted := (tangle / Pow2(16 * logS)) % 0x1_0000;
      DetangleChunkStep(tangle, logS, m, m + 8);
      var b, rotation := ChunkEntries(shifted);
      result := RotateBelow(rotation, Turn(HilbertCurve, 8, b), logS, m, result0);
      result := Join(8 * logS, b, result);
    }

    /** The table reads of one `detangle` pass: the byte pair of a 16-bit
        chunk and the rotation code of that byte pair. */
    method ChunkEntries(shifted: nat) returns (b: Point, rotation: nat)
      requires Valid() && shifted < 0x1_0000
      ensures shifted < Pow2(16) && b == CurvePoint(HilbertCurve, 8, shifted)
      ensures InBox(8, b) && rotation == RotationCode(Turn(HilbertCurve, 8, b))
    {
      DetangleEntry(shifted);
      b := detangle[shifted];
      KeyEntries(b.x, b.y);
      rotation := this.rotation[Key(b.x, b.y)];
    }

    /** `entangle`: from the top byte down, append the index of the byte
        pair and re-orient the whole pair by its rotation code. */
    method Entangle(p: Point) returns (result: nat)
      requires Valid() && InBox(32, p)
      ensures result == CurveIndex(HilbertCurve, 32, p)
    {
      var x: nat, y: nat := p.x, p.y;
      result := 0;
      ghost var k := 32;
      HiLoInBox(32, p);
      for i := 0 to 4
        invariant k == 32 - 8 * i && InBox(32, Point(x, y))
        invariant CurveIndex(HilbertCurve, 32, p)
               == result * Pow2(2 * k) + CurveIndex(HilbertCurve, k, Lo(k, Point(x, y)))
      {
        ghost var j := 24 - 8 * i;
        x, y, result := EntangleByte(x, y, i, k, j, result);
        k := j;
      }
      assert CurveIndex(HilbertCurve, k, Lo(k, Point(x, y))) == 0;
      MulOne(result, Pow2(2 * k));
    }

    /** One pass of the `entangle` loop: byte `3 - i` of `x` and `y`. */
    method EntangleByte(x0: nat, y0: nat, i: nat, ghost k: nat, ghost j: nat, result0: nat)
      returns (x: nat, y: nat, result: nat)
      requires Valid() && i < 4 && k == 32 - 8 * i && j == 24 - 8 * i && InBox(32, Point(x0, y0))
      ensures InBox(32, Point(x, y))
      ensures result0 * Pow2(2 * k) + CurveIndex(HilbertCurve, k, Lo(k, Point(x0, y0)))
           == result * Pow2(2 * j) + CurveIndex(HilbertCurve, j, Lo(j, Point(x, y)))
    {
      var shift := Pow2(24 - 8 * i);
      assert shift == Pow2(j);
      var xByte := (x0 / shift) % 0x100;
      var yByte := (y0 / shift) % 0x100;
      var entry, rotation := PairEntries(xByte, yByte);
      result := result0 * 0x1_0000 + entry;
      EntangleByteIndex(x0, y0, k, j, result0, entry, result);
      x, y := RotateWord(rotation, Turn(HilbertCurve, 8, Point(xByte, yByte)), x0, y0);
    }

    /** The table reads of one `entangle` pass: the index and the rotation
        code of the byte pair `(xByte, yByte)`. */
    method PairEntries(xByte: nat, yByte: nat) returns (entry: nat, rotation: nat)
      requires Valid() && xByte < 0x100 && yByte < 0x100
      ensures InBox(8, Point(xByte, yByte))
      ensures entry == CurveIndex(HilbertCurve, 8, Point(xByte, yByte))
      ensures rotation == RotationCode(Turn(HilbertCurve, 8, Point(xByte, yByte)))
    {
      Pow2Chunk();
      KeyEntries(xByte, yByte);
      entry := entangle[Key(xByte, yByte)];
      rotation := this.rotation[Key(xByte, yByte)];
    }

    /** `detangle`: from the lowest 16-bit chunk up, re-orient the bits found
        so far by the rotation code of the chunk's byte pair, and put that
        byte pair above them. */
    method Detangle(tangle: nat) returns (result: Point)
      requires Valid() && tangle < Pow2(64)
      ensures result == CurvePoint(HilbertCurve, 32, tangle)
    {
      result := Point(0, 0);
      ghost var m := 0;
      for logS := 0 to 4
        invariant m == 8 * logS
        invariant result == CurvePoint(HilbertCurve, m, tangle % Pow2(2 * m))
      {
        result := DetangleChunk(tangle, logS, m, result);
        m := m + 8;
      }
      DivModUnique(tangle, Pow2(64), 0, tangle);
    }

    /** The `encode_decode_byte` test, for every `u64`: entangling the point
        that an index detangles to gives the index back. */
    method DetangleEntangle(tangle: nat) returns (result: nat)
      requires Valid() && tangle < Pow2(64)
      ensures result == tangle
    {
      var p := Detangle(tangle);
      result := Entangle(p);
      IndexOfPoint(HilbertCurve, 32, tangle);
    }
  }

  /** The index arithmetic of one pass of the `entangle` loop. */
  lemma EntangleByteIndex(x: nat, y: nat, k: nat, j: nat, result0: nat, entry: nat, result: nat)
    requires k == j + 8 && k <= 32 && InBox(32, Point(x, y))
    requires Pow2(8) == 0x100 && entry == CurveIndex(HilbertCurve, 8, Point((x / Pow2(j)) % 0x100, (y / Pow2(j)) % 0x100))
    requires result == result0 * 0x1_0000 + entry
    ensures (x / Pow2(j)) % 0x100 < 0x100 && (y / Pow2(j)) % 0x100 < 0x100
    ensures
      var b := Point((x / Pow2(j)) % 0x100, (y / Pow2(j)) % 0x100);
      var q := Reorient(Turn(HilbertCurve, 8, b), 32, Point(x, y));
      result0 * Pow2(2 * k) + CurveIndex(HilbertCurve, k, Lo(k, Point(x, y)))
        == result * Pow2(2 * j) + CurveIndex(HilbertCurve, j, Lo(j, q))
  {
    var b := Point((x / Pow2(j)) % 0x100, (y / Pow2(j)) % 0x100);
    EntangleByteStep(Point(x, y), j, k);
    var q := Reorient(Turn(HilbertCurve, 8, b), 32, Point(x, y));
    DigitsAppend(result0, entry, result, CurveIndex(HilbertCurve, k, Lo(k, Point(x, y))),
                 CurveIndex(HilbertCurve, j, Lo(j, q)), j, k);
  }

  /** One byte pair of `entangle`: the index of the low `k` bits of `q` is
      the index of byte pair `j / 8` followed by the index of the low `j`
      bits of `q` re-oriented by that byte pair's turn. */
  lemma EntangleByteStep(q: Point, j: nat, k: nat)
    requires k == j + 8 && k <= 32 && InBox(32, q)
    ensures InBox(8, Point((q.x / Pow2(j)) % 0x100, (q.y / Pow2(j)) % 0x100))
    ensures
      var b := Point((q.x / Pow2(j)) % 0x100, (q.y / Pow2(j)) % 0x100);
      CurveIndex(HilbertCurve, k, Lo(k, q))
        == CurveIndex(HilbertCurve, 8, b) * Pow2(2 * j)
         + CurveIndex(HilbertCurve, j, Lo(j, Reorient(Turn(HilbertCurve, 8, b), 32, q)))
  {
    Pow2Chunk();
    var l := Lo(k, q);
    assert 8 + j == k;
    HiLoNested(8, j, q);
    IndexSplit(HilbertCurve, 8, j, l);
    var b := Point((q.x / Pow2(j)) % 0x100, (q.y / Pow2(j)) % 0x100);
    var i := 32 - j;
    assert i + j == 32;
    ReorientHiLo(Turn(HilbertCurve, 8, b), i, j, q);
  }

  /** Appending a 16-bit entry below the index found so far. */
  lemma DigitsAppend(result: nat, entry: nat, result': nat, rest: nat, below: nat, j: nat, k: nat)
    requires k == j + 8 && rest == entry * Pow2(2 * j) + below && result' == result * 0x1_0000 + entry
    ensures result * Pow2(2 * k) + rest == result' * Pow2(2 * j) + below
  {
    assert 2 * k == 2 * j + 16;
    Pow2Add(2 * j, 16);
    Pow2Chunk();
    DigitsShift(result, entry, result', below, 0x1_0000, Pow2(2 * j), Pow2(2 * k));
  }

  /** The re-orientation step of `entangle`: both coordinates are exchanged
      when bit 1 of the rotation code is set, and complemented within 32 bits
      when the code is 12 or 6. */
  method RotateWord(rotation: nat, ghost o: Orientation, x0: nat, y0: nat) returns (x: nat, y: nat)
    requires rotation == RotationCode(o) && InBox(32, Point(x0, y0))
    ensures Point(x, y) == Reorient(o, 32, Point(x0, y0))
  {
    Pow2Word();
    x, y := x0, y0;
    if (rotation / 2) % 2 != 0 {
      x, y := y, x;
    }
    if rotation == 12 || rotation == 6 {
      x, y := 0xFFFF_FFFF - x, 0xFFFF_FFFF - y;
    }
  }

  /** The re-orientation step of `detangle`: the partial point of the low
      `m = 8 * logS` bits is complemented when the rotation code is 12 or 6,
      and its coordinates exchanged when bit 1 of the code is set. */
  method RotateBelow(rotation: nat, ghost o: Orientation, logS: nat, ghost m: nat, p: Point) returns (r: Point)
    requires rotation == RotationCode(o) && m == 8 * logS && InBox(m, p)
    ensures r == Reorient(o, m, p)
  {
    r := p;
    if rotation == 12 || rotation == 6 {
      r := Point(Pow2(8 * logS) - r.x - 1, Pow2(8 * logS) - r.y - 1);
    }
    if (rotation / 2) % 2 != 0 {
      r := Point(r.y, r.x);
    }
  }

  /** One chunk of `detangle`: the point of the low `n = m + 8` bits of the
      index is the byte pair of chunk `m / 8` above the point of the low `m`
      bits, re-oriented by that byte pair's turn. */
  lemma DetangleChunkStep(t: nat, logS: nat, m: nat, n: nat)
    requires m == 8 * logS && n == m + 8
    ensures Pow2(16 * logS) == Pow2(2 * m) && Pow2(8 * logS) == Pow2(m)
    ensures (t / Pow2(16 * logS)) % 0x1_0000 < Pow2(16)
    ensures
      var b := CurvePoint(HilbertCurve, 8, (t / Pow2(16 * logS)) % 0x1_0000);
      CurvePoint(HilbertCurve, n, t % Pow2(2 * n))
        == Join(8 * logS, b, Reorient(Turn(HilbertCurve, 8, b), m, CurvePoint(HilbertCurve, m, t % Pow2(2 * m))))
  {
    Pow2Chunk();
    assert 16 * logS == 2 * m;
    assert 2 * n == 2 * m + 16;
    var tn := t % Pow2(2 * n);
    Pow2Nested(t, 2 * m, 16);
    assert 8 + m == n;
    PointSplit(HilbertCurve, 8, m, tn);
    var p := CurvePoint(HilbertCurve, n, tn);
    ReorientTwice(Turn(HilbertCurve, 8, Hi(m, p)), m, Lo(m, p));
    HiLoJoin(m, p);
  }

  /** `new`: every byte pair's probe is entangled bit by bit; the top 16 bits
      are its `entangle` entry and the key of its `detangle` entry, and the
      4 bits below are its `rotation` entry. */
  method NewHilbert() returns (h: Hilbert)
    ensures h.Valid()
  {
    var entangle: seq<nat> := [];
    var detangle := new Point[0x1_0000](_ => Point(0, 0));
    var rotation: seq<nat> := [];
    for x := 0 to 0x100
      invariant |entangle| == x * 0x100 && |rotation| == x * 0x100
      invariant EntangleFilled(HilbertCurve, entangle, |entangle|)
      invariant RotationFilled(rotation, |rotation|)
      invariant DetangleFilled(HilbertCurve, detangle[..], x * 0x100)
    {
      entangle, rotation := FillRow(entangle, detangle, rotation, x);
    }
    DetangleComplete(HilbertCurve, detangle[..]);
    h := Hilbert(entangle, detangle[..], rotation);
  }

  /** The entries of the byte pairs `(x, 0) .. (x, 255)`. */
  method FillRow(entangle: seq<nat>, detangle: array<Point>, rotation: seq<nat>, x: nat)
    returns (entangle': seq<nat>, rotation': seq<nat>)
    requires detangle.Length == 0x1_0000 && x < 0x100
    requires |entangle| == x * 0x100 && |rotation| == x * 0x100
    requires EntangleFilled(HilbertCurve, entangle, |entangle|) && RotationFilled(rotation, |rotation|)
    requires DetangleFilled(HilbertCurve, detangle[..], x * 0x100)
    modifies detangle
    ensures |entangle'| == (x + 1) * 0x100 && |rotation'| == (x + 1) * 0x100
    ensures EntangleFilled(HilbertCurve, entangle', |entangle'|) && RotationFilled(rotation', |rotation'|)
    ensures DetangleFilled(HilbertCurve, detangle[..], (x + 1) * 0x100)
  {
    entangle', rotation' := entangle, rotation;
    for y := 0 to 0x100
      invariant |entangle'| == Key(x, y) && |rotation'| == Key(x, y)
      invariant EntangleFilled(HilbertCurve, entangle', |entangle'|) && RotationFilled(rotation', |rotation'|)
      invariant DetangleFilled(HilbertCurve, detangle[..], Key(x, y))
    {
      entangle', rotation' := FillEntry(entangle', detangle, rotation', x, y);
    }
  }

  /** The entries of the byte pair `(x, y)`, read off the index of its probe. */
  method FillEntry(entangle: seq<nat>, detangle: array<Point>, rotation: seq<nat>, x: nat, y: nat)
    returns (entangle': seq<nat>, rotation': seq<nat>)
    requires detangle.Length == 0x1_0000 && x < 0x100 && y < 0x100
    requires |entangle| == Key(x, y) && |rotation| == Key(x, y)
    requires EntangleFilled(HilbertCurve, entangle, |entangle|) && RotationFilled(rotation, |rotation|)
    requires DetangleFilled(HilbertCurve, detangle[..], Key(x, y))
    modifies detangle
    ensures |entangle'| == Key(x, y) + 1 && |rotation'| == Key(x, y) + 1
    ensures EntangleFilled(HilbertCurve, entangle', |entangle'|) && RotationFilled(rotation', |rotation'|)
    ensures DetangleFilled(HilbertCurve, detangle[..], Key(x, y) + 1)
  {
    ProbeIndex(x, y);
    KeyOfPoint(x, y);
    var entangled := BitEntangle(Probe(x, y));
    var index: nat, code: nat := entangled / Pow2(48), (entangled / Pow2(44)) % 0x10;
    ghost var d := detangle[..];
    EntanglePushed(HilbertCurve, entangle, x, y);
    RotationPushed(rotation, x, y);
    DetangleStored(HilbertCurve, d, x, y);
    entangle' := entangle + [index];
    detangle[index] := Point(x, y);
    assert detangle[..] == d[index := Point(x, y)];
    rotation' := rotation + [code];
  }

  /** Pushing the code of the next key extends `rotation` by one key. */
  lemma RotationPushed(r: seq<nat>, x: nat, y: nat)
    requires |r| == Key(x, y) && x < 0x100 && y < 0x100 && RotationFilled(r, |r|)
    ensures RotationFilled(r + [RotationCode(Turn(HilbertCurve, 8, Point(x, y)))], |r| + 1)
  {
    Pow2Chunk();
  }
}
