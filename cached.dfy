/** `BytewiseCached`: a Hilbert detangler that remembers, for the high 48
    bits of the last index it saw, the high 24 bits of both coordinates and
    the orientation of the 8-bit square below them, so that consecutive
    indices with the same high bits cost one table lookup. */
module CachedTangle {
  import opened Bits
  import opened Curves
  import opened Wrappers
  import opened HilbertTangle

  /** The orientation read off the low bytes of the probe point: the last
      cell of the first 16 by 16 block, `(0x0F, 0x00)`, as each of the four
      orientations leaves it. Any other value is the `panic!` arm. */
  function Classify(v: Point): (r: Option<Orientation>)
    ensures r.Some? ==> Reorient(r.value, 8, Point(0x0F, 0x00)) == v
  {
    Pow2Chunk();
    if v == Point(0x0F, 0x00) then Some(Orientation(false, false))
    else if v == Point(0x00, 0x0F) then Some(Orientation(true, false))
    else if v == Point(0xF0, 0xFF) then Some(Orientation(false, true))
    else if v == Point(0xFF, 0xF0) then Some(Orientation(true, true))
    else None
  }

  /** Every orientation of the probe cell is recognised as itself. */
  lemma ClassifyReoriented(o: Orientation)
    ensures Classify(Reorient(o, 8, Point(0x0F, 0x00))) == Some(o)
  {
    Pow2Chunk();
  }

  /** The last cell of the `n`-bit Hilbert square is its bottom-right corner. */
  lemma {:induction false} LastPoint(n: nat)
    ensures CurvePoint(HilbertCurve, n, Pow2(2 * n) - 1) == Point(Pow2(n) - 1, 0)
  {
    if n > 0 {
      var k := n - 1;
      var w := Pow2(2 * k);
      var t := Pow2(2 * n) - 1;
      assert Pow2(2 * n) == 4 * w by {
        assert 2 * n == 2 + 2 * k;
        Pow2Add(2, 2 * k);
        Pow2Small();
      }
      DivModUnique(t, w, 3, w - 1);
      PointStep(HilbertCurve, n, t);
      LastPoint(k);
      var p := CurvePoint(HilbertCurve, n, t);
      HiLoJoin(k, p);
    }
  }

  /** An index in the first quarter of the `n`-bit Hilbert square lies in
      its bottom-left quadrant, with the coordinates exchanged. */
  lemma FirstQuarter(n: nat, t: nat)
    requires n > 0 && t < Pow2(2 * (n - 1))
    ensures CurvePoint(HilbertCurve, n, t)
         == Point(CurvePoint(HilbertCurve, n - 1, t).y, CurvePoint(HilbertCurve, n - 1, t).x)
  {
    var k := n - 1;
    Pow2Mono(2 * k, 2 * n);
    DivModUnique(t, Pow2(2 * k), 0, t);
    PointStep(HilbertCurve, n, t);
    HiLoJoin(k, CurvePoint(HilbertCurve, n, t));
  }

  /** Index 255 of the 8-bit Hilbert square is the cell `(0x0F, 0x00)`. */
  lemma ProbeCell()
    ensures Pow2(16) == 0x1_0000
    ensures CurvePoint(HilbertCurve, 8, 0xFF) == Point(0x0F, 0x00)
  {
    Pow2Narrow();
    LastPoint(4);
    FirstQuarter(5, 0xFF);
    FirstQuarter(6, 0xFF);
    FirstQuarter(7, 0xFF);
    FirstQuarter(8, 0xFF);
  }

  /** The point of a 64-bit index is the point of its high 48 bits, above
      the point of its low 16 bits re-oriented by the turn of the high point. */
  lemma HighChunkSplit(t: nat)
    requires t < Pow2(64)
    ensures t / 0x1_0000 < Pow2(48) && t % 0x1_0000 < Pow2(16)
    ensures
      var q := CurvePoint(HilbertCurve, 24, t / 0x1_0000);
      CurvePoint(HilbertCurve, 32, t)
        == Join(8, q, Reorient(Turn(HilbertCurve, 24, q), 8, CurvePoint(HilbertCurve, 8, t % 0x1_0000)))
  {
    Pow2Chunk();
    assert 2 * (24 + 8) == 64 && 2 * 8 == 16 && 2 * 24 == 48;
    PointSplit(HilbertCurve, 24, 8, t);
    var p := CurvePoint(HilbertCurve, 32, t);
    ReorientTwice(Turn(HilbertCurve, 24, Hi(8, p)), 8, Lo(8, p));
    HiLoJoin(8, p);
  }

  /** The byte pair `b` in orientation `rot`: complemented within the byte
      when flipped, then exchanged when swapped. */
  method OrientByte(rot: Orientation, b: Point) returns (xByte: nat, yByte: nat)
    requires b.x < 0x100 && b.y < 0x100
    ensures Point(xByte, yByte) == Reorient(rot, 8, b)
  {
    Pow2Chunk();
    xByte, yByte := b.x, b.y;
    if rot.flip {
      xByte, yByte := 0xFF - xByte, 0xFF - yByte;
    }
    if rot.swap {
      xByte, yByte := yByte, xByte;
    }
  }

  /** The high 48 and the low 16 bits of a 64-bit index. */
  lemma ChunkBounds(t: nat)
    requires t < Pow2(64)
    ensures t / 0x1_0000 < Pow2(48) && t % 0x1_0000 < Pow2(16)
  {
    Pow2Chunk();
    Pow2Add(48, 16);
    DivBelow(t, 0x1_0000, Pow2(48));
  }

  /** The point that `detangle` assembles from the cache of the high bits of
      `t` and the byte pair `b` at its low 16 bits is the point of `t`. */
  lemma CachedPoint(t: nat, b: Point, out: Point, rot: Orientation)
    requires t < Pow2(64) && t / 0x1_0000 < Pow2(48) && t % 0x1_0000 < Pow2(16)
    requires b == CurvePoint(HilbertCurve, 8, t % 0x1_0000) && Cached(t / 0x1_0000, out, rot)
    ensures InBox(8, b)
    ensures
      var l := Reorient(rot, 8, b);
      CurvePoint(HilbertCurve, 32, t) == Point(out.x + l.x, out.y + l.y)
  {
    Pow2Chunk();
    HighChunkSplit(t);
  }

  /** The probe `(hi << 16) + 255` of the high bits `hi`: its point has the
      high 24 bits of the point of `hi` and, in its low byte, the probe cell
      in the orientation that `hi` leaves to the bytes below it. */
  lemma ProbePoint(hi: nat)
    requires hi < Pow2(48)
    ensures hi * 0x1_0000 + 0xFF < Pow2(64)
    ensures
      var p := CurvePoint(HilbertCurve, 32, hi * 0x1_0000 + 0xFF);
      var q := CurvePoint(HilbertCurve, 24, hi);
      p.x / 0x100 == q.x && p.y / 0x100 == q.y &&
      Classify(Point(p.x % 0x100, p.y % 0x100)) == Some(Turn(HilbertCurve, 24, q))
  {
    var t := hi * 0x1_0000 + 0xFF;
    ProbeBound(hi);
    HighChunkSplit(t);
    DivModUnique(t, 0x1_0000, hi, 0xFF);
    ProbeCell();
    var q := CurvePoint(HilbertCurve, 24, hi);
    var o := Turn(HilbertCurve, 24, q);
    ClassifyReoriented(o);
    JoinByte(q, Reorient(o, 8, Point(0x0F, 0x00)));
  }

  /** What `detangle` keeps of the probe of the high bits `hi`: its high
      bytes and the orientation its low bytes name form the cache of `hi`. */
  lemma ProbeCache(hi: nat, probe: Point)
    requires hi < Pow2(48)
    requires hi * 0x1_0000 + 0xFF < Pow2(64) && probe == CurvePoint(HilbertCurve, 32, hi * 0x1_0000 + 0xFF)
    ensures Classify(Point(probe.x % 0x100, probe.y % 0x100)).Some?
    ensures Cached(hi, Point(ClearLowByte(probe.x), ClearLowByte(probe.y)),
                   Classify(Point(probe.x % 0x100, probe.y % 0x100)).value)
  {
    ProbePoint(hi);
    var q := CurvePoint(HilbertCurve, 24, hi);
    assert ClearLowByte(probe.x) == q.x * 0x100;
    assert ClearLowByte(probe.y) == q.y * 0x100;
  }

  /** A point with a low byte `l` below the high part `q`, split again. */
  lemma JoinByte(q: Point, l: Point)
    requires InBox(8, l)
    ensures var p := Join(8, q, l);
      p.x / 0x100 == q.x && p.y / 0x100 == q.y && Point(p.x % 0x100, p.y % 0x100) == l
  {
    Pow2Chunk();
    DivModUnique(q.x * 0x100 + l.x, 0x100, q.x, l.x);
    DivModUnique(q.y * 0x100 + l.y, 0x100, q.y, l.y);
  }

  /** The probe of 48 high bits fits in 64 bits. */
  lemma ProbeBound(hi: nat)
    requires hi < Pow2(48)
    ensures hi * 0x1_0000 + 0xFF < Pow2(64)
  {
    Pow2Chunk();
    Pow2Add(48, 16);
    MulMono(hi + 1, Pow2(48), 0x1_0000);
  }

  class BytewiseCached {
    var hilbert: Hilbert
    var prevHi: nat
    var prevOut: Point
    var prevRot: Orientation

    /** The tables are those of `Hilbert::new`, and unless `prevHi` still
        holds the sentinel, `prevOut` holds the high 24 bits of both
        coordinates of the point of `prevHi` and `prevRot` its turn. */
    ghost predicate Valid()
      reads this
    {
      hilbert.Valid() &&
      (prevHi < Pow2(48) ==> Cached(prevHi, prevOut, prevRot))
    }

    /** `new`: the sentinel `u64::MAX`, which no `tangle >> 16` equals, so
        that the first `detangle` fills the cache. */
    constructor ()
      ensures Valid() && prevHi == 0
    {
      var tables := NewHilbert();
      hilbert := tables;
      prevHi := 0xFFFF_FFFF_FFFF_FFFF;
      prevOut := Point(0, 0);
      prevRot := Orientation(false, false);
      new;
      Pow2Wide();
      var _ := Detangle(0);
    }

    /** `detangle`: the point of `tangle`, refreshing the cache first when
        the high 48 bits of `tangle` differ from the cached ones. */
    method Detangle(tangle: nat) returns (result: Point)
      requires Valid() && tangle < Pow2(64)
      modifies this
      ensures Valid() && hilbert == old(hilbert)
      ensures result == CurvePoint(HilbertCurve, 32, tangle)
      ensures prevHi == tangle / 0x1_0000
      ensures old(prevHi) == tangle / 0x1_0000 ==> prevOut == old(prevOut) && prevRot == old(prevRot)
    {
      ChunkBounds(tangle);
      var hi := tangle / 0x1_0000;
      if prevHi != hi {
        var out, rot := FillCache(hi);
        Store(hi, out, rot);
      } else {
        assert Cached(hi, prevOut, prevRot);
      }
      result := Assemble(tangle);
    }

    /** The cached path of `detangle`: the byte pair of the low 16 bits of
        `tangle`, in the cached orientation, below the cached high bytes. */
    method Assemble(tangle: nat) returns (result: Point)
      requires hilbert.Valid() && tangle < Pow2(64)
      requires tangle / 0x1_0000 < Pow2(48) && tangle % 0x1_0000 < Pow2(16)
      requires Cached(tangle / 0x1_0000, prevOut, prevRot)
      ensures result == CurvePoint(HilbertCurve, 32, tangle)
    {
      hilbert.DetangleEntry(tangle % 0x1_0000);
      var b := hilbert.detangle[tangle % 0x1_0000];
      CachedPoint(tangle, b, prevOut, prevRot);
      var xByte, yByte := OrientByte(prevRot, b);
      result := Point(prevOut.x + xByte, prevOut.y + yByte);
    }

    /** The cache update of `detangle`. */
    method Store(hi: nat, out: Point, rot: Orientation)
      modifies this
      ensures hilbert == old(hilbert) && prevHi == hi && prevOut == out && prevRot == rot
    {
      prevHi, prevOut, prevRot := hi, out, rot;
    }

    /** The branch of `detangle` that refills the cache for the high bits
        `hi`: the probe `(hi << 16) + 255` is detangled in full, its low
        bytes name the orientation and its high bytes are kept. */
    method FillCache(hi: nat) returns (out: Point, rot: Orientation)
      requires hilbert.Valid() && hi < Pow2(48)
      ensures Cached(hi, out, rot)
    {
      var low := 0xFF;
      ProbeBound(hi);
      var probe := hilbert.Detangle(hi * 0x1_0000 + low);
      ProbeCache(hi, probe);
      var turn := Classify(Point(probe.x % 0x100, probe.y % 0x100));
      if turn.None? {
        assert false;
      }
      out, rot := Point(ClearLowByte(probe.x), ClearLowByte(probe.y)), turn.value;
    }
  }

  /** `v & 0xFFFFFF00` on a `u32`: the value without its low byte. */
  function ClearLowByte(v: nat): (r: nat)
    ensures r % 0x100 == 0 && r <= v < r + 0x100
  {
    (v / 0x100) * 0x100
  }

  /** The cache for the high bits `hi`: the high 24 bits of both coordinates
      of its point, `(x & 0xFFFFFF00, y & 0xFFFFFF00)`, and its turn. */
  ghost predicate Cached(hi: nat, out: Point, rot: Orientation)
    requires hi < Pow2(48)
  {
    var q := CurvePoint(HilbertCurve, 24, hi);
    out == Point(q.x * 0x100, q.y * 0x100) && rot == Turn(HilbertCurve, 24, q)
  }
}
