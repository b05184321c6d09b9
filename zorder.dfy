/** The Z-order tangler: a `(u32, u32)` pair and a `u64` are related by
    interleaving bits, bit `b` of `x` at position `2b` and bit `b` of `y` at
    position `2b + 1`. Two 65536-entry tables do the work a byte pair at a
    time; both are characterised by the Z curve of module Curves. */
module ZOrderTangle {
  import opened Bits
  import opened Curves
  import opened Tables

  /** Byte `i` of `v`, `(v >> 8 i) as u8`. */
  function Byte(v: nat, i: nat): (b: nat)
    ensures b < 0x100
  {
    Pow2Chunk();
    if i == 0 then v % Pow2(8) else Byte(Div(v, Pow2(8)), i - 1)
  }

  /** The 16-bit chunk `i` of `t`, `(t >> 16 i) as u16`. */
  function Chunk(t: nat, i: nat): (c: nat)
    ensures c < Pow2(16) && c < 0x1_0000
  {
    Pow2Chunk();
    if i == 0 then t % Pow2(16) else Chunk(Div(t, Pow2(16)), i - 1)
  }

  /** Byte `i` of both coordinates. */
  function BytePair(p: Point, i: nat): Point {
    Point(Byte(p.x, i), Byte(p.y, i))
  }

  /** The table key of byte `i` of both coordinates. */
  function ByteKey(p: Point, i: nat): (k: nat)
    ensures k < 0x1_0000
  {
    Key(Byte(p.x, i), Byte(p.y, i))
  }

  /** The byte pair that the Z curve puts at the 16-bit chunk `i` of `t`. */
  function ChunkPoint(t: nat, i: nat): (q: Point)
    ensures q.x < 0x100 && q.y < 0x100
  {
    Pow2Chunk();
    CurvePoint(ZCurve, 8, Chunk(t, i))
  }

  /** The index with `high` above the `2n` low bits `low`. */
  function Concat(n: nat, high: nat, low: nat): nat {
    high * Pow2(2 * n) + low
  }

  datatype ZOrder = ZOrder(entangle: seq<nat>, detangle: seq<Point>)
  {
    /** `entangle[(x << 8) + y]` interleaves the byte pair `(x, y)` and
        `detangle` maps every 16-bit value back to its byte pair. */
    ghost predicate Valid() {
      Pow2Chunk();
      |entangle| == 0x1_0000 && |detangle| == 0x1_0000 &&
      EntangleFilled(ZCurve, entangle, 0x1_0000) && DetangleTable(ZCurve, detangle)
    }

    /** Four table lookups, one per byte of `x` and `y`, each placed at its
        16-bit position (written most significant first). */
    function Entangle(p: Point): (t: nat)
      requires Valid() && InBox(32, p)
      ensures t == CurveIndex(ZCurve, 32, p)
    {
      IndexBytes(p);
      EntangleEntry(p, 0);
      EntangleEntry(p, 1);
      EntangleEntry(p, 2);
      EntangleEntry(p, 3);
      Concat(8, Concat(8, Concat(8, entangle[ByteKey(p, 3)], entangle[ByteKey(p, 2)]),
                       entangle[ByteKey(p, 1)]),
             entangle[ByteKey(p, 0)])
    }

    /** The entry of a byte pair in the `entangle` table. */
    lemma EntangleEntry(p: Point, i: nat)
      requires Valid()
      ensures entangle[ByteKey(p, i)] == CurveIndex(ZCurve, 8, BytePair(p, i))
    {
      KeyOfPoint(Byte(p.x, i), Byte(p.y, i));
    }

    /** Four table lookups, one per 16-bit chunk of `t`, each byte pair
        placed at its byte position (written most significant first). */
    function Detangle(t: nat): (p: Point)
      requires Valid() && t < Pow2(64)
      ensures p == CurvePoint(ZCurve, 32, t)
    {
      PointBytes(t);
      Join(8, Join(8, Join(8, detangle[Chunk(t, 3)], detangle[Chunk(t, 2)]),
                   detangle[Chunk(t, 1)]),
           detangle[Chunk(t, 0)])
    }
  }

  /** Builds both tables: every byte pair is interleaved bit by bit, stored
      under its key in `entangle` and under its interleave in `detangle`. */
  method NewZOrder() returns (zo: ZOrder)
    ensures zo.Valid()
  {
    var entangle := new nat[0x1_0000](_ => 0);
    var detangle := new Point[0x1_0000](_ => Point(0, 0));
    var x := 0;
    while x < 0x100
      invariant x <= 0x100
      invariant EntangleFilled(ZCurve, entangle[..], x * 0x100)
      invariant DetangleFilled(ZCurve, detangle[..], x * 0x100)
    {
      FillRow(entangle, detangle, x);
      x := x + 1;
    }
    DetangleComplete(ZCurve, detangle[..]);
    zo := ZOrder(entangle[..], detangle[..]);
  }

  /** The entries of the byte pairs `(x, 0) .. (x, 255)`. */
  method FillRow(entangle: array<nat>, detangle: array<Point>, x: nat)
    requires entangle.Length == 0x1_0000 && detangle.Length == 0x1_0000
    requires x < 0x100
    requires EntangleFilled(ZCurve, entangle[..], x * 0x100) && DetangleFilled(ZCurve, detangle[..], x * 0x100)
    modifies entangle, detangle
    ensures EntangleFilled(ZCurve, entangle[..], (x + 1) * 0x100) && DetangleFilled(ZCurve, detangle[..], (x + 1) * 0x100)
  {
    Pow2Chunk();
    var y := 0;
    while y < 0x100
      invariant y <= 0x100
      invariant EntangleFilled(ZCurve, entangle[..], Key(x, y))
      invariant DetangleFilled(ZCurve, detangle[..], Key(x, y))
    {
      var z := Interleave(x, y);
      ghost var e, d := entangle[..], detangle[..];
      KeyOfPoint(x, y);
      detangle[z] := Point(x, y);
      entangle[Key(x, y)] := z;
      assert entangle[..] == e[Key(x, y) := z];
      assert detangle[..] == d[z := Point(x, y)];
      EntangleStored(ZCurve, e, x, y);
      DetangleStored(ZCurve, d, x, y);
      y := y + 1;
    }
  }

  /** The inner loop of the table construction: bit `b` of `x` goes to
      position `2b` and bit `b` of `y` to position `2b + 1`. */
  method Interleave(x: nat, y: nat) returns (z: nat)
    requires x < 0x100 && y < 0x100
    ensures z == CurveIndex(ZCurve, 8, Point(x, y))
  {
    z := 0;
    var b := 0;
    while b < 8
      invariant b <= 8
      invariant z == CurveIndex(ZCurve, b, Lo(b, Point(x, y)))
    {
      InterleaveStep(b, Point(x, y));
      z := z + ((x / Pow2(b)) % 2) * Pow2(2 * b);
      z := z + ((y / Pow2(b)) % 2) * Pow2(2 * b + 1);
      b := b + 1;
    }
    Pow2Chunk();
    HiLoInBox(8, Point(x, y));
  }

  /** Adding level `b`: the Z index of the low `b + 1` bits is that of the
      low `b` bits plus bit `b` of `x` at `2b` and bit `b` of `y` at `2b + 1`. */
  lemma InterleaveStep(b: nat, p: Point)
    ensures CurveIndex(ZCurve, b + 1, Lo(b + 1, p))
         == CurveIndex(ZCurve, b, Lo(b, p))
          + ((p.x / Pow2(b)) % 2) * Pow2(2 * b) + ((p.y / Pow2(b)) % 2) * Pow2(2 * b + 1)
  {
    var l := Lo(b + 1, p);
    var rx, ry := (p.x / Pow2(b)) % 2, (p.y / Pow2(b)) % 2;
    BitPair(b, p);
    IndexStep(ZCurve, b, b + 1, l);
    CodeWeight(rx, ry, b);
  }

  /** The Z quadrant code of `(rx, ry)` at level `b` puts `rx` at `2b` and `ry` at `2b + 1`. */
  lemma CodeWeight(rx: nat, ry: nat, b: nat)
    requires rx < 2 && ry < 2
    ensures QuadrantCode(ZCurve, rx, ry) * Pow2(2 * b) == rx * Pow2(2 * b) + ry * Pow2(2 * b + 1)
  {
    Pow2Add(2 * b, 1);
    Pow2Small();
    var w := Pow2(2 * b);
    assert (rx + 2 * ry) * w == rx * w + ry * (2 * w);
  }

  /** Splitting off the low `n` levels: Z-order never re-orients, so the
      low bits are indexed as they are. */
  lemma IndexChunk(m: nat, n: nat, p: Point)
    requires InBox(m + n, p)
    ensures InBox(m, Hi(n, p))
    ensures CurveIndex(ZCurve, m + n, p) == Concat(n, CurveIndex(ZCurve, m, Hi(n, p)), CurveIndex(ZCurve, n, Lo(n, p)))
  {
    IndexSplit(ZCurve, m, n, p);
    ZTurnUpright(m, Hi(n, p));
  }

  /** Bit `b` of `x` sits at position `2b` of the Z index and bit `b` of `y`
      at position `2b + 1`: the index is the bit interleave. */
  lemma InterleaveDigit(n: nat, b: nat, p: Point)
    requires b < n && InBox(n, p)
    ensures (CurveIndex(ZCurve, n, p) / Pow2(2 * b)) % 4
         == (p.x / Pow2(b)) % 2 + 2 * ((p.y / Pow2(b)) % 2)
  {
    var k := b + 1;
    var rx, ry := (p.x / Pow2(b)) % 2, (p.y / Pow2(b)) % 2;
    var high := CurveIndexAbove(n - k, k, n, p);
    var low := CurveIndex(ZCurve, k, Lo(k, p));
    var below := CurveIndex(ZCurve, b, Lo(b, p));
    var w := Pow2(2 * b);
    InterleaveStep(b, p);
    DigitWeights(b, k);
    assert CurveIndex(ZCurve, n, p) == high * (4 * w) + (below + rx * w + ry * (2 * w));
    DigitAt(high, rx, ry, below, w);
  }

  /** The Z index of the levels above the low `k` bits, which stand above
      the index of the low `k` bits. */
  lemma CurveIndexAbove(m: nat, k: nat, n: nat, p: Point) returns (high: nat)
    requires n == m + k && InBox(n, p)
    ensures CurveIndex(ZCurve, n, p) == high * Pow2(2 * k) + CurveIndex(ZCurve, k, Lo(k, p))
  {
    IndexChunk(m, k, p);
    high := CurveIndex(ZCurve, m, Hi(k, p));
  }

  /** The weights of the digit at level `b`. */
  lemma DigitWeights(b: nat, k: nat)
    requires k == b + 1
    ensures Pow2(2 * k) == 4 * Pow2(2 * b) && Pow2(2 * b + 1) == 2 * Pow2(2 * b)
  {
    Pow2Add(2 * b, 1);
    Pow2Add(2 * b, 2);
    Pow2Small();
  }

  /** The digit of weight `w` in base 4 of `high` above `ry ry` above `below`. */
  lemma DigitAt(high: nat, rx: nat, ry: nat, below: nat, w: nat)
    requires rx < 2 && ry < 2 && below < w
    ensures ((high * (4 * w) + (below + rx * w + ry * (2 * w))) / w) % 4 == rx + 2 * ry
  {
    var q := high * 4 + (rx + 2 * ry);
    assert high * (4 * w) + (below + rx * w + ry * (2 * w)) == q * w + below;
    DivModUnique(q * w + below, w, q, below);
    DivModUnique(q, 4, high, rx + 2 * ry);
  }

  /** The Z index of a 32-bit pair is made of the interleaves of its four
      byte pairs, byte `i` at 16-bit position `i`. */
  lemma IndexBytes(p: Point)
    requires InBox(32, p)
    ensures CurveIndex(ZCurve, 32, p)
         == Concat(8, Concat(8, Concat(8, CurveIndex(ZCurve, 8, BytePair(p, 3)),
                                          CurveIndex(ZCurve, 8, BytePair(p, 2))),
                                CurveIndex(ZCurve, 8, BytePair(p, 1))),
                   CurveIndex(ZCurve, 8, BytePair(p, 0)))
  {
    var h1 := Hi(8, p);
    IndexChunk(24, 8, p);
    var h2 := Hi(8, h1);
    IndexChunk(16, 8, h1);
    var h3 := Hi(8, h2);
    IndexChunk(8, 8, h2);
    HiLoInBox(8, h3);
    assert BytePair(p, 0) == Lo(8, p);
    assert BytePair(p, 1) == BytePair(h1, 0) == Lo(8, h1);
    assert BytePair(p, 2) == BytePair(h1, 1) == BytePair(h2, 0) == Lo(8, h2);
    assert BytePair(p, 3) == BytePair(h1, 2) == BytePair(h2, 1) == BytePair(h3, 0) == Lo(8, h3);
  }

  /** Splitting off the low `2n` bits of an index: Z-order never re-orients,
      so the low part decodes as it is. */
  lemma PointChunk(m: nat, n: nat, t: nat)
    requires t < Pow2(2 * (m + n))
    ensures Div(t, Pow2(2 * n)) < Pow2(2 * m)
    ensures CurvePoint(ZCurve, m + n, t)
         == Join(n, CurvePoint(ZCurve, m, Div(t, Pow2(2 * n))), CurvePoint(ZCurve, n, t % Pow2(2 * n)))
  {
    PointSplit(ZCurve, m, n, t);
    var p := CurvePoint(ZCurve, m + n, t);
    ZTurnUpright(m, Hi(n, p));
    HiLoJoin(n, p);
  }

  /** The point of the `m` low 16-bit chunks of `t`: chunk `i` gives byte `i`
      of both coordinates, and no state passes between chunks. */
  function ChunksPoint(t: nat, m: nat): Point
    decreases m
  {
    if m == 0 then Point(0, 0) else Join(8, ChunksPoint(Div(t, Pow2(16)), m - 1), ChunkPoint(t, 0))
  }

  /** Decoding `8m` bits a chunk at a time is decoding them at once. */
  lemma {:induction false} PointChunks(m: nat, n: nat, t: nat)
    requires n == 8 * m && t < Pow2(2 * n)
    ensures CurvePoint(ZCurve, n, t) == ChunksPoint(t, m)
  {
    if m > 0 {
      var k := n - 8;
      PointLowChunk(k, n, t);
      PointChunks(m - 1, k, Div(t, Pow2(16)));
    }
  }

  /** The point of a 64-bit index is assembled from the byte pairs of its
      four 16-bit chunks, chunk `i` giving byte `i` of both coordinates. */
  lemma PointBytes(t: nat)
    requires t < Pow2(64)
    ensures CurvePoint(ZCurve, 32, t)
         == Join(8, Join(8, Join(8, ChunkPoint(t, 3), ChunkPoint(t, 2)),
                         ChunkPoint(t, 1)),
                 ChunkPoint(t, 0))
  {
    PointChunks(4, 32, t);
    ChunksPointFour(t);
  }

  /** Four chunks, written out. */
  lemma ChunksPointFour(t: nat)
    ensures ChunksPoint(t, 4)
         == Join(8, Join(8, Join(8, ChunkPoint(t, 3), ChunkPoint(t, 2)),
                         ChunkPoint(t, 1)),
                 ChunkPoint(t, 0))
  {
    var t1 := Div(t, Pow2(16));
    var t2 := Div(t1, Pow2(16));
    var t3 := Div(t2, Pow2(16));
    ChunkPointNext(t, 0);
    ChunkPointNext(t, 1);
    ChunkPointNext(t, 2);
    ChunkPointNext(t1, 0);
    ChunkPointNext(t1, 1);
    ChunkPointNext(t2, 0);
    assert ChunksPoint(t3, 1) == Join(8, ChunksPoint(Div(t3, Pow2(16)), 0), ChunkPoint(t3, 0));
    HiLoInBox(8, ChunkPoint(t3, 0));
  }

  /** Splitting off the low 16-bit chunk of an index. */
  lemma PointLowChunk(k: nat, n: nat, t: nat)
    requires n == k + 8 && t < Pow2(2 * n)
    ensures Div(t, Pow2(16)) < Pow2(2 * k)
    ensures CurvePoint(ZCurve, n, t) == Join(8, CurvePoint(ZCurve, k, Div(t, Pow2(16))), ChunkPoint(t, 0))
  {
    PointChunk(k, 8, t);
  }

  /** Chunk `i + 1` is chunk `i` of the value shifted right by 16 bits. */
  lemma ChunkNext(t: nat, i: nat)
    ensures Chunk(t, i + 1) == Chunk(Div(t, Pow2(16)), i)
  {
  }

  lemma ChunkPointNext(t: nat, i: nat)
    ensures ChunkPoint(t, i + 1) == ChunkPoint(Div(t, Pow2(16)), i)
  {
    ChunkNext(t, i);
  }

  /** A value below `2^16` is its own low chunk. */
  lemma ChunkTop(t: nat)
    requires t < Pow2(16)
    ensures Chunk(t, 0) == t
  {
    DivModUnique(t, Pow2(16), 0, t);
  }

  /** Decoding inverts encoding for every pair of `u32` values. */
  lemma DetangleEntangle(zo: ZOrder, p: Point)
    requires zo.Valid() && InBox(32, p)
    ensures zo.Entangle(p) < Pow2(64) && zo.Detangle(zo.Entangle(p)) == p
  {
    PointOfIndex(ZCurve, 32, p);
  }

  /** Encoding inverts decoding for every `u64` value. */
  lemma EntangleDetangle(zo: ZOrder, t: nat)
    requires zo.Valid() && t < Pow2(64)
    ensures zo.Entangle(zo.Detangle(t)) == t
  {
    IndexOfPoint(ZCurve, 32, t);
  }

  /** The chunks of an index with `high` above the 16 low bits `low`. */
  lemma ConcatChunks(high: nat, low: nat, i: nat)
    requires low < Pow2(16)
    ensures Chunk(Concat(8, high, low), 0) == low
    ensures Chunk(Concat(8, high, low), i + 1) == Chunk(high, i)
  {
    DivModUnique(Concat(8, high, low), Pow2(16), high, low);
  }

  /** Bits `16i .. 16i + 15` of the result depend only on byte `i` of `x`
      and byte `i` of `y`: they are the table entry of that byte pair. */
  lemma EntangleByteGroup(zo: ZOrder, p: Point, i: nat)
    requires zo.Valid() && InBox(32, p) && i < 4
    ensures Chunk(zo.Entangle(p), i) == zo.entangle[ByteKey(p, i)]
  {
    var e0, e1 := zo.entangle[ByteKey(p, 0)], zo.entangle[ByteKey(p, 1)];
    var e2, e3 := zo.entangle[ByteKey(p, 2)], zo.entangle[ByteKey(p, 3)];
    zo.EntangleEntry(p, 0);
    zo.EntangleEntry(p, 1);
    zo.EntangleEntry(p, 2);
    zo.EntangleEntry(p, 3);
    ChunksOfFour(e0, e1, e2, e3, i);
  }

  /** The chunks of four 16-bit values placed side by side. */
  lemma ChunksOfFour(e0: nat, e1: nat, e2: nat, e3: nat, i: nat)
    requires e0 < Pow2(16) && e1 < Pow2(16) && e2 < Pow2(16) && e3 < Pow2(16) && i < 4
    ensures Chunk(Concat(8, Concat(8, Concat(8, e3, e2), e1), e0), i) == [e0, e1, e2, e3][i]
  {
    var a := Concat(8, e3, e2);
    var b := Concat(8, a, e1);
    if i == 0 {
      ConcatChunks(b, e0, 0);
    } else {
      ConcatChunks(b, e0, i - 1);
      if i == 1 {
        ConcatChunks(a, e1, 0);
      } else {
        ConcatChunks(a, e1, i - 2);
        ConcatChunks(e3, e2, 0);
        if i == 3 {
          ChunkTop(e3);
        }
      }
    }
  }
}
