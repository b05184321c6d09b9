/** The 65536-entry tables that both tanglers build: `entangle[key]` holds
    the 16-bit index of the byte pair `key` in the 8-bit square of a curve,
    and `detangle[z]` the byte pair at index `z`. */
module Tables {
  import opened Bits
  import opened Curves

  /** The table key of a byte pair, `(x_byte << 8) + y_byte`. */
  function Key(xb: nat, yb: nat): nat {
    xb * 0x100 + yb
  }

  /** The byte pair of table key `k`. */
  function KeyPoint(k: nat): Point {
    Point(k / 0x100, k % 0x100)
  }

  lemma KeyOfPoint(x: nat, y: nat)
    requires x < 0x100 && y < 0x100
    ensures Key(x, y) < 0x1_0000 && KeyPoint(Key(x, y)) == Point(x, y)
  {
  }

  /** Keys order byte pairs row by row: the keys up to that of `(x, y)` are
      those below it and its own. */
  lemma KeyNext(x: nat, y: nat, x': nat, y': nat)
    requires x < 0x100 && y < 0x100 && y' < 0x100 && Key(x', y') < Key(x, y) + 1
    ensures Key(x', y') < Key(x, y) || (x' == x && y' == y)
  {
    if x' < x {
      assert Key(x', y') < x * 0x100;
    }
  }

  /** Every byte pair whose key is below `n` has its index stored under its key. */
  ghost predicate EntangleFilled(c: Curve, entangle: seq<nat>, n: nat)
    requires n <= |entangle|
  {
    Pow2Chunk();
    forall x, y {:trigger Key(x, y)} :: x < 0x100 && y < 0x100 && Key(x, y) < n ==>
      entangle[Key(x, y)] == CurveIndex(c, 8, Point(x, y))
  }

  /** Every byte pair whose key is below `n` is stored under its index. */
  ghost predicate DetangleFilled(c: Curve, detangle: seq<Point>, n: nat)
    requires |detangle| == 0x1_0000
  {
    Pow2Chunk();
    forall x, y {:trigger Key(x, y)} :: x < 0x100 && y < 0x100 && Key(x, y) < n ==>
      detangle[CurveIndex(c, 8, Point(x, y))] == Point(x, y)
  }

  /** Every 16-bit index is mapped to its byte pair. */
  ghost predicate DetangleTable(c: Curve, detangle: seq<Point>)
    requires |detangle| == 0x1_0000
  {
    Pow2Chunk();
    forall z :: 0 <= z < 0x1_0000 ==> detangle[z] == CurvePoint(c, 8, z)
  }

  /** Storing the entry of `(x, y)` in place extends `entangle` by one key. */
  lemma EntangleStored(c: Curve, e: seq<nat>, x: nat, y: nat)
    requires |e| == 0x1_0000 && x < 0x100 && y < 0x100 && EntangleFilled(c, e, Key(x, y))
    ensures Key(x, y) < 0x1_0000
    ensures EntangleFilled(c, e[Key(x, y) := CurveIndex(c, 8, Point(x, y))], Key(x, y) + 1)
  {
    Pow2Chunk();
    var e' := e[Key(x, y) := CurveIndex(c, 8, Point(x, y))];
    forall x', y' | x' < 0x100 && y' < 0x100 && Key(x', y') < Key(x, y) + 1
      ensures e'[Key(x', y')] == CurveIndex(c, 8, Point(x', y'))
    {
      KeyNext(x, y, x', y');
    }
  }

  /** Pushing the entry of `(x, y)` extends `entangle` by one key. */
  lemma EntanglePushed(c: Curve, e: seq<nat>, x: nat, y: nat)
    requires |e| == Key(x, y) && x < 0x100 && y < 0x100 && EntangleFilled(c, e, |e|)
    ensures EntangleFilled(c, e + [CurveIndex(c, 8, Point(x, y))], |e| + 1)
  {
    Pow2Chunk();
    var e' := e + [CurveIndex(c, 8, Point(x, y))];
    forall x', y' | x' < 0x100 && y' < 0x100 && Key(x', y') < |e| + 1
      ensures e'[Key(x', y')] == CurveIndex(c, 8, Point(x', y'))
    {
      KeyNext(x, y, x', y');
    }
  }

  /** Storing `(x, y)` under its index extends `detangle` by one key: no
      byte pair with a smaller key has the same index. */
  lemma DetangleStored(c: Curve, d: seq<Point>, x: nat, y: nat)
    requires |d| == 0x1_0000 && x < 0x100 && y < 0x100 && DetangleFilled(c, d, Key(x, y))
    ensures CurveIndex(c, 8, Point(x, y)) < 0x1_0000
    ensures DetangleFilled(c, d[CurveIndex(c, 8, Point(x, y)) := Point(x, y)], Key(x, y) + 1)
  {
    Pow2Chunk();
    var z := CurveIndex(c, 8, Point(x, y));
    var d' := d[z := Point(x, y)];
    forall x', y' | x' < 0x100 && y' < 0x100 && Key(x', y') < Key(x, y) + 1
      ensures d'[CurveIndex(c, 8, Point(x', y'))] == Point(x', y')
    {
      KeyNext(x, y, x', y');
      if Key(x', y') < Key(x, y) {
        PointOfIndex(c, 8, Point(x, y));
        PointOfIndex(c, 8, Point(x', y'));
      }
    }
  }

  /** Once every key is stored, every index is mapped: the 65536 byte pairs
      fill the 65536 indices. */
  lemma DetangleComplete(c: Curve, d: seq<Point>)
    requires |d| == 0x1_0000 && DetangleFilled(c, d, 0x1_0000)
    ensures DetangleTable(c, d)
  {
    Pow2Chunk();
    forall z | 0 <= z < 0x1_0000
      ensures d[z] == CurvePoint(c, 8, z)
    {
      var q := CurvePoint(c, 8, z);
      IndexOfPoint(c, 8, z);
      assert Key(q.x, q.y) < 0x1_0000;
    }
  }
}
