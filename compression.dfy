/** Delta compression of sequences of `u64` values: each value is stored as
    its difference from the previous one, in a tag byte when the difference
    is between 1 and 255, and otherwise behind a zero tag in one of three
    overflow streams of 16, 32 or 64 bits, the choice being recorded in a
    fourth stream of `Others`. Subtraction and addition wrap modulo 2^64, as
    `u64` arithmetic does in a release build. */
module Compression {
  import opened Bits
  import opened Wrappers

  /** Which overflow stream a zero tag consumed. */
  datatype Others = Unsigned16 | Unsigned32 | Unsigned64

  /** The five streams of a `Compressed`, as values. */
  datatype Streams = Streams(bytes: seq<U8>, other: seq<Others>, u16s: seq<U16>, u32s: seq<U32>, u64s: seq<U64>)

  const NoStreams := Streams([], [], [], [], [])

  /** `u64` subtraction, wrapping: the difference, borrowing 2^64 when it
      would fall below zero. */
  function WrapSub(a: U64, b: U64): (r: U64)
    ensures b <= a ==> r == a - b
    ensures a < b ==> r == a + 0x1_0000_0000_0000_0000 - b
  {
    (a - b) % 0x1_0000_0000_0000_0000
  }

  /** `u64` addition, wrapping. */
  function WrapAdd(a: U64, b: U64): U64 {
    (a + b) % 0x1_0000_0000_0000_0000
  }

  /** The wrapping sum is the sum, less 2^64 when it would overflow. */
  lemma WrapAddCarry(a: U64, b: U64)
    ensures a + b < 0x1_0000_0000_0000_0000 ==> WrapAdd(a, b) == a + b
    ensures 0x1_0000_0000_0000_0000 <= a + b ==> WrapAdd(a, b) == a + b - 0x1_0000_0000_0000_0000
  {
  }

  /** Adding back a wrapped difference recovers the value. */
  lemma WrapInverse(v: U64, prev: U64)
    ensures WrapAdd(prev, WrapSub(v, prev)) == v
  {
    var m := 0x1_0000_0000_0000_0000;
    var q := (v - prev) / m;
    var d := WrapSub(v, prev);
    assert v - prev == q * m + d;
    DivModUnique(prev + d, m, -q, v);
  }

  /** Every zero tag has its `Others` entry, and every `Others` entry its
      value in the stream it names. */
  ghost predicate Consistent(s: Streams) {
    multiset(s.bytes)[0] == |s.other| &&
    multiset(s.other)[Unsigned16] == |s.u16s| &&
    multiset(s.other)[Unsigned32] == |s.u32s| &&
    multiset(s.other)[Unsigned64] == |s.u64s|
  }

  /** The count invariant of the streams: as many zero tags as `Others`
      entries, and as many of those as overflow values altogether. */
  lemma StreamCounts(s: Streams)
    requires Consistent(s)
    ensures multiset(s.bytes)[0] == |s.other| == |s.u16s| + |s.u32s| + |s.u64s|
  {
    OthersCount(s.other);
  }

  lemma {:induction false} OthersCount(other: seq<Others>)
    ensures |other| == multiset(other)[Unsigned16] + multiset(other)[Unsigned32] + multiset(other)[Unsigned64]
  {
    if other != [] {
      var rest := other[1..];
      assert other == [other[0]] + rest;
      assert multiset(other) == multiset{other[0]} + multiset(rest);
      OthersCount(rest);
      match other[0] {
        case Unsigned16 => assert multiset(other)[Unsigned16] == multiset(rest)[Unsigned16] + 1;
        case Unsigned32 => assert multiset(other)[Unsigned32] == multiset(rest)[Unsigned32] + 1;
        case Unsigned64 => assert multiset(other)[Unsigned64] == multiset(rest)[Unsigned64] + 1;
      }
    }
  }

  /** The streams of `s` followed by those of `t`. */
  function Append(s: Streams, t: Streams): (r: Streams)
    ensures |r.bytes| == |s.bytes| + |t.bytes|
  {
    Streams(s.bytes + t.bytes, s.other + t.other, s.u16s + t.u16s, s.u32s + t.u32s, s.u64s + t.u64s)
  }

  /** Appending keeps the count invariant. */
  lemma AppendConsistent(s: Streams, t: Streams)
    requires Consistent(s) && Consistent(t)
    ensures Consistent(Append(s, t))
  {
  }

  /** What `push(delta)` appends to the streams. */
  function Single(delta: U64): (r: Streams)
    ensures |r.bytes| == 1
  {
    if 0 < delta < 0x100 then Streams([delta], [], [], [], [])
    else if delta < 0x1_0000 then Streams([0], [Unsigned16], [delta], [], [])
    else if delta < 0x1_0000_0000 then Streams([0], [Unsigned32], [], [delta], [])
    else Streams([0], [Unsigned64], [], [], [delta])
  }

  /** The decompressor's step reads back exactly the delta that `push`
      stored, and nothing is left over. */
  lemma SingleStep(delta: U64)
    ensures Consistent(Single(delta)) && Step(Single(delta)) == (delta, NoStreams)
  {
  }

  /** The tier of each boundary delta: 1 and 255 go in the tag byte, 0, 256
      and 65535 to the 16-bit stream, 65536 and 2^32 - 1 to the 32-bit stream
      and 2^32 to the 64-bit stream. */
  lemma TierBoundaries()
    ensures Single(1) == Streams([1], [], [], [], []) && Single(255) == Streams([255], [], [], [], [])
    ensures Single(0) == Streams([0], [Unsigned16], [0], [], [])
    ensures Single(256) == Streams([0], [Unsigned16], [256], [], [])
    ensures Single(0xFFFF) == Streams([0], [Unsigned16], [0xFFFF], [], [])
    ensures Single(0x1_0000) == Streams([0], [Unsigned32], [], [0x1_0000], [])
    ensures Single(0xFFFF_FFFF) == Streams([0], [Unsigned32], [], [0xFFFF_FFFF], [])
    ensures Single(0x1_0000_0000) == Streams([0], [Unsigned64], [], [], [0x1_0000_0000])
  {
  }

  /** One step of the decompressor: the next delta and the streams left. */
  function Step(s: Streams): (r: (U64, Streams))
    requires Consistent(s) && |s.bytes| > 0
    ensures Consistent(r.1) && |r.1.bytes| == |s.bytes| - 1
  {
    var rest := s.bytes[1..];
    assert s.bytes == [s.bytes[0]] + rest;
    if s.bytes[0] > 0 then (s.bytes[0], s.(bytes := rest))
    else
      var others := s.other[1..];
      assert s.other == [s.other[0]] + others;
      match s.other[0]
      case Unsigned16 => (s.u16s[0], Streams(rest, others, s.u16s[1..], s.u32s, s.u64s))
      case Unsigned32 => (s.u32s[0], Streams(rest, others, s.u16s, s.u32s[1..], s.u64s))
      case Unsigned64 => (s.u64s[0], Streams(rest, others, s.u16s, s.u32s, s.u64s[1..]))
  }

  /** The entries a step reads are there: behind a zero tag an `Others`
      entry, and a value in the stream it names. */
  lemma StepDefined(s: Streams)
    requires Consistent(s) && |s.bytes| > 0
    ensures s.bytes[0] == 0 ==> |s.other| > 0
    ensures s.bytes[0] == 0 && s.other[0] == Unsigned16 ==> |s.u16s| > 0
    ensures s.bytes[0] == 0 && s.other[0] == Unsigned32 ==> |s.u32s| > 0
    ensures s.bytes[0] == 0 && s.other[0] == Unsigned64 ==> |s.u64s| > 0
  {
    assert s.bytes == [s.bytes[0]] + s.bytes[1..];
    if s.bytes[0] == 0 {
      assert s.other == [s.other[0]] + s.other[1..];
    }
  }

  /** A step reads only the streams of its first value. */
  lemma StepAppend(s: Streams, t: Streams)
    requires Consistent(s) && Consistent(t) && |s.bytes| > 0
    ensures Step(Append(s, t)) == (Step(s).0, Append(Step(s).1, t))
  {
    TailAppend(s.bytes, t.bytes);
    if s.bytes[0] == 0 {
      assert s.bytes == [s.bytes[0]] + s.bytes[1..];
      assert s.other == [s.other[0]] + s.other[1..];
      TailAppend(s.other, t.other);
      match s.other[0] {
        case Unsigned16 => TailAppend(s.u16s, t.u16s);
        case Unsigned32 => TailAppend(s.u32s, t.u32s);
        case Unsigned64 => TailAppend(s.u64s, t.u64s);
      }
    }
  }

  lemma TailAppend<T>(a: seq<T>, b: seq<T>)
    requires |a| > 0
    ensures (a + b)[0] == a[0] && (a + b)[1..] == a[1..] + b
  {
  }

  /** The values the decompressor yields from `s`, starting from `current`. */
  function Decode(s: Streams, current: U64): (r: seq<U64>)
    requires Consistent(s)
    ensures |r| == |s.bytes|
    decreases |s.bytes|
  {
    if |s.bytes| == 0 then []
    else
      var step := Step(s);
      var next := WrapAdd(current, step.0);
      [next] + Decode(step.1, next)
  }

  /** Decoding the streams of one delta followed by others. */
  lemma DecodeCons(delta: U64, t: Streams, current: U64)
    requires Consistent(t)
    ensures Consistent(Append(Single(delta), t))
    ensures Decode(Append(Single(delta), t), current)
         == [WrapAdd(current, delta)] + Decode(t, WrapAdd(current, delta))
  {
    SingleStep(delta);
    AppendConsistent(Single(delta), t);
    StepAppend(Single(delta), t);
    AppendEmpty(t);
  }

  /** The streams of `values` pushed after `prev`. */
  function Encode(values: seq<U64>, prev: U64): (r: Streams)
    ensures |r.bytes| == |values|
  {
    if values == [] then NoStreams
    else Append(Single(WrapSub(values[0], prev)), Encode(values[1..], values[0]))
  }

  /** Every encoding keeps the count invariant. */
  lemma {:induction false} EncodeConsistent(values: seq<U64>, prev: U64)
    ensures Consistent(Encode(values, prev))
  {
    if values != [] {
      SingleStep(WrapSub(values[0], prev));
      EncodeConsistent(values[1..], values[0]);
      AppendConsistent(Single(WrapSub(values[0], prev)), Encode(values[1..], values[0]));
    }
  }

  /** The last of `values`, or `prev` when there is none. */
  function Last(values: seq<U64>, prev: U64): U64 {
    if values == [] then prev else values[|values| - 1]
  }

  /** Pushing one more value appends the streams of its difference from the last. */
  lemma {:induction false} EncodeSnoc(values: seq<U64>, v: U64, prev: U64)
    ensures Encode(values + [v], prev) == Append(Encode(values, prev), Single(WrapSub(v, Last(values, prev))))
  {
    var last := Single(WrapSub(v, Last(values, prev)));
    if values == [] {
      assert Encode([v], prev) == Append(last, Encode([], v));
      AppendEmpty(last);
    } else {
      var first := Single(WrapSub(values[0], prev));
      assert (values + [v])[1..] == values[1..] + [v];
      assert Encode(values + [v], prev) == Append(first, Encode(values[1..] + [v], values[0]));
      EncodeSnoc(values[1..], v, values[0]);
      AppendAssoc(first, Encode(values[1..], values[0]), last);
    }
  }

  lemma AppendEmpty(s: Streams)
    ensures Append(s, NoStreams) == s && Append(NoStreams, s) == s
  {
  }

  lemma AppendAssoc(a: Streams, b: Streams, c: Streams)
    ensures Append(Append(a, b), c) == Append(a, Append(b, c))
  {
  }

  /** The round trip: decoding the streams of `values` gives `values` back,
      for every sequence of `u64`, increasing or not. */
  lemma {:induction false} RoundTrip(values: seq<U64>, prev: U64)
    ensures Consistent(Encode(values, prev))
    ensures Decode(Encode(values, prev), prev) == values
  {
    EncodeConsistent(values, prev);
    if values != [] {
      RoundTrip(values[1..], values[0]);
      DecodeFirst(values, prev);
    }
  }

  /** Decoding the streams of `values` yields the first value, then what the
      streams of the rest decode to. */
  lemma DecodeFirst(values: seq<U64>, prev: U64)
    requires values != [] && Consistent(Encode(values[1..], values[0]))
    ensures Consistent(Encode(values, prev))
    ensures Decode(Encode(values, prev), prev) == [values[0]] + Decode(Encode(values[1..], values[0]), values[0])
  {
    var d := WrapSub(values[0], prev);
    var rest := Encode(values[1..], values[0]);
    assert Encode(values, prev) == Append(Single(d), rest);
    DecodeCons(d, rest, prev);
    WrapInverse(values[0], prev);
  }

  /** `Compressed`: the five streams, appended to in place. */
  class Compressed {
    var bytes: seq<U8>
    var other: seq<Others>
    var u16s: seq<U16>
    var u32s: seq<U32>
    var u64s: seq<U64>

    function Contents(): Streams
      reads this
    {
      Streams(bytes, other, u16s, u32s, u64s)
    }

    ghost predicate Valid()
      reads this
    {
      Consistent(Contents())
    }

    constructor ()
      ensures Contents() == NoStreams && Valid()
    {
      bytes, other, u16s, u32s, u64s := [], [], [], [], [];
    }

    /** `push`: one tag byte, and behind a zero tag one `Others` entry and
        one value in the stream of the narrowest width that holds `delta`. */
    method Push(delta: U64)
      modifies this
      ensures Contents() == Append(old(Contents()), Single(delta))
    {
      if 0 < delta && delta < 0x100 {
        bytes := bytes + [delta];
      } else {
        bytes := bytes + [0];
        if delta < 0x1_0000 {
          other := other + [Unsigned16];
          u16s := u16s + [delta];
        } else if delta < 0x1_0000_0000 {
          other := other + [Unsigned32];
          u32s := u32s + [delta];
        } else {
          other := other + [Unsigned64];
          u64s := u64s + [delta];
        }
      }
    }

    /** `Compressed::from`: every value pushed through a fresh `Compressor`. */
    static method From(values: seq<U64>) returns (c: Compressed)
      ensures fresh(c) && c.Valid() && c.Contents() == Encode(values, 0)
    {
      var compressor := new Compressor.WithCapacity(|values|);
      for i := 0 to |values|
        invariant fresh(compressor) && fresh(compressor.compressed)
        invariant compressor.Valid() && compressor.pushed == values[..i]
      {
        compressor.Push(values[i]);
        assert values[..i + 1] == values[..i] + [values[i]];
      }
      assert values[..|values|] == values;
      c := compressor.Done();
    }

    /** `decompress`: a decompressor at the start of the streams. */
    method Decompress() returns (d: Decompressor)
      requires Valid()
      ensures fresh(d) && d.Valid() && d.Yet() == Decode(Contents(), 0)
    {
      d := new Decompressor(bytes, other, u16s, u32s, u64s);
    }
  }

  /** `Compressor`: the streams so far and the last value pushed. The ghost
      field `pushed` holds the values pushed so far. */
  class Compressor {
    var current: U64
    var compressed: Compressed
    ghost var pushed: seq<U64>

    ghost predicate Valid()
      reads this, compressed
    {
      current == Last(pushed, 0) && compressed.Contents() == Encode(pushed, 0)
    }

    /** `with_capacity`: nothing pushed, `current` at 0. The capacity is an
        allocation hint only. */
    constructor WithCapacity(size: nat)
      ensures Valid() && pushed == [] && current == 0 && fresh(compressed)
    {
      current := 0;
      compressed := new Compressed();
      pushed := [];
    }

    /** `new`: `with_capacity(0)`. */
    static method New() returns (c: Compressor)
      ensures fresh(c) && fresh(c.compressed) && c.Valid() && c.pushed == [] && c.current == 0
    {
      c := new Compressor.WithCapacity(0);
    }

    /** `push`: the wrapped difference from the last value is pushed, and
        `next` becomes the last value. No order is checked. */
    method Push(next: U64)
      requires Valid()
      modifies this, compressed
      ensures Valid() && compressed == old(compressed)
      ensures pushed == old(pushed) + [next] && current == next
    {
      compressed.Push(WrapSub(next, current));
      EncodeSnoc(pushed, next, 0);
      current := next;
      pushed := pushed + [next];
    }

    /** `done`: the streams, which encode every value pushed. */
    method Done() returns (c: Compressed)
      requires Valid()
      ensures c == compressed && c.Valid() && c.Contents() == Encode(pushed, 0)
    {
      c := compressed;
      EncodeConsistent(pushed, 0);
    }
  }

  /** `Decompressor`: the running value and what is left of each stream.
      The slice iterators of the streams become the remaining suffixes. */
  class Decompressor {
    var current: U64
    var bytes: seq<U8>
    var other: seq<Others>
    var u16s: seq<U16>
    var u32s: seq<U32>
    var u64s: seq<U64>

    function Remaining(): Streams
      reads this
    {
      Streams(bytes, other, u16s, u32s, u64s)
    }

    ghost predicate Valid()
      reads this
    {
      Consistent(Remaining())
    }

    /** The values still to come. */
    ghost function Yet(): seq<U64>
      requires Valid()
      reads this
    {
      Decode(Remaining(), current)
    }

    constructor (bytes: seq<U8>, other: seq<Others>, u16s: seq<U16>, u32s: seq<U32>, u64s: seq<U64>)
      requires Consistent(Streams(bytes, other, u16s, u32s, u64s))
      ensures Remaining() == Streams(bytes, other, u16s, u32s, u64s) && current == 0
    {
      this.current := 0;
      this.bytes, this.other := bytes, other;
      this.u16s, this.u32s, this.u64s := u16s, u32s, u64s;
    }

    /** `next`: `None` once the tags run out; otherwise one tag, and behind a
        zero tag one `Others` entry and one value of the stream it names, are
        consumed, their delta is added to `current`, and `current` is yielded. */
    method Next() returns (r: Option<U64>)
      requires Valid()
      modifies this
      ensures Valid()
      ensures old(|bytes|) == 0 ==> r.None? && Remaining() == old(Remaining()) && current == old(current)
      ensures old(|bytes|) > 0 ==>
        var step := Step(old(Remaining()));
        Remaining() == step.1 && current == WrapAdd(old(current), step.0) && r == Some(current)
      ensures old(Yet()) == (if r.Some? then [r.value] + Yet() else [])
      ensures r.Some? == (old(|bytes|) > 0) && |bytes| == if r.Some? then old(|bytes|) - 1 else 0
    {
      if |bytes| == 0 {
        return None;
      }
      ghost var step := Step(Remaining());
      StepDefined(Remaining());
      var byte := bytes[0];
      bytes := bytes[1..];
      if byte > 0 {
        current := WrapAdd(current, byte);
      } else {
        var which := other[0];
        other := other[1..];
        match which {
          case Unsigned16 =>
            current := WrapAdd(current, u16s[0]);
            u16s := u16s[1..];
          case Unsigned32 =>
            current := WrapAdd(current, u32s[0]);
            u32s := u32s[1..];
          case Unsigned64 =>
            current := WrapAdd(current, u64s[0]);
            u64s := u64s[1..];
        }
      }
      r := Some(current);
      assert Remaining() == step.1;
    }

    /** `size_hint`: the remaining tags, an exact count of the values to come. */
    function SizeHint(): (r: (nat, Option<nat>))
      reads this
      ensures Valid() ==> r.0 == |Yet()| && r.1 == Some(|Yet()|)
    {
      (|bytes|, Some(|bytes|))
    }

    /** Draining the decompressor with `next` yields every value still to come. */
    method Collect() returns (values: seq<U64>)
      requires Valid()
      modifies this
      ensures Valid() && values == old(Yet()) && bytes == []
    {
      values := [];
      while |bytes| > 0
        invariant Valid() && old(Yet()) == values + Yet()
        decreases |bytes|
      {
        var r := Next();
        values := values + [r.value];
      }
    }
  }

  /** The `compress_decompress` test: a sequence compressed and drained again. */
  method CompressDecompress() returns (result: seq<U64>)
    ensures result == [0, 1, 2, 4, 100, 123412, 1543245423]
  {
    var source: seq<U64> := [0, 1, 2, 4, 100, 123412, 1543245423];
    var compressed := Compressed.From(source);
    var decompressor := compressed.Decompress();
    result := decompressor.Collect();
    RoundTrip(source, 0);
  }
}
