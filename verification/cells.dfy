/** The `qcom,memblock-remove` and `qcom,memblock-reserve` device-tree properties: byte strings
    holding (start, size) pairs as big-endian 32-bit cells. */
module Cells {
  import opened Options
  import opened Banks

  /** A property is read as 4-byte cells (`sizeof(unsigned int)`), two cells to a pair. */
  type byte = x: int | 0 <= x < 256

  datatype Pair = Pair(start: nat, size: nat)

  /** `be32_to_cpu` of the four bytes at `off`, the most significant first. */
  function Be32(p: seq<byte>, off: nat): (v: nat)
    requires off + 4 <= |p|
    ensures v < WORD
  {
    ((p[off] as int * 256 + p[off + 1]) * 256 + p[off + 2]) * 256 + p[off + 3]
  }

  /** The four big-endian bytes of a 32-bit value. */
  function BytesOf(v: nat): (b: seq<byte>)
    requires v < WORD
    ensures |b| == 4
  {
    [v / 0x100_0000, v / 0x1_0000 % 256, v / 0x100 % 256, v % 256]
  }

  lemma DivMod256(x: nat, d: nat)
    requires d < 256
    ensures (x * 256 + d) / 256 == x && (x * 256 + d) % 256 == d
  {
  }

  /** Reading back the bytes of a value gives the value. */
  lemma Be32BytesOf(v: nat)
    requires v < WORD
    ensures Be32(BytesOf(v), 0) == v
  {
    var v1, v2 := v / 256, v / 0x1_0000;
    assert v == v1 * 256 + v % 256;
    assert v1 == v2 * 256 + v1 % 256;
    assert v2 == (v / 0x100_0000) * 256 + v2 % 256;
    assert v1 % 256 == v / 0x100 % 256 && v2 % 256 == v / 0x1_0000 % 256;
    assert v2 / 256 == v / 0x100_0000;
  }

  /** The bytes of a value read from a property are the bytes it was read from. */
  lemma BytesOfBe32(p: seq<byte>, off: nat)
    requires off + 4 <= |p|
    ensures BytesOf(Be32(p, off)) == p[off..off + 4]
  {
    var a: int, b: int, c: int, d: int := p[off], p[off + 1], p[off + 2], p[off + 3];
    var x2 := a * 256 + b;
    var x1 := x2 * 256 + c;
    var v := x1 * 256 + d;
    DivMod256(x1, d);
    DivMod256(x2, c);
    DivMod256(a, b);
    assert v / 0x100 == x1;
    assert v / 0x1_0000 == x1 / 256 == x2;
    assert v / 0x100_0000 == x2 / 256 == a;
  }

  /** Cell `k` of a property, `be32_to_cpu(prop[k])`. */
  function Cell(p: seq<byte>, k: nat): (v: nat)
    requires 4 * k + 4 <= |p|
    ensures v < WORD
  {
    Be32(p, 4 * k)
  }

  /** The pairs of a property whose length is a whole number of pairs, in order. */
  function Pairs(p: seq<byte>): seq<Pair>
    requires |p| % 8 == 0
  {
    if |p| == 0 then [] else [Pair(Cell(p, 0), Cell(p, 1))] + Pairs(p[8..])
  }

  /** Pair `h` is made of cells 2h and 2h + 1: the indexing the scans use. */
  lemma {:induction false} PairsAt(p: seq<byte>, h: nat)
    requires |p| % 8 == 0 && h < |p| / 8
    ensures |Pairs(p)| == |p| / 8
    ensures Pairs(p)[h] == Pair(Cell(p, 2 * h), Cell(p, 2 * h + 1))
  {
    PairsLength(p);
    if h > 0 {
      PairsAt(p[8..], h - 1);
    }
  }

  lemma {:induction false} PairsLength(p: seq<byte>)
    requires |p| % 8 == 0
    ensures |Pairs(p)| == |p| / 8
  {
    if |p| > 0 {
      PairsLength(p[8..]);
    }
  }

  /** `qcom,memblock-remove`: an empty property, or one that is not a whole number of pairs,
      is malformed. */
  function DecodeRemove(p: seq<byte>): (r: Option<seq<Pair>>)
    ensures r.Some? <==> |p| != 0 && |p| % 8 == 0
  {
    if |p| == 0 || |p| % 8 != 0 then None else Some(Pairs(p))
  }

  /** `qcom,memblock-reserve`: exactly one pair, or malformed. */
  function DecodeReserve(p: seq<byte>): (r: Option<Pair>)
    ensures r.Some? <==> |p| == 8
  {
    if |p| != 8 then None else Some(Pair(Cell(p, 0), Cell(p, 1)))
  }

  /** A well-formed reserve property is a remove property of one pair. */
  lemma ReserveIsOneRemove(p: seq<byte>)
    requires DecodeReserve(p).Some?
    ensures DecodeRemove(p) == Some([DecodeReserve(p).value])
  {
    var x := Pair(Cell(p, 0), Cell(p, 1));
    assert p[8..] == [];
    assert Pairs(p) == [x] + Pairs(p[8..]);
    assert Pairs(p[8..]) == [];
    assert Pairs(p) == [x];
    assert DecodeRemove(p) == Some(Pairs(p));
    assert DecodeReserve(p).value == x;
  }

  /** Both halves of every pair fit in a cell. */
  predicate Encodable(pairs: seq<Pair>) {
    forall k :: 0 <= k < |pairs| ==> pairs[k].start < WORD && pairs[k].size < WORD
  }

  /** The property that describes `pairs`. */
  function Encode(pairs: seq<Pair>): (p: seq<byte>)
    requires Encodable(pairs)
    ensures |p| == 8 * |pairs|
  {
    if |pairs| == 0 then []
    else BytesOf(pairs[0].start) + BytesOf(pairs[0].size) + Encode(pairs[1..])
  }

  lemma WholePairs(n: nat)
    ensures (8 * n) % 8 == 0
  {
  }

  /** Decoding what was encoded gives back the pairs. */
  lemma {:induction false} PairsEncode(pairs: seq<Pair>)
    requires Encodable(pairs)
    ensures Pairs(Encode(pairs)) == pairs
  {
    if |pairs| > 0 {
      var e := Encode(pairs);
      var a, b := BytesOf(pairs[0].start), BytesOf(pairs[0].size);
      assert e[8..] == Encode(pairs[1..]);
      assert Cell(e, 0) == Be32(a, 0) && Cell(e, 1) == Be32(b, 0);
      Be32BytesOf(pairs[0].start);
      Be32BytesOf(pairs[0].size);
      PairsEncode(pairs[1..]);
    }
  }

  lemma DecodeEncode(pairs: seq<Pair>)
    requires Encodable(pairs) && |pairs| > 0
    ensures DecodeRemove(Encode(pairs)) == Some(pairs)
  {
    var e := Encode(pairs);
    WholePairs(|pairs|);
    assert |e| != 0 && |e| % 8 == 0;
    PairsEncode(pairs);
  }

  /** Encoding what was decoded gives back the property. */
  lemma {:induction false} EncodePairs(p: seq<byte>)
    requires |p| % 8 == 0
    ensures Encodable(Pairs(p)) && Encode(Pairs(p)) == p
  {
    if |p| > 0 {
      EncodePairs(p[8..]);
      BytesOfBe32(p, 0);
      BytesOfBe32(p, 4);
      assert p == p[..4] + p[4..8] + p[8..];
    }
  }

  lemma EncodeDecode(p: seq<byte>)
    requires DecodeRemove(p).Some?
    ensures Encodable(DecodeRemove(p).value) && Encode(DecodeRemove(p).value) == p
  {
    EncodePairs(p);
  }
}
