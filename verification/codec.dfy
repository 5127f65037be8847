/** The serialized form of a bitmap.

    The bitmap library's own binary format is not part of this model. It is
    replaced by a simple stand-in with the one property the aggregation relies
    on: decoding the encoding of a set gives back that set. The stand-in writes
    the members in increasing order, each as four bytes (big-endian two's
    complement, like `DataOutputStream.writeInt`). A byte string whose length is
    not a multiple of four does not decode. */
module Codec {
  import opened Results

  /** A Java `int`. */
  newtype int32 = x: int | -0x8000_0000 <= x < 0x8000_0000

  /** A byte of a serialized partial. */
  newtype byte = x: int | 0 <= x < 0x100

  type Bytes = seq<byte>

  const WordSize := 4

  /** `xs` lists its values in strictly increasing order. */
  predicate StrictlyIncreasing(xs: seq<int32>) {
    forall i, j :: 0 <= i < j < |xs| ==> xs[i] < xs[j]
  }

  /** `m` is the least member of `s`. */
  predicate IsMin(m: int32, s: set<int32>) {
    m in s && forall y :: y in s ==> m <= y
  }

  lemma {:induction false} MinExists(s: set<int32>)
    requires s != {}
    ensures exists m :: IsMin(m, s)
  {
    var x :| x in s;
    var rest := s - {x};
    if rest == {} {
      forall y | y in s ensures x <= y {
        assert y !in rest;
      }
      assert IsMin(x, s);
    } else {
      MinExists(rest);
      var m :| IsMin(m, rest);
      var least := if x < m then x else m;
      forall y | y in s ensures least <= y {
        if y != x {
          assert y in rest;
        }
      }
      assert IsMin(least, s);
    }
  }

  /** The least member of a non-empty set. */
  function Min(s: set<int32>): (m: int32)
    requires s != {}
    ensures IsMin(m, s)
  {
    MinExists(s);
    var m :| IsMin(m, s);
    m
  }

  /** The members of `s` in increasing order. */
  function Sorted(s: set<int32>): (xs: seq<int32>)
    ensures |xs| == |s|
    ensures forall x :: x in xs <==> x in s
    ensures StrictlyIncreasing(xs)
    decreases s
  {
    if s == {} then []
    else
      var m := Min(s);
      [m] + Sorted(s - {m})
  }

  /** Two's-complement big-endian bytes of one value: the unsigned 32-bit
      value split into base-256 digits, most significant first. */
  function EncodeWord(x: int32): (w: Bytes)
    ensures |w| == WordSize
  {
    var u := x as int % 0x1_0000_0000;
    var q1 := u / 0x100;
    var q2 := q1 / 0x100;
    [(q2 / 0x100) as byte, (q2 % 0x100) as byte, (q1 % 0x100) as byte, (u % 0x100) as byte]
  }

  /** The value four big-endian two's-complement bytes stand for. */
  function DecodeWord(w: Bytes): int32
    requires |w| == WordSize
  {
    var u := ((w[0] as int * 0x100 + w[1] as int) * 0x100 + w[2] as int) * 0x100 + w[3] as int;
    if u < 0x8000_0000 then u as int32 else (u - 0x1_0000_0000) as int32
  }

  lemma WordRoundTrip(x: int32)
    ensures DecodeWord(EncodeWord(x)) == x
  {
    var u := x as int % 0x1_0000_0000;
    assert u == if x < 0 then x as int + 0x1_0000_0000 else x as int;
    var q1 := u / 0x100;
    var q2 := q1 / 0x100;
    assert u == q1 * 0x100 + u % 0x100;
    assert q1 == q2 * 0x100 + q1 % 0x100;
    assert q2 == (q2 / 0x100) * 0x100 + q2 % 0x100;
    var w := EncodeWord(x);
    assert w[0] as int * 0x100 + w[1] as int == q2;
    assert (w[0] as int * 0x100 + w[1] as int) * 0x100 + w[2] as int == q1;
  }

  function EncodeWords(xs: seq<int32>): (bs: Bytes)
    ensures |bs| == WordSize * |xs|
  {
    if xs == [] then [] else EncodeWord(xs[0]) + EncodeWords(xs[1..])
  }

  function DecodeWords(bs: Bytes): seq<int32>
    requires |bs| % WordSize == 0
  {
    if bs == [] then [] else [DecodeWord(bs[..WordSize])] + DecodeWords(bs[WordSize..])
  }

  lemma {:induction false} WordsRoundTrip(xs: seq<int32>)
    ensures DecodeWords(EncodeWords(xs)) == xs
  {
    if xs != [] {
      var bs := EncodeWords(xs);
      assert bs[..WordSize] == EncodeWord(xs[0]);
      assert bs[WordSize..] == EncodeWords(xs[1..]);
      WordRoundTrip(xs[0]);
      WordsRoundTrip(xs[1..]);
    }
  }

  /** The serialized form of a bitmap holding exactly `s`. */
  function Encode(s: set<int32>): (bs: Bytes)
    ensures |bs| == WordSize * |s|
  {
    EncodeWords(Sorted(s))
  }

  /** The bitmap a byte string stands for, or `None` when it is malformed. */
  function Decode(bs: Bytes): (r: Option<set<int32>>)
    ensures r.None? <==> |bs| % WordSize != 0
  {
    if |bs| % WordSize != 0 then None
    else Some(Elements(DecodeWords(bs)))
  }

  /** The values a list of words decodes to, as a set. */
  function Elements(xs: seq<int32>): (s: set<int32>)
    ensures forall x :: x in s <==> x in xs
  {
    set x | x in xs
  }

  lemma DecodeEncodeWords(xs: seq<int32>)
    ensures Decode(EncodeWords(xs)) == Some(Elements(xs))
  {
    WordsRoundTrip(xs);
  }

  /** The one property of the format the aggregation depends on. */
  lemma RoundTrip(s: set<int32>)
    ensures Decode(Encode(s)) == Some(s)
  {
    var xs := Sorted(s);
    DecodeEncodeWords(xs);
    assert Elements(xs) == s;
  }

  /** Distinct sets have distinct encodings, so a partial identifies its set. */
  lemma EncodeInjective(s: set<int32>, t: set<int32>)
    requires Encode(s) == Encode(t)
    ensures s == t
  {
    RoundTrip(s);
    RoundTrip(t);
  }
}
