/** UTF-8 sequences (RFC 3629) and the branchless `utf8_decode` of fmt/format.h. */
module Utf8 {

  /** A Unicode scalar value. */
  predicate Scalar(c: bv32)
  {
    c <= 0xD7FF || (0xE000 <= c && c <= 0x10FFFF)
  }

  /** A continuation byte. */
  predicate Tail(b: bv8)
  {
    0x80 <= b && b <= 0xBF
  }

  /** Section 4 of RFC 3629: the well-formed sequences, by their bytes. */
  predicate Seq1(a: bv8)
  {
    a <= 0x7F
  }

  predicate Seq2(a: bv8, b: bv8)
  {
    0xC2 <= a && a <= 0xDF && Tail(b)
  }

  predicate Seq3(a: bv8, b: bv8, c: bv8)
  {
    Tail(c) &&
    ((a == 0xE0 && 0xA0 <= b && b <= 0xBF) || (0xE1 <= a && a <= 0xEC && Tail(b)) ||
     (a == 0xED && 0x80 <= b && b <= 0x9F) || (0xEE <= a && a <= 0xEF && Tail(b)))
  }

  predicate Seq4(a: bv8, b: bv8, c: bv8, d: bv8)
  {
    Tail(c) && Tail(d) &&
    ((a == 0xF0 && 0x90 <= b && b <= 0xBF) || (0xF1 <= a && a <= 0xF3 && Tail(b)) ||
     (a == 0xF4 && 0x80 <= b && b <= 0x8F))
  }

  predicate Sequence(s: seq<bv8>)
  {
    (|s| == 1 && Seq1(s[0])) || (|s| == 2 && Seq2(s[0], s[1])) || (|s| == 3 && Seq3(s[0], s[1], s[2])) ||
    (|s| == 4 && Seq4(s[0], s[1], s[2], s[3]))
  }

  function Cont(c: bv32): bv8
  {
    (0x80 | (c & 0x3F)) as bv8
  }

  function Head1(c: bv32): bv8 { (c & 0x7F) as bv8 }
  function Head2(c: bv32): bv8 { (0xC0 | ((c >> 6) & 0x1F)) as bv8 }
  function Head3(c: bv32): bv8 { (0xE0 | ((c >> 12) & 0xF)) as bv8 }
  function Head4(c: bv32): bv8 { (0xF0 | ((c >> 18) & 7)) as bv8 }
  function Cont6(c: bv32): bv8 { Cont(c >> 6) }
  function Cont12(c: bv32): bv8 { Cont(c >> 12) }

  /** Section 3 of RFC 3629: the bytes of a scalar value. */
  function Encode(c: bv32): (s: seq<bv8>)
    ensures 1 <= |s| <= 4
  {
    if c < 0x80 then [Head1(c)]
    else if c < 0x800 then [Head2(c), Cont(c)]
    else if c < 0x1_0000 then [Head3(c), Cont6(c), Cont(c)]
    else [Head4(c), Cont12(c), Cont6(c), Cont(c)]
  }

  /** The length the decoder reads off the first byte, 0 for a byte that starts nothing. */
  function Length(a: bv8): nat
  {
    var i := a >> 3;
    if i < 16 then 1 else if i < 24 then 0 else if i < 28 then 2 else if i < 30 then 3 else if i == 30 then 4 else 0
  }

  function Lead(len: nat, a: bv8): bv8
  {
    if len == 1 then a & 0x7F else if len == 2 then a & 0x1F else if len == 3 then a & 0x0F
    else if len == 4 then a & 0x07 else 0
  }

  /** The code point, shifted down from the place it has in four bytes. */
  function CodePoint(len: nat, a: bv8, b: bv8, c: bv8, d: bv8): bv32
  {
    var p := ((Lead(len, a) as bv32) << 18) | (((b & 0x3F) as bv32) << 12)
           | (((c & 0x3F) as bv32) << 6) | ((d & 0x3F) as bv32);
    if len == 1 then p >> 18 else if len == 2 then p >> 12 else if len == 3 then p >> 6 else p
  }

  function Smallest(len: nat): bv32
  {
    if len == 1 then 0 else if len == 2 then 128 else if len == 3 then 2048 else if len == 4 then 65536 else 4194304
  }

  /** The error bits: range errors on top, then two bits for each tail byte, shifted so that only the
      tail bytes of the sequence count. */
  function ErrorBits(len: nat, p: bv32, b: bv8, c: bv8, d: bv8): bv32
  {
    var e := (if p < Smallest(len) then 0x40 else 0)
           | (if p >> 11 == 0x1B then 0x80 else 0)
           | (if p > 0x10FFFF then 0x100 else 0)
           | (((b & 0xC0) as bv32) >> 2)
           | (((c & 0xC0) as bv32) >> 4)
           | ((d as bv32) >> 6);
    var x := e ^ 0x2A;
    if len == 1 then x >> 6 else if len == 2 then x >> 4 else if len == 3 then x >> 2 else x
  }

  lemma Reject0(p: bv32, a: bv8, b: bv8, c: bv8, d: bv8)
    requires Length(a) == 0 && p == CodePoint(0, a, b, c, d)
    ensures ErrorBits(0, p, b, c, d) != 0
  {
  }

  lemma Accept1(p: bv32, a: bv8, b: bv8, c: bv8, d: bv8)
    requires Length(a) == 1 && p == CodePoint(1, a, b, c, d)
    ensures ErrorBits(1, p, b, c, d) == 0 && Seq1(a) && p == a as bv32
  {
  }

  lemma Accept2(p: bv32, a: bv8, b: bv8, c: bv8, d: bv8)
    requires Length(a) == 2 && p == CodePoint(2, a, b, c, d)
    ensures ErrorBits(2, p, b, c, d) == 0 <==> Seq2(a, b)
  {
  }

  lemma Accept3(p: bv32, a: bv8, b: bv8, c: bv8, d: bv8)
    requires Length(a) == 3 && p == CodePoint(3, a, b, c, d)
    ensures ErrorBits(3, p, b, c, d) == 0 <==> Seq3(a, b, c)
  {
  }

  lemma Accept4(p: bv32, a: bv8, b: bv8, c: bv8, d: bv8)
    requires Length(a) == 4 && p == CodePoint(4, a, b, c, d)
    ensures ErrorBits(4, p, b, c, d) == 0 <==> Seq4(a, b, c, d)
  {
  }

  /** The sequence's length is in its first byte, and only first bytes can stand first. */
  lemma SequenceLength(s: seq<bv8>)
    requires Sequence(s)
    ensures |s| == Length(s[0]) && forall i :: 1 <= i < |s| ==> Tail(s[i])
  {
    FirstByte(s[0]);
  }

  lemma FirstByte(a: bv8)
    ensures a <= 0x7F ==> Length(a) == 1
    ensures 0xC2 <= a && a <= 0xDF ==> Length(a) == 2
    ensures 0xE0 <= a && a <= 0xEF ==> Length(a) == 3
    ensures 0xF0 <= a && a <= 0xF4 ==> Length(a) == 4
    ensures Length(a) <= 4
  {
  }

  /** The decoder reports no error exactly on the well-formed sequences. */
  lemma DecodeAccepts(s: seq<bv8>)
    requires |s| >= 4
    ensures Length(s[0]) <= 4
    ensures var len := Length(s[0]);
            ErrorBits(len, CodePoint(len, s[0], s[1], s[2], s[3]), s[1], s[2], s[3]) == 0 <==> Sequence(s[..len])
  {
    hide CodePoint, ErrorBits, Seq1, Seq2, Seq3, Seq4, Length;
    var a, b, c, d := s[0], s[1], s[2], s[3];
    FirstByte(a);
    var len := Length(a);
    var p := CodePoint(len, a, b, c, d);
    if len == 0 {
      Reject0(p, a, b, c, d);
    } else if len == 1 {
      Accept1(p, a, b, c, d);
    } else if len == 2 {
      Accept2(p, a, b, c, d);
    } else if len == 3 {
      Accept3(p, a, b, c, d);
    } else {
      Accept4(p, a, b, c, d);
    }
  }

  lemma Value1(p: bv32, a: bv8, b: bv8, c: bv8, d: bv8)
    requires Seq1(a) && p == CodePoint(1, a, b, c, d)
    ensures p < 0x80 && Head1(p) == a
  {
  }

  lemma Value2(p: bv32, a: bv8, b: bv8, c: bv8, d: bv8)
    requires Seq2(a, b) && p == CodePoint(2, a, b, c, d)
    ensures 0x80 <= p && p < 0x800 && Head2(p) == a && Cont(p) == b
  {
  }

  lemma Value3(p: bv32, a: bv8, b: bv8, c: bv8, d: bv8)
    requires Seq3(a, b, c) && p == CodePoint(3, a, b, c, d)
    ensures 0x800 <= p && p < 0x1_0000 && Scalar(p) && Head3(p) == a && Cont6(p) == b && Cont(p) == c
  {
  }

  lemma Value4(p: bv32, a: bv8, b: bv8, c: bv8, d: bv8)
    requires Seq4(a, b, c, d) && p == CodePoint(4, a, b, c, d)
    ensures 0x1_0000 <= p && Scalar(p) && Head4(p) == a && Cont12(p) == b && Cont6(p) == c && Cont(p) == d
  {
  }

  /** What it decodes is the scalar value whose encoding was read. */
  lemma DecodeValue(s: seq<bv8>)
    requires |s| >= 4 && Length(s[0]) <= 4 && Sequence(s[..Length(s[0])])
    ensures var p := CodePoint(Length(s[0]), s[0], s[1], s[2], s[3]);
            Scalar(p) && Encode(p) == s[..Length(s[0])]
  {
    hide CodePoint, Encode, Seq1, Seq2, Seq3, Seq4, Length, Head1, Head2, Head3, Head4, Cont, Cont6, Cont12, Scalar;
    var a, b, c, d := s[0], s[1], s[2], s[3];
    var t := s[..Length(a)];
    var p := CodePoint(Length(a), a, b, c, d);
    if |t| == 1 {
      Value1(p, a, b, c, d);
      EncodeForms(p);
      assert t == [a];
    } else if |t| == 2 {
      Value2(p, a, b, c, d);
      EncodeForms(p);
      assert t == [a, b];
    } else if |t| == 3 {
      Value3(p, a, b, c, d);
      EncodeForms(p);
      assert t == [a, b, c];
    } else {
      Value4(p, a, b, c, d);
      EncodeForms(p);
      assert t == [a, b, c, d];
    }
  }

  lemma EncodeForms(p: bv32)
    ensures p < 0x80 ==> Scalar(p) && Encode(p) == [Head1(p)]
    ensures 0x80 <= p && p < 0x800 ==> Scalar(p) && Encode(p) == [Head2(p), Cont(p)]
    ensures 0x800 <= p && p < 0x1_0000 ==> Encode(p) == [Head3(p), Cont6(p), Cont(p)]
    ensures 0x1_0000 <= p ==> Encode(p) == [Head4(p), Cont12(p), Cont6(p), Cont(p)]
  {
    hide Head1, Head2, Head3, Head4, Cont, Cont6, Cont12;
  }

  lemma Bytes1(p: bv32, b: bv8, c: bv8, d: bv8)
    requires p < 0x80
    ensures Seq1(Head1(p)) && CodePoint(1, Head1(p), b, c, d) == p
  {
  }

  lemma Bytes2(p: bv32, c: bv8, d: bv8)
    requires 0x80 <= p && p < 0x800
    ensures Seq2(Head2(p), Cont(p)) && CodePoint(2, Head2(p), Cont(p), c, d) == p
  {
  }

  lemma Bytes3(p: bv32, a: bv8, b: bv8, c: bv8, d: bv8)
    requires 0x800 <= p && p < 0x1_0000 && Scalar(p) && a == Head3(p) && b == Cont6(p) && c == Cont(p)
    ensures Seq3(a, b, c) && CodePoint(3, a, b, c, d) == p
  {
    Range3(p, a, b, c);
    Joined3(p, a, b, c, d);
  }

  lemma Range3(p: bv32, a: bv8, b: bv8, c: bv8)
    requires 0x800 <= p && p < 0x1_0000 && Scalar(p) && a == Head3(p) && b == Cont6(p) && c == Cont(p)
    ensures Seq3(a, b, c)
  {
  }

  lemma Joined3(p: bv32, a: bv8, b: bv8, c: bv8, d: bv8)
    requires p < 0x1_0000 && a == Head3(p) && b == Cont6(p) && c == Cont(p)
    ensures CodePoint(3, a, b, c, d) == p
  {
  }

  lemma Bytes4(p: bv32, a: bv8, b: bv8, c: bv8, d: bv8)
    requires 0x1_0000 <= p && Scalar(p) && a == Head4(p) && b == Cont12(p) && c == Cont6(p) && d == Cont(p)
    ensures Seq4(a, b, c, d) && CodePoint(4, a, b, c, d) == p
  {
    Range4(p, a, b, c, d);
    Joined4(p, a, b, c, d);
  }

  lemma Range4(p: bv32, a: bv8, b: bv8, c: bv8, d: bv8)
    requires 0x1_0000 <= p && Scalar(p) && a == Head4(p) && b == Cont12(p) && c == Cont6(p) && d == Cont(p)
    ensures Seq4(a, b, c, d)
  {
  }

  lemma Joined4(p: bv32, a: bv8, b: bv8, c: bv8, d: bv8)
    requires p < 0x20_0000 && a == Head4(p) && b == Cont12(p) && c == Cont6(p) && d == Cont(p)
    ensures CodePoint(4, a, b, c, d) == p
  {
  }

  /** Encoding gives a well-formed sequence, and decoding it, whatever follows it, gives the value back. */
  lemma DecodeEncoded(p: bv32, s: seq<bv8>)
    requires Scalar(p) && |s| >= 4 && Encode(p) <= s
    ensures Sequence(Encode(p)) && Length(s[0]) == |Encode(p)| && CodePoint(|Encode(p)|, s[0], s[1], s[2], s[3]) == p
  {
    hide CodePoint, Head1, Head2, Head3, Head4, Cont, Cont6, Cont12, Seq1, Seq2, Seq3, Seq4, Length;
    var t := Encode(p);
    assert forall i :: 0 <= i < |t| ==> s[i] == t[i];
    if p < 0x80 {
      Bytes1(p, s[1], s[2], s[3]);
    } else if p < 0x800 {
      Bytes2(p, s[2], s[3]);
    } else if p < 0x1_0000 {
      Bytes3(p, s[0], s[1], s[2], s[3]);
    } else {
      Bytes4(p, s[0], s[1], s[2], s[3]);
    }
    SequenceLength(t);
  }

  /** No padding with zeros completes a sequence. */
  lemma PaddingStaysOut(s: seq<bv8>, zeros: nat, k: nat)
    requires s != [] && k <= |s| + zeros && Sequence((s + seq(zeros, _ => 0))[..k])
    ensures k <= |s|
  {
    hide Sequence, Length;
    var padded := s + seq(zeros, _ => 0);
    SequenceLength(padded[..k]);
    assert forall i :: 1 <= i < k ==> padded[..k][i] == padded[i] && Tail(padded[i]);
    assert !Tail(0);
    assert zeros > 0 ==> padded[|s|] == 0;
  }
}
