/** `for_each_codepoint` (fmt/format.h): a byte string cut into code points and invalid bytes. */
module Codepoints {
  import opened Utf8

  const INVALID: bv32 := 0xFFFF_FFFF

  /** The arguments of one call of the callback. */
  datatype Piece = Piece(cp: bv32, view: seq<bv8>)

  /** The piece a string must start with: the encoding of a scalar value if it starts with one, and
      otherwise a single byte marked invalid. */
  predicate Starts(p: Piece, s: seq<bv8>)
  {
    0 < |p.view| && p.view <= s &&
    if p.cp == INVALID
    then |p.view| == 1 && forall k :: 1 <= k <= |s| ==> !Sequence(s[..k])
    else Scalar(p.cp) && p.view == Encode(p.cp)
  }

  /** Pieces that lie one after the other from the start of s. */
  predicate Tiles(pieces: seq<Piece>, s: seq<bv8>)
    decreases |pieces|
  {
    pieces == [] || (Starts(pieces[0], s) && Tiles(pieces[1..], s[|pieces[0].view|..]))
  }

  /** The bytes of the pieces together. */
  function Joined(pieces: seq<Piece>): seq<bv8>
  {
    if pieces == [] then [] else pieces[0].view + Joined(pieces[1..])
  }

  lemma {:induction false} TilesPrefix(pieces: seq<Piece>, s: seq<bv8>)
    requires Tiles(pieces, s)
    ensures Joined(pieces) <= s
    decreases |pieces|
  {
    hide Starts;
    if pieces != [] {
      StartsView(pieces[0], s);
      var v := pieces[0].view;
      TilesPrefix(pieces[1..], s[|v|..]);
      assert s == v + s[|v|..];
    }
  }

  lemma StartsView(p: Piece, s: seq<bv8>)
    requires Starts(p, s)
    ensures 0 < |p.view| <= |s| && p.view == s[..|p.view|]
  {
  }

  lemma {:induction false} TilesAppend(pieces: seq<Piece>, s: seq<bv8>, p: Piece)
    requires Tiles(pieces, s) && Joined(pieces) <= s && Starts(p, s[|Joined(pieces)|..])
    ensures Tiles(pieces + [p], s) && Joined(pieces + [p]) == Joined(pieces) + p.view
    decreases |pieces|
  {
    hide Starts;
    if pieces == [] {
      assert (pieces + [p])[1..] == [] && s[0..] == s;
    } else {
      StartsView(pieces[0], s);
      var v, rest := pieces[0].view, pieces[1..];
      TilesPrefix(rest, s[|v|..]);
      assert s[|v|..][|Joined(rest)|..] == s[|Joined(pieces)|..];
      TilesAppend(rest, s[|v|..], p);
      assert (pieces + [p])[1..] == rest + [p];
    }
  }

  /** Two ways to start would have to be the same. */
  lemma StartsUnique(p: Piece, q: Piece, s: seq<bv8>)
    requires Starts(p, s) && Starts(q, s)
    ensures p == q
  {
    hide Sequence, Scalar, Encode;
    NotInvalid();
    if p.cp != INVALID { StartsSequence(p, s); }
    if q.cp != INVALID { StartsSequence(q, s); }
    if p.cp != INVALID && q.cp != INVALID {
      EncodeInjective(p.cp, q.cp, p.view, q.view, s);
    }
    assert p.view == s[..|p.view|] && q.view == s[..|q.view|];
  }

  lemma NotInvalid()
    ensures !Scalar(INVALID)
  {
  }

  lemma StartsSequence(p: Piece, s: seq<bv8>)
    requires Starts(p, s) && p.cp != INVALID
    ensures Sequence(p.view) && p.view == s[..|p.view|]
  {
    hide Sequence, Scalar, Encode;
    DecodeEncoded(p.cp, p.view + [0, 0, 0]);
  }

  lemma EncodeInjective(c: bv32, d: bv32, v: seq<bv8>, w: seq<bv8>, s: seq<bv8>)
    requires Scalar(c) && Scalar(d) && v == Encode(c) && w == Encode(d) && v <= s && w <= s
    ensures c == d
  {
    hide Sequence, Scalar, Encode, Length, CodePoint;
    var t := s + [0, 0, 0];
    DecodeEncoded(c, t);
    DecodeEncoded(d, t);
  }

  /** There is only one way to cut up a whole string, and every partial way is the start of it. */
  lemma {:induction false} TilingUnique(ps: seq<Piece>, qs: seq<Piece>, s: seq<bv8>)
    requires Tiles(ps, s) && Tiles(qs, s) && Joined(qs) == s
    ensures ps <= qs && (Joined(ps) == s ==> ps == qs)
    decreases |ps|
  {
    hide Starts;
    if ps != [] { StartsView(ps[0], s); }
    if qs != [] { StartsView(qs[0], s); }
    if ps != [] && qs != [] {
      StartsUnique(ps[0], qs[0], s);
      var v := ps[0].view;
      assert s[|v|..] == Joined(qs[1..]);
      assert Joined(ps) == s ==> Joined(ps[1..]) == s[|v|..];
      TilingUnique(ps[1..], qs[1..], s[|v|..]);
      assert ps == [ps[0]] + ps[1..] && qs == [qs[0]] + qs[1..];
    }
  }

  /** `utf8_decode` on at least four bytes. */
  method Utf8Decode(s: seq<bv8>) returns (next: nat, c: bv32, e: bv32)
    requires |s| >= 4
    ensures 1 <= next <= 4
    ensures e == 0 <==> Sequence(s[..next])
    ensures e == 0 ==> Scalar(c) && Encode(c) == s[..next]
    ensures e != 0 ==> forall k :: 1 <= k <= |s| ==> !Sequence(s[..k])
  {
    hide Sequence, Scalar, Encode, Length, CodePoint, ErrorBits;
    var len := Length(s[0]);
    next := len + if len == 0 then 1 else 0;
    c := CodePoint(len, s[0], s[1], s[2], s[3]);
    e := ErrorBits(len, c, s[1], s[2], s[3]);
    DecodeAccepts(s);
    forall k | 1 <= k <= |s| && Sequence(s[..k]) ensures k == len {
      SequenceLength(s[..k]);
    }
    NoneEmpty();
    if e == 0 { DecodeValue(s); }
  }

  lemma NoneEmpty()
    ensures !Sequence([])
  {
  }

  /** The argument list of one call, from four bytes on at the start of block; rest is what block pads. */
  method DecodePiece(block: seq<bv8>, rest: seq<bv8>) returns (p: Piece)
    requires |block| >= 4 && rest != [] && |block| >= |rest| && block == rest + seq(|block| - |rest|, _ => 0)
    ensures Starts(p, rest)
  {
    hide Sequence, Scalar, Encode;
    var next, c, e := Utf8Decode(block);
    p := if e != 0 then Piece(INVALID, block[..1]) else Piece(c, block[..next]);
    NotInvalid();
    if e == 0 {
      PaddingStaysOut(rest, |block| - |rest|, next);
      assert block[..next] == rest[..next];
    } else {
      forall k | 1 <= k <= |rest| ensures !Sequence(rest[..k]) {
        assert rest[..k] == block[..k];
      }
    }
  }

  /** A call on what follows the calls so far. */
  lemma OneMoreCall(calls: seq<Piece>, s: seq<bv8>, p: nat, x: Piece)
    requires p < |s| && Tiles(calls, s) && Joined(calls) == s[..p] && Starts(x, s[p..])
    ensures 1 <= |x.view| <= |s| - p && Tiles(calls + [x], s) && Joined(calls + [x]) == s[..p + |x.view|]
  {
    hide Starts;
    StartsView(x, s[p..]);
    TilesAppend(calls, s, x);
  }

  lemma PaddedFrom(t: seq<bv8>, n: nat, p: nat)
    requires p <= |t|
    ensures (t + seq(n, _ => 0))[p..] == t[p..] + seq(n, _ => 0)
  {
  }

  /** `for_each_codepoint`: the calls it makes of a callback f, which stops it by returning false. */
  method ForEachCodepoint(s: seq<bv8>, f: (bv32, seq<bv8>) -> bool) returns (calls: seq<Piece>)
    ensures Tiles(calls, s)
    ensures forall i :: 0 <= i < |calls| - 1 ==> f(calls[i].cp, calls[i].view)
    ensures Joined(calls) == s || (calls != [] && !f(calls[|calls| - 1].cp, calls[|calls| - 1].view))
  {
    hide Starts;
    calls := [];
    var p := 0;
    if |s| >= 4 {
      while p < |s| - 3
        invariant p <= |s| && Tiles(calls, s) && Joined(calls) == s[..p]
        invariant forall i :: 0 <= i < |calls| ==> f(calls[i].cp, calls[i].view)
        decreases |s| - p
      {
        assert s[p..] == s[p..] + seq(0, _ => 0);
        var x := DecodePiece(s[p..], s[p..]);
        OneMoreCall(calls, s, p, x);
        calls := calls + [x];
        if !f(x.cp, x.view) { return; }
        p := p + |x.view|;
      }
    }
    if p < |s| { calls := TailCodepoints(s, p, calls, f); } else { assert s[..p] == s; }
  }

  /** The last up to three bytes, copied into a block of seven zeros. */
  method TailCodepoints(s: seq<bv8>, start: nat, before: seq<Piece>, f: (bv32, seq<bv8>) -> bool)
    returns (calls: seq<Piece>)
    requires start < |s| <= start + 3 && Tiles(before, s) && Joined(before) == s[..start]
    requires forall i :: 0 <= i < |before| ==> f(before[i].cp, before[i].view)
    ensures Tiles(calls, s)
    ensures forall i :: 0 <= i < |calls| - 1 ==> f(calls[i].cp, calls[i].view)
    ensures Joined(calls) == s || (calls != [] && !f(calls[|calls| - 1].cp, calls[|calls| - 1].view))
  {
    hide Starts;
    calls := before;
    var left := |s| - start;
    var buf := s[start..] + seq(7 - left, _ => 0);
    var p := 0;
    while p < left
      invariant p <= left && Tiles(calls, s) && Joined(calls) == s[..start + p]
      invariant forall i :: 0 <= i < |calls| ==> f(calls[i].cp, calls[i].view)
      decreases left - p
    {
      PaddedFrom(s[start..], 7 - left, p);
      assert s[start..][p..] == s[start + p..];
      var x := DecodePiece(buf[p..], s[start + p..]);
      OneMoreCall(calls, s, start + p, x);
      calls := calls + [x];
      if !f(x.cp, x.view) { return; }
      p := p + |x.view|;
    }
    assert s[..start + p] == s;
  }
}
