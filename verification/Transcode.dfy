/** `utf8_to_utf16` (fmt/format-inl.h) and `to_utf8::convert` (fmt/format.h). A unit is held in 32 bits
    whatever the size of the source's wide character. */
module Transcode {
  import opened Utf8
  import opened Codepoints

  predicate AllScalar(cs: seq<bv32>)
  {
    forall i :: 0 <= i < |cs| ==> Scalar(cs[i])
  }

  /** The UTF-8 form of a text. */
  function EncodeAll(cs: seq<bv32>): seq<bv8>
  {
    if cs == [] then [] else Encode(cs[0]) + EncodeAll(cs[1..])
  }

  /** Section 2.1 of RFC 2781: the UTF-16 units of a scalar value. */
  function Units(c: bv32): seq<bv32>
  {
    if c <= 0xFFFF then [c] else [HighUnit(c), LowUnit(c)]
  }

  function HighUnit(c: bv32): bv32 { 0xD800 + ((c - 0x1_0000) >> 10) }
  function LowUnit(c: bv32): bv32 { 0xDC00 + ((c - 0x1_0000) & 0x3FF) }

  /** The UTF-16 form of a text. */
  function UnitsAll(cs: seq<bv32>): seq<bv32>
  {
    if cs == [] then [] else Units(cs[0]) + UnitsAll(cs[1..])
  }

  lemma {:induction false} EncodeAllAppend(cs: seq<bv32>, c: bv32)
    ensures EncodeAll(cs + [c]) == EncodeAll(cs) + Encode(c)
  {
    hide Encode;
    if cs != [] {
      EncodeAllAppend(cs[1..], c);
      assert (cs + [c])[1..] == cs[1..] + [c];
    }
  }

  lemma {:induction false} UnitsAllAppend(cs: seq<bv32>, c: bv32)
    ensures UnitsAll(cs + [c]) == UnitsAll(cs) + Units(c)
  {
    hide Units;
    if cs != [] {
      UnitsAllAppend(cs[1..], c);
      assert (cs + [c])[1..] == cs[1..] + [c];
    }
  }

  /** The pieces of a well-formed text. */
  function PiecesOf(cs: seq<bv32>): seq<Piece>
  {
    if cs == [] then [] else [Piece(cs[0], Encode(cs[0]))] + PiecesOf(cs[1..])
  }

  lemma {:induction false} PiecesTile(cs: seq<bv32>)
    requires AllScalar(cs)
    ensures Tiles(PiecesOf(cs), EncodeAll(cs)) && Joined(PiecesOf(cs)) == EncodeAll(cs)
    ensures |PiecesOf(cs)| == |cs| && forall i :: 0 <= i < |cs| ==> PiecesOf(cs)[i].cp == cs[i]
  {
    hide Encode, Scalar;
    if cs != [] {
      NotInvalid();
      PiecesTile(cs[1..]);
      assert PiecesOf(cs)[1..] == PiecesOf(cs[1..]);
      assert EncodeAll(cs)[|Encode(cs[0])|..] == EncodeAll(cs[1..]);
    }
  }

  /** The code points of pieces. */
  function Cps(pieces: seq<Piece>): (cs: seq<bv32>)
    ensures |cs| == |pieces| && forall i :: 0 <= i < |pieces| ==> cs[i] == pieces[i].cp
  {
    seq(|pieces|, i requires 0 <= i < |pieces| => pieces[i].cp)
  }

  /** A tiling without invalid pieces is the UTF-8 form of its code points. */
  lemma {:induction false} ValidTiling(pieces: seq<Piece>, s: seq<bv8>)
    requires Tiles(pieces, s) && Joined(pieces) == s
    requires forall i :: 0 <= i < |pieces| ==> pieces[i].cp != INVALID
    ensures AllScalar(Cps(pieces)) && EncodeAll(Cps(pieces)) == s
    decreases |pieces|
  {
    hide Encode, Scalar;
    if pieces != [] {
      var v, rest := pieces[0].view, pieces[1..];
      assert s == v + s[|v|..] && s[|v|..] == Joined(rest);
      ValidTiling(rest, s[|v|..]);
      assert Cps(pieces)[1..] == Cps(rest);
      assert forall i :: 1 <= i < |pieces| ==> Cps(pieces)[i] == Cps(rest)[i - 1];
    }
  }

  ghost predicate WellFormedUtf8(s: seq<bv8>)
  {
    exists cs :: AllScalar(cs) && EncodeAll(cs) == s
  }

  /** A tiling that meets an invalid piece belongs to no text. */
  lemma InvalidTiling(pieces: seq<Piece>, s: seq<bv8>, k: nat)
    requires Tiles(pieces, s) && k < |pieces| && pieces[k].cp == INVALID
    ensures !WellFormedUtf8(s)
  {
    hide Scalar, Encode, Tiles, Joined;
    if cs :| AllScalar(cs) && EncodeAll(cs) == s {
      PiecesTile(cs);
      PiecesValid(cs);
      TilingUnique(pieces, PiecesOf(cs), s);
    }
  }

  lemma PiecesValid(cs: seq<bv32>)
    requires AllScalar(cs)
    ensures forall i :: 0 <= i < |PiecesOf(cs)| ==> PiecesOf(cs)[i].cp != INVALID
  {
    hide Scalar, Encode;
    PiecesTile(cs);
    NotInvalid();
  }

  datatype Result = Ok(units: seq<bv32>) | InvalidUtf8

  /** `utf8_to_utf16`: the callback throws on an invalid piece, and otherwise pushes units. */
  method Utf8ToUtf16(s: seq<bv8>) returns (r: Result)
    ensures r.Ok? <==> WellFormedUtf8(s)
    ensures r.Ok? ==> forall cs | AllScalar(cs) && EncodeAll(cs) == s :: r.units == UnitsAll(cs) + [0]
  {
    hide Scalar, Encode, Tiles, Joined, Units, WellFormedUtf8;
    var calls := ForEachCodepoint(s, (cp, view) => cp != INVALID);
    if calls != [] && calls[|calls| - 1].cp == INVALID {
      InvalidTiling(calls, s, |calls| - 1);
      return InvalidUtf8;
    }
    ValidTiling(calls, s);
    IsWellFormed(s, Cps(calls));
    var units := PushUnits(Cps(calls));
    r := Ok(units + [0]);
    forall cs | AllScalar(cs) && EncodeAll(cs) == s ensures cs == Cps(calls) {
      PiecesTile(cs);
      TilingUnique(calls, PiecesOf(cs), s);
      assert forall i :: 0 <= i < |cs| ==> cs[i] == PiecesOf(cs)[i].cp;
    }
  }

  lemma IsWellFormed(s: seq<bv8>, cs: seq<bv32>)
    requires AllScalar(cs) && EncodeAll(cs) == s
    ensures WellFormedUtf8(s)
  {
  }

  method PushUnits(cs: seq<bv32>) returns (units: seq<bv32>)
    ensures units == UnitsAll(cs)
  {
    hide UnitsAll, Units;
    units := [];
    assert cs[..0] == [] && UnitsAll([]) == [] by { NoUnits(); }
    for i := 0 to |cs|
      invariant units == UnitsAll(cs[..i])
    {
      assert cs[..i + 1] == cs[..i] + [cs[i]];
      UnitsAllAppend(cs[..i], cs[i]);
      var u := UnitsOf(cs[i]);
      units := units + u;
    }
    assert cs[..|cs|] == cs;
  }

  method UnitsOf(cp: bv32) returns (units: seq<bv32>)
    ensures units == Units(cp)
  {
    if cp <= 0xFFFF { return [cp]; }
    var c := cp - 0x1_0000;
    units := [0xD800 + (c >> 10), 0xDC00 + (c & 0x3FF)];
  }

  lemma NoUnits()
    ensures UnitsAll([]) == []
  {
  }

  predicate Surrogate(u: bv32) { 0xD800 <= u && u <= 0xDFFF }

  /** The code point of a surrogate pair, as the source computes it. */
  function Pair(high: bv32, low: bv32): bv32 { (high << 10) + low - 0x35FDC00 }

  predicate IsPair(s: seq<bv32>)
  {
    |s| >= 2 && Surrogate(s[0]) && s[0] & 0xFC00 == 0xD800 && s[1] & 0xFC00 == 0xDC00
  }

  datatype Policy = Abort | Replace

  /** The first code point of a unit string, INVALID if conversion fails on it. Only 16-bit surrogates
      that do not pair up are subject to the policy. */
  function FirstOf(s: seq<bv32>, size: nat, policy: Policy): bv32
    requires s != []
  {
    if size == 2 && Surrogate(s[0]) then
      if IsPair(s) then Pair(s[0], s[1]) else if policy.Replace? then 0xFFFD else INVALID
    else if Scalar(s[0]) then s[0] else INVALID
  }

  function FirstSize(s: seq<bv32>, size: nat): (k: nat)
    requires s != []
    ensures 1 <= k <= |s|
  {
    if size == 2 && IsPair(s) then 2 else 1
  }

  /** The code points of a unit string. */
  function Scan(s: seq<bv32>, size: nat, policy: Policy): seq<bv32>
    decreases |s|
  {
    if s == [] then [] else [FirstOf(s, size, policy)] + Scan(s[FirstSize(s, size)..], size, policy)
  }

  /** Where conversion stops. */
  function Failing(cs: seq<bv32>): (k: nat)
    ensures k <= |cs| && (k < |cs| ==> cs[k] == INVALID) && forall i :: 0 <= i < k ==> cs[i] != INVALID
  {
    if cs == [] || cs[0] == INVALID then 0 else 1 + Failing(cs[1..])
  }

  lemma PairScalar(high: bv32, low: bv32)
    requires Surrogate(high) && high & 0xFC00 == 0xD800 && low & 0xFC00 == 0xDC00 && low <= 0xFFFF
    ensures Scalar(Pair(high, low)) && Pair(high, low) > 0xFFFF
    ensures HighUnit(Pair(high, low)) == high && LowUnit(Pair(high, low)) == low
  {
  }

  lemma HighUnitIs(c: bv32)
    requires 0xFFFF < c && c <= 0x10_FFFF
    ensures Surrogate(HighUnit(c)) && HighUnit(c) & 0xFC00 == 0xD800
  {
  }

  lemma LowUnitIs(c: bv32)
    ensures LowUnit(c) & 0xFC00 == 0xDC00 && LowUnit(c) <= 0xFFFF
  {
  }

  lemma PairIs(c: bv32)
    requires 0xFFFF < c && c <= 0x10_FFFF
    ensures Pair(HighUnit(c), LowUnit(c)) == c
  {
  }

  predicate Narrow(s: seq<bv32>)
  {
    forall i :: 0 <= i < |s| ==> s[i] <= 0xFFFF
  }

  /** The units of one scalar value, in front of any others, scan back to it. */
  lemma FirstOfUnits(c: bv32, s: seq<bv32>, policy: Policy)
    requires Scalar(c) && Units(c) <= s
    ensures s != [] && FirstOf(s, 2, policy) == c && FirstSize(s, 2) == |Units(c)|
  {
    hide HighUnit, LowUnit, Pair;
    assert s[0] == Units(c)[0];
    if c > 0xFFFF {
      assert s[1] == Units(c)[1];
      HighUnitIs(c);
      LowUnitIs(c);
      PairIs(c);
    }
  }

  /** UTF-16 text scans back to its code points, whatever the policy. */
  lemma {:induction false} ScanUnits(cs: seq<bv32>, policy: Policy)
    requires AllScalar(cs)
    ensures Scan(UnitsAll(cs), 2, policy) == cs
  {
    hide Scalar, Units, FirstOf, FirstSize;
    if cs != [] {
      var s, k := UnitsAll(cs), |Units(cs[0])|;
      FirstOfUnits(cs[0], s, policy);
      assert s[k..] == UnitsAll(cs[1..]);
      ScanUnits(cs[1..], policy);
    }
  }

  lemma FirstOfIs(s: seq<bv32>, policy: Policy)
    requires s != [] && Narrow(s)
    ensures var c := FirstOf(s, 2, policy);
            (c == INVALID || Scalar(c)) && (policy.Replace? ==> c != INVALID)
    ensures var c := FirstOf(s, 2, policy);
            policy.Abort? && c != INVALID ==> Units(c) == s[..FirstSize(s, 2)]
  {
    hide HighUnit, LowUnit, Pair;
    NarrowScalar(s[0]);
    if IsPair(s) {
      PairScalar(s[0], s[1]);
      assert s[..2] == [s[0], s[1]];
    }
    assert s[..1] == [s[0]];
  }

  lemma NarrowScalar(u: bv32)
    requires u <= 0xFFFF
    ensures Scalar(u) <==> !Surrogate(u)
    ensures Scalar(0xFFFD) && !Scalar(INVALID)
  {
  }

  /** Without a failure a unit string is the UTF-16 form of what it scans to; with the replace policy there
      is no failure. */
  lemma {:induction false} UnitsScanned(s: seq<bv32>, policy: Policy)
    requires Narrow(s)
    ensures var cs := Scan(s, 2, policy); forall i :: 0 <= i < |cs| ==> cs[i] == INVALID || Scalar(cs[i])
    ensures policy.Replace? ==> AllScalar(Scan(s, 2, policy))
    ensures policy.Abort? && INVALID !in Scan(s, 2, policy) ==> UnitsAll(Scan(s, 2, policy)) == s
    decreases |s|
  {
    hide Scalar, Units, FirstOf, FirstSize;
    if s == [] {
      assert Scan(s, 2, policy) == [] && UnitsAll([]) == [];
    } else {
      var k := FirstSize(s, 2);
      FirstOfIs(s, policy);
      UnitsScanned(s[k..], policy);
      assert s == s[..k] + s[k..];
      assert Scan(s, 2, policy)[1..] == Scan(s[k..], 2, policy);
    }
  }

  ghost predicate WellFormedUtf16(s: seq<bv32>)
  {
    exists cs :: AllScalar(cs) && UnitsAll(cs) == s
  }

  lemma WellFormedScans(s: seq<bv32>)
    requires Narrow(s)
    ensures WellFormedUtf16(s) <==> INVALID !in Scan(s, 2, Abort)
  {
    hide Scalar, Units, FirstOf, FirstSize;
    NotInvalid();
    if cs :| AllScalar(cs) && UnitsAll(cs) == s {
      ScanUnits(cs, Abort);
    }
    UnitsScanned(s, Abort);
  }

  /** The bytes `convert` pushes for one code point, none for what is no scalar value. */
  method PushBytes(c: bv32) returns (ok: bool, bytes: seq<bv8>)
    ensures ok <==> Scalar(c)
    ensures ok ==> bytes == Encode(c)
    ensures !ok ==> bytes == []
  {
    hide Encode, Head1, Head2, Head3, Head4, Cont, Cont6, Cont12;
    ok := true;
    EncodeForms(c);
    if c < 0x80 {
      PushedHead1(c);
      bytes := [Low8(c)];
    } else if c < 0x800 {
      PushedHead2(c);
      PushedTails(c);
      bytes := [Low8(0xC0 | (c >> 6)), Low8(0x80 | (c & 0x3F))];
    } else if (c >= 0x800 && c <= 0xD7FF) || (c >= 0xE000 && c <= 0xFFFF) {
      PushedHead3(c);
      PushedTails(c);
      bytes := [Low8(0xE0 | (c >> 12)), Low8(0x80 | ((c & 0xFFF) >> 6)), Low8(0x80 | (c & 0x3F))];
    } else if c >= 0x1_0000 && c <= 0x10_FFFF {
      PushedHead4(c);
      PushedTails(c);
      bytes := [Low8(0xF0 | (c >> 18)), Low8(0x80 | ((c & 0x3_FFFF) >> 12)), Low8(0x80 | ((c & 0xFFF) >> 6)),
                Low8(0x80 | (c & 0x3F))];
    } else {
      ok, bytes := false, [];
    }
  }

  /** The cast to char. */
  function Low8(c: bv32): bv8 { (c & 0xFF) as bv8 }

  lemma PushedHead1(c: bv32)
    requires c < 0x80
    ensures Low8(c) == Head1(c)
  {
  }

  lemma PushedHead2(c: bv32)
    requires c < 0x800
    ensures Low8(0xC0 | (c >> 6)) == Head2(c)
  {
  }

  lemma PushedHead3(c: bv32)
    requires c <= 0xFFFF
    ensures Low8(0xE0 | (c >> 12)) == Head3(c)
  {
  }

  lemma PushedHead4(c: bv32)
    requires c <= 0x10_FFFF
    ensures Low8(0xF0 | (c >> 18)) == Head4(c)
  {
  }

  lemma PushedTails(c: bv32)
    ensures Low8(0x80 | (c & 0x3F)) == Cont(c)
    ensures Low8(0x80 | ((c & 0xFFF) >> 6)) == Cont6(c)
    ensures Low8(0x80 | ((c & 0x3_FFFF) >> 12)) == Cont12(c)
  {
  }

  /** `to_utf8::convert` appending to buf, for units of two or four bytes: it fails exactly on the first
      code point that is INVALID, having appended the UTF-8 form of everything before. */
  method Convert(buf: seq<bv8>, s: seq<bv32>, size: nat, policy: Policy) returns (ok: bool, out: seq<bv8>)
    requires (size == 2 || size == 4) && (size == 2 ==> Narrow(s))
    ensures var cs := Scan(s, size, policy);
            (ok <==> INVALID !in cs) && out == buf + EncodeAll(cs[..Failing(cs)])
  {
    hide Scalar, Units, FirstOf, FirstSize, Encode, EncodeAll, Scan, Failing;
    out := buf;
    ghost var done: seq<bv32> := [];
    NothingEncoded();
    var p := 0;
    while p != |s|
      invariant p <= |s| && Scan(s, size, policy) == done + Scan(s[p..], size, policy)
      invariant INVALID !in done && out == buf + EncodeAll(done)
      decreases |s| - p
    {
      var good, bytes, k := ConvertOne(s[p..], size, policy);
      ghost var c := FirstOf(s[p..], size, policy);
      ScanStep(s, p, size, policy);
      if !good {
        StopsHere(done, c, Scan(s[p..], size, policy));
        return false, out;
      }
      EncodeAllAppend(done, c);
      done := done + [c];
      out := out + bytes;
      p := p + k;
    }
    ok := true;
    NoneFailing(done);
    ScanNothing(s, p, size, policy);
  }

  lemma ScanNothing(s: seq<bv32>, p: nat, size: nat, policy: Policy)
    requires p == |s|
    ensures Scan(s[p..], size, policy) == []
  {
  }

  lemma ScanStep(s: seq<bv32>, p: nat, size: nat, policy: Policy)
    requires p < |s|
    ensures p + FirstSize(s[p..], size) <= |s|
    ensures Scan(s[p..], size, policy) ==
            [FirstOf(s[p..], size, policy)] + Scan(s[p + FirstSize(s[p..], size)..], size, policy)
  {
    hide FirstOf, FirstSize;
    assert s[p..][FirstSize(s[p..], size)..] == s[p + FirstSize(s[p..], size)..];
  }

  lemma NothingEncoded()
    ensures EncodeAll([]) == []
  {
  }

  lemma StopsHere(done: seq<bv32>, c: bv32, rest: seq<bv32>)
    requires INVALID !in done && c == INVALID && rest != [] && rest[0] == c
    ensures (done + rest)[..Failing(done + rest)] == done && INVALID in done + rest
  {
    var cs := done + rest;
    assert cs[|done|] == INVALID;
    assert forall i :: 0 <= i < |done| ==> cs[i] == done[i];
  }

  lemma NoneFailing(done: seq<bv32>)
    requires INVALID !in done
    ensures done[..Failing(done)] == done && done + [] == done
  {
  }

  /** One round of the loop: the code point at the front, with the number of units it takes. */
  method ConvertOne(s: seq<bv32>, size: nat, policy: Policy) returns (good: bool, bytes: seq<bv8>, k: nat)
    requires s != [] && (size == 2 ==> Narrow(s))
    ensures k == FirstSize(s, size) && (good <==> FirstOf(s, size, policy) != INVALID)
    ensures good ==> bytes == Encode(FirstOf(s, size, policy))
  {
    hide Scalar, Encode, Pair;
    NotInvalid();
    k := 1;
    var c := s[0];
    if size == 2 && Surrogate(c) {
      k := 2;
      if |s| == 1 || c & 0xFC00 != 0xD800 || s[1] & 0xFC00 != 0xDC00 {
        k := 1;
        if policy.Abort? { return false, [], k; }
        ReplacementBytes();
        return true, [0xEF, 0xBF, 0xBD], k;
      }
      PairScalar(c, s[1]);
      c := Pair(c, s[1]);
    }
    good, bytes := PushBytes(c);
  }

  lemma ReplacementBytes()
    ensures Encode(0xFFFD) == [0xEF, 0xBF, 0xBD] && 0xFFFD != INVALID
  {
  }

  lemma {:induction false} UnitsNarrow(cs: seq<bv32>)
    requires AllScalar(cs)
    ensures Narrow(UnitsAll(cs))
  {
    hide Scalar, Units;
    if cs != [] {
      UnitsNarrow(cs[1..]);
      UnitNarrow(cs[0]);
    }
  }

  lemma UnitNarrow(c: bv32)
    requires Scalar(c)
    ensures Narrow(Units(c))
  {
    hide HighUnit, LowUnit;
    LowUnitIs(c);
    if c > 0xFFFF { HighUnitIs(c); }
  }

  /** UTF-8 to UTF-16 and back is the identity on every well-formed text, under either policy. */
  lemma Utf8RoundTrip(s: seq<bv8>, cs: seq<bv32>, policy: Policy)
    requires AllScalar(cs) && EncodeAll(cs) == s
    ensures Narrow(UnitsAll(cs))
    ensures var back := Scan(UnitsAll(cs), 2, policy); INVALID !in back && EncodeAll(back[..Failing(back)]) == s
  {
    hide Scalar, Encode, Units, FirstOf, FirstSize;
    UnitsNarrow(cs);
    ScanUnits(cs, policy);
    NotInvalid();
    NoneFailing(cs);
  }

  /** With the replace policy any 16-bit unit string converts, and to well-formed UTF-8. */
  lemma ReplaceAlwaysConverts(s: seq<bv32>)
    requires Narrow(s)
    ensures var cs := Scan(s, 2, Replace); INVALID !in cs && WellFormedUtf8(EncodeAll(cs[..Failing(cs)]))
  {
    hide Scalar, Encode, Units, FirstOf, FirstSize, Scan;
    var cs := Scan(s, 2, Replace);
    UnitsScanned(s, Replace);
    NotInvalid();
    NoneFailing(cs);
    IsWellFormed(EncodeAll(cs), cs);
  }

  /** Units of four bytes are code points: those that are scalar values stand for themselves, others fail. */
  lemma {:induction false} WideScan(s: seq<bv32>, policy: Policy)
    ensures var cs := Scan(s, 4, policy);
            |cs| == |s| && forall i :: 0 <= i < |s| ==> cs[i] == if Scalar(s[i]) then s[i] else INVALID
  {
    hide Scalar;
    if s != [] {
      WideScan(s[1..], policy);
      var cs := Scan(s, 4, policy);
      assert cs[0] == if Scalar(s[0]) then s[0] else INVALID;
      assert forall i :: 1 <= i < |s| ==> cs[i] == Scan(s[1..], 4, policy)[i - 1] && s[i] == s[1..][i - 1];
    }
  }

  lemma WideText(s: seq<bv32>, policy: Policy)
    requires AllScalar(s)
    ensures Scan(s, 4, policy) == s
  {
    hide Scalar;
    WideScan(s, policy);
  }

  /** Where one policy fails on a 16-bit unit, the other puts the replacement character. */
  lemma {:induction false} PoliciesScan(s: seq<bv32>)
    requires Narrow(s)
    ensures var a, r := Scan(s, 2, Abort), Scan(s, 2, Replace);
            |a| == |r| && forall i :: 0 <= i < |a| ==> r[i] == if a[i] == INVALID then 0xFFFD else a[i]
    decreases |s|
  {
    hide FirstOf, FirstSize;
    if s != [] {
      var k := FirstSize(s, 2);
      PoliciesScan(s[k..]);
      PoliciesFirst(s);
      var a, r := Scan(s, 2, Abort), Scan(s, 2, Replace);
      assert a[1..] == Scan(s[k..], 2, Abort) && r[1..] == Scan(s[k..], 2, Replace);
      assert forall i :: 1 <= i < |a| ==> a[i] == a[1..][i - 1] && r[i] == r[1..][i - 1];
    }
  }

  lemma PoliciesFirst(s: seq<bv32>)
    requires s != [] && Narrow(s)
    ensures var a := FirstOf(s, 2, Abort); FirstOf(s, 2, Replace) == if a == INVALID then 0xFFFD else a
  {
    hide Pair;
    NarrowScalar(s[0]);
    if IsPair(s) { PairScalar(s[0], s[1]); }
  }

  /** Examples from section 7 of RFC 3629 and section 5 of RFC 2781. */
  lemma EncodingsSpelled()
    ensures Encode(0x41) == [0x41] && Encode(0x391) == [0xCE, 0x91] && Encode(0xD55C) == [0xED, 0x95, 0x9C]
    ensures Encode(0x233B4) == [0xF0, 0xA3, 0x8E, 0xB4]
    ensures Units(0x3D) == [0x3D] && Units(0x12345) == [0xD808, 0xDF45]
  {
  }
}
