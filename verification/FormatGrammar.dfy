/** The documented grammar of format specifiers, `[[fill]align][sign]["#"]["0"][width]["." precision]["L"][type]`,
    and what its parts mean, letter by letter: the parser of fmt/base.h reads exactly this. */
module FormatGrammar {
  import opened Powers
  import opened Decimals
  import opened FormatSpecs

  /** The eight parts in their order, each of them possibly empty. */
  type Parts = x: seq<string> | |x| == 8 witness ["", "", "", "", "", "", "", ""]

  function From(x: Parts, k: nat): string
    requires 1 <= k <= 9
    decreases 9 - k
  {
    if k == 9 then "" else x[k - 1] + From(x, k + 1)
  }

  function Wording(x: Parts): string { From(x, 1) }

  // What each part may be.

  predicate Whole(t: Type) { t.SInt? || t.UInt? || t.Bool? || t.Char? }
  predicate Number(t: Type) { Whole(t) || t.Float? }
  predicate Texty(t: Type) { t.String? || t.CString? }

  predicate AlignLetter(c: char) { c == '<' || c == '>' || c == '^' }

  /** One character in UTF-8, by its first byte, and no brace. */
  predicate FillCharacter(s: string)
  {
    s != "" && s[0] != '{' && s[0] != '}' &&
    var b := s[0] as int;
    |s| == if 0xC0 <= b <= 0xDF then 2 else if 0xE0 <= b <= 0xEF then 3 else if 0xF0 <= b <= 0xF7 then 4 else 1
  }

  predicate AlignPart(p: string)
  {
    p != "" && AlignLetter(p[|p| - 1]) && (|p| > 1 ==> FillCharacter(p[..|p| - 1]))
  }

  /** Digits of a number that fits an int. */
  predicate IntDigits(d: string)
  {
    d != "" && AllDigitChars(d) && |d| <= 10 && Reading(d) <= INT_MAX
  }

  /** The digits of an argument index. */
  predicate IdDigits(d: string)
  {
    d != "" && AllDigitChars(d) && (d[0] == '0' ==> |d| == 1)
  }

  /** A width or a precision: digits, or the next argument, or a numbered one. */
  predicate NumberPart(p: string, ids: int)
  {
    || IntDigits(p)
    || (p == "{}" && ids >= 0)
    || (|p| > 2 && p[0] == '{' && p[|p| - 1] == '}' && IdDigits(p[1..|p| - 1]) && ids <= 0)
  }

  predicate TypeLetter(c: char, t: Type)
  {
    match c
    case 'd' | 'x' | 'X' | 'o' | 'b' | 'B' => Whole(t)
    case 'e' | 'E' | 'f' | 'F' | 'g' | 'G' | 'a' | 'A' => t.Float?
    case 'c' => Whole(t) && !t.Bool?
    case 's' => t.Bool? || Texty(t)
    case 'p' => t.Pointer? || t.CString?
    case '?' => t.Char? || Texty(t)
    case _ => false
  }

  predicate RightPart(k: nat, p: string, ids: int, t: Type)
    requires 1 <= k <= 8
  {
    match k
    case 1 => AlignPart(p)
    case 2 => (p == "+" || p == "-" || p == " ") && (t.SInt? || t.Float?)
    case 3 => p == "#" && Number(t)
    case 4 => p == "0" && Number(t)
    case 5 => NumberPart(p, ids) && p[0] != '0'
    case 6 => p != "" && p[0] == '.' && NumberPart(p[1..], ids) && (t.Float? || Texty(t))
    case 7 => p == "L" && Number(t)
    case _ => |p| == 1 && TypeLetter(p[0], t)
  }

  // What each part means.

  function AlignOf(c: char): Align
  {
    match c
    case '<' => Left
    case '>' => Right
    case '^' => Center
    case _ => NoAlign
  }

  /** An index too large for an int is taken for the largest. */
  function IdOf(d: string): int
  {
    if |d| <= 10 && Reading(d) <= INT_MAX then Reading(d) else INT_MAX
  }

  function NumberOf(p: string, ids: int): Dynamic
  {
    if p == "{}" then Ref(ids)
    else if |p| > 2 && p[0] == '{' then Ref(IdOf(p[1..|p| - 1])) else Fixed(Reading(p))
  }

  function NumberIds(p: string, ids: int): int
  {
    if p == "{}" then ids + 1 else if p != "" && p[0] == '{' then MANUAL else ids
  }

  function TypeOf(c: char): Presentation
  {
    match c
    case 'd' => Dec
    case 'x' => Hex
    case 'X' => Hex
    case 'o' => Oct
    case 'b' => Bin
    case 'B' => Bin
    case 'e' => Exp
    case 'E' => Exp
    case 'f' => FixedPoint
    case 'F' => FixedPoint
    case 'g' => General
    case 'G' => General
    case 'a' => HexFloat
    case 'A' => HexFloat
    case 'c' => Chr
    case 's' => Str
    case 'p' => Ptr
    case '?' => Debug
    case _ => None
  }

  predicate UpperLetter(c: char) { c == 'X' || c == 'B' || c == 'E' || c == 'F' || c == 'G' || c == 'A' }

  /** The indexing state behind a part. */
  function PartIds(k: nat, p: string, ids: int): int
  {
    if k == 5 then NumberIds(p, ids) else if k == 6 && p != "" then NumberIds(p[1..], ids) else ids
  }

  /** Every part that is there is right. */
  predicate RightFrom(x: Parts, k: nat, ids: int, t: Type)
    requires 1 <= k <= 9
    decreases 9 - k
  {
    k == 9 || ((x[k - 1] == "" || RightPart(k, x[k - 1], ids, t)) && RightFrom(x, k + 1, PartIds(k, x[k - 1], ids), t))
  }

  function IdsFrom(x: Parts, k: nat, ids: int): int
    requires 1 <= k <= 9
    decreases 9 - k
  {
    if k == 9 then ids else IdsFrom(x, k + 1, PartIds(k, x[k - 1], ids))
  }

  /** What the parts say together. */
  function Meaning(x: Parts, ids: int): Specs
  {
    Specs(if |x[0]| > 1 then x[0][..|x[0]| - 1] else if x[0] == "" && x[3] != "" then "0" else " ",
          if x[0] != "" then AlignOf(x[0][|x[0]| - 1]) else if x[3] != "" then Numeric else NoAlign,
          if x[1] == "+" then Plus else if x[1] == " " then Space else NoSign,
          x[2] != "",
          x[7] != "" && UpperLetter(x[7][0]),
          x[6] != "",
          if x[7] == "" then None else TypeOf(x[7][0]),
          if x[4] == "" then Unset else NumberOf(x[4], ids),
          if x[5] == "" then Unset else NumberOf(x[5][1..], NumberIds(x[4], ids)))
  }

  // The parts taken one after the other, as the parser does.

  function ApplyPart(acc: Specs, k: nat, p: string, ids: int): Specs
    requires 1 <= k <= 8 && p != ""
  {
    match k
    case 1 => acc.(align := AlignOf(p[|p| - 1]), fill := if |p| > 1 then p[..|p| - 1] else acc.fill)
    case 2 => acc.(sign := if p == "+" then Plus else if p == " " then Space else acc.sign)
    case 3 => acc.(alt := true)
    case 4 => if acc.align == NoAlign then acc.(align := Numeric, fill := "0") else acc
    case 5 => acc.(width := NumberOf(p, ids))
    case 6 => acc.(precision := NumberOf(p[1..], ids))
    case 7 => acc.(localized := true)
    case _ => acc.(pres := TypeOf(p[0]), upper := acc.upper || UpperLetter(p[0]))
  }

  function ApplyFrom(acc: Specs, x: Parts, k: nat, ids: int): Specs
    requires 1 <= k <= 9
    decreases 9 - k
  {
    if k == 9 then acc
    else ApplyFrom(if x[k - 1] == "" then acc else ApplyPart(acc, k, x[k - 1], ids), x, k + 1,
                   PartIds(k, x[k - 1], ids))
  }

  lemma ApplyStep(acc: Specs, x: Parts, k: nat, ids: int)
    requires 1 <= k <= 8
    ensures ApplyFrom(acc, x, k, ids) ==
            ApplyFrom(if x[k - 1] == "" then acc else ApplyPart(acc, k, x[k - 1], ids), x, k + 1,
                      PartIds(k, x[k - 1], ids))
  {
    hide ApplyPart, PartIds;
  }

  /** The first four parts, ... */
  lemma ApplyFlags(x: Parts, ids: int)
    requires x[0] != "" ==> AlignOf(x[0][|x[0]| - 1]) != NoAlign
    ensures ApplyFrom(DEFAULT, x, 1, ids) ==
            ApplyFrom(Meaning(x, ids).(width := Unset, precision := Unset, localized := false, pres := None,
                                       upper := false), x, 5, ids)
  {
    hide AlignOf, TypeOf, NumberOf, UpperLetter, NumberIds, ApplyFrom;
    var a1 := if x[0] == "" then DEFAULT else ApplyPart(DEFAULT, 1, x[0], ids);
    ApplyStep(DEFAULT, x, 1, ids);
    var a2 := if x[1] == "" then a1 else ApplyPart(a1, 2, x[1], ids);
    ApplyStep(a1, x, 2, ids);
    var a3 := if x[2] == "" then a2 else ApplyPart(a2, 3, x[2], ids);
    ApplyStep(a2, x, 3, ids);
    ApplyStep(a3, x, 4, ids);
  }

  /** ... and the last four. */
  lemma ApplyRest(acc: Specs, x: Parts, ids: int)
    requires acc == Meaning(x, ids).(width := Unset, precision := Unset, localized := false, pres := None,
                                     upper := false)
    ensures ApplyFrom(acc, x, 5, ids) == Meaning(x, ids)
  {
    hide AlignOf, TypeOf, NumberOf, UpperLetter, NumberIds, ApplyFrom;
    NoIds(ids);
    var a5 := if x[4] == "" then acc else ApplyPart(acc, 5, x[4], ids);
    ApplyStep(acc, x, 5, ids);
    var ids5 := NumberIds(x[4], ids);
    var a6 := if x[5] == "" then a5 else ApplyPart(a5, 6, x[5], ids5);
    ApplyStep(a5, x, 6, ids5);
    var ids6 := PartIds(6, x[5], ids5);
    ApplyStep(a6, x, 7, ids6);
    var a7 := if x[6] == "" then a6 else ApplyPart(a6, 7, x[6], ids6);
    ApplyStep(a7, x, 8, ids6);
    ApplyNone(if x[7] == "" then a7 else ApplyPart(a7, 8, x[7], ids6), x, ids6);
  }

  lemma NoIds(ids: int)
    ensures NumberIds("", ids) == ids
  {
  }

  lemma ApplyNone(acc: Specs, x: Parts, ids: int)
    ensures ApplyFrom(acc, x, 9, ids) == acc
  {
  }

  lemma ApplyAll(x: Parts, ids: int, t: Type)
    requires RightFrom(x, 1, ids, t)
    ensures ApplyFrom(DEFAULT, x, 1, ids) == Meaning(x, ids)
  {
    assert x[0] != "" ==> AlignOf(x[0][|x[0]| - 1]) != NoAlign by { hide Meaning, ApplyFrom; }
    hide RightFrom, Meaning, ApplyFrom;
    ApplyFlags(x, ids);
    ApplyRest(Meaning(x, ids).(width := Unset, precision := Unset, localized := false, pres := None, upper := false),
              x, ids);
  }

  // Numbers.

  lemma {:induction false} DigitsEndIs(s: string, i: nat, j: nat)
    requires i <= j <= |s| && (j < |s| ==> !IsDigit(s[j])) && forall k :: i <= k < j ==> IsDigit(s[k])
    ensures DigitsEnd(s, i) == j
    decreases j - i
  {
    if i < j { DigitsEndIs(s, i + 1, j); }
  }

  lemma {:induction false} DigitsBetween(s: string, i: nat)
    requires i <= |s|
    ensures var j := DigitsEnd(s, i); AllDigitChars(s[i..j]) && (j < |s| ==> !IsDigit(s[j]))
    decreases |s| - i
  {
    if i < |s| && IsDigit(s[i]) {
      DigitsBetween(s, i + 1);
      var j := DigitsEnd(s, i);
      assert s[i..j] == [s[i]] + s[i + 1..j];
    }
  }

  lemma {:induction false} ValueIs(s: string, i: nat, j: nat)
    requires i <= j <= |s|
    ensures Value(s, i, j) == Reading(s[i..j])
    decreases j - i
  {
    if i < j {
      ValueIs(s, i, j - 1);
      assert s[i..j] == s[i..j - 1] + [s[j - 1]];
      ReadingSnoc(s[i..j - 1], s[j - 1]);
    }
  }

  /** Nine digits always fit. */
  lemma {:induction false} ReadingBound(d: string)
    requires AllDigitChars(d)
    ensures 0 <= Reading(d) < Pow(10, |d|)
  {
    if d != "" { ReadingBound(d[..|d| - 1]); }
  }

  lemma NineFit(d: string)
    requires AllDigitChars(d) && |d| <= 9
    ensures 0 <= Reading(d) <= INT_MAX
  {
    ReadingBound(d);
    PowMonotone(10, |d|, 9);
    assert Pow(10, 9) == 1000000000;
  }

  /** Digits up to the first other character. */
  predicate DigitsAt(s: string, i: nat, d: string)
  {
    i + |d| <= |s| && d != "" && s[i..i + |d|] == d && AllDigitChars(d) && (i + |d| < |s| ==> !IsDigit(s[i + |d|]))
  }

  lemma DigitsThere(s: string, i: nat, d: string)
    requires DigitsAt(s, i, d)
    ensures i < |s| && s[i] == d[0] && IsDigit(s[i])
    ensures DigitsEnd(s, i) == i + |d| && Value(s, i, i + |d|) == Reading(d)
  {
    hide Reading, DigitsEnd, Value, IsDigit;
    var j := i + |d|;
    assert s[i] == s[i..j][0];
    forall k | i <= k < j ensures IsDigit(s[k]) {
      assert s[k] == s[i..j][k - i];
    }
    DigitsEndIs(s, i, j);
    ValueIs(s, i, j);
  }

  lemma DigitsFound(s: string, i: nat)
    requires i < |s| && IsDigit(s[i])
    ensures DigitsAt(s, i, s[i..DigitsEnd(s, i)])
  {
    hide IsDigit;
    DigitsBetween(s, i);
  }

  lemma IntRead(s: string, i: nat, d: string)
    requires DigitsAt(s, i, d)
    ensures i < |s| && IsDigit(s[i]) && ParseInt(s, i) == if IntDigits(d) then Ok(Reading(d)) else Err
  {
    hide Reading, DigitsEnd, Value, AllDigitChars;
    DigitsThere(s, i, d);
    if |d| <= 9 { NineFit(d); }
  }

  /** An index in front of a brace or a colon. */
  lemma ArgIdRead(s: string, i: nat, d: string)
    requires DigitsAt(s, i, d) && IdDigits(d) && i + |d| < |s| && (s[i + |d|] == '}' || s[i + |d|] == ':')
    ensures i < |s| && ParseArgId(s, i) == Ok(Index(IdOf(d), i + |d|))
  {
    hide DigitsEnd, Value, ParseInt, AllDigitChars;
    IntRead(s, i, d);
    DigitsThere(s, i, d);
    if d[0] == '0' { ReadingZero(d); }
  }

  lemma ReadingZero(d: string)
    requires |d| == 1 && d[0] == '0'
    ensures Reading(d) == 0
  {
    assert d[..0] == "";
  }

  lemma ArgIdOnly(s: string, i: nat)
    requires i < |s| && ParseArgId(s, i).Ok? && ParseArgId(s, i).value.Index?
    ensures var d := s[i..ParseArgId(s, i).value.end];
            DigitsAt(s, i, d) && IdDigits(d) && ParseArgId(s, i).value.id == IdOf(d)
  {
    hide DigitsEnd, Value, ParseInt, AllDigitChars;
    var a := ParseArgId(s, i).value;
    if s[i] == '0' {
      assert !IsDigit(s[i + 1]);
      ZeroAt(s, i);
    } else {
      DigitsFound(s, i);
      IntRead(s, i, s[i..a.end]);
    }
  }

  lemma ZeroAt(s: string, i: nat)
    requires i + 1 < |s| && s[i] == '0' && !IsDigit(s[i + 1])
    ensures DigitsAt(s, i, s[i..i + 1]) && IdOf(s[i..i + 1]) == 0 && IdDigits(s[i..i + 1])
  {
    ReadingZero(s[i..i + 1]);
  }

  // Widths and precisions.

  lemma DynamicRead(s: string, i: nat, p: string, ids: int)
    requires NumberPart(p, ids) && i + |p| < |s| && s[i..i + |p|] == p && !IsDigit(s[i + |p|])
    ensures i < |s| && ParseDynamic(s, i, ids) == Ok(DynamicResult(NumberOf(p, ids), i + |p|, NumberIds(p, ids)))
  {
    hide Reading, ParseInt, ParseArgId, AllDigitChars, DigitsEnd;
    if IntDigits(p) {
      assert DigitsAt(s, i, p);
      IntRead(s, i, p);
      DigitsThere(s, i, p);
    } else if p == "{}" {
      assert s[i] == p[0] && s[i + 1] == p[1];
    } else {
      var d := p[1..|p| - 1];
      InnerDigits(s, i, p);
      ArgIdRead(s, i + 1, d);
      DigitsThere(s, i + 1, d);
    }
  }

  lemma InnerDigits(s: string, i: nat, p: string)
    requires |p| > 2 && i + |p| <= |s| && s[i..i + |p|] == p && p[0] == '{' && p[|p| - 1] == '}'
    requires IdDigits(p[1..|p| - 1])
    ensures var d := p[1..|p| - 1]; DigitsAt(s, i + 1, d) && s[i] == '{' && s[i + 1 + |d|] == '}'
  {
    hide Reading;
    var d := p[1..|p| - 1];
    assert s[i] == p[0] && s[i + |p| - 1] == p[|p| - 1];
    SubSlice(s, i, i + |p|, 1, |p| - 1);
  }

  lemma SubSlice(s: string, i: nat, j: nat, a: nat, b: nat)
    requires i <= j <= |s| && a <= b <= j - i
    ensures s[i..j][a..b] == s[i + a..i + b]
  {
    assert forall k :: 0 <= k < b - a ==> s[i..j][a..b][k] == s[i..j][a + k] == s[i + a + k];
  }

  lemma DynamicOnly(s: string, i: nat, ids: int)
    requires i < |s| && ParseDynamic(s, i, ids).Ok? && ids >= MANUAL
    ensures var r := ParseDynamic(s, i, ids).value;
            var p := s[i..r.end];
            NumberPart(p, ids) && r.value == NumberOf(p, ids) && r.ids == NumberIds(p, ids) && p[0] == s[i]
  {
    hide Reading, ParseInt, ParseArgId, AllDigitChars, DigitsEnd;
    var r := ParseDynamic(s, i, ids).value;
    var p := s[i..r.end];
    if IsDigit(s[i]) {
      DigitsFound(s, i);
      IntRead(s, i, p);
    } else if s[i + 1] == '}' {
      assert p == "{}";
    } else {
      ArgIdOnly(s, i + 1);
      assert p[1..|p| - 1] == s[i + 1..r.end - 1];
    }
  }

  // One part, read.

  function StageOf(k: nat): Stage
  {
    match k
    case 1 => Alignment
    case 2 => Signed
    case 3 => Hash
    case 4 => Zero
    case 5 => Width
    case 6 => Precision
    case _ => Locale
  }

  /** A part stands at i, with something behind it. */
  predicate Stands(s: string, i: nat, p: string)
  {
    i + |p| < |s| && s[i..i + |p|] == p
  }

  /** The characters that decide how a step goes on. */
  predicate Special(c: char)
  {
    FlagChar(c) || '1' <= c <= '9' || c == '{' || c == '.' || PresentationChar(c) || c == '}'
  }

  lemma FlagCharIs(c: char)
    ensures FlagChar(c) <==>
            c == '<' || c == '>' || c == '^' || c == '+' || c == '-' || c == ' ' || c == '#' || c == '0' || c == 'L'
  {
    var f := "<>^+- #0L";
    assert f[0] == '<' && f[1] == '>' && f[2] == '^' && f[3] == '+' && f[4] == '-' && f[5] == ' ' && f[6] == '#' &&
           f[7] == '0' && f[8] == 'L';
  }

  predicate SomeLetter(c: char)
  {
    match c
    case 'd' | 'x' | 'X' | 'o' | 'b' | 'B' => true
    case 'e' | 'E' | 'f' | 'F' | 'g' | 'G' | 'a' | 'A' => true
    case 'c' | 's' | 'p' | '?' => true
    case _ => false
  }

  lemma PresentationCharIs(c: char)
    ensures PresentationChar(c) <==> SomeLetter(c)
  {
    var f := "dxXobBeEfFgGaAcsp?";
    assert f[0] == 'd' && f[1] == 'x' && f[2] == 'X' && f[3] == 'o' && f[4] == 'b' && f[5] == 'B' && f[6] == 'e' &&
           f[7] == 'E' && f[8] == 'f';
    assert f[9] == 'F' && f[10] == 'g' && f[11] == 'G' && f[12] == 'a' && f[13] == 'A' && f[14] == 'c' &&
           f[15] == 's' && f[16] == 'p' && f[17] == '?';
  }

  lemma NotSpecial(c: char)
    requires c == '\0' || c as int >= 0x80
    ensures !Special(c)
  {
    FlagCharIs(c);
    PresentationCharIs(c);
    hide FlagChar, PresentationChar;
  }

  lemma OtherDispatch(s: string, i: nat, c: char, stage: Stage, acc: Specs, ids: int, t: Type)
    requires i < |s| && !Special(c)
    ensures ParseOne(s, i, c, stage, acc, ids, t) == ParseFill(s, i, stage, acc, ids)
  {
    hide FlagChar, PresentationChar, ParseFill;
  }

  lemma LetterDispatch(s: string, i: nat, c: char, stage: Stage, acc: Specs, ids: int, t: Type)
    requires i < |s| && SomeLetter(c)
    ensures ParseOne(s, i, c, stage, acc, ids, t) == ParsePresentation(c, t, acc, i)
  {
    FlagCharIs(c);
    PresentationCharIs(c);
    hide FlagChar, PresentationChar, ParsePresentation;
  }

  lemma FlagDispatch(s: string, i: nat, c: char, stage: Stage, acc: Specs, ids: int, t: Type)
    requires i < |s| && FlagChar(c)
    ensures ParseOne(s, i, c, stage, acc, ids, t) == ParseFlag(c, i, stage, acc, ids, t)
  {
    hide FlagChar, ParseFlag;
  }

  lemma WidthDispatch(s: string, i: nat, c: char, stage: Stage, acc: Specs, ids: int, t: Type)
    requires i < |s| && ('1' <= c <= '9' || c == '{')
    ensures ParseOne(s, i, c, stage, acc, ids, t) ==
            if stage.Rank() < 5 then WithWidth(acc, ParseDynamic(s, i, ids)) else Err
  {
    FlagCharIs(c);
    hide FlagChar, ParseDynamic;
  }

  lemma PrecisionDispatch(s: string, i: nat, stage: Stage, acc: Specs, ids: int, t: Type)
    requires i < |s|
    ensures ParseOne(s, i, '.', stage, acc, ids, t) ==
            if stage.Rank() < 6 && (t.Float? || t.String? || t.CString?) && i + 1 < |s|
            then WithPrecision(acc, ParseDynamic(s, i + 1, ids)) else Err
  {
    FlagCharIs('.');
    hide FlagChar, ParseDynamic;
  }

  /** Parts of a single character. */
  lemma FlagRead(s: string, i: nat, k: nat, p: string, stage: Stage, acc: Specs, ids: int, t: Type)
    requires 1 <= k <= 7 && k != 5 && k != 6 && |p| == 1 && RightPart(k, p, ids, t)
    requires Stands(s, i, p) && stage.Rank() < k
    ensures ParseOne(s, i, s[i], stage, acc, ids, t) == Ok(More(ApplyPart(acc, k, p, ids), i + 1, StageOf(k), ids))
  {
    assert s[i] == p[0];
    hide NumberPart, FillCharacter, TypeLetter, ParseOne, FlagChar;
    FlagCharIs(s[i]);
    FlagDispatch(s, i, s[i], stage, acc, ids, t);
  }

  lemma FillRead(s: string, i: nat, c: char, p: string, acc: Specs, ids: int, t: Type)
    requires |p| > 1 && AlignPart(p) && Stands(s, i, p) && (c == '\0' || (c == s[i] && |p| > 2))
    ensures ParseOne(s, i, c, Start, acc, ids, t) == Ok(More(ApplyPart(acc, 1, p, ids), i + |p|, Alignment, ids))
  {
    hide ParseOne, Special;
    var f := p[..|p| - 1];
    assert s[i] == p[0] == f[0] && s[i + |f|] == p[|p| - 1] && s[i..i + |f|] == f;
    NotSpecial(c);
    OtherDispatch(s, i, c, Start, acc, ids, t);
  }

  lemma WidthRead(s: string, i: nat, p: string, stage: Stage, acc: Specs, ids: int, t: Type)
    requires RightPart(5, p, ids, t) && Stands(s, i, p) && !IsDigit(s[i + |p|]) && stage.Rank() < 5
    ensures ParseOne(s, i, s[i], stage, acc, ids, t) ==
            Ok(More(ApplyPart(acc, 5, p, ids), i + |p|, Width, NumberIds(p, ids)))
  {
    hide ParseOne, ParseDynamic, NumberOf, NumberIds, Reading;
    DynamicRead(s, i, p, ids);
    assert s[i] == p[0];
    WidthDispatch(s, i, s[i], stage, acc, ids, t);
  }

  lemma PrecisionRead(s: string, i: nat, p: string, stage: Stage, acc: Specs, ids: int, t: Type)
    requires RightPart(6, p, ids, t) && Stands(s, i, p) && !IsDigit(s[i + |p|]) && stage.Rank() < 6
    ensures ParseOne(s, i, s[i], stage, acc, ids, t) ==
            Ok(More(ApplyPart(acc, 6, p, ids), i + |p|, Precision, NumberIds(p[1..], ids)))
  {
    hide ParseOne, ParseDynamic, NumberOf, NumberIds, Reading, NumberPart;
    assert s[i] == p[0] && s[i + 1..i + 1 + |p[1..]|] == p[1..];
    DynamicRead(s, i + 1, p[1..], ids);
    PrecisionDispatch(s, i, stage, acc, ids, t);
  }

  lemma LetterRead(s: string, i: nat, stage: Stage, acc: Specs, ids: int, t: Type)
    requires i < |s| && TypeLetter(s[i], t)
    ensures ParseOne(s, i, s[i], stage, acc, ids, t) == Ok(Done(ApplyPart(acc, 8, [s[i]], ids), i + 1))
  {
    hide ParseOne;
    LetterDispatch(s, i, s[i], stage, acc, ids, t);
  }

  // ... and what is read is a part.

  lemma FlagOnly(c: char, i: nat, stage: Stage, acc: Specs, ids: int, t: Type)
    requires FlagChar(c) && ParseFlag(c, i, stage, acc, ids, t).Ok?
    ensures var m := ParseFlag(c, i, stage, acc, ids, t).value;
            var k := m.stage.Rank();
            && stage.Rank() < k && 1 <= k <= 7 && k != 5 && k != 6
            && RightPart(k, [c], ids, t) && m.specs == ApplyPart(acc, k, [c], ids)
  {
    hide ParseFlag, RightPart, ApplyPart, FlagChar, Stage.Rank;
    FlagCharIs(c);
    if AlignLetter(c) {
      AlignFlagOnly(c, i, stage, acc, ids, t);
    } else if c == '+' || c == '-' || c == ' ' {
      SignFlagOnly(c, i, stage, acc, ids, t);
    } else {
      OtherFlagOnly(c, i, stage, acc, ids, t);
    }
  }

  lemma AlignFlagOnly(c: char, i: nat, stage: Stage, acc: Specs, ids: int, t: Type)
    requires AlignLetter(c) && ParseFlag(c, i, stage, acc, ids, t).Ok?
    ensures var m := ParseFlag(c, i, stage, acc, ids, t).value;
            m.stage.Rank() == 1 && stage.Rank() < 1 && RightPart(1, [c], ids, t) &&
            m.specs == ApplyPart(acc, 1, [c], ids)
  {
  }

  lemma SignFlagOnly(c: char, i: nat, stage: Stage, acc: Specs, ids: int, t: Type)
    requires (c == '+' || c == '-' || c == ' ') && ParseFlag(c, i, stage, acc, ids, t).Ok?
    ensures var m := ParseFlag(c, i, stage, acc, ids, t).value;
            m.stage.Rank() == 2 && stage.Rank() < 2 && RightPart(2, [c], ids, t) &&
            m.specs == ApplyPart(acc, 2, [c], ids)
  {
    hide ParseAlign;
  }

  lemma OtherFlagOnly(c: char, i: nat, stage: Stage, acc: Specs, ids: int, t: Type)
    requires (c == '#' || c == '0' || c == 'L') && ParseFlag(c, i, stage, acc, ids, t).Ok?
    ensures var m := ParseFlag(c, i, stage, acc, ids, t).value;
            var k := if c == '#' then 3 else if c == '0' then 4 else 7;
            m.stage.Rank() == k && stage.Rank() < k && RightPart(k, [c], ids, t) &&
            m.specs == ApplyPart(acc, k, [c], ids)
  {
    hide ParseAlign, NumberPart, TypeLetter;
  }

  lemma FillOnly(s: string, i: nat, stage: Stage, acc: Specs, ids: int)
    requires i < |s| && ParseFill(s, i, stage, acc, ids).Ok? && ParseFill(s, i, stage, acc, ids).value.More?
    ensures var m := ParseFill(s, i, stage, acc, ids).value;
            && stage == Start && m.stage == Alignment && m.ids == ids
            && AlignPart(s[i..m.at]) && m.specs == ApplyPart(acc, 1, s[i..m.at], ids)
  {
    var m := ParseFill(s, i, stage, acc, ids).value;
    var p := s[i..m.at];
    assert p[..|p| - 1] == s[i..m.at - 1] && p[|p| - 1] == s[m.at - 1] && p[0] == s[i];
  }

  /** A step of the parser takes a right part, further down the order. */
  lemma PartOnly(s: string, i: nat, c: char, stage: Stage, acc: Specs, ids: int, t: Type)
    requires i < |s| && (c == s[i] || c == '\0') && ids >= MANUAL
    requires ParseOne(s, i, c, stage, acc, ids, t).Ok? && ParseOne(s, i, c, stage, acc, ids, t).value.More?
    ensures var m := ParseOne(s, i, c, stage, acc, ids, t).value;
            var k, p := m.stage.Rank(), s[i..m.at];
            && stage.Rank() < k && 1 <= k <= 7 && p != "" && RightPart(k, p, ids, t)
            && m.specs == ApplyPart(acc, k, p, ids) && m.ids == PartIds(k, p, ids)
  {
    hide ParseOne, ParseDynamic, ParseFlag, ParseFill, ParsePresentation, NumberPart, NumberOf, NumberIds, AlignPart,
         FlagChar, PresentationChar, TypeLetter;
    var m := ParseOne(s, i, c, stage, acc, ids, t).value;
    NotSpecial('\0');
    PresentationCharIs(c);
    if FlagChar(c) {
      FlagDispatch(s, i, c, stage, acc, ids, t);
      FlagOnly(c, i, stage, acc, ids, t);
      assert s[i..m.at] == [c];
    } else if '1' <= c <= '9' || c == '{' {
      WidthDispatch(s, i, c, stage, acc, ids, t);
      DynamicOnly(s, i, ids);
    } else if c == '.' {
      PrecisionDispatch(s, i, stage, acc, ids, t);
      DynamicOnly(s, i + 1, ids);
      assert s[i..m.at][1..] == s[i + 1..m.at];
    } else if SomeLetter(c) {
      LetterDispatch(s, i, c, stage, acc, ids, t);
    } else if c == '}' {
      BraceStops(s, i, stage, acc, ids, t);
    } else {
      OtherDispatch(s, i, c, stage, acc, ids, t);
      FillOnly(s, i, stage, acc, ids);
    }
  }

  lemma BraceStops(s: string, i: nat, stage: Stage, acc: Specs, ids: int, t: Type)
    requires i < |s|
    ensures ParseOne(s, i, '}', stage, acc, ids, t) == Ok(Done(acc, i))
  {
    FlagCharIs('}');
    PresentationCharIs('}');
    hide FlagChar, PresentationChar;
  }

  /** The parser stops at a closing brace or behind a type letter. */
  lemma StopOnly(s: string, i: nat, c: char, stage: Stage, acc: Specs, ids: int, t: Type)
    requires i < |s| && (c == s[i] || c == '\0')
    requires ParseOne(s, i, c, stage, acc, ids, t).Ok? && ParseOne(s, i, c, stage, acc, ids, t).value.Done?
    ensures var m := ParseOne(s, i, c, stage, acc, ids, t).value;
            || (m.end == i && s[i] == '}' && m.specs == acc)
            || (m.end == i + 1 && TypeLetter(s[i], t) && m.specs == ApplyPart(acc, 8, [s[i]], ids))
  {
    hide ParseOne, ParseDynamic, ParseFlag, FlagChar, PresentationChar, ParsePresentation, TypeLetter, ApplyPart,
         CodePointLength, ParseAlign;
    NotSpecial('\0');
    PresentationCharIs(c);
    if FlagChar(c) {
      FlagDispatch(s, i, c, stage, acc, ids, t);
    } else if '1' <= c <= '9' || c == '{' {
      WidthDispatch(s, i, c, stage, acc, ids, t);
    } else if c == '.' {
      PrecisionDispatch(s, i, stage, acc, ids, t);
    } else if SomeLetter(c) {
      LetterDispatch(s, i, c, stage, acc, ids, t);
      LetterOnly(c, t, acc, i, ids);
    } else if c == '}' {
      BraceStops(s, i, stage, acc, ids, t);
    } else {
      OtherDispatch(s, i, c, stage, acc, ids, t);
    }
  }

  lemma LetterOnly(c: char, t: Type, acc: Specs, i: nat, ids: int)
    requires SomeLetter(c) && ParsePresentation(c, t, acc, i).Ok?
    ensures TypeLetter(c, t) && c != '\0'
    ensures ParsePresentation(c, t, acc, i).value == Done(ApplyPart(acc, 8, [c], ids), i + 1)
  {
  }

  // All parts.

  /** What may stand at the start of the parts from k on, in front of a closing brace. */
  predicate Tame(s: string, k: nat)
  {
    s != "" && !AlignLetter(s[0]) && (k >= 6 ==> !IsDigit(s[0])) && (|s| > 1 && s[0] != '}' ==> !AlignLetter(s[1]))
  }

  lemma {:induction false} StartOf(x: Parts, k: nat, ids: int, t: Type, post: string)
    requires 2 <= k <= 9 && RightFrom(x, k, ids, t)
    ensures Tame(From(x, k) + ("}" + post), k)
    decreases 9 - k
  {
    hide RightPart, PartIds;
    var tail := "}" + post;
    if k < 9 {
      var p := x[k - 1];
      StartOf(x, k + 1, PartIds(k, p, ids), t, post);
      Joined(p, From(x, k + 1), tail);
      if p != "" {
        PartTame(k, p, ids, t);
        TameJoin(p, From(x, k + 1) + tail, k);
      }
    }
  }

  lemma Joined(a: string, b: string, c: string)
    ensures (a + b) + c == a + (b + c) && "" + b == b
  {
  }

  lemma TameJoin(p: string, rest: string, k: nat)
    requires p != "" && Tame(p, k) && Tame(rest, k + 1)
    ensures Tame(p + rest, k)
  {
  }

  lemma PartTame(k: nat, p: string, ids: int, t: Type)
    requires 2 <= k <= 8 && RightPart(k, p, ids, t)
    ensures Tame(p, k)
  {
    hide Reading;
  }

  /** One step of the loop that goes on. */
  lemma LoopOn(s: string, i: nat, c: char, stage: Stage, acc: Specs, ids: int, t: Type, m: Move)
    requires i < |s| && ParseOne(s, i, c, stage, acc, ids, t) == Ok(m) && m.More? && m.at < |s|
    ensures ParseLoop(s, i, c, stage, acc, ids, t) == ParseLoop(s, m.at, s[m.at], m.stage, m.specs, m.ids, t)
  {
    hide ParseOne;
  }

  lemma PartRead(s: string, i: nat, k: nat, p: string, stage: Stage, acc: Specs, ids: int, t: Type)
    requires 2 <= k <= 7 && RightPart(k, p, ids, t) && Stands(s, i, p) && stage.Rank() < k
    requires k >= 5 ==> !IsDigit(s[i + |p|])
    ensures p != "" && i < |s| && ParseOne(s, i, s[i], stage, acc, ids, t) ==
            Ok(More(ApplyPart(acc, k, p, ids), i + |p|, StageOf(k), PartIds(k, p, ids)))
  {
    hide ParseOne, NumberPart, NumberOf, NumberIds;
    PartTame(k, p, ids, t);
    if k == 5 {
      WidthRead(s, i, p, stage, acc, ids, t);
    } else if k == 6 {
      PrecisionRead(s, i, p, stage, acc, ids, t);
    } else {
      FlagRead(s, i, k, p, stage, acc, ids, t);
    }
  }

  /** The parts from k on are read one after the other. */
  lemma {:induction false} FromRead(s: string, i: nat, x: Parts, k: nat, stage: Stage, acc: Specs, ids: int, t: Type,
                                    post: string)
    requires 2 <= k <= 9 && stage.Rank() < k && RightFrom(x, k, ids, t)
    requires i <= |s| && s[i..] == From(x, k) + ("}" + post)
    ensures i < |s| && ParseLoop(s, i, s[i], stage, acc, ids, t) ==
            Ok(SpecsResult(ApplyFrom(acc, x, k, ids), i + |From(x, k)|, IdsFrom(x, k, ids)))
    decreases 9 - k, 1
  {
    hide RightPart, PartIds, ApplyPart, ParseOne, ParseLoop, From, ApplyFrom, IdsFrom, RightFrom, Stands, Tame;
    var tail := "}" + post;
    if k == 9 {
      NoMore(x, acc, ids);
      assert s[i] == s[i..][0] == '}';
      BraceStops(s, i, stage, acc, ids, t);
      LoopStops(s, i, stage, acc, ids, t, Done(acc, i));
    } else {
      var p, rest := x[k - 1], From(x, k + 1);
      OneMore(x, k, acc, ids, t);
      Joined(p, rest, tail);
      NoPartIds(k, ids);
      if p == "" {
        FromRead(s, i, x, k + 1, stage, acc, ids, t, post);
      } else {
        After(s, i, p, rest + tail);
        StartOf(x, k + 1, PartIds(k, p, ids), t, post);
        PartThenRest(s, i, x, k, stage, acc, ids, t, post);
      }
    }
  }

  lemma PartThenRest(s: string, i: nat, x: Parts, k: nat, stage: Stage, acc: Specs, ids: int, t: Type, post: string)
    requires 2 <= k <= 8 && stage.Rank() < k && RightPart(k, x[k - 1], ids, t) && x[k - 1] != ""
    requires RightFrom(x, k + 1, PartIds(k, x[k - 1], ids), t) && Stands(s, i, x[k - 1])
    requires s[i + |x[k - 1]|..] == From(x, k + 1) + ("}" + post) && Tame(From(x, k + 1) + ("}" + post), k + 1)
    ensures i < |s| && ParseLoop(s, i, s[i], stage, acc, ids, t) ==
            Ok(SpecsResult(ApplyFrom(ApplyPart(acc, k, x[k - 1], ids), x, k + 1, PartIds(k, x[k - 1], ids)),
                           i + |x[k - 1] + From(x, k + 1)|, IdsFrom(x, k + 1, PartIds(k, x[k - 1], ids))))
    decreases 9 - k, 0
  {
    hide RightPart, PartIds, ApplyPart, ParseOne, ParseLoop, From, ApplyFrom, IdsFrom, RightFrom;
    var p := x[k - 1];
    var acc', ids' := ApplyPart(acc, k, p, ids), PartIds(k, p, ids);
    if k == 8 {
      NoMore(x, acc', ids');
      LetterStops(s, i, p, stage, acc, ids, t);
    } else {
      assert s[i + |p|] == s[i + |p|..][0];
      PartRead(s, i, k, p, stage, acc, ids, t);
      LoopOn(s, i, s[i], stage, acc, ids, t, More(acc', i + |p|, StageOf(k), ids'));
      StageRank(k);
      FromRead(s, i + |p|, x, k + 1, StageOf(k), acc', ids', t, post);
    }
  }

  lemma OneMore(x: Parts, k: nat, acc: Specs, ids: int, t: Type)
    requires 1 <= k <= 8
    ensures From(x, k) == x[k - 1] + From(x, k + 1)
    ensures RightFrom(x, k, ids, t) ==>
              (x[k - 1] == "" || RightPart(k, x[k - 1], ids, t)) && RightFrom(x, k + 1, PartIds(k, x[k - 1], ids), t)
    ensures IdsFrom(x, k, ids) == IdsFrom(x, k + 1, PartIds(k, x[k - 1], ids))
    ensures ApplyFrom(acc, x, k, ids) ==
            ApplyFrom(if x[k - 1] == "" then acc else ApplyPart(acc, k, x[k - 1], ids), x, k + 1,
                      PartIds(k, x[k - 1], ids))
  {
    hide RightPart, PartIds, ApplyPart;
  }

  lemma NoMore(x: Parts, acc: Specs, ids: int)
    ensures From(x, 9) == "" && ApplyFrom(acc, x, 9, ids) == acc && IdsFrom(x, 9, ids) == ids
  {
  }

  lemma LoopStops(s: string, i: nat, stage: Stage, acc: Specs, ids: int, t: Type, m: Move)
    requires i < |s| && ParseOne(s, i, s[i], stage, acc, ids, t) == Ok(m) && m.Done?
    ensures ParseLoop(s, i, s[i], stage, acc, ids, t) == Ok(SpecsResult(m.specs, m.end, ids))
  {
    hide ParseOne;
  }

  lemma LetterStops(s: string, i: nat, p: string, stage: Stage, acc: Specs, ids: int, t: Type)
    requires RightPart(8, p, ids, t) && Stands(s, i, p)
    ensures PartIds(8, p, ids) == ids && p != "" && i < |s|
    ensures ParseLoop(s, i, s[i], stage, acc, ids, t) == Ok(SpecsResult(ApplyPart(acc, 8, p, ids), i + |p|, ids))
  {
    hide ParseOne, ParseLoop, TypeLetter;
    assert s[i] == p[0] && p == [s[i]];
    LetterRead(s, i, stage, acc, ids, t);
    LoopStops(s, i, stage, acc, ids, t, Done(ApplyPart(acc, 8, p, ids), i + 1));
  }

  lemma NoPartIds(k: nat, ids: int)
    ensures PartIds(k, "", ids) == ids
  {
  }

  lemma StageRank(k: nat)
    requires 1 <= k <= 7
    ensures StageOf(k).Rank() == k
  {
  }

  lemma After(s: string, i: nat, p: string, rest: string)
    requires i <= |s| && s[i..] == p + rest && rest != ""
    ensures Stands(s, i, p) && s[i + |p|..] == rest && s[i + |p|] == rest[0]
  {
    assert s[i..][..|p|] == p && s[i..][|p|..] == rest;
  }

  /** The character the parser starts with: none if the second one is an alignment. */
  function StartChar(s: string, i: nat): char
    requires i < |s|
  {
    if i + 1 < |s| && AlignLetter(s[i + 1]) then '\0' else s[i]
  }

  lemma SpecsStart(s: string, i: nat, ids: int, t: Type)
    requires i < |s|
    ensures ParseSpecs(s, i, ids, t) == ParseLoop(s, i, StartChar(s, i), Start, DEFAULT, ids, t)
  {
    hide ParseLoop;
  }

  /** Without an alignment. */
  lemma UnalignedRead(s: string, i: nat, x: Parts, ids: int, t: Type, post: string)
    requires x[0] == "" && RightFrom(x, 2, ids, t) && i <= |s| && s[i..] == From(x, 2) + ("}" + post)
    ensures ParseSpecs(s, i, ids, t) ==
            Ok(SpecsResult(ApplyFrom(DEFAULT, x, 2, ids), i + |From(x, 2)|, IdsFrom(x, 2, ids)))
  {
    hide RightFrom, ParseLoop, ApplyFrom, IdsFrom, From;
    StartOf(x, 2, ids, t, post);
    assert s[i] == s[i..][0] && (i + 1 < |s| ==> s[i + 1] == s[i..][1]);
    SpecsStart(s, i, ids, t);
    FromRead(s, i, x, 2, Start, DEFAULT, ids, t, post);
    if s[i] == '}' { BraceEither(s, i, ids, t); }
  }

  lemma BraceEither(s: string, i: nat, ids: int, t: Type)
    requires i < |s| && s[i] == '}'
    ensures ParseLoop(s, i, '\0', Start, DEFAULT, ids, t) == ParseLoop(s, i, s[i], Start, DEFAULT, ids, t)
  {
    hide ParseOne, Special;
    NotSpecial('\0');
    OtherDispatch(s, i, '\0', Start, DEFAULT, ids, t);
    BraceStops(s, i, Start, DEFAULT, ids, t);
  }

  lemma AlignedRead(s: string, i: nat, x: Parts, ids: int, t: Type, post: string)
    requires AlignPart(x[0]) && RightFrom(x, 2, ids, t)
    requires i <= |s| && s[i..] == x[0] + (From(x, 2) + ("}" + post))
    ensures ParseSpecs(s, i, ids, t) ==
            Ok(SpecsResult(ApplyFrom(ApplyPart(DEFAULT, 1, x[0], ids), x, 2, ids), i + |x[0]| + |From(x, 2)|,
                           IdsFrom(x, 2, ids)))
  {
    hide RightFrom, ParseLoop, ParseOne, ApplyFrom, IdsFrom, From, ApplyPart, FillCharacter;
    var p := x[0];
    StartOf(x, 2, ids, t, post);
    After(s, i, p, From(x, 2) + ("}" + post));
    SpecsStart(s, i, ids, t);
    assert s[i] == s[i..i + |p|][0] && (|p| > 1 ==> s[i + 1] == s[i..i + |p|][1]);
    if |p| == 1 {
      FlagRead(s, i, 1, p, Start, DEFAULT, ids, t);
    } else {
      FillRead(s, i, StartChar(s, i), p, DEFAULT, ids, t);
    }
    LoopOn(s, i, StartChar(s, i), Start, DEFAULT, ids, t, More(ApplyPart(DEFAULT, 1, p, ids), i + |p|, Alignment, ids));
    FromRead(s, i + |p|, x, 2, Alignment, ApplyPart(DEFAULT, 1, p, ids), ids, t, post);
  }

  predicate Grammatical(x: Parts, ids: int, t: Type) { RightFrom(x, 1, ids, t) }

  /** Whatever is written by the grammar is read as what it means. */
  lemma SpecsRead(pre: string, x: Parts, post: string, ids: int, t: Type)
    requires Grammatical(x, ids, t)
    ensures ParseSpecs(pre + Wording(x) + "}" + post, |pre|, ids, t) ==
            Ok(SpecsResult(Meaning(x, ids), |pre| + |Wording(x)|, IdsFrom(x, 1, ids)))
  {
    hide ParseSpecs, Meaning, ApplyFrom, IdsFrom, RightFrom, ApplyPart, PartIds, From, AlignPart;
    var s, i := pre + Wording(x) + "}" + post, |pre|;
    ApplyAll(x, ids, t);
    OneMore(x, 1, DEFAULT, ids, t);
    FirstIds(x[0], ids);
    assert s[i..] == Wording(x) + ("}" + post);
    Joined(x[0], From(x, 2), "}" + post);
    if x[0] == "" {
      UnalignedRead(s, i, x, ids, t, post);
    } else {
      AlignedRead(s, i, x, ids, t, post);
    }
  }

  lemma FirstIds(p: string, ids: int)
    ensures PartIds(1, p, ids) == ids && forall t :: RightPart(1, p, ids, t) == AlignPart(p)
  {
  }

  // Nothing else is read.

  predicate BlankUpTo(x: Parts, n: nat)
  {
    forall j :: 0 <= j < n && j < 8 ==> x[j] == ""
  }

  lemma {:induction false} SameFrom(x: Parts, y: Parts, k: nat, ids: int, t: Type)
    requires 1 <= k <= 9 && forall j :: k - 1 <= j < 8 ==> x[j] == y[j]
    ensures From(x, k) == From(y, k) && RightFrom(x, k, ids, t) == RightFrom(y, k, ids, t)
    decreases 9 - k
  {
    hide RightPart, PartIds;
    if k < 9 { SameFrom(x, y, k + 1, PartIds(k, x[k - 1], ids), t); }
  }

  /** A part in front of others further down. */
  lemma {:induction false} SetPart(x: Parts, k: nat, p: string, a: nat, ids: int, t: Type)
    requires 1 <= a <= k <= 8 && BlankUpTo(x, k) && p != "" && RightPart(k, p, ids, t)
    requires RightFrom(x, k + 1, PartIds(k, p, ids), t)
    ensures var y := x[k - 1 := p]; From(y, a) == p + From(x, k + 1) && RightFrom(y, a, ids, t)
    decreases k - a
  {
    hide RightPart, PartIds;
    var y := x[k - 1 := p];
    if a == k {
      SameFrom(x, y, k + 1, PartIds(k, p, ids), t);
    } else {
      NoPartIds(a, ids);
      SetPart(x, k, p, a + 1, ids, t);
      assert y[a - 1] == "" && From(y, a) == "" + From(y, a + 1);
    }
  }

  const NOTHING: Parts := ["", "", "", "", "", "", "", ""]

  lemma {:induction false} NothingFrom(a: nat, ids: int, t: Type)
    requires 1 <= a <= 9
    ensures From(NOTHING, a) == "" && RightFrom(NOTHING, a, ids, t)
    decreases 9 - a
  {
    hide RightPart, PartIds;
    if a < 9 {
      NoPartIds(a, ids);
      NothingFrom(a + 1, ids, t);
    }
  }

  lemma {:induction false} LoopOnly(s: string, i: nat, c: char, stage: Stage, acc: Specs, ids: int, t: Type)
    returns (x: Parts)
    requires i < |s| && (c == s[i] || c == '\0') && ids >= MANUAL
    requires var r := ParseLoop(s, i, c, stage, acc, ids, t); r.Ok? && r.value.end < |s| && s[r.value.end] == '}'
    ensures var end, a := ParseLoop(s, i, c, stage, acc, ids, t).value.end, stage.Rank() + 1;
            i <= end && BlankUpTo(x, a - 1) && s[i..end] == From(x, a) && RightFrom(x, a, ids, t)
    decreases |s| - i
  {
    hide ParseOne, RightPart, PartIds, ApplyPart, From, RightFrom;
    var m := ParseOne(s, i, c, stage, acc, ids, t).value;
    var a := stage.Rank() + 1;
    NothingFrom(a, ids, t);
    if m.Done? {
      StopOnly(s, i, c, stage, acc, ids, t);
      if m.end == i {
        x := NOTHING;
      } else {
        LetterPart(s, i, a, ids, t);
        x := NOTHING[7 := [s[i]]];
      }
    } else {
      PartOnly(s, i, c, stage, acc, ids, t);
      OneIds(s, i, c, stage, acc, ids, t);
      var p, k := s[i..m.at], m.stage.Rank();
      var rest := LoopOnly(s, m.at, s[m.at], m.stage, m.specs, m.ids, t);
      SetPart(rest, k, p, a, ids, t);
      x := rest[k - 1 := p];
      var end := ParseLoop(s, i, c, stage, acc, ids, t).value.end;
      assert s[i..end] == p + s[m.at..end];
    }
  }

  lemma LetterPart(s: string, i: nat, a: nat, ids: int, t: Type)
    requires i < |s| && TypeLetter(s[i], t) && 1 <= a <= 8
    ensures var x := NOTHING[7 := [s[i]]]; s[i..i + 1] == From(x, a) && RightFrom(x, a, ids, t)
  {
    hide From, RightFrom, PartIds, TypeLetter;
    NothingFrom(9, PartIds(8, [s[i]], ids), t);
    SetPart(NOTHING, 8, [s[i]], a, ids, t);
  }

  /** What the parser accepts, up to a closing brace, is written by the grammar, and so means what the grammar says. */
  lemma SpecsOnly(s: string, i: nat, ids: int, t: Type) returns (x: Parts)
    requires i < |s| && ids >= MANUAL
    requires var r := ParseSpecs(s, i, ids, t); r.Ok? && r.value.end < |s| && s[r.value.end] == '}'
    ensures var r := ParseSpecs(s, i, ids, t).value;
            && i <= r.end && s[i..r.end] == Wording(x) && Grammatical(x, ids, t)
            && r.specs == Meaning(x, ids) && r.ids == IdsFrom(x, 1, ids)
  {
    hide ParseLoop, ParseSpecs, Meaning, IdsFrom, From, RightFrom;
    SpecsStart(s, i, ids, t);
    x := LoopOnly(s, i, StartChar(s, i), Start, DEFAULT, ids, t);
    var end := ParseSpecs(s, i, ids, t).value.end;
    assert s[..i] + Wording(x) + "}" + s[end + 1..] == s by {
      assert s[..i] + s[i..end] + "}" + s[end + 1..] == s;
    }
    SpecsRead(s[..i], x, s[end + 1..], ids, t);
  }
}
