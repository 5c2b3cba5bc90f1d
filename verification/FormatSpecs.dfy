/** Format specifiers and argument ids (fmt/base.h), as both the run-time formatter and the format string
    compiler parse them. */
module FormatSpecs {
  import opened Decimals

  datatype Result<T> = Ok(value: T) | Err

  /** The kinds of built-in argument types that the specifiers tell apart. */
  datatype Type = SInt | UInt | Bool | Char | Float | CString | String | Pointer
  {
    predicate Integral() { SInt? || UInt? || Bool? || Char? }
    predicate Arithmetic() { Integral() || Float? }
  }

  const INT_MAX: nat := 0x7FFF_FFFF

  // The indexing state of a parse context: the next automatic id, or -1 after a manual one.

  const MANUAL: int := -1

  /** `next_arg_id`. */
  function NextId(ids: int): Result<int>
  {
    if ids < 0 then Err else Ok(ids + 1)
  }

  /** `check_arg_id` of an index. */
  function CheckId(ids: int): Result<int>
  {
    if ids > 0 then Err else Ok(MANUAL)
  }

  predicate IsNameStart(c: char) { ('a' <= c <= 'z') || ('A' <= c <= 'Z') || c == '_' }

  function DigitsEnd(s: string, i: nat): (j: nat)
    requires i <= |s|
    ensures i <= j <= |s| && (i < |s| && IsDigit(s[i]) ==> i < j)
    decreases |s| - i
  {
    if i < |s| && IsDigit(s[i]) then DigitsEnd(s, i + 1) else i
  }

  function Value(s: string, i: nat, j: nat): (v: int)
    requires i <= j <= |s|
  {
    if i == j then 0 else Value(s, i, j - 1) * 10 + (s[j - 1] as int - '0' as int)
  }

  /** `parse_nonnegative_int`: a number of more than ten digits, or above the largest int, is an error. */
  function ParseInt(s: string, i: nat): Result<int>
    requires i < |s| && IsDigit(s[i])
  {
    var j := DigitsEnd(s, i);
    if j - i <= 9 || (j - i == 10 && Value(s, i, j) <= INT_MAX) then Ok(Value(s, i, j)) else Err
  }

  /** What an argument id is; the end is where it stops. */
  datatype ArgId = Index(id: int, end: nat) | Name(end: nat)

  function NameEnd(s: string, i: nat): (j: nat)
    requires i <= |s|
    ensures i <= j <= |s|
    decreases |s| - i
  {
    if i < |s| && (IsNameStart(s[i]) || IsDigit(s[i])) then NameEnd(s, i + 1) else i
  }

  /** `parse_arg_id`. */
  function ParseArgId(s: string, i: nat): (r: Result<ArgId>)
    requires i < |s|
    ensures r.Ok? ==> i < r.value.end <= |s|
    ensures r.Ok? && r.value.Index? ==> r.value.end < |s| && (s[r.value.end] == '}' || s[r.value.end] == ':')
  {
    if IsDigit(s[i]) then
      var n := if s[i] == '0' then 0 else match ParseInt(s, i) { case Ok(v) => v case Err => INT_MAX };
      var j := if s[i] == '0' then i + 1 else DigitsEnd(s, i);
      if j == |s| || (s[j] != '}' && s[j] != ':') then Err else Ok(Index(n, j))
    else if IsNameStart(s[i]) then Ok(Name(NameEnd(s, i + 1)))
    else Err
  }

  /** A width or precision: absent, a number, or the id of an argument. */
  datatype Dynamic = Unset | Fixed(n: int) | Ref(id: int)

  datatype Align = NoAlign | Left | Right | Center | Numeric

  datatype Sign = NoSign | Plus | Space

  datatype Presentation = None | Dec | Hex | Oct | Bin | Exp | FixedPoint | General | HexFloat | Chr | Str | Ptr | Debug

  datatype Specs = Specs(fill: string, align: Align, sign: Sign, alt: bool, upper: bool, localized: bool,
                         pres: Presentation, width: Dynamic, precision: Dynamic)

  const DEFAULT: Specs := Specs(" ", NoAlign, NoSign, false, false, false, None, Unset, Unset)

  /** A parsed width or precision, where it ends, and the indexing state after it. */
  datatype DynamicResult = DynamicResult(value: Dynamic, end: nat, ids: int)

  /** `parse_dynamic_spec`: a number, `{}`, or `{` id `}`; there are no named arguments. */
  function ParseDynamic(s: string, i: nat, ids: int): (r: Result<DynamicResult>)
    requires i < |s|
    ensures r.Ok? ==> i < r.value.end <= |s|
  {
    if IsDigit(s[i]) then
      match ParseInt(s, i)
      case Err => Err
      case Ok(n) => Ok(DynamicResult(Fixed(n), DigitsEnd(s, i), ids))
    else if s[i] == '{' && i + 1 < |s| then
      if s[i + 1] == '}' || s[i + 1] == ':' then
        match NextId(ids)
        case Err => Err
        case Ok(next) => if s[i + 1] == '}' then Ok(DynamicResult(Ref(ids), i + 2, next)) else Err
      else
        match ParseArgId(s, i + 1)
        case Ok(Index(id, end)) =>
          (match CheckId(ids)
           case Err => Err
           case Ok(next) => if s[end] == '}' then Ok(DynamicResult(Ref(id), end + 1, next)) else Err)
        case _ => Err
    else Err
  }

  /** The order in which specifiers may stand. */
  datatype Stage = Start | Alignment | Signed | Hash | Zero | Width | Precision | Locale
  {
    function Rank(): nat
    {
      match this
      case Start => 0
      case Alignment => 1
      case Signed => 2
      case Hash => 3
      case Zero => 4
      case Width => 5
      case Precision => 6
      case Locale => 7
    }

    /** `enter_state`. */
    predicate MayEnter(next: Stage, valid: bool) { Rank() < next.Rank() && valid }
  }

  function ParseAlign(c: char): Align
  {
    if c == '<' then Left else if c == '>' then Right else if c == '^' then Center else NoAlign
  }

  /** `code_point_length`. */
  function CodePointLength(c: char): (n: nat)
    ensures 1 <= n <= 4
  {
    var b := c as int;
    if 0xC0 <= b < 0xE0 then 2 else if 0xE0 <= b < 0xF0 then 3 else if 0xF0 <= b < 0xF8 then 4 else 1
  }

  /** After one specifier: the end, or more to come. */
  datatype Move =
    | Done(specs: Specs, end: nat)
    | More(specs: Specs, at: nat, stage: Stage, ids: int)

  function Next(ok: bool, specs: Specs, at: nat, stage: Stage, ids: int): (r: Result<Move>)
    ensures r.Ok? ==> r.value == More(specs, at, stage, ids)
  {
    if ok then Ok(More(specs, at, stage, ids)) else Err
  }

  function Present(ok: bool, specs: Specs, pres: Presentation, upper: bool, at: nat): (r: Result<Move>)
    ensures r.Ok? ==> r.value.Done?
  {
    if ok then Ok(Done(specs.(pres := pres, upper := specs.upper || upper), at + 1)) else Err
  }

  /** The presentation types. */
  function ParsePresentation(c: char, t: Type, specs: Specs, at: nat): (r: Result<Move>)
    ensures r.Ok? ==> r.value.Done?
  {
    if c == 'd' then Present(t.Integral(), specs, Dec, false, at)
    else if c == 'x' || c == 'X' then Present(t.Integral(), specs, Hex, c == 'X', at)
    else if c == 'o' then Present(t.Integral(), specs, Oct, false, at)
    else if c == 'b' || c == 'B' then Present(t.Integral(), specs, Bin, c == 'B', at)
    else if c == 'e' || c == 'E' then Present(t.Float?, specs, Exp, c == 'E', at)
    else if c == 'f' || c == 'F' then Present(t.Float?, specs, FixedPoint, c == 'F', at)
    else if c == 'g' || c == 'G' then Present(t.Float?, specs, General, c == 'G', at)
    else if c == 'a' || c == 'A' then Present(t.Float?, specs, HexFloat, c == 'A', at)
    else if c == 'c' then Present(t.Integral() && !t.Bool?, specs, Chr, false, at)
    else if c == 's' then Present(t.Bool? || t.String? || t.CString?, specs, Str, false, at)
    else if c == 'p' then Present(t.Pointer? || t.CString?, specs, Ptr, false, at)
    else if c == '?' then Present(t.Char? || t.String? || t.CString?, specs, Debug, false, at)
    else Err
  }

  predicate PresentationChar(c: char) { c in "dxXobBeEfFgGaAcsp?" }

  /** The default branch: a fill character with its alignment, or the end. */
  function ParseFill(s: string, i: nat, stage: Stage, specs: Specs, ids: int): (r: Result<Move>)
    requires i < |s|
    ensures r.Ok? && r.value.More? ==> i < r.value.at <= |s|
  {
    if s[i] == '}' then Ok(Done(specs, i))
    else
      var fillEnd := i + CodePointLength(s[i]);
      if fillEnd >= |s| || s[i] == '{' then Err
      else
        var align := ParseAlign(s[fillEnd]);
        Next(stage.MayEnter(Alignment, align != NoAlign), specs.(fill := s[i..fillEnd], align := align),
             fillEnd + 1, Alignment, ids)
  }

  function WithWidth(specs: Specs, d: Result<DynamicResult>): Result<Move>
  {
    match d
    case Err => Err
    case Ok(r) => Ok(More(specs.(width := r.value), r.end, Width, r.ids))
  }

  function WithPrecision(specs: Specs, d: Result<DynamicResult>): Result<Move>
  {
    match d
    case Err => Err
    case Ok(r) => Ok(More(specs.(precision := r.value), r.end, Precision, r.ids))
  }

  predicate FlagChar(c: char) { c in "<>^+- #0L" }

  /** Alignment, sign, `#`, `0` and `L`. */
  function ParseFlag(c: char, i: nat, stage: Stage, specs: Specs, ids: int, t: Type): (r: Result<Move>)
    ensures r.Ok? ==> r.value.More? && r.value.at == i + 1 && r.value.ids == ids
  {
    if c == '<' || c == '>' || c == '^' then
      Next(stage.MayEnter(Alignment, true), specs.(align := ParseAlign(c)), i + 1, Alignment, ids)
    else if c == '+' || c == ' ' || c == '-' then
      var sign := if c == ' ' then Space else if c == '+' then Plus else specs.sign;
      Next(stage.MayEnter(Signed, t.SInt? || t.Float?), specs.(sign := sign), i + 1, Signed, ids)
    else if c == '#' then Next(stage.MayEnter(Hash, t.Arithmetic()), specs.(alt := true), i + 1, Hash, ids)
    else if c == '0' then
      var zero := if specs.align == NoAlign then specs.(align := Numeric, fill := "0") else specs;
      Next(stage.MayEnter(Zero, true) && t.Arithmetic(), zero, i + 1, Zero, ids)
    else Next(stage.MayEnter(Locale, t.Arithmetic()), specs.(localized := true), i + 1, Locale, ids)
  }

  /** One turn of the loop of `parse_format_specs` at the character c. */
  function ParseOne(s: string, i: nat, c: char, stage: Stage, specs: Specs, ids: int, t: Type): (r: Result<Move>)
    requires i < |s|
    ensures r.Ok? && r.value.More? ==> i < r.value.at <= |s|
  {
    if FlagChar(c) then ParseFlag(c, i, stage, specs, ids, t)
    else if '1' <= c <= '9' || c == '{' then
      if stage.MayEnter(Width, true) then WithWidth(specs, ParseDynamic(s, i, ids)) else Err
    else if c == '.' then
      if stage.MayEnter(Precision, t.Float? || t.String? || t.CString?) && i + 1 < |s|
      then WithPrecision(specs, ParseDynamic(s, i + 1, ids)) else Err
    else if PresentationChar(c) then ParsePresentation(c, t, specs, i)
    else if c == '}' then Ok(Done(specs, i))
    else ParseFill(s, i, stage, specs, ids)
  }

  datatype SpecsResult = SpecsResult(specs: Specs, end: nat, ids: int)

  function ParseLoop(s: string, i: nat, c: char, stage: Stage, specs: Specs, ids: int, t: Type): Result<SpecsResult>
    requires i < |s|
    decreases |s| - i
  {
    match ParseOne(s, i, c, stage, specs, ids, t)
    case Err => Err
    case Ok(Done(sp, end)) => Ok(SpecsResult(sp, end, ids))
    case Ok(More(sp, at, st, next)) =>
      if at == |s| then Ok(SpecsResult(sp, at, next)) else ParseLoop(s, at, s[at], st, sp, next, t)
  }

  /** `parse_format_specs`. A character in front of an alignment is a fill, whatever else it might mean. */
  function ParseSpecs(s: string, i: nat, ids: int, t: Type): Result<SpecsResult>
    requires i <= |s|
  {
    if i == |s| then Ok(SpecsResult(DEFAULT, i, ids))
    else
      var c := if i + 1 < |s| && ParseAlign(s[i + 1]) != NoAlign then '\0' else s[i];
      ParseLoop(s, i, c, Start, DEFAULT, ids, t)
  }

  // In manual mode the run-time context stands at -1, and the compiler's context starts again at 0.

  lemma DynamicFromZero(s: string, i: nat)
    requires i < |s| && ParseDynamic(s, i, MANUAL).Ok?
    ensures var m, z := ParseDynamic(s, i, MANUAL), ParseDynamic(s, i, 0);
            m.value.ids == MANUAL && z.Ok? && z.value.value == m.value.value && z.value.end == m.value.end &&
            (z.value.ids == 0 || z.value.ids == MANUAL)
  {
  }

  /** The same move, but for the indexing state. */
  predicate SameMove(m: Result<Move>, z: Result<Move>)
  {
    m.Ok? ==>
      z.Ok? && z.value.specs == m.value.specs &&
      match m.value
      case Done(_, _) => z.value == m.value
      case More(_, at, stage, ids) =>
        z.value.More? && z.value.at == at && z.value.stage == stage && ids == MANUAL &&
        (z.value.ids == 0 || z.value.ids == MANUAL)
  }

  lemma FlagFromZero(c: char, i: nat, stage: Stage, specs: Specs, t: Type)
    ensures SameMove(ParseFlag(c, i, stage, specs, MANUAL, t), ParseFlag(c, i, stage, specs, 0, t))
  {
    hide ParseAlign;
  }

  lemma FillFromZero(s: string, i: nat, stage: Stage, specs: Specs)
    requires i < |s|
    ensures SameMove(ParseFill(s, i, stage, specs, MANUAL), ParseFill(s, i, stage, specs, 0))
  {
    hide ParseAlign;
  }

  lemma OneFromZero(s: string, i: nat, c: char, stage: Stage, specs: Specs, t: Type)
    requires i < |s|
    ensures SameMove(ParseOne(s, i, c, stage, specs, MANUAL, t), ParseOne(s, i, c, stage, specs, 0, t))
  {
    hide ParseDynamic, ParsePresentation, PresentationChar, FlagChar, ParseFlag, ParseFill;
    FlagFromZero(c, i, stage, specs, t);
    FillFromZero(s, i, stage, specs);
    if ParseDynamic(s, i, MANUAL).Ok? { DynamicFromZero(s, i); }
    if i + 1 < |s| && ParseDynamic(s, i + 1, MANUAL).Ok? { DynamicFromZero(s, i + 1); }
  }

  lemma {:induction false} LoopFromZero(s: string, i: nat, c: char, stage: Stage, specs: Specs, t: Type)
    requires i < |s| && ParseLoop(s, i, c, stage, specs, MANUAL, t).Ok?
    ensures var m, z := ParseLoop(s, i, c, stage, specs, MANUAL, t), ParseLoop(s, i, c, stage, specs, 0, t);
            m.value.ids == MANUAL && z.Ok? && z.value.specs == m.value.specs && z.value.end == m.value.end &&
            z.value.ids <= 0
    decreases |s| - i
  {
    hide ParseOne;
    OneFromZero(s, i, c, stage, specs, t);
    var m, z := ParseOne(s, i, c, stage, specs, MANUAL, t), ParseOne(s, i, c, stage, specs, 0, t);
    if m.value.More? && m.value.at < |s| {
      LoopFromZero(s, m.value.at, s[m.value.at], m.value.stage, m.value.specs, t);
    }
  }

  /** An automatic id leaves the context counting. */
  lemma {:induction false} LoopCounts(s: string, i: nat, c: char, stage: Stage, specs: Specs, ids: int, t: Type)
    requires i < |s| && ids > 0 && ParseLoop(s, i, c, stage, specs, ids, t).Ok?
    ensures ParseLoop(s, i, c, stage, specs, ids, t).value.ids > 0
    decreases |s| - i
  {
    hide ParseOne;
    OneCounts(s, i, c, stage, specs, ids, t);
    var m := ParseOne(s, i, c, stage, specs, ids, t);
    if m.value.More? && m.value.at < |s| {
      LoopCounts(s, m.value.at, s[m.value.at], m.value.stage, m.value.specs, m.value.ids, t);
    }
  }

  lemma OneCounts(s: string, i: nat, c: char, stage: Stage, specs: Specs, ids: int, t: Type)
    requires i < |s| && ids > 0
    ensures var m := ParseOne(s, i, c, stage, specs, ids, t); m.Ok? && m.value.More? ==> m.value.ids > 0
  {
    hide ParseDynamic, PresentationChar, FlagChar, ParseFlag, ParsePresentation, ParseAlign, CodePointLength;
    DynamicCounts(s, i, ids);
    if i + 1 < |s| { DynamicCounts(s, i + 1, ids); }
  }

  lemma DynamicCounts(s: string, i: nat, ids: int)
    requires i < |s| && ids > 0
    ensures var d := ParseDynamic(s, i, ids); d.Ok? ==> d.value.ids > 0
  {
  }

  lemma DynamicToManual(s: string, i: nat)
    requires i < |s|
    ensures var z := ParseDynamic(s, i, 0); z.Ok? && z.value.ids <= 0 ==> ParseDynamic(s, i, MANUAL).Ok?
  {
  }

  lemma FlagToManual(s: string, c: char, i: nat, stage: Stage, specs: Specs, t: Type)
    requires i < |s|
    ensures ParseFlag(c, i, stage, specs, 0, t).Ok? ==> ParseFlag(c, i, stage, specs, MANUAL, t).Ok?
    ensures ParseFill(s, i, stage, specs, 0).Ok? ==> ParseFill(s, i, stage, specs, MANUAL).Ok?
  {
    hide ParseAlign;
  }

  lemma OneToManual(s: string, i: nat, c: char, stage: Stage, specs: Specs, t: Type)
    requires i < |s| && ParseOne(s, i, c, stage, specs, 0, t).Ok?
    requires var z := ParseOne(s, i, c, stage, specs, 0, t).value; z.More? ==> z.ids <= 0
    ensures ParseOne(s, i, c, stage, specs, MANUAL, t).Ok?
  {
    hide ParseDynamic, PresentationChar, FlagChar, ParseFlag, ParsePresentation, ParseFill;
    FlagToManual(s, c, i, stage, specs, t);
    DynamicToManual(s, i);
    if i + 1 < |s| { DynamicToManual(s, i + 1); }
  }

  lemma {:induction false} LoopToManual(s: string, i: nat, c: char, stage: Stage, specs: Specs, t: Type)
    requires i < |s| && ParseLoop(s, i, c, stage, specs, 0, t).Ok?
    requires ParseLoop(s, i, c, stage, specs, 0, t).value.ids <= 0
    ensures ParseLoop(s, i, c, stage, specs, MANUAL, t).Ok?
    decreases |s| - i
  {
    hide ParseOne;
    var z := ParseOne(s, i, c, stage, specs, 0, t).value;
    if z.More? && z.ids > 0 && z.at < |s| { LoopCounts(s, z.at, s[z.at], z.stage, z.specs, z.ids, t); }
    OneToManual(s, i, c, stage, specs, t);
    OneFromZero(s, i, c, stage, specs, t);
    if z.More? && z.at < |s| && z.ids == 0 { LoopToManual(s, z.at, s[z.at], z.stage, z.specs, t); }
  }

  /** Specifiers are right in manual mode exactly if they are right for the compiler and take no automatic
      id, and then they mean the same. */
  lemma SpecsFromZero(s: string, i: nat, t: Type)
    requires i <= |s|
    ensures var m, z := ParseSpecs(s, i, MANUAL, t), ParseSpecs(s, i, 0, t);
            (m.Ok? <==> z.Ok? && z.value.ids <= 0) &&
            (m.Ok? ==> m.value.ids == MANUAL && z.value.specs == m.value.specs && z.value.end == m.value.end)
  {
    hide ParseLoop;
    if i < |s| {
      var c := if i + 1 < |s| && ParseAlign(s[i + 1]) != NoAlign then '\0' else s[i];
      var m, z := ParseLoop(s, i, c, Start, DEFAULT, MANUAL, t), ParseLoop(s, i, c, Start, DEFAULT, 0, t);
      if z.Ok? && z.value.ids <= 0 { LoopToManual(s, i, c, Start, DEFAULT, t); }
      if m.Ok? { LoopFromZero(s, i, c, Start, DEFAULT, t); }
    }
  }

  /** The indexing state stays one. */
  lemma {:induction false} LoopIds(s: string, i: nat, c: char, stage: Stage, specs: Specs, ids: int, t: Type)
    requires i < |s| && ids >= MANUAL && ParseLoop(s, i, c, stage, specs, ids, t).Ok?
    ensures ParseLoop(s, i, c, stage, specs, ids, t).value.ids >= MANUAL
    decreases |s| - i
  {
    hide ParseOne;
    OneIds(s, i, c, stage, specs, ids, t);
    var m := ParseOne(s, i, c, stage, specs, ids, t);
    if m.value.More? && m.value.at < |s| {
      LoopIds(s, m.value.at, s[m.value.at], m.value.stage, m.value.specs, m.value.ids, t);
    }
  }

  lemma OneIds(s: string, i: nat, c: char, stage: Stage, specs: Specs, ids: int, t: Type)
    requires i < |s| && ids >= MANUAL
    ensures var m := ParseOne(s, i, c, stage, specs, ids, t); m.Ok? && m.value.More? ==> m.value.ids >= MANUAL
  {
    hide ParseDynamic, PresentationChar, FlagChar, ParseFlag, ParsePresentation, ParseAlign, CodePointLength;
    DynamicIds(s, i, ids);
    if i + 1 < |s| { DynamicIds(s, i + 1, ids); }
  }

  lemma DynamicIds(s: string, i: nat, ids: int)
    requires i < |s| && ids >= MANUAL
    ensures var d := ParseDynamic(s, i, ids); d.Ok? ==> d.value.ids >= MANUAL
  {
  }

  lemma SpecsIds(s: string, i: nat, ids: int, t: Type)
    requires i <= |s| && ids >= MANUAL && ParseSpecs(s, i, ids, t).Ok?
    ensures ParseSpecs(s, i, ids, t).value.ids >= MANUAL
  {
    hide ParseLoop;
    if i < |s| {
      var c := if i + 1 < |s| && ParseAlign(s[i + 1]) != NoAlign then '\0' else s[i];
      LoopIds(s, i, c, Start, DEFAULT, ids, t);
    }
  }
}
