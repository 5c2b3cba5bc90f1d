/** The grammar of format strings: text with doubled braces, and replacement fields. The run-time formatter of
    fmt/base.h accepts exactly this, and writes what it says. */
module FormatFields {
  import opened Decimals
  import opened FormatSpecs
  import opened FormatGrammar
  import opened FormatString

  /** A piece of a format string. An index is kept as its digits, specifiers as their parts. */
  datatype Item =
    | Chars(text: string)
    | Automatic
    | Numbered(digits: string)
    | AutomaticWith(parts: Parts)
    | NumberedWith(digits: string, parts: Parts)

  function EscapedChar(c: char): string
  {
    if c == '{' then "{{" else if c == '}' then "}}" else [c]
  }

  function Escaped(t: string): string
  {
    if t == "" then "" else EscapedChar(t[0]) + Escaped(t[1..])
  }

  function ItemText(item: Item): string
  {
    match item
    case Chars(t) => Escaped(t)
    case Automatic => "{}"
    case Numbered(d) => "{" + (d + "}")
    case AutomaticWith(x) => "{:" + (Wording(x) + "}")
    case NumberedWith(d, x) => "{" + (d + (":" + (Wording(x) + "}")))
  }

  /** The next automatic id behind an item. */
  function ItemIds(item: Item, ids: int): int
  {
    match item
    case Chars(_) => ids
    case Automatic => ids + 1
    case Numbered(_) => -1
    case AutomaticWith(x) => IdsFrom(x, 1, ids + 1)
    case NumberedWith(_, x) => IdsFrom(x, 1, -1)
  }

  /** Automatic and numbered fields do not mix, the argument is there, and the specifiers suit it. */
  predicate ItemFits<A>(item: Item, ids: int, w: World<A>)
  {
    match item
    case Chars(_) => true
    case Automatic => 0 <= ids < |w.args|
    case Numbered(d) => IdDigits(d) && ids <= 0 && 0 <= IdOf(d) < |w.args|
    case AutomaticWith(x) => 0 <= ids < |w.args| && Grammatical(x, ids + 1, w.kind(w.args[ids]))
    case NumberedWith(d, x) =>
      IdDigits(d) && ids <= 0 && 0 <= IdOf(d) < |w.args| && Grammatical(x, -1, w.kind(w.args[IdOf(d)]))
  }

  /** A width or precision with the argument it refers to put in. */
  function Known<A>(d: Dynamic, w: World<A>): Result<Dynamic>
  {
    match d
    case Unset => Ok(Unset)
    case Fixed(n) => Ok(Fixed(n))
    case Ref(id) =>
      if !(0 <= id < |w.args|) then Err
      else match w.number(w.args[id])
           case Err => Err
           case Ok(n) => Ok(Fixed(n))
  }

  function Written<A>(a: A, sp: Specs, w: World<A>): Result<string>
  {
    match Known(sp.width, w)
    case Err => Err
    case Ok(width) =>
      match Known(sp.precision, w)
      case Err => Err
      case Ok(precision) => w.write(a, sp.(width := width, precision := precision))
  }

  /** What an item writes. */
  function ItemOut<A>(item: Item, ids: int, w: World<A>): Result<string>
    requires ItemFits(item, ids, w)
  {
    match item
    case Chars(t) => Ok(t)
    case Automatic => Ok(w.plain(w.args[ids]))
    case Numbered(d) => Ok(w.plain(w.args[IdOf(d)]))
    case AutomaticWith(x) => Written(w.args[ids], Meaning(x, ids + 1), w)
    case NumberedWith(d, x) => Written(w.args[IdOf(d)], Meaning(x, -1), w)
  }

  function Spelled(items: seq<Item>): string
  {
    if items == [] then "" else ItemText(items[0]) + Spelled(items[1..])
  }

  predicate AllFit<A>(items: seq<Item>, ids: int, w: World<A>)
  {
    items == [] || (ItemFits(items[0], ids, w) && AllFit(items[1..], ItemIds(items[0], ids), w))
  }

  /** What the items write one after the other, unless one fails. */
  function Output<A>(items: seq<Item>, ids: int, w: World<A>): Result<string>
    requires AllFit(items, ids, w)
  {
    if items == [] then Ok("")
    else
      match ItemOut(items[0], ids, w)
      case Err => Err
      case Ok(out) =>
        match Output(items[1..], ItemIds(items[0], ids), w)
        case Err => Err
        case Ok(rest) => Ok(out + rest)
  }

  lemma WrittenIs<A>(id: int, sp: Specs, w: World<A>)
    requires w.Has(id)
    ensures WriteWith(id, sp, w) == Written(w.args[id], sp, w)
  {
  }

  /** The run-time formatter on one item. */
  function Then<A>(out: Result<string>, s: string, p: nat, ids: int, w: World<A>): Result<string>
    requires p <= |s|
  {
    match out
    case Err => Err
    case Ok(x) => Prepend(x, Run(s, p, ids, w))
  }

  lemma FieldThen<A>(s: string, p: nat, ids: int, w: World<A>, out: Result<string>, end: nat, next: int)
    requires p < end <= |s| && s[p] == '{'
    requires RunField(s, p, ids, w) == match out { case Err => Err case Ok(x) => Ok(Field(x, end, next)) }
    ensures Run(s, p, ids, w) == Then(out, s, end, next, w)
  {
    hide RunField;
  }

  lemma {:induction false} CharsRun<A>(s: string, p: nat, t: string, rest: string, ids: int, w: World<A>)
    requires p <= |s| && s[p..] == Escaped(t) + rest
    ensures p + |Escaped(t)| <= |s| && s[p + |Escaped(t)|..] == rest
    ensures Run(s, p, ids, w) == Prepend(t, Run(s, p + |Escaped(t)|, ids, w))
    decreases |t|
  {
    hide Run, EscapedChar;
    if t == "" {
      assert s[p..] == rest;
      PrependNothing(Run(s, p, ids, w));
    } else {
      var c, e, more := t[0], EscapedChar(t[0]), Escaped(t[1..]);
      Joined(e, more, rest);
      Beyond(s, p, e, more + rest);
      CharsRun(s, p + |e|, t[1..], rest, ids, w);
      CharRuns(s, p, c, ids, w);
      PrependTwice([c], t[1..], Run(s, p + |e| + |more|, ids, w));
      assert [c] + t[1..] == t;
    }
  }

  lemma CharRuns<A>(s: string, p: nat, c: char, ids: int, w: World<A>)
    requires var e := EscapedChar(c); p + |e| <= |s| && s[p..p + |e|] == e
    ensures Run(s, p, ids, w) == Prepend([c], Run(s, p + |EscapedChar(c)|, ids, w))
  {
    var e := EscapedChar(c);
    assert s[p] == e[0] && (|e| > 1 ==> s[p + 1] == e[1]);
  }

  lemma Beyond(s: string, p: nat, a: string, b: string)
    requires p <= |s| && s[p..] == a + b
    ensures p + |a| <= |s| && s[p..p + |a|] == a && s[p + |a|..] == b
  {
    assert s[p..][..|a|] == a && s[p..][|a|..] == b;
  }

  /** Specifiers up to their closing brace. */
  lemma SpecsField<A>(s: string, i: nat, id: int, ids: int, x: Parts, rest: string, w: World<A>)
    requires w.Has(id) && i <= |s| && s[i..] == Wording(x) + ("}" + rest) && Grammatical(x, ids, w.kind(w.args[id]))
    ensures var end := i + |Wording(x)| + 1;
            && end <= |s| && s[end..] == rest
            && RunSpecs(s, i, id, ids, w) ==
               match Written(w.args[id], Meaning(x, ids), w)
               case Err => Err
               case Ok(out) => Ok(Field(out, end, IdsFrom(x, 1, ids)))
  {
    hide ParseSpecs, Meaning, IdsFrom, From, RightFrom, WriteWith, Written;
    var k := i + |Wording(x)|;
    Beyond(s, i, Wording(x), "}" + rest);
    assert s[k] == s[k..][0] == '}' && s[k + 1..] == s[k..][1..];
    assert s == s[..i] + Wording(x) + "}" + rest by {
      assert s == s[..i] + s[i..] && s[i..] == Wording(x) + "}" + rest;
    }
    SpecsRead(s[..i], x, rest, ids, w.kind(w.args[id]));
    WrittenIs(id, Meaning(x, ids), w);
  }

  /** The digits of an index, and what follows them. */
  lemma IndexThere(s: string, i: nat, d: string, c: char, rest: string)
    requires i <= |s| && s[i..] == d + ([c] + rest) && IdDigits(d) && (c == '}' || c == ':')
    ensures var j := i + |d|;
            i < j < |s| && s[j] == c && s[j + 1..] == rest && IsDigit(s[i]) && ParseArgId(s, i) == Ok(Index(IdOf(d), j))
  {
    hide ParseArgId, Reading;
    Beyond(s, i, d, [c] + rest);
    var j := i + |d|;
    assert s[j] == s[j..][0] == c && s[j + 1..] == s[j..][1..] && s[i] == s[i..j][0];
    ArgIdRead(s, i, d);
  }

  lemma AutomaticRuns<A>(s: string, p: nat, item: Item, rest: string, ids: int, w: World<A>)
    requires (item.Automatic? || item.AutomaticWith?) && p <= |s| && s[p..] == ItemText(item) + rest
    requires ItemFits(item, ids, w)
    ensures var end := p + |ItemText(item)|;
            && end <= |s| && s[end..] == rest
            && Run(s, p, ids, w) == Then(ItemOut(item, ids, w), s, end, ItemIds(item, ids), w)
  {
    hide Meaning, IdsFrom, From, RightFrom, Written, RunSpecs, Run, RunField;
    Beyond(s, p, ItemText(item), rest);
    var end := p + |ItemText(item)|;
    assert s[p] == s[p..end][0] == '{';
    if item.Automatic? {
      assert s[p + 1] == s[p..end][1] == '}';
      PlainAutomatic(s, p, ids, w);
    } else {
      var x := item.parts;
      assert s[p + 1] == s[p..end][1] == ':';
      assert s[p..] == "{:" + (Wording(x) + ("}" + rest));
      Beyond(s, p, "{:", Wording(x) + ("}" + rest));
      SpecsField(s, p + 2, ids, ids + 1, x, rest, w);
      ColonAutomatic(s, p, ids, w);
    }
    FieldThen(s, p, ids, w, ItemOut(item, ids, w), end, ItemIds(item, ids));
  }

  lemma PlainAutomatic<A>(s: string, p: nat, ids: int, w: World<A>)
    requires p + 1 < |s| && s[p + 1] == '}' && 0 <= ids < |w.args|
    ensures RunField(s, p, ids, w) == Ok(Field(w.plain(w.args[ids]), p + 2, ids + 1))
  {
  }

  lemma ColonAutomatic<A>(s: string, p: nat, ids: int, w: World<A>)
    requires p + 1 < |s| && s[p + 1] == ':' && 0 <= ids
    ensures RunField(s, p, ids, w) == RunSpecs(s, p + 2, ids, ids + 1, w)
  {
    hide RunSpecs;
  }

  lemma NumberedRuns<A>(s: string, p: nat, item: Item, rest: string, ids: int, w: World<A>)
    requires (item.Numbered? || item.NumberedWith?) && p <= |s| && s[p..] == ItemText(item) + rest
    requires ItemFits(item, ids, w)
    ensures var end := p + |ItemText(item)|;
            && end <= |s| && s[end..] == rest
            && Run(s, p, ids, w) == Then(ItemOut(item, ids, w), s, end, ItemIds(item, ids), w)
  {
    hide Run, RunField, ItemText, IdsFrom, Meaning, Written, IdDigits, IdOf, Grammatical;
    Beyond(s, p, ItemText(item), rest);
    BraceFirst(s, p, item, rest);
    if item.Numbered? { NumberedField(s, p, item.digits, rest, ids, w); }
    else { NumberedWithField(s, p, item.digits, item.parts, rest, ids, w); }
    FieldThen(s, p, ids, w, ItemOut(item, ids, w), p + |ItemText(item)|, ItemIds(item, ids));
  }

  lemma BraceFirst(s: string, p: nat, item: Item, rest: string)
    requires !item.Chars? && p <= |s| && s[p..] == ItemText(item) + rest
    ensures p < |s| && s[p] == '{' && ItemText(item) != ""
  {
    hide Wording;
    assert s[p] == s[p..][0];
  }

  lemma NumberedText(s: string, p: nat, d: string, rest: string)
    requires p <= |s| && s[p..] == ItemText(Numbered(d)) + rest
    ensures p < |s| && s[p + 1..] == d + ("}" + rest) && |ItemText(Numbered(d))| == |d| + 2
  {
    Joined("{", d + "}", rest);
    Joined(d, "}", rest);
    Beyond(s, p, "{", d + ("}" + rest));
  }

  lemma NumberedField<A>(s: string, p: nat, d: string, rest: string, ids: int, w: World<A>)
    requires p <= |s| && s[p..] == ItemText(Numbered(d)) + rest && ItemFits(Numbered(d), ids, w)
    ensures RunField(s, p, ids, w) == Ok(Field(w.plain(w.args[IdOf(d)]), p + |ItemText(Numbered(d))|, -1))
  {
    hide RunField, IdDigits, IdOf, ParseArgId, RunSpecs, ItemText;
    NumberedText(s, p, d, rest);
    IndexThere(s, p + 1, d, '}', rest);
    IndexField(s, p, IdOf(d), p + 1 + |d|, ids, w);
  }

  lemma NumberedWithText(s: string, p: nat, d: string, x: Parts, rest: string)
    requires p <= |s| && s[p..] == ItemText(NumberedWith(d, x)) + rest
    ensures p < |s| && s[p + 1..] == d + (":" + (Wording(x) + ("}" + rest)))
    ensures |ItemText(NumberedWith(d, x))| == |d| + |Wording(x)| + 3
  {
    hide Wording;
    var text := Wording(x);
    Joined("{", d + (":" + (text + "}")), rest);
    Joined(d, ":" + (text + "}"), rest);
    Joined(":", text + "}", rest);
    Joined(text, "}", rest);
    Beyond(s, p, "{", d + (":" + (text + ("}" + rest))));
  }

  lemma NumberedWithField<A>(s: string, p: nat, d: string, x: Parts, rest: string, ids: int, w: World<A>)
    requires p <= |s| && s[p..] == ItemText(NumberedWith(d, x)) + rest && ItemFits(NumberedWith(d, x), ids, w)
    ensures RunField(s, p, ids, w) ==
            match Written(w.args[IdOf(d)], Meaning(x, -1), w)
            case Err => Err
            case Ok(out) => Ok(Field(out, p + |ItemText(NumberedWith(d, x))|, IdsFrom(x, 1, -1)))
  {
    hide Meaning, IdsFrom, Written, RunSpecs, RunField, IdDigits, IdOf, ParseArgId, ItemText, Wording, Grammatical;
    var tail := Wording(x) + ("}" + rest);
    NumberedWithText(s, p, d, x, rest);
    IndexThere(s, p + 1, d, ':', tail);
    SpecsField(s, p + 2 + |d|, IdOf(d), -1, x, rest, w);
    IndexField(s, p, IdOf(d), p + 1 + |d|, ids, w);
  }

  lemma IndexField<A>(s: string, p: nat, id: int, j: nat, ids: int, w: World<A>)
    requires p + 1 < j < |s| && IsDigit(s[p + 1]) && ParseArgId(s, p + 1) == Ok(Index(id, j)) && ids <= 0
    requires (s[j] == '}' || s[j] == ':') && 0 <= id < |w.args|
    ensures RunField(s, p, ids, w) ==
            if s[j] == '}' then Ok(Field(w.plain(w.args[id]), j + 1, -1)) else RunSpecs(s, j + 1, id, -1, w)
  {
    hide ParseArgId, RunSpecs;
  }

  /** Whatever is spelled by the grammar is written as the grammar says. */
  lemma {:induction false} ItemsRun<A>(s: string, p: nat, items: seq<Item>, ids: int, w: World<A>)
    requires p <= |s| && s[p..] == Spelled(items) && AllFit(items, ids, w)
    ensures Run(s, p, ids, w) == Output(items, ids, w)
    decreases |items|
  {
    hide ItemFits, ItemOut, ItemIds, ItemText, Run;
    if items == [] {
      NothingRuns(s, p, ids, w);
    } else {
      var item, rest := items[0], items[1..];
      ItemRuns(s, p, item, Spelled(rest), ids, w);
      ItemsRun(s, p + |ItemText(item)|, rest, ItemIds(item, ids), w);
    }
  }

  lemma NothingRuns<A>(s: string, p: nat, ids: int, w: World<A>)
    requires p <= |s| && s[p..] == ""
    ensures Run(s, p, ids, w) == Ok("")
  {
  }

  lemma ItemRuns<A>(s: string, p: nat, item: Item, rest: string, ids: int, w: World<A>)
    requires p <= |s| && s[p..] == ItemText(item) + rest && ItemFits(item, ids, w)
    ensures var end := p + |ItemText(item)|;
            && end <= |s| && s[end..] == rest
            && Run(s, p, ids, w) == Then(ItemOut(item, ids, w), s, end, ItemIds(item, ids), w)
  {
    hide Run;
    if item.Chars? {
      CharsRun(s, p, item.text, rest, ids, w);
    } else if item.Automatic? || item.AutomaticWith? {
      AutomaticRuns(s, p, item, rest, ids, w);
    } else {
      NumberedRuns(s, p, item, rest, ids, w);
    }
  }

  // Nothing else is accepted.

  lemma SpecsFieldOnly<A>(s: string, i: nat, id: int, ids: int, w: World<A>) returns (x: Parts)
    requires i <= |s| && ids >= MANUAL && RunSpecs(s, i, id, ids, w).Ok?
    ensures var f := RunSpecs(s, i, id, ids, w).value;
            && w.Has(id) && i < f.end <= |s| && s[i..f.end] == Wording(x) + "}"
            && Grammatical(x, ids, w.kind(w.args[id])) && f.ids == IdsFrom(x, 1, ids) && f.ids >= MANUAL
  {
    hide ParseSpecs, Meaning, IdsFrom, From, RightFrom, WriteWith;
    var t := w.kind(w.args[id]);
    x := SpecsOnly(s, i, ids, t);
    SpecsIds(s, i, ids, t);
    var end := ParseSpecs(s, i, ids, t).value.end;
    assert s[i..end + 1] == s[i..end] + "}";
  }

  lemma FieldOnly<A>(s: string, p: nat, ids: int, w: World<A>) returns (item: Item)
    requires p < |s| && s[p] == '{' && ids >= MANUAL && RunField(s, p, ids, w).Ok?
    ensures var f := RunField(s, p, ids, w).value;
            s[p..f.end] == ItemText(item) && ItemFits(item, ids, w) && f.ids == ItemIds(item, ids) && f.ids >= MANUAL
  {
    hide Meaning, IdsFrom, From, RightFrom, RunSpecs, ParseArgId, IdDigits, IdOf;
    var end := RunField(s, p, ids, w).value.end;
    if s[p + 1] == '}' {
      item := Automatic;
      assert s[p..end] == "{}";
    } else if s[p + 1] == '{' {
      item := Chars("{");
      assert s[p..end] == "{{";
      EscapedOne('{');
    } else if s[p + 1] == ':' {
      var x := SpecsFieldOnly(s, p + 2, ids, ids + 1, w);
      item := AutomaticWith(x);
      assert s[p..end] == "{:" + s[p + 2..end];
    } else {
      item := NumberedOnly(s, p, ids, w);
    }
  }

  lemma NumberedOnly<A>(s: string, p: nat, ids: int, w: World<A>) returns (item: Item)
    requires p + 1 < |s| && s[p] == '{' && s[p + 1] != '}' && s[p + 1] != '{' && s[p + 1] != ':'
    requires ids >= MANUAL && RunField(s, p, ids, w).Ok?
    ensures var f := RunField(s, p, ids, w).value;
            s[p..f.end] == ItemText(item) && ItemFits(item, ids, w) && f.ids == ItemIds(item, ids) && f.ids >= MANUAL
  {
    hide Meaning, IdsFrom, Wording, Grammatical, RunSpecs, ParseArgId, IdDigits, IdOf, ItemText;
    var end := RunField(s, p, ids, w).value.end;
    ArgIdOnly(s, p + 1);
    var a := ParseArgId(s, p + 1).value;
    if s[a.end] == '}' {
      item := Numbered(s[p + 1..a.end]);
      NumberedSlice(s, p, a.end);
    } else {
      var x := SpecsFieldOnly(s, a.end + 1, a.id, MANUAL, w);
      item := NumberedWith(s[p + 1..a.end], x);
      NumberedWithSlice(s, p, a.end, end, x);
    }
  }

  lemma NumberedSlice(s: string, p: nat, j: nat)
    requires p + 1 <= j < |s| && s[p] == '{' && s[j] == '}'
    ensures s[p..j + 1] == ItemText(Numbered(s[p + 1..j]))
  {
    assert s[p + 1..j + 1] == s[p + 1..j] + "}";
    assert s[p..j + 1] == "{" + s[p + 1..j + 1];
  }

  lemma NumberedWithSlice(s: string, p: nat, j: nat, end: nat, x: Parts)
    requires p + 1 <= j < end <= |s| && s[p] == '{' && s[j] == ':' && s[j + 1..end] == Wording(x) + "}"
    ensures s[p..end] == ItemText(NumberedWith(s[p + 1..j], x))
  {
    hide Wording;
    assert s[p..end] == "{" + (s[p + 1..j] + (":" + s[j + 1..end]));
  }

  lemma EscapedOne(c: char)
    ensures Escaped([c]) == EscapedChar(c)
  {
    assert [c][1..] == "" && EscapedChar(c) + "" == EscapedChar(c);
  }

  lemma FirstItem<A>(s: string, p: nat, ids: int, w: World<A>) returns (item: Item, end: nat)
    requires p < |s| && ids >= MANUAL && Run(s, p, ids, w).Ok?
    ensures p < end <= |s| && s[p..end] == ItemText(item) && ItemFits(item, ids, w) && ItemIds(item, ids) >= MANUAL
    ensures Run(s, end, ItemIds(item, ids), w).Ok?
  {
    hide RunField, IdsFrom;
    if s[p] == '{' {
      item := FieldOnly(s, p, ids, w);
      end := RunField(s, p, ids, w).value.end;
    } else {
      item, end := Chars([s[p]]), p + |EscapedChar(s[p])|;
      EscapedOne(s[p]);
      assert s[p..end] == EscapedChar(s[p]);
    }
  }

  /** What the formatter accepts is spelled by the grammar, so it writes what the grammar says. */
  lemma {:induction false} RunOnly<A>(s: string, p: nat, ids: int, w: World<A>) returns (items: seq<Item>)
    requires p <= |s| && ids >= MANUAL && Run(s, p, ids, w).Ok?
    ensures s[p..] == Spelled(items) && AllFit(items, ids, w) && Run(s, p, ids, w) == Output(items, ids, w)
    decreases |s| - p
  {
    hide Run, ItemFits, ItemText, ItemIds, ItemOut, Output;
    if p == |s| {
      items := [];
    } else {
      var item, end := FirstItem(s, p, ids, w);
      var rest := RunOnly(s, end, ItemIds(item, ids), w);
      items := [item] + rest;
      assert items[0] == item && items[1..] == rest;
      assert s[p..] == s[p..end] + s[end..];
    }
    ItemsRun(s, p, items, ids, w);
  }

  // Characters.

  /** For a character presented as one, the compiler refuses `#` and `0`; for one presented as a number it takes
      them. */
  lemma CharSpecs(x: Parts, s: string, i: nat, next: int)
    requires next > 0 && Grammatical(x, next, Char) && i <= |s| && s[i..] == Wording(x) + "}" && Wording(x) != ""
    requires x[4] == "" && x[5] == ""
    ensures var asChar := x[7] == "" || x[7] == "c" || x[7] == "?";
            var flagged := x[2] != "" || (x[3] != "" && x[0] == "");
            CompileSpecs(s, i, next, Char).Ok? <==> !(asChar && flagged)
  {
    hide ParseSpecs, From, Grammatical;
    var pre := s[..i];
    assert s == pre + Wording(x) + "}" + "";
    SpecsRead(pre, x, "", next, Char);
    CharMeaning(x, next);
    WordingStart(x, next);
    assert s[i] == s[i..][0] == Wording(x)[0];
  }

  lemma CharMeaning(x: Parts, ids: int)
    requires Grammatical(x, ids, Char) && x[4] == "" && x[5] == ""
    ensures var sp := Meaning(x, ids);
            && sp.width == Unset && sp.precision == Unset && sp.sign == NoSign
            && (BadForChar(sp) <==> (x[7] == "" || x[7] == "c" || x[7] == "?") &&
                                    (x[2] != "" || (x[3] != "" && x[0] == "")))
  {
    hide From;
    CharParts(x, ids);
  }

  /** What the grammar leaves for a character. */
  lemma CharParts(x: Parts, ids: int)
    requires Grammatical(x, ids, Char)
    ensures x[0] == "" || AlignPart(x[0])
    ensures x[1] == "" && (x[7] == "" || (|x[7]| == 1 && TypeLetter(x[7][0], Char)))
  {
    hide NumberPart, AlignPart, TypeLetter;
    OneMore(x, 1, DEFAULT, ids, Char);
    OneMore(x, 2, DEFAULT, PartIds(1, x[0], ids), Char);
    LastPart(x, 3, PartIds(2, x[1], PartIds(1, x[0], ids)));
  }

  lemma {:induction false} LastPart(x: Parts, k: nat, ids: int)
    requires 1 <= k <= 8 && RightFrom(x, k, ids, Char)
    ensures x[7] == "" || (|x[7]| == 1 && TypeLetter(x[7][0], Char))
    decreases 9 - k
  {
    hide NumberPart, AlignPart, TypeLetter;
    if k < 8 { LastPart(x, k + 1, PartIds(k, x[k - 1], ids)); }
  }

  lemma WordingStart(x: Parts, ids: int)
    requires Grammatical(x, ids, Char) && Wording(x) != ""
    ensures Wording(x)[0] != '}'
  {
    PartsStart(x, 1, ids);
  }

  lemma {:induction false} PartsStart(x: Parts, k: nat, ids: int)
    requires 1 <= k <= 9 && RightFrom(x, k, ids, Char) && From(x, k) != ""
    ensures From(x, k)[0] != '}'
    decreases 9 - k
  {
    hide NumberPart, TypeLetter;
    if x[k - 1] == "" {
      PartsStart(x, k + 1, PartIds(k, x[k - 1], ids));
    } else {
      PartStart(k, x[k - 1], ids);
    }
  }

  lemma PartStart(k: nat, p: string, ids: int)
    requires 1 <= k <= 8 && RightPart(k, p, ids, Char)
    ensures p != "" && p[0] != '}'
  {
    hide Reading;
  }
}
