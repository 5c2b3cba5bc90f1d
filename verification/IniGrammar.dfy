/** What an INI file may contain and what its lines mean (config/src/IniConfig.cpp): the reader accepts exactly
    this. */
module IniGrammar {
  import opened IniFile

  /** The content of a line, without a comment. */
  datatype Line =
    | Blanks(blanks: string)
    | Heading(before: string, pad: string, name: string, pad': string, after: string)
    | Entry(lead: string, key: string, gap: string, gap': string, value: string, trail: string)

  function LineText(l: Line): string
  {
    match l
    case Blanks(b) => b
    case Heading(before, pad, name, pad', after) => before + ("[" + ((pad + name + pad') + ("]" + after)))
    case Entry(lead, key, gap, gap', value, trail) => (lead + key + gap) + ("=" + (gap' + value + trail))
  }

  predicate Unbracketed(s: string) { '[' !in s && ']' !in s }

  /** A heading may stand anywhere in its line; an entry has no brackets that could be one. */
  predicate LineFits(l: Line)
  {
    match l
    case Blanks(b) => BlankOnly(b)
    case Heading(before, pad, name, pad', after) =>
      Unbracketed(before) && BlankOnly(pad) && BlankOnly(pad') &&
      (Word(name) || (name == "" && pad == "" && pad' == ""))
    case Entry(lead, key, gap, gap', value, trail) =>
      BlankOnly(lead) && BlankOnly(gap) && BlankOnly(gap') && BlankOnly(trail) && Word(key) && Tight(value) &&
      !Bracketed(LineText(l))
  }

  /** What a line does: a heading changes the section, an entry sets its key, whatever it was before. */
  function LineDoes(l: Line, ini: Ini): Ini
  {
    match l
    case Blanks(_) => ini
    case Heading(_, _, name, _, _) => Ini(name, ini.config)
    case Entry(_, key, _, _, value, _) =>
      Ini(ini.node, ini.config[(if ini.node == "" then key else ini.node + "." + key) := value])
  }

  // Characters, as the source lists them.

  lemma BlankIs(c: char)
    ensures Blank(c) <==> c in " \t\r\n"
  {
    var b := " \t\r\n";
    assert b[0] == ' ' && b[1] == '\t' && b[2] == '\r' && b[3] == '\n';
  }

  /** Letters, digits and the underscore, up to their neighbours in ASCII. */
  lemma WordChars()
    ensures WordChar('a') && WordChar('z') && WordChar('A') && WordChar('Z') && WordChar('0') && WordChar('9')
    ensures WordChar('_') && !WordChar('`') && !WordChar('{') && !WordChar('@') && !WordChar('[') && !WordChar('/')
    ensures !WordChar(':') && !WordChar('.') && !WordChar('-') && !WordChar(' ')
  {
  }

  // Comments.

  /** A comment is cut off, whatever it says. */
  lemma CommentCut(a: string, b: string, ini: Ini)
    requires ';' !in a
    ensures ParseLine(a + ";" + b, ini) == ParseLine(a, ini)
  {
    hide ParseContent, FirstNonBlank, Trim, Uncommented, CString;
    CommentText(a, b);
  }

  lemma CommentText(a: string, b: string)
    requires ';' !in a
    ensures Uncommented(CString(a + ";" + b)) == Uncommented(CString(a))
  {
    var raw := a + ";" + b;
    if '\0' in a {
      NulFirst(a, ";" + b);
      assert a + (";" + b) == raw;
    } else {
      CutThere(a, b);
      CutThere(a, "");
      IndexOfIs(a, '\0', |a|);
      IndexOfIs(a, ';', |a|);
      assert a[..|a|] == a;
    }
  }

  lemma NulFirst(a: string, b: string)
    requires '\0' in a
    ensures CString(a + b) == CString(a)
  {
    var i, raw := IndexOf(a, '\0'), a + b;
    assert i < |a|;
    assert raw[..i] == a[..i] && raw[i] == a[i];
    assert forall j :: 0 <= j < i ==> raw[j] == a[j];
    IndexOfIs(raw, '\0', i);
  }

  lemma CutThere(a: string, b: string)
    requires ';' !in a && '\0' !in a
    ensures Uncommented(CString(a + ";" + b)) == a
  {
    var raw := a + ";" + b;
    var t := CString(raw);
    assert raw == (a + ";") + b;
    IndexShift(a + ";", b, '\0');
    assert |t| > |a|;
    assert forall j :: 0 <= j < |a| ==> t[j] == a[j] && a[j] in a;
    assert t[|a|] == ';' && t[..|a|] == a;
    IndexOfIs(t, ';', |a|);
  }

  // Lines without a comment.

  predicate Clean(s: string) { ';' !in s && '\0' !in s }

  lemma CleanLine(raw: string, ini: Ini)
    requires Clean(raw)
    ensures ParseLine(raw, ini) == if BlankOnly(raw) then Ok(ini) else ParseContent(Trim(raw), ini)
  {
    hide ParseContent, Trim, Uncommented, CString;
    PlainLine(raw, ini);
  }

  /** A text without the blanks at its ends. */
  function Core(s: string): string
  {
    if BlankOnly(s) then "" else TailAfter(s); s[FirstNonBlank(s)..BlankTail(s)]
  }

  lemma CoreIs(a: string, x: string, b: string)
    requires BlankOnly(a) && BlankOnly(b) && Tight(x)
    ensures Core(a + x + b) == x
  {
    if x == "" {
      assert BlankOnly(a + x + b);
    } else {
      var s := a + x + b;
      assert s[|a|] == x[0];
      TrimPadded(a, x, b);
    }
  }

  lemma CoreSplit(s: string) returns (a: string, b: string)
    ensures BlankOnly(a) && BlankOnly(b) && Tight(Core(s)) && s == a + Core(s) + b
  {
    if BlankOnly(s) {
      a, b := s, "";
    } else {
      CoreThere(s);
      var i, j := FirstNonBlank(s), BlankTail(s);
      a, b := s[..i], s[j..];
      hide Core, BlankOnly;
      assert Core(s)[0] == s[i] && Core(s)[|Core(s)| - 1] == s[j - 1];
    }
  }

  lemma TrimIsCore(s: string)
    ensures Trim(s) == if BlankOnly(s) then s else Core(s)
  {
  }

  /** Where the core lies. */
  lemma CoreThere(s: string)
    requires !BlankOnly(s)
    ensures var i, j := FirstNonBlank(s), BlankTail(s);
            && i < j <= |s| && Core(s) == s[i..j] && Core(s) != "" && !Blank(s[j - 1])
            && BlankOnly(s[..i]) && BlankOnly(s[j..])
  {
    TailAfter(s);
  }

  /** A slice that keeps the first c keeps its place. */
  lemma IndexInside(s: string, i: nat, j: nat, c: char)
    requires i <= j <= |s|
    ensures i <= IndexOf(s, c) < j ==> IndexOf(s[i..j], c) == IndexOf(s, c) - i
    ensures IndexOf(s, c) == |s| ==> IndexOf(s[i..j], c) == j - i
  {
    var k, u := IndexOf(s, c), s[i..j];
    if i <= k < j {
      assert u[k - i] == c;
      IndexOfIs(u, c, k - i);
    } else if k == |s| {
      IndexOfIs(u, c, j - i);
    }
  }

  /** Blanks at the ends do not touch other characters. */
  lemma CoreIndex(s: string, c: char)
    requires !BlankOnly(s) && !Blank(c)
    ensures var i, k := FirstNonBlank(s), IndexOf(s, c);
            if k < |s| then i <= k < BlankTail(s) && IndexOf(Core(s), c) == k - i
            else IndexOf(Core(s), c) == |Core(s)|
  {
    hide IndexOf;
    CoreThere(s);
    IndexInside(s, FirstNonBlank(s), BlankTail(s), c);
  }

  lemma CoreBrackets(s: string)
    requires !BlankOnly(s)
    ensures Bracketed(Core(s)) == Bracketed(s)
    ensures Bracketed(s) ==>
              Core(s)[IndexOf(Core(s), '[') + 1..IndexOf(Core(s), ']')] == s[IndexOf(s, '[') + 1..IndexOf(s, ']')]
  {
    hide FirstNonBlank, BlankTail, IndexOf, Core, BlankOnly;
    CoreIndex(s, '[');
    CoreIndex(s, ']');
    CoreThere(s);
    if Bracketed(s) {
      var i := FirstNonBlank(s);
      SubSlice(s, i, BlankTail(s), IndexOf(s, '[') - i + 1, IndexOf(s, ']') - i);
    }
  }

  lemma SubSlice(s: string, i: nat, j: nat, a: nat, b: nat)
    requires i <= j <= |s| && a <= b <= j - i
    ensures s[i..j][a..b] == s[i + a..i + b]
  {
    assert forall k :: 0 <= k < b - a ==> s[i..j][a..b][k] == s[i..j][a + k] == s[i + a + k];
  }

  /** The name in brackets. */
  lemma HeadingExact(s: string, ini: Ini)
    requires !BlankOnly(s) && Bracketed(s)
    ensures var m := s[IndexOf(s, '[') + 1..IndexOf(s, ']')];
            ParseContent(Core(s), ini) == if m != "" && !Word(Core(m)) then Bad else Ok(Ini(Core(m), ini.config))
  {
    hide FirstNonBlank, BlankTail, IndexOf, Trim, Core, BlankOnly, AllWord;
    CoreBrackets(s);
    var m := s[IndexOf(s, '[') + 1..IndexOf(s, ']')];
    TrimIsCore(m);
    BlankIsNoWord(m);
    if BlankOnly(m) { BlankCore(m); } else { CoreThere(m); }
  }

  lemma BlankIsNoWord(m: string)
    ensures m != "" && BlankOnly(m) ==> !AllWord(m)
    ensures Core("") == ""
  {
    if m != "" && BlankOnly(m) { assert Blank(m[0]); }
  }

  /** Key and value around the first equals sign. */
  lemma EntryExact(s: string, ini: Ini)
    requires !BlankOnly(s) && !Bracketed(s)
    ensures var eq := IndexOf(s, '=');
            ParseContent(Core(s), ini) ==
            if eq == |s| || !Word(Core(s[..eq])) then Bad
            else Ok(Ini(ini.node, ini.config[FullKey(ini.node, Core(s[..eq])) := Core(s[eq + 1..])]))
  {
    hide Trim, Bracketed, FullKey;
    CoreBrackets(s);
    CoreIndex(s, '=');
    var eq, u := IndexOf(s, '='), Core(s);
    if eq < |s| { AroundEquals(s); }
  }

  lemma AroundEquals(s: string)
    requires !BlankOnly(s) && IndexOf(s, '=') < |s|
    ensures var eq, u, k := IndexOf(s, '='), Core(s), IndexOf(Core(s), '=');
            && k < |u| && Trim(u[k + 1..]) == Core(s[eq + 1..])
            && (Trim(u[..k]) == "" || !AllWord(Trim(u[..k])) <==> !Word(Core(s[..eq])))
            && (Word(Core(s[..eq])) ==> Trim(u[..k]) == Core(s[..eq]))
  {
    hide Trim, FirstNonBlank, BlankTail, IndexOf, Core, BlankOnly, AllWord, Word;
    CoreIndex(s, '=');
    CoreThere(s);
    var i, j, eq := FirstNonBlank(s), BlankTail(s), IndexOf(s, '=');
    SubSlice(s, i, j, 0, eq - i);
    SubSlice(s, i, j, eq - i + 1, j - i);
    LeftPart(s[..i], s[i..eq]);
    assert s[..i] + s[i..eq] == s[..eq];
    if eq + 1 < j { assert s[eq + 1..j][j - eq - 2] == s[j - 1]; }
    RightPart(s[eq + 1..j], s[j..]);
    assert s[eq + 1..j] + s[j..] == s[eq + 1..];
  }

  lemma LeftPart(a: string, x: string)
    requires BlankOnly(a)
    ensures var t := Trim(x); (t == "" || !AllWord(t) <==> !Word(Core(a + x)))
    ensures Word(Core(a + x)) ==> Trim(x) == Core(a + x)
  {
    hide Trim, Core, AllWord;
    TrimIsCore(x);
    SameCore(a, x, "");
    assert a + x + "" == a + x;
    BlankIsNoWord(x);
    if BlankOnly(x) { BlankCore(x); }
  }

  lemma BlankCore(x: string)
    requires BlankOnly(x)
    ensures Core(x) == ""
  {
  }

  lemma RightPart(x: string, b: string)
    requires BlankOnly(b) && (x != "" ==> !Blank(x[|x| - 1]))
    ensures Trim(x) == Core(x + b)
  {
    hide Trim, Core;
    TrimIsCore(x);
    SameCore("", x, b);
    assert "" + x + b == x + b;
    if BlankOnly(x) { BlankCore(x); }
  }

  /** More blanks at the ends change nothing. */
  lemma SameCore(a: string, x: string, b: string)
    requires BlankOnly(a) && BlankOnly(b)
    ensures Core(a + x + b) == Core(x)
  {
    hide Core;
    var c, d := CoreSplit(x);
    Regrouped(a, c, Core(x), d, b);
    assert BlankOnly(a + c) && BlankOnly(d + b);
    CoreIs(a + c, Core(x), d + b);
  }

  lemma Regrouped(a: string, c: string, y: string, d: string, b: string)
    ensures a + (c + y + d) + b == (a + c) + y + (d + b)
  {
  }

  /** Every line without a comment, whatever it is. */
  lemma LineExact(s: string, ini: Ini)
    requires Clean(s)
    ensures var eq := IndexOf(s, '=');
            ParseLine(s, ini) ==
            if BlankOnly(s) then Ok(ini)
            else if Bracketed(s) then
              var m := s[IndexOf(s, '[') + 1..IndexOf(s, ']')];
              if m != "" && !Word(Core(m)) then Bad else Ok(Ini(Core(m), ini.config))
            else if eq == |s| || !Word(Core(s[..eq])) then Bad
            else Ok(Ini(ini.node, ini.config[FullKey(ini.node, Core(s[..eq])) := Core(s[eq + 1..])]))
  {
    hide ParseContent, Trim, ParseLine, FullKey, IndexOf;
    CleanLine(s, ini);
    TrimIsCore(s);
    if !BlankOnly(s) {
      if Bracketed(s) { HeadingExact(s, ini); } else { EntryExact(s, ini); }
    }
  }

  // The grammar, read and found.

  lemma NoneIn(a: string, c: char)
    requires BlankOnly(a) || AllWord(a)
    requires !Blank(c) && !WordChar(c)
    ensures c !in a
  {
  }

  lemma NotBlank(a: string, c: char, b: string)
    requires !Blank(c)
    ensures !BlankOnly(a + ([c] + b))
  {
    var s := a + ([c] + b);
    assert s[|a|] == c;
  }

  lemma HeadingRead(l: Line, ini: Ini)
    requires l.Heading? && LineFits(l) && Clean(LineText(l))
    ensures ParseLine(LineText(l), ini) == Ok(LineDoes(l, ini))
  {
    hide Core, ParseLine;
    var s, mid := LineText(l), l.pad + l.name + l.pad';
    var q, r := |l.before|, |l.before| + 1 + |mid|;
    LineExact(s, ini);
    NotBlank(l.before, '[', mid + ("]" + l.after));
    HeadingPlaces(l);
    assert s[q + 1..r] == mid;
    if Word(l.name) { WordTight(l.name); }
    CoreIs(l.pad, l.name, l.pad');
  }

  lemma HeadingPlaces(l: Line)
    requires l.Heading? && LineFits(l)
    ensures var s, mid := LineText(l), l.pad + l.name + l.pad';
            IndexOf(s, '[') == |l.before| && IndexOf(s, ']') == |l.before| + 1 + |mid| < |s|
  {
    hide IndexOf;
    var s, mid := LineText(l), l.pad + l.name + l.pad';
    NoneIn(l.pad, ']');
    NoneIn(l.name, ']');
    NoneIn(l.pad', ']');
    var rest := "[" + (mid + ("]" + l.after));
    IndexOfIs(rest, '[', 0);
    IndexShift(l.before, rest, '[');
    var front := l.before + ("[" + mid);
    assert s == front + ("]" + l.after);
    IndexOfIs("]" + l.after, ']', 0);
    IndexShift(front, "]" + l.after, ']');
  }

  lemma EntryRead(l: Line, ini: Ini)
    requires l.Entry? && LineFits(l) && Clean(LineText(l))
    ensures ParseLine(LineText(l), ini) == Ok(LineDoes(l, ini))
  {
    hide Core, ParseLine, Bracketed;
    var s, front, back := LineText(l), l.lead + l.key + l.gap, l.gap' + l.value + l.trail;
    LineExact(s, ini);
    NotBlank(front, '=', back);
    EntryPlaces(l);
    assert s[..|front|] == front && s[|front| + 1..] == back;
    WordTight(l.key);
    CoreIs(l.lead, l.key, l.gap);
    CoreIs(l.gap', l.value, l.trail);
  }

  lemma EntryPlaces(l: Line)
    requires l.Entry? && LineFits(l)
    ensures IndexOf(LineText(l), '=') == |l.lead + l.key + l.gap| < |LineText(l)|
  {
    hide IndexOf, Bracketed;
    NoneIn(l.lead, '=');
    NoneIn(l.key, '=');
    NoneIn(l.gap, '=');
    var back := "=" + (l.gap' + l.value + l.trail);
    IndexOfIs(back, '=', 0);
    IndexShift(l.lead + l.key + l.gap, back, '=');
  }

  /** A line of the grammar is accepted and does what it says. */
  lemma LineRead(l: Line, ini: Ini)
    requires LineFits(l) && Clean(LineText(l))
    ensures ParseLine(LineText(l), ini) == Ok(LineDoes(l, ini))
  {
    hide ParseLine;
    match l
    case Blanks(b) => LineExact(b, ini);
    case Heading(_, _, _, _, _) => HeadingRead(l, ini);
    case Entry(_, _, _, _, _, _) => EntryRead(l, ini);
  }

  lemma HeadingOnly(s: string) returns (l: Line)
    requires Bracketed(s)
    requires var m := s[IndexOf(s, '[') + 1..IndexOf(s, ']')]; m == "" || Word(Core(m))
    ensures l.Heading? && LineFits(l) && LineText(l) == s
  {
    hide Core, IndexOf;
    var q, r := IndexOf(s, '['), IndexOf(s, ']');
    var m := s[q + 1..r];
    var a, b := CoreSplit(m);
    l := Heading(s[..q], a, Core(m), b, s[r + 1..]);
    if m == "" { BlankCore(m); }
    Pieces(s, q, r);
  }

  lemma Pieces(s: string, q: nat, r: nat)
    requires q < r < |s| && s[q] == '[' && s[r] == ']'
    ensures s == s[..q] + ("[" + (s[q + 1..r] + ("]" + s[r + 1..])))
  {
    assert s[r..] == "]" + s[r + 1..];
    assert s[q + 1..] == s[q + 1..r] + s[r..];
    assert s[q..] == "[" + s[q + 1..];
  }

  lemma EntryOnly(s: string) returns (l: Line)
    requires !Bracketed(s) && IndexOf(s, '=') < |s| && Word(Core(s[..IndexOf(s, '=')]))
    ensures l.Entry? && LineFits(l) && LineText(l) == s
  {
    hide Core, Bracketed;
    var eq := IndexOf(s, '=');
    var a, b := CoreSplit(s[..eq]);
    var c, d := CoreSplit(s[eq + 1..]);
    l := Entry(a, Core(s[..eq]), b, c, Core(s[eq + 1..]), d);
    assert s == s[..eq] + ("=" + s[eq + 1..]);
  }

  /** What the reader accepts is a line of the grammar; everything else is refused. */
  lemma LineOnly(s: string, ini: Ini) returns (l: Line)
    requires Clean(s) && ParseLine(s, ini).Ok?
    ensures LineFits(l) && LineText(l) == s && ParseLine(s, ini) == Ok(LineDoes(l, ini))
  {
    hide ParseLine, Core, Bracketed, LineDoes;
    LineExact(s, ini);
    if BlankOnly(s) {
      l := Blanks(s);
    } else if Bracketed(s) {
      l := HeadingOnly(s);
    } else {
      l := EntryOnly(s);
    }
    LineRead(l, ini);
  }

  // Whole files.

  /** A line with a comment behind it, or nothing. */
  datatype FileLine = FileLine(line: Line, comment: string)

  function FileLineText(x: FileLine): string { LineText(x.line) + x.comment }

  predicate FileLineFits(x: FileLine)
  {
    && LineFits(x.line) && Clean(LineText(x.line)) && (x.comment == "" || x.comment[0] == ';')
    && '\n' !in FileLineText(x) && |FileLineText(x)| < 1023
  }

  function FileText(xs: seq<FileLine>): string
  {
    if xs == [] then "" else FileLineText(xs[0]) + "\n" + FileText(xs[1..])
  }

  function FileDoes(xs: seq<FileLine>, ini: Ini): Ini
  {
    if xs == [] then ini else FileDoes(xs[1..], LineDoes(xs[0].line, ini))
  }

  /** The newline is one more blank. */
  function WithNewline(l: Line): Line
  {
    match l
    case Blanks(b) => Blanks(b + "\n")
    case Heading(before, pad, name, pad', after) => Heading(before, pad, name, pad', after + "\n")
    case Entry(lead, key, gap, gap', value, trail) => Entry(lead, key, gap, gap', value, trail + "\n")
  }

  lemma NewlineFits(l: Line)
    requires LineFits(l) && Clean(LineText(l))
    ensures LineText(WithNewline(l)) == LineText(l) + "\n"
    ensures LineFits(WithNewline(l)) && Clean(LineText(WithNewline(l)))
  {
    hide Bracketed;
    var s, t := LineText(l), LineText(WithNewline(l));
    assert t == s + "\n";
    if l.Entry? { BracketsBefore(s, "\n"); }
  }

  lemma BracketsBefore(s: string, b: string)
    requires '[' !in b && ']' !in b
    ensures Bracketed(s + b) == Bracketed(s)
  {
    IndexBefore(s, b, '[');
    IndexBefore(s, b, ']');
  }

  lemma IndexBefore(s: string, b: string, c: char)
    requires c !in b
    ensures IndexOf(s + b, c) == if c in s then IndexOf(s, c) else |s + b|
  {
    var k := IndexOf(s, c);
    if c in s {
      assert k < |s|;
      IndexOfIs(s + b, c, k);
    } else {
      IndexOfIs(s + b, c, |s + b|);
    }
  }

  lemma FileLineRead(x: FileLine, ini: Ini)
    requires FileLineFits(x)
    ensures ParseLine(FileLineText(x) + "\n", ini) == Ok(LineDoes(x.line, ini))
  {
    hide ParseLine, LineFits, LineDoes;
    if x.comment == "" {
      NewlineFits(x.line);
      LineRead(WithNewline(x.line), ini);
      SameDoes(x.line, ini);
      assert FileLineText(x) == LineText(x.line);
    } else {
      var b := x.comment[1..] + "\n";
      assert FileLineText(x) + "\n" == LineText(x.line) + ";" + b;
      CommentCut(LineText(x.line), b, ini);
      LineRead(x.line, ini);
    }
  }

  lemma SameDoes(l: Line, ini: Ini)
    ensures LineDoes(WithNewline(l), ini) == LineDoes(l, ini)
  {
  }

  /** A file of such lines is read from top to bottom, each line doing its part. */
  lemma {:induction false} FileRead(xs: seq<FileLine>, ini: Ini)
    requires forall i :: 0 <= i < |xs| ==> FileLineFits(xs[i])
    ensures ParseText(FileText(xs), ini) == Outcome(FileDoes(xs, ini), true)
  {
    hide ParseLine, FileLineFits, FileLineText, LineDoes, ParseText;
    if xs == [] {
      NoText(ini);
    } else {
      FileLineRead(xs[0], ini);
      LineLength(xs[0]);
      LineFirst(FileLineText(xs[0]), FileText(xs[1..]), ini);
      FileRead(xs[1..], LineDoes(xs[0].line, ini));
    }
  }

  lemma NoText(ini: Ini)
    ensures ParseText("", ini) == Outcome(ini, true)
  {
  }

  lemma LineLength(x: FileLine)
    requires FileLineFits(x)
    ensures |FileLineText(x)| < 1023 && '\n' !in FileLineText(x)
  {
  }

  /** A line that is refused ends the reading, and what was read before it stays. */
  lemma {:induction false} BadLineStops(xs: seq<FileLine>, bad: string, rest: string, ini: Ini)
    requires forall i :: 0 <= i < |xs| ==> FileLineFits(xs[i])
    requires |bad| < 1023 && '\n' !in bad && ParseLine(bad + "\n", FileDoes(xs, ini)) == Bad
    ensures ParseText(FileText(xs) + (bad + "\n" + rest), ini) == Outcome(FileDoes(xs, ini), false)
  {
    hide ParseLine, FileLineFits, FileLineText, LineDoes, ParseText;
    var tail := bad + "\n" + rest;
    if xs == [] {
      assert FileText(xs) + tail == tail;
      LineFirst(bad, rest, ini);
    } else {
      FileLineRead(xs[0], ini);
      LineLength(xs[0]);
      var first, more := FileLineText(xs[0]), FileText(xs[1..]);
      assert FileText(xs) + tail == first + "\n" + (more + tail);
      LineFirst(first, more + tail, ini);
      BadLineStops(xs[1..], bad, rest, LineDoes(xs[0].line, ini));
    }
  }

  /** A line longer than the reader's buffer is taken in pieces of 1023 characters. */
  lemma LongLineCut(line: string, rest: string, ini: Ini)
    requires |line| == 1023 && '\n' !in line
    ensures ParseText(line + rest, ini) ==
            match ParseLine(line, ini) { case Bad => Outcome(ini, false) case Ok(next) => ParseText(rest, next) }
  {
    hide ParseLine;
    var text := line + rest;
    assert forall j :: 0 <= j < 1023 ==> text[j] == line[j] && line[j] in line;
    assert IndexOf(text, '\n') >= 1023;
    assert text[..1023] == line && text[1023..] == rest;
  }

  /** An entry longer than the writer's buffer keeps its first 511 characters. */
  lemma LongEntryCut(k: string, v: string)
    requires '\0' !in k && '\0' !in v && |k + " = " + v + "\n"| >= 512
    ensures EntryOut(k, v) == (k + " = " + v + "\n")[..511]
  {
    CStringIs(k);
    CStringIs(v);
  }
}
