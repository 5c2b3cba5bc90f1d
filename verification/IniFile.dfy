/** The INI reader and writer (config/src/IniConfig.cpp). A file is its text; the reader sees it through
    `fgets`, a buffer of 1024 characters at a time, and C strings, which end at the first NUL. */
module IniFile {

  predicate Blank(c: char)
  {
    c == ' ' || c == '\t' || c == '\r' || c == '\n'
  }

  /** The characters of section and key names. */
  predicate WordChar(c: char)
  {
    ('a' <= c <= 'z') || ('A' <= c <= 'Z') || ('0' <= c <= '9') || c == '_'
  }

  predicate Word(s: string)
  {
    s != "" && AllWord(s)
  }

  predicate AllWord(s: string)
  {
    forall i :: 0 <= i < |s| ==> WordChar(s[i])
  }

  /** `find` and `strchr`: the first c, the size standing for none. */
  function IndexOf(s: string, c: char): (i: nat)
    ensures i <= |s| && (i < |s| ==> s[i] == c) && forall j :: 0 <= j < i ==> s[j] != c
  {
    if s == "" || s[0] == c then 0 else 1 + IndexOf(s[1..], c)
  }

  /** `find_first_not_of` and `find_last_not_of` for blanks; the second is where the rest of blanks begins. */
  function FirstNonBlank(s: string): (i: nat)
    ensures i <= |s| && (i < |s| ==> !Blank(s[i])) && forall j :: 0 <= j < i ==> Blank(s[j])
  {
    if s == "" || !Blank(s[0]) then 0 else 1 + FirstNonBlank(s[1..])
  }

  function BlankTail(s: string): (i: nat)
    ensures i <= |s| && (i > 0 ==> !Blank(s[i - 1])) && forall j :: i <= j < |s| ==> Blank(s[j])
  {
    if s == "" || !Blank(s[|s| - 1]) then |s| else BlankTail(s[..|s| - 1])
  }

  /** `trim`: a string of blanks alone is not changed. */
  function Trim(s: string): string
  {
    var b := FirstNonBlank(s);
    if b == |s| then s else TailAfter(s); s[b..BlankTail(s)]
  }

  lemma TailAfter(s: string)
    ensures FirstNonBlank(s) < |s| ==> FirstNonBlank(s) < BlankTail(s)
  {
  }

  predicate BlankOnly(s: string)
  {
    forall i :: 0 <= i < |s| ==> Blank(s[i])
  }

  /** A text that trimming leaves alone. */
  predicate Tight(s: string)
  {
    s == "" || (!Blank(s[0]) && !Blank(s[|s| - 1]))
  }

  lemma TrimPadded(a: string, s: string, b: string)
    requires BlankOnly(a) && BlankOnly(b) && Tight(s) && s != ""
    ensures Trim(a + s + b) == s
  {
    var t := a + s + b;
    var i, j := FirstNonBlank(t), BlankTail(t);
    assert forall k :: 0 <= k < |a| ==> t[k] == a[k];
    assert t[|a|] == s[0] && t[|a| + |s| - 1] == s[|s| - 1];
    assert forall k :: |a| + |s| <= k < |t| ==> t[k] == b[k - |a| - |s|];
    assert i == |a| && j == |a| + |s|;
  }

  function FullKey(node: string, key: string): string
  {
    if node == "" then key else node + "." + key
  }

  /** What the reader carries from line to line. */
  datatype Ini = Ini(node: string, config: map<string, string>)

  datatype Result<T> = Ok(value: T) | Bad

  /** A bracketed section, wherever in the line it stands. */
  predicate Bracketed(line: string)
  {
    var left, right := IndexOf(line, '['), IndexOf(line, ']');
    left < right < |line|
  }

  function CString(s: string): string
  {
    s[..IndexOf(s, '\0')]
  }

  /** The part of a line in front of a comment. */
  function Uncommented(s: string): string
  {
    s[..IndexOf(s, ';')]
  }

  /** One line as the loop of `parser` treats it. */
  function ParseLine(raw: string, ini: Ini): Result<Ini>
  {
    var line := Uncommented(CString(raw));
    if FirstNonBlank(line) == |line| then Ok(ini) else ParseContent(Trim(line), ini)
  }

  function ParseContent(line: string, ini: Ini): Result<Ini>
  {
    if Bracketed(line) then
      var node := Trim(line[IndexOf(line, '[') + 1..IndexOf(line, ']')]);
      if node != "" && !AllWord(node) then Bad else Ok(ini.(node := node))
    else
      var eq := IndexOf(line, '=');
      if eq == |line| then Bad
      else
        var key, val := Trim(line[..eq]), Trim(line[eq + 1..]);
        if key == "" || !AllWord(key) then Bad
        else Ok(ini.(config := ini.config[FullKey(ini.node, key) := val]))
  }

  /** What `fgets` takes: up to and including a newline, or 1023 characters. */
  function Taken(text: string): (n: nat)
    ensures n <= |text| && (text != "" ==> n > 0)
  {
    var nl := IndexOf(text, '\n');
    var n := if nl < |text| then nl + 1 else nl;
    if n < 1023 then n else 1023
  }

  /** Where the reader got, and whether it reached the end. */
  datatype Outcome = Outcome(ini: Ini, ok: bool)

  /** The whole file. */
  function ParseText(text: string, ini: Ini): Outcome
    decreases |text|
  {
    if text == "" then Outcome(ini, true)
    else
      match ParseLine(text[..Taken(text)], ini)
      case Bad => Outcome(ini, false)
      case Ok(next) => ParseText(text[Taken(text)..], next)
  }

  lemma IndexOfIs(s: string, c: char, i: nat)
    requires i <= |s| && (i < |s| ==> s[i] == c) && forall j :: 0 <= j < i ==> s[j] != c
    ensures IndexOf(s, c) == i
  {
  }

  /** A complete line in front of a text is read by itself. */
  lemma LineFirst(line: string, rest: string, ini: Ini)
    requires |line| < 1023 && '\n' !in line
    ensures ParseText(line + "\n" + rest, ini) ==
            match ParseLine(line + "\n", ini) { case Bad => Outcome(ini, false) case Ok(next) => ParseText(rest, next) }
  {
    hide ParseLine;
    var text := line + "\n" + rest;
    assert text[|line|] == '\n';
    assert forall j :: 0 <= j < |line| ==> text[j] == line[j] && line[j] in line;
    IndexOfIs(text, '\n', |line|);
    assert Taken(text) == |line| + 1;
    assert text[..|line| + 1] == line + "\n" && text[|line| + 1..] == rest;
  }

  // What the writer may be given.

  predicate PlainValue(v: string)
  {
    Tight(v) && ';' !in v && '\0' !in v && '\n' !in v && !Bracketed(v)
  }

  lemma WordHasNone(s: string, c: char)
    requires AllWord(s) && !WordChar(c)
    ensures c !in s
  {
  }

  function EntryText(k: string, v: string): string
  {
    k + " = " + v
  }

  /** The bracket test of a line that starts with a name is that of its value. */
  lemma EntryBrackets(k: string, v: string)
    requires AllWord(k) && !Bracketed(v)
    ensures !Bracketed(k + " = " + v)
  {
    var pre := k + " = ";
    WordHasNone(k, '[');
    WordHasNone(k, ']');
    IndexShift(pre, v, '[');
    IndexShift(pre, v, ']');
  }

  lemma IndexShift(pre: string, v: string, c: char)
    requires c !in pre
    ensures IndexOf(pre + v, c) == |pre| + IndexOf(v, c)
  {
    var line, i := pre + v, IndexOf(v, c);
    assert forall j :: 0 <= j < |pre| ==> line[j] == pre[j] && pre[j] in pre;
    assert forall j :: |pre| <= j < |line| ==> line[j] == v[j - |pre|];
    IndexOfIs(line, c, |pre| + i);
  }

  /** A line with neither NUL nor comment is taken as it is. */
  lemma PlainLine(raw: string, ini: Ini)
    requires ';' !in raw && '\0' !in raw
    ensures Uncommented(CString(raw)) == raw
  {
    IndexOfIs(raw, '\0', |raw|);
    IndexOfIs(raw, ';', |raw|);
  }

  lemma EntryEquals(k: string, rest: string)
    requires AllWord(k)
    ensures var line := k + " =" + rest;
            IndexOf(line, '=') == |k| + 1 && line[..|k| + 1] == k + " " && line[|k| + 2..] == rest
  {
    var line := k + " =" + rest;
    assert forall j :: 0 <= j < |k| ==> line[j] == k[j] && WordChar(k[j]);
    assert line[|k|] == ' ' && line[|k| + 1] == '=';
    IndexOfIs(line, '=', |k| + 1);
  }

  lemma WordTight(k: string)
    requires Word(k)
    ensures Tight(k)
  {
    assert WordChar(k[0]) && WordChar(k[|k| - 1]);
  }

  lemma TrimTight(v: string, lead: string)
    requires Tight(v) && BlankOnly(lead) && (v == "" ==> lead == "")
    ensures Trim(lead + v) == v
  {
    if v != "" {
      TrimPadded(lead, v, "");
      assert lead + v + "" == lead + v;
    } else {
      assert lead + v == "";
    }
  }

  /** The content of an entry line, as it is after trimming. */
  lemma EntryContent(k: string, v: string, ini: Ini)
    requires Word(k) && PlainValue(v)
    ensures ParseContent(if v == "" then k + " =" else k + " = " + v, ini) ==
            Ok(ini.(config := ini.config[FullKey(ini.node, k) := v]))
  {
    hide Trim, Tight, Bracketed;
    EntryBrackets(k, v);
    EmptyBrackets(k);
    var rest := if v == "" then "" else " " + v;
    EntryEquals(k, rest);
    assert k + " =" + rest == if v == "" then k + " =" else k + " = " + v;
    EntryTrimmed(k, v, rest);
  }

  /** Name and value, with the blanks that stand around them. */
  lemma EntryTrimmed(k: string, v: string, rest: string)
    requires Word(k) && Tight(v) && rest == if v == "" then "" else " " + v
    ensures Trim(k + " ") == k && Trim(rest) == v
  {
    hide Trim, Tight;
    WordTight(k);
    TrimPadded("", k, " ");
    assert "" + k + " " == k + " ";
    TrimTight(v, if v == "" then "" else " ");
    assert (if v == "" then "" else " ") + v == rest;
  }

  lemma EmptyBrackets(k: string)
    requires AllWord(k)
    ensures !Bracketed(k + " =")
  {
    var line := k + " =";
    assert forall j :: 0 <= j < |k| ==> line[j] == k[j] && WordChar(k[j]);
    assert line[|k|] == ' ' && line[|k| + 1] == '=';
    IndexOfIs(line, '[', |line|);
  }

  /** An entry line is read back as the entry it was written for. */
  lemma EntryLine(k: string, v: string, ini: Ini)
    requires Word(k) && PlainValue(v)
    ensures ParseLine(EntryText(k, v) + "\n", ini) == Ok(ini.(config := ini.config[FullKey(ini.node, k) := v]))
  {
    hide Trim, Bracketed, ParseContent, Uncommented, CString;
    var raw := EntryText(k, v) + "\n";
    WordHasNone(k, ';');
    WordHasNone(k, '\0');
    PlainLine(raw, ini);
    WordTight(k);
    assert raw[0] == k[0];
    EntryContent(k, v, ini);
    if v == "" {
      TrimPadded("", k + " =", " \n");
      assert "" + (k + " =") + " \n" == raw;
    } else {
      var line := k + " = " + v;
      assert line[0] == k[0] && line[|line| - 1] == v[|v| - 1];
      TrimPadded("", line, "\n");
      assert "" + line + "\n" == raw;
    }
  }

  lemma SectionLine(s: string, ini: Ini)
    requires Word(s)
    ensures ParseLine("[" + s + "]" + "\n", ini) == Ok(ini.(node := s))
  {
    hide Trim, Uncommented, CString, ParseContent;
    var line := "[" + s + "]";
    var raw := line + "\n";
    WordHasNone(s, ';');
    WordHasNone(s, '\0');
    PlainLine(raw, ini);
    assert raw[0] == '[' && line[0] == '[' && line[|s| + 1] == ']';
    TrimPadded("", line, "\n");
    assert "" + line + "\n" == raw;
    SectionContent(s, ini);
  }

  lemma SectionContent(s: string, ini: Ini)
    requires Word(s)
    ensures ParseContent("[" + s + "]", ini) == Ok(ini.(node := s))
  {
    hide Trim;
    var line := "[" + s + "]";
    WordHasNone(s, ']');
    IndexShift("[" + s, "]", ']');
    assert ("[" + s) + "]" == line;
    IndexOfIs(line, '[', 0);
    assert line[1..|s| + 1] == s;
    WordTight(s);
    TrimTight(s, "");
    assert "" + s == s;
  }

  lemma BlankLine(ini: Ini)
    ensures ParseLine("" + "\n", ini) == Ok(ini)
  {
    PlainLine("\n", ini);
    assert "" + "\n" == "\n";
    assert FirstNonBlank("\n") == 1;
  }

  // Texts made of whole lines.

  /** Reading a text takes the reader from one state to another, whatever follows. */
  ghost predicate Reads(text: string, ini: Ini, next: Ini)
  {
    forall rest :: ParseText(text + rest, ini) == ParseText(rest, next)
  }

  lemma ReadsNothing(ini: Ini)
    ensures Reads("", ini, ini)
  {
    hide ParseText;
    assert forall rest: string :: "" + rest == rest;
  }

  lemma ReadsLine(text: string, line: string, ini: Ini, mid: Ini, next: Ini)
    requires Reads(text, ini, mid) && |line| < 1023 && '\n' !in line && ParseLine(line + "\n", mid) == Ok(next)
    ensures Reads(text + (line + "\n"), ini, next)
  {
    hide ParseText, ParseLine;
    forall rest ensures ParseText(text + (line + "\n") + rest, ini) == ParseText(rest, next) {
      assert text + (line + "\n") + rest == text + (line + "\n" + rest);
      LineFirst(line, rest, mid);
    }
  }

  // The writer.

  /** `splitKey`. */
  function NodeOf(full: string): string
  {
    if IndexOf(full, '.') == |full| then "" else full[..IndexOf(full, '.')]
  }

  function KeyOf(full: string): string
  {
    if IndexOf(full, '.') == |full| then full else full[IndexOf(full, '.') + 1..]
  }

  /** `snprintf` into a buffer of 512 characters, of C strings. */
  function Buffered(s: string): string
  {
    if |s| < 512 then s else s[..511]
  }

  function EntryOut(k: string, v: string): string
  {
    Buffered(CString(k) + " = " + CString(v) + "\n")
  }

  function SectionOut(s: string): string
  {
    Buffered("[" + CString(s) + "]\n")
  }

  predicate SavableName(s: string)
  {
    Word(s) && |s| + 3 < 512
  }

  predicate SavableEntry(k: string, v: string)
  {
    Word(k) && PlainValue(v) && |EntryText(k, v)| + 1 < 512
  }

  /** The maps that survive: names of the reader's alphabet, values that it does not cut or misread, lines
      that fit the buffer. */
  predicate Savable(config: map<string, string>)
  {
    forall full :: full in config ==>
      SavableEntry(KeyOf(full), config[full]) && ('.' in full ==> SavableName(NodeOf(full)))
  }

  lemma CStringIs(s: string)
    requires '\0' !in s
    ensures CString(s) == s
  {
    IndexOfIs(s, '\0', |s|);
  }

  lemma EntryOutIs(k: string, v: string)
    requires SavableEntry(k, v)
    ensures EntryOut(k, v) == EntryText(k, v) + "\n"
  {
    WordHasNone(k, '\0');
    CStringIs(k);
    CStringIs(v);
  }

  lemma SectionOutIs(s: string)
    requires SavableName(s)
    ensures SectionOut(s) == "[" + s + "]" + "\n"
  {
    WordHasNone(s, '\0');
    CStringIs(s);
  }

  lemma SplitJoined(node: string, key: string)
    requires (node == "" || Word(node)) && Word(key)
    ensures NodeOf(FullKey(node, key)) == node && KeyOf(FullKey(node, key)) == key
  {
    WordHasNone(key, '.');
    var full := FullKey(node, key);
    if node == "" {
      IndexOfIs(full, '.', |full|);
    } else {
      WordHasNone(node, '.');
      assert full == node + ("." + key);
      IndexShift(node, "." + key, '.');
      assert full[|node| + 1..] == key && full[..|node|] == node;
    }
  }

  lemma JoinedSplit(full: string)
    requires Word(KeyOf(full)) && ('.' in full ==> Word(NodeOf(full)))
    ensures FullKey(NodeOf(full), KeyOf(full)) == full
  {
    var i := IndexOf(full, '.');
    if i < |full| { assert full == full[..i] + "." + full[i + 1..]; }
  }

  /** The entries of a map that have been read so far. */
  ghost predicate PartOf(c: map<string, string>, config: map<string, string>)
  {
    forall full :: full in c ==> full in config && c[full] == config[full]
  }

  /** A section's entries, all from the map that is saved. */
  ghost predicate Section(node: string, entries: map<string, string>, config: map<string, string>)
  {
    forall k :: k in entries ==>
      SavableEntry(k, entries[k]) && FullKey(node, k) in config && config[FullKey(node, k)] == entries[k]
  }

  /** The lines of one section's entries, in any order, added to a stream; before is what the file holds
      in front of the stream. */
  method WriteEntries(node: string, entries: map<string, string>, stream: string, ghost before: string,
                      ghost config: map<string, string>, ghost start: Ini, ghost ini: Ini)
    returns (stream': string, ghost ini': Ini)
    requires Section(node, entries, config) && Reads(before + stream, start, ini)
    requires ini.node == node && PartOf(ini.config, config)
    ensures Reads(before + stream', start, ini') && ini'.node == node && PartOf(ini'.config, config)
    ensures ini.config.Keys <= ini'.config.Keys && forall k :: k in entries ==> FullKey(node, k) in ini'.config
    ensures |stream'| >= |stream|
  {
    hide Reads, ParseLine, SavableEntry, FullKey, EntryOut, EntryText;
    stream', ini' := stream, ini;
    var left := entries.Keys;
    while left != {}
      invariant left <= entries.Keys && Reads(before + stream', start, ini') && ini'.node == node
      invariant PartOf(ini'.config, config) && ini.config.Keys <= ini'.config.Keys && |stream'| >= |stream|
      invariant forall k :: k in entries && k !in left ==> FullKey(node, k) in ini'.config
      decreases |left|
    {
      var k :| k in left;
      ghost var next := ini'.(config := ini'.config[FullKey(node, k) := entries[k]]);
      EntryReads(before + stream', k, entries[k], start, ini', next);
      assert before + stream' + EntryOut(k, entries[k]) == before + (stream' + EntryOut(k, entries[k]));
      stream', ini' := stream' + EntryOut(k, entries[k]), next;
      left := left - {k};
    }
  }

  lemma EntryReads(text: string, k: string, v: string, start: Ini, ini: Ini, next: Ini)
    requires Reads(text, start, ini) && SavableEntry(k, v)
    requires next == ini.(config := ini.config[FullKey(ini.node, k) := v])
    ensures Reads(text + EntryOut(k, v), start, next)
  {
    hide Reads, ParseLine, EntryOut, FullKey;
    EntryOutIs(k, v);
    EntryLine(k, v, ini);
    WordHasNone(k, '\n');
    ReadsLine(text, EntryText(k, v), start, ini, next);
  }

  lemma SectionReads(text: string, node: string, start: Ini, ini: Ini)
    requires Reads(text, start, ini) && SavableName(node)
    ensures Reads(text + SectionOut(node), start, ini.(node := node))
  {
    hide Reads, ParseLine, SectionOut;
    SectionOutIs(node);
    SectionLine(node, ini);
    WordHasNone(node, '\n');
    ReadsLine(text, "[" + node + "]", start, ini, ini.(node := node));
  }

  lemma BlankReads(text: string, start: Ini, ini: Ini)
    requires Reads(text, start, ini)
    ensures Reads(text + "\n", start, ini)
  {
    hide Reads, ParseLine;
    BlankLine(ini);
    assert "" + "\n" == "\n";
    ReadsLine(text, "", start, ini, ini);
  }

  /** The sections of a map. */
  ghost predicate Nested(source: map<string, map<string, string>>, done: set<string>, config: map<string, string>)
  {
    (forall node :: node in source ==> (node != "" ==> SavableName(node)) && Section(node, source[node], config)) &&
    (forall full :: full in done ==> NodeOf(full) in source && KeyOf(full) in source[NodeOf(full)])
  }

  /** The first loop of `keep`: the entries sorted into sections. */
  method Nest(config: map<string, string>) returns (source: map<string, map<string, string>>)
    requires Savable(config)
    ensures Nested(source, config.Keys, config)
  {
    hide SavableEntry, SavableName, NodeOf, KeyOf, FullKey, Savable, Nested;
    NestNothing(config);
    source := map[];
    assert config.Keys - config.Keys == {};
    var left := config.Keys;
    while left != {}
      invariant left <= config.Keys && Nested(source, config.Keys - left, config)
      decreases |left|
    {
      var full :| full in left;
      var node, key := NodeOf(full), KeyOf(full);
      SplitSavable(full, config);
      NestStep(source, config.Keys - left, full, config);
      assert config.Keys - (left - {full}) == config.Keys - left + {full};
      var entries := if node in source then source[node] else map[];
      source := source[node := entries[key := config[full]]];
      left := left - {full};
    }
    assert config.Keys - left == config.Keys;
  }

  lemma NestNothing(config: map<string, string>)
    ensures Nested(map[], {}, config)
  {
  }

  lemma NestStep(source: map<string, map<string, string>>, done: set<string>, full: string, config: map<string, string>)
    requires Nested(source, done, config) && Savable(config) && full in config
    ensures var node, key := NodeOf(full), KeyOf(full);
            var entries := if node in source then source[node] else map[];
            Nested(source[node := entries[key := config[full]]], done + {full}, config)
  {
    hide SavableEntry, SavableName, NodeOf, KeyOf, FullKey, Savable;
    SplitSavable(full, config);
  }

  lemma SplitSavable(full: string, config: map<string, string>)
    requires Savable(config) && full in config
    ensures FullKey(NodeOf(full), KeyOf(full)) == full && SavableEntry(KeyOf(full), config[full])
    ensures NodeOf(full) != "" ==> SavableName(NodeOf(full))
  {
    hide PlainValue, KeyOf, FullKey;
    JoinedSplit(full);
  }

  /** One section, behind the blank line that ends the one before. */
  method WriteSection(node: string, entries: map<string, string>, stream: string, ghost before: string,
                      ghost body: string, ghost config: map<string, string>, ghost start: Ini, ghost ini: Ini)
    returns (lines: string, ghost ini': Ini)
    requires SavableName(node) && Section(node, entries, config)
    requires Reads(before + body, start, ini) && PartOf(ini.config, config)
    requires if stream == "" then body == "" else stream == body + "\n"
    ensures Reads(before + lines, start, ini') && PartOf(ini'.config, config)
    ensures ini.config.Keys <= ini'.config.Keys && forall k :: k in entries ==> FullKey(node, k) in ini'.config
  {
    hide Reads, SavableName, FullKey, SectionOut, PartOf, Section;
    if stream != "" { BlankReads(before + body, start, ini); }
    assert before + stream == if stream == "" then before + body else before + body + "\n";
    SectionReads(before + stream, node, start, ini);
    assert before + stream + SectionOut(node) == before + (stream + SectionOut(node));
    lines, ini' := WriteEntries(node, entries, stream + SectionOut(node), before, config, start, ini.(node := node));
  }

  /** The sections other than the global one, in any order: each a heading, its entries and a blank line,
      the last of which is not written to the file. */
  method WriteSections(source: map<string, map<string, string>>, text: string,
                       ghost config: map<string, string>, ghost start: Ini, ghost ini: Ini)
    returns (text': string, ghost ini': Ini)
    requires Nested(source, config.Keys, config) && Reads(text, start, ini) && PartOf(ini.config, config)
    ensures Reads(text', start, ini') && PartOf(ini'.config, config) && ini.config.Keys <= ini'.config.Keys
    ensures forall node, k :: node in source && node != "" && k in source[node] ==> FullKey(node, k) in ini'.config
  {
    hide Reads, SavableName, SavableEntry, FullKey, SectionOut, NodeOf, KeyOf, PartOf, Section;
    var stream := "";
    var left := source.Keys - {""};
    ghost var body := "";
    ini' := ini;
    assert text + body == text;
    while left != {}
      invariant left <= source.Keys && "" !in left && PartOf(ini'.config, config) && ini.config.Keys <= ini'.config.Keys
      invariant Reads(text + body, start, ini') && (if stream == "" then body == "" else stream == body + "\n")
      invariant forall node, k :: node in source && node != "" && node !in left && k in source[node] ==>
                  FullKey(node, k) in ini'.config
      decreases |left|
    {
      var node :| node in left;
      var lines;
      lines, ini' := WriteSection(node, source[node], stream, text, body, config, start, ini');
      body := lines;
      stream := lines + "\n";
      left := left - {node};
    }
    text' := if |stream| > 1 then text + stream[..|stream| - 1] else text;
  }

  class IniConfig {
    var config: map<string, string>

    constructor ()
      ensures config == map[]
    {
      config := map[];
    }

    /** `parser` on the text of a file that could be opened: the lines read before an error stay. */
    method Parse(text: string) returns (ok: bool)
      modifies this
      ensures var r := ParseText(text, Ini("", map[])); ok == r.ok && config == r.ini.config
    {
      hide ParseLine;
      var ini := Ini("", map[]);
      var rest := text;
      ok := true;
      while rest != "" && ok
        invariant ok ==> ParseText(rest, ini) == ParseText(text, Ini("", map[]))
        invariant !ok ==> ParseText(text, Ini("", map[])) == Outcome(ini, false)
        decreases |rest|, ok
      {
        match ParseLine(rest[..Taken(rest)], ini)
        case Bad => ok := false;
        case Ok(next) => ini, rest := next, rest[Taken(rest)..];
      }
      config := ini.config;
    }

    /** `keep`, which writes a text that reads back as the same map. */
    method Keep() returns (text: string)
      requires Savable(config)
      ensures var r := ParseText(text, Ini("", map[])); r.ok && r.ini.config == config
    {
      hide Reads, ParseText, Savable, Nested, PartOf, FullKey;
      var source := Nest(config);
      ghost var ini;
      text, ini := WriteGlobal(source, config);
      text, ini := WriteSections(source, text, config, Ini("", map[]), ini);
      ReadToEnd(text, Ini("", map[]), ini);
      AllThere(source, ini.config, config);
    }
  }

  /** The global entries, which the ordered map has first, and a blank line. */
  method WriteGlobal(source: map<string, map<string, string>>, ghost config: map<string, string>)
    returns (text: string, ghost ini: Ini)
    requires Nested(source, config.Keys, config)
    ensures Reads(text, Ini("", map[]), ini) && PartOf(ini.config, config)
    ensures "" in source ==> forall k :: k in source[""] ==> FullKey("", k) in ini.config
  {
    hide Reads, SavableEntry, SavableName, FullKey, NodeOf, KeyOf;
    ghost var start := Ini("", map[]);
    ini := start;
    ReadsNothing(start);
    text := "";
    if "" in source {
      assert "" + "" == "";
      text, ini := WriteEntries("", source[""], "", "", config, start, ini);
      assert "" + text == text;
      BlankReads(text, start, ini);
      text := text + "\n";
    }
  }

  lemma ReadToEnd(text: string, start: Ini, ini: Ini)
    requires Reads(text, start, ini)
    ensures ParseText(text, start) == Outcome(ini, true)
  {
    assert text + "" == text;
  }

  lemma IsThere(source: map<string, map<string, string>>, full: string, c: map<string, string>,
                config: map<string, string>)
    requires Savable(config) && Nested(source, config.Keys, config) && full in config
    requires forall node, k :: node in source && k in source[node] ==> FullKey(node, k) in c
    ensures full in c
  {
    hide SavableEntry, SavableName, FullKey, NodeOf, KeyOf, Savable, Section;
    SplitSavable(full, config);
  }

  lemma AllThere(source: map<string, map<string, string>>, c: map<string, string>, config: map<string, string>)
    requires Savable(config) && Nested(source, config.Keys, config) && PartOf(c, config)
    requires forall node, k :: node in source && k in source[node] ==> FullKey(node, k) in c
    ensures c == config
  {
    hide Savable, Nested;
    forall full | full in config ensures full in c {
      IsThere(source, full, c, config);
    }
    hide *;
  }
}
