/** The path strings of the configuration index (config/src/yaml.cpp, config/src/json.cpp): `$`, keys joined
    by dots and indices in brackets. */
module ConfigPath {
  import opened Decimals

  /** One step down a document. */
  datatype Step = Key(key: string) | Index(i: nat)

  /** Both overloads of `JoinKey`. */
  function JoinKey(base: string, key: string): string
  {
    if base == "" then key else if |base| == 1 then base + key else base + "." + key
  }

  function InBrackets(i: nat): string
  {
    "[" + Decimal(i) + "]"
  }

  function Join(base: string, step: Step): string
  {
    match step
    case Key(k) => JoinKey(base, k)
    case Index(i) => base + InBrackets(i)
  }

  /** The path of a position in a document. */
  function Path(steps: seq<Step>): string
  {
    if steps == [] then "$" else Join(Path(steps[..|steps| - 1]), steps[|steps| - 1])
  }

  /** Keys that keep paths apart. */
  predicate PlainKey(k: string)
  {
    k != "" && '.' !in k && '[' !in k && ']' !in k
  }

  predicate PlainStep(step: Step)
  {
    step.Key? ==> PlainKey(step.key)
  }

  predicate Plain(steps: seq<Step>)
  {
    forall i :: 0 <= i < |steps| ==> PlainStep(steps[i])
  }

  lemma NumberPlain(n: nat)
    ensures '.' !in Decimal(n) && '[' !in Decimal(n) && ']' !in Decimal(n)
  {
    DecimalPlain(n, '.');
    DecimalPlain(n, '[');
    DecimalPlain(n, ']');
  }

  lemma BracketsPlain(n: nat)
    ensures '.' !in InBrackets(n) && InBrackets(n) != ""
  {
    hide Decimal;
    NumberPlain(n);
  }

  /** What stands in brackets is the index, read as a decimal number without leading zeros. */
  lemma BracketsRead(i: nat)
    ensures var s := InBrackets(i);
            && |s| >= 3 && s[0] == '[' && s[|s| - 1] == ']'
            && AllDigitChars(s[1..|s| - 1]) && Reading(s[1..|s| - 1]) == i && (s[1] == '0' ==> |s| == 3)
  {
    var s := InBrackets(i);
    assert s[1..|s| - 1] == Decimal(i) && s[1] == Decimal(i)[0];
    DecimalReads(i);
  }

  lemma LastEqual(a: string, c: char, b: string, d: char)
    requires a + [c] == b + [d]
    ensures a == b && c == d
  {
    var s := a + [c];
    assert |a| == |b|;
    assert s[|a|] == c && s[|b|] == d;
    assert a == s[..|a|] && b == s[..|b|];
  }

  /** A string is cut in only one way at its last c. */
  lemma LastSplit(a: string, x: string, b: string, y: string, c: char)
    requires a + [c] + x == b + [c] + y && c !in x && c !in y
    ensures a == b && x == y
  {
    var s := a + [c] + x;
    LastAt(a, x, c);
    LastAt(b, y, c);
    assert |a| == |b|;
    assert a == s[..|a|] && b == s[..|a|] && x == s[|a| + 1..] && y == s[|a| + 1..];
  }

  lemma LastAt(a: string, x: string, c: char)
    requires c !in x
    ensures var s := a + [c] + x; s[|a|] == c && forall i :: |a| < i < |s| ==> s[i] != c
  {
    var s := a + [c] + x;
    assert forall i :: |a| < i < |s| ==> s[i] == x[i - |a| - 1] && s[i] in x;
  }

  lemma {:induction false} PathShape(steps: seq<Step>)
    requires Plain(steps)
    ensures |Path(steps)| >= 1 && Path(steps)[0] == '$' && (steps != [] ==> |Path(steps)| >= 2)
  {
    if steps != [] { PathShape(steps[..|steps| - 1]); }
  }

  /** How the last step shows at the end of a path. */
  lemma LastStep(steps: seq<Step>)
    requires Plain(steps) && steps != []
    ensures var init, last := steps[..|steps| - 1], steps[|steps| - 1];
            var s := Path(steps);
            s != "$" && s != "" &&
            if last.Index? then s == Path(init) + InBrackets(last.i) && s[|s| - 1] == ']'
            else s[|s| - 1] != ']' &&
                 if init == [] then s == "$" + last.key && '.' !in s else s == Path(init) + "." + last.key
  {
    hide Decimal;
    var init, last := steps[..|steps| - 1], steps[|steps| - 1];
    PathShape(init);
    PathShape(steps);
    if last.Key? {
      assert PlainStep(last);
      var s, k := Path(steps), last.key;
      assert s[|s| - 1] == k[|k| - 1];
    }
  }

  /** Two positions never share a path. */
  lemma {:induction false} PathInjective(p: seq<Step>, q: seq<Step>)
    requires Plain(p) && Plain(q) && Path(p) == Path(q)
    ensures p == q
    decreases |p|
  {
    hide Path, Decimal;
    if p == [] || q == [] {
      RootPath();
      if p != [] { LastStep(p); }
      if q != [] { LastStep(q); }
    } else {
      var p', q', x, y := p[..|p| - 1], q[..|q| - 1], p[|p| - 1], q[|q| - 1];
      LastStep(p);
      LastStep(q);
      assert PlainStep(x) && PlainStep(y);
      assert p == p' + [x] && q == q' + [y];
      SameLast(p', q', x, y);
      PathInjective(p', q');
    }
  }

  lemma RootPath()
    ensures Path([]) == "$"
  {
  }

  lemma SameIndex(a: string, i: nat, b: string, j: nat)
    requires a + InBrackets(i) == b + InBrackets(j)
    ensures a == b && i == j
  {
    NumberPlain(i);
    NumberPlain(j);
    hide Decimal;
    assert a + InBrackets(i) == (a + "[" + Decimal(i)) + [']'];
    assert b + InBrackets(j) == (b + "[" + Decimal(j)) + [']'];
    LastEqual(a + "[" + Decimal(i), ']', b + "[" + Decimal(j), ']');
    LastSplit(a, Decimal(i), b, Decimal(j), '[');
    DecimalInjective(i, j);
  }

  lemma SameRootKey(k: string, m: string)
    requires "$" + k == "$" + m
    ensures k == m
  {
    assert k == ("$" + k)[1..] && m == ("$" + m)[1..];
  }

  lemma SameDeepKey(a: string, k: string, b: string, m: string)
    requires a + "." + k == b + "." + m && '.' !in k && '.' !in m
    ensures a == b && k == m
  {
    LastSplit(a, k, b, m, '.');
  }

  /** A key directly below the root shows no dot, a deeper one does. */
  lemma RootOrDeep(k: string, a: string, m: string)
    requires '.' !in k
    ensures "$" + k != a + "." + m
  {
    assert (a + "." + m)[|a|] == '.';
    assert '.' in a + "." + m;
  }

  /** What the last step adds, and the character it ends in. */
  lemma SnocPath(p: seq<Step>, x: Step)
    requires Plain(p + [x])
    ensures PlainStep(x) && Path(p + [x]) == Added(p, x) && Path(p + [x]) != ""
    ensures x.Index? <==> Path(p + [x])[|Path(p + [x])| - 1] == ']'
  {
    hide Path, InBrackets;
    assert (p + [x])[|p|] == x && (p + [x])[..|p|] == p;
    LastStep(p + [x]);
  }

  function Added(p: seq<Step>, x: Step): string
  {
    match x
    case Index(i) => Path(p) + InBrackets(i)
    case Key(k) => if p == [] then "$" + k else Path(p) + "." + k
  }

  lemma SameLast(p: seq<Step>, q: seq<Step>, x: Step, y: Step)
    requires PlainStep(x) && PlainStep(y)
    requires Plain(p + [x]) && Plain(q + [y]) && Path(p + [x]) == Path(q + [y])
    ensures x == y && Path(p) == Path(q)
  {
    SnocPath(p, x);
    SnocPath(q, y);
    SameAdded(p, q, x, y);
  }

  lemma SameAdded(p: seq<Step>, q: seq<Step>, x: Step, y: Step)
    requires PlainStep(x) && PlainStep(y) && Added(p, x) == Added(q, y) && (x.Index? <==> y.Index?)
    ensures x == y && Path(p) == Path(q)
  {
    hide Path, InBrackets;
    if x.Index? {
      SameIndex(Path(p), x.i, Path(q), y.i);
    } else if p != [] && q != [] {
      SameDeepKey(Path(p), x.key, Path(q), y.key);
    } else if p == [] && q == [] {
      SameRootKey(x.key, y.key);
    } else if p == [] {
      RootOrDeep(x.key, Path(q), y.key);
    } else {
      RootOrDeep(y.key, Path(p), x.key);
    }
  }

  /** `std::string::find` of a dot, the size standing for npos. */
  function FindDot(s: string, from: nat): (e: nat)
    requires from <= |s|
    ensures from <= e <= |s| && (e < |s| ==> s[e] == '.') && forall i :: from <= i < e ==> s[i] != '.'
    decreases |s| - from
  {
    if from == |s| || s[from] == '.' then from else FindDot(s, from + 1)
  }

  /** The nonempty parts of a string between dots, from a place on. */
  function Parts(s: string, begin: nat): seq<string>
    decreases |s| + 1 - begin
  {
    if begin >= |s| then []
    else
      var e := FindDot(s, begin);
      (if e > begin then [s[begin..e]] else []) + Parts(s, e + 1)
  }

  /** The tokens of a path. */
  function Tokens(path: string): seq<string>
  {
    if path == "" || path[0] != '$' then [] else Parts(path, 1)
  }

  /** `TokenizePath`. */
  method TokenizePath(path: string) returns (tokens: seq<string>)
    ensures tokens == Tokens(path)
  {
    hide FindDot, Parts;
    tokens := [];
    if path == "" || path[0] != '$' || |path| == 1 {
      if |path| == 1 { NoParts(path, 1); }
      return;
    }
    var begin := 1;
    while begin < |path|
      invariant begin >= 1 && Tokens(path) == tokens + Parts(path, begin)
    {
      var end := FindDot(path, begin);
      PartsStep(path, begin, tokens);
      if end > begin { tokens := tokens + [path[begin..end]]; }
      begin := end + 1;
    }
    NoParts(path, begin);
  }

  lemma PartsStep(s: string, begin: nat, tokens: seq<string>)
    requires begin < |s|
    ensures var e := FindDot(s, begin);
            tokens + Parts(s, begin) == (if e > begin then tokens + [s[begin..e]] else tokens) + Parts(s, e + 1)
  {
    hide FindDot;
    var e := FindDot(s, begin);
    var part, rest := if e > begin then [s[begin..e]] else [], Parts(s, e + 1);
    assert Parts(s, begin) == part + rest;
    hide Parts;
    Regrouped(tokens, part, rest);
  }

  lemma Regrouped(a: seq<string>, b: seq<string>, c: seq<string>)
    ensures a + (b + c) == (a + b) + c && a + [] == a
  {
  }

  lemma NoParts(s: string, begin: nat)
    requires begin >= |s|
    ensures Parts(s, begin) == []
  {
  }

  function JoinDots(tokens: seq<string>): string
  {
    if tokens == [] then "" else if |tokens| == 1 then tokens[0] else tokens[0] + "." + JoinDots(tokens[1..])
  }

  /** The keys of a position, each with the indices that follow it. */
  function Segments(steps: seq<Step>): (r: seq<string>)
    ensures steps != [] ==> r != []
  {
    if steps == [] then []
    else
      var init := Segments(steps[..|steps| - 1]);
      match steps[|steps| - 1]
      case Key(k) => init + [k]
      case Index(i) =>
        if init == [] then [InBrackets(i)]
        else init[..|init| - 1] + [init[|init| - 1] + InBrackets(i)]
  }

  predicate Dotless(tokens: seq<string>)
  {
    forall i :: 0 <= i < |tokens| ==> tokens[i] != "" && '.' !in tokens[i]
  }

  lemma {:induction false} JoinDotsSnoc(ts: seq<string>, t: string)
    ensures JoinDots(ts + [t]) == (if ts == [] then t else JoinDots(ts) + "." + t)
  {
    if ts != [] {
      JoinDotsSnoc(ts[1..], t);
      assert (ts + [t])[1..] == ts[1..] + [t];
      if |ts| == 1 { assert ts[1..] == []; }
    }
  }

  lemma JoinDotsExtend(ts: seq<string>, t: string, more: string)
    ensures JoinDots(ts + [t + more]) == JoinDots(ts + [t]) + more
  {
    hide JoinDots;
    JoinDotsSnoc(ts, t + more);
    JoinDotsSnoc(ts, t);
    if ts != [] { Appended(JoinDots(ts) + ".", t, more); }
  }

  lemma Appended(a: string, b: string, c: string)
    ensures a + (b + c) == (a + b) + c
  {
  }

  lemma {:induction false} PathIsSegments(steps: seq<Step>)
    requires Plain(steps)
    ensures Path(steps) == "$" + JoinDots(Segments(steps)) && Dotless(Segments(steps))
  {
    hide InBrackets, JoinDots, Path, Dotless;
    if steps == [] {
      RootPath();
      NoTokens();
    } else {
      var init, last := steps[..|steps| - 1], steps[|steps| - 1];
      PathIsSegments(init);
      LastStep(steps);
      assert PlainStep(last);
      if last.Key? {
        KeySegment(Segments(init), last.key);
      } else {
        BracketsPlain(last.i);
        IndexSegment(Segments(init), InBrackets(last.i));
      }
    }
  }

  lemma KeySegment(segs: seq<string>, k: string)
    requires Dotless(segs) && k != "" && '.' !in k
    ensures "$" + JoinDots(segs + [k]) == (if segs == [] then "$" + k else ("$" + JoinDots(segs)) + "." + k)
    ensures Dotless(segs + [k])
  {
    hide JoinDots;
    JoinDotsSnoc(segs, k);
  }

  lemma NoTokens()
    ensures JoinDots([]) == "" && Dotless([])
  {
  }

  lemma IndexSegment(segs: seq<string>, more: string)
    requires Dotless(segs) && more != "" && '.' !in more
    ensures var r := if segs == [] then [more] else segs[..|segs| - 1] + [segs[|segs| - 1] + more];
            "$" + JoinDots(r) == ("$" + JoinDots(segs)) + more && Dotless(r)
  {
    if segs != [] {
      var k := |segs| - 1;
      assert segs == segs[..k] + [segs[k]];
      JoinDotsExtend(segs[..k], segs[k], more);
    }
  }

  lemma FindDotAt(pre: string, t: string, rest: string)
    requires '.' !in t
    ensures FindDot(pre + t + "." + rest, |pre|) == |pre| + |t|
    ensures FindDot(pre + t, |pre|) == |pre| + |t|
  {
    var s := pre + t + "." + rest;
    assert s[|pre| + |t|] == '.';
    assert forall i :: |pre| <= i < |pre| + |t| ==> s[i] == t[i - |pre|] && t[i - |pre|] in t;
    assert forall i :: |pre| <= i < |pre| + |t| ==> (pre + t)[i] == t[i - |pre|];
  }

  lemma PartUpTo(s: string, begin: nat, e: nat)
    requires begin < e <= |s| && FindDot(s, begin) == e
    ensures Parts(s, begin) == [s[begin..e]] + Parts(s, e + 1)
  {
    hide FindDot;
  }

  lemma LastPart(pre: string, t: string)
    requires t != "" && '.' !in t
    ensures Parts(pre + t, |pre|) == [t]
  {
    hide FindDot, Parts;
    var s := pre + t;
    FindDotAt(pre, t, "");
    assert s[|pre|..|s|] == t;
    PartUpTo(s, |pre|, |s|);
    NoParts(s, |s| + 1);
  }

  lemma FirstPart(pre: string, t: string, rest: string)
    requires t != "" && '.' !in t
    ensures var s := pre + t + "." + rest; Parts(s, |pre|) == [t] + Parts(s, |pre + t + "."|)
  {
    hide FindDot, Parts;
    var s := pre + t + "." + rest;
    FindDotAt(pre, t, rest);
    assert s[|pre|..|pre| + |t|] == t;
    PartUpTo(s, |pre|, |pre| + |t|);
  }

  lemma {:induction false} PartsOfJoin(pre: string, ts: seq<string>)
    requires Dotless(ts)
    ensures Parts(pre + JoinDots(ts), |pre|) == ts
    decreases |ts|
  {
    hide FindDot, Parts;
    if ts == [] {
      NoParts(pre + JoinDots(ts), |pre|);
    } else if |ts| == 1 {
      LastPart(pre, ts[0]);
    } else {
      var t, rest := ts[0], JoinDots(ts[1..]);
      FirstPart(pre, t, rest);
      PartsOfJoin(pre + t + ".", ts[1..]);
      Appended(pre, t + ".", rest);
      Appended(pre, t, ".");
    }
  }

  function Nonempty(ts: seq<string>): seq<string>
  {
    if ts == [] then [] else (if ts[0] == "" then [] else [ts[0]]) + Nonempty(ts[1..])
  }

  /** The tokens of any text behind the dollar sign: what stands between dots, unless that is nothing. */
  lemma {:induction false} PartsBetween(pre: string, ts: seq<string>)
    requires forall i :: 0 <= i < |ts| ==> '.' !in ts[i]
    ensures Parts(pre + JoinDots(ts), |pre|) == Nonempty(ts)
    decreases |ts|
  {
    hide FindDot, Parts;
    if ts == [] {
      NoParts(pre + JoinDots(ts), |pre|);
    } else if |ts| == 1 {
      assert Nonempty(ts[1..]) == [];
      if ts[0] == "" { NoParts(pre + JoinDots(ts), |pre|); } else { LastPart(pre, ts[0]); }
    } else {
      var t, rest := ts[0], JoinDots(ts[1..]);
      if t == "" { EmptyPart(pre, rest); } else { FirstPart(pre, t, rest); }
      PartsBetween(pre + t + ".", ts[1..]);
      Appended(pre, t + ".", rest);
      Appended(pre, t, ".");
    }
  }

  lemma EmptyPart(pre: string, rest: string)
    ensures var s := pre + "" + "." + rest; Parts(s, |pre|) == Parts(s, |pre + "" + "."|)
  {
    hide FindDot;
    FindDotAt(pre, "", rest);
    assert [] + Parts(pre + "" + "." + rest, |pre| + 1) == Parts(pre + "" + "." + rest, |pre| + 1);
  }

  /** The tokens of a position's path are its segments, and joined by dots they are the path again. */
  lemma TokensOfPath(steps: seq<Step>)
    requires Plain(steps)
    ensures Tokens(Path(steps)) == Segments(steps) && "$" + JoinDots(Tokens(Path(steps))) == Path(steps)
  {
    hide Path, Segments, Parts, JoinDots;
    PathIsSegments(steps);
    PartsOfJoin("$", Segments(steps));
  }

  /** How paths look. */
  lemma PathsSpelled()
    ensures Path([]) == "$" && Path([Key("list")]) == "$list" && Path([Key("list"), Index(0)]) == "$list[0]"
    ensures Path([Key("list"), Index(0), Key("a")]) == "$list[0].a" && Path([Key("a"), Key("b")]) == "$a.b"
  {
    hide Path, Join;
    RootPath();
    JoinsSpelled();
    assert [] + [Key("list")] == [Key("list")] && [] + [Key("a")] == [Key("a")];
    assert [Key("list")] + [Index(0)] == [Key("list"), Index(0)] && [Key("a")] + [Key("b")] == [Key("a"), Key("b")];
    assert [Key("list"), Index(0)] + [Key("a")] == [Key("list"), Index(0), Key("a")];
    SpelledNext([], Key("list"), "$", "$list");
    SpelledNext([Key("list")], Index(0), "$list", "$list[0]");
    SpelledNext([Key("list"), Index(0)], Key("a"), "$list[0]", "$list[0].a");
    SpelledNext([], Key("a"), "$", "$a");
    SpelledNext([Key("a")], Key("b"), "$a", "$a.b");
  }

  lemma JoinsSpelled()
    ensures Join("$", Key("list")) == "$list" && Join("$list", Index(0)) == "$list[0]"
    ensures Join("$list[0]", Key("a")) == "$list[0].a" && Join("$", Key("a")) == "$a" && Join("$a", Key("b")) == "$a.b"
  {
  }

  lemma SpelledNext(steps: seq<Step>, step: Step, path: string, longer: string)
    requires Path(steps) == path && Join(path, step) == longer
    ensures Path(steps + [step]) == longer
  {
    hide Path, Join;
    PathNext(steps, step);
  }

  lemma PathNext(steps: seq<Step>, step: Step)
    ensures Path(steps + [step]) == Join(Path(steps), step)
  {
    assert (steps + [step])[..|steps|] == steps;
  }
}
