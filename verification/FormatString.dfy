/** Format strings: the run-time parser with its handler (fmt/base.h, fmt/format.h) and the compiler to a
    tree of fields (fmt/compile.h). */
module FormatString {
  import opened FormatSpecs

  /** The arguments, none of them named, and what writing one gives: without specifiers, and with
      specifiers whose width and precision are known. Writing may report an error. */
  datatype World<!A> = World(args: seq<A>, kind: A -> Type, plain: A -> string,
                             write: (A, Specs) -> Result<string>, number: A -> Result<int>)
  {
    predicate Has(id: int) { 0 <= id < |args| }

    function Kinds(): (ts: seq<Type>)
      ensures |ts| == |args| && forall i :: 0 <= i < |args| ==> ts[i] == kind(args[i])
    {
      seq(|args|, i requires 0 <= i < |args| => kind(args[i]))
    }
  }

  /** Specifiers that `check_char_specs` refuses for a character. */
  predicate BadForChar(sp: Specs)
  {
    (sp.pres == None || sp.pres == Chr || sp.pres == Debug) && (sp.align == Numeric || sp.sign != NoSign || sp.alt)
  }

  /** An int counts the arguments, and writing a character makes the check of its specifiers. */
  ghost predicate Proper<A>(w: World<A>)
  {
    |w.args| <= INT_MAX &&
    forall i, sp :: 0 <= i < |w.args| && w.kind(w.args[i]).Char? && BadForChar(sp) ==> w.write(w.args[i], sp).Err?
  }

  /** `get_dynamic_spec`. */
  function Resolve1<A>(d: Dynamic, w: World<A>): Result<Dynamic>
  {
    match d
    case Ref(id) =>
      (if !w.Has(id) then Err
       else match w.number(w.args[id])
            case Err => Err
            case Ok(n) => Ok(Fixed(n)))
    case _ => Ok(d)
  }

  /** `handle_dynamic_spec` for width and precision. */
  function Resolve<A>(sp: Specs, w: World<A>): (r: Result<Specs>)
    ensures r.Ok? ==> BadForChar(r.value) == BadForChar(sp)
  {
    match (Resolve1(sp.width, w), Resolve1(sp.precision, w))
    case (Ok(width), Ok(precision)) => Ok(sp.(width := width, precision := precision))
    case _ => Err
  }

  function Prepend(t: string, r: Result<string>): Result<string>
  {
    match r
    case Err => Err
    case Ok(x) => Ok(t + x)
  }

  /** An argument with specifiers, written at run time by either side. */
  function WriteWith<A>(id: int, sp: Specs, w: World<A>): Result<string>
    requires w.Has(id)
  {
    match Resolve(sp, w)
    case Err => Err
    case Ok(known) => w.write(w.args[id], known)
  }

  // Run time.

  /** A replacement field: what it writes, where it ends, and the indexing state. */
  datatype Field = Field(out: string, end: nat, ids: int)

  /** `on_format_specs` and the closing brace. */
  function RunSpecs<A>(s: string, i: nat, id: int, ids: int, w: World<A>): (r: Result<Field>)
    requires i <= |s|
  {
    if !w.Has(id) then Err
    else
      match ParseSpecs(s, i, ids, w.kind(w.args[id]))
      case Err => Err
      case Ok(p) =>
        match WriteWith(id, p.specs, w)
        case Err => Err
        case Ok(out) => if i <= p.end < |s| && s[p.end] == '}' then Ok(Field(out, p.end + 1, p.ids)) else Err
  }

  /** `on_replacement_field`. */
  function RunPlain<A>(id: int, end: nat, ids: int, w: World<A>): Result<Field>
  {
    if w.Has(id) then Ok(Field(w.plain(w.args[id]), end, ids)) else Err
  }

  /** `parse_replacement_field`, from the brace at p. */
  function RunField<A>(s: string, p: nat, ids: int, w: World<A>): (r: Result<Field>)
    requires p < |s|
    ensures r.Ok? ==> p < r.value.end <= |s|
  {
    if p + 1 == |s| then Err
    else if s[p + 1] == '}' then
      match NextId(ids)
      case Err => Err
      case Ok(next) => RunPlain(ids, p + 2, next, w)
    else if s[p + 1] == '{' then Ok(Field("{", p + 2, ids))
    else if s[p + 1] == ':' then
      match NextId(ids)
      case Err => Err
      case Ok(next) => RunSpecs(s, p + 2, ids, next, w)
    else
      match ParseArgId(s, p + 1)
      case Ok(Index(id, end)) =>
        (match CheckId(ids)
         case Err => Err
         case Ok(next) =>
           if s[end] == '}' then RunPlain(id, end + 1, next, w) else RunSpecs(s, end + 1, id, next, w))
      case _ => Err
  }

  /** What the run-time formatter writes from p on. */
  function Run<A>(s: string, p: nat, ids: int, w: World<A>): Result<string>
    requires p <= |s|
    decreases |s| - p
  {
    if p == |s| then Ok("")
    else if s[p] == '{' then
      match RunField(s, p, ids, w)
      case Err => Err
      case Ok(f) => Prepend(f.out, Run(s, f.end, f.ids, w))
    else if s[p] == '}' then
      if p + 1 < |s| && s[p + 1] == '}' then Prepend("}", Run(s, p + 2, ids, w)) else Err
    else Prepend([s[p]], Run(s, p + 1, ids, w))
  }

  /** `parse_format_string` with the formatting handler: text is written when the field after it is met. */
  method FormatAtRunTime<A>(s: string, w: World<A>) returns (r: Result<string>)
    ensures r == Run(s, 0, 0, w)
  {
    hide RunField;
    var out, ids := "", 0;
    var begin, p := 0, 0;
    assert out + s[begin..p] == "";
    PrependNothing(Run(s, 0, 0, w));
    while p != |s|
      invariant 0 <= begin <= p <= |s|
      invariant Run(s, 0, 0, w) == Prepend(out + s[begin..p], Run(s, p, ids, w))
      decreases |s| - p
    {
      var c := s[p];
      p := p + 1;
      if c == '{' {
        out := out + s[begin..p - 1];
        match RunField(s, p - 1, ids, w)
        case Err => return Err;
        case Ok(f) =>
          PrependTwice(out, f.out, Run(s, f.end, f.ids, w));
          out, ids := out + f.out, f.ids;
          begin, p := f.end, f.end;
          assert out + s[begin..p] == out;
      } else if c == '}' {
        if p == |s| || s[p] != '}' { return Err; }
        PrependTwice(out + s[begin..p - 1], "}", Run(s, p + 1, ids, w));
        assert out + s[begin..p - 1] + "}" == out + s[begin..p];
        out := out + s[begin..p];
        p := p + 1;
        begin := p;
        assert out + s[begin..p] == out;
      } else {
        PrependTwice(out + s[begin..p - 1], [c], Run(s, p, ids, w));
        assert out + s[begin..p - 1] + [c] == out + s[begin..p];
      }
    }
    r := Ok(out + s[begin..]);
    assert out + s[begin..] == out + s[begin..p] + "";
  }

  lemma PrependTwice(a: string, b: string, r: Result<string>)
    ensures Prepend(a, Prepend(b, r)) == Prepend(a + b, r)
  {
    if r.Ok? { assert a + (b + r.value) == a + b + r.value; }
  }

  lemma PrependNothing(r: Result<string>)
    ensures Prepend("", r) == r
  {
    if r.Ok? { assert "" + r.value == r.value; }
  }

  // The compiler.

  datatype Tree =
    | Text(data: string)
    | CodeUnit(value: char)
    | PlainField(id: int)
    | SpecField(id: int, specs: Specs)
    | Concat(lhs: Tree, rhs: Tree)

  /** The `format` functions of the tree. */
  function Format<A>(tree: Tree, w: World<A>): Result<string>
  {
    match tree
    case Text(data) => Ok(data)
    case CodeUnit(c) => Ok([c])
    case PlainField(id) => if w.Has(id) then Ok(w.plain(w.args[id])) else Err
    case SpecField(id, sp) => if w.Has(id) then WriteWith(id, sp, w) else Err
    case Concat(l, r) =>
      match Format(l, w)
      case Err => Err
      case Ok(x) => Prepend(x, Format(r, w))
  }

  /** `parse_text`. */
  function TextEnd(s: string, p: nat): (e: nat)
    requires p <= |s|
    ensures p <= e <= |s| && forall i :: p <= i < e ==> s[i] != '{' && s[i] != '}'
    decreases |s| - p
  {
    if p == |s| || s[p] == '{' || s[p] == '}' then p else TextEnd(s, p + 1)
  }

  /** Nested ids are checked against the largest number of arguments there can be. */
  predicate RefBelow(d: Dynamic, n: int) { d.Ref? ==> d.id < n }

  /** `parse_specs` with `native_formatter::parse`: in manual mode the context starts again at 0. */
  function CompileSpecs(s: string, i: nat, next: int, t: Type): Result<SpecsResult>
    requires i <= |s|
  {
    var start := if next == MANUAL then 0 else next;
    if i == |s| || s[i] == '}' then Ok(SpecsResult(DEFAULT, i, next))
    else
      match ParseSpecs(s, i, start, t)
      case Err => Err
      case Ok(p) =>
        if !RefBelow(p.specs.width, INT_MAX) || !RefBelow(p.specs.precision, INT_MAX) then Err
        else if t.Char? && BadForChar(p.specs) then Err
        else Ok(p.(ids := if start == 0 then MANUAL else p.ids))
  }

  /** A compiled piece, where the rest of the string begins, and the id it continues with. */
  datatype Piece = Piece(tree: Tree, end: nat, ids: int)

  /** `parse_replacement_field_then_tail`, without the tail; i is where the id ends. */
  function CompileField(s: string, i: nat, id: int, next: int, types: seq<Type>): (r: Result<Piece>)
    requires i <= |s|
    ensures r.Ok? ==> i < r.value.end <= |s|
  {
    if id < 0 || id >= |types| || i == |s| then Err
    else if s[i] == '}' then Ok(Piece(PlainField(id), i + 1, next))
    else if s[i] != ':' then Err
    else
      match CompileSpecs(s, i + 1, next, types[id])
      case Err => Err
      case Ok(p) =>
        if i < p.end < |s| && s[p.end] == '}' then Ok(Piece(SpecField(id, p.specs), p.end + 1, p.ids)) else Err
  }

  /** The first piece of `compile_format_string`. A closing brace is taken to be doubled, whatever follows. */
  function CompilePiece(s: string, p: nat, ids: int, types: seq<Type>): (r: Result<Piece>)
    requires p < |s|
    ensures r.Ok? ==> p < r.value.end <= |s|
  {
    if s[p] == '{' then
      if p + 1 == |s| then Err
      else if s[p + 1] == '{' then Ok(Piece(Text(s[p..p + 1]), p + 2, ids))
      else if s[p + 1] == '}' || s[p + 1] == ':' then
        if ids == MANUAL then Err else CompileField(s, p + 1, ids, ids + 1, types)
      else
        match ParseArgId(s, p + 1)
        case Ok(Index(id, end)) =>
          if ids == MANUAL || ids == 0 then CompileField(s, end, id, MANUAL, types) else Err
        case _ => Err
    else if s[p] == '}' then if p + 1 == |s| then Err else Ok(Piece(Text(s[p..p + 1]), p + 2, ids))
    else
      var end := TextEnd(s, p + 1);
      Ok(Piece(if end - p > 1 then Text(s[p..end]) else CodeUnit(s[p]), end, ids))
  }

  /** `compile_format_string` with `parse_tail`. */
  function CompileFrom(s: string, p: nat, ids: int, types: seq<Type>): Result<Tree>
    requires p < |s|
    decreases |s| - p
  {
    match CompilePiece(s, p, ids, types)
    case Err => Err
    case Ok(head) =>
      if head.end == |s| then Ok(head.tree)
      else match CompileFrom(s, head.end, head.ids, types)
           case Err => Err
           case Ok(tail) => Ok(Concat(head.tree, tail))
  }

  /** `compile`. */
  function Compile(s: string, types: seq<Type>): Result<Tree>
  {
    if s == "" then Ok(Text("")) else CompileFrom(s, 0, 0, types)
  }

  /** An empty specification parses to the defaults at run time, too. */
  lemma EmptySpecs(s: string, i: nat, ids: int, t: Type)
    requires i < |s| && s[i] == '}'
    ensures ParseSpecs(s, i, ids, t) == Ok(SpecsResult(DEFAULT, i, ids))
  {
  }

  /** References that could be resolved are to arguments. */
  lemma ResolvedBelow<A>(sp: Specs, w: World<A>)
    requires Resolve(sp, w).Ok? && |w.args| <= INT_MAX
    ensures RefBelow(sp.width, INT_MAX) && RefBelow(sp.precision, INT_MAX)
  {
  }

  /** What the run-time parser accepts as specifiers, the compiler parses to the same. */
  lemma SpecsCompile<A>(s: string, i: nat, id: int, next: int, w: World<A>)
    requires Proper(w) && i <= |s| && (next == MANUAL || next > 0) && RunSpecs(s, i, id, next, w).Ok?
    ensures var f, c := RunSpecs(s, i, id, next, w), CompileSpecs(s, i, next, w.kind(w.args[id]));
            w.Has(id) && c.Ok? && c.value.ids == f.value.ids >= MANUAL && c.value.end + 1 == f.value.end <= |s| &&
            i <= c.value.end && s[c.value.end] == '}' && WriteWith(id, c.value.specs, w) == Ok(f.value.out)
  {
    hide ParseSpecs;
    var t := w.kind(w.args[id]);
    var p := ParseSpecs(s, i, next, t).value;
    ResolvedBelow(p.specs, w);
    SpecsIds(s, i, next, t);
    if i < |s| && s[i] == '}' {
      EmptySpecs(s, i, next, t);
    } else if next == MANUAL {
      SpecsFromZero(s, i, t);
    }
  }

  /** A replacement field means the same compiled. */
  lemma FieldCompiles<A>(s: string, p: nat, ids: int, w: World<A>)
    requires Proper(w) && p < |s| && s[p] == '{' && ids >= MANUAL && RunField(s, p, ids, w).Ok?
    ensures var f, c := RunField(s, p, ids, w), CompilePiece(s, p, ids, w.Kinds());
            c.Ok? && c.value.end == f.value.end && c.value.ids == f.value.ids && f.value.ids >= MANUAL &&
            Format(c.value.tree, w) == Ok(f.value.out)
  {
    hide RunSpecs, CompileSpecs, ParseArgId, WriteWith, Proper;
    if s[p + 1] == '{' {
      assert s[p..p + 1] == "{";
    } else if s[p + 1] == ':' {
      SpecsCompile(s, p + 2, ids, ids + 1, w);
    } else if s[p + 1] != '}' {
      var a := ParseArgId(s, p + 1).value;
      if s[a.end] != '}' { SpecsCompile(s, a.end + 1, a.id, MANUAL, w); }
    }
  }

  lemma {:induction false} TextRuns<A>(s: string, p: nat, e: nat, ids: int, w: World<A>)
    requires p <= e <= |s| && forall i :: p <= i < e ==> s[i] != '{' && s[i] != '}'
    ensures Run(s, p, ids, w) == Prepend(s[p..e], Run(s, e, ids, w))
    decreases e - p
  {
    hide RunField;
    if p == e {
      assert s[p..e] == "";
      PrependNothing(Run(s, p, ids, w));
    } else {
      TextRuns(s, p + 1, e, ids, w);
      PrependTwice([s[p]], s[p + 1..e], Run(s, e, ids, w));
      assert [s[p]] + s[p + 1..e] == s[p..e];
    }
  }

  /** The first piece of a string that the run-time formatter accepts. */
  lemma PieceCompiles<A>(s: string, p: nat, ids: int, w: World<A>)
    requires Proper(w) && p < |s| && ids >= MANUAL && Run(s, p, ids, w).Ok?
    ensures var c := CompilePiece(s, p, ids, w.Kinds());
            c.Ok? && c.value.ids >= MANUAL && Format(c.value.tree, w).Ok? &&
            Run(s, p, ids, w) == Prepend(Format(c.value.tree, w).value, Run(s, c.value.end, c.value.ids, w))
  {
    hide RunField, Proper, CompileField, ParseArgId, WriteWith;
    if s[p] == '{' {
      FieldCompiles(s, p, ids, w);
    } else if s[p] == '}' {
      assert s[p..p + 1] == "}";
    } else {
      TextRuns(s, p, TextEnd(s, p + 1), ids, w);
      assert s[p..p + 1] == [s[p]];
    }
  }

  /** Compilation preserves meaning: what the run-time formatter accepts and writes, the compiled tree
      writes. */
  lemma {:induction false} CompiledRuns<A>(s: string, p: nat, ids: int, w: World<A>)
    requires Proper(w) && p < |s| && ids >= MANUAL && Run(s, p, ids, w).Ok?
    ensures var c := CompileFrom(s, p, ids, w.Kinds()); c.Ok? && Format(c.value, w) == Run(s, p, ids, w)
    decreases |s| - p
  {
    hide Proper, CompilePiece;
    PieceCompiles(s, p, ids, w);
    var head := CompilePiece(s, p, ids, w.Kinds()).value;
    if head.end < |s| {
      CompiledRuns(s, head.end, head.ids, w);
    } else {
      var x := Format(head.tree, w).value;
      assert x + "" == x;
    }
  }

  lemma CompilePreserves<A>(s: string, w: World<A>)
    requires Proper(w) && Run(s, 0, 0, w).Ok?
    ensures var c := Compile(s, w.Kinds()); c.Ok? && Format(c.value, w) == Run(s, 0, 0, w)
  {
    hide Proper, CompileFrom;
    if s != "" { CompiledRuns(s, 0, 0, w); }
  }

  // The compiler accepts more: a single closing brace in front of another character, and automatic ids
  // nested in a field with a manual one.

  predicate ManualSpecs(s: string, i: nat, t: Type)
    requires i <= |s|
  {
    var z := ParseSpecs(s, i, 0, t);
    z.Ok? ==> z.value.ids <= 0
  }

  predicate StrictPiece(s: string, p: nat, types: seq<Type>)
    requires p < |s|
  {
    if s[p] == '}' then p + 1 < |s| && s[p + 1] == '}'
    else if s[p] == '{' && p + 1 < |s| && s[p + 1] != '{' && s[p + 1] != '}' && s[p + 1] != ':' then
      match ParseArgId(s, p + 1)
      case Ok(Index(id, end)) => s[end] == ':' && 0 <= id < |types| ==> ManualSpecs(s, end + 1, types[id])
      case _ => true
    else true
  }

  /** Strings in which the compiler meets neither. */
  predicate StrictFrom(s: string, p: nat, ids: int, types: seq<Type>)
    requires p < |s|
    decreases |s| - p
  {
    match CompilePiece(s, p, ids, types)
    case Err => true
    case Ok(head) => StrictPiece(s, p, types) && (head.end < |s| ==> StrictFrom(s, head.end, head.ids, types))
  }

  lemma SpecsRun<A>(s: string, i: nat, id: int, next: int, w: World<A>)
    requires w.Has(id) && i <= |s| && (next == MANUAL || next > 0)
    requires var c := CompileSpecs(s, i, next, w.kind(w.args[id]));
             c.Ok? && i <= c.value.end < |s| && s[c.value.end] == '}' && WriteWith(id, c.value.specs, w).Ok?
    ensures var c, r := CompileSpecs(s, i, next, w.kind(w.args[id])), RunSpecs(s, i, id, next, w);
            if next > 0 || ManualSpecs(s, i, w.kind(w.args[id]))
            then r == Ok(Field(WriteWith(id, c.value.specs, w).value, c.value.end + 1, c.value.ids))
            else r.Err?
  {
    hide ParseSpecs;
    var t := w.kind(w.args[id]);
    SpecsFromZero(s, i, t);
    if s[i] == '}' {
      EmptySpecs(s, i, next, t);
      EmptySpecs(s, i, 0, t);
    }
  }

  lemma FieldRuns<A>(s: string, p: nat, ids: int, w: World<A>)
    requires p < |s| && s[p] == '{' && ids >= MANUAL && CompilePiece(s, p, ids, w.Kinds()).Ok?
    requires Format(CompilePiece(s, p, ids, w.Kinds()).value.tree, w).Ok?
    ensures var c, r := CompilePiece(s, p, ids, w.Kinds()).value, RunField(s, p, ids, w);
            if StrictPiece(s, p, w.Kinds()) then r == Ok(Field(Format(c.tree, w).value, c.end, c.ids)) else r.Err?
  {
    hide RunSpecs, CompileSpecs, ParseArgId, WriteWith, ManualSpecs;
    if s[p + 1] == '{' {
      assert s[p..p + 1] == "{";
    } else if s[p + 1] == ':' {
      SpecsRun(s, p + 2, ids, ids + 1, w);
    } else if s[p + 1] != '}' {
      var a := ParseArgId(s, p + 1).value;
      if s[a.end] != '}' { SpecsRun(s, a.end + 1, a.id, MANUAL, w); }
    }
  }

  lemma PieceRuns<A>(s: string, p: nat, ids: int, w: World<A>)
    requires p < |s| && ids >= MANUAL && CompilePiece(s, p, ids, w.Kinds()).Ok?
    requires Format(CompilePiece(s, p, ids, w.Kinds()).value.tree, w).Ok?
    ensures var c, r := CompilePiece(s, p, ids, w.Kinds()).value, Run(s, p, ids, w);
            if StrictPiece(s, p, w.Kinds()) then r == Prepend(Format(c.tree, w).value, Run(s, c.end, c.ids, w))
            else r.Err?
  {
    hide RunField, CompileField, ParseArgId, WriteWith, ManualSpecs;
    if s[p] == '{' {
      FieldRuns(s, p, ids, w);
    } else if s[p] == '}' {
      assert s[p..p + 1] == "}";
    } else {
      TextRuns(s, p, TextEnd(s, p + 1), ids, w);
      assert s[p..p + 1] == [s[p]];
    }
  }

  lemma PieceIds(s: string, p: nat, ids: int, types: seq<Type>)
    requires p < |s| && ids >= MANUAL && CompilePiece(s, p, ids, types).Ok?
    ensures CompilePiece(s, p, ids, types).value.ids >= MANUAL
  {
    hide ParseSpecs, ParseArgId, TextEnd;
    if s[p] == '{' && p + 1 < |s| && s[p + 1] == ':' && 0 <= ids < |types| &&
       ParseSpecs(s, p + 2, ids + 1, types[ids]).Ok? {
      SpecsIds(s, p + 2, ids + 1, types[ids]);
    }
  }

  /** For a string that compiles, and whose tree writes something, the run-time formatter writes the same if
      the string is strict and reports an error if it is not. */
  lemma {:induction false} StrictRuns<A>(s: string, p: nat, ids: int, w: World<A>)
    requires p < |s| && ids >= MANUAL && CompileFrom(s, p, ids, w.Kinds()).Ok?
    requires Format(CompileFrom(s, p, ids, w.Kinds()).value, w).Ok?
    ensures Run(s, p, ids, w) ==
            if StrictFrom(s, p, ids, w.Kinds()) then Format(CompileFrom(s, p, ids, w.Kinds()).value, w) else Err
    decreases |s| - p
  {
    hide CompilePiece, StrictPiece;
    var head := CompilePiece(s, p, ids, w.Kinds()).value;
    PieceRuns(s, p, ids, w);
    PieceIds(s, p, ids, w.Kinds());
    if head.end < |s| {
      StrictRuns(s, head.end, head.ids, w);
    } else {
      var x := Format(head.tree, w).value;
      assert x + "" == x;
    }
  }

  /** A single closing brace compiles, and swallows the character behind it. */
  lemma StrayBrace<A>(w: World<A>)
    ensures Compile("}x", w.Kinds()) == Ok(Text("}")) && Run("}x", 0, 0, w) == Err
  {
    var s := "}x";
    assert s[0] == '}' && s[1] == 'x' && s[0..1] == "}";
  }

  /** An automatic id nested in a manual field compiles, and is refused at run time. */
  lemma NestedAutomatic<A>(w: World<A>)
    requires |w.args| == 1 && w.kind(w.args[0]).SInt?
    ensures Compile("{0:{}}", w.Kinds()) == Ok(SpecField(0, DEFAULT.(width := Ref(0)))) && Run("{0:{}}", 0, 0, w) == Err
  {
    var s := "{0:{}}";
    assert s[0] == '{' && s[1] == '0' && s[2] == ':' && s[3] == '{' && s[4] == '}' && s[5] == '}';
    assert ParseArgId(s, 1) == Ok(Index(0, 2));
    assert ParseDynamic(s, 3, 0) == Ok(DynamicResult(Ref(0), 5, 1)) && ParseDynamic(s, 3, MANUAL) == Err;
    NestedSpecs(s);
    hide ParseSpecs, ParseArgId;
    assert CompileSpecs(s, 3, MANUAL, SInt) == Ok(SpecsResult(DEFAULT.(width := Ref(0)), 5, MANUAL));
  }

  lemma NestedSpecs(s: string)
    requires s == "{0:{}}"
    requires ParseDynamic(s, 3, 0) == Ok(DynamicResult(Ref(0), 5, 1)) && ParseDynamic(s, 3, MANUAL) == Err
    ensures ParseSpecs(s, 3, 0, SInt) == Ok(SpecsResult(DEFAULT.(width := Ref(0)), 5, 1))
    ensures ParseSpecs(s, 3, MANUAL, SInt) == Err
  {
    assert s[3] == '{' && s[4] == '}' && s[5] == '}';
    hide ParseDynamic;
    var wide := DEFAULT.(width := Ref(0));
    assert ParseOne(s, 3, '{', Start, DEFAULT, 0, SInt) == Ok(More(wide, 5, Width, 1));
    assert ParseOne(s, 3, '{', Start, DEFAULT, MANUAL, SInt) == Err;
    assert ParseOne(s, 5, '}', Width, wide, 1, SInt) == Ok(Done(wide, 5));
    hide ParseOne;
    assert ParseLoop(s, 5, '}', Width, wide, 1, SInt) == Ok(SpecsResult(wide, 5, 1));
  }
}
