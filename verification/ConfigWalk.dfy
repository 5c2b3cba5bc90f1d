/** Looking a path up in the index against walking the document with `at` (config/src/yaml_node.cpp,
    config/src/json_node.cpp). */
module ConfigWalk {
  import opened ConfigPath
  import opened ConfigIndex

  /** The first or the last pair with a key. */
  function Find(pairs: seq<Pair>, key: string, last: bool): (k: nat)
    ensures k <= |pairs| && (k < |pairs| ==> pairs[k].key == Some(key))
    ensures forall j :: 0 <= j < |pairs| && pairs[j].key == Some(key) ==>
              k < |pairs| && if last then j <= k else k <= j
  {
    if pairs == [] then 0
    else if last then
      var n := |pairs| - 1;
      var k := Find(pairs[..n], key, true);
      if pairs[n].key == Some(key) then n else if k < n then k else n + 1
    else if pairs[0].key == Some(key) then 0
    else 1 + Find(pairs[1..], key, false)
  }

  /** The child that a step leads to. */
  function Number(node: Node, step: Step, last: bool): (k: nat)
  {
    match (node, step)
    case (Mapping(pairs), Key(key)) => Find(pairs, key, last)
    case (_, Index(i)) => i
    case _ => 0
  }

  /** `at`, which takes the first pair with a key. With last set, the same by the last pair. */
  function At(doc: Document, id: int, step: Step, last: bool): Option<int>
    requires doc.Has(id)
  {
    match (doc.Get(id), step)
    case (Mapping(pairs), Key(key)) =>
      var k := Find(pairs, key, last);
      if k < |pairs| && doc.Has(pairs[k].value) then Some(pairs[k].value) else None
    case (Sequence(items), Index(i)) => if i < |items| && doc.Has(items[i]) then Some(items[i]) else None
    case _ => None
  }

  /** `YamlNode::at(key)`, the loop over the pairs. */
  method AtKey(doc: Document, id: int, key: string) returns (child: Option<int>)
    requires doc.Has(id)
    ensures child == At(doc, id, Key(key), false)
  {
    if !doc.Get(id).Mapping? { return None; }
    var pairs := doc.Get(id).pairs;
    var p := 0;
    while p < |pairs|
      invariant 0 <= p <= |pairs| && p <= Find(pairs, key, false)
    {
      if pairs[p].key == Some(key) {
        return if doc.Has(pairs[p].value) then Some(pairs[p].value) else None;
      }
      p := p + 1;
    }
    child := None;
  }

  /** Iterated `at` from the root. */
  function Walk(doc: Document, steps: seq<Step>, last: bool): (r: Option<int>)
    ensures r.Some? ==> doc.Has(r.value)
  {
    if steps == [] then if doc.Has(1) then Some(1) else None
    else
      match Walk(doc, steps[..|steps| - 1], last)
      case None => None
      case Some(id) => At(doc, id, steps[|steps| - 1], last)
  }

  /** The position that a walk leads to. */
  function PlaceOf(doc: Document, steps: seq<Step>, last: bool): seq<nat>
    requires Walk(doc, steps, last).Some?
  {
    if steps == [] then []
    else
      var init := steps[..|steps| - 1];
      PlaceOf(doc, init, last) + [Number(doc.Get(Walk(doc, init, last).value), steps[|steps| - 1], last)]
  }

  /** Steps that the index does not pass over: JSON leaves out empty keys. */
  predicate Indexed(format: Format, steps: seq<Step>)
  {
    forall i :: 0 <= i < |steps| ==> steps[i].Key? ==> Usable(format, Some(steps[i].key))
  }

  lemma {:induction false} WalkPlace(doc: Document, format: Format, steps: seq<Step>, last: bool)
    requires Walk(doc, steps, last).Some? && Indexed(format, steps)
    ensures FrameAt(doc, format, PlaceOf(doc, steps, last)) == Some(Frame(Walk(doc, steps, last).value, Path(steps)))
  {
    hide Join, At, Down, Number, FrameAt;
    if steps == [] {
      RootAt(doc, format);
    } else {
      var init, step := steps[..|steps| - 1], steps[|steps| - 1];
      WalkPlace(doc, format, init, last);
      var f := Frame(Walk(doc, init, last).value, Path(init));
      AtDown(doc, format, f, step, last);
      FrameBelow(doc, format, PlaceOf(doc, init, last), Number(doc.Get(f.id), step, last));
    }
  }

  lemma RootAt(doc: Document, format: Format)
    ensures FrameAt(doc, format, []) == Some(Frame(1, "$")) && StepsTo(doc, format, []) == []
    ensures forall last :: Walk(doc, [], last).Some? ==> PlaceOf(doc, [], last) == []
  {
  }

  lemma AtDown(doc: Document, format: Format, f: Frame, step: Step, last: bool)
    requires doc.Has(f.id) && At(doc, f.id, step, last).Some? && (step.Key? ==> Usable(format, Some(step.key)))
    ensures Down(doc, format, f, Number(doc.Get(f.id), step, last)) ==
            Some(Frame(At(doc, f.id, step, last).value, Join(f.path, step)))
  {
    hide Join;
  }

  /** The steps down to a position. */
  function StepsTo(doc: Document, format: Format, p: seq<nat>): seq<Step>
    requires FrameAt(doc, format, p).Some?
  {
    if p == [] then []
    else
      var init := p[..|p| - 1];
      StepsTo(doc, format, init) + [LastStepTo(doc, format, FrameAt(doc, format, init).value, p[|p| - 1])]
  }

  function LastStepTo(doc: Document, format: Format, f: Frame, k: nat): Step
    requires Down(doc, format, f, k).Some?
  {
    Child(doc.Get(f.id), format, k).value.step
  }

  lemma {:induction false} PathTo(doc: Document, format: Format, p: seq<nat>)
    requires FrameAt(doc, format, p).Some?
    ensures Path(StepsTo(doc, format, p)) == FrameAt(doc, format, p).value.path
  {
    hide Join, Child;
    if p != [] {
      var init := p[..|p| - 1];
      PathTo(doc, format, init);
      var steps := StepsTo(doc, format, init);
      assert StepsTo(doc, format, p)[..|steps|] == steps;
    }
  }

  /** The walked position is the first of all with its steps: among equal keys YAML visits the first before the
      others, and JSON the last. */
  lemma {:induction false} WalkedFirst(doc: Document, format: Format, p: seq<nat>)
    requires FrameAt(doc, format, p).Some?
    requires Walk(doc, StepsTo(doc, format, p), format.Json?).Some?
    ensures var w := PlaceOf(doc, StepsTo(doc, format, p), format.Json?); p == w || Apart(w, p, format)
  {
    hide *;
    if p == [] {
      RootAt(doc, format);
    } else {
      StepsSnoc(doc, format, p);
      var init, k := p[..|p| - 1], p[|p| - 1];
      var steps := StepsTo(doc, format, init);
      var step := LastStepTo(doc, format, FrameAt(doc, format, init).value, k);
      PlaceSnoc(doc, steps, step, format.Json?);
      WalkedFirst(doc, format, init);
      var w := PlaceOf(doc, steps, format.Json?);
      if init == w { SameParent(doc, format, init, k); }
      var m := Number(doc.Get(Walk(doc, steps, format.Json?).value), step, format.Json?);
      assert p == init + [k];
      StillFirst(w, m, init, k, format);
    }
  }

  lemma StillFirst(w: seq<nat>, m: nat, p: seq<nat>, k: nat, format: Format)
    requires if p == w then m == k || (if format.Yaml? then m < k else m > k) else Apart(w, p, format)
    ensures p + [k] == w + [m] || Apart(w + [m], p + [k], format)
  {
    hide Apart;
    if p != w {
      ApartBelow(w, p, format, w + [m], p + [k]);
    } else if k != m {
      SiblingsApart(p, m, k, format);
    }
  }

  lemma StepsSnoc(doc: Document, format: Format, p: seq<nat>)
    requires p != [] && FrameAt(doc, format, p).Some?
    ensures var init, k := p[..|p| - 1], p[|p| - 1];
            && FrameAt(doc, format, init).Some? && Down(doc, format, FrameAt(doc, format, init).value, k).Some?
            && StepsTo(doc, format, p) ==
               StepsTo(doc, format, init) + [LastStepTo(doc, format, FrameAt(doc, format, init).value, k)]
  {
    hide Child;
  }

  lemma PlaceSnoc(doc: Document, steps: seq<Step>, step: Step, last: bool)
    requires Walk(doc, steps + [step], last).Some?
    ensures Walk(doc, steps, last).Some?
    ensures PlaceOf(doc, steps + [step], last) ==
            PlaceOf(doc, steps, last) + [Number(doc.Get(Walk(doc, steps, last).value), step, last)]
  {
    hide At, Number;
    assert (steps + [step])[..|steps|] == steps;
  }

  /** Below the walked position, the walk takes the first visited of the children with the step. */
  lemma SameParent(doc: Document, format: Format, p: seq<nat>, k: nat)
    requires FrameAt(doc, format, p).Some? && Down(doc, format, FrameAt(doc, format, p).value, k).Some?
    requires Walk(doc, StepsTo(doc, format, p), format.Json?).Some?
    requires p == PlaceOf(doc, StepsTo(doc, format, p), format.Json?)
    ensures var id := Walk(doc, StepsTo(doc, format, p), format.Json?).value;
            var f := FrameAt(doc, format, p).value;
            var m := Number(doc.Get(id), LastStepTo(doc, format, f, k), format.Json?);
            f.id == id && (m == k || if format.Yaml? then m < k else m > k)
  {
    hide *;
    StepsIndexed(doc, format, p);
    WalkPlace(doc, format, StepsTo(doc, format, p), format.Json?);
    NumberFirst(doc, format, FrameAt(doc, format, p).value, k);
  }

  lemma NumberFirst(doc: Document, format: Format, f: Frame, k: nat)
    requires Down(doc, format, f, k).Some? && doc.Has(f.id)
    ensures var m := Number(doc.Get(f.id), LastStepTo(doc, format, f, k), format.Json?);
            m == k || if format.Yaml? then m < k else m > k
  {
  }

  lemma {:induction false} StepsIndexed(doc: Document, format: Format, p: seq<nat>)
    requires FrameAt(doc, format, p).Some?
    ensures Indexed(format, StepsTo(doc, format, p))
  {
    if p != [] { StepsIndexed(doc, format, p[..|p| - 1]); }
  }

  /** A position of the walked node has the path of the walk: always so if the keys on the way are indexed. */
  ghost predicate Entered(doc: Document, format: Format, steps: seq<Step>)
    requires Walk(doc, steps, false).Some?
  {
    exists p :: FrameAt(doc, format, p) == Some(Frame(Walk(doc, steps, false).value, Path(steps)))
  }

  lemma IndexedEntered(doc: Document, format: Format, steps: seq<Step>)
    requires Walk(doc, steps, false).Some? && Indexed(format, steps)
    ensures Entered(doc, format, steps)
  {
    WalkPlace(doc, format, steps, false);
  }

  /** Another node has a position with the path of the walk, and it is visited before all of the walked node. */
  ghost predicate Shadowed(doc: Document, format: Format, steps: seq<Step>)
    requires Walk(doc, steps, false).Some?
  {
    exists q, id :: id != Walk(doc, steps, false).value && Shadows(doc, format, steps, q, id)
  }

  ghost predicate Shadows(doc: Document, format: Format, steps: seq<Step>, q: seq<nat>, id: int)
    requires Walk(doc, steps, false).Some?
  {
    && FrameAt(doc, format, q) == Some(Frame(id, Path(steps))) && doc.Has(id)
    && forall p :: FrameAt(doc, format, p) == Some(Frame(Walk(doc, steps, false).value, Path(steps))) ==>
         Before(q, p, format)
  }

  /** For documents with any keys: looking up the path of a walk gives the node that `at` finds exactly if the
      node is entered under it and not shadowed. */
  lemma LookupIsWalk(doc: Document, format: Format, steps: seq<Step>, r: Option<int>)
    requires Walk(doc, steps, false).Some? && Answers(doc, format, Path(steps), r)
    ensures r == Walk(doc, steps, false) <==> Entered(doc, format, steps) && !Shadowed(doc, format, steps)
  {
    hide FrameAt, Path, Walk, Before;
    if Entered(doc, format, steps) {
      var w :| FrameAt(doc, format, w) == Some(Frame(Walk(doc, steps, false).value, Path(steps)));
      assert There(doc, format, w);
    }
    if r.Some? {
      var m :| First(doc, format, m, Frame(r.value, Path(steps)));
      if r != Walk(doc, steps, false) {
        assert Shadows(doc, format, steps, m, r.value);
      } else if Shadowed(doc, format, steps) {
        var q, id :| id != r.value && Shadows(doc, format, steps, q, id);
        BeforeOnce(q, m, format);
      }
    }
  }

  /** Keys that keep paths apart. */
  ghost predicate PlainKeys(doc: Document)
  {
    forall id :: doc.Has(id) && doc.Get(id).Mapping? ==> PlainPairs(doc.Get(id).pairs)
  }

  predicate PlainPairs(pairs: seq<Pair>)
  {
    forall i :: 0 <= i < |pairs| && pairs[i].key.Some? ==> PlainKey(pairs[i].key.value)
  }

  lemma {:induction false} StepsPlain(doc: Document, format: Format, p: seq<nat>)
    requires PlainKeys(doc) && FrameAt(doc, format, p).Some?
    ensures Plain(StepsTo(doc, format, p))
  {
    if p != [] { StepsPlain(doc, format, p[..|p| - 1]); }
  }

  /** With plain keys a path belongs to one sequence of steps. */
  lemma PlainPath(doc: Document, format: Format, p: seq<nat>, steps: seq<Step>)
    requires PlainKeys(doc) && Plain(steps) && FrameAt(doc, format, p).Some?
    requires FrameAt(doc, format, p).value.path == Path(steps)
    ensures StepsTo(doc, format, p) == steps
  {
    hide PlainKeys, Path, FrameAt, StepsTo, Plain;
    StepsPlain(doc, format, p);
    PathTo(doc, format, p);
    PathInjective(StepsTo(doc, format, p), steps);
  }

  lemma PlainIndexed(format: Format, steps: seq<Step>)
    requires Plain(steps)
    ensures Indexed(format, steps)
  {
    forall i | 0 <= i < |steps| && steps[i].Key? ensures Usable(format, Some(steps[i].key)) {
      assert PlainStep(steps[i]);
    }
  }

  /** With plain keys, repeated or not, YAML finds what `at` finds, and JSON what it would find by the last of
      equal keys. */
  lemma PlainLookup(doc: Document, format: Format, steps: seq<Step>, r: Option<int>)
    requires PlainKeys(doc) && Plain(steps) && Answers(doc, format, Path(steps), r)
    requires Walk(doc, steps, format.Json?).Some?
    ensures r == Walk(doc, steps, format.Json?)
  {
    PlainIndexed(format, steps);
    WalkPlace(doc, format, steps, format.Json?);
    hide PlainKeys, Plain, FrameAt, Path, Walk, Before, PlaceOf, Indexed;
    var w := PlaceOf(doc, steps, format.Json?);
    assert There(doc, format, w);
    var m :| First(doc, format, m, Frame(r.value, Path(steps)));
    PlainPath(doc, format, m, steps);
    WalkedFirst(doc, format, m);
    if m != w { ApartBefore(w, m, format); }
  }

  lemma ApartBefore(a: seq<nat>, b: seq<nat>, format: Format)
    requires Apart(a, b, format)
    ensures !Before(b, a, format)
  {
    BeforeOnce(a, b, format);
  }

  /** No key repeated in a mapping. */
  ghost predicate DistinctKeys(doc: Document)
  {
    forall id :: doc.Has(id) && doc.Get(id).Mapping? ==> DistinctPairs(doc.Get(id).pairs)
  }

  predicate DistinctPairs(pairs: seq<Pair>)
  {
    forall i, j :: 0 <= i < j < |pairs| && pairs[i].key.Some? ==> pairs[i].key != pairs[j].key
  }

  lemma {:induction false} DistinctWalk(doc: Document, format: Format, p: seq<nat>)
    requires DistinctKeys(doc) && There(doc, format, p)
    ensures Walk(doc, StepsTo(doc, format, p), false) == Some(FrameAt(doc, format, p).value.id)
  {
    if p != [] {
      var init := p[..|p| - 1];
      DistinctWalk(doc, format, init);
      var steps, all := StepsTo(doc, format, init), StepsTo(doc, format, p);
      assert all[..|all| - 1] == steps;
      DistinctAt(doc, format, FrameAt(doc, format, init).value, p[|p| - 1]);
    }
  }

  lemma DistinctAt(doc: Document, format: Format, f: Frame, k: nat)
    requires DistinctKeys(doc) && doc.Has(f.id) && Down(doc, format, f, k).Some?
    requires doc.Has(Down(doc, format, f, k).value.id)
    ensures At(doc, f.id, LastStepTo(doc, format, f, k), false) == Some(Down(doc, format, f, k).value.id)
  {
    hide Join;
    var node := doc.Get(f.id);
    if node.Mapping? {
      assert DistinctPairs(node.pairs);
      assert Find(node.pairs, node.pairs[k].key.value, false) == k;
    }
  }

  /** With distinct keys a position is given by its steps. */
  lemma {:induction false} DistinctPlace(doc: Document, format: Format, p: seq<nat>, q: seq<nat>)
    requires DistinctKeys(doc) && FrameAt(doc, format, p).Some? && FrameAt(doc, format, q).Some?
    requires StepsTo(doc, format, p) == StepsTo(doc, format, q)
    ensures p == q
    decreases |p|
  {
    hide DistinctKeys, StepsTo, FrameAt, LastStepTo, Down;
    StepsCount(doc, format, p);
    StepsCount(doc, format, q);
    if p != [] {
      StepsSnoc(doc, format, p);
      StepsSnoc(doc, format, q);
      var p', q', k, m := p[..|p| - 1], q[..|q| - 1], p[|p| - 1], q[|q| - 1];
      SameSnoc(StepsTo(doc, format, p'), LastStepTo(doc, format, FrameAt(doc, format, p').value, k),
               StepsTo(doc, format, q'), LastStepTo(doc, format, FrameAt(doc, format, q').value, m));
      DistinctPlace(doc, format, p', q');
      DistinctChild(doc, format, FrameAt(doc, format, p').value, k, m);
      assert p == p' + [k] && q == q' + [m];
    }
  }

  lemma {:induction false} StepsCount(doc: Document, format: Format, p: seq<nat>)
    requires FrameAt(doc, format, p).Some?
    ensures |StepsTo(doc, format, p)| == |p|
  {
    hide LastStepTo, Down;
    if p != [] { StepsCount(doc, format, p[..|p| - 1]); }
  }

  lemma SameSnoc(a: seq<Step>, x: Step, b: seq<Step>, y: Step)
    requires a + [x] == b + [y]
    ensures a == b && x == y
  {
    assert a == (a + [x])[..|a|] && b == (b + [y])[..|b|];
    assert (a + [x])[|a|] == x && (b + [y])[|b|] == y;
  }

  lemma DistinctChild(doc: Document, format: Format, f: Frame, k: nat, m: nat)
    requires DistinctKeys(doc) && Down(doc, format, f, k).Some? && Down(doc, format, f, m).Some?
    requires LastStepTo(doc, format, f, k) == LastStepTo(doc, format, f, m)
    ensures k == m
  {
    var node := doc.Get(f.id);
    if node.Mapping? { assert DistinctPairs(node.pairs); }
  }

  /** With plain and distinct keys positions and paths correspond one to one: the position visited first under a
      path is the only one. */
  lemma OnePosition(doc: Document, format: Format, p: seq<nat>, q: seq<nat>)
    requires PlainKeys(doc) && DistinctKeys(doc) && There(doc, format, p) && There(doc, format, q)
    requires FrameAt(doc, format, p).value.path == FrameAt(doc, format, q).value.path
    ensures p == q
  {
    hide PlainKeys, DistinctKeys, FrameAt, StepsTo, Plain, Path;
    StepsPlain(doc, format, q);
    PathTo(doc, format, q);
    PlainPath(doc, format, p, StepsTo(doc, format, q));
    DistinctPlace(doc, format, p, q);
  }

  /** With plain and distinct keys: looking up any path of plain steps is walking it, to a node or to nothing. */
  lemma IndexIsWalk(doc: Document, format: Format, steps: seq<Step>, r: Option<int>)
    requires PlainKeys(doc) && DistinctKeys(doc) && Plain(steps) && Answers(doc, format, Path(steps), r)
    ensures r == Walk(doc, steps, false)
  {
    PlainIndexed(format, steps);
    if Walk(doc, steps, false).Some? {
      WalkPlace(doc, format, steps, false);
      assert There(doc, format, PlaceOf(doc, steps, false));
    }
    hide PlainKeys, DistinctKeys, Plain, FrameAt, Path, Walk, Before, PlaceOf, Indexed;
    if r.Some? {
      var m :| First(doc, format, m, Frame(r.value, Path(steps)));
      PlainPath(doc, format, m, steps);
      DistinctWalk(doc, format, m);
    }
  }

  /** The tokens kept for an entry, joined by dots, are its path. */
  lemma TokensJoin(doc: Document, format: Format, index: map<string, int>, tokens: map<string, seq<string>>,
                   path: string)
    requires PlainKeys(doc) && Indexes(doc, format, index) && Tokenized(index, tokens) && path in index
    ensures path in tokens && "$" + JoinDots(tokens[path]) == path
  {
    hide PlainKeys, FrameAt, Path, Tokens, JoinDots, Before;
    assert Answers(doc, format, path, Looked(index, path));
    var m :| First(doc, format, m, Frame(index[path], path));
    StepsPlain(doc, format, m);
    PathTo(doc, format, m);
    TokensOfPath(StepsTo(doc, format, m));
  }

  // Where lookups and `at` part.

  /** The path of the root finds the root, also if it has a child with the empty key, whose path is the same. */
  lemma RootFound(doc: Document, format: Format, r: Option<int>)
    requires doc.Has(1) && Answers(doc, format, "$", r)
    ensures r == Some(1) && Path([Key("")]) == "$"
  {
    RootAt(doc, format);
    assert There(doc, format, []);
    assert Path([Key("")]) == Join(Path([]), Key(""));
  }

  /** Of two equal keys in a JSON object, `at` takes the first and the index the last. */
  lemma RepeatedKey(r: Option<int>)
    requires Answers(REPEATED, Json, Path([Key("a")]), r)
    ensures r == Some(3) && Walk(REPEATED, [Key("a")], false) == Some(2)
  {
    assert forall last :: Walk(REPEATED, [], last) == Some(1);
    assert Walk(REPEATED, [Key("a")], true) == Some(3);
    assert PlainStep(Key("a"));
    PlainLookup(REPEATED, Json, [Key("a")], r);
  }

  const REPEATED: Document :=
    Document([Mapping([Pair(Some("a"), 2), Pair(Some("a"), 3)]), Scalar("x"), Scalar("y")])

  /** A key with a dot shadows the position that its parts lead to. */
  lemma DottedKey(r: Option<int>)
    requires Answers(DOTTED, Yaml, Path([Key("a"), Key("b")]), r)
    ensures r == Some(2) && Walk(DOTTED, [Key("a"), Key("b")], false) == Some(4)
  {
    DottedWalk();
    DottedFrames();
    assert There(DOTTED, Yaml, [0]);
    hide FrameAt, Walk, Path;
    var m :| First(DOTTED, Yaml, m, Frame(r.value, "$a.b"));
    if Before(m, [0], Yaml) { BeforeFirst(m); }
  }

  const DOTTED: Document :=
    Document([Mapping([Pair(Some("a.b"), 2), Pair(Some("a"), 3)]), Scalar("x"), Mapping([Pair(Some("b"), 4)]),
              Scalar("y")])

  lemma DottedWalk()
    ensures Walk(DOTTED, [Key("a"), Key("b")], false) == Some(4) && Path([Key("a"), Key("b")]) == "$a.b"
  {
    var steps := [Key("a"), Key("b")];
    assert steps[..1] == [Key("a")] && [Key("a")][..0] == [];
    assert Walk(DOTTED, [Key("a")], false) == Some(3) && Path([Key("a")]) == "$a";
  }

  lemma DottedFrames()
    ensures FrameAt(DOTTED, Yaml, []) == Some(Frame(1, "$")) && FrameAt(DOTTED, Yaml, [0]) == Some(Frame(2, "$a.b"))
  {
    RootAt(DOTTED, Yaml);
    FrameBelow(DOTTED, Yaml, [], 0);
    assert [] + [0] == [0] && Join("$", Key("a.b")) == "$a.b";
  }

  lemma BeforeFirst(m: seq<nat>)
    requires Before(m, [0], Yaml)
    ensures m == []
  {
    if Apart(m, [0], Yaml) {
      var k :| Parting(m, [0], Yaml, k);
    }
  }

  /** Items are numbered from zero: for `list: [x, y]` the path $list[1] finds y. */
  lemma ItemFound(format: Format, r: Option<int>)
    requires Answers(LIST, format, "$list[1]", r)
    ensures r == Some(4) && LIST.Get(4) == Scalar("y")
  {
    var steps := [Key("list"), Index(1)];
    assert Path(steps) == "$list[1]" by { ListPath(); }
    ListWalk();
    ListPlain();
    hide *;
    IndexIsWalk(LIST, format, steps, r);
  }

  const LIST: Document :=
    Document([Mapping([Pair(Some("list"), 2)]), Sequence([3, 4]), Scalar("x"), Scalar("y")])

  lemma ListPlain()
    ensures PlainKeys(LIST) && DistinctKeys(LIST) && Plain([Key("list"), Index(1)])
    ensures LIST.Get(4) == Scalar("y")
  {
    assert PlainStep(Key("list"));
  }

  lemma ListPath()
    ensures Path([Key("list"), Index(1)]) == "$list[1]"
  {
    hide Path;
    RootPath();
    PathNext([], Key("list"));
    PathNext([Key("list")], Index(1));
    assert [] + [Key("list")] == [Key("list")] && [Key("list")] + [Index(1)] == [Key("list"), Index(1)];
  }

  lemma ListWalk()
    ensures Walk(LIST, [Key("list"), Index(1)], false) == Some(4)
  {
    var steps := [Key("list"), Index(1)];
    assert steps[..1] == [Key("list")] && [Key("list")][..0] == [];
    assert Walk(LIST, [Key("list")], false) == Some(2);
  }

  /** An empty key below another is a position for YAML and none for JSON. */
  lemma EmptyKey(format: Format, r: Option<int>)
    requires Answers(EMPTY, format, "$a.", r)
    ensures r == if format.Yaml? then Some(3) else None
  {
    EmptyFrames(format);
    hide FrameAt;
    if format.Yaml? { assert There(EMPTY, format, [0, 0]); }
    if r.Some? {
      var m :| First(EMPTY, format, m, Frame(r.value, "$a."));
      EmptyPlaces(format, m);
    }
  }

  const EMPTY: Document := Document([Mapping([Pair(Some("a"), 2)]), Mapping([Pair(Some(""), 3)]), Scalar("x")])

  lemma EmptyFrames(format: Format)
    ensures FrameAt(EMPTY, format, []) == Some(Frame(1, "$")) && FrameAt(EMPTY, format, [0]) == Some(Frame(2, "$a"))
    ensures FrameAt(EMPTY, format, [0, 0]) == if format.Yaml? then Some(Frame(3, "$a.")) else None
    ensures forall k: nat :: k > 0 ==> FrameAt(EMPTY, format, [k]) == None && FrameAt(EMPTY, format, [0, k]) == None
    ensures forall k: nat :: FrameAt(EMPTY, format, [0, 0, k]) == None
  {
    RootAt(EMPTY, format);
    hide FrameAt;
    forall k: nat ensures FrameAt(EMPTY, format, [k]) == if k == 0 then Some(Frame(2, "$a")) else None {
      FrameBelow(EMPTY, format, [], k);
      assert [] + [k] == [k] && Join("$", Key("a")) == "$a";
    }
    forall k: nat
      ensures FrameAt(EMPTY, format, [0, k]) == if k == 0 && format.Yaml? then Some(Frame(3, "$a.")) else None
    {
      FrameBelow(EMPTY, format, [0], k);
      assert [0] + [k] == [0, k] && Join("$a", Key("")) == "$a.";
    }
    forall k: nat ensures FrameAt(EMPTY, format, [0, 0, k]) == None {
      BelowEmpty(format, k);
    }
  }

  lemma BelowEmpty(format: Format, k: nat)
    requires FrameAt(EMPTY, format, [0, 0]) == if format.Yaml? then Some(Frame(3, "$a.")) else None
    ensures FrameAt(EMPTY, format, [0, 0, k]) == None
  {
    assert [0, 0, k][..2] == [0, 0];
  }

  lemma EmptyPlaces(format: Format, m: seq<nat>)
    requires There(EMPTY, format, m)
    ensures m == [] || m == [0] || (m == [0, 0] && format.Yaml?)
  {
    EmptyFrames(format);
    hide FrameAt;
    if |m| >= 1 {
      assert m[..1] == [m[0]];
      TherePrefix(EMPTY, format, m, m[..1]);
    }
    if |m| >= 2 {
      assert m[..2] == [m[0], m[1]];
      TherePrefix(EMPTY, format, m, m[..2]);
    }
    if |m| >= 3 {
      assert m[..3] == [m[0], m[1], m[2]];
      TherePrefix(EMPTY, format, m, m[..3]);
    }
  }
}
