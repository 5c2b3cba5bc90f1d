/** The path index of the YAML and JSON parsers (config/src/yaml.cpp, config/src/json.cpp), for documents with
    any keys. */
module ConfigIndex {
  import opened Powers
  import opened ConfigPath

  datatype Option<T> = None | Some(value: T)

  /** Which parser it is. They differ in the order in which they push children and in what they do with
      odd keys. */
  datatype Format = Yaml | Json

  /** A node, its children by number; a key is None if it is no scalar. */
  datatype Node = Scalar(text: string) | Sequence(items: seq<int>) | Mapping(pairs: seq<Pair>)

  datatype Pair = Pair(key: Option<string>, value: int)

  /** A document: node number 1 is the root. Numbers outside the table are null nodes. */
  datatype Document = Document(nodes: seq<Node>)
  {
    predicate Has(id: int) { 1 <= id <= |nodes| }

    function Get(id: int): Node
      requires Has(id)
    {
      nodes[id - 1]
    }
  }

  /** A key that the YAML parser refuses. */
  predicate Complex(node: Node)
  {
    node.Mapping? && exists i :: 0 <= i < |node.pairs| && node.pairs[i].key.None?
  }

  predicate Usable(format: Format, key: Option<string>)
  {
    key.Some? && (format.Json? ==> key.value != "")
  }

  /** A child of a node, with the step that leads to it. */
  datatype Branch = Branch(step: Step, id: int)

  /** The k-th child, unless its key is passed over. */
  function Child(node: Node, format: Format, k: nat): Option<Branch>
  {
    match node
    case Scalar(_) => None
    case Sequence(items) => if k < |items| then Some(Branch(Index(k), items[k])) else None
    case Mapping(pairs) =>
      if k < |pairs| && Usable(format, pairs[k].key) then Some(Branch(Key(pairs[k].key.value), pairs[k].value))
      else None
  }

  /** A node number, which may be null, with the path that led to it. */
  datatype Frame = Frame(id: int, path: string)

  function Framed(path: string, b: Branch): Frame
  {
    Frame(b.id, Join(path, b.step))
  }

  // Positions in a document are given by child numbers, so that equal keys and equal paths keep them apart.

  /** What stands at a position. */
  function FrameAt(doc: Document, format: Format, p: seq<nat>): Option<Frame>
  {
    if p == [] then Some(Frame(1, "$"))
    else
      match FrameAt(doc, format, p[..|p| - 1])
      case None => None
      case Some(f) => Down(doc, format, f, p[|p| - 1])
  }

  function Down(doc: Document, format: Format, f: Frame, k: nat): Option<Frame>
  {
    if !doc.Has(f.id) then None
    else
      match Child(doc.Get(f.id), format, k)
      case None => None
      case Some(b) => Some(Framed(f.path, b))
  }

  predicate There(doc: Document, format: Format, p: seq<nat>)
  {
    FrameAt(doc, format, p).Some? && doc.Has(FrameAt(doc, format, p).value.id)
  }

  /** Siblings, or what lies below them: YAML visits the first child first, JSON the last. */
  ghost predicate Apart(a: seq<nat>, b: seq<nat>, format: Format)
  {
    exists k :: Parting(a, b, format, k)
  }

  predicate Parting(a: seq<nat>, b: seq<nat>, format: Format, k: int)
  {
    0 <= k < |a| && k < |b| && a[..k] == b[..k] && if format.Yaml? then a[k] < b[k] else a[k] > b[k]
  }

  /** The order of the visit: parents before children. */
  ghost predicate Before(a: seq<nat>, b: seq<nat>, format: Format)
  {
    (a <= b && a != b) || Apart(a, b, format)
  }

  lemma ApartBelow(a: seq<nat>, b: seq<nat>, format: Format, c: seq<nat>, d: seq<nat>)
    requires Apart(a, b, format) && a <= c && b <= d
    ensures Apart(c, d, format)
  {
    var k :| Parting(a, b, format, k);
    assert c[..k] == a[..k] && d[..k] == b[..k] && c[k] == a[k] && d[k] == b[k];
    assert Parting(c, d, format, k);
  }

  /** No two positions are before each other. */
  lemma BeforeOnce(a: seq<nat>, b: seq<nat>, format: Format)
    requires Before(a, b, format)
    ensures a != b && !Before(b, a, format)
  {
    hide Parting;
    if Apart(a, b, format) {
      var k :| Parting(a, b, format, k);
      PartingOnce(a, b, format, k);
    }
    if Apart(b, a, format) {
      var m :| Parting(b, a, format, m);
      PartingOnce(b, a, format, m);
    }
  }

  lemma PartingOnce(a: seq<nat>, b: seq<nat>, format: Format, k: int)
    requires Parting(a, b, format, k)
    ensures !(a <= b) && !(b <= a) && !Apart(b, a, format)
  {
    assert a[k] != b[k];
    forall m: int ensures !Parting(b, a, format, m) {
      if 0 <= m < |a| && m < |b| {
        assert m < k ==> a[m] == a[..k][m] && b[m] == b[..k][m];
        assert k < m ==> a[k] == a[..m][k] && b[k] == b[..m][k];
      }
    }
  }

  /** The first position visited with a path. */
  ghost predicate First(doc: Document, format: Format, p: seq<nat>, f: Frame)
  {
    && FrameAt(doc, format, p) == Some(f) && doc.Has(f.id)
    && forall q :: There(doc, format, q) && FrameAt(doc, format, q).value.path == f.path ==>
         q == p || Before(p, q, format)
  }

  /** The node under a path: of all positions with it, the one visited first. */
  ghost predicate Found(doc: Document, format: Format, path: string, id: int)
  {
    exists p :: First(doc, format, p, Frame(id, path))
  }

  /** A path leads to at most one node. */
  lemma FoundOnce(doc: Document, format: Format, path: string, id: int, id': int)
    requires Found(doc, format, path, id) && Found(doc, format, path, id')
    ensures id == id'
  {
    hide FrameAt, Before;
    var p :| First(doc, format, p, Frame(id, path));
    var q :| First(doc, format, q, Frame(id', path));
    if p != q { BeforeOnce(p, q, format); }
  }

  /** The answer to a lookup. */
  ghost predicate Answers(doc: Document, format: Format, path: string, id: Option<int>)
  {
    match id
    case Some(n) => Found(doc, format, path, n)
    case None => forall q :: There(doc, format, q) ==> FrameAt(doc, format, q).value.path != path
  }

  /** An index that is the document. */
  ghost predicate Indexes(doc: Document, format: Format, index: map<string, int>)
  {
    forall path :: Answers(doc, format, path, Looked(index, path))
  }

  function Looked(index: map<string, int>, path: string): Option<int>
  {
    if path in index then Some(index[path]) else None
  }

  /** Documents without cycles: every node ranks above its children. */
  ghost predicate Ranked(doc: Document, format: Format, rank: seq<nat>)
  {
    |rank| == |doc.nodes| &&
    forall id, k :: doc.Has(id) && RankChild(doc, format, id, k) ==>
      rank[Child(doc.Get(id), format, k).value.id - 1] < rank[id - 1]
  }

  predicate RankChild(doc: Document, format: Format, id: int, k: nat)
    requires doc.Has(id)
  {
    Child(doc.Get(id), format, k).Some? && doc.Has(Child(doc.Get(id), format, k).value.id)
  }

  function Fan(node: Node): nat
  {
    match node
    case Scalar(_) => 0
    case Sequence(items) => |items|
    case Mapping(pairs) => |pairs|
  }

  /** What pushing a node's children must give: a frame for each, the one to be visited first on top. */
  ghost predicate Pushed(node: Node, format: Format, path: string, ext: seq<Frame>, ks: seq<nat>)
  {
    && |ext| == |ks| <= Fan(node)
    && (forall j :: 0 <= j < |ks| ==>
          Child(node, format, ks[j]).Some? && ext[j] == Framed(path, Child(node, format, ks[j]).value))
    && (forall i, j :: 0 <= i < j < |ks| ==> if format.Yaml? then ks[j] < ks[i] else ks[j] > ks[i])
    && forall k: nat :: Child(node, format, k).Some? ==> k in ks
  }

  /** The YAML parser pushes from the last child to the first, and gives up on a complex key. */
  method PushYaml(node: Node, path: string) returns (ok: bool, ext: seq<Frame>, ghost ks: seq<nat>)
    ensures ok <==> !Complex(node)
    ensures ok ==> Pushed(node, Yaml, path, ext, ks)
  {
    hide Join;
    ok, ext, ks := true, [], [];
    match node
    case Scalar(_) =>
    case Mapping(pairs) =>
      var i := |pairs|;
      while i > 0
        invariant 0 <= i <= |pairs| && |ext| == |ks| == |pairs| - i
        invariant forall j :: 0 <= j < |ks| ==> ks[j] == |pairs| - 1 - j
        invariant forall k :: i <= k < |pairs| ==> pairs[k].key.Some? && k in ks
        invariant forall j :: 0 <= j < |ks| ==> ext[j] == Framed(path, Child(node, Yaml, ks[j]).value)
      {
        i := i - 1;
        if pairs[i].key.None? { return false, ext, ks; }
        ext, ks := ext + [Frame(pairs[i].value, JoinKey(path, pairs[i].key.value))], ks + [i];
        JoinsKey(path, pairs[i].key.value);
      }
    case Sequence(items) =>
      var i := |items|;
      while i > 0
        invariant 0 <= i <= |items| && |ext| == |ks| == |items| - i
        invariant forall j :: 0 <= j < |ks| ==> ks[j] == |items| - 1 - j
        invariant forall k :: i <= k < |items| ==> k in ks
        invariant forall j :: 0 <= j < |ks| ==> ext[j] == Framed(path, Child(node, Yaml, ks[j]).value)
      {
        i := i - 1;
        ext, ks := ext + [Frame(items[i], Join(path, Index(i)))], ks + [i];
      }
  }

  lemma JoinsKey(path: string, key: string)
    ensures Join(path, Key(key)) == JoinKey(path, key)
  {
  }

  /** The same for the children below number i, pushed in document order. */
  ghost predicate PushedBelow(node: Node, path: string, i: nat, ext: seq<Frame>, ks: seq<nat>)
  {
    && |ext| == |ks| <= i
    && (forall j :: 0 <= j < |ks| ==>
          ks[j] < i && Child(node, Json, ks[j]).Some? && ext[j] == Framed(path, Child(node, Json, ks[j]).value))
    && (forall j, k :: 0 <= j < k < |ks| ==> ks[j] < ks[k])
    && forall k: nat :: k < i && Child(node, Json, k).Some? ==> k in ks
  }

  lemma OneMorePushed(node: Node, path: string, i: nat, ext: seq<Frame>, ks: seq<nat>)
    requires PushedBelow(node, path, i, ext, ks)
    ensures if Child(node, Json, i).Some?
            then PushedBelow(node, path, i + 1, ext + [Framed(path, Child(node, Json, i).value)], ks + [i])
            else PushedBelow(node, path, i + 1, ext, ks)
  {
    hide Child, Framed;
  }

  /** The JSON parser pushes in document order and passes over keys it cannot use. */
  method PushJson(node: Node, path: string) returns (ext: seq<Frame>, ghost ks: seq<nat>)
    ensures Pushed(node, Json, path, ext, ks)
  {
    ext, ks := [], [];
    match node
    case Scalar(_) =>
    case Mapping(pairs) =>
      for i := 0 to |pairs|
        invariant PushedBelow(node, path, i, ext, ks)
      {
        hide PushedBelow, Join, JoinKey;
        OneMorePushed(node, path, i, ext, ks);
        if pairs[i].key.None? || pairs[i].key.value == "" { continue; }
        JoinsKey(path, pairs[i].key.value);
        ext, ks := ext + [Frame(pairs[i].value, JoinKey(path, pairs[i].key.value))], ks + [i];
      }
    case Sequence(items) =>
      for i := 0 to |items|
        invariant PushedBelow(node, path, i, ext, ks)
      {
        hide PushedBelow, Join;
        OneMorePushed(node, path, i, ext, ks);
        ext, ks := ext + [Frame(items[i], Join(path, Index(i)))], ks + [i];
      }
  }

  // The measure of the stack: a frame outweighs all frames of its children together.

  ghost function Height(doc: Document, rank: seq<nat>, id: int): nat
    requires |rank| == |doc.nodes|
  {
    if doc.Has(id) then rank[id - 1] + 1 else 0
  }

  ghost function Load(doc: Document, rank: seq<nat>, base: nat, frames: seq<Frame>): nat
    requires |rank| == |doc.nodes|
  {
    if frames == [] then 0
    else Load(doc, rank, base, frames[..|frames| - 1]) + Pow(base, Height(doc, rank, frames[|frames| - 1].id))
  }

  lemma {:induction false} LoadAppend(doc: Document, rank: seq<nat>, base: nat, xs: seq<Frame>, ys: seq<Frame>)
    requires |rank| == |doc.nodes|
    ensures Load(doc, rank, base, xs + ys) == Load(doc, rank, base, xs) + Load(doc, rank, base, ys)
    decreases |ys|
  {
    hide Pow, Height;
    if ys == [] {
      assert xs + ys == xs;
    } else {
      LoadAppend(doc, rank, base, xs, ys[..|ys| - 1]);
      assert (xs + ys)[..|xs + ys| - 1] == xs + ys[..|ys| - 1];
    }
  }

  lemma {:induction false} LoadBound(doc: Document, rank: seq<nat>, base: nat, xs: seq<Frame>, h: nat)
    requires |rank| == |doc.nodes| && base >= 1 && forall x :: x in xs ==> Height(doc, rank, x.id) <= h
    ensures Load(doc, rank, base, xs) <= Product(|xs|, Pow(base, h))
    decreases |xs|
  {
    hide Pow, Height;
    if xs != [] {
      var n := |xs| - 1;
      LoadBound(doc, rank, base, xs[..n], h);
      PowMonotone(base, Height(doc, rank, xs[n].id), h);
      MulDistributes(n, 1, Pow(base, h));
    }
  }

  ghost predicate Fans(doc: Document, fan: nat)
  {
    forall id :: doc.Has(id) ==> Fan(doc.Get(id)) <= fan
  }

  lemma {:induction false} FanExists(nodes: seq<Node>) returns (fan: nat)
    ensures forall i :: 0 <= i < |nodes| ==> Fan(nodes[i]) <= fan
  {
    if nodes == [] {
      fan := 0;
    } else {
      fan := FanExists(nodes[1..]);
      assert forall i :: 1 <= i < |nodes| ==> nodes[i] == nodes[1..][i - 1];
      if Fan(nodes[0]) > fan { fan := Fan(nodes[0]); }
    }
  }

  /** Replacing a frame by its children makes the stack lighter. */
  lemma PushLighter(doc: Document, format: Format, rank: seq<nat>, fan: nat, f: Frame, ext: seq<Frame>, ks: seq<nat>)
    requires Ranked(doc, format, rank) && Fans(doc, fan) && doc.Has(f.id)
    requires Pushed(doc.Get(f.id), format, f.path, ext, ks)
    ensures Load(doc, rank, fan + 1, ext) < Pow(fan + 1, Height(doc, rank, f.id))
  {
    hide Pow, Join, Load, Child;
    var h := rank[f.id - 1];
    forall x | x in ext ensures Height(doc, rank, x.id) <= h {
      var j :| 0 <= j < |ext| && ext[j] == x;
      assert doc.Has(x.id) ==> RankChild(doc, format, f.id, ks[j]);
    }
    LoadBound(doc, rank, fan + 1, ext, h);
    MulLe(|ext|, fan, Pow(fan + 1, h));
    MulDistributes(fan, 1, Pow(fan + 1, h));
    PowNext(fan + 1, h);
  }

  lemma PowNext(b: nat, h: nat)
    ensures Pow(b, h + 1) == b * Pow(b, h)
  {
  }

  lemma StackLighter(doc: Document, format: Format, rank: seq<nat>, fan: nat, frames: seq<Frame>, f: Frame,
                     ext: seq<Frame>, ks: seq<nat>)
    requires Ranked(doc, format, rank) && Fans(doc, fan) && doc.Has(f.id)
    requires Pushed(doc.Get(f.id), format, f.path, ext, ks)
    ensures Load(doc, rank, fan + 1, frames + ext) < Load(doc, rank, fan + 1, frames + [f])
  {
    hide Pow, Pushed, Height, Fans;
    PushLighter(doc, format, rank, fan, f, ext, ks);
    LoadAppend(doc, rank, fan + 1, frames, ext);
    LoadOne(doc, rank, fan + 1, frames, f);
  }

  lemma LoadOne(doc: Document, rank: seq<nat>, base: nat, frames: seq<Frame>, f: Frame)
    requires |rank| == |doc.nodes| && base > 0
    ensures Load(doc, rank, base, frames + [f]) == Load(doc, rank, base, frames) + Pow(base, Height(doc, rank, f.id))
    ensures Load(doc, rank, base, frames) < Load(doc, rank, base, frames + [f])
  {
    assert (frames + [f])[..|frames|] == frames;
  }

  // What the loop keeps.

  /** Where the frames stand, the next to be visited on top. */
  ghost predicate Standing(doc: Document, format: Format, frames: seq<Frame>, stand: seq<seq<nat>>)
  {
    && |frames| == |stand|
    && (forall j :: 0 <= j < |stand| ==> FrameAt(doc, format, stand[j]) == Some(frames[j]))
    && forall i, j :: 0 <= i < j < |stand| ==> Apart(stand[j], stand[i], format)
  }

  ghost predicate Sound(doc: Document, format: Format, index: map<string, int>)
  {
    forall path :: path in index ==> Found(doc, format, path, index[path])
  }

  ghost predicate Done(doc: Document, format: Format, p: seq<nat>, index: map<string, int>)
    requires There(doc, format, p)
  {
    var f := FrameAt(doc, format, p).value;
    f.path in index && (format.Yaml? ==> !Complex(doc.Get(f.id)))
  }

  ghost predicate Waiting(p: seq<nat>, stand: seq<seq<nat>>)
  {
    exists j :: 0 <= j < |stand| && stand[j] <= p
  }

  /** Every position is in the index or below a frame. */
  ghost predicate Complete(doc: Document, format: Format, stand: seq<seq<nat>>, index: map<string, int>)
  {
    forall p :: There(doc, format, p) ==> Done(doc, format, p, index) || Waiting(p, stand)
  }

  lemma {:induction false} TherePrefix(doc: Document, format: Format, p: seq<nat>, s: seq<nat>)
    requires s <= p && There(doc, format, p)
    ensures There(doc, format, s)
    decreases |p|
  {
    hide Child;
    if |s| < |p| {
      TherePrefix(doc, format, p[..|p| - 1], s);
    } else {
      assert s == p;
    }
  }

  lemma FrameBelow(doc: Document, format: Format, s: seq<nat>, k: nat)
    requires FrameAt(doc, format, s).Some?
    ensures FrameAt(doc, format, s + [k]) == Down(doc, format, FrameAt(doc, format, s).value, k)
  {
    assert (s + [k])[..|s|] == s;
  }

  /** A null node has nothing below it. */
  lemma NullPopped(doc: Document, format: Format, f: Frame, s: seq<nat>, stand: seq<seq<nat>>, index: map<string, int>)
    requires FrameAt(doc, format, s) == Some(f) && !doc.Has(f.id) && Complete(doc, format, stand + [s], index)
    ensures Complete(doc, format, stand, index)
  {
    hide FrameAt, Done;
    forall p | There(doc, format, p) ensures Done(doc, format, p, index) || Waiting(p, stand) {
      if !Done(doc, format, p, index) {
        var j :| 0 <= j < |stand + [s]| && (stand + [s])[j] <= p;
        TherePrefix(doc, format, p, (stand + [s])[j]);
        assert j < |stand| && stand[j] <= p;
      }
    }
  }

  /** What is taken off the stack is visited before everything that waits. */
  lemma TopFirst(doc: Document, format: Format, frames: seq<Frame>, s: seq<nat>, stand: seq<seq<nat>>, q: seq<nat>)
    requires Standing(doc, format, frames, stand + [s]) && Waiting(q, stand + [s])
    ensures q == s || Before(s, q, format)
  {
    hide FrameAt, Apart;
    var all := stand + [s];
    var j :| 0 <= j < |all| && all[j] <= q;
    if j < |stand| {
      assert Apart(all[|stand|], all[j], format);
      ApartBelow(s, all[j], format, s, q);
    }
  }

  /** A path that is new in the index is found at the frame that enters it. */
  lemma EnterSound(doc: Document, format: Format, frames: seq<Frame>, f: Frame, s: seq<nat>, stand: seq<seq<nat>>,
                   index: map<string, int>)
    requires Standing(doc, format, frames, stand + [s]) && FrameAt(doc, format, s) == Some(f) && doc.Has(f.id)
    requires Complete(doc, format, stand + [s], index) && Sound(doc, format, index) && f.path !in index
    ensures Sound(doc, format, index[f.path := f.id])
  {
    hide FrameAt, Before, Standing, Waiting;
    forall q | There(doc, format, q) && FrameAt(doc, format, q).value.path == f.path
      ensures q == s || Before(s, q, format)
    {
      assert !Done(doc, format, q, index);
      TopFirst(doc, format, frames, s, stand, q);
    }
    assert First(doc, format, s, Frame(f.id, f.path));
  }

  /** Where the frames of the children stand. */
  ghost function Below(s: seq<nat>, ks: seq<nat>): (r: seq<seq<nat>>)
    ensures |r| == |ks| && forall j :: 0 <= j < |ks| ==> r[j] == s + [ks[j]]
  {
    seq(|ks|, j requires 0 <= j < |ks| => s + [ks[j]])
  }

  /** A position below a node that is not the node itself lies below one of its children. */
  lemma BelowChild(doc: Document, format: Format, f: Frame, s: seq<nat>, ext: seq<Frame>, ks: seq<nat>, p: seq<nat>)
    requires FrameAt(doc, format, s) == Some(f) && doc.Has(f.id)
    requires Pushed(doc.Get(f.id), format, f.path, ext, ks)
    requires There(doc, format, p) && s <= p && p != s
    ensures Waiting(p, Below(s, ks))
  {
    hide FrameAt, Child, Framed;
    var k := p[|s|];
    assert s + [k] <= p;
    TherePrefix(doc, format, p, s + [k]);
    FrameBelow(doc, format, s, k);
    assert k in ks;
    var j :| 0 <= j < |ks| && ks[j] == k;
    assert Below(s, ks)[j] == s + [k];
  }

  lemma NodePopped(doc: Document, format: Format, f: Frame, s: seq<nat>, stand: seq<seq<nat>>, ext: seq<Frame>,
                   ks: seq<nat>, index: map<string, int>, index': map<string, int>)
    requires FrameAt(doc, format, s) == Some(f) && doc.Has(f.id) && Complete(doc, format, stand + [s], index)
    requires Pushed(doc.Get(f.id), format, f.path, ext, ks)
    requires format.Yaml? ==> !Complex(doc.Get(f.id))
    requires f.path in index' && index.Keys <= index'.Keys
    ensures Complete(doc, format, stand + Below(s, ks), index')
  {
    hide FrameAt, Pushed, Complex;
    var now := stand + Below(s, ks);
    forall p | There(doc, format, p) ensures Done(doc, format, p, index') || Waiting(p, now) {
      if !Done(doc, format, p, index) && p != s {
        var j :| 0 <= j < |stand + [s]| && (stand + [s])[j] <= p;
        if j < |stand| {
          assert now[j] == stand[j];
        } else {
          BelowChild(doc, format, f, s, ext, ks, p);
          var k :| 0 <= k < |Below(s, ks)| && Below(s, ks)[k] <= p;
          assert now[|stand| + k] == Below(s, ks)[k];
        }
      }
    }
  }

  /** The children take their parent's place on the stack, in order. */
  lemma ChildrenStand(doc: Document, format: Format, f: Frame, s: seq<nat>, ext: seq<Frame>, ks: seq<nat>,
                      frames: seq<Frame>, stand: seq<seq<nat>>)
    requires Standing(doc, format, frames + [f], stand + [s]) && doc.Has(f.id) && |frames| == |stand|
    requires Pushed(doc.Get(f.id), format, f.path, ext, ks)
    ensures Standing(doc, format, frames + ext, stand + Below(s, ks))
  {
    hide FrameAt, Child, Framed, Apart;
    var now, all := stand + Below(s, ks), stand + [s];
    assert FrameAt(doc, format, all[|stand|]) == Some((frames + [f])[|stand|]);
    forall j | 0 <= j < |now| ensures FrameAt(doc, format, now[j]) == Some((frames + ext)[j]) {
      if j < |stand| {
        assert now[j] == all[j] && (frames + ext)[j] == (frames + [f])[j];
      } else {
        FrameBelow(doc, format, s, ks[j - |stand|]);
      }
    }
    forall i, j | 0 <= i < j < |now| ensures Apart(now[j], now[i], format) {
      if j < |stand| {
        assert now[j] == all[j] && now[i] == all[i];
      } else if i < |stand| {
        assert Apart(all[|stand|], all[i], format);
        ApartBelow(s, stand[i], format, now[j], now[i]);
      } else {
        SiblingsApart(s, ks[j - |stand|], ks[i - |stand|], format);
      }
    }
  }

  lemma SiblingsApart(s: seq<nat>, a: nat, b: nat, format: Format)
    requires if format.Yaml? then a < b else a > b
    ensures Apart(s + [a], s + [b], format)
  {
    assert (s + [a])[..|s|] == s == (s + [b])[..|s|];
    assert Parting(s + [a], s + [b], format, |s|);
  }

  ghost predicate Tokenized(index: map<string, int>, tokens: map<string, seq<string>>)
  {
    tokens.Keys == index.Keys && forall path :: path in tokens ==> tokens[path] == Tokens(path)
  }

  /** A position the YAML parser refuses. */
  ghost predicate Refused(doc: Document, format: Format, p: seq<nat>)
  {
    There(doc, format, p) && Complex(doc.Get(FrameAt(doc, format, p).value.id))
  }

  datatype Code = Good | Unsupported | ParseError

  lemma NothingThere(doc: Document, format: Format)
    requires !doc.Has(1)
    ensures Indexes(doc, format, map[]) && forall p :: !Refused(doc, format, p)
  {
    forall p ensures !There(doc, format, p) {
      if There(doc, format, p) { TherePrefix(doc, format, p, []); }
    }
  }

  lemma RootFrame(doc: Document, format: Format)
    ensures Standing(doc, format, [Frame(1, "$")], [[]])
    ensures Sound(doc, format, map[]) && Complete(doc, format, [[]], map[])
  {
    forall p: seq<nat> ensures Waiting(p, [[]]) {
      assert [[]][0] <= p;
    }
  }

  /** `emplace` into both maps: an entry that is there stays. */
  method Enter(f: Frame, index: map<string, int>, tokens: map<string, seq<string>>)
    returns (index': map<string, int>, tokens': map<string, seq<string>>)
    requires Tokenized(index, tokens) && f.path != ""
    ensures index' == (if f.path in index then index else index[f.path := f.id]) && Tokenized(index', tokens')
  {
    hide Tokens;
    index', tokens' := index, tokens;
    var t := TokenizePath(f.path);
    if f.path !in index { index' := index[f.path := f.id]; }
    if f.path !in tokens { tokens' := tokens[f.path := t]; }
  }

  method PushChildren(doc: Document, format: Format, f: Frame)
    returns (ok: bool, ext: seq<Frame>, ghost ks: seq<nat>)
    requires doc.Has(f.id)
    ensures ok <==> !(format.Yaml? && Complex(doc.Get(f.id)))
    ensures ok ==> Pushed(doc.Get(f.id), format, f.path, ext, ks)
  {
    if format.Yaml? {
      ok, ext, ks := PushYaml(doc.Get(f.id), f.path);
    } else {
      ext, ks := PushJson(doc.Get(f.id), f.path);
      ok := true;
    }
  }

  lemma {:induction false} PathNonempty(doc: Document, format: Format, s: seq<nat>)
    requires FrameAt(doc, format, s).Some?
    ensures FrameAt(doc, format, s).value.path != ""
  {
    hide Child;
    if s != [] { PathNonempty(doc, format, s[..|s| - 1]); }
  }

  lemma NothingWaits(doc: Document, format: Format, index: map<string, int>)
    requires Sound(doc, format, index) && Complete(doc, format, [], index)
    ensures Indexes(doc, format, index) && (format.Yaml? ==> forall p :: !Refused(doc, format, p))
  {
    hide FrameAt, Complex, Found;
  }

  /** What the loop keeps. */
  ghost predicate Kept(doc: Document, format: Format, frames: seq<Frame>, stand: seq<seq<nat>>,
                       index: map<string, int>, tokens: map<string, seq<string>>)
  {
    Standing(doc, format, frames, stand) && Sound(doc, format, index) &&
    Complete(doc, format, stand, index) && Tokenized(index, tokens)
  }

  lemma LastFrame(doc: Document, format: Format, frames: seq<Frame>, stand: seq<seq<nat>>)
    requires Standing(doc, format, frames, stand) && frames != []
    ensures var n := |frames| - 1;
            && |stand| == n + 1 && FrameAt(doc, format, stand[n]) == Some(frames[n]) && frames[n].path != ""
            && Standing(doc, format, frames[..n], stand[..n])
            && frames == frames[..n] + [frames[n]] && stand == stand[..n] + [stand[n]]
  {
    hide FrameAt, Apart;
    PathNonempty(doc, format, stand[|frames| - 1]);
  }

  /** One round of the loop: a frame is taken off the stack, entered, and replaced by its children. */
  method Round(doc: Document, format: Format, ghost rank: seq<nat>, ghost fan: nat, frames: seq<Frame>,
               ghost stand: seq<seq<nat>>, index: map<string, int>, tokens: map<string, seq<string>>)
    returns (ok: bool, frames': seq<Frame>, ghost stand': seq<seq<nat>>, index': map<string, int>,
             tokens': map<string, seq<string>>)
    requires Ranked(doc, format, rank) && Fans(doc, fan) && |rank| == |doc.nodes|
    requires frames != [] && Kept(doc, format, frames, stand, index, tokens)
    ensures ok ==> Kept(doc, format, frames', stand', index', tokens')
    ensures ok ==> Load(doc, rank, fan + 1, frames') < Load(doc, rank, fan + 1, frames)
    ensures !ok ==> format.Yaml? && exists p :: Refused(doc, format, p)
  {
    hide Ranked, Fans, Load, Standing, FrameAt, Sound, Complete, Complex, Tokenized, Pushed;
    LastFrame(doc, format, frames, stand);
    var n := |frames| - 1;
    var current := frames[n];
    ghost var s := stand[n];
    LoadOne(doc, rank, fan + 1, frames[..n], current);
    ok, frames', stand', index', tokens' := true, frames[..n], stand[..n], index, tokens;
    if !doc.Has(current.id) {
      NullPopped(doc, format, current, s, stand', index);
      return;
    }
    if current.path !in index { EnterSound(doc, format, frames, current, s, stand', index); }
    index', tokens' := Enter(current, index, tokens);
    var ext; ghost var ks;
    ok, ext, ks := PushChildren(doc, format, current);
    if !ok {
      assert Refused(doc, format, s);
      return;
    }
    NodePopped(doc, format, current, s, stand', ext, ks, index, index');
    ChildrenStand(doc, format, current, s, ext, ks, frames', stand');
    StackLighter(doc, format, rank, fan, frames', current, ext, ks);
    frames', stand' := frames' + ext, stand' + Below(s, ks);
  }

  /** `buildMap`, with the rank of the nodes as the evidence that the document has no cycle. */
  method BuildMap(doc: Document, format: Format, ghost rank: seq<nat>)
    returns (code: Code, index: map<string, int>, tokens: map<string, seq<string>>)
    requires Ranked(doc, format, rank)
    ensures code == Good ==> Indexes(doc, format, index) && Tokenized(index, tokens)
    ensures code == Unsupported <==> format.Yaml? && exists p :: Refused(doc, format, p)
    ensures code == ParseError <==> format.Json? && !doc.Has(1)
  {
    assert |rank| == |doc.nodes|;
    hide Ranked, Load, Standing, Sound, Complete, Refused, Indexes;
    code, index, tokens := Good, map[], map[];
    if !doc.Has(1) {
      NothingThere(doc, format);
      return if format.Json? then ParseError else Good, index, tokens;
    }
    ghost var fan := FanExists(doc.nodes);
    assert Fans(doc, fan);
    var frames := [Frame(1, "$")];
    ghost var stand: seq<seq<nat>> := [[]];
    RootFrame(doc, format);
    while frames != []
      invariant Kept(doc, format, frames, stand, index, tokens)
      decreases Load(doc, rank, fan + 1, frames)
    {
      var ok;
      ok, frames, stand, index, tokens := Round(doc, format, rank, fan, frames, stand, index, tokens);
      if !ok { return Unsupported, map[], tokens; }
    }
    assert stand == [] by { NoneStand(doc, format, stand); }
    NothingWaits(doc, format, index);
  }

  lemma NoneStand(doc: Document, format: Format, stand: seq<seq<nat>>)
    requires Standing(doc, format, [], stand)
    ensures stand == []
  {
  }
}
