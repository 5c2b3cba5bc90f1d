/** The intrusive circular list (kcp/3rd_party/list.h). A ring is a sequence of distinct nodes in which
    `next` and `prev` lead from each node to its neighbour and from the last to the first; a list is a
    ring that starts with its head. The sequences are ghost parameters: the nodes carry only links. */
module RingList {

  class Node {
    var next: Node?
    var prev: Node?

    constructor ()
      ensures next == null && prev == null
    {
      next, prev := null, null;
    }
  }

  ghost predicate Linked(a: Node, b: Node)
    reads a, b
  {
    a.next == b && b.prev == a
  }

  ghost predicate Distinct(xs: seq<Node>)
  {
    forall i, j :: 0 <= i < j < |xs| ==> xs[i] != xs[j]
  }

  /** The links inside a stretch of nodes. */
  ghost predicate Chain(xs: seq<Node>)
    reads xs
  {
    forall i :: 0 <= i < |xs| - 1 ==> Linked(xs[i], xs[i + 1])
  }

  ghost predicate Ring(xs: seq<Node>)
    reads xs
  {
    xs != [] && Distinct(xs) && Chain(xs) && Linked(xs[|xs| - 1], xs[0])
  }

  /** The list of a head. */
  ghost predicate IsList(head: Node, items: seq<Node>)
    reads [head] + items
  {
    Ring([head] + items)
  }

  lemma ChainAppend(xs: seq<Node>, ys: seq<Node>)
    requires xs != [] && ys != []
    ensures Chain(xs + ys) <==> Chain(xs) && Chain(ys) && Linked(xs[|xs| - 1], ys[0])
  {
    var zs, n := xs + ys, |xs|;
    assert forall i :: 0 <= i < n ==> zs[i] == xs[i];
    assert forall i :: 0 <= i < |ys| ==> zs[n + i] == ys[i];
    if Chain(zs) {
      assert Linked(zs[n - 1], zs[n - 1 + 1]);
      forall i | 0 <= i < |ys| - 1 ensures Linked(ys[i], ys[i + 1]) {
        assert Linked(zs[n + i], zs[n + i + 1]);
      }
    }
  }

  ghost predicate Disjoint(xs: seq<Node>, ys: seq<Node>)
  {
    forall i, j :: 0 <= i < |xs| && 0 <= j < |ys| ==> xs[i] != ys[j]
  }

  lemma DistinctAppend(xs: seq<Node>, ys: seq<Node>)
    ensures Distinct(xs + ys) <==> Distinct(xs) && Distinct(ys) && Disjoint(xs, ys)
  {
    var zs, n := xs + ys, |xs|;
    if Distinct(zs) {
      forall i, j | 0 <= i < j < |xs| ensures xs[i] != xs[j] { assert zs[i] != zs[j]; }
      forall i, j | 0 <= i < j < |ys| ensures ys[i] != ys[j] { assert zs[n + i] != zs[n + j]; }
      forall i, j | 0 <= i < |xs| && 0 <= j < |ys| ensures xs[i] != ys[j] { assert zs[i] != zs[n + j]; }
    }
    if Distinct(xs) && Distinct(ys) && Disjoint(xs, ys) {
      forall i, j | 0 <= i < j < |zs| ensures zs[i] != zs[j] {
        if i >= n { assert zs[i] == ys[i - n] && zs[j] == ys[j - n]; }
        else if j >= n { assert zs[j] == ys[j - n]; }
      }
    }
  }

  /** A ring may be read from any of its nodes on. */
  lemma Rotated(xs: seq<Node>, ys: seq<Node>)
    requires Ring(xs + ys)
    ensures Ring(ys + xs)
  {
    hide Chain, Distinct;
    if xs == [] || ys == [] {
      assert xs + ys == ys + xs;
    } else {
      ChainAppend(xs, ys);
      ChainAppend(ys, xs);
      DistinctAppend(xs, ys);
      DistinctAppend(ys, xs);
    }
  }

  /** Links inside a stretch do not depend on the fields at its two ends that lead out of it. */
  twostate lemma ChainKept(xs: seq<Node>)
    requires old(Chain(xs))
    requires forall i :: 0 <= i < |xs| - 1 ==> xs[i].next == old(xs[i].next)
    requires forall i :: 1 <= i < |xs| ==> xs[i].prev == old(xs[i].prev)
    ensures Chain(xs)
  {
    forall i | 0 <= i < |xs| - 1 ensures Linked(xs[i], xs[i + 1]) {
      assert old(Linked(xs[i], xs[i + 1]));
    }
  }

  /** `list_init`. */
  method ListInit(list: Node)
    modifies list
    ensures IsList(list, [])
  {
    list.next := list;
    list.prev := list;
  }

  /** `__list_add`: a node between the last and the first of a ring. */
  method AddBetween(n: Node, prev: Node, next: Node, ghost xs: seq<Node>)
    requires Ring(xs) && xs[|xs| - 1] == prev && xs[0] == next && n !in xs
    modifies n, prev, next
    ensures Ring(xs + [n])
  {
    hide Chain;
    next.prev := n;
    n.next := next;
    n.prev := prev;
    prev.next := n;
    ChainKept(xs);
    ChainAppend(xs, [n]);
    assert Chain([n]) by { OneLink(n); }
    DistinctAppend(xs, [n]);
  }

  lemma OneLink(n: Node)
    ensures Chain([n])
  {
  }

  /** `list_add`. */
  method ListAdd(n: Node, head: Node, ghost items: seq<Node>)
    requires IsList(head, items) && n != head && n !in items
    modifies n, head, head.next
    ensures IsList(head, [n] + items)
  {
    hide Ring;
    Rotated([head], items);
    EndsOf(items + [head]);
    FirstOf(head, items);
    AddBetween(n, head, head.next, items + [head]);
    assert (items + [head]) + [n] == items + [head, n];
    Rotated(items, [head, n]);
    assert [head, n] + items == [head] + ([n] + items);
  }

  lemma EndsOf(xs: seq<Node>)
    requires Ring(xs)
    ensures xs != [] && xs[|xs| - 1].next == xs[0] && xs[0].prev == xs[|xs| - 1]
  {
  }

  /** What the head's links show of a list. */
  lemma FirstOf(head: Node, items: seq<Node>)
    requires IsList(head, items)
    ensures head.next == (if items == [] then head else items[0])
    ensures head.prev == (if items == [] then head else items[|items| - 1])
    ensures head !in items
  {
    var xs := [head] + items;
    if items != [] { assert Linked(xs[0], xs[0 + 1]); }
    assert forall i :: 0 <= i < |items| ==> xs[i + 1] == items[i] && xs[0] != xs[i + 1];
  }

  /** `list_add_tail`. */
  method ListAddTail(n: Node, head: Node, ghost items: seq<Node>)
    requires IsList(head, items) && n != head && n !in items
    modifies n, head, head.prev
    ensures IsList(head, items + [n])
  {
    hide Ring;
    FirstOf(head, items);
    AddBetween(n, head.prev, head, [head] + items);
    assert ([head] + items) + [n] == [head] + (items + [n]);
  }

  /** `__list_del` and `list_del`: the last node of a ring, read from any place. A node alone in its ring
      stays a ring of its own. The node's own links are left as they are. */
  method ListDel(entry: Node, ghost xs: seq<Node>)
    requires Ring(xs + [entry]) && entry.prev != null && entry.next != null
    modifies entry.prev`next, entry.next`prev
    ensures old(entry.prev).next == old(entry.next) && old(entry.next).prev == old(entry.prev)
    ensures xs != [] ==> Ring(xs) && entry.next == old(entry.next) && entry.prev == old(entry.prev)
    ensures xs == [] ==> Ring([entry])
  {
    hide Chain;
    Neighbours(entry, xs);
    var prev, next := entry.prev, entry.next;
    next.prev := prev;
    prev.next := next;
    if xs != [] { ChainKept(xs); }
    assert Chain([entry]) by { OneLink(entry); }
  }

  /** The links of a node in its ring. */
  lemma Neighbours(entry: Node, xs: seq<Node>)
    requires Ring(xs + [entry])
    ensures xs == [] ==> entry.next == entry == entry.prev
    ensures xs != [] ==> entry.next == xs[0] && entry.prev == xs[|xs| - 1] && Distinct(xs) && Chain(xs) && entry !in xs
  {
    if xs != [] {
      ChainAppend(xs, [entry]);
      DistinctAppend(xs, [entry]);
      assert entry == [entry][0];
    } else {
      assert xs + [entry] == [entry];
    }
  }

  /** `list_del_init`. */
  method ListDelInit(entry: Node, ghost xs: seq<Node>)
    requires Ring(xs + [entry])
    modifies entry, entry.prev, entry.next
    ensures IsList(entry, []) && (xs != [] ==> Ring(xs))
  {
    hide Ring;
    Neighbours(entry, xs);
    ListDel(entry, xs);
    ListInit(entry);
  }

  /** `list_replace`: the new node takes the old one's place, also when the old one was alone or is the
      same node. */
  method ListReplace(older: Node, n: Node, ghost xs: seq<Node>)
    requires Ring(xs + [older]) && n !in xs
    modifies n, older.prev, older.next
    ensures Ring(xs + [n])
  {
    hide Chain;
    Neighbours(older, xs);
    n.next := older.next;
    n.next.prev := n;
    n.prev := older.prev;
    n.prev.next := n;
    assert Chain([n]) by { OneLink(n); }
    if xs != [] {
      ChainKept(xs);
      ChainAppend(xs, [n]);
    } else {
      assert xs + [n] == [n];
    }
    DistinctAppend(xs, [n]);
  }

  /** `list_replace_init`. A node that replaces itself is cut off from its ring. */
  method ListReplaceInit(older: Node, n: Node, ghost xs: seq<Node>)
    requires Ring(xs + [older]) && n !in xs
    modifies n, older, older.prev, older.next
    ensures IsList(older, []) && (n != older ==> Ring(xs + [n]))
  {
    hide Ring;
    assert xs != [] ==> older !in xs by { Neighbours(older, xs); }
    ListReplace(older, n, xs);
    ListInit(older);
  }

  /** The same ring, read from another node on. */
  ghost predicate Rotation(xs: seq<Node>, ys: seq<Node>)
  {
    exists k :: 0 <= k <= |xs| && ys == xs[k..] + xs[..k]
  }

  lemma RotationRing(xs: seq<Node>, ys: seq<Node>)
    requires Ring(xs) && Rotation(xs, ys)
    ensures Ring(ys)
  {
    hide Ring;
    var k :| 0 <= k <= |xs| && ys == xs[k..] + xs[..k];
    assert xs == xs[..k] + xs[k..];
    Rotated(xs[..k], xs[k..]);
  }

  /** An item in its list, as the last node of the ring. */
  lemma ItemLast(head: Node, before: seq<Node>, item: Node, after: seq<Node>)
    requires IsList(head, before + [item] + after)
    ensures Ring((after + [head] + before) + [item])
    ensures Rotation(after + [head] + before, [head] + (before + after))
  {
    hide Ring;
    var front := [head] + before + [item];
    assert [head] + (before + [item] + after) == front + after;
    Rotated(front, after);
    assert after + front == (after + [head] + before) + [item];
    var rest := after + [head] + before;
    assert rest[|after|..] + rest[..|after|] == [head] + (before + after);
  }

  /** `__list_del_entry` as a step of the moves: the list of the head, which is the rest of the entry's
      ring or lies apart from it, is then without the entry. */
  method TakeOut(entry: Node, head: Node, ghost rest: seq<Node>, ghost items: seq<Node>)
    requires Ring(rest + [entry]) && entry != head && entry.prev != null && entry.next != null
    requires Rotation(rest, [head] + items) || (IsList(head, items) && Disjoint([head] + items, rest + [entry]))
    modifies entry.prev`next, entry.next`prev
    ensures IsList(head, items) && entry !in items
    ensures rest != [] ==> Ring(rest)
    ensures head.next == (if old(entry.prev) == head then old(entry.next) else old(head.next))
    ensures head.prev == (if old(entry.next) == head then old(entry.prev) else old(head.prev))
  {
    hide Ring;
    Neighbours(entry, rest);
    Apart(entry, head, rest, items);
    ghost var xs := [head] + items;
    if Disjoint(xs, rest + [entry]) {
      Outside(xs, rest + [entry], entry.prev);
      Outside(xs, rest + [entry], entry.next);
    }
    ListDel(entry, rest);
    if Rotation(rest, xs) { RotationRing(rest, xs); }
  }

  lemma Outside(xs: seq<Node>, ys: seq<Node>, y: Node)
    requires Disjoint(xs, ys) && y in ys
    ensures y !in xs
  {
  }

  lemma Apart(entry: Node, head: Node, rest: seq<Node>, items: seq<Node>)
    requires Ring(rest + [entry]) && entry != head
    requires Rotation(rest, [head] + items) || Disjoint([head] + items, rest + [entry])
    ensures entry !in items
  {
    Neighbours(entry, rest);
    var xs := [head] + items;
    if Rotation(rest, xs) {
      var k :| 0 <= k <= |rest| && xs == rest[k..] + rest[..k];
      assert forall x :: x in xs ==> x in rest;
      assert forall x :: x in items ==> x in xs;
    } else {
      assert (rest + [entry])[|rest|] == entry;
      assert forall i :: 0 <= i < |items| ==> items[i] == xs[i + 1];
    }
  }

  /** `__list_add` behind the node itself: its links then lead nowhere else. */
  method AddBehindItself(n: Node, next: Node)
    modifies n, next`prev
    ensures n.next == n == n.prev
  {
    next.prev := n;
    n.next := next;
    n.prev := n;
    n.next := n;
  }

  /** `list_move`: to the front of a list, from within it or from another ring. A node moved to itself is
      cut off from its ring. */
  method ListMove(list: Node, head: Node, ghost rest: seq<Node>, ghost items: seq<Node>)
    requires Ring(rest + [list])
    requires || list == head || Rotation(rest, [head] + items)
             || (IsList(head, items) && Disjoint([head] + items, rest + [list]))
    modifies list, list.prev, list.next, head, head.next
    ensures IsList(head, if list == head then [] else [list] + items)
    ensures list != head && rest != [] && Disjoint([head] + items, rest + [list]) ==> Ring(rest)
  {
    hide Ring;
    Neighbours(list, rest);
    if list == head {
      ListDel(list, rest);
      AddBehindItself(list, list.next);
      Alone(list);
    } else {
      TakeOut(list, head, rest, items);
      KeepsApart(head, items, rest, list);
      ListAdd(list, head, items);
    }
  }

  /** A ring apart from a list is apart from what the list's head leads to. */
  lemma KeepsApart(head: Node, items: seq<Node>, rest: seq<Node>, list: Node)
    requires IsList(head, items)
    ensures Disjoint([head] + items, rest + [list]) ==> head !in rest && head.next !in rest && head.prev !in rest
  {
    FirstOf(head, items);
    var xs, ys := [head] + items, rest + [list];
    assert head.next in xs && head.prev in xs;
    assert forall y :: y in rest ==> y in ys;
  }

  /** `list_move_tail`. A node moved to itself leaves its ring in order. */
  method ListMoveTail(list: Node, head: Node, ghost rest: seq<Node>, ghost items: seq<Node>)
    requires Ring(rest + [list])
    requires || list == head || Rotation(rest, [head] + items)
             || (IsList(head, items) && Disjoint([head] + items, rest + [list]))
    modifies list, list.prev, list.next, head, head.prev
    ensures IsList(head, if list == head then [] else items + [list])
    ensures rest != [] && (list == head || Disjoint([head] + items, rest + [list])) ==> Ring(rest)
  {
    hide Ring;
    Neighbours(list, rest);
    if list == head {
      ListDel(list, rest);
      ListInit(list);
      AddBehindItself(list, list);
      Alone(list);
    } else {
      TakeOut(list, head, rest, items);
      KeepsApart(head, items, rest, list);
      ListInit(list);
      ListAddTail(list, head, items);
    }
  }

  /** `list_empty`. */
  method ListEmpty(head: Node, ghost items: seq<Node>) returns (empty: bool)
    requires IsList(head, items)
    ensures empty <==> items == []
  {
    FirstOf(head, items);
    empty := head.next == head;
  }

  /** `list_empty_careful`. */
  method ListEmptyCareful(head: Node, ghost items: seq<Node>) returns (empty: bool)
    requires IsList(head, items)
    ensures empty <==> items == []
  {
    FirstOf(head, items);
    var next := head.next;
    empty := next == head && next == head.prev;
  }

  /** `list_is_last`. */
  method ListIsLast(list: Node, head: Node, ghost items: seq<Node>) returns (last: bool)
    requires IsList(head, items) && list in items
    ensures last <==> list == items[|items| - 1]
  {
    last := list.next == head;
    LastItem(list, head, items);
  }

  lemma LastItem(list: Node, head: Node, items: seq<Node>)
    requires IsList(head, items) && list in items
    ensures list.next == head <==> list == items[|items| - 1]
  {
    FirstOf(head, items);
    var xs := [head] + items;
    var i :| 0 <= i < |items| && items[i] == list;
    assert xs[i + 1] == list;
    if i < |items| - 1 {
      assert Linked(xs[i + 1], xs[i + 1 + 1]);
      assert items[i + 1] in items;
      assert xs[i + 1] != xs[|items|];
    }
  }

  /** `list_is_singular`. */
  method ListIsSingular(head: Node, ghost items: seq<Node>) returns (singular: bool)
    requires IsList(head, items)
    ensures singular <==> |items| == 1
  {
    FirstOf(head, items);
    assert |items| > 1 ==> items[0] != items[|items| - 1] by { DistinctAppend([head], items); }
    singular := head.next != head && head.next == head.prev;
  }

  /** `list_rotate_left`. */
  method ListRotateLeft(head: Node, ghost items: seq<Node>)
    requires IsList(head, items) && head.next != null
    modifies head, head.next, head.next.next, head.prev
    ensures IsList(head, if items == [] then [] else items[1..] + [items[0]])
  {
    hide Ring;
    FirstOf(head, items);
    var empty := ListEmpty(head, items);
    if !empty {
      var first := head.next;
      ghost var rest := items[1..];
      assert items == [] + [first] + rest;
      ItemLast(head, [], first, rest);
      assert rest + [head] + [] == rest + [head] && [] + rest == rest;
      Neighbours(first, rest + [head]);
      ListMoveTail(first, head, rest + [head], rest);
    }
  }

  /** `list_cut_position`: the first k items, up to and including the entry, go to another list; at the
      head nothing is cut and the other list is emptied. An empty list, or a list of one item that is not
      the entry, is left alone, and so is then the other list. */
  method ListCutPosition(list: Node, head: Node, entry: Node, ghost items: seq<Node>, ghost k: nat)
    requires IsList(head, items) && list != head && list !in items
    requires entry == head ==> k == 0
    requires entry != head && entry in items ==> 0 < k <= |items| && entry == items[k - 1]
    requires entry == head || entry in items || |items| <= 1
    modifies list, head, entry, head.next, entry.next
    ensures items != [] && (entry == head || entry in items) ==>
              k <= |items| && IsList(list, items[..k]) && IsList(head, items[k..])
    ensures items == [] || (entry != head && entry !in items) ==>
              IsList(head, items) && list.next == old(list.next) && list.prev == old(list.prev)
  {
    hide Ring;
    FirstOf(head, items);
    var empty := ListEmpty(head, items);
    if empty { return; }
    var singular := ListIsSingular(head, items);
    if singular && head.next != entry && head != entry { return; }
    if entry == head {
      assert items[..0] == [] && items[0..] == items;
      ListInit(list);
    } else {
      assert items == items[..k] + items[k..];
      CutAfter(list, head, entry, items[..k], items[k..]);
    }
  }

  /** `__list_cut_position`. */
  method CutAfter(list: Node, head: Node, entry: Node, ghost front: seq<Node>, ghost back: seq<Node>)
    requires IsList(head, front + back) && list != head && list !in front && list !in back
    requires front != [] && entry == front[|front| - 1]
    modifies list, head, entry, head.next, entry.next
    ensures IsList(list, front) && IsList(head, back)
  {
    hide Chain;
    CutLinks(head, front, back);
    var newFirst := entry.next;
    list.next := head.next;
    list.next.prev := list;
    list.prev := entry;
    entry.next := list;
    head.next := newFirst;
    newFirst.prev := head;
    ChainKept(front);
    ChainKept(back);
    OneLink(list);
    OneLink(head);
    ChainAppend([list], front);
    DistinctAppend([list], front);
    DistinctAppend([head], back);
    if back != [] { ChainAppend([head], back); } else { assert [head] + back == [head]; }
  }

  lemma CutLinks(head: Node, front: seq<Node>, back: seq<Node>)
    requires IsList(head, front + back) && front != []
    ensures head.next == front[0] && Chain(front) && Chain(back) && Distinct(front) && Distinct(back)
    ensures Disjoint(front, back) && head !in front && head !in back
    ensures front[|front| - 1].next == (if back == [] then head else back[0])
    ensures back != [] ==> back[|back| - 1].next == head && head.prev == back[|back| - 1]
  {
    hide Chain;
    FirstOf(head, front + back);
    ChainAppend([head], front + back);
    DistinctAppend([head], front + back);
    DistinctAppend(front, back);
    if back != [] {
      ChainAppend(front, back);
    } else {
      assert front + back == front;
      NoLinks();
    }
  }

  lemma NoLinks()
    ensures Chain([])
  {
  }

  /** `__list_splice`: the items of a list between the last and the first of a ring. */
  method SpliceBetween(list: Node, prev: Node, next: Node, ghost items: seq<Node>, ghost xs: seq<Node>)
    requires IsList(list, items) && items != [] && list !in xs && Disjoint(items, xs)
    requires Ring(xs) && xs[|xs| - 1] == prev && xs[0] == next
    modifies list.next, list.prev, prev, next
    ensures Ring(xs + items)
    ensures list.next == old(list.next) && list.prev == old(list.prev)
  {
    hide Chain;
    assert items + [] == items;
    CutLinks(list, items, []);
    FirstOf(list, items);
    var first, last := list.next, list.prev;
    first.prev := prev;
    prev.next := first;
    last.next := next;
    next.prev := last;
    ChainKept(items);
    ChainKept(xs);
    ChainAppend(xs, items);
    DisjointSwap(items, xs);
    DistinctAppend(xs, items);
  }

  lemma DisjointSwap(xs: seq<Node>, ys: seq<Node>)
    requires Disjoint(xs, ys)
    ensures Disjoint(ys, xs)
  {
  }

  /** The lists of two heads that share no node. */
  ghost predicate Separate(list: Node, items: seq<Node>, head: Node, others: seq<Node>)
    reads [list] + items, [head] + others
  {
    IsList(list, items) && IsList(head, others) && Disjoint([list] + items, [head] + others)
  }

  lemma SeparateParts(list: Node, items: seq<Node>, head: Node, others: seq<Node>)
    requires Separate(list, items, head, others)
    ensures list != head && list !in others && head !in items && Disjoint(items, [head] + others)
    ensures list !in items && head !in others && Disjoint(items, others + [head])
  {
    FirstOf(list, items);
    FirstOf(head, others);
    var xs, ys := [list] + items, [head] + others;
    assert xs[0] == list && ys[0] == head;
    assert forall i :: 0 <= i < |items| ==> xs[i + 1] == items[i];
    assert forall i :: 0 <= i < |others| ==> ys[i + 1] == others[i];
  }

  /** `list_splice`: in front of the other list's items; an emptied head keeps its old links. */
  method ListSplice(list: Node, head: Node, ghost items: seq<Node>, ghost others: seq<Node>)
    requires Separate(list, items, head, others)
    modifies list.next, list.prev, head, head.next
    ensures IsList(head, items + others)
    ensures list.next == old(list.next) && list.prev == old(list.prev)
  {
    hide Ring;
    SeparateParts(list, items, head, others);
    FirstOf(list, items);
    FirstOf(head, others);
    var empty := ListEmpty(list, items);
    if !empty {
      Rotated([head], others);
      SpliceBetween(list, head, head.next, items, others + [head]);
      assert (others + [head]) + items == others + ([head] + items);
      Rotated(others, [head] + items);
      assert ([head] + items) + others == [head] + (items + others);
    } else {
      assert items + others == others;
    }
  }

  /** `list_splice_tail`: behind them. */
  method ListSpliceTail(list: Node, head: Node, ghost items: seq<Node>, ghost others: seq<Node>)
    requires Separate(list, items, head, others)
    modifies list.next, list.prev, head, head.prev
    ensures IsList(head, others + items)
    ensures list.next == old(list.next) && list.prev == old(list.prev)
  {
    hide Ring;
    SeparateParts(list, items, head, others);
    FirstOf(list, items);
    FirstOf(head, others);
    var empty := ListEmpty(list, items);
    if !empty {
      SpliceBetween(list, head.prev, head, items, [head] + others);
      assert ([head] + others) + items == [head] + (others + items);
    } else {
      assert others + items == others;
    }
  }

  lemma Alone(list: Node)
    requires list.next == list == list.prev
    ensures IsList(list, [])
  {
  }

  /** `list_splice_init`. */
  method ListSpliceInit(list: Node, head: Node, ghost items: seq<Node>, ghost others: seq<Node>)
    requires Separate(list, items, head, others)
    modifies list, list.next, list.prev, head, head.next
    ensures IsList(head, items + others) && IsList(list, [])
  {
    hide Ring;
    SeparateParts(list, items, head, others);
    FirstOf(list, items);
    var empty := ListEmpty(list, items);
    ListSplice(list, head, items, others);
    if !empty { ListInit(list); } else { Alone(list); }
  }

  /** `list_splice_tail_init`. */
  method ListSpliceTailInit(list: Node, head: Node, ghost items: seq<Node>, ghost others: seq<Node>)
    requires Separate(list, items, head, others)
    modifies list, list.next, list.prev, head, head.prev
    ensures IsList(head, others + items) && IsList(list, [])
  {
    hide Ring;
    SeparateParts(list, items, head, others);
    FirstOf(list, items);
    var empty := ListEmpty(list, items);
    ListSpliceTail(list, head, items, others);
    if !empty { ListInit(list); } else { Alone(list); }
  }
}
