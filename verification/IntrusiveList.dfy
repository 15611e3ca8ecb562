/**
 The intrusive circular list in place: nodes with two mutable fields, the
 operations as the stores they perform, and the traversal macros as the loops
 they expand to.

 Each method takes as a ghost argument the links `l` of a region of the heap
 that contains the nodes it touches, and states the links of the whole region
 afterwards as a function of `l`; its `modifies` clause says that no node but
 those named can have changed.
 */
module IntrusiveList {
  import opened ListLinks
  import opened Rings
  import opened Sequences
  import opened ListMaps

  class ListHead {
    var next: ListHead
    var prev: ListHead

    /** `LIST_HEAD(name)` */
    constructor ()
      ensures next == this && prev == this
    {
      next := this;
      prev := this;
    }
  }

  ghost predicate FieldsAre(l: Links<ListHead>, x: ListHead)
    reads x
  {
    && x in l.next && l.next[x] == x.next
    && x in l.prev && l.prev[x] == x.prev
  }

  /** `l` gives the current fields of every node it mentions. */
  ghost predicate Shows(l: Links<ListHead>)
    reads l.next.Keys
  {
    && l.next.Keys == l.prev.Keys
    && forall x {:trigger FieldsAre(l, x)} :: x in l.next.Keys ==> FieldsAre(l, x)
  }

  lemma Read(l: Links<ListHead>, x: ListHead)
    requires Shows(l) && x in l.next.Keys
    ensures x in l.prev && x.next == l.next[x] && x.prev == l.prev[x]
  {
    assert FieldsAre(l, x);
  }

  /** Every region has links, and only one. */
  lemma LinksOf(region: set<ListHead>) returns (l: Links<ListHead>)
    ensures l.next.Keys == region && Shows(l)
    ensures forall k: Links<ListHead> :: k.next.Keys == region && Shows(k) ==> k == l
  {
    l := Links(map x | x in region :: x.next, map x | x in region :: x.prev);
    assert forall x :: x in region ==> FieldsAre(l, x);
    forall k: Links<ListHead> | k.next.Keys == region && Shows(k) ensures k == l {
      forall x | x in region ensures k.next[x] == l.next[x] && k.prev[x] == l.prev[x] {
        assert FieldsAre(k, x);
      }
      assert k.next == l.next && k.prev == l.prev;
    }
  }

  /** `INIT_LIST_HEAD` */
  method InitListHead(ptr: ListHead, ghost l: Links<ListHead>)
    requires Shows(l) && ptr in l.next
    modifies ptr
    ensures Shows(Reset(l, ptr))
  {
    ghost var r := Reset(l, ptr);
    ptr.next := ptr;
    ptr.prev := ptr;
    forall x | x in r.next.Keys ensures FieldsAre(r, x) { assert old(FieldsAre(l, x)); }
  }

  /** `__list_add` */
  method ListAddBetween(newNode: ListHead, prev: ListHead, next: ListHead, ghost l: Links<ListHead>)
    requires Shows(l) && newNode in l.next && prev in l.next && next in l.next
    modifies newNode, prev, next
    ensures Shows(Insert(l, newNode, prev, next))
  {
    ghost var r := Insert(l, newNode, prev, next);
    next.prev := newNode;
    newNode.next := next;
    newNode.prev := prev;
    prev.next := newNode;
    forall x | x in r.next.Keys ensures FieldsAre(r, x) { assert old(FieldsAre(l, x)); }
  }

  /** `list_add` */
  method ListAdd(newNode: ListHead, head: ListHead, ghost l: Links<ListHead>)
    requires Shows(l) && newNode in l.next && head in l.next && head.next in l.next
    modifies newNode, head, head.next
    ensures Shows(AddFront(l, newNode, head))
  {
    assert FieldsAre(l, head);
    ListAddBetween(newNode, head, head.next, l);
  }

  /** `list_add_tail` */
  method ListAddTail(newNode: ListHead, head: ListHead, ghost l: Links<ListHead>)
    requires Shows(l) && newNode in l.next && head in l.next && head.prev in l.next
    modifies newNode, head, head.prev
    ensures Shows(AddTail(l, newNode, head))
  {
    assert FieldsAre(l, head);
    ListAddBetween(newNode, head.prev, head, l);
  }

  /** `__list_del` */
  method ListDelBetween(prev: ListHead, next: ListHead, ghost l: Links<ListHead>)
    requires Shows(l) && prev in l.next && next in l.next
    modifies prev, next
    ensures Shows(Unlink(l, prev, next))
  {
    ghost var r := Unlink(l, prev, next);
    next.prev := prev;
    prev.next := next;
    forall x | x in r.next.Keys ensures FieldsAre(r, x) { assert old(FieldsAre(l, x)); }
  }

  /** `list_del_init` */
  method ListDelInit(entry: ListHead, ghost l: Links<ListHead>)
    requires Shows(l) && entry in l.next && entry.prev in l.next && entry.next in l.next
    modifies entry, entry.prev, entry.next
    ensures entry in l.prev && Shows(DelInit(l, entry)) && DelInit(l, entry).next.Keys == l.next.Keys
  {
    assert FieldsAre(l, entry);
    ghost var p, q := entry.prev, entry.next;
    ListDelBetween(entry.prev, entry.next, l);
    InitListHead(entry, Unlink(l, p, q));
  }

  /** `list_is_last` */
  method ListIsLast(list: ListHead, head: ListHead, ghost l: Links<ListHead>, ghost s: seq<ListHead>)
    returns (r: bool)
    requires Shows(l) && Ring(l, head, s) && list in l.next
    ensures list in s ==> (r <==> list == s[|s| - 1])
    ensures list == head ==> (r <==> s == [])
    ensures Linked(l) && list !in [head] + s ==> !r
  {
    EmptyAndLast(l, head, s);
    assert FieldsAre(l, list);
    r := list.next == head;
    if Linked(l) && list !in [head] + s {
      assert NodeOk(l, list);
      RingClosed(l, head, s, head);
    }
  }

  /** `list_empty` */
  method ListEmpty(head: ListHead, ghost l: Links<ListHead>, ghost s: seq<ListHead>) returns (r: bool)
    requires Shows(l) && Ring(l, head, s)
    ensures r <==> s == []
  {
    EmptyAndLast(l, head, s);
    assert FieldsAre(l, head);
    r := head.next == head;
  }

  // ----- Traversals

  /** `list_for_each_entry` with a body that changes no links. */
  method ListForEachEntry(head: ListHead, ghost l: Links<ListHead>, ghost s: seq<ListHead>)
    returns (visited: seq<ListHead>)
    requires Shows(l) && Ring(l, head, s)
    ensures visited == s
  {
    ghost var c := Round(head, s);
    assert LinkAt(l, c, 0) && FieldsAre(l, head);
    MembersDistinct(head, s);
    visited := [];
    var pos := head.next;
    while pos != head
      invariant |visited| <= |s| && visited == s[..|visited|]
      invariant pos == c[|visited| + 1]
      decreases |s| - |visited|
    {
      assert LinkAt(l, c, |visited| + 1) && FieldsAre(l, pos);
      visited := visited + [pos];
      pos := pos.next;
    }
  }

  /** The lists when the loop has come to place i of `head` and the body has
      unlinked the picked nodes before it. */
  ghost function AfterDels(m: Lists<ListHead>, head: ListHead, p: set<ListHead>, i: nat): Lists<ListHead>
    requires head in m && i <= |m[head]|
  {
    var s := m[head];
    (map x | x in Picked(s[..i], p) :: []) + m[head := Kept(s[..i], p) + s[i..]]
  }

  lemma AfterDelsEnds(m: Lists<ListHead>, head: ListHead, p: set<ListHead>)
    requires head in m
    ensures AfterDels(m, head, p, 0) == m
    ensures AfterDels(m, head, p, |m[head]|) ==
            (map x | x in Picked(m[head], p) :: []) + m[head := Kept(m[head], p)]
  {
    var s := m[head];
    assert s[..0] == [] && [] + s[0..] == s;
    assert s[..|s|] == s && Kept(s, p) + s[|s|..] == Kept(s, p);
  }

  lemma AfterDelsHead(m: Lists<ListHead>, head: ListHead, p: set<ListHead>, i: nat)
    requires head in m && i <= |m[head]|
    ensures head in AfterDels(m, head, p, i)
    ensures AfterDels(m, head, p, i)[head] == Kept(m[head][..i], p) + m[head][i..]
  {
  }

  lemma AfterDelsStep(m: Lists<ListHead>, head: ListHead, p: set<ListHead>, i: nat)
    requires head in m && i < |m[head]| && m[head][i] != head && m[head][i] !in m
    ensures AfterDels(m, head, p, i + 1) ==
            if m[head][i] in p
            then AfterDels(m, head, p, i)[head := Kept(m[head][..i], p) + m[head][i + 1..]][m[head][i] := []]
            else AfterDels(m, head, p, i)
  {
    PickOrKeep(m[head], p, i);
  }

  /** The body at place i, on links. */
  lemma DelStep(l: Links<ListHead>, m: Lists<ListHead>, head: ListHead, p: set<ListHead>, i: nat)
    requires head in m && i < |m[head]| && Holds(l, AfterDels(m, head, p, i))
    ensures m[head][i] in l.next && m[head][i] in l.prev
    ensures Holds(if m[head][i] in p then DelInit(l, m[head][i]) else l, AfterDels(m, head, p, i + 1))
  {
    var s := m[head];
    AfterDelsHead(m, head, p, i);
    PickOrKeep(s, p, i);
    var m' := DelCurrent(l, AfterDels(m, head, p, i), head, Kept(s[..i], p), s[i..]);
    AfterDelsStep(m, head, p, i);
  }

  lemma TakeNext<T>(visited: seq<T>, s: seq<T>)
    requires |visited| < |s| && visited == s[..|visited|]
    ensures visited + [s[|visited|]] == s[..|visited| + 1]
  {
  }

  /** The node at place i and its neighbours are nodes of the region, and the
      next one is at place i + 1. */
  ghost predicate PosFacts(l: Links<ListHead>, head: ListHead, s: seq<ListHead>, i: nat) {
    && i < |s| && s[i] in l.next && s[i] in l.prev
    && l.next[s[i]] == Place(head, s, i + 1)
    && l.next[s[i]] in l.next && l.next[s[i]] in Members(head, s)
    && l.prev[s[i]] in l.next && l.prev[s[i]] in Members(head, s)
  }

  lemma LocatePos(l: Links<ListHead>, m: Lists<ListHead>, head: ListHead, p: set<ListHead>, s: seq<ListHead>, i: nat)
    requires Holds(l, m) && head in m && i < |s| && m[head] == Kept(s[..i], p) + s[i..]
    ensures PosFacts(l, head, s, i)
  {
    var kept := Kept(s[..i], p);
    var t := kept + s[i..];
    SplitMembers(s[..i], p);
    NextInRing(l, head, kept, s[i..]);
    assert t[|kept|] == s[i];
    RingClosed(l, head, t, s[i]);
    RingClosed(l, head, t, l.next[s[i]]);
    RingClosed(l, head, t, l.prev[s[i]]);
    assert forall x :: x in [head] + t ==> x in [head] + s;
  }

  /** A loop body: passes the node it is run at to `list_del_init` if it is picked. */
  method DelIfPicked(pos: ListHead, p: set<ListHead>, ghost l: Links<ListHead>, ghost m: Lists<ListHead>,
                     ghost head: ListHead, ghost i: nat)
    returns (ghost l': Links<ListHead>)
    requires Shows(l) && head in m && i < |m[head]| && pos == m[head][i]
    requires Holds(l, AfterDels(m, head, p, i)) && PosFacts(l, head, m[head], i)
    modifies Members(head, m[head])
    ensures Shows(l') && l'.next.Keys == l.next.Keys
    ensures Holds(l', AfterDels(m, head, p, i + 1))
  {
    DelStep(l, m, head, p, i);
    Read(l, pos);
    l' := l;
    if pos in p {
      PosInMembers(head, m[head], i);
      ListDelInit(pos, l);
      l' := DelInit(l, pos);
    }
  }

  lemma PosInMembers(head: ListHead, s: seq<ListHead>, i: nat)
    requires i < |s|
    ensures s[i] in Members(head, s)
  {
    assert ([head] + s)[i + 1] == s[i];
  }

  /** `list_for_each_safe` with a body that passes the picked nodes to
      `list_del_init`: every node of the original list is visited once and in
      order; the others stay, in order; the picked ones end detached; no other
      list changes. */
  method ListForEachSafeDel(head: ListHead, p: set<ListHead>, ghost l: Links<ListHead>, ghost m: Lists<ListHead>)
    returns (visited: seq<ListHead>, ghost l': Links<ListHead>)
    requires Shows(l) && Holds(l, m) && head in m
    modifies Members(head, m[head])
    ensures visited == m[head]
    ensures Shows(l') && l'.next.Keys == l.next.Keys
    ensures Holds(l', (map x | x in Picked(m[head], p) :: []) + m[head := Kept(m[head], p)])
  {
    ghost var s := m[head];
    l' := l;
    NextOfHead(l, m, head);
    AfterDelsEnds(m, head, p);
    visited := [];
    Read(l, head);
    Read(l, l.next[head]);
    var pos := head.next;
    var n := pos.next;
    while pos != head
      invariant |visited| <= |s| && visited == s[..|visited|]
      invariant Holds(l', AfterDels(m, head, p, |visited|))
      invariant Shows(l') && l'.next.Keys == l.next.Keys
      invariant pos == Place(head, s, |visited|) && n == pos.next
      decreases |s| - |visited|
    {
      AfterDelsHead(m, head, p, |visited|);
      LocatePos(l', AfterDels(m, head, p, |visited|), head, p, s, |visited|);
      Read(l', pos);
      l' := DelIfPicked(pos, p, l', m, head, |visited|);
      Read(l', n);
      TakeNext(visited, s);
      visited := visited + [pos];
      pos := n;
      n := pos.next;
    }
  }

  // ----- Moving members to another list while traversing

  /** The lists when the loop has come to place i of `head` and the body has
      moved the picked nodes before it to the tail or to the front of `dst`. */
  ghost function AfterMoves(m: Lists<ListHead>, head: ListHead, dst: ListHead, p: set<ListHead>, tail: bool, i: nat)
    : Lists<ListHead>
    requires head in m && dst in m && i <= |m[head]|
  {
    m[head := Kept(m[head][..i], p) + m[head][i..]][dst := Arrived(m, head, dst, p, tail, i)]
  }

  /** What `dst` holds by then. */
  ghost function Arrived(m: Lists<ListHead>, head: ListHead, dst: ListHead, p: set<ListHead>, tail: bool, i: nat)
    : seq<ListHead>
    requires head in m && dst in m && i <= |m[head]|
  {
    var moved := Picked(m[head][..i], p);
    if tail then m[dst] + moved else Reverse(moved) + m[dst]
  }

  lemma AfterMovesEnds(m: Lists<ListHead>, head: ListHead, dst: ListHead, p: set<ListHead>, tail: bool)
    requires head in m && dst in m && head != dst
    ensures AfterMoves(m, head, dst, p, tail, 0) == m
    ensures AfterMoves(m, head, dst, p, tail, |m[head]|) ==
            m[head := Kept(m[head], p)]
             [dst := if tail then m[dst] + Picked(m[head], p) else Reverse(Picked(m[head], p)) + m[dst]]
  {
    var s := m[head];
    assert s[..0] == [] && [] + s[0..] == s;
    assert s[..|s|] == s && Kept(s, p) + s[|s|..] == Kept(s, p);
    assert m[dst] + [] == m[dst] == Reverse([]) + m[dst];
  }

  lemma ArrivedStep(m: Lists<ListHead>, head: ListHead, dst: ListHead, p: set<ListHead>, tail: bool, i: nat)
    requires head in m && dst in m && i < |m[head]|
    ensures Arrived(m, head, dst, p, tail, i + 1) ==
            if m[head][i] !in p then Arrived(m, head, dst, p, tail, i)
            else if tail then Arrived(m, head, dst, p, tail, i) + [m[head][i]]
            else [m[head][i]] + Arrived(m, head, dst, p, tail, i)
  {
    var x := m[head][i];
    var moved := Picked(m[head][..i], p);
    PickOrKeep(m[head], p, i);
    ReverseAppend(moved, x);
    assert m[dst] + (moved + [x]) == (m[dst] + moved) + [x];
    assert ([x] + Reverse(moved)) + m[dst] == [x] + (Reverse(moved) + m[dst]);
  }

  lemma AfterMovesStep(m: Lists<ListHead>, head: ListHead, dst: ListHead, p: set<ListHead>, tail: bool, i: nat)
    requires head in m && dst in m && head != dst && i < |m[head]| && m[head][i] !in m
    ensures var x := m[head][i];
            var cur := AfterMoves(m, head, dst, p, tail, i);
            var m1 := cur[head := Kept(m[head][..i], p) + m[head][i + 1..]][x := []];
            AfterMoves(m, head, dst, p, tail, i + 1) ==
            if x !in p then cur
            else if tail then (m1 - {x})[dst := m1[dst] + [x]]
            else (m1 - {x})[dst := [x] + m1[dst]]
  {
    PickOrKeep(m[head], p, i);
    ArrivedStep(m, head, dst, p, tail, i);
    MovedMap(m, head, dst, m[head][i], Kept(m[head][..i], p) + m[head][i..], Kept(m[head][..i], p) + m[head][i + 1..],
             Arrived(m, head, dst, p, tail, i), Arrived(m, head, dst, p, tail, i + 1));
  }

  lemma MovedMap(m: Lists<ListHead>, head: ListHead, dst: ListHead, x: ListHead,
                 k0: seq<ListHead>, k1: seq<ListHead>, a0: seq<ListHead>, a1: seq<ListHead>)
    requires head in m && dst in m && head != dst && x !in m
    ensures (m[head := k0][dst := a0][head := k1][x := []] - {x})[dst := a1] == m[head := k1][dst := a1]
  {
  }

  /** The first half of the body at place i: the node is detached. */
  lemma MoveOut(l: Links<ListHead>, m: Lists<ListHead>, head: ListHead, dst: ListHead, p: set<ListHead>, tail: bool,
                i: nat)
    returns (m1: Lists<ListHead>)
    requires head in m && dst in m && head != dst && i < |m[head]|
    requires Holds(l, AfterMoves(m, head, dst, p, tail, i))
    ensures m[head][i] in l.next && m[head][i] in l.prev && m[head][i] !in m
    ensures Holds(DelInit(l, m[head][i]), m1)
    ensures m1 == AfterMoves(m, head, dst, p, tail, i)
                    [head := Kept(m[head][..i], p) + m[head][i + 1..]][m[head][i] := []]
  {
    var s := m[head];
    assert AfterMoves(m, head, dst, p, tail, i)[head] == Kept(s[..i], p) + s[i..];
    PickOrKeep(s, p, i);
    m1 := DelCurrent(l, AfterMoves(m, head, dst, p, tail, i), head, Kept(s[..i], p), s[i..]);
  }

  /** The second half: the node joins `dst`. */
  lemma MoveIn(l: Links<ListHead>, m1: Lists<ListHead>, x: ListHead, dst: ListHead)
    requires Holds(l, m1) && x in m1 && dst in m1 && x != dst && m1[x] == []
    ensures x in l.next && dst in l.next && dst in l.prev
    ensures Holds(AddTail(l, x, dst), (m1 - {x})[dst := m1[dst] + [x]])
    ensures Holds(AddFront(l, x, dst), (m1 - {x})[dst := [x] + m1[dst]])
    ensures l.next[dst] in l.next && l.next[dst] in Members(dst, m1[dst])
    ensures l.prev[dst] in l.next && l.prev[dst] in Members(dst, m1[dst])
  {
    FreeIfDetached(m1, x);
    RingClosed(l, x, m1[x], x);
    RingClosed(l, dst, m1[dst], dst);
    RingClosed(l, dst, m1[dst], l.prev[dst]);
    RingClosed(l, dst, m1[dst], l.next[dst]);
    AddTailHolds(l, m1, x, dst);
    AddFrontHolds(l, m1, x, dst);
  }

  lemma DstWithin(m: Lists<ListHead>, head: ListHead, dst: ListHead, p: set<ListHead>, tail: bool, i: nat)
    requires head in m && dst in m && head != dst && i <= |m[head]|
    ensures Members(dst, AfterMoves(m, head, dst, p, tail, i)[dst]) <= Members(dst, m[dst]) + Members(head, m[head])
  {
    var moved := Picked(m[head][..i], p);
    SplitMembers(m[head][..i], p);
    assert forall x :: x in Reverse(moved) ==> x in moved;
    assert forall x :: x in m[head][..i] ==> x in [head] + m[head];
  }

  /** A loop body: moves the node it is run at to `dst` if it is picked. */
  method MoveIfPicked(pos: ListHead, dst: ListHead, p: set<ListHead>, tail: bool,
                      ghost l: Links<ListHead>, ghost m: Lists<ListHead>, ghost head: ListHead, ghost i: nat)
    returns (ghost l': Links<ListHead>)
    requires Shows(l) && head in m && dst in m && head != dst && i < |m[head]| && pos == m[head][i]
    requires Holds(l, AfterMoves(m, head, dst, p, tail, i)) && PosFacts(l, head, m[head], i)
    modifies Members(head, m[head]), Members(dst, m[dst])
    ensures Shows(l') && l'.next.Keys == l.next.Keys
    ensures Holds(l', AfterMoves(m, head, dst, p, tail, i + 1))
  {
    ghost var m1 := MoveOut(l, m, head, dst, p, tail, i);
    AfterMovesStep(m, head, dst, p, tail, i);
    Read(l, pos);
    l' := l;
    if pos in p {
      PosInMembers(head, m[head], i);
      ListDelInit(pos, l);
      l' := DelInit(l, pos);
      DstWithin(m, head, dst, p, tail, i);
      MoveIn(l', m1, pos, dst);
      Read(l', dst);
      if tail {
        ListAddTail(pos, dst, l');
        l' := AddTail(l', pos, dst);
      } else {
        ListAdd(pos, dst, l');
        l' := AddFront(l', pos, dst);
      }
    }
  }

  /** `list_for_each_safe` with a body that moves the picked nodes to another
      list by `list_del_init` and then `list_add_tail` (or `list_add`): a stable
      partition. What stays keeps its order, what moves arrives in order (in
      reverse order with `list_add`), and every other list is as it was. */
  method ListForEachSafeMove(head: ListHead, dst: ListHead, p: set<ListHead>, tail: bool,
                             ghost l: Links<ListHead>, ghost m: Lists<ListHead>)
    returns (visited: seq<ListHead>, ghost l': Links<ListHead>)
    requires Shows(l) && Holds(l, m) && head in m && dst in m && head != dst
    modifies Members(head, m[head]), Members(dst, m[dst])
    ensures visited == m[head]
    ensures Shows(l') && l'.next.Keys == l.next.Keys
    ensures Holds(l', m[head := Kept(m[head], p)]
                       [dst := if tail then m[dst] + Picked(m[head], p) else Reverse(Picked(m[head], p)) + m[dst]])
  {
    ghost var s := m[head];
    l' := l;
    NextOfHead(l, m, head);
    AfterMovesEnds(m, head, dst, p, tail);
    visited := [];
    Read(l, head);
    Read(l, l.next[head]);
    var pos := head.next;
    var n := pos.next;
    while pos != head
      invariant |visited| <= |s| && visited == s[..|visited|]
      invariant Holds(l', AfterMoves(m, head, dst, p, tail, |visited|))
      invariant Shows(l') && l'.next.Keys == l.next.Keys
      invariant pos == Place(head, s, |visited|) && n == pos.next
      decreases |s| - |visited|
    {
      assert AfterMoves(m, head, dst, p, tail, |visited|)[head] == Kept(s[..|visited|], p) + s[|visited|..];
      LocatePos(l', AfterMoves(m, head, dst, p, tail, |visited|), head, p, s, |visited|);
      Read(l', pos);
      l' := MoveIfPicked(pos, dst, p, tail, l', m, head, |visited|);
      Read(l', n);
      TakeNext(visited, s);
      visited := visited + [pos];
      pos := n;
      n := pos.next;
    }
  }
}
