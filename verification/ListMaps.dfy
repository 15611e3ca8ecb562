/**
 Many lists in one heap. A map from each head to the sequence of its members
 describes a region completely: a detached node is the head of an empty list.
 Each list operation edits one entry (and the entry of the node it moves); the
 theorems say that the links follow, whatever run of operations is made.
 */
module ListMaps {
  import opened ListLinks
  import opened Rings
  import opened Sequences

  type Lists<N> = map<N, seq<N>>

  ghost predicate InList<N>(m: Lists<N>, older h: N, older x: N) {
    h in m && x in [h] + m[h]
  }

  /** No node is on two lists. */
  ghost predicate Apart<N>(m: Lists<N>) {
    forall g, h, x :: InList(m, g, x) && InList(m, h, x) ==> g == h
  }

  /** The links are exactly these lists. */
  ghost predicate Holds<N>(l: Links<N>, m: Lists<N>) {
    Apart(m) && forall h :: h in m ==> Ring(l, h, m[h])
  }

  ghost function Nodes<N>(m: Lists<N>): (r: set<N>)
    ensures forall h, x :: InList(m, h, x) ==> x in r
    ensures forall x :: x in r ==> exists h :: InList(m, h, x)
  {
    var r := set h, x | h in m && x in [h] + m[h] :: x;
    assert forall x :: x in r ==> exists h :: InList(m, h, x) by {
      forall x | x in r ensures exists h :: InList(m, h, x) {
        var h :| h in m && x in [h] + m[h];
        assert InList(m, h, x);
      }
    }
    r
  }

  /** The head whose list node x is on. */
  ghost function OwnerOf<N>(m: Lists<N>, x: N): (h: N)
    requires x in Nodes(m)
    ensures InList(m, h, x)
  {
    var h :| InList(m, h, x); h
  }

  /** Node x is detached, or on no list at all. */
  ghost predicate Free<N>(m: Lists<N>, x: N) {
    forall h :: InList(m, h, x) ==> h == x && m[x] == []
  }

  // ----- The operations on list maps

  ghost function InsertM<N>(m: Lists<N>, x: N, h: N, k: nat): Lists<N>
    requires h in m && k <= |m[h]|
  {
    (m - {x})[h := m[h][..k] + [x] + m[h][k..]]
  }

  ghost function Without<T>(s: seq<T>, x: T): (r: seq<T>)
    ensures forall y :: y in r ==> y in s && y != x
    ensures forall y :: y in s && y != x ==> y in r
  {
    if s == [] then [] else (if s[0] == x then [] else [s[0]]) + Without(s[1..], x)
  }

  /** A member leaves its list and becomes detached; a head leaves its members
      behind as a list headed by the first of them. */
  ghost function DelM<N>(m: Lists<N>, x: N): Lists<N>
    requires x in Nodes(m)
  {
    if x in m && m[x] == [] then m
    else if x in m then m[x := []][m[x][0] := m[x][1..]]
    else
      var h := OwnerOf(m, x);
      m[h := Without(m[h], x)][x := []]
  }

  lemma {:induction false} WithoutAt<T>(s: seq<T>, k: nat)
    requires Distinct(s) && k < |s|
    ensures Without(s, s[k]) == s[..k] + s[k + 1..]
    decreases s
  {
    if k > 0 {
      WithoutAt(s[1..], k - 1);
      assert s[1..][k - 1] == s[k];
      assert [s[0]] + (s[1..][..k - 1] + s[1..][k..]) == s[..k] + s[k + 1..];
    } else {
      WithoutAbsent(s[1..], s[0]);
    }
  }

  lemma {:induction false} WithoutAbsent<T>(s: seq<T>, x: T)
    requires x !in s
    ensures Without(s, x) == s
    decreases s
  {
    if s != [] {
      WithoutAbsent(s[1..], x);
    }
  }

  // ----- Each operation on links carries out the one on list maps

  lemma InsertHolds<N>(l: Links<N>, m: Lists<N>, x: N, h: N, k: nat)
    requires Holds(l, m) && h in m && x != h && Free(m, x) && k <= |m[h]|
    ensures Holds(Insert(l, x, Round(h, m[h])[k], Round(h, m[h])[k + 1]), InsertM(m, x, h, k))
  {
    var s, c := m[h], Round(h, m[h]);
    var l', m' := Insert(l, x, c[k], c[k + 1]), InsertM(m, x, h, k);
    assert x !in [h] + s by {
      if x in [h] + s { assert InList(m, h, x); }
    }
    InsertIntoRing(l, h, s, k, x);
    assert c[k] in [h] + s && c[k + 1] in [h] + s;
    assert InList(m, h, c[k]) && InList(m, h, c[k + 1]);
    forall g | g in m' ensures Ring(l', g, m'[g]) {
      if g != h {
        assert forall y :: y in [g] + m[g] ==> InList(m, g, y);
        InsertFrame(l, g, m[g], x, c[k], c[k + 1]);
      }
    }
    assert forall g, y :: InList(m', g, y) ==> (InList(m, g, y) && y != x) || (g == h && y == x) by {
      forall g, y | InList(m', g, y) ensures (InList(m, g, y) && y != x) || (g == h && y == x) {
        if y == x && InList(m, g, x) {
          assert g == x;
        }
      }
    }
  }

  lemma AddFrontHolds<N>(l: Links<N>, m: Lists<N>, x: N, h: N)
    requires Holds(l, m) && h in m && x != h && Free(m, x)
    ensures h in l.next && Holds(AddFront(l, x, h), (m - {x})[h := [x] + m[h]])
  {
    InsertHolds(l, m, x, h, 0);
    assert LinkAt(l, Round(h, m[h]), 0);
    assert m[h][..0] + [x] + m[h][0..] == [x] + m[h];
    assert InsertM(m, x, h, 0) == (m - {x})[h := [x] + m[h]];
  }

  lemma AddTailHolds<N>(l: Links<N>, m: Lists<N>, x: N, h: N)
    requires Holds(l, m) && h in m && x != h && Free(m, x)
    ensures h in l.prev && Holds(AddTail(l, x, h), (m - {x})[h := m[h] + [x]])
  {
    InsertHolds(l, m, x, h, |m[h]|);
    assert LinkAt(l, Round(h, m[h]), |m[h]|);
    assert m[h][..|m[h]|] + [x] + m[h][|m[h]|..] == m[h] + [x];
    assert InsertM(m, x, h, |m[h]|) == (m - {x})[h := m[h] + [x]];
  }

  lemma DelHolds<N>(l: Links<N>, m: Lists<N>, x: N)
    requires Holds(l, m) && x in Nodes(m)
    ensures x in l.next && x in l.prev
    ensures Holds(DelInit(l, x), DelM(m, x))
  {
    var h := OwnerOf(m, x);
    var s := m[h];
    RingClosed(l, h, s, x);
    var l', m' := DelInit(l, x), DelM(m, x);
    assert x in m ==> InList(m, x, x);
    if x in m && s == [] {
      DelInitIdempotent(l, x);
    } else {
      DelRings(l, m, x, h);
      assert NodeOk(l, x) by {
        RingClosed(l, h, s, l.next[x]);
        RingClosed(l, h, s, l.prev[x]);
      }
      forall g | g in m' ensures Ring(l', g, m'[g]) {
        if g in m && g != h && g != x {
          assert x in [g] + m[g] ==> InList(m, g, x);
          RemoveFrame(l, g, m[g], x);
          if h == x && g == s[0] { assert InList(m, h, g) && InList(m, g, g); }
        }
      }
      DelMApart(m, x, h);
    }
  }

  /** The rings that the removal of x concerns. */
  lemma DelRings<N>(l: Links<N>, m: Lists<N>, x: N, h: N)
    requires InList(m, h, x) && Ring(l, h, m[h]) && !(h == x && m[h] == [])
    ensures x in l.next && x in l.prev
    ensures Ring(DelInit(l, x), x, [])
    ensures if h == x then Ring(DelInit(l, x), m[h][0], m[h][1..])
            else Ring(DelInit(l, x), h, Without(m[h], x))
  {
    var s := m[h];
    if h == x {
      RemoveHead(l, h, s);
    } else {
      var k :| 0 <= k < |s| && s[k] == x;
      RemoveFromRing(l, h, s, k);
      MembersDistinct(h, s);
      WithoutAt(s, k);
    }
  }

  lemma DelMApart<N>(m: Lists<N>, x: N, h: N)
    requires Apart(m) && x in Nodes(m) && h == OwnerOf(m, x) && Distinct([h] + m[h])
    ensures Apart(DelM(m, x))
  {
    var m' := DelM(m, x);
    var s := m[h];
    MembersDistinct(h, s);
    assert x in m ==> InList(m, x, x);
    if h == x && s != [] {
      assert InList(m, h, s[0]);
      forall g, y | InList(m', g, y)
        ensures || (y == x && g == x)
                || (g == s[0] && InList(m, h, y) && y != x)
                || (g != x && g != s[0] && InList(m, g, y))
      {
      }
    } else if h != x {
      forall g, y | InList(m', g, y)
        ensures (y == x && g == x) || (y != x && InList(m, g, y))
      {
        assert g != x && y == x ==> !InList(m, g, x);
      }
    }
  }

  /** No operation loses or adds a node of the region. */
  lemma DelKeepsNodes<N>(m: Lists<N>, x: N)
    requires Apart(m) && x in Nodes(m)
    ensures Nodes(DelM(m, x)) == Nodes(m)
  {
    var m' := DelM(m, x);
    var h := OwnerOf(m, x);
    var s := m[h];
    assert x in m ==> InList(m, x, x);
    forall y | y in Nodes(m) ensures y in Nodes(m') {
      var g := OwnerOf(m, y);
      if y == x {
        assert InList(m', x, y);
      } else if g == x && s != [] {
        assert InList(m', s[0], y);
      } else {
        if h == x && s != [] {
          assert InList(m, h, s[0]);
          assert g == s[0] ==> InList(m, g, s[0]);
        }
        assert InList(m', g, y);
      }
    }
    forall y | y in Nodes(m') ensures y in Nodes(m) {
      var g := OwnerOf(m', y);
      if y != x && h == x && s != [] && (g == s[0] || g == x) {
        assert InList(m, h, y);
      } else if y != x && g != x {
        assert InList(m, g, y);
      }
    }
  }

  lemma InsertKeepsNodes<N>(m: Lists<N>, x: N, h: N, k: nat)
    requires h in m && x in m && x != h && m[x] == [] && k <= |m[h]|
    ensures Nodes(InsertM(m, x, h, k)) == Nodes(m)
  {
    var m' := InsertM(m, x, h, k);
    assert InList(m', h, x) && InList(m, x, x);
    forall y | y in Nodes(m) && y != x ensures y in Nodes(m') {
      assert InList(m', OwnerOf(m, y), y);
    }
    forall y | y in Nodes(m') && y != x ensures y in Nodes(m) {
      assert InList(m, OwnerOf(m', y), y);
    }
  }

  lemma NextOfHead<N>(l: Links<N>, m: Lists<N>, head: N)
    requires Holds(l, m) && head in m
    ensures head in l.next && l.next[head] == Place(head, m[head], 0)
    ensures l.next[head] in l.next && head !in m[head]
  {
    MembersDistinct(head, m[head]);
    assert LinkAt(l, Round(head, m[head]), 0);
    RingClosed(l, head, m[head], head);
    RingClosed(l, head, m[head], l.next[head]);
  }

  /** Removing the node the loop stands at, whatever else has become of the lists. */
  lemma DelCurrent<N>(l: Links<N>, m: Lists<N>, head: N, kept: seq<N>, rest: seq<N>)
    returns (m': Lists<N>)
    requires Holds(l, m) && head in m && rest != [] && m[head] == kept + rest
    ensures rest[0] in l.next && rest[0] in l.prev && rest[0] !in m && rest[0] != head
    ensures m' == m[head := kept + rest[1..]][rest[0] := []] && Holds(DelInit(l, rest[0]), m')
  {
    var s, pos := kept + rest, rest[0];
    assert s[|kept|] == pos;
    assert InList(m, head, pos);
    MembersDistinct(head, s);
    assert pos in m ==> InList(m, pos, pos);
    WithoutAt(s, |kept|);
    assert s[..|kept|] + s[|kept| + 1..] == kept + rest[1..];
    DelHolds(l, m, pos);
    m' := DelM(m, pos);
  }

  // ----- Runs

  /** In terms of lists: a node that is added is detached. It may be added at any
      node of the region, a head or a member or itself. */
  ghost predicate GuardM<N>(m: Lists<N>, op: Op<N>) {
    if op.Del? then op.x in Nodes(m)
    else op.h in Nodes(m) && op.x in m && m[op.x] == []
  }

  ghost function IndexOf<T>(s: seq<T>, x: T): (k: nat)
    requires x in s
    ensures k < |s| && s[k] == x
  {
    var k :| 0 <= k < |s| && s[k] == x; k
  }

  /** The list x is inserted into and its place there: after h for `list_add`,
      before h for `list_add_tail`, where a head stands both first and last. */
  ghost function Target<N>(m: Lists<N>, h: N, tail: bool): (r: (N, nat))
    requires h in Nodes(m)
    ensures r.0 in m && r.1 <= |m[r.0]|
  {
    if h in m then (h, if tail then |m[h]| else 0)
    else
      var g := OwnerOf(m, h);
      var k := IndexOf(m[g], h);
      (g, if tail then k else k + 1)
  }

  /** Adding a detached node at itself changes nothing. */
  ghost function ExecM<N>(m: Lists<N>, op: Op<N>): Lists<N>
    requires GuardM(m, op)
  {
    if op.Del? then DelM(m, op.x)
    else if op.x == op.h then m
    else
      var (g, k) := Target(m, op.h, op.Append?);
      InsertM(m, op.x, g, k)
  }

  /** The guard on lists is what the links show: self-linked means detached. */
  lemma GuardsAgree<N>(l: Links<N>, m: Lists<N>, op: Op<N>)
    requires Linked(l) && Holds(l, m) && Nodes(m) == l.next.Keys
    ensures GuardM(m, op) <==> InRegion(l, op) && Guard(l, op)
  {
    if !op.Del? && op.x in Nodes(m) {
      var g := OwnerOf(m, op.x);
      EmptyAndLast(l, g, m[g]);
      assert op.x in m ==> InList(m, op.x, op.x);
      if g != op.x {
        Detached(l, g, m[g], op.x);
      }
    }
    assert op.x in m ==> InList(m, op.x, op.x);
  }

  /** Where the two operations find the neighbours to insert between. */
  lemma TargetPlaces<N>(l: Links<N>, m: Lists<N>, h: N, tail: bool)
    requires Linked(l) && Holds(l, m) && h in Nodes(m)
    ensures h in l.next && h in l.prev
    ensures var (g, k) := Target(m, h, tail);
            && Round(g, m[g])[k] == (if tail then l.prev[h] else h)
            && Round(g, m[g])[k + 1] == (if tail then h else l.next[h])
  {
    var (g, k) := Target(m, h, tail);
    assert LinkAt(l, Round(g, m[g]), k);
  }

  lemma AddHolds<N>(l: Links<N>, m: Lists<N>, op: Op<N>)
    requires Linked(l) && Holds(l, m) && Nodes(m) == l.next.Keys && !op.Del? && GuardM(m, op) && op.x != op.h
    requires InRegion(l, op)
    ensures Holds(Exec(l, op), ExecM(m, op)) && Nodes(ExecM(m, op)) == Nodes(m)
  {
    var (g, k) := Target(m, op.h, op.Append?);
    assert g != op.x by {
      assert op.h in m ==> g == op.h;
      assert op.h !in m ==> op.h in m[g];
    }
    FreeIfDetached(m, op.x);
    TargetPlaces(l, m, op.h, op.Append?);
    InsertHolds(l, m, op.x, g, k);
    InsertKeepsNodes(m, op.x, g, k);
  }

  lemma ExecHolds<N>(l: Links<N>, m: Lists<N>, op: Op<N>)
    requires Linked(l) && Holds(l, m) && Nodes(m) == l.next.Keys && InRegion(l, op) && Guard(l, op)
    ensures GuardM(m, op)
    ensures Holds(Exec(l, op), ExecM(m, op)) && Nodes(ExecM(m, op)) == Nodes(m)
  {
    GuardsAgree(l, m, op);
    if op.Del? {
      DelHolds(l, m, op.x);
      DelKeepsNodes(m, op.x);
    } else if op.x == op.h {
      assert NodeOk(l, op.x);
      assert Exec(l, op) == l;
    } else {
      AddHolds(l, m, op);
    }
  }

  lemma FreeIfDetached<N>(m: Lists<N>, x: N)
    requires Apart(m) && x in m && m[x] == []
    ensures Free(m, x)
  {
    assert InList(m, x, x);
  }

  ghost predicate GuardedM<N>(m: Lists<N>, ops: seq<Op<N>>)
    decreases ops
  {
    ops == [] || (GuardM(m, ops[0]) && GuardedM(ExecM(m, ops[0]), ops[1..]))
  }

  ghost function RunM<N>(m: Lists<N>, ops: seq<Op<N>>): Lists<N>
    requires GuardedM(m, ops)
    decreases ops
  {
    if ops == [] then m else RunM(ExecM(m, ops[0]), ops[1..])
  }

  /** Over whole runs the links carry out the edits on the lists: any run whose
      calls meet their guards on the links, adds next to members included, ends
      in exactly the lists the edits give, and neither loses nor gains a node. */
  lemma {:induction false} RunRefinesLists<N>(l: Links<N>, m: Lists<N>, ops: seq<Op<N>>)
    requires Linked(l) && Holds(l, m) && Nodes(m) == l.next.Keys && Guarded(l, ops)
    ensures GuardedM(m, ops)
    ensures Holds(Run(l, ops), RunM(m, ops)) && Nodes(RunM(m, ops)) == Nodes(m)
    decreases ops
  {
    if ops == [] {
    } else {
      ExecHolds(l, m, ops[0]);
      ExecKeepsLinkedIff(l, ops[0]);
      RunRefinesLists(Exec(l, ops[0]), ExecM(m, ops[0]), ops[1..]);
    }
  }

  /** Every node detached. */
  ghost function FreshLists<N>(nodes: set<N>): Lists<N> {
    map x | x in nodes :: []
  }

  lemma FreshListsHold<N>(nodes: set<N>)
    ensures Holds(SelfLinked(nodes), FreshLists(nodes)) && Nodes(FreshLists(nodes)) == nodes
  {
    FreshRings(nodes);
    FreshListsApart(nodes);
  }

  lemma FreshRings<N>(nodes: set<N>)
    ensures forall h :: h in FreshLists(nodes) ==> Ring(SelfLinked(nodes), h, FreshLists(nodes)[h])
  {
    var l := SelfLinked(nodes);
    forall h | h in nodes ensures Ring(l, h, []) {
      SelfLinkedRing(l, h);
    }
  }

  lemma FreshListsApart<N>(nodes: set<N>)
    ensures Apart(FreshLists(nodes)) && Nodes(FreshLists(nodes)) == nodes
  {
    var m: Lists<N> := FreshLists(nodes);
    assert forall h, x :: InList(m, h, x) ==> h == x && x in nodes;
    forall x | x in nodes ensures x in Nodes(m) {
      assert InList(m, x, x);
    }
    forall x | x in Nodes(m) ensures x in nodes {
      assert InList(m, OwnerOf(m, x), x);
    }
  }

  /** A run from nodes that have just been initialised, each call meeting its guard. */
  ghost predicate GuardedFromFresh<N>(nodes: set<N>, ops: seq<Op<N>>) {
    SelfLinkedIsLinked(nodes);
    Guarded(SelfLinked(nodes), ops)
  }

  /** From nodes that have just been initialised, any run whose calls meet their
      guards leads to the lists its edits give. */
  lemma RunFromFreshNodes<N>(nodes: set<N>, ops: seq<Op<N>>)
    requires GuardedFromFresh(nodes, ops)
    ensures Linked(SelfLinked(nodes)) && GuardedM(FreshLists(nodes), ops)
    ensures Holds(Run(SelfLinked(nodes), ops), RunM(FreshLists(nodes), ops))
    ensures Nodes(RunM(FreshLists(nodes), ops)) == nodes
  {
    SelfLinkedIsLinked(nodes);
    FreshListsHold(nodes);
    RunRefinesLists(SelfLinked(nodes), FreshLists(nodes), ops);
  }

  // ----- The local invariant and the partition into rings are the same thing

  ghost predicate StaysIn<N>(l: Links<N>, rest: set<N>, x: N) {
    x in l.next && l.next[x] in rest
  }

  /** Splits the part `rest` of a region, closed under `next`, into lists. */
  lemma {:induction false} Split<N>(l: Links<N>, rest: set<N>) returns (m: Lists<N>)
    requires Linked(l) && rest <= l.next.Keys
    requires forall x {:trigger StaysIn(l, rest, x)} :: x in rest ==> StaysIn(l, rest, x)
    ensures Holds(l, m) && Nodes(m) == rest
    decreases |rest|
  {
    if rest == {} {
      m := map[];
    } else {
      var x :| x in rest;
      var s := RingOf(l, x);
      RingWithin(l, x, s, rest);
      RestClosed(l, x, s, rest);
      var m' := Split(l, rest - Members(x, s));
      m := Join(l, m', x, s);
    }
  }

  lemma RestClosed<N>(l: Links<N>, x: N, s: seq<N>, rest: set<N>)
    requires Linked(l) && Ring(l, x, s)
    requires forall x {:trigger StaysIn(l, rest, x)} :: x in rest ==> StaysIn(l, rest, x)
    ensures forall y {:trigger StaysIn(l, rest - Members(x, s), y)} ::
              y in rest - Members(x, s) ==> StaysIn(l, rest - Members(x, s), y)
  {
    forall y | y in rest - Members(x, s) ensures StaysIn(l, rest - Members(x, s), y) {
      assert StaysIn(l, rest, y) && NodeOk(l, y);
      if l.next[y] in Members(x, s) {
        RingClosed(l, x, s, l.next[y]);
      }
    }
  }

  lemma Join<N>(l: Links<N>, m: Lists<N>, x: N, s: seq<N>) returns (r: Lists<N>)
    requires Holds(l, m) && Ring(l, x, s)
    requires Members(x, s) !! Nodes(m)
    ensures Holds(l, r) && Nodes(r) == Nodes(m) + Members(x, s)
  {
    r := m[x := s];
    assert x in [x] + s;
    assert x in m ==> InList(m, x, x);
    forall g, y | InList(r, g, y) ensures if g == x then y in [x] + s else InList(m, g, y) {
    }
    forall y | y in [x] + s ensures y in Nodes(r) {
      assert InList(r, x, y);
    }
    forall y | y in Nodes(m) ensures y in Nodes(r) {
      assert InList(r, OwnerOf(m, y), y);
    }
    forall y | y in Nodes(r) ensures y in Nodes(m) || y in [x] + s {
      var g := OwnerOf(r, y);
    }
  }

  lemma RingWithin<N>(l: Links<N>, x: N, s: seq<N>, rest: set<N>)
    requires Ring(l, x, s) && x in rest
    requires forall x {:trigger StaysIn(l, rest, x)} :: x in rest ==> StaysIn(l, rest, x)
    ensures Members(x, s) <= rest
  {
    var u := [x] + s;
    var i := 0;
    while i < |s|
      invariant 0 <= i <= |s|
      invariant forall j :: 0 <= j <= i ==> u[j] in rest
    {
      assert LinkAt(l, Round(x, s), i) && StaysIn(l, rest, u[i]);
      i := i + 1;
    }
    assert forall y :: y in [x] + s ==> y in rest;
  }

  /** The links determine the lists met from given heads. */
  lemma ListsDetermined<N>(l: Links<N>, m: Lists<N>, k: Lists<N>)
    requires Holds(l, m) && Holds(l, k) && m.Keys == k.Keys
    ensures m == k
  {
    forall h | h in m ensures m[h] == k[h] {
      RingUnique(l, h, m[h], k[h]);
    }
  }

  /** A region is doubly linked node by node if and only if its nodes split into
      disjoint finite rings. */
  lemma LinkedIffRings<N>(l: Links<N>)
    ensures Linked(l)
       <==> (l.next.Keys == l.prev.Keys && exists m: Lists<N> :: Holds(l, m) && Nodes(m) == l.next.Keys)
  {
    if Linked(l) {
      forall x | x in l.next ensures StaysIn(l, l.next.Keys, x) { assert NodeOk(l, x); }
      var m := Split(l, l.next.Keys);
    }
    if l.next.Keys == l.prev.Keys && exists m: Lists<N> :: Holds(l, m) && Nodes(m) == l.next.Keys {
      var m: Lists<N> :| Holds(l, m) && Nodes(m) == l.next.Keys;
      forall x | x in l.next ensures NodeOk(l, x) {
        var h := OwnerOf(m, x);
        RingClosed(l, h, m[h], x);
        RingClosed(l, h, m[h], l.next[x]);
        RingClosed(l, h, m[h], l.prev[x]);
      }
    }
  }
}
