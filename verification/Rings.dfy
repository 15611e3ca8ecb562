/**
 A head and its members as a ring: the sequence met on the way round from the
 head. Ring(l, h, s) ties that sequence to the link fields; everything the list
 operations promise is stated about `s`.
 */
module Rings {
  import opened ListLinks
  import opened Sequences

  ghost predicate LinkAt<N>(l: Links<N>, c: seq<N>, i: int) {
    0 <= i < |c| - 1 && Link(l, c[i], c[i + 1])
  }

  /** The way round: head, members, head again. */
  ghost function Round<N>(h: N, s: seq<N>): (c: seq<N>) {
    [h] + s + [h]
  }

  /** `s` lists the members of head `h` in order, no node twice. */
  ghost predicate Ring<N>(l: Links<N>, h: N, s: seq<N>) {
    && Distinct([h] + s)
    && forall i {:trigger LinkAt(l, Round(h, s), i)} :: 0 <= i <= |s| ==> LinkAt(l, Round(h, s), i)
  }

  ghost function Members<N>(h: N, s: seq<N>): (r: set<N>)
    ensures h in r
  {
    assert h in [h] + s;
    set y | y in [h] + s
  }

  lemma MembersDistinct<N>(h: N, s: seq<N>)
    requires Distinct([h] + s)
    ensures Distinct(s) && h !in s
  {
    forall i, j | 0 <= i < j < |s| ensures s[i] != s[j] {
      assert ([h] + s)[i + 1] != ([h] + s)[j + 1];
    }
    forall i | 0 <= i < |s| ensures s[i] != h {
      assert ([h] + s)[0] != ([h] + s)[i + 1];
    }
  }

  /** What the loop stands at after i iterations: a member, or the head again. */
  ghost function Place<N>(head: N, s: seq<N>, i: nat): N {
    if i < |s| then s[i] else head
  }

  // ----- Insertion and removal, seen as sequence edits

  /** Going round once meets no node twice but the head. */
  lemma RoundDistinct<N>(h: N, s: seq<N>)
    requires Distinct([h] + s)
    ensures forall i, j :: 0 <= i < j <= |s| + 1 && (0 < i || j <= |s|) ==> Round(h, s)[i] != Round(h, s)[j]
    ensures forall i :: 0 <= i <= |s| + 1 ==> Round(h, s)[i] in [h] + s
  {
    var c, u := Round(h, s), [h] + s;
    forall i, j | 0 <= i < j <= |s| + 1 && (0 < i || j <= |s|) ensures c[i] != c[j] {
      assert c[i] == u[i] && c[j] == u[if j <= |s| then j else 0];
    }
  }

  /** `__list_add` between two consecutive places of a ring inserts there. */
  lemma InsertIntoRing<N>(l: Links<N>, h: N, s: seq<N>, k: nat, x: N)
    requires Ring(l, h, s) && k <= |s| && x !in [h] + s
    ensures Ring(Insert(l, x, Round(h, s)[k], Round(h, s)[k + 1]), h, s[..k] + [x] + s[k..])
  {
    var c := Round(h, s);
    var s' := s[..k] + [x] + s[k..];
    InsertKeepsDistinct(h, s, k, x);
    RoundDistinct(h, s);
    var l', c' := Insert(l, x, c[k], c[k + 1]), Round(h, s');
    forall i | 0 <= i <= |s'| ensures LinkAt(l', c', i) {
      InsertPlaces(h, s, k, x, i);
      if i < k {
        assert LinkAt(l, c, i);
      } else if i > k + 1 {
        assert LinkAt(l, c, i - 1);
      }
    }
  }

  lemma InsertPlaces<N>(h: N, s: seq<N>, k: nat, x: N, i: nat)
    requires k <= |s| && i <= |s| + 1
    ensures Round(h, s[..k] + [x] + s[k..])[i] ==
            if i <= k then Round(h, s)[i] else if i == k + 1 then x else Round(h, s)[i - 1]
    ensures Round(h, s[..k] + [x] + s[k..])[i + 1] ==
            if i < k then Round(h, s)[i + 1] else if i == k then x else Round(h, s)[i]
  {
    assert Round(h, s[..k] + [x] + s[k..]) == Round(h, s)[..k + 1] + [x] + Round(h, s)[k + 1..];
  }

  lemma InsertKeepsDistinct<N>(h: N, s: seq<N>, k: nat, x: N)
    requires Distinct([h] + s) && k <= |s| && x !in [h] + s
    ensures Distinct([h] + (s[..k] + [x] + s[k..]))
  {
    assert [h] + (s[..k] + [x] + s[k..]) == ([h] + s)[..k + 1] + [x] + ([h] + s)[k + 1..];
  }

  lemma RingAddFront<N>(l: Links<N>, h: N, s: seq<N>, x: N)
    requires Ring(l, h, s) && x !in [h] + s
    ensures h in l.next && Ring(AddFront(l, x, h), h, [x] + s)
  {
    assert LinkAt(l, Round(h, s), 0);
    InsertIntoRing(l, h, s, 0, x);
    assert s[..0] + [x] + s[0..] == [x] + s;
  }

  /** Insertion elsewhere leaves a ring as it was. */
  lemma InsertFrame<N>(l: Links<N>, h: N, s: seq<N>, x: N, p: N, q: N)
    requires Ring(l, h, s)
    requires x !in [h] + s && p !in [h] + s && q !in [h] + s
    ensures Ring(Insert(l, x, p, q), h, s)
  {
    var c := Round(h, s);
    forall i | 0 <= i <= |s| ensures LinkAt(Insert(l, x, p, q), c, i) {
      assert LinkAt(l, c, i);
      assert forall j :: 0 <= j < |c| ==> c[j] in [h] + s;
    }
  }

  /** `list_del_init` of a member takes it out and leaves it detached. */
  lemma RemoveFromRing<N>(l: Links<N>, h: N, s: seq<N>, k: nat)
    requires Ring(l, h, s) && k < |s|
    ensures s[k] in l.next && s[k] in l.prev
    ensures Ring(DelInit(l, s[k]), h, s[..k] + s[k + 1..])
    ensures Ring(DelInit(l, s[k]), s[k], [])
  {
    var x := s[k];
    var c := Round(h, s);
    assert LinkAt(l, c, k) && LinkAt(l, c, k + 1);
    assert c[k + 1] == x && l.prev[x] == c[k] && l.next[x] == c[k + 2];
    var l' := DelInit(l, x);
    var s' := s[..k] + s[k + 1..];
    var c' := Round(h, s');
    RemoveKeepsDistinct(h, s, k);
    RoundDistinct(h, s);
    forall i | 0 <= i <= |s'| ensures LinkAt(l', c', i) {
      RemovePlaces(h, s, k, i);
      if i < k {
        assert LinkAt(l, c, i);
      } else if i > k {
        assert LinkAt(l, c, i + 1);
      }
    }
    SelfLinkedRing(l', x);
  }

  lemma RemovePlaces<N>(h: N, s: seq<N>, k: nat, i: nat)
    requires k < |s| && i < |s|
    ensures Round(h, s[..k] + s[k + 1..])[i] == if i <= k then Round(h, s)[i] else Round(h, s)[i + 1]
    ensures Round(h, s[..k] + s[k + 1..])[i + 1] == if i < k then Round(h, s)[i + 1] else Round(h, s)[i + 2]
  {
    assert Round(h, s[..k] + s[k + 1..]) == Round(h, s)[..k + 1] + Round(h, s)[k + 2..];
  }

  lemma RemoveKeepsDistinct<N>(h: N, s: seq<N>, k: nat)
    requires Distinct([h] + s) && k < |s|
    ensures Distinct([h] + (s[..k] + s[k + 1..]))
  {
    assert [h] + (s[..k] + s[k + 1..]) == ([h] + s)[..k + 1] + ([h] + s)[k + 2..];
  }

  lemma SelfLinkedRing<N>(l: Links<N>, x: N)
    requires Link(l, x, x)
    ensures Ring(l, x, [])
  {
    assert LinkAt(l, Round(x, []), 0);
  }

  /** Taking the node after the head. */
  lemma RingTakeFront<N>(l: Links<N>, h: N, s: seq<N>)
    requires Ring(l, h, s) && s != []
    ensures h in l.next && l.next[h] == s[0] && s[0] in l.next && s[0] in l.prev
    ensures Ring(DelInit(l, s[0]), h, s[1..])
  {
    assert LinkAt(l, Round(h, s), 0);
    RemoveFromRing(l, h, s, 0);
    assert s[..0] + s[1..] == s[1..];
  }

  /** Taking the node before the head. */
  lemma RingTakeBack<N>(l: Links<N>, h: N, s: seq<N>)
    requires Ring(l, h, s) && s != []
    ensures h in l.prev && l.prev[h] == s[|s| - 1] && s[|s| - 1] in l.next && s[|s| - 1] in l.prev
    ensures Ring(DelInit(l, s[|s| - 1]), h, s[..|s| - 1])
  {
    assert LinkAt(l, Round(h, s), |s|);
    RemoveFromRing(l, h, s, |s| - 1);
    assert s[..|s| - 1] + s[|s|..] == s[..|s| - 1];
  }

  /** Every node on a ring may serve as its head. */
  lemma Rotate<N>(l: Links<N>, h: N, s: seq<N>, k: nat)
    requires Ring(l, h, s) && k < |s|
    ensures Ring(l, s[k], s[k + 1..] + [h] + s[..k])
  {
    var c := Round(h, s);
    var t := s[k + 1..] + [h] + s[..k];
    var d := Round(s[k], t);
    assert d == c[k + 1..] + c[1..k + 2];
    forall i | 0 <= i <= |t| ensures LinkAt(l, d, i) {
      if i < |s| - k {
        assert LinkAt(l, c, k + 1 + i);
      } else {
        assert LinkAt(l, c, i - (|s| - k));
      }
    }
    var u := [h] + s;
    assert [s[k]] + t == u[k + 1..] + u[..k + 1];
  }

  /** `list_del_init` of the head itself empties it and leaves the members a
      ring of their own, in the same cyclic order. */
  lemma RemoveHead<N>(l: Links<N>, h: N, s: seq<N>)
    requires Ring(l, h, s) && s != []
    ensures h in l.next && h in l.prev
    ensures Ring(DelInit(l, h), h, [])
    ensures Ring(DelInit(l, h), s[0], s[1..])
  {
    Rotate(l, h, s, 0);
    var t := s[1..] + [h];
    assert t == s[1..] + [h] + s[..0];
    RemoveFromRing(l, s[0], t, |s| - 1);
    assert t[..|s| - 1] + t[|s|..] == s[1..];
  }

  lemma RingClosed<N>(l: Links<N>, h: N, s: seq<N>, x: N)
    requires Ring(l, h, s) && x in [h] + s
    ensures x in l.next && l.next[x] in [h] + s
    ensures x in l.prev && l.prev[x] in [h] + s
    ensures Link(l, x, l.next[x]) && Link(l, l.prev[x], x)
  {
    var c := Round(h, s);
    var u := [h] + s;
    var k :| 0 <= k < |u| && u[k] == x;
    assert LinkAt(l, c, k);
    var k' := if k == 0 then |s| else k - 1;
    assert LinkAt(l, c, k');
    assert c[k] == x && c[k' + 1] == x;
    assert c[k'] == u[k'];
    assert c[k + 1] == if k == |s| then u[0] else u[k + 1];
  }

  /** Unlinking a node of the region that is not on the ring leaves the ring as it was. */
  lemma RemoveFrame<N>(l: Links<N>, h: N, s: seq<N>, x: N)
    requires Ring(l, h, s) && x !in [h] + s && NodeOk(l, x)
    ensures Ring(DelInit(l, x), h, s)
  {
    var c := Round(h, s);
    if l.next[x] in [h] + s { RingClosed(l, h, s, l.next[x]); }
    if l.prev[x] in [h] + s { RingClosed(l, h, s, l.prev[x]); }
    forall i | 0 <= i <= |s| ensures LinkAt(DelInit(l, x), c, i) {
      assert LinkAt(l, c, i);
      assert forall j :: 0 <= j < |c| ==> c[j] in [h] + s;
    }
  }

  lemma NextInRing<N>(l: Links<N>, h: N, before: seq<N>, suffix: seq<N>)
    requires Ring(l, h, before + suffix) && suffix != []
    ensures suffix[0] in l.next && l.next[suffix[0]] == Round(h, suffix)[2]
  {
    var c := Round(h, before + suffix);
    assert LinkAt(l, c, |before| + 1);
    assert c[|before| + 1] == suffix[0];
    assert c[|before| + 2] == Round(h, suffix)[2];
  }

  // ----- The sequence is determined by the links

  /** The node reached from `x` by following `next` n times. */
  ghost function Walk<N>(l: Links<N>, x: N, n: nat): (r: N)
    requires Linked(l) && x in l.next
    ensures r in l.next
    decreases n
  {
    if n == 0 then x
    else
      var y := Walk(l, x, n - 1);
      assert NodeOk(l, y);
      l.next[y]
  }

  lemma {:induction false} WalkFollowsRing<N>(l: Links<N>, h: N, s: seq<N>, n: nat)
    requires Linked(l) && Ring(l, h, s) && n <= |s| + 1
    ensures h in l.next && Walk(l, h, n) == Round(h, s)[n]
    decreases n
  {
    RingClosed(l, h, s, h);
    if n > 0 {
      WalkFollowsRing(l, h, s, n - 1);
      assert LinkAt(l, Round(h, s), n - 1);
    }
  }

  /** A head has one sequence of members only. */
  lemma RingUnique<N>(l: Links<N>, h: N, s: seq<N>, t: seq<N>)
    requires Ring(l, h, s) && Ring(l, h, t)
    ensures s == t
  {
    RingNotShorter(l, h, s, t);
    RingNotShorter(l, h, t, s);
    forall i | 0 <= i < |s| ensures s[i] == t[i] {
      RingPrefix(l, h, s, t, i + 1);
    }
  }

  lemma RingNotShorter<N>(l: Links<N>, h: N, s: seq<N>, t: seq<N>)
    requires Ring(l, h, s) && Ring(l, h, t)
    ensures |t| <= |s|
  {
    if |s| < |t| {
      var n := |s| + 1;
      assert Round(h, t)[n] == ([h] + t)[n] != ([h] + t)[0];
      RingPrefix(l, h, s, t, n);
      assert false;
    }
  }

  lemma {:induction false} RingPrefix<N>(l: Links<N>, h: N, s: seq<N>, t: seq<N>, n: nat)
    requires Ring(l, h, s) && Ring(l, h, t) && n <= |s| + 1 && n <= |t| + 1
    ensures Round(h, s)[n] == Round(h, t)[n]
    decreases n
  {
    if n > 0 {
      RingPrefix(l, h, s, t, n - 1);
      assert LinkAt(l, Round(h, s), n - 1) && LinkAt(l, Round(h, t), n - 1);
    }
  }

  /** `list_empty` and `list_is_last`, as the macros of a reader of the ring see them. */
  lemma EmptyAndLast<N>(l: Links<N>, h: N, s: seq<N>)
    requires Ring(l, h, s)
    ensures h in l.next && (l.next[h] == h <==> s == [])
    ensures forall x :: x in s ==> x in l.next && (l.next[x] == h <==> x == s[|s| - 1])
  {
    var c := Round(h, s);
    assert LinkAt(l, c, 0);
    assert c[1] == if s == [] then h else s[0];
    assert s != [] ==> ([h] + s)[1] == s[0];
    forall x | x in s
      ensures x in l.next && (l.next[x] == h <==> x == s[|s| - 1])
    {
      var k :| 0 <= k < |s| && s[k] == x;
      assert LinkAt(l, c, k + 1);
      assert k + 1 < |s| ==> ([h] + s)[k + 2] == s[k + 1] != h;
      assert k + 1 < |s| ==> ([h] + s)[|s|] == s[|s| - 1] && ([h] + s)[k + 1] == x;
    }
  }

  /** A member of a list is never self-linked. */
  lemma Detached<N>(l: Links<N>, h: N, s: seq<N>, x: N)
    requires Ring(l, h, s) && x in s
    ensures x in l.next && l.next[x] != x
  {
    var k :| 0 <= k < |s| && s[k] == x;
    assert LinkAt(l, Round(h, s), k + 1);
    var u := [h] + s;
    assert Round(h, s)[k + 2] == if k + 1 == |s| then u[0] else u[k + 2];
    assert u[k + 1] == x;
  }

  /** Going round along `prev` meets the members in exactly the reverse order. */
  lemma MirrorRing<N>(l: Links<N>, h: N, s: seq<N>)
    ensures Ring(l, h, s) <==> Ring(Mirror(l), h, Reverse(s))
  {
    if Ring(l, h, s) {
      MirrorRingForward(l, h, s);
    }
    if Ring(Mirror(l), h, Reverse(s)) {
      MirrorRingForward(Mirror(l), h, Reverse(s));
      assert Reverse(Reverse(s)) == s;
    }
  }

  lemma MirrorRingForward<N>(l: Links<N>, h: N, s: seq<N>)
    requires Ring(l, h, s)
    ensures Ring(Mirror(l), h, Reverse(s))
  {
    var c, d := Round(h, s), Round(h, Reverse(s));
    var n := |s| + 1;
    forall i | 0 <= i <= |s| ensures LinkAt(Mirror(l), d, i) {
      assert LinkAt(l, c, n - 1 - i);
      assert d[i] == c[n - i] && d[i + 1] == c[n - 1 - i];
    }
    var u, v := [h] + s, [h] + Reverse(s);
    forall i, j | 0 <= i < j < |v| ensures v[i] != v[j] {
      assert v[j] == Reverse(s)[j - 1] == u[n - j];
      assert v[i] == u[if i == 0 then 0 else n - i];
    }
  }

  /** By symmetry: adding at the tail is adding at the front of the mirrored ring. */
  lemma RingAddTail<N>(l: Links<N>, h: N, s: seq<N>, x: N)
    requires Ring(l, h, s) && x !in [h] + s
    ensures h in l.prev && Ring(AddTail(l, x, h), h, s + [x])
  {
    var r := Reverse(s);
    RingClosed(l, h, s, h);
    AddTailIsMirroredAddFront(l, x, h);
    MirrorRingForward(l, h, s);
    assert forall y :: y in [h] + r ==> y in [h] + s;
    RingAddFront(Mirror(l), h, r, x);
    MirrorRingForward(AddFront(Mirror(l), x, h), h, [x] + r);
    assert Reverse([x] + r) == s + [x];
    assert Mirror(Mirror(AddTail(l, x, h))) == AddTail(l, x, h);
  }

  /** The walk along `prev` meets, step by step, what the walk along `next` met
      last to first. */
  lemma BackwardWalk<N>(l: Links<N>, h: N, s: seq<N>, n: nat)
    requires Linked(l) && Ring(l, h, s) && n <= |s| + 1
    ensures h in l.next && Linked(Mirror(l))
    ensures Walk(Mirror(l), h, n) == Walk(l, h, |s| + 1 - n)
  {
    var x := Round(h, s)[|s| + 1 - n];
    MirrorWalk(l, h, s, n, x);
    ForwardWalk(l, h, s, |s| + 1 - n, x);
  }

  lemma ForwardWalk<N>(l: Links<N>, h: N, s: seq<N>, n: nat, x: N)
    requires Linked(l) && Ring(l, h, s) && n <= |s| + 1 && x == Round(h, s)[n]
    ensures h in l.next && Walk(l, h, n) == x
  {
    WalkFollowsRing(l, h, s, n);
  }

  lemma MirrorWalk<N>(l: Links<N>, h: N, s: seq<N>, n: nat, x: N)
    requires Linked(l) && Ring(l, h, s) && n <= |s| + 1 && x == Round(h, s)[|s| + 1 - n]
    ensures h in l.prev && Linked(Mirror(l)) && Walk(Mirror(l), h, n) == x
  {
    RoundReverse(h, s, n);
    MirrorLinked(l);
    MirrorRingForward(l, h, s);
    WalkFollowsRing(Mirror(l), h, Reverse(s), n);
  }

  lemma RoundReverse<N>(h: N, s: seq<N>, n: nat)
    requires n <= |s| + 1
    ensures Round(h, Reverse(s))[n] == Round(h, s)[|s| + 1 - n]
  {
    RoundReversed(h, s, Reverse(s), n);
  }

  lemma RoundReversed<N>(h: N, s: seq<N>, r: seq<N>, n: nat)
    requires n <= |s| + 1 && |r| == |s| && forall i :: 0 <= i < |s| ==> r[i] == s[|s| - 1 - i]
    ensures Round(h, r)[n] == Round(h, s)[|s| + 1 - n]
  {
    if 0 < n <= |s| {
      assert Round(h, r)[n] == r[n - 1];
      assert Round(h, s)[|s| + 1 - n] == s[|s| - n];
    }
  }

  // ----- From the local invariant to rings

  /** Pigeonhole: distinct elements of a set are no more than the set holds. */
  lemma {:induction false} DistinctBound<T>(s: seq<T>, all: set<T>)
    requires Distinct(s) && forall x :: x in s ==> x in all
    ensures |s| <= |all|
    decreases s
  {
    if s != [] {
      var x := s[0];
      DistinctBound(s[1..], all - {x});
      assert |all - {x}| == |all| - 1;
    }
  }

  /** Every node of a doubly linked region lies on a finite ring that starts at it. */
  lemma RingOf<N>(l: Links<N>, x: N) returns (s: seq<N>)
    requires Linked(l) && x in l.next
    ensures Ring(l, x, s) && |s| < |l.next.Keys|
    ensures forall y :: y in [x] + s ==> y in l.next
  {
    s := [];
    DistinctBound([x], l.next.Keys);
    assert NodeOk(l, x);
    while l.next[([x] + s)[|s|]] != x
      invariant Distinct([x] + s) && |[x] + s| <= |l.next.Keys|
      invariant forall y :: y in [x] + s ==> y in l.next
      invariant forall i {:trigger LinkAt(l, [x] + s, i)} :: 0 <= i < |s| ==> LinkAt(l, [x] + s, i)
      decreases |l.next.Keys| - |s|
    {
      var u := [x] + s;
      var y := l.next[u[|s|]];
      assert NodeOk(l, u[|s|]);
      forall j | 0 <= j < |u| ensures u[j] != y {
        if j > 0 {
          assert LinkAt(l, u, j - 1);
        }
      }
      var v := [x] + (s + [y]);
      assert v == u + [y];
      forall i | 0 <= i < |s + [y]| ensures LinkAt(l, v, i) {
        if i < |s| {
          assert LinkAt(l, u, i);
        }
      }
      s := s + [y];
      DistinctBound(v, l.next.Keys);
    }
    var u, c := [x] + s, Round(x, s);
    assert NodeOk(l, u[|s|]);
    forall i | 0 <= i <= |s| ensures LinkAt(l, c, i) {
      if i < |s| {
        assert LinkAt(l, u, i);
      }
    }
  }

  /** Following `next` from any node comes back to it within as many steps as
      there are nodes. */
  lemma WalkReturns<N>(l: Links<N>, x: N) returns (n: nat)
    requires Linked(l) && x in l.next
    ensures 0 < n <= |l.next.Keys| && Walk(l, x, n) == x
  {
    var s := RingOf(l, x);
    n := |s| + 1;
    WalkFollowsRing(l, x, s, n);
  }
}
