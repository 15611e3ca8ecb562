/**
 The traversal macros in place around bodies that change the list under the
 loop: the loops below perform exactly the iterations that Traversal and
 SelfMove reason about, whenever those end.
 */
module ListLoops {
  import opened IntrusiveList
  import opened ListLinks
  import opened SelfMove
  import opened Traversal

  /** A node of a linked region can be read, and so can its neighbours. */
  lemma ReadLinked(l: Links<ListHead>, x: ListHead)
    requires Shows(l) && Linked(l) && x in l.next
    ensures x.next == l.next[x] && x.next in l.next && x.prev in l.next
  {
    assert NodeOk(l, x);
    Read(l, x);
  }

  /** Part of a loop body: passes nodes to `list_del_init`, one after the other. */
  method UnlinkAll(xs: seq<ListHead>, ghost l: Links<ListHead>)
    requires Shows(l) && Linked(l) && forall x :: x in xs ==> x in l.next
    modifies l.next.Keys
    ensures Shows(DelAll(l, xs))
  {
    ghost var cur := l;
    var i := 0;
    assert xs[0..] == xs;
    while i < |xs|
      invariant i <= |xs| && Shows(cur) && Linked(cur) && cur.next.Keys == l.next.Keys
      invariant forall x :: x in xs[i..] ==> x in cur.next
      invariant DelAll(cur, xs[i..]) == DelAll(l, xs)
    {
      assert xs[i..][0] == xs[i] && xs[i..][1..] == xs[i + 1..];
      assert forall x :: x in xs[i + 1..] ==> x in xs[i..];
      DelInitKeepsLinked(cur, xs[i]);
      ReadLinked(cur, xs[i]);
      ListDelInit(xs[i], cur);
      cur := DelInit(cur, xs[i]);
      i := i + 1;
    }
  }

  /** The body at the cursor; the links are then those of the next step. */
  method RunBody(safe: bool, pos: ListHead, k: nat, body: Body<ListHead>, ghost c: Cursor<ListHead>)
    requires Fits(c, body) && Shows(c.l) && pos == c.pos && k == c.k
    modifies c.l.next.Keys
    ensures Shows(Step(safe, c, body).l) && Step(safe, c, body).l.next.Keys == c.l.next.Keys
    ensures Step(safe, c, body).pos == (if safe then c.n else pos.next)
    ensures Step(safe, c, body).n == Step(safe, c, body).pos.next
  {
    UnlinkAll(body(k, pos), c.l);
    ghost var c' := Step(safe, c, body);
    ReadLinked(c'.l, pos);
    ReadLinked(c'.l, c'.pos);
  }

  lemma ReadStart(l: Links<ListHead>, h: ListHead)
    requires Shows(l) && Linked(l) && h in l.next
    ensures h.next == Start(l, h).pos && h.next.next == Start(l, h).n
  {
    ReadLinked(l, h);
    ReadLinked(l, l.next[h]);
  }

  /** Place k of the run of a loop: the cursor there is not at the head, and one
      step leads to the next. */
  ghost predicate VisitsAt(safe: bool, h: ListHead, body: Body<ListHead>, trace: seq<Cursor<ListHead>>,
                           all: seq<ListHead>, k: nat)
  {
    && k < |all| < |trace|
    && Fits(trace[k], body) && trace[k].pos == all[k] != h && trace[k].k == k
    && trace[k + 1] == Step(safe, trace[k], body)
  }

  /** The cursors a loop that ends passes through, and the nodes it visits. */
  lemma {:induction false} VisitsTraceFrom(safe: bool, c: Cursor<ListHead>, h: ListHead, body: Body<ListHead>,
                                           fuel: nat, trace: seq<Cursor<ListHead>>, all: seq<ListHead>)
    returns (trace': seq<Cursor<ListHead>>, all': seq<ListHead>)
    requires Fits(c, body) && Visits(safe, c, h, body, fuel).1 && c.k == |all|
    requires |trace| == |all| + 1 && trace[|all|] == c
    requires forall k {:trigger VisitsAt(safe, h, body, trace, all, k)} ::
               0 <= k < |all| ==> VisitsAt(safe, h, body, trace, all, k)
    ensures |trace'| == |all'| + 1 && trace <= trace' && all' == all + Visits(safe, c, h, body, fuel).0
    ensures trace'[|all'|].pos == h
    ensures forall k {:trigger VisitsAt(safe, h, body, trace', all', k)} ::
              0 <= k < |all'| ==> VisitsAt(safe, h, body, trace', all', k)
    decreases fuel
  {
    if c.pos == h {
      trace', all' := trace, all;
      assert all + [] == all;
    } else {
      var c' := Step(safe, c, body);
      ExtendVisits(safe, c, h, body, trace, all);
      trace', all' := VisitsTraceFrom(safe, c', h, body, fuel - 1, trace + [c'], all + [c.pos]);
      AppendOne(all, c.pos, Visits(safe, c', h, body, fuel - 1).0);
    }
  }

  lemma Grow<T>(a: seq<T>, v: seq<T>)
    requires |v| < |a| && v == a[..|v|]
    ensures v + [a[|v|]] == a[..|v| + 1]
  {
  }

  lemma AppendOne<T>(a: seq<T>, x: T, b: seq<T>)
    ensures (a + [x]) + b == a + ([x] + b)
  {
  }

  lemma ExtendVisits(safe: bool, c: Cursor<ListHead>, h: ListHead, body: Body<ListHead>,
                     trace: seq<Cursor<ListHead>>, all: seq<ListHead>)
    requires Fits(c, body) && c.pos != h && c.k == |all|
    requires |trace| == |all| + 1 && trace[|all|] == c
    requires forall k {:trigger VisitsAt(safe, h, body, trace, all, k)} ::
               0 <= k < |all| ==> VisitsAt(safe, h, body, trace, all, k)
    ensures var t, a := trace + [Step(safe, c, body)], all + [c.pos];
            forall k {:trigger VisitsAt(safe, h, body, t, a, k)} :: 0 <= k < |a| ==> VisitsAt(safe, h, body, t, a, k)
  {
    var t, a := trace + [Step(safe, c, body)], all + [c.pos];
    forall k | 0 <= k < |a| ensures VisitsAt(safe, h, body, t, a, k) {
      if k < |all| {
        assert VisitsAt(safe, h, body, trace, all, k);
      }
    }
  }

  lemma VisitsNext(safe: bool, h: ListHead, body: Body<ListHead>, trace: seq<Cursor<ListHead>>, all: seq<ListHead>,
                   k: nat)
    requires k < |trace| == |all| + 1 && trace[|all|].pos == h != trace[k].pos
    requires forall k {:trigger VisitsAt(safe, h, body, trace, all, k)} ::
               0 <= k < |all| ==> VisitsAt(safe, h, body, trace, all, k)
    ensures k < |all| && Fits(trace[k], body) && trace[k].pos == all[k] && trace[k].k == k
    ensures trace[k + 1] == Step(safe, trace[k], body)
  {
    assert k < |all|;
    assert VisitsAt(safe, h, body, trace, all, k);
  }

  lemma VisitsAtEnd(safe: bool, h: ListHead, body: Body<ListHead>, trace: seq<Cursor<ListHead>>, all: seq<ListHead>,
                    k: nat)
    requires k < |trace| == |all| + 1 && trace[k].pos == h
    requires forall k {:trigger VisitsAt(safe, h, body, trace, all, k)} ::
               0 <= k < |all| ==> VisitsAt(safe, h, body, trace, all, k)
    ensures k == |all|
  {
    assert k < |all| ==> VisitsAt(safe, h, body, trace, all, k);
  }

  lemma VisitsTrace(safe: bool, c: Cursor<ListHead>, h: ListHead, body: Body<ListHead>, fuel: nat)
    returns (trace: seq<Cursor<ListHead>>, all: seq<ListHead>)
    requires Fits(c, body) && c.k == 0 && Visits(safe, c, h, body, fuel).1
    ensures |trace| == |all| + 1 && trace[0] == c && trace[|all|].pos == h
    ensures all == Visits(safe, c, h, body, fuel).0
    ensures forall k {:trigger VisitsAt(safe, h, body, trace, all, k)} ::
              0 <= k < |all| ==> VisitsAt(safe, h, body, trace, all, k)
  {
    trace, all := VisitsTraceFrom(safe, c, h, body, fuel, [c], []);
    assert all == Visits(safe, c, h, body, fuel).0;
  }

  /** Everything the body has unlinked at the nodes visited, in order. */
  ghost function Unlinked(body: Body<ListHead>, visited: seq<ListHead>): seq<ListHead> {
    if visited == [] then []
    else
      var k := |visited| - 1;
      Unlinked(body, visited[..k]) + body(k, visited[k])
  }

  lemma {:induction false} DelAllConcat(l: Links<ListHead>, xs: seq<ListHead>, ys: seq<ListHead>)
    requires Linked(l) && forall x :: x in xs + ys ==> x in l.next
    ensures DelAll(l, xs + ys) == DelAll(DelAll(l, xs), ys)
    decreases xs
  {
    if xs == [] {
      assert xs + ys == ys;
    } else {
      DelInitKeepsLinked(l, xs[0]);
      assert (xs + ys)[0] == xs[0] && (xs + ys)[1..] == xs[1..] + ys;
      assert forall x :: x in xs[1..] + ys ==> x in xs + ys;
      DelAllConcat(DelInit(l, xs[0]), xs[1..], ys);
    }
  }

  lemma UnlinkedGrows(body: Body<ListHead>, all: seq<ListHead>, k: nat)
    requires k < |all|
    ensures Unlinked(body, all[..k + 1]) == Unlinked(body, all[..k]) + body(k, all[k])
  {
    assert all[..k + 1][..k] == all[..k];
  }

  /** The links after k iterations. */
  lemma {:induction false} LinksAt(safe: bool, h: ListHead, body: Body<ListHead>, trace: seq<Cursor<ListHead>>,
                                   all: seq<ListHead>, k: nat)
    requires k <= |all| < |trace| && Fits(trace[0], body)
    requires forall j {:trigger VisitsAt(safe, h, body, trace, all, j)} ::
               0 <= j < |all| ==> VisitsAt(safe, h, body, trace, all, j)
    ensures Linked(trace[k].l) && trace[k].l.next.Keys == trace[0].l.next.Keys
    ensures forall x :: x in Unlinked(body, all[..k]) ==> x in trace[0].l.next
    ensures trace[k].l == DelAll(trace[0].l, Unlinked(body, all[..k]))
    decreases k
  {
    if k > 0 {
      LinksAt(safe, h, body, trace, all, k - 1);
      assert VisitsAt(safe, h, body, trace, all, k - 1);
      UnlinkedGrows(body, all, k - 1);
      DelAllConcat(trace[0].l, Unlinked(body, all[..k - 1]), body(k - 1, all[k - 1]));
    }
  }

  /** `list_for_each_safe` around a body that unlinks any nodes of the region. */
  method ListForEachSafe(head: ListHead, body: Body<ListHead>, ghost l: Links<ListHead>, ghost fuel: nat)
    returns (visited: seq<ListHead>, ghost l': Links<ListHead>)
    requires Shows(l) && Linked(l) && head in l.next && Fits(Start(l, head), body)
    requires Visits(true, Start(l, head), head, body, fuel).1
    modifies l.next.Keys
    ensures visited == Visits(true, Start(l, head), head, body, fuel).0
    ensures forall x :: x in Unlinked(body, visited) ==> x in l.next
    ensures Shows(l') && l' == DelAll(l, Unlinked(body, visited))
  {
    ghost var trace, all := VisitsTrace(true, Start(l, head), head, body, fuel);
    ReadStart(l, head);
    visited := [];
    var pos := head.next;
    var n := pos.next;
    while pos != head
      invariant |visited| < |trace| && visited == all[..|visited|]
      invariant Shows(trace[|visited|].l) && trace[|visited|].l.next.Keys == l.next.Keys
      invariant pos == trace[|visited|].pos && n == trace[|visited|].n
      decreases |trace| - |visited|
    {
      ghost var c := trace[|visited|];
      VisitsNext(true, head, body, trace, all, |visited|);
      RunBody(true, pos, |visited|, body, c);
      Grow(all, visited);
      visited := visited + [pos];
      pos := n;
      n := pos.next;
    }
    VisitsAtEnd(true, head, body, trace, all, |visited|);
    assert all[..|all|] == all;
    LinksAt(true, head, body, trace, all, |all|);
    l' := trace[|visited|].l;
  }

  /** `list_for_each_entry` around a body that unlinks any nodes of the region. */
  method ListForEachEntryUnlinking(head: ListHead, body: Body<ListHead>, ghost l: Links<ListHead>, ghost fuel: nat)
    returns (visited: seq<ListHead>, ghost l': Links<ListHead>)
    requires Shows(l) && Linked(l) && head in l.next && Fits(Start(l, head), body)
    requires Visits(false, Start(l, head), head, body, fuel).1
    modifies l.next.Keys
    ensures visited == Visits(false, Start(l, head), head, body, fuel).0
    ensures forall x :: x in Unlinked(body, visited) ==> x in l.next
    ensures Shows(l') && l' == DelAll(l, Unlinked(body, visited))
  {
    ghost var trace, all := VisitsTrace(false, Start(l, head), head, body, fuel);
    ReadStart(l, head);
    visited := [];
    var pos := head.next;
    while pos != head
      invariant |visited| < |trace| && visited == all[..|visited|]
      invariant Shows(trace[|visited|].l) && trace[|visited|].l.next.Keys == l.next.Keys
      invariant pos == trace[|visited|].pos
      decreases |trace| - |visited|
    {
      ghost var c := trace[|visited|];
      VisitsNext(false, head, body, trace, all, |visited|);
      RunBody(false, pos, |visited|, body, c);
      Grow(all, visited);
      visited := visited + [pos];
      pos := pos.next;
    }
    VisitsAtEnd(false, head, body, trace, all, |visited|);
    assert all[..|all|] == all;
    LinksAt(false, head, body, trace, all, |all|);
    l' := trace[|visited|].l;
  }

  /** A loop body: moves the node to the tail or the front of the traversed list if it is picked. */
  method MoveWithin(pos: ListHead, head: ListHead, p: set<ListHead>, tail: bool, ghost l: Links<ListHead>)
    requires Shows(l) && Linked(l) && pos in l.next && head in l.next
    modifies l.next.Keys
    ensures Shows(Moved(tail, l, pos, head, p))
  {
    if pos in p {
      DelInitKeepsLinked(l, pos);
      ReadLinked(l, pos);
      ListDelInit(pos, l);
      ghost var l1 := DelInit(l, pos);
      ReadLinked(l1, head);
      if tail {
        ListAddTail(pos, head, l1);
      } else {
        ListAdd(pos, head, l1);
      }
    }
  }

  ghost predicate TourAt(tail: bool, h: ListHead, p: set<ListHead>, trace: seq<Cursor<ListHead>>,
                         all: seq<ListHead>, k: nat)
  {
    && k < |all| < |trace|
    && Ready(trace[k], h) && trace[k].pos == all[k] != h
    && trace[k + 1] == MoveStep(tail, trace[k], h, p)
  }

  lemma {:induction false} TourTraceFrom(tail: bool, c: Cursor<ListHead>, h: ListHead, p: set<ListHead>, fuel: nat,
                                         trace: seq<Cursor<ListHead>>, all: seq<ListHead>)
    returns (trace': seq<Cursor<ListHead>>, all': seq<ListHead>)
    requires Ready(c, h) && Tour(tail, c, h, p, fuel).1
    requires |trace| == |all| + 1 && trace[|all|] == c
    requires forall k {:trigger TourAt(tail, h, p, trace, all, k)} ::
               0 <= k < |all| ==> TourAt(tail, h, p, trace, all, k)
    ensures |trace'| == |all'| + 1 && trace <= trace' && all' == all + Tour(tail, c, h, p, fuel).0
    ensures trace'[|all'|].pos == h && trace'[|all'|].l == Tour(tail, c, h, p, fuel).2
    ensures forall k {:trigger TourAt(tail, h, p, trace', all', k)} ::
              0 <= k < |all'| ==> TourAt(tail, h, p, trace', all', k)
    decreases fuel
  {
    if c.pos == h {
      trace', all' := trace, all;
      assert all + [] == all;
    } else {
      var c' := MoveStep(tail, c, h, p);
      ExtendTour(tail, c, h, p, trace, all);
      trace', all' := TourTraceFrom(tail, c', h, p, fuel - 1, trace + [c'], all + [c.pos]);
      AppendOne(all, c.pos, Tour(tail, c', h, p, fuel - 1).0);
    }
  }

  lemma ExtendTour(tail: bool, c: Cursor<ListHead>, h: ListHead, p: set<ListHead>,
                   trace: seq<Cursor<ListHead>>, all: seq<ListHead>)
    requires Ready(c, h) && c.pos != h
    requires |trace| == |all| + 1 && trace[|all|] == c
    requires forall k {:trigger TourAt(tail, h, p, trace, all, k)} ::
               0 <= k < |all| ==> TourAt(tail, h, p, trace, all, k)
    ensures var t, a := trace + [MoveStep(tail, c, h, p)], all + [c.pos];
            forall k {:trigger TourAt(tail, h, p, t, a, k)} :: 0 <= k < |a| ==> TourAt(tail, h, p, t, a, k)
  {
    var t, a := trace + [MoveStep(tail, c, h, p)], all + [c.pos];
    forall k | 0 <= k < |a| ensures TourAt(tail, h, p, t, a, k) {
      if k < |all| {
        assert TourAt(tail, h, p, trace, all, k);
      }
    }
  }

  lemma TourNext(tail: bool, h: ListHead, p: set<ListHead>, trace: seq<Cursor<ListHead>>, all: seq<ListHead>, k: nat)
    requires k < |trace| == |all| + 1 && trace[|all|].pos == h != trace[k].pos
    requires forall k {:trigger TourAt(tail, h, p, trace, all, k)} ::
               0 <= k < |all| ==> TourAt(tail, h, p, trace, all, k)
    ensures k < |all| && Ready(trace[k], h) && trace[k].pos == all[k] && trace[k + 1] == MoveStep(tail, trace[k], h, p)
  {
    assert k < |all|;
    assert TourAt(tail, h, p, trace, all, k);
  }

  lemma TourAtEnd(tail: bool, h: ListHead, p: set<ListHead>, trace: seq<Cursor<ListHead>>, all: seq<ListHead>, k: nat)
    requires k < |trace| == |all| + 1 && trace[k].pos == h
    requires forall k {:trigger TourAt(tail, h, p, trace, all, k)} ::
               0 <= k < |all| ==> TourAt(tail, h, p, trace, all, k)
    ensures k == |all|
  {
    assert k < |all| ==> TourAt(tail, h, p, trace, all, k);
  }

  lemma TourTrace(tail: bool, c: Cursor<ListHead>, h: ListHead, p: set<ListHead>, fuel: nat)
    returns (trace: seq<Cursor<ListHead>>, all: seq<ListHead>)
    requires Ready(c, h) && Tour(tail, c, h, p, fuel).1
    ensures |trace| == |all| + 1 && trace[0] == c && trace[|all|].pos == h
    ensures (all, true, trace[|all|].l) == Tour(tail, c, h, p, fuel)
    ensures forall k {:trigger TourAt(tail, h, p, trace, all, k)} ::
              0 <= k < |all| ==> TourAt(tail, h, p, trace, all, k)
  {
    trace, all := TourTraceFrom(tail, c, h, p, fuel, [c], []);
    assert all == Tour(tail, c, h, p, fuel).0;
  }

  /** One iteration at the cursor: the body, then the third clause of the `for`. */
  method IterateMove(pos: ListHead, n: ListHead, head: ListHead, p: set<ListHead>, tail: bool,
                     ghost c: Cursor<ListHead>)
    returns (pos': ListHead, n': ListHead)
    requires Ready(c, head) && Shows(c.l) && pos == c.pos && n == c.n
    modifies c.l.next.Keys
    ensures var c' := MoveStep(tail, c, head, p); Shows(c'.l) && pos' == c'.pos && n' == c'.n
  {
    MoveWithin(pos, head, p, tail, c.l);
    ReadLinked(Moved(tail, c.l, pos, head, p), n);
    pos', n' := n, n.next;
  }

  /** The loop, along the cursors it is to pass through. */
  method MoveAlong(head: ListHead, p: set<ListHead>, tail: bool, ghost region: set<ListHead>,
                   ghost trace: seq<Cursor<ListHead>>, ghost all: seq<ListHead>)
    returns (visited: seq<ListHead>)
    requires |trace| == |all| + 1 && trace[|all|].pos == head
    requires Ready(trace[0], head) && Shows(trace[0].l) && trace[0] == Start(trace[0].l, head)
    requires region == trace[0].l.next.Keys
    requires forall k {:trigger TourAt(tail, head, p, trace, all, k)} ::
               0 <= k < |all| ==> TourAt(tail, head, p, trace, all, k)
    modifies region
    ensures Shows(trace[|all|].l) && visited == all
  {
    ReadStart(trace[0].l, head);
    visited := [];
    var pos := head.next;
    var n := pos.next;
    while pos != head
      invariant |visited| < |trace| && visited == all[..|visited|]
      invariant Shows(trace[|visited|].l) && trace[|visited|].l.next.Keys == region
      invariant pos == trace[|visited|].pos && n == trace[|visited|].n
      decreases |trace| - |visited|
    {
      ghost var c := trace[|visited|];
      TourNext(tail, head, p, trace, all, |visited|);
      Grow(all, visited);
      visited := visited + [pos];
      pos, n := IterateMove(pos, n, head, p, tail, c);
    }
    TourAtEnd(tail, head, p, trace, all, |visited|);
    assert all[..|all|] == all;
  }

  /** `list_for_each_safe` around a body that moves the picked members within the
      traversed list, in every case in which the loop ends. */
  method ListForEachSafeMoveWithin(head: ListHead, p: set<ListHead>, tail: bool,
                                   ghost l: Links<ListHead>, ghost fuel: nat)
    returns (visited: seq<ListHead>, ghost l': Links<ListHead>)
    requires Shows(l) && Linked(l) && head in l.next && Tour(tail, Start(l, head), head, p, fuel).1
    modifies l.next.Keys
    ensures Shows(l') && (visited, true, l') == Tour(tail, Start(l, head), head, p, fuel)
  {
    ghost var trace, all := TourTrace(tail, Start(l, head), head, p, fuel);
    visited := MoveAlong(head, p, tail, l.next.Keys, trace, all);
    l' := trace[|all|].l;
  }
}
