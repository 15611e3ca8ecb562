/**
 One list used as a queue or stack: `list_add`, `list_add_tail`, and taking
 `head->next` or `head->prev` off with `list_del_init` when `list_empty` is
 false. Guards are what a caller can read off the links; the run refines a
 double-ended queue of nodes.
 */
module Deque {
  import opened ListLinks
  import opened Rings
  import opened Sequences

  datatype DequeOp<N> = PushFront(x: N) | PushBack(x: N) | TakeFront | TakeBack

  // ----- On links

  ghost predicate MayCall<N>(l: Links<N>, h: N, op: DequeOp<N>)
    requires Linked(l) && h in l.next
  {
    if op.TakeFront? || op.TakeBack? then l.next[h] != h
    else op.x in l.next && op.x != h && l.next[op.x] == op.x
  }

  /** The new links and the node taken, if any. */
  ghost function Call<N>(l: Links<N>, h: N, op: DequeOp<N>): (r: (Links<N>, seq<N>))
    requires Linked(l) && h in l.next && MayCall(l, h, op)
    ensures Linked(r.0) && r.0.next.Keys == l.next.Keys
  {
    assert NodeOk(l, h);
    match op
    case PushFront(x) => InsertKeepsLinkedIff(l, x, h, l.next[h]); (AddFront(l, x, h), [])
    case PushBack(x) =>
      assert NodeOk(l, l.prev[h]);
      InsertKeepsLinkedIff(l, x, l.prev[h], h); (AddTail(l, x, h), [])
    case TakeFront => DelInitKeepsLinked(l, l.next[h]); (DelInit(l, l.next[h]), [l.next[h]])
    case TakeBack => DelInitKeepsLinked(l, l.prev[h]); (DelInit(l, l.prev[h]), [l.prev[h]])
  }

  ghost predicate MayRun<N>(l: Links<N>, h: N, ops: seq<DequeOp<N>>)
    requires Linked(l) && h in l.next
    decreases ops
  {
    ops == [] || (MayCall(l, h, ops[0]) && MayRun(Call(l, h, ops[0]).0, h, ops[1..]))
  }

  ghost function CallAll<N>(l: Links<N>, h: N, ops: seq<DequeOp<N>>): (r: (Links<N>, seq<N>))
    requires Linked(l) && h in l.next && MayRun(l, h, ops)
    ensures Linked(r.0) && r.0.next.Keys == l.next.Keys
    decreases ops
  {
    if ops == [] then (l, [])
    else
      var (l1, taken) := Call(l, h, ops[0]);
      var (l2, more) := CallAll(l1, h, ops[1..]);
      (l2, taken + more)
  }

  // ----- On sequences

  ghost predicate MayDo<N>(s: seq<N>, op: DequeOp<N>) {
    op.TakeFront? || op.TakeBack? ==> s != []
  }

  ghost function Do<N>(s: seq<N>, op: DequeOp<N>): (seq<N>, seq<N>)
    requires MayDo(s, op)
  {
    match op
    case PushFront(x) => ([x] + s, [])
    case PushBack(x) => (s + [x], [])
    case TakeFront => (s[1..], [s[0]])
    case TakeBack => (s[..|s| - 1], [s[|s| - 1]])
  }

  ghost predicate MayDoAll<N>(s: seq<N>, ops: seq<DequeOp<N>>)
    decreases ops
  {
    ops == [] || (MayDo(s, ops[0]) && MayDoAll(Do(s, ops[0]).0, ops[1..]))
  }

  ghost function DoAll<N>(s: seq<N>, ops: seq<DequeOp<N>>): (seq<N>, seq<N>)
    requires MayDoAll(s, ops)
    decreases ops
  {
    if ops == [] then (s, [])
    else
      var (s1, taken) := Do(s, ops[0]);
      var (s2, more) := DoAll(s1, ops[1..]);
      (s2, taken + more)
  }

  // ----- The links refine the sequence

  lemma CallRefines<N>(l: Links<N>, h: N, s: seq<N>, op: DequeOp<N>)
    requires Linked(l) && Ring(l, h, s) && h in l.next && MayCall(l, h, op)
    ensures MayDo(s, op) && Call(l, h, op).1 == Do(s, op).1
    ensures Ring(Call(l, h, op).0, h, Do(s, op).0)
  {
    EmptyAndLast(l, h, s);
    match op
    case PushFront(x) =>
      NotOnRing(l, h, s, x);
      RingAddFront(l, h, s, x);
    case PushBack(x) =>
      NotOnRing(l, h, s, x);
      RingAddTail(l, h, s, x);
    case TakeFront =>
      RingTakeFront(l, h, s);
    case TakeBack =>
      RingTakeBack(l, h, s);
  }

  lemma NotOnRing<N>(l: Links<N>, h: N, s: seq<N>, x: N)
    requires Ring(l, h, s) && x in l.next && l.next[x] == x && x != h
    ensures x !in [h] + s
  {
    if x in s {
      Detached(l, h, s, x);
      assert false;
    }
  }

  /** What a caller can read off the links is what the list allows: a take needs
      a member, a push a node of the region that is on no list and not the head. */
  lemma MayCallIff<N>(l: Links<N>, h: N, s: seq<N>, op: DequeOp<N>)
    requires Linked(l) && Ring(l, h, s) && h in l.next
    ensures op.TakeFront? || op.TakeBack? ==> (MayCall(l, h, op) <==> s != [])
    ensures op.PushFront? || op.PushBack? ==> (MayCall(l, h, op) <==> op.x != h && Ring(l, op.x, []))
  {
    EmptyAndLast(l, h, s);
    if op.PushFront? || op.PushBack? {
      if MayCall(l, h, op) {
        assert NodeOk(l, op.x);
        SelfLinkedRing(l, op.x);
      }
      if Ring(l, op.x, []) {
        EmptyAndLast(l, op.x, []);
      }
    }
  }

  /** Each call works at its own end of the list, the front being `next` of the head. */
  lemma CallEffects<N>(l: Links<N>, h: N, s: seq<N>, op: DequeOp<N>)
    requires Linked(l) && Ring(l, h, s) && h in l.next && MayCall(l, h, op)
    ensures var (l', taken) := Call(l, h, op);
            && (op.PushFront? ==> taken == [] && Ring(l', h, [op.x] + s))
            && (op.PushBack? ==> taken == [] && Ring(l', h, s + [op.x]))
            && (op.TakeFront? ==> s != [] && taken == [s[0]] && Ring(l', h, s[1..]))
            && (op.TakeBack? ==> s != [] && taken == [s[|s| - 1]] && Ring(l', h, s[..|s| - 1]))
            && (forall x :: x in taken ==> Ring(l', x, []))
  {
    CallRefines(l, h, s, op);
    if op.TakeFront? {
      DetachedAfter(l, s[0]);
    } else if op.TakeBack? {
      DetachedAfter(l, s[|s| - 1]);
    }
  }

  lemma DetachedAfter<N>(l: Links<N>, x: N)
    requires x in l.next && x in l.prev
    ensures Ring(DelInit(l, x), x, [])
  {
    SelfLinkedRing(DelInit(l, x), x);
  }

  /** No other list changes, unless it is that of the node pushed. */
  lemma CallFrame<N>(l: Links<N>, h: N, s: seq<N>, op: DequeOp<N>, g: N, t: seq<N>)
    requires Linked(l) && Ring(l, h, s) && h in l.next && MayCall(l, h, op)
    requires Ring(l, g, t) && Members(g, t) !! Members(h, s)
    requires op.PushFront? || op.PushBack? ==> op.x !in [g] + t
    ensures Ring(Call(l, h, op).0, g, t)
  {
    RingClosed(l, h, s, h);
    assert forall y :: y in [h] + s ==> y in Members(h, s);
    assert forall y :: y in [g] + t ==> y in Members(g, t);
    match op
    case PushFront(x) => InsertFrame(l, g, t, x, h, l.next[h]);
    case PushBack(x) => InsertFrame(l, g, t, x, l.prev[h], h);
    case TakeFront =>
      assert NodeOk(l, l.next[h]);
      RemoveFrame(l, g, t, l.next[h]);
    case TakeBack =>
      assert NodeOk(l, l.prev[h]);
      RemoveFrame(l, g, t, l.prev[h]);
  }

  /** Any interleaving of the four calls, each guarded by what the links show,
      yields exactly the nodes and leaves exactly the list a deque would. */
  lemma {:induction false} RunRefinesDeque<N>(l: Links<N>, h: N, s: seq<N>, ops: seq<DequeOp<N>>)
    requires Linked(l) && Ring(l, h, s) && h in l.next && MayRun(l, h, ops)
    ensures MayDoAll(s, ops) && CallAll(l, h, ops).1 == DoAll(s, ops).1
    ensures Ring(CallAll(l, h, ops).0, h, DoAll(s, ops).0)
    decreases ops
  {
    if ops == [] {
    } else {
      CallRefines(l, h, s, ops[0]);
      RunRefinesDeque(Call(l, h, ops[0]).0, h, Do(s, ops[0]).0, ops[1..]);
    }
  }

  /** A run makes its calls one after the other, each on the links the ones before have left. */
  lemma {:induction false} CallLast<N>(l: Links<N>, h: N, ops: seq<DequeOp<N>>, op: DequeOp<N>)
    requires Linked(l) && h in l.next
    ensures MayRun(l, h, ops + [op]) <==> MayRun(l, h, ops) && MayCall(CallAll(l, h, ops).0, h, op)
    ensures MayRun(l, h, ops + [op]) ==>
              var (l1, taken) := CallAll(l, h, ops);
              CallAll(l, h, ops + [op]) == (Call(l1, h, op).0, taken + Call(l1, h, op).1)
    decreases ops
  {
    var all := ops + [op];
    if ops == [] {
      assert all[0] == op && all[1..] == [];
      if MayCall(l, h, op) {
        var (l1, taken) := Call(l, h, op);
        assert CallAll(l1, h, all[1..]) == (l1, []);
        assert taken + [] == [] + taken;
      }
    } else {
      assert all[0] == ops[0] && all[1..] == ops[1..] + [op];
      if MayCall(l, h, ops[0]) {
        var (l1, taken) := Call(l, h, ops[0]);
        CallLast(l1, h, ops[1..], op);
        if MayRun(l, h, all) {
          var (l2, more) := CallAll(l1, h, ops[1..]);
          Associative(taken, more, Call(l2, h, op).1);
        }
      }
    }
  }

  // ----- What a deque promises

  ghost function PushedBy<N>(op: DequeOp<N>): seq<N> {
    if op.PushFront? || op.PushBack? then [op.x] else []
  }

  ghost function Pushed<N>(ops: seq<DequeOp<N>>): seq<N> {
    if ops == [] then []
    else PushedBy(ops[0]) + Pushed(ops[1..])
  }

  lemma DoConserves<N>(s: seq<N>, op: DequeOp<N>)
    requires MayDo(s, op)
    ensures multiset(s) + multiset(PushedBy(op)) == multiset(Do(s, op).1) + multiset(Do(s, op).0)
  {
    assert op.TakeFront? ==> s == [s[0]] + s[1..];
    assert op.TakeBack? ==> s == s[..|s| - 1] + [s[|s| - 1]];
  }

  lemma ChainCounts<T>(a: multiset<T>, p: multiset<T>, t: multiset<T>, b: multiset<T>,
                       q: multiset<T>, u: multiset<T>, c: multiset<T>)
    requires a + p == t + b && b + q == u + c
    ensures a + (p + q) == (t + u) + c
  {
    assert a + (p + q) == (a + p) + q == t + (b + q) == (t + u) + c;
  }

  lemma {:induction false} DoAllConserves<N>(s: seq<N>, ops: seq<DequeOp<N>>)
    requires MayDoAll(s, ops)
    ensures multiset(s) + multiset(Pushed(ops)) == multiset(DoAll(s, ops).1) + multiset(DoAll(s, ops).0)
    decreases ops
  {
    if ops == [] {
    } else {
      var (s1, taken) := Do(s, ops[0]);
      var (s2, more) := DoAll(s1, ops[1..]);
      DoConserves(s, ops[0]);
      DoAllConserves(s1, ops[1..]);
      assert DoAll(s, ops) == (s2, taken + more);
      assert multiset(taken + more) == multiset(taken) + multiset(more);
      assert multiset(Pushed(ops)) == multiset(PushedBy(ops[0])) + multiset(Pushed(ops[1..]));
      ChainCounts(multiset(s), multiset(PushedBy(ops[0])), multiset(taken), multiset(s1),
                  multiset(Pushed(ops[1..])), multiset(more), multiset(s2));
    }
  }

  /** Nothing is lost or duplicated, whatever the interleaving: the nodes taken and
      those left on the ring are those there at first and those added. */
  lemma Conservation<N>(l: Links<N>, h: N, s: seq<N>, ops: seq<DequeOp<N>>) returns (left: seq<N>)
    requires Linked(l) && Ring(l, h, s) && h in l.next && MayRun(l, h, ops)
    ensures Ring(CallAll(l, h, ops).0, h, left)
    ensures multiset(s) + multiset(Pushed(ops)) == multiset(CallAll(l, h, ops).1) + multiset(left)
  {
    RunRefinesDeque(l, h, s, ops);
    DoAllConserves(s, ops);
    left := DoAll(s, ops).0;
  }

  ghost predicate Queueing<N>(ops: seq<DequeOp<N>>) {
    forall i :: 0 <= i < |ops| ==> ops[i].PushBack? || ops[i].TakeFront?
  }

  lemma DoInOrder<N>(s: seq<N>, op: DequeOp<N>)
    requires MayDo(s, op) && (op.PushBack? || op.TakeFront?)
    ensures s + PushedBy(op) == Do(s, op).1 + Do(s, op).0
  {
  }

  lemma {:induction false} QueueOrder<N>(s: seq<N>, ops: seq<DequeOp<N>>)
    requires MayDoAll(s, ops) && Queueing(ops)
    ensures s + Pushed(ops) == DoAll(s, ops).1 + DoAll(s, ops).0
    decreases ops
  {
    if ops == [] {
    } else {
      var (s1, taken) := Do(s, ops[0]);
      var (s2, more) := DoAll(s1, ops[1..]);
      QueueOrder(s1, ops[1..]);
      DoInOrder(s, ops[0]);
      assert DoAll(s, ops) == (s2, taken + more);
      ChainConcat(s, PushedBy(ops[0]), taken, s1, Pushed(ops[1..]), more, s2);
    }
  }

  lemma ChainConcat<T>(a: seq<T>, p: seq<T>, t: seq<T>, b: seq<T>, q: seq<T>, u: seq<T>, c: seq<T>)
    requires a + p == t + b && b + q == u + c
    ensures a + (p + q) == (t + u) + c
  {
    assert a + (p + q) == (a + p) + q == t + (b + q) == (t + u) + c;
  }

  /** `list_add_tail` with take-front is first in, first out: the nodes taken,
      then those left, are those there at first, then those added. */
  lemma Fifo<N>(l: Links<N>, h: N, s: seq<N>, ops: seq<DequeOp<N>>) returns (left: seq<N>)
    requires Linked(l) && Ring(l, h, s) && h in l.next && MayRun(l, h, ops) && Queueing(ops)
    ensures Ring(CallAll(l, h, ops).0, h, left)
    ensures CallAll(l, h, ops).1 + left == s + Pushed(ops)
  {
    RunRefinesDeque(l, h, s, ops);
    QueueOrder(s, ops);
    left := DoAll(s, ops).0;
  }

  /** Stack operations that, begun at depth d, end at depth e and never go below 0. */
  ghost predicate Nested<N>(ops: seq<DequeOp<N>>, d: nat, e: nat)
    decreases ops
  {
    if ops == [] then d == e
    else if ops[0].PushFront? then Nested(ops[1..], d + 1, e)
    else ops[0].TakeFront? && d > 0 && Nested(ops[1..], d - 1, e)
  }

  lemma {:induction false} NestedKeepsBelow<N>(top: seq<N>, s: seq<N>, ops: seq<DequeOp<N>>, e: nat)
    returns (top': seq<N>)
    requires Nested(ops, |top|, e)
    ensures MayDoAll(top + s, ops) && DoAll(top + s, ops).0 == top' + s && |top'| == e
    decreases ops
  {
    if ops == [] {
      top' := top;
    } else if ops[0].PushFront? {
      assert [ops[0].x] + (top + s) == ([ops[0].x] + top) + s;
      top' := NestedKeepsBelow([ops[0].x] + top, s, ops[1..], e);
    } else {
      assert (top + s)[1..] == top[1..] + s;
      top' := NestedKeepsBelow(top[1..], s, ops[1..], e);
    }
  }

  lemma {:induction false} DoAllConcat<N>(s: seq<N>, a: seq<DequeOp<N>>, b: seq<DequeOp<N>>)
    requires MayDoAll(s, a) && MayDoAll(DoAll(s, a).0, b)
    ensures MayDoAll(s, a + b)
    ensures DoAll(s, a + b) == (DoAll(DoAll(s, a).0, b).0, DoAll(s, a).1 + DoAll(DoAll(s, a).0, b).1)
    decreases a
  {
    if a == [] {
      assert a + b == b;
      assert [] + DoAll(s, b).1 == DoAll(s, b).1;
    } else {
      assert (a + b)[1..] == a[1..] + b && (a + b)[0] == a[0];
      var (s1, taken) := Do(s, a[0]);
      var (s2, more) := DoAll(s1, a[1..]);
      DoAllConcat(s1, a[1..], b);
      assert DoAll(s, a) == (s2, taken + more);
      assert DoAll(s, a + b) == (DoAll(s2, b).0, taken + (more + DoAll(s2, b).1));
      assert (taken + more) + DoAll(s2, b).1 == taken + (more + DoAll(s2, b).1);
    }
  }

  lemma StackOrder<N>(s: seq<N>, x: N, mid: seq<DequeOp<N>>)
    requires Nested(mid, 0, 0)
    ensures MayDoAll(s, [PushFront(x)] + (mid + [TakeFront]))
    ensures var (s', taken) := DoAll(s, [PushFront(x)] + (mid + [TakeFront]));
            s' == s && taken != [] && taken[|taken| - 1] == x
  {
    var t := [x] + s;
    var rest := mid + [TakeFront];
    var top := NestedKeepsBelow([], t, mid, 0);
    assert [] + t == t && top + t == t;
    TakeTop(s, x);
    DoAllConcat(t, mid, [TakeFront]);
    var ops := [PushFront(x)] + rest;
    assert ops[0] == PushFront(x) && ops[1..] == rest;
    assert DoAll(s, ops) == (DoAll(t, rest).0, [] + DoAll(t, rest).1);
  }

  lemma TakeTop<N>(s: seq<N>, x: N)
    ensures MayDoAll([x] + s, [TakeFront]) && DoAll([x] + s, [TakeFront]) == (s, [x])
  {
    assert ([x] + s)[1..] == s;
    assert [x] + [] == [x];
  }

  /** An add of x at the front, properly nested adds and takes there, and a take. */
  ghost predicate Bracketed<N>(x: N, ops: seq<DequeOp<N>>) {
    && |ops| >= 2 && ops[0] == PushFront(x) && ops[|ops| - 1] == TakeFront
    && Nested(ops[1..|ops| - 1], 0, 0)
  }

  lemma BracketOrder<N>(s: seq<N>, x: N, ops: seq<DequeOp<N>>)
    requires Bracketed(x, ops)
    ensures MayDoAll(s, ops)
    ensures var (s', taken) := DoAll(s, ops); s' == s && taken != [] && taken[|taken| - 1] == x
  {
    var mid := ops[1..|ops| - 1];
    assert ops == [PushFront(x)] + (mid + [TakeFront]);
    StackOrder(s, x, mid);
  }

  /** `list_add` with take-front is last in, first out: after an add and any
      properly nested adds and takes, the next take returns the node added, and
      the list is as it was before. */
  lemma Lifo<N>(l: Links<N>, h: N, s: seq<N>, x: N, ops: seq<DequeOp<N>>)
    requires Linked(l) && Ring(l, h, s) && h in l.next
    requires Bracketed(x, ops) && MayRun(l, h, ops)
    ensures var (l', taken) := CallAll(l, h, ops);
            Ring(l', h, s) && taken != [] && taken[|taken| - 1] == x
  {
    RunRefinesDeque(l, h, s, ops);
    BracketOrder(s, x, ops);
  }

  // ----- The other end

  /** The same call at the other end. */
  ghost function Flip<N>(op: DequeOp<N>): DequeOp<N> {
    match op
    case PushFront(x) => PushBack(x)
    case PushBack(x) => PushFront(x)
    case TakeFront => TakeBack
    case TakeBack => TakeFront
  }

  ghost function Flipped<N>(ops: seq<DequeOp<N>>): (r: seq<DequeOp<N>>)
    ensures |r| == |ops|
    ensures forall i :: 0 <= i < |ops| ==> r[i] == Flip(ops[i])
  {
    seq(|ops|, i requires 0 <= i < |ops| => Flip(ops[i]))
  }

  lemma FlippedSteps<N>(ops: seq<DequeOp<N>>)
    requires ops != []
    ensures Flipped(ops)[0] == Flip(ops[0]) && Flipped(ops)[1..] == Flipped(ops[1..])
  {
  }

  lemma CallMirrored<N>(l: Links<N>, h: N, op: DequeOp<N>)
    requires Linked(l) && h in l.next && MayCall(l, h, op)
    ensures Linked(Mirror(l)) && MayCall(Mirror(l), h, Flip(op))
    ensures Call(Mirror(l), h, Flip(op)) == (Mirror(Call(l, h, op).0), Call(l, h, op).1)
  {
    MirrorLinked(l);
    assert NodeOk(l, h);
    match op
    case PushFront(x) =>
      assert NodeOk(l, x);
      AddTailIsMirroredAddFront(Mirror(l), x, h);
    case PushBack(x) =>
      assert NodeOk(l, x);
      AddTailIsMirroredAddFront(l, x, h);
    case TakeFront =>
      DelInitMirrored(l, l.next[h]);
    case TakeBack =>
      DelInitMirrored(l, l.prev[h]);
  }

  lemma DelInitMirrored<N>(l: Links<N>, x: N)
    requires Linked(l) && x in l.next
    ensures x in l.prev && DelInit(Mirror(l), x) == Mirror(DelInit(l, x))
  {
    assert NodeOk(l, x);
  }

  /** On the links with the two fields exchanged, the run with the ends exchanged
      is possible, takes the same nodes, and leaves the same links exchanged. */
  lemma {:induction false} EndsExchanged<N>(l: Links<N>, h: N, ops: seq<DequeOp<N>>)
    requires Linked(l) && h in l.next && MayRun(l, h, ops)
    ensures Linked(Mirror(l)) && h in l.prev && MayRun(Mirror(l), h, Flipped(ops))
    ensures CallAll(Mirror(l), h, Flipped(ops)) == (Mirror(CallAll(l, h, ops).0), CallAll(l, h, ops).1)
    decreases ops
  {
    MirrorLinked(l);
    if ops != [] {
      CallMirrored(l, h, ops[0]);
      FlippedSteps(ops);
      EndsExchanged(Call(l, h, ops[0]).0, h, ops[1..]);
    }
  }

  lemma MirrorBack<N>(l: Links<N>, h: N, t: seq<N>)
    requires Ring(Mirror(l), h, t)
    ensures Ring(l, h, Reverse(t)) && Reverse(Reverse(t)) == t
  {
    MirrorRing(Mirror(l), h, t);
    assert Mirror(Mirror(l)) == l;
    ReverseTwice(t);
  }

  ghost predicate QueueingBackward<N>(ops: seq<DequeOp<N>>) {
    forall i :: 0 <= i < |ops| ==> ops[i].PushFront? || ops[i].TakeBack?
  }

  lemma {:induction false} PushedFlipped<N>(ops: seq<DequeOp<N>>)
    ensures Pushed(Flipped(ops)) == Pushed(ops)
    decreases ops
  {
    if ops != [] {
      FlippedSteps(ops);
      PushedFlipped(ops[1..]);
    }
  }

  /** `list_add` with take-back is first in, first out: the nodes taken, then
      those left from the last to the first, are those there at first, likewise
      from the last, then those added. */
  lemma FifoBackward<N>(l: Links<N>, h: N, s: seq<N>, ops: seq<DequeOp<N>>) returns (left: seq<N>)
    requires Linked(l) && Ring(l, h, s) && h in l.next && MayRun(l, h, ops) && QueueingBackward(ops)
    ensures Ring(CallAll(l, h, ops).0, h, left)
    ensures CallAll(l, h, ops).1 + Reverse(left) == Reverse(s) + Pushed(ops)
  {
    EndsExchanged(l, h, ops);
    MirrorRing(l, h, s);
    var mirrored := Fifo(Mirror(l), h, Reverse(s), Flipped(ops));
    MirrorBack(CallAll(l, h, ops).0, h, mirrored);
    PushedFlipped(ops);
    left := Reverse(mirrored);
  }

  ghost predicate NestedAtBack<N>(ops: seq<DequeOp<N>>, d: nat, e: nat)
    decreases ops
  {
    if ops == [] then d == e
    else if ops[0].PushBack? then NestedAtBack(ops[1..], d + 1, e)
    else ops[0].TakeBack? && d > 0 && NestedAtBack(ops[1..], d - 1, e)
  }

  lemma {:induction false} NestedFlipped<N>(ops: seq<DequeOp<N>>, d: nat, e: nat)
    requires NestedAtBack(ops, d, e)
    ensures Nested(Flipped(ops), d, e)
    decreases ops
  {
    if ops != [] {
      FlippedSteps(ops);
      NestedFlipped(ops[1..], if ops[0].PushBack? then d + 1 else d - 1, e);
    }
  }

  /** The same at the back. */
  ghost predicate BracketedAtBack<N>(x: N, ops: seq<DequeOp<N>>) {
    && |ops| >= 2 && ops[0] == PushBack(x) && ops[|ops| - 1] == TakeBack
    && NestedAtBack(ops[1..|ops| - 1], 0, 0)
  }

  lemma BracketFlipped<N>(x: N, ops: seq<DequeOp<N>>)
    requires BracketedAtBack(x, ops)
    ensures Bracketed(x, Flipped(ops))
  {
    var mid := ops[1..|ops| - 1];
    NestedFlipped(mid, 0, 0);
    assert Flipped(ops)[1..|ops| - 1] == Flipped(mid);
  }

  /** `list_add_tail` with take-back is last in, first out: after an add and any
      properly nested adds and takes at the back, the next take returns the node
      added, and the list is as it was before. */
  lemma LifoAtBack<N>(l: Links<N>, h: N, s: seq<N>, x: N, ops: seq<DequeOp<N>>)
    requires Linked(l) && Ring(l, h, s) && h in l.next
    requires BracketedAtBack(x, ops) && MayRun(l, h, ops)
    ensures var (l', taken) := CallAll(l, h, ops);
            Ring(l', h, s) && taken != [] && taken[|taken| - 1] == x
  {
    EndsExchanged(l, h, ops);
    MirrorRing(l, h, s);
    BracketFlipped(x, ops);
    Lifo(Mirror(l), h, Reverse(s), x, Flipped(ops));
    MirrorBack(CallAll(l, h, ops).0, h, Reverse(s));
    ReverseTwice(s);
  }
}
