/**
 Snapshots of the `next` and `prev` fields of a region of list nodes, and the
 link operations of the intrusive list as functions from snapshot to snapshot.

 The functions perform the stores of the C code in the C code's order, so they
 also say what happens when the nodes passed in alias one another.
 */
module ListLinks {

  datatype Links<N> = Links(next: map<N, N>, prev: map<N, N>)

  /** The stores of `__list_add(x, p, q)`, in program order within each field. */
  ghost function Insert<N>(l: Links<N>, x: N, p: N, q: N): Links<N> {
    Links(l.next[x := q][p := x], l.prev[q := x][x := p])
  }

  /** The stores of `__list_del(p, q)`. */
  ghost function Unlink<N>(l: Links<N>, p: N, q: N): Links<N> {
    Links(l.next[p := q], l.prev[q := p])
  }

  /** The stores of `INIT_LIST_HEAD(x)`. */
  ghost function Reset<N>(l: Links<N>, x: N): Links<N> {
    Links(l.next[x := x], l.prev[x := x])
  }

  /** `list_add(x, h)` */
  ghost function AddFront<N>(l: Links<N>, x: N, h: N): Links<N>
    requires h in l.next
  {
    Insert(l, x, h, l.next[h])
  }

  /** `list_add_tail(x, h)` */
  ghost function AddTail<N>(l: Links<N>, x: N, h: N): Links<N>
    requires h in l.prev
  {
    Insert(l, x, l.prev[h], h)
  }

  /** `list_del_init(x)` */
  ghost function DelInit<N>(l: Links<N>, x: N): Links<N>
    requires x in l.next && x in l.prev
  {
    Reset(Unlink(l, l.prev[x], l.next[x]), x)
  }

  /** Nodes `a` and `b` are neighbours, and both fields say so. */
  ghost predicate Link<N>(l: Links<N>, a: N, b: N) {
    && a in l.next && l.next[a] == b
    && b in l.prev && l.prev[b] == a
  }

  /** Node `x` and its two neighbours lie in the region and point at each other. */
  ghost predicate NodeOk<N>(l: Links<N>, x: N) {
    && x in l.next && x in l.prev
    && l.next[x] in l.next && Link(l, x, l.next[x])
    && l.prev[x] in l.next && Link(l, l.prev[x], x)
  }

  /** The local invariant: every node of the region is doubly linked within it. */
  ghost predicate Linked<N>(l: Links<N>) {
    && l.next.Keys == l.prev.Keys
    && forall x {:trigger NodeOk(l, x)} :: x in l.next ==> NodeOk(l, x)
  }

  /** A region in which every node has just been through `INIT_LIST_HEAD`. */
  ghost function SelfLinked<N>(nodes: set<N>): Links<N> {
    Links(map x | x in nodes :: x, map x | x in nodes :: x)
  }

  /** Exchanges the two directions. */
  ghost function Mirror<N>(l: Links<N>): Links<N> {
    Links(l.prev, l.next)
  }

  lemma SelfLinkedIsLinked<N>(nodes: set<N>)
    ensures Linked(SelfLinked(nodes)) && SelfLinked(nodes).next.Keys == nodes
  {
    assert forall x :: x in nodes ==> NodeOk(SelfLinked(nodes), x);
  }

  // ----- What each operation does to the local invariant

  /** Inserting between neighbours keeps the local invariant exactly when the
      new node was self-linked. */
  lemma InsertKeepsLinkedIff<N>(l: Links<N>, x: N, p: N, q: N)
    requires Linked(l) && x in l.next && p in l.next && l.next[p] == q
    ensures Linked(Insert(l, x, p, q)) <==> l.next[x] == x
    ensures Insert(l, x, p, q).next.Keys == l.next.Keys
  {
    assert NodeOk(l, x) && NodeOk(l, p);
    if l.next[x] == x {
      InsertSelfLinked(l, x, p, q);
    } else {
      InsertStillLinked(l, x, p, q);
    }
  }

  lemma InsertSelfLinked<N>(l: Links<N>, x: N, p: N, q: N)
    requires Linked(l) && x in l.next && p in l.next && l.next[p] == q && l.next[x] == x
    ensures Linked(Insert(l, x, p, q))
  {
    var l' := Insert(l, x, p, q);
    assert NodeOk(l, x) && NodeOk(l, p);
    forall y | y in l'.next ensures NodeOk(l', y) {
      assert NodeOk(l, y);
    }
  }

  lemma InsertStillLinked<N>(l: Links<N>, x: N, p: N, q: N)
    requires Linked(l) && x in l.next && p in l.next && l.next[p] == q && l.next[x] != x
    ensures !Linked(Insert(l, x, p, q))
  {
    var l' := Insert(l, x, p, q);
    assert NodeOk(l, x) && NodeOk(l, p);
    var a := l.prev[x];
    assert NodeOk(l, a);
    assert !(NodeOk(l', x) && NodeOk(l', a) && NodeOk(l', q));
  }

  lemma DelInitKeepsLinked<N>(l: Links<N>, x: N)
    requires Linked(l) && x in l.next
    ensures x in l.prev
    ensures Linked(DelInit(l, x)) && DelInit(l, x).next.Keys == l.next.Keys
    ensures DelInit(l, x).next[x] == x && DelInit(l, x).prev[x] == x
  {
    assert NodeOk(l, x);
    var l' := DelInit(l, x);
    forall y | y in l'.next ensures NodeOk(l', y) {
      assert NodeOk(l, y);
    }
  }

  /** A node stays detached while other nodes are unlinked. */
  lemma DelInitKeepsDetached<N>(l: Links<N>, x: N, z: N)
    requires Linked(l) && x in l.next && z in l.next && l.next[z] == z
    ensures x in l.prev && z in DelInit(l, x).next && DelInit(l, x).next[z] == z
  {
    assert NodeOk(l, z) && NodeOk(l, x);
  }

  /** Unlinking a detached node changes no field at all. */
  lemma DelInitIdempotent<N>(l: Links<N>, x: N)
    requires x in l.next && x in l.prev && l.next[x] == x && l.prev[x] == x
    ensures DelInit(l, x) == l
  {
  }

  // ----- Undoing removals

  /** Reinserting a node between the neighbours it had restores every field
      exactly when those neighbours pointed back at it; a node that is its own
      successor needs only the first half, because `_new->prev` is stored after
      `next->prev`. */
  lemma UndoIff<N>(l: Links<N>, x: N)
    requires l.next.Keys == l.prev.Keys
    requires x in l.next && l.next[x] in l.next && l.prev[x] in l.next
    ensures Insert(DelInit(l, x), x, l.prev[x], l.next[x]) == l
       <==> (l.next[l.prev[x]] == x && (l.prev[l.next[x]] == x || l.next[x] == x))
  {
  }

  ghost function DelAll<N>(l: Links<N>, xs: seq<N>): (r: Links<N>)
    requires forall x :: x in xs ==> x in l.next
    requires Linked(l)
    ensures Linked(r) && r.next.Keys == l.next.Keys
    decreases xs
  {
    if xs == [] then l
    else
      DelInitKeepsLinked(l, xs[0]);
      DelAll(DelInit(l, xs[0]), xs[1..])
  }

  /** The neighbours (prev, next) of each node just before it is unlinked. */
  ghost function Log<N>(l: Links<N>, xs: seq<N>): (log: seq<(N, N)>)
    requires forall x :: x in xs ==> x in l.next
    requires Linked(l)
    ensures |log| == |xs|
    decreases xs
  {
    if xs == [] then []
    else
      DelInitKeepsLinked(l, xs[0]);
      [(l.prev[xs[0]], l.next[xs[0]])] + Log(DelInit(l, xs[0]), xs[1..])
  }

  /** Reinserts the nodes last to first, each between its logged neighbours. */
  ghost function Reinsert<N>(l: Links<N>, xs: seq<N>, log: seq<(N, N)>): Links<N>
    requires |xs| == |log|
  {
    if xs == [] then l
    else
      var l' := Reinsert(l, xs[1..], log[1..]);
      Insert(l', xs[0], log[0].0, log[0].1)
  }

  /** Any run of removals (of members, heads, or nodes already detached, with
      repetitions) is undone, field for field, by reinserting in reverse. */
  lemma {:induction false} UndoRestoresHeap<N>(l: Links<N>, xs: seq<N>)
    requires Linked(l) && forall x :: x in xs ==> x in l.next
    ensures Reinsert(DelAll(l, xs), xs, Log(l, xs)) == l
    decreases xs
  {
    if xs == [] {
    } else {
      var x := xs[0];
      DelInitKeepsLinked(l, x);
      UndoRestoresHeap(DelInit(l, x), xs[1..]);
      assert NodeOk(l, x);
      UndoIff(l, x);
    }
  }

  // ----- Runs of operations on a region

  datatype Op<N> = Add(x: N, h: N) | Append(x: N, h: N) | Del(x: N)

  /** The operands are nodes of the region. */
  ghost predicate InRegion<N>(l: Links<N>, op: Op<N>) {
    op.x in l.next && (!op.Del? ==> op.h in l.next)
  }

  /** The check a caller can make before the call: a node to be added is self-linked. */
  ghost predicate Guard<N>(l: Links<N>, op: Op<N>)
    requires InRegion(l, op)
  {
    !op.Del? ==> l.next[op.x] == op.x
  }

  ghost function Exec<N>(l: Links<N>, op: Op<N>): Links<N>
    requires l.next.Keys == l.prev.Keys && InRegion(l, op)
  {
    match op
    case Add(x, h) => AddFront(l, x, h)
    case Append(x, h) => AddTail(l, x, h)
    case Del(x) => DelInit(l, x)
  }

  /** One call keeps the local invariant if and only if its guard held. */
  lemma ExecKeepsLinkedIff<N>(l: Links<N>, op: Op<N>)
    requires Linked(l) && InRegion(l, op)
    ensures Linked(Exec(l, op)) <==> Guard(l, op)
    ensures Guard(l, op) ==> Exec(l, op).next.Keys == l.next.Keys
  {
    match op
    case Add(x, h) =>
      assert NodeOk(l, h);
      InsertKeepsLinkedIff(l, x, h, l.next[h]);
    case Append(x, h) =>
      assert NodeOk(l, h);
      InsertKeepsLinkedIff(l, x, l.prev[h], h);
    case Del(x) =>
      DelInitKeepsLinked(l, x);
  }

  /** Every call of the run meets its guard in the state it is made in. */
  ghost predicate Guarded<N>(l: Links<N>, ops: seq<Op<N>>)
    requires Linked(l)
    decreases ops
  {
    ops == [] ||
    (InRegion(l, ops[0]) && Guard(l, ops[0]) &&
     (ExecKeepsLinkedIff(l, ops[0]);
      Guarded(Exec(l, ops[0]), ops[1..])))
  }

  ghost function Run<N>(l: Links<N>, ops: seq<Op<N>>): Links<N>
    requires Linked(l) && Guarded(l, ops)
    decreases ops
  {
    if ops == [] then l
    else
      ExecKeepsLinkedIff(l, ops[0]);
      Run(Exec(l, ops[0]), ops[1..])
  }

  /** The local invariant holds in every state the run passes through. */
  ghost predicate AlwaysLinked<N>(l: Links<N>, ops: seq<Op<N>>)
    requires l.next.Keys == l.prev.Keys
    decreases ops
  {
    Linked(l) &&
    (ops == [] || (InRegion(l, ops[0]) && Exec(l, ops[0]).next.Keys == Exec(l, ops[0]).prev.Keys
                   && AlwaysLinked(Exec(l, ops[0]), ops[1..])))
  }

  /** Safety over whole runs: a run keeps the local invariant throughout if and
      only if each of its calls met its guard; the region stays the same. */
  lemma {:induction false} AlwaysLinkedIffGuarded<N>(l: Links<N>, ops: seq<Op<N>>)
    requires Linked(l)
    ensures AlwaysLinked(l, ops) <==> Guarded(l, ops)
    ensures Guarded(l, ops) ==> Linked(Run(l, ops)) && Run(l, ops).next.Keys == l.next.Keys
    decreases ops
  {
    if ops == [] {
    } else if InRegion(l, ops[0]) {
      ExecKeepsLinkedIff(l, ops[0]);
      if Guard(l, ops[0]) {
        AlwaysLinkedIffGuarded(Exec(l, ops[0]), ops[1..]);
      }
    }
  }

  /** A run makes its calls one after the other, each on the links the ones before
      have left; what allows the next call is that its operands are nodes of the
      region and that a node to be added is self-linked then. */
  lemma {:induction false} RunLast<N>(l: Links<N>, ops: seq<Op<N>>, op: Op<N>)
    requires Linked(l)
    ensures Guarded(l, ops) ==> Linked(Run(l, ops)) && Run(l, ops).next.Keys == l.next.Keys
    ensures Guarded(l, ops + [op])
       <==> && Guarded(l, ops) && op.x in l.next
            && (!op.Del? ==> op.h in l.next && Run(l, ops).next[op.x] == op.x)
    ensures Guarded(l, ops + [op]) ==>
              var r, r' := Run(l, ops), Run(l, ops + [op]);
              && (op.Add? ==> r' == AddFront(r, op.x, op.h))
              && (op.Append? ==> r' == AddTail(r, op.x, op.h))
              && (op.Del? ==> r' == DelInit(r, op.x))
    decreases ops
  {
    var all := ops + [op];
    if ops == [] {
      assert all[0] == op && all[1..] == [];
    } else {
      assert all[0] == ops[0] && all[1..] == ops[1..] + [op];
      if InRegion(l, ops[0]) && Guard(l, ops[0]) {
        ExecKeepsLinkedIff(l, ops[0]);
        RunLast(Exec(l, ops[0]), ops[1..], op);
      }
    }
  }

  // ----- Symmetry of the two directions

  lemma MirrorLinked<N>(l: Links<N>)
    ensures Linked(Mirror(l)) <==> Linked(l)
  {
    var m := Mirror(l);
    if Linked(l) {
      forall x | x in m.next ensures NodeOk(m, x) { assert NodeOk(l, x); }
    }
    if Linked(m) {
      forall x | x in l.next ensures NodeOk(l, x) { assert NodeOk(m, x); }
    }
  }

  /** Adding at the tail is adding at the front of the mirrored list, except
      exactly when the node added is already the head or last in a longer ring. */
  lemma AddTailIsMirroredAddFront<N>(l: Links<N>, x: N, h: N)
    requires h in l.prev
    ensures Mirror(AddTail(l, x, h)) == AddFront(Mirror(l), x, h)
       <==> (l.prev[h] == h || (x != h && x != l.prev[h]))
  {
    if l.prev[h] == h || (x != h && x != l.prev[h]) {
      MirroredApart(l, x, h);
    } else {
      MirroredOverlap(l, x, h);
    }
  }

  lemma MirroredApart<N>(l: Links<N>, x: N, h: N)
    requires h in l.prev && (l.prev[h] == h || (x != h && x != l.prev[h]))
    ensures Mirror(AddTail(l, x, h)) == AddFront(Mirror(l), x, h)
  {
  }

  lemma MirroredOverlap<N>(l: Links<N>, x: N, h: N)
    requires h in l.prev && l.prev[h] != h && (x == h || x == l.prev[h])
    ensures Mirror(AddTail(l, x, h)) != AddFront(Mirror(l), x, h)
  {
    assert Mirror(AddTail(l, x, h)).next[x] != AddFront(Mirror(l), x, h).next[x]
        || Mirror(AddTail(l, x, h)).prev[x] != AddFront(Mirror(l), x, h).prev[x];
  }
}
