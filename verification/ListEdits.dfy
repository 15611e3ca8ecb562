/**
 What the operations on list maps do to a map that describes a region: which
 nodes are heads afterwards, which one list changes, and where. Places are
 given, not chosen, so that nothing is left open up to rotation of a ring.
 */
module ListEdits {
  import opened ListLinks
  import opened ListMaps
  import opened Rings
  import opened Sequences

  /** No node is on two lists, or on one list twice. */
  ghost predicate Proper<N>(m: Lists<N>) {
    Apart(m) && forall h :: h in m ==> Distinct([h] + m[h])
  }

  lemma HoldsProper<N>(l: Links<N>, m: Lists<N>)
    requires Holds(l, m)
    ensures Proper(m)
  {
  }

  /** A member is on the list it is seen on and on no other, at one place, and is no head. */
  lemma MemberPlace<N>(m: Lists<N>, h: N, k: nat)
    requires Proper(m) && h in m && k < |m[h]|
    ensures m[h][k] !in m && m[h][k] in Nodes(m)
    ensures OwnerOf(m, m[h][k]) == h && IndexOf(m[h], m[h][k]) == k
  {
    var x := m[h][k];
    MembersDistinct(h, m[h]);
    assert InList(m, h, x);
    assert x in m ==> InList(m, x, x);
  }

  /** Adding x at the node h, which stands at place k of the list of g (the head
      itself at place 0): x is no longer a head of its own, every other head
      stays one, and only the list of g changes. There x comes right after h with
      `list_add` and right before it with `list_add_tail`; before the head means
      last. */
  lemma AddEdits<N>(m: Lists<N>, op: Op<N>, g: N, k: nat)
    requires Proper(m) && GuardM(m, op) && !op.Del? && op.x != op.h
    requires g in m && k <= |m[g]| && ([g] + m[g])[k] == op.h
    ensures var m' := ExecM(m, op);
            && m'.Keys == m.Keys - {op.x} && g in m'
            && (forall f :: f in m' && f != g ==> m'[f] == m[f])
            && (op.Add? ==> m'[g] == m[g][..k] + [op.x] + m[g][k..])
            && (op.Append? ==>
                  m'[g] == if k == 0 then m[g] + [op.x] else m[g][..k - 1] + [op.x] + m[g][k - 1..])
  {
    var s := m[g];
    if k == 0 {
      assert op.h == g && g != op.x;
      assert s[..|s|] == s && s[|s|..] == [];
    } else {
      MemberPlace(m, g, k - 1);
      assert op.h == s[k - 1] && g != op.x;
    }
  }

  /** Adding a detached node at itself changes nothing. */
  lemma AddAtItself<N>(m: Lists<N>, op: Op<N>)
    requires GuardM(m, op) && !op.Del? && op.x == op.h
    ensures ExecM(m, op) == m
  {
  }

  /** Deleting the member at place k of the list of h: every head stays one and
      the node becomes one, with no members; the list of h loses exactly that
      place, and nothing else changes. */
  lemma DelMemberEdits<N>(m: Lists<N>, h: N, k: nat)
    requires Proper(m) && h in m && k < |m[h]|
    ensures var x := m[h][k];
            && GuardM(m, Del(x))
            && var m' := ExecM(m, Del(x));
            && m'.Keys == m.Keys + {x} && x !in m
            && m'[h] == m[h][..k] + m[h][k + 1..]
            && m'[x] == []
            && (forall f :: f in m && f != h ==> m'[f] == m[f])
  {
    MemberPlace(m, h, k);
    MembersDistinct(h, m[h]);
    WithoutAt(m[h], k);
  }

  /** Deleting a head: it stays a head and has no members left; the members it
      had, if any, become a list headed by the first; nothing else changes. */
  lemma DelHeadEdits<N>(m: Lists<N>, h: N)
    requires Proper(m) && h in m
    ensures GuardM(m, Del(h))
    ensures m[h] == [] ==> ExecM(m, Del(h)) == m
    ensures m[h] != [] ==>
              var m' := ExecM(m, Del(h));
              && m'.Keys == m.Keys + {m[h][0]} && m[h][0] !in m
              && m'[h] == [] && m'[m[h][0]] == m[h][1..]
              && (forall f :: f in m && f != h ==> m'[f] == m[f])
  {
    assert InList(m, h, h);
    if m[h] != [] {
      MemberPlace(m, h, 0);
      MembersDistinct(h, m[h]);
    }
  }

  // ----- Runs

  /** A run makes its edits one after the other; what allows the next one is that
      its operands are nodes of the lists and that a node to be added is detached. */
  lemma {:induction false} EditLast<N>(m: Lists<N>, ops: seq<Op<N>>, op: Op<N>)
    ensures GuardedM(m, ops + [op])
       <==> && GuardedM(m, ops)
            && var r := RunM(m, ops);
               if op.Del? then op.x in Nodes(r) else op.h in Nodes(r) && op.x in r && r[op.x] == []
    ensures GuardedM(m, ops + [op]) ==> RunM(m, ops + [op]) == ExecM(RunM(m, ops), op)
    decreases ops
  {
    var all := ops + [op];
    if ops == [] {
      assert all[0] == op && all[1..] == [];
    } else {
      assert all[0] == ops[0] && all[1..] == ops[1..] + [op];
      if GuardM(m, ops[0]) {
        EditLast(ExecM(m, ops[0]), ops[1..], op);
      }
    }
  }

  lemma ExecKeepsHeads<N>(m: Lists<N>, op: Op<N>, h: N)
    requires GuardM(m, op) && h in m && (op.Del? || op.x != h)
    ensures h in ExecM(m, op)
  {
  }

  /** A head stays a head over any run that does not add it to a list. */
  lemma {:induction false} RunKeepsHeads<N>(m: Lists<N>, ops: seq<Op<N>>, h: N)
    requires GuardedM(m, ops) && h in m
    requires forall i :: 0 <= i < |ops| ==> ops[i].Del? || ops[i].x != h
    ensures h in RunM(m, ops)
    decreases ops
  {
    if ops != [] {
      assert ops[0].Del? || ops[0].x != h;
      assert forall i :: 0 <= i < |ops[1..]| ==> ops[1..][i] == ops[i + 1];
      ExecKeepsHeads(m, ops[0], h);
      RunKeepsHeads(ExecM(m, ops[0]), ops[1..], h);
    }
  }

  /** The operation names no node of the list of h. */
  ghost predicate Elsewhere<N>(h: N, s: seq<N>, op: Op<N>) {
    op.x !in [h] + s && (!op.Del? ==> op.h !in [h] + s)
  }

  lemma ExecFrame<N>(m: Lists<N>, op: Op<N>, h: N)
    requires Apart(m) && GuardM(m, op) && h in m && Elsewhere(h, m[h], op)
    ensures h in ExecM(m, op) && ExecM(m, op)[h] == m[h]
  {
    assert h in [h] + m[h] && InList(m, h, h);
    if op.Del? {
      if op.x !in m {
        assert OwnerOf(m, op.x) != h;
      } else if m[op.x] != [] {
        assert InList(m, op.x, m[op.x][0]);
      }
    } else if op.x != op.h {
      assert Target(m, op.h, op.Append?).0 != h;
    }
  }

  /** A list none of whose nodes a run names is as it was. */
  lemma {:induction false} RunFrame<N>(l: Links<N>, m: Lists<N>, ops: seq<Op<N>>, h: N)
    requires Linked(l) && Holds(l, m) && Nodes(m) == l.next.Keys && Guarded(l, ops) && h in m
    requires forall i :: 0 <= i < |ops| ==> Elsewhere(h, m[h], ops[i])
    ensures GuardedM(m, ops) && h in RunM(m, ops) && RunM(m, ops)[h] == m[h]
    decreases ops
  {
    if ops != [] {
      ExecHolds(l, m, ops[0]);
      ExecKeepsLinkedIff(l, ops[0]);
      assert Elsewhere(h, m[h], ops[0]);
      ExecFrame(m, ops[0], h);
      assert forall i :: 0 <= i < |ops[1..]| ==> ops[1..][i] == ops[i + 1];
      RunFrame(Exec(l, ops[0]), ExecM(m, ops[0]), ops[1..], h);
    }
  }
}
