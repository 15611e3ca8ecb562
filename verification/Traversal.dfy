/**
 The traversal macros as machines. `list_for_each_safe` and
 `list_for_each_entry_safe` read the next node before the body runs;
 `list_for_each_entry` reads it after. The body is given as a function from the
 iteration and the node it is run at to the nodes it passes to `list_del_init`
 there, in order.

 The theorem says exactly which bodies each macro tolerates.
 */
module Traversal {
  import opened ListLinks
  import opened Rings
  import opened Sequences

  /** The links, the two loop variables and the number of iterations made. */
  datatype Cursor<N> = Cursor(l: Links<N>, pos: N, n: N, k: nat)

  type Body<!N> = (nat, N) -> seq<N>

  /** The cursor and everything the body unlinks are nodes of a linked region. */
  ghost predicate Fits<N>(c: Cursor<N>, body: Body<N>) {
    && Linked(c.l) && c.pos in c.l.next && c.n in c.l.next
    && forall k, x, y :: x in c.l.next && y in body(k, x) ==> y in c.l.next
  }

  ghost function Start<N>(l: Links<N>, h: N): (c: Cursor<N>)
    requires Linked(l) && h in l.next
    ensures c.l == l && c.pos in l.next && c.n in l.next
  {
    assert NodeOk(l, h) && NodeOk(l, l.next[h]);
    Cursor(l, l.next[h], l.next[l.next[h]], 0)
  }

  /** The body at `pos`, then the third clause of the `for`. */
  ghost function Step<N>(safe: bool, c: Cursor<N>, body: Body<N>): (c': Cursor<N>)
    requires Fits(c, body)
    ensures Fits(c', body)
  {
    var l := DelAll(c.l, body(c.k, c.pos));
    assert NodeOk(l, c.pos);
    var pos := if safe then c.n else l.next[c.pos];
    assert NodeOk(l, pos);
    Cursor(l, pos, l.next[pos], c.k + 1)
  }

  /** The nodes visited in at most `fuel` iterations, and whether the loop ended. */
  ghost function Visits<N>(safe: bool, c: Cursor<N>, h: N, body: Body<N>, fuel: nat): (seq<N>, bool)
    requires Fits(c, body)
    decreases fuel
  {
    if c.pos == h then ([], true)
    else if fuel == 0 then ([], false)
    else
      var r := Visits(safe, Step(safe, c, body), h, body, fuel - 1);
      ([c.pos] + r.0, r.1)
  }

  /** The first place a body run at place i has to leave alone. */
  ghost function Reach(safe: bool, i: nat): nat {
    if safe then i + 1 else i
  }

  /** Run at place i, the body leaves the list from place Reach(i) on alone: it
      never unlinks a node still to be visited nor, unless the loop is safe, the
      one being visited. It unlinks the head at most in the last iteration of a
      safe loop. Nodes visited before and nodes of other lists are all the same
      to it. */
  ghost predicate SparesAt<N>(safe: bool, h: N, s: seq<N>, body: Body<N>, i: nat) {
    && i < |s|
    && (forall b :: Reach(safe, i) <= b < |s| ==> s[b] !in body(i, s[i]))
    && (h in body(i, s[i]) ==> safe && i == |s| - 1)
  }

  ghost predicate SparesUnvisited<N>(safe: bool, h: N, s: seq<N>, body: Body<N>) {
    forall i {:trigger SparesAt(safe, h, s, body, i)} :: 0 <= i < |s| ==> SparesAt(safe, h, s, body, i)
  }

  // ----- Place i of the original sequence

  /** The loop stands at place i; nodes from there on are still linked in order
      in front of the head, whatever is left of the earlier ones. */
  ghost predicate At<N>(c: Cursor<N>, h: N, s: seq<N>, i: nat, before: seq<N>) {
    && i <= |s| && c.k == i && Ring(c.l, h, before + s[i..])
    && c.pos == Round(h, s)[i + 1]
    && c.pos in c.l.next && c.n == c.l.next[c.pos]
  }

  lemma DelKeepsSuffix<N>(l: Links<N>, h: N, before: seq<N>, suffix: seq<N>, x: N) returns (before': seq<N>)
    requires Linked(l) && x in l.next && Ring(l, h, before + suffix)
    requires x != h && x !in suffix
    ensures x in l.prev && Ring(DelInit(l, x), h, before' + suffix)
  {
    assert NodeOk(l, x);
    var s := before + suffix;
    if x in before {
      var k :| 0 <= k < |before| && before[k] == x;
      RemoveFromRing(l, h, s, k);
      before' := before[..k] + before[k + 1..];
      assert s[..k] + s[k + 1..] == before' + suffix;
    } else {
      RemoveFrame(l, h, s, x);
      before' := before;
    }
  }

  lemma {:induction false} DelAllKeepsSuffix<N>(l: Links<N>, h: N, before: seq<N>, suffix: seq<N>, xs: seq<N>)
    returns (before': seq<N>)
    requires Linked(l) && Ring(l, h, before + suffix)
    requires forall x :: x in xs ==> x in l.next && x != h && x !in suffix
    ensures Ring(DelAll(l, xs), h, before' + suffix)
    decreases xs
  {
    if xs == [] {
      before' := before;
    } else {
      before' := DelKeepsSuffix(l, h, before, suffix, xs[0]);
      DelInitKeepsLinked(l, xs[0]);
      assert forall x :: x in xs[1..] ==> x in xs;
      before' := DelAllKeepsSuffix(DelInit(l, xs[0]), h, before', suffix, xs[1..]);
    }
  }

  lemma {:induction false} DelAllDetaches<N>(l: Links<N>, xs: seq<N>, z: N)
    requires Linked(l) && forall x :: x in xs ==> x in l.next
    requires z in l.next && (z in xs || l.next[z] == z)
    ensures DelAll(l, xs).next[z] == z
    decreases xs
  {
    if xs != [] {
      DelInitKeepsLinked(l, xs[0]);
      if l.next[z] == z {
        DelInitKeepsDetached(l, xs[0], z);
      }
      DelAllDetaches(DelInit(l, xs[0]), xs[1..], z);
    }
  }

  /** A tolerated body moves the loop on to the next place. */
  lemma Advance<N>(safe: bool, c: Cursor<N>, h: N, s: seq<N>, i: nat, before: seq<N>, body: Body<N>)
    returns (before': seq<N>)
    requires Fits(c, body) && At(c, h, s, i, before) && SparesAt(safe, h, s, body, i)
    requires h !in body(i, s[i])
    ensures At(Step(safe, c, body), h, s, i + 1, before')
  {
    var xs := body(i, s[i]);
    var k := Reach(safe, i);
    assert s[i..] == [s[i]] + s[i + 1..];
    var front := if safe then before + [s[i]] else before;
    assert before + s[i..] == front + s[k..];
    forall x | x in xs ensures x in c.l.next && x != h && x !in s[k..] {
      assert forall b :: k <= b < |s| ==> s[k..][b - k] == s[b];
    }
    before' := DelAllKeepsSuffix(c.l, h, front, s[k..], xs);
    var l' := DelAll(c.l, xs);
    if safe {
      NextInRing(c.l, h, before, s[i..]);
    } else {
      NextInRing(l', h, before', s[i..]);
      assert before' + s[i..] == before' + [s[i]] + s[i + 1..];
      before' := before' + [s[i]];
    }
    assert Step(safe, c, body).pos == Round(h, s)[i + 2];
  }

  lemma {:induction false} VisitsRest<N>(safe: bool, c: Cursor<N>, h: N, s: seq<N>, i: nat, before: seq<N>,
                                         body: Body<N>)
    requires Fits(c, body) && At(c, h, s, i, before) && h !in s
    requires SparesUnvisited(safe, h, s, body)
    ensures Visits(safe, c, h, body, |s| - i) == (s[i..], true)
    decreases |s| - i
  {
    if i < |s| {
      assert c.pos == s[i] && SparesAt(safe, h, s, body, i);
      assert [s[i]] + s[i + 1..] == s[i..];
      var c' := Step(safe, c, body);
      if h in body(i, s[i]) {
        NextInRing(c.l, h, before, s[i..]);
        assert c'.pos == c.n == h && s[i + 1..] == [];
      } else {
        var before' := Advance(safe, c, h, s, i, before, body);
        VisitsRest(safe, c', h, s, i + 1, before', body);
      }
      assert Visits(safe, c', h, body, |s| - i - 1) == (s[i + 1..], true);
    }
  }

  // ----- What goes wrong otherwise

  /** A step keeps a detached node detached, and whatever the body unlinks
      becomes so; the cursor does not come to such a node from another one,
      except that a safe loop goes to the node it saved. */
  lemma StepDetaches<N>(safe: bool, c: Cursor<N>, body: Body<N>, z: N)
    requires Fits(c, body) && z in c.l.next
    requires c.l.next[z] == z || z in body(c.k, c.pos)
    ensures var c' := Step(safe, c, body);
            && z in c'.l.next && c'.l.next[z] == z
            && (if safe then c'.pos == c.n else c.pos != z ==> c'.pos != z)
            && (c'.pos != z ==> c'.n != z)
            && (c'.pos == z ==> c'.n == z)
            && (!safe && c.pos == z ==> c'.pos == z)
  {
    var c' := Step(safe, c, body);
    DelAllDetaches(c.l, body(c.k, c.pos), z);
    assert NodeOk(c'.l, z) && NodeOk(c'.l, c.pos) && NodeOk(c'.l, c'.pos);
  }

  /** A detached node that is neither the current nor the saved one is never visited again. */
  lemma {:induction false} NeverVisits<N>(safe: bool, c: Cursor<N>, h: N, body: Body<N>, z: N, fuel: nat)
    requires Fits(c, body) && z in c.l.next && c.l.next[z] == z
    requires c.pos != z && c.n != z
    ensures z !in Visits(safe, c, h, body, fuel).0
    decreases fuel
  {
    if c.pos != h && fuel > 0 {
      StepDetaches(safe, c, body, z);
      NeverVisits(safe, Step(safe, c, body), h, body, z, fuel - 1);
    }
  }

  /** Once the node to go to next is detached the loop stays on it for ever. */
  lemma {:induction false} NeverEnds<N>(safe: bool, c: Cursor<N>, h: N, body: Body<N>, z: N, fuel: nat)
    requires Fits(c, body) && z in c.l.next && c.l.next[z] == z
    requires z != h && c.pos != h && (if safe then c.n == z else c.pos == z)
    ensures !Visits(safe, c, h, body, fuel).1
    decreases fuel
  {
    if fuel > 0 {
      StepDetaches(safe, c, body, z);
      NeverEnds(safe, Step(safe, c, body), h, body, z, fuel - 1);
    }
  }

  /** Once the head is detached, and not the node to go to next, the loop never ends. */
  lemma {:induction false} NeverSeesHead<N>(safe: bool, c: Cursor<N>, h: N, body: Body<N>, fuel: nat)
    requires Fits(c, body) && h in c.l.next && c.l.next[h] == h
    requires c.pos != h && c.n != h
    ensures !Visits(safe, c, h, body, fuel).1
    decreases fuel
  {
    if fuel > 0 {
      StepDetaches(safe, c, body, h);
      NeverSeesHead(safe, Step(safe, c, body), h, body, fuel - 1);
    }
  }

  lemma LosesHead<N>(safe: bool, c: Cursor<N>, h: N, s: seq<N>, i: nat, before: seq<N>, body: Body<N>, fuel: nat)
    requires Fits(c, body) && At(c, h, s, i, before) && h !in s && i < |s|
    requires h in body(i, s[i]) && !(safe && i == |s| - 1)
    ensures !Visits(safe, c, h, body, fuel).1
  {
    assert c.pos == s[i];
    NextInRing(c.l, h, before, s[i..]);
    if fuel > 0 {
      RingClosed(c.l, h, before + s[i..], h);
      StepDetaches(safe, c, body, h);
      NeverSeesHead(safe, Step(safe, c, body), h, body, fuel - 1);
    }
  }

  /** At the first place whose body does not spare a later node z, either the
      loop gets stuck on z or it never comes to z. */
  lemma StumblesAt<N>(safe: bool, c: Cursor<N>, h: N, s: seq<N>, i: nat, body: Body<N>, b: nat, fuel: nat)
    requires Fits(c, body) && i < |s| && c.k == i && c.pos == s[i]
    requires Distinct(s) && h !in s && Reach(safe, i) <= b < |s| && s[b] in body(i, s[i])
    requires fuel > 0 && s[b] in c.l.next
    ensures Visits(safe, c, h, body, fuel) != (s[i..], true)
  {
    var z := s[b];
    assert z in s && c.pos in s;
    var c' := Step(safe, c, body);
    StepDetaches(safe, c, body, z);
    if c'.pos == z {
      NeverEnds(safe, c', h, body, z, fuel - 1);
    } else {
      assert b > i;
      NeverVisits(safe, c', h, body, z, fuel - 1);
    }
    NotTheRest(Visits(safe, c', h, body, fuel - 1), s, i, b);
  }

  lemma NotTheRest<N>(r: (seq<N>, bool), s: seq<N>, i: nat, b: nat)
    requires i <= b < |s| && (!r.1 || (i < b && s[b] !in r.0))
    ensures ([s[i]] + r.0, r.1) != (s[i..], true)
  {
    if r.1 && |r.0| == |s| - i - 1 {
      assert ([s[i]] + r.0)[b - i] == r.0[b - i - 1];
      assert s[i..][b - i] == s[b];
    }
  }

  lemma {:induction false} MissesRest<N>(safe: bool, c: Cursor<N>, h: N, s: seq<N>, i: nat, before: seq<N>,
                                         body: Body<N>, j: nat, fuel: nat)
    requires Fits(c, body) && At(c, h, s, i, before) && Distinct(s) && h !in s
    requires i <= j < |s| && !SparesAt(safe, h, s, body, j)
    ensures Visits(safe, c, h, body, fuel) != (s[i..], true)
    decreases |s| - i
  {
    assert c.pos == s[i];
    if fuel > 0 {
      if h in body(i, s[i]) && !(safe && i == |s| - 1) {
        LosesHead(safe, c, h, s, i, before, body, fuel);
      } else if SparesAt(safe, h, s, body, i) {
        var before' := Advance(safe, c, h, s, i, before, body);
        MissesRest(safe, Step(safe, c, body), h, s, i + 1, before', body, j, fuel - 1);
        assert s[i..][1..] == s[i + 1..];
      } else {
        var b :| Reach(safe, i) <= b < |s| && s[b] in body(i, s[i]);
        StumblesAt(safe, c, h, s, i, body, b, fuel);
      }
    }
  }

  lemma StartsAtFirst<N>(l: Links<N>, h: N, s: seq<N>)
    requires Linked(l) && Ring(l, h, s)
    ensures h in l.next && At(Start(l, h), h, s, 0, [])
  {
    assert LinkAt(l, Round(h, s), 0);
    assert [] + s[0..] == s;
  }

  /** Whatever nodes of the region the body unlinks, the loop ends having visited
      every node of the original list exactly once and in order if and only if
      the body spares the nodes still to be visited, the one being visited in the
      form that is not safe, and the head until the loop has saved it. */
  lemma TraversalExact<N>(safe: bool, l: Links<N>, h: N, s: seq<N>, body: Body<N>)
    requires Linked(l) && Ring(l, h, s)
    requires forall k, x, y :: x in l.next && y in body(k, x) ==> y in l.next
    ensures h in l.next
    ensures (exists fuel: nat :: Visits(safe, Start(l, h), h, body, fuel) == (s, true))
       <==> SparesUnvisited(safe, h, s, body)
  {
    StartsAtFirst(l, h, s);
    MembersDistinct(h, s);
    var c := Start(l, h);
    assert s[0..] == s;
    if SparesUnvisited(safe, h, s, body) {
      VisitsRest(safe, c, h, s, 0, [], body);
      assert Visits(safe, c, h, body, |s|) == (s, true);
    } else {
      var j :| 0 <= j < |s| && !SparesAt(safe, h, s, body, j);
      forall fuel: nat ensures Visits(safe, c, h, body, fuel) != (s, true) {
        MissesRest(safe, c, h, s, 0, [], body, j, fuel);
      }
    }
  }

  /** A body that unlinks nothing: both forms visit the same nodes. */
  lemma FormsAgree<N>(l: Links<N>, h: N, s: seq<N>)
    requires Linked(l) && Ring(l, h, s)
    ensures h in l.next
    ensures Visits(true, Start(l, h), h, (k, x) => [], |s|) == (s, true)
    ensures Visits(false, Start(l, h), h, (k, x) => [], |s|) == (s, true)
  {
    VisitsAllIfIdle(true, l, h, s, (k, x) => []);
    VisitsAllIfIdle(false, l, h, s, (k, x) => []);
  }

  lemma VisitsAllIfIdle<N>(safe: bool, l: Links<N>, h: N, s: seq<N>, body: Body<N>)
    requires Linked(l) && Ring(l, h, s)
    requires forall k, x :: x in l.next ==> body(k, x) == []
    ensures h in l.next && Visits(safe, Start(l, h), h, body, |s|) == (s, true)
  {
    StartsAtFirst(l, h, s);
    MembersDistinct(h, s);
    assert s[0..] == s;
    forall i | 0 <= i < |s| ensures SparesAt(safe, h, s, body, i) {
      RingClosed(l, h, s, s[i]);
    }
    VisitsRest(safe, Start(l, h), h, s, 0, [], body);
  }

  /** Unlinking the node being visited maps the position of the form that is not
      safe to itself: the loop never ends, whatever the body does afterwards. */
  lemma UnsafeSelfUnlinkNeverEnds<N>(c: Cursor<N>, h: N, body: Body<N>, fuel: nat)
    requires Fits(c, body) && c.pos != h && c.pos in body(c.k, c.pos)
    ensures Step(false, c, body).pos == c.pos
    ensures !Visits(false, c, h, body, fuel).1
  {
    StepDetaches(false, c, body, c.pos);
    if fuel > 0 {
      NeverEnds(false, Step(false, c, body), h, body, c.pos, fuel - 1);
    }
  }
}
