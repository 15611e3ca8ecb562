/**
 `list_for_each_safe` with a body that moves the picked members within the list
 being traversed: `list_del_init` and then `list_add` or `list_add_tail` on the
 traversed head itself. With `list_add` the loop always ends; with
 `list_add_tail` it meets moved nodes again, and the theorems say exactly when
 it ends and when it still visits every member once.
 */
module SelfMove {
  import opened ListLinks
  import opened ListMaps
  import opened Rings
  import opened Sequences
  import opened Traversal

  ghost predicate Ready<N>(c: Cursor<N>, h: N) {
    Linked(c.l) && h in c.l.next && c.pos in c.l.next && c.n in c.l.next
  }

  /** The links after the body has been run at x. */
  ghost function Moved<N>(tail: bool, l: Links<N>, x: N, h: N, p: set<N>): (r: Links<N>)
    requires Linked(l) && x in l.next && h in l.next
    ensures Linked(r) && r.next.Keys == l.next.Keys
  {
    if x !in p then l
    else
      DelInitKeepsLinked(l, x);
      var l1 := DelInit(l, x);
      var op := if tail then Append(x, h) else Add(x, h);
      ExecKeepsLinkedIff(l1, op);
      Exec(l1, op)
  }

  ghost function MoveStep<N>(tail: bool, c: Cursor<N>, h: N, p: set<N>): (c': Cursor<N>)
    requires Ready(c, h)
    ensures Ready(c', h) && c'.l.next.Keys == c.l.next.Keys && c'.pos == c.n
  {
    var l := Moved(tail, c.l, c.pos, h, p);
    assert NodeOk(l, c.n);
    Cursor(l, c.n, l.next[c.n], c.k + 1)
  }

  /** The nodes visited in at most `fuel` iterations, whether the loop ended, and
      the links it left. */
  ghost function Tour<N>(tail: bool, c: Cursor<N>, h: N, p: set<N>, fuel: nat): (seq<N>, bool, Links<N>)
    requires Ready(c, h)
    decreases fuel
  {
    if c.pos == h then ([], true, c.l)
    else if fuel == 0 then ([], false, c.l)
    else
      var r := Tour(tail, MoveStep(tail, c, h, p), h, p, fuel - 1);
      ([c.pos] + r.0, r.1, r.2)
  }

  /** The loop stands at place i of the list t, and the other lists are those of m. */
  ghost predicate Stands<N>(c: Cursor<N>, m: Lists<N>, h: N, t: seq<N>, i: nat) {
    && h in m && Holds(c.l, m[h := t])
    && i <= |t| && c.pos == Place(h, t, i)
    && c.pos in c.l.next && c.n == c.l.next[c.pos]
  }

  // ----- One iteration

  lemma NextPlace<N>(l: Links<N>, h: N, t: seq<N>, i: nat)
    requires Ring(l, h, t) && i < |t|
    ensures t[i] in l.next && l.next[t[i]] == Place(h, t, i + 1) && t[i] != h
  {
    assert LinkAt(l, Round(h, t), i + 1);
    MembersDistinct(h, t);
  }

  lemma StandsFacts<N>(c: Cursor<N>, m: Lists<N>, h: N, t: seq<N>, i: nat)
    requires Ready(c, h) && Stands(c, m, h, t, i)
    ensures Distinct(t) && h !in t && (c.pos == h <==> i == |t|)
    ensures i < |t| ==> c.pos == t[i] && c.n == Place(h, t, i + 1)
  {
    assert m[h := t][h] == t && Ring(c.l, h, t);
    MembersDistinct(h, t);
    if i < |t| {
      NextPlace(c.l, h, t, i);
    }
  }

  /** The lists after the body has moved the node at place i. */
  lemma MoveOne<N>(tail: bool, l: Links<N>, m: Lists<N>, h: N, t: seq<N>, i: nat, p: set<N>)
    requires Linked(l) && h in l.next && h in m && Holds(l, m[h := t]) && i < |t| && t[i] in p && t[i] in l.next
    ensures var rest := t[..i] + t[i + 1..];
            Holds(Moved(tail, l, t[i], h, p), m[h := if tail then rest + [t[i]] else [t[i]] + rest])
  {
    var x, rest := t[i], t[..i] + t[i + 1..];
    assert t == t[..i] + t[i..] && t[i..][1..] == t[i + 1..];
    var m1 := DelCurrent(l, m[h := t], h, t[..i], t[i..]);
    var l1 := DelInit(l, x);
    FreeIfDetached(m1, x);
    if tail {
      AddTailHolds(l1, m1, x, h);
      assert (m1 - {x})[h := m1[h] + [x]] == m[h := rest + [x]];
    } else {
      AddFrontHolds(l1, m1, x, h);
      assert (m1 - {x})[h := [x] + m1[h]] == m[h := [x] + rest];
    }
  }

  // ----- The same loop on the sequence of members

  /** The list when the node at place i has gone to its tail. */
  ghost function Sent<T>(t: seq<T>, i: nat): (r: seq<T>)
    requires i < |t|
    ensures |r| == |t|
  {
    t[..i] + t[i + 1..] + [t[i]]
  }

  /** One iteration at place i. A node moved to the tail leaves the loop at place
      i of the list, which has closed up, unless it was last: then it stays last
      and the loop is at its end. A node moved to the front leaves it at the next
      place. */
  ghost function SeqStep<T>(tail: bool, t: seq<T>, i: nat, p: set<T>): (r: (seq<T>, nat))
    requires i < |t|
    ensures |r.0| == |t| && r.1 <= |t|
  {
    if t[i] !in p then (t, i + 1)
    else if tail then (Sent(t, i), if i + 1 < |t| then i else i + 1)
    else ([t[i]] + (t[..i] + t[i + 1..]), i + 1)
  }

  ghost function SeqTour<T>(tail: bool, t: seq<T>, i: nat, p: set<T>, fuel: nat): (seq<T>, bool, seq<T>)
    requires i <= |t|
    decreases fuel
  {
    if i == |t| then ([], true, t)
    else if fuel == 0 then ([], false, t)
    else
      var (t', i') := SeqStep(tail, t, i, p);
      var r := SeqTour(tail, t', i', p, fuel - 1);
      ([t[i]] + r.0, r.1, r.2)
  }

  lemma SeqTourFrom<T>(tail: bool, t: seq<T>, i: nat, p: set<T>, fuel: nat, v: seq<T>, e: seq<T>)
    requires i < |t|
    requires SeqTour(tail, SeqStep(tail, t, i, p).0, SeqStep(tail, t, i, p).1, p, fuel) == (v, true, e)
    ensures SeqTour(tail, t, i, p, fuel + 1) == ([t[i]] + v, true, e)
  {
  }

  lemma StepRefines<N>(tail: bool, c: Cursor<N>, m: Lists<N>, h: N, t: seq<N>, i: nat, p: set<N>)
    requires Ready(c, h) && Stands(c, m, h, t, i) && i < |t|
    ensures var (t', i') := SeqStep(tail, t, i, p); Stands(MoveStep(tail, c, h, p), m, h, t', i')
  {
    StandsFacts(c, m, h, t, i);
    if t[i] in p {
      MoveOne(tail, c.l, m, h, t, i, p);
    }
  }

  /** The loop on the links does what the loop on the sequence does. */
  lemma {:induction false} TourRefines<N>(tail: bool, c: Cursor<N>, m: Lists<N>, h: N, t: seq<N>, i: nat, p: set<N>,
                                          fuel: nat)
    requires Ready(c, h) && Stands(c, m, h, t, i)
    ensures var (v, ended, t') := SeqTour(tail, t, i, p, fuel);
            var r := Tour(tail, c, h, p, fuel);
            r.0 == v && r.1 == ended && Holds(r.2, m[h := t'])
    decreases fuel
  {
    StandsFacts(c, m, h, t, i);
    if i < |t| && fuel > 0 {
      var (t', i') := SeqStep(tail, t, i, p);
      StepRefines(tail, c, m, h, t, i, p);
      TourRefines(tail, MoveStep(tail, c, h, p), m, h, t', i', p, fuel - 1);
    }
  }

  lemma StartsAtZero<N>(l: Links<N>, m: Lists<N>, h: N)
    requires Linked(l) && Holds(l, m) && h in m
    ensures h in l.next && Ready(Start(l, h), h) && Stands(Start(l, h), m, h, m[h], 0)
  {
    NextOfHead(l, m, h);
    assert m[h := m[h]] == m;
  }

  // ----- Moving to the front

  /** The list when the loop has come to place i of s. */
  ghost function FrontAt<N>(s: seq<N>, p: set<N>, i: nat): seq<N>
    requires i <= |s|
  {
    Reverse(Picked(s[..i], p)) + Kept(s[..i], p) + s[i..]
  }

  lemma SplitAround<T>(b: seq<T>, x: T, rest: seq<T>)
    ensures var t := b + ([x] + rest); t[..|b|] == b && t[|b|] == x && t[|b| + 1..] == rest
  {
  }

  lemma FrontSplit<N>(s: seq<N>, p: set<N>, i: nat)
    requires i < |s|
    ensures |FrontAt(s, p, i)| == |s| && FrontAt(s, p, i)[i] == s[i]
    ensures FrontAt(s, p, i)[..i] == Reverse(Picked(s[..i], p)) + Kept(s[..i], p)
    ensures FrontAt(s, p, i)[i + 1..] == s[i + 1..]
  {
    var b := Reverse(Picked(s[..i], p)) + Kept(s[..i], p);
    SplitLengths(s[..i], p);
    assert s[i..] == [s[i]] + s[i + 1..];
    SplitAround(b, s[i], s[i + 1..]);
  }

  lemma FrontStep<N>(s: seq<N>, p: set<N>, i: nat)
    requires i < |s| && i < |FrontAt(s, p, i)|
    ensures s[i] !in p ==> FrontAt(s, p, i + 1) == FrontAt(s, p, i)
    ensures s[i] in p ==> FrontAt(s, p, i + 1) == [s[i]] + (FrontAt(s, p, i)[..i] + FrontAt(s, p, i)[i + 1..])
  {
    var a, k, rest := Reverse(Picked(s[..i], p)), Kept(s[..i], p), s[i + 1..];
    FrontSplit(s, p, i);
    PickOrKeep(s, p, i);
    assert s[i..] == [s[i]] + rest;
    if s[i] in p {
      ReverseAppend(Picked(s[..i], p), s[i]);
      AppendAround([s[i]], a, k, rest);
    } else {
      AppendBetween(a, k, [s[i]], rest);
    }
  }

  lemma AppendAround<T>(x: seq<T>, a: seq<T>, k: seq<T>, rest: seq<T>)
    ensures (x + a) + k + rest == x + ((a + k) + rest)
  {
  }

  lemma AppendBetween<T>(a: seq<T>, k: seq<T>, x: seq<T>, rest: seq<T>)
    ensures a + (k + x) + rest == a + k + (x + rest)
  {
  }

  lemma FrontEnd<N>(s: seq<N>, p: set<N>)
    ensures FrontAt(s, p, |s|) == Reverse(Picked(s, p)) + Kept(s, p) && |FrontAt(s, p, |s|)| == |s|
  {
    SplitLengths(s, p);
    assert s[..|s|] == s;
  }

  lemma FrontSeqStep<N>(s: seq<N>, p: set<N>, i: nat)
    requires i < |s|
    ensures |FrontAt(s, p, i)| == |s| && FrontAt(s, p, i)[i] == s[i]
    ensures SeqStep(false, FrontAt(s, p, i), i, p) == (FrontAt(s, p, i + 1), i + 1)
  {
    FrontSplit(s, p, i);
    FrontStep(s, p, i);
  }

  lemma {:induction false} FrontTour<T>(s: seq<T>, i: nat, p: set<T>, t: seq<T>, e: seq<T>)
    requires i <= |s| == |t| && t == FrontAt(s, p, i) && e == Reverse(Picked(s, p)) + Kept(s, p)
    ensures SeqTour(false, t, i, p, |s| - i) == (s[i..], true, e)
    decreases |s| - i
  {
    if i == |s| {
      FrontEnd(s, p);
    } else {
      var t' := FrontAt(s, p, i + 1);
      FrontSeqStep(s, p, i);
      FrontTour(s, i + 1, p, t', e);
      SeqTourFrom(false, t, i, p, |s| - i - 1, s[i + 1..], e);
      HeadOfSuffix(s, i);
    }
  }

  lemma HeadOfSuffix<T>(s: seq<T>, i: nat)
    requires i < |s|
    ensures [s[i]] + s[i + 1..] == s[i..]
  {
  }

  lemma SeqFrontTour<T>(s: seq<T>, p: set<T>)
    ensures SeqTour(false, s, 0, p, |s|) == (s, true, Reverse(Picked(s, p)) + Kept(s, p))
  {
    assert s[..0] == [] && s[0..] == s && FrontAt(s, p, 0) == s;
    FrontTour(s, 0, p, s, Reverse(Picked(s, p)) + Kept(s, p));
  }

  /** `list_add` on the traversed list: the loop ends, has visited every member
      once and in order, and leaves the moved part reversed in front of the rest;
      no other list changes. */
  lemma MoveToOwnFront<N>(l: Links<N>, m: Lists<N>, h: N, p: set<N>)
    requires Linked(l) && Holds(l, m) && h in m
    ensures h in l.next
    ensures var r := Tour(false, Start(l, h), h, p, |m[h]|);
            r.0 == m[h] && r.1 && Holds(r.2, m[h := Reverse(Picked(m[h], p)) + Kept(m[h], p)])
  {
    StartsAtZero(l, m, h);
    SeqFrontTour(m[h], p);
    TourRefines(false, Start(l, h), m, h, m[h], 0, p, |m[h]|);
  }

  // ----- Moving to the tail

  lemma PickedAhead<T>(t: seq<T>, i: nat, p: set<T>)
    requires i < |t|
    ensures Picked(t[i..], p) == Picked([t[i]], p) + Picked(t[i + 1..], p)
  {
    assert t[i..] == [t[i]] + t[i + 1..];
    PickedConcat([t[i]], t[i + 1..], p);
  }

  lemma SentAhead<T>(t: seq<T>, i: nat, p: set<T>)
    requires i < |t|
    ensures Sent(t, i)[i..] == t[i + 1..] + [t[i]]
    ensures Picked(Sent(t, i)[i..], p) == Picked(t[i + 1..], p) + Picked([t[i]], p)
  {
    assert Sent(t, i)[i..] == t[i + 1..] + [t[i]];
    PickedConcat(t[i + 1..], [t[i]], p);
  }

  lemma PickedOne<T>(x: T, p: set<T>)
    ensures Picked([x], p) == (if x in p then [x] else [])
    ensures Kept([x], p) == (if x in p then [] else [x])
  {
    assert [x][..0] == [];
  }

  lemma TwoAhead<T>(t: seq<T>, i: nat, p: set<T>)
    requires i <= |t| && |Picked(t[i..], p)| >= 2
    ensures i + 1 < |t|
    ensures |Picked(if t[i] in p then Sent(t, i)[i..] else t[i + 1..], p)| >= 2
  {
    SplitLengths(t[i..], p);
    PickedAhead(t, i, p);
    PickedOne(t[i], p);
    SentAhead(t, i, p);
  }

  /** With two members picked ahead, there always will be. */
  lemma {:induction false} TailNeverEnds<T>(t: seq<T>, i: nat, p: set<T>, fuel: nat)
    requires i <= |t| && |Picked(t[i..], p)| >= 2
    ensures !SeqTour(true, t, i, p, fuel).1
    decreases fuel
  {
    TwoAhead(t, i, p);
    if fuel > 0 {
      var (t', i') := SeqStep(true, t, i, p);
      TailNeverEnds(t', i', p, fuel - 1);
    }
  }

  lemma {:induction false} NonePicked<T>(s: seq<T>, p: set<T>)
    requires Picked(s, p) == []
    ensures Kept(s, p) == s
  {
    if s != [] {
      NonePicked(s[..|s| - 1], p);
    }
  }

  lemma OneAmong<T>(a: seq<T>, b: seq<T>, p: set<T>, x: T)
    requires x in p
    ensures Picked(a + [x] + b, p) == Picked(a, p) + [x] + Picked(b, p)
    ensures Kept(a + [x] + b, p) == Kept(a, p) + Kept(b, p)
  {
    PickedConcat(a + [x], b, p);
    PickedLast(a, x, p);
  }

  /** A stretch with nothing picked is walked over. */
  lemma {:induction false} PassStretch<T>(t: seq<T>, i: nat, j: nat, p: set<T>, fuel: nat)
    requires i <= j <= |t| && Picked(t[i..j], p) == []
    ensures var r := SeqTour(true, t, j, p, fuel);
            SeqTour(true, t, i, p, j - i + fuel) == (t[i..j] + r.0, r.1, r.2)
    decreases j - i
  {
    var r := SeqTour(true, t, j, p, fuel);
    if i == j {
      assert t[i..j] + r.0 == r.0;
    } else {
      FirstNotPicked(t, i, j, p);
      PassStretch(t, i + 1, j, p, fuel);
      StepOver(t, i, p, j - i - 1 + fuel);
      FirstOfStretch(t, i, j, r.0);
    }
  }

  lemma StepOver<T>(t: seq<T>, i: nat, p: set<T>, fuel: nat)
    requires i < |t| && t[i] !in p
    ensures var r := SeqTour(true, t, i + 1, p, fuel);
            SeqTour(true, t, i, p, fuel + 1) == ([t[i]] + r.0, r.1, r.2)
  {
  }

  lemma FirstOfStretch<T>(t: seq<T>, i: nat, j: nat, v: seq<T>)
    requires i < j <= |t|
    ensures [t[i]] + (t[i + 1..j] + v) == t[i..j] + v
  {
  }

  lemma FirstNotPicked<T>(t: seq<T>, i: nat, j: nat, p: set<T>)
    requires i < j <= |t| && Picked(t[i..j], p) == []
    ensures t[i] !in p && Picked(t[i + 1..j], p) == []
  {
    assert t[i..j] == [t[i]] + t[i + 1..j];
    PickedConcat([t[i]], t[i + 1..j], p);
    PickedOne(t[i], p);
  }

  /** From place i to a picked member that is last. */
  lemma TourToLast<T>(u: seq<T>, i: nat, p: set<T>, x: T)
    requires i <= |u| && Picked(u[i..], p) == [] && x in p
    ensures SeqTour(true, u + [x], i, p, |u| - i + 1) == (u[i..] + [x], true, u + [x])
  {
    var t := u + [x];
    assert t[i..|u|] == u[i..];
    PassStretch(t, i, |u|, p, 1);
    assert Sent(t, |u|) == t && [x] + [] == [x];
    SeqTourFrom(true, t, |u|, p, 0, [], t);
  }

  /** From a picked member with others behind it, but none of them picked: it is
      sent to the tail and met again there. */
  lemma MeetAgain<T>(a: seq<T>, b: seq<T>, p: set<T>, x: T)
    requires Picked(b, p) == [] && x in p && b != []
    ensures SeqTour(true, a + [x] + b, |a|, p, |b| + 2) == ([x] + (b + [x]), true, a + b + [x])
  {
    var t := a + [x] + b;
    SentSplit(a, b, x);
    TourToLast(a + b, |a|, p, x);
    SeqTourFrom(true, t, |a|, p, |b| + 1, b + [x], a + b + [x]);
  }

  lemma SentSplit<T>(a: seq<T>, b: seq<T>, x: T)
    ensures (a + [x] + b)[|a|] == x && Sent(a + [x] + b, |a|) == a + b + [x]
    ensures (a + b)[|a|..] == b && |a + b| - |a| + 1 == |b| + 1
  {
    var t := a + [x] + b;
    assert t[..|a|] == a && t[|a| + 1..] == b;
  }

  /** With x the one member picked the loop ends; unless x is last already it is
      met again at the end. */
  lemma TailOnce<T>(a: seq<T>, b: seq<T>, p: set<T>, x: T) returns (fuel: nat)
    requires Picked(a, p) == [] && Picked(b, p) == [] && x in p
    ensures SeqTour(true, a + [x] + b, 0, p, fuel) ==
            (a + [x] + (if b == [] then [] else b + [x]), true, a + b + [x])
  {
    if b == [] {
      fuel := |a| + 1;
      assert a[0..] == a && a + [x] + [] == a + [x];
      TourToLast(a, 0, p, x);
      EmptyBehind(a, x);
    } else {
      fuel := |a| + (|b| + 2);
      MeetAgainFromStart(a, b, p, x);
    }
  }

  lemma EmptyBehind<T>(a: seq<T>, x: T)
    ensures a + [] + [x] == a + [x] == a + [x] + []
  {
  }

  lemma MeetAgainFromStart<T>(a: seq<T>, b: seq<T>, p: set<T>, x: T)
    requires Picked(a, p) == [] && Picked(b, p) == [] && x in p && b != []
    ensures SeqTour(true, a + [x] + b, 0, p, |a| + (|b| + 2)) == (a + [x] + (b + [x]), true, a + b + [x])
  {
    MeetAgain(a, b, p, x);
    Associative(a, [x], b);
    Associative(a, [x], b + [x]);
    StretchBefore(a, a + [x] + b, p, |b| + 2, [x] + (b + [x]), a + b + [x]);
  }

  lemma StretchBefore<T>(a: seq<T>, t: seq<T>, p: set<T>, fuel: nat, v: seq<T>, e: seq<T>)
    requires a <= t && Picked(a, p) == [] && SeqTour(true, t, |a|, p, fuel) == (v, true, e)
    ensures SeqTour(true, t, 0, p, |a| + fuel) == (a + v, true, e)
  {
    assert t[0..|a|] == a;
    PassStretch(t, 0, |a|, p, fuel);
  }

  /** A list with one picked member, taken apart at it. */
  lemma {:induction false} AroundPicked<T>(s: seq<T>, p: set<T>) returns (a: seq<T>, b: seq<T>)
    requires |Picked(s, p)| == 1
    ensures s == a + Picked(s, p) + b && Picked(a, p) == [] && Picked(b, p) == [] && Picked(s, p)[0] in p
    ensures Kept(s, p) == a + b
  {
    var front, x := s[..|s| - 1], s[|s| - 1];
    assert s == front + [x];
    PickedLast(front, x, p);
    if x in p {
      a, b := front, [];
      OnlyTheLast(front, x, p);
    } else {
      var b0: seq<T>;
      a, b0 := AroundPicked(front, p);
      b := b0 + [x];
      PickedLast(b0, x, p);
      Associative(a + Picked(front, p), b0, [x]);
      Associative(a, b0, [x]);
    }
  }

  lemma OnlyTheLast<T>(front: seq<T>, x: T, p: set<T>)
    requires x in p && |Picked(front + [x], p)| == 1
    ensures Picked(front, p) == [] && Picked(front + [x], p) == [x] && Kept(front + [x], p) == front + []
    ensures front + [x] == front + [x] + []
  {
    PickedLast(front, x, p);
    NonePicked(front, p);
  }

  // ----- The exact conditions

  lemma {:induction false} TourDetermined<N>(tail: bool, c: Cursor<N>, h: N, p: set<N>, f: nat, g: nat)
    requires Ready(c, h) && Tour(tail, c, h, p, f).1 && Tour(tail, c, h, p, g).1
    ensures Tour(tail, c, h, p, f) == Tour(tail, c, h, p, g)
    decreases f
  {
    if c.pos != h {
      TourDetermined(tail, MoveStep(tail, c, h, p), h, p, f - 1, g - 1);
    }
  }

  /** Every member, and a picked one that is not last once more. */
  ghost function WithAgain<T>(s: seq<T>, p: set<T>): seq<T> {
    if OnlyLastPicked(s, p) then s else s + Picked(s, p)
  }

  /** Nothing is picked, or only the last member. */
  ghost predicate OnlyLastPicked<T>(s: seq<T>, p: set<T>) {
    s == [] || Picked(s[..|s| - 1], p) == []
  }

  lemma SeqTailTour<T>(s: seq<T>, p: set<T>) returns (fuel: nat)
    requires |Picked(s, p)| <= 1
    ensures SeqTour(true, s, 0, p, fuel) == (WithAgain(s, p), true, Kept(s, p) + Picked(s, p))
  {
    if Picked(s, p) == [] {
      fuel := |s|;
      assert s[0..|s|] == s && s + [] == s;
      PassStretch(s, 0, |s|, p, 0);
      NonePicked(s, p);
    } else {
      var a, b := AroundPicked(s, p);
      var x := Picked(s, p)[0];
      assert Picked(s, p) == [x];
      fuel := TailOnce(a, b, p, x);
      LastOrAgain(a, b, p, x);
    }
  }

  lemma LastOrAgain<T>(a: seq<T>, b: seq<T>, p: set<T>, x: T)
    requires Picked(a, p) == [] && Picked(b, p) == [] && x in p
    ensures OnlyLastPicked(a + [x] + b, p) <==> b == []
    ensures b != [] ==> a + [x] + (b + [x]) == (a + [x] + b) + [x]
  {
    if b == [] {
      assert (a + [x] + [])[..|a|] == a;
    } else {
      AllButLast(a + [x], b);
      OneAmong(a, b[..|b| - 1], p, x);
      Associative(a + [x], b, [x]);
    }
  }

  lemma AllButLast<T>(a: seq<T>, b: seq<T>)
    requires b != []
    ensures (a + b)[..|a + b| - 1] == a + b[..|b| - 1]
  {
  }

  /** `list_add_tail` on the traversed list, at most one member being picked: the
      loop ends with the picked member last and no other list changed; it has met
      that member again unless it was last already. */
  lemma MoveToOwnTail<N>(l: Links<N>, m: Lists<N>, h: N, p: set<N>) returns (fuel: nat)
    requires Linked(l) && Holds(l, m) && h in m && |Picked(m[h], p)| <= 1
    ensures h in l.next
    ensures var r := Tour(true, Start(l, h), h, p, fuel);
            r.0 == WithAgain(m[h], p) && r.1 && Holds(r.2, m[h := Kept(m[h], p) + Picked(m[h], p)])
  {
    StartsAtZero(l, m, h);
    fuel := SeqTailTour(m[h], p);
    TourRefines(true, Start(l, h), m, h, m[h], 0, p, fuel);
  }

  /** The loop ends, having visited v. */
  ghost predicate EndsHaving<N>(l: Links<N>, h: N, p: set<N>, v: seq<N>)
    requires Linked(l) && h in l.next
  {
    exists fuel: nat :: Tour(true, Start(l, h), h, p, fuel).1 && Tour(true, Start(l, h), h, p, fuel).0 == v
  }

  lemma TwoPickedNeverEnd<N>(l: Links<N>, m: Lists<N>, h: N, p: set<N>, fuel: nat)
    requires Linked(l) && Holds(l, m) && h in m && |Picked(m[h], p)| >= 2
    ensures h in l.next && !Tour(true, Start(l, h), h, p, fuel).1
  {
    var s := m[h];
    StartsAtZero(l, m, h);
    assert s[0..] == s;
    TailNeverEnds(s, 0, p, fuel);
    TourRefines(true, Start(l, h), m, h, s, 0, p, fuel);
  }

  /** `list_add_tail` on the traversed list: the loop ends at all if and only if at
      most one member is picked, and ends having visited every member once and in
      order if and only if nothing but the last member is. */
  lemma MoveToOwnTailExact<N>(l: Links<N>, m: Lists<N>, h: N, p: set<N>)
    requires Linked(l) && Holds(l, m) && h in m
    ensures h in l.next
    ensures (exists v :: EndsHaving(l, h, p, v)) <==> |Picked(m[h], p)| <= 1
    ensures EndsHaving(l, h, p, m[h]) <==> OnlyLastPicked(m[h], p)
  {
    var s := m[h];
    StartsAtZero(l, m, h);
    var c := Start(l, h);
    FewPicked(s, p);
    if |Picked(s, p)| <= 1 {
      var g := MoveToOwnTail(l, m, h, p);
      assert EndsHaving(l, h, p, WithAgain(s, p));
      forall fuel: nat | Tour(true, c, h, p, fuel).1 ensures Tour(true, c, h, p, fuel) == Tour(true, c, h, p, g) {
        TourDetermined(true, c, h, p, fuel, g);
      }
    } else {
      forall fuel: nat ensures !Tour(true, c, h, p, fuel).1 {
        TwoPickedNeverEnd(l, m, h, p, fuel);
      }
    }
  }

  lemma FewPicked<T>(s: seq<T>, p: set<T>)
    ensures OnlyLastPicked(s, p) ==> |Picked(s, p)| <= 1
    ensures |Picked(s, p)| == 0 ==> OnlyLastPicked(s, p)
    ensures WithAgain(s, p) == s <==> OnlyLastPicked(s, p)
  {
    if !OnlyLastPicked(s, p) {
      assert |s + Picked(s, p)| > |s|;
    }
  }

  ghost function TwoMembers<N>(a: N, b: N, h: N): Links<N> {
    Links(map[h := a, a := b, b := h], map[h := b, a := h, b := a])
  }

  lemma TwoMembersRing<N>(a: N, b: N, h: N)
    requires a != b && a != h && b != h
    ensures Linked(TwoMembers(a, b, h)) && Ring(TwoMembers(a, b, h), h, [a, b])
  {
    var c := Round(h, [a, b]);
    var l := TwoMembers(a, b, h);
    assert LinkAt(l, c, 0) && LinkAt(l, c, 1) && LinkAt(l, c, 2);
  }

  lemma BothPicked<N>(a: N, b: N)
    ensures |Picked([a, b], {a, b})| == 2
  {
    PickedOne(a, {a, b});
    PickedLast([a], b, {a, b});
    assert [a] + [b] == [a, b];
  }

  lemma OneList<N>(l: Links<N>, h: N, s: seq<N>)
    requires Ring(l, h, s)
    ensures Holds(l, map[h := s])
  {
  }

  /** The least list on which the loop does not end: two members, both moved. */
  lemma TwoMembersNeverEnd<N>(a: N, b: N, h: N, fuel: nat)
    requires a != b && a != h && b != h
    ensures Linked(TwoMembers(a, b, h)) && Ring(TwoMembers(a, b, h), h, [a, b])
    ensures !Tour(true, Start(TwoMembers(a, b, h), h), h, {a, b}, fuel).1
  {
    TwoMembersRing(a, b, h);
    OneList(TwoMembers(a, b, h), h, [a, b]);
    BothPicked(a, b);
    TwoPickedNeverEnd(TwoMembers(a, b, h), map[h := [a, b]], h, {a, b}, fuel);
  }
}
