/** What the other modules share about sequences. */
module Sequences {

  ghost predicate Distinct<T>(s: seq<T>) {
    forall i, j :: 0 <= i < j < |s| ==> s[i] != s[j]
  }

  function Reverse<T>(s: seq<T>): (r: seq<T>)
    ensures |r| == |s|
    ensures forall i :: 0 <= i < |s| ==> r[i] == s[|s| - 1 - i]
  {
    if s == [] then [] else Reverse(s[1..]) + [s[0]]
  }

  /** The elements of s in p, in order. */
  ghost function Picked<T>(s: seq<T>, p: set<T>): seq<T> {
    if s == [] then []
    else Picked(s[..|s| - 1], p) + if s[|s| - 1] in p then [s[|s| - 1]] else []
  }

  /** The others, in order. */
  ghost function Kept<T>(s: seq<T>, p: set<T>): seq<T> {
    if s == [] then []
    else Kept(s[..|s| - 1], p) + if s[|s| - 1] in p then [] else [s[|s| - 1]]
  }

  lemma SplitMembers<T>(s: seq<T>, p: set<T>)
    ensures forall x :: x in Picked(s, p) ==> x in s && x in p
    ensures forall x :: x in Kept(s, p) ==> x in s && x !in p
    ensures forall x :: x in s ==> x in Picked(s, p) || x in Kept(s, p)
  {
    if s != [] {
      SplitMembers(s[..|s| - 1], p);
      assert s == s[..|s| - 1] + [s[|s| - 1]];
    }
  }

  lemma PickOrKeep<T>(s: seq<T>, p: set<T>, i: nat)
    requires i < |s|
    ensures s[i] in p ==> Picked(s[..i + 1], p) == Picked(s[..i], p) + [s[i]]
    ensures s[i] in p ==> Kept(s[..i + 1], p) == Kept(s[..i], p)
    ensures s[i] !in p ==> Picked(s[..i + 1], p) == Picked(s[..i], p)
    ensures s[i] !in p ==> Kept(s[..i + 1], p) == Kept(s[..i], p) + [s[i]]
    ensures s[i] !in p ==> Kept(s[..i + 1], p) + s[i + 1..] == Kept(s[..i], p) + s[i..]
    ensures s[i..][0] == s[i] && s[i..][1..] == s[i + 1..]
  {
    assert s[..i + 1][..i] == s[..i];
    assert [s[i]] + s[i + 1..] == s[i..];
  }

  lemma {:induction false} SplitLengths<T>(s: seq<T>, p: set<T>)
    ensures |Picked(s, p)| + |Kept(s, p)| == |s|
  {
    if s != [] {
      SplitLengths(s[..|s| - 1], p);
    }
  }

  lemma PickedLast<T>(s: seq<T>, x: T, p: set<T>)
    ensures Picked(s + [x], p) == Picked(s, p) + (if x in p then [x] else [])
    ensures Kept(s + [x], p) == Kept(s, p) + (if x in p then [] else [x])
  {
    assert (s + [x])[..|s + [x]| - 1] == s;
  }

  lemma Associative<T>(a: seq<T>, b: seq<T>, c: seq<T>)
    ensures (a + b) + c == a + (b + c)
  {
  }

  lemma {:induction false} PickedConcat<T>(a: seq<T>, b: seq<T>, p: set<T>)
    ensures Picked(a + b, p) == Picked(a, p) + Picked(b, p)
    ensures Kept(a + b, p) == Kept(a, p) + Kept(b, p)
    decreases b
  {
    if b == [] {
      assert a + b == a;
    } else {
      var b', x := b[..|b| - 1], b[|b| - 1];
      PickedConcat(a, b', p);
      assert b == b' + [x];
      Associative(a, b', [x]);
      PickedLast(b', x, p);
      PickedLast(a + b', x, p);
      Associative(Picked(a, p), Picked(b', p), if x in p then [x] else []);
      Associative(Kept(a, p), Kept(b', p), if x in p then [] else [x]);
    }
  }

  lemma ReverseAppend<T>(s: seq<T>, x: T)
    ensures Reverse(s + [x]) == [x] + Reverse(s)
  {
  }

  lemma ReverseTwice<T>(s: seq<T>)
    ensures Reverse(Reverse(s)) == s
  {
  }
}
