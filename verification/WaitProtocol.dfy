/**
 `MppThread::wait` and `signal` as a protocol. A wait is two atomic steps,
 because the caller holds the slot's mutex except while it is parked: entering
 (save the status, publish WAITING, park) and returning (restore the saved
 status if the slot still says WAITING). A parked thread may return at any time,
 signalled or not. Writes by other code to the status array are a third step.
 */
module WaitProtocol {

  datatype Status = Uninited | Running | Waiting | Stopping

  const SLOTS: nat := 4

  /** The local variable of a thread inside `wait`: the slot and the status it saved. */
  datatype Parked = Parked(id: nat, saved: Status)

  datatype State = State(status: seq<Status>, parked: map<nat, Parked>) {
    ghost predicate Valid() {
      |status| == SLOTS && forall t :: t in parked ==> parked[t].id < SLOTS
    }
  }

  datatype Event =
    | Enter(thread: nat, id: nat)
    | Return(thread: nat)
    | Signal(id: nat)
    | Write(id: nat, status: Status)

  ghost predicate Enabled(s: State, e: Event) {
    match e
    case Enter(t, id) => t !in s.parked && id < SLOTS
    case Return(t) => t in s.parked
    case Signal(id) => id < SLOTS
    case Write(id, _) => id < SLOTS
  }

  ghost function Next(s: State, e: Event): (s': State)
    requires s.Valid() && Enabled(s, e)
    ensures s'.Valid()
  {
    match e
    case Enter(t, id) =>
      State(s.status[id := Waiting], s.parked[t := Parked(id, s.status[id])])
    case Return(t) =>
      var w := s.parked[t];
      State(if s.status[w.id] == Waiting then s.status[w.id := w.saved] else s.status, s.parked - {t})
    case Signal(_) => s
    case Write(id, st) => s.(status := s.status[id := st])
  }

  ghost predicate CanRun(s: State, run: seq<Event>)
    requires s.Valid()
    decreases run
  {
    run == [] || (Enabled(s, run[0]) && CanRun(Next(s, run[0]), run[1..]))
  }

  ghost function After(s: State, run: seq<Event>): (s': State)
    requires s.Valid() && CanRun(s, run)
    ensures s'.Valid()
    decreases run
  {
    if run == [] then s else After(Next(s, run[0]), run[1..])
  }

  /** The threads parked on a slot. */
  ghost function On(s: State, id: nat): set<nat> {
    set t | t in s.parked && s.parked[t].id == id
  }

  /** Those of them that saved something other than WAITING. */
  ghost function Holders(s: State, id: nat): set<nat> {
    set t | t in s.parked && s.parked[t].id == id && s.parked[t].saved != Waiting
  }

  ghost predicate NoWrites(run: seq<Event>, id: nat) {
    forall i :: 0 <= i < |run| ==> !(run[i].Write? && run[i].id == id)
  }

  ghost predicate NoNewWaits(run: seq<Event>, id: nat) {
    forall i :: 0 <= i < |run| ==> !(run[i].Enter? && run[i].id == id)
  }

  // ----- What is possible, and what a step does

  /** A run takes its steps one after the other, and what makes the next one
      possible is only that the slot exists and that a thread enters `wait` when
      it is not inside and returns when it is. */
  lemma {:induction false} RunLast(s: State, run: seq<Event>, e: Event)
    requires s.Valid()
    ensures CanRun(s, run + [e])
       <==> && CanRun(s, run)
            && (e.Enter? ==> e.thread !in After(s, run).parked && e.id < SLOTS)
            && (e.Return? ==> e.thread in After(s, run).parked)
            && (e.Signal? || e.Write? ==> e.id < SLOTS)
    ensures CanRun(s, run + [e]) ==> After(s, run + [e]) == Next(After(s, run), e)
    decreases run
  {
    var all := run + [e];
    if run == [] {
      assert all[0] == e && all[1..] == [];
    } else {
      assert all[0] == run[0] && all[1..] == run[1..] + [e];
      if Enabled(s, run[0]) {
        RunLast(Next(s, run[0]), run[1..], e);
      }
    }
  }

  /** Distinct threads, none of them parked in s, each entering a wait on some slot. */
  ghost predicate NewWaits(s: State, run: seq<Event>) {
    && (forall i :: 0 <= i < |run| ==> run[i].Enter? && run[i].id < SLOTS && run[i].thread !in s.parked)
    && forall i, j :: 0 <= i < j < |run| ==> run[i].Enter? && run[j].Enter? && run[i].thread != run[j].thread
  }

  /** Any number of threads may be inside `wait` at a time, on the same slot or on
      different ones: entries by distinct threads that are not inside it already
      are always possible, one after the other, and nothing else of the kind is. */
  lemma {:induction false} ManyMayWait(s: State, run: seq<Event>)
    requires s.Valid() && forall i :: 0 <= i < |run| ==> run[i].Enter?
    ensures CanRun(s, run) <==> NewWaits(s, run)
    ensures CanRun(s, run) ==> After(s, run).parked.Keys == s.parked.Keys + Entered(run)
    decreases run
  {
    if run != [] {
      var rest := run[1..];
      assert forall i :: 0 <= i < |rest| ==> rest[i] == run[i + 1];
      if Enabled(s, run[0]) {
        var s' := Next(s, run[0]);
        ManyMayWait(s', rest);
        NewWaitsSplit(s, s', run);
        EnteredSplit(run);
      }
    }
  }

  lemma NewWaitsSplit(s: State, s': State, run: seq<Event>)
    requires run != [] && forall i :: 0 <= i < |run| ==> run[i].Enter?
    requires run[0].id < SLOTS && run[0].thread !in s.parked
    requires s'.parked.Keys == s.parked.Keys + {run[0].thread}
    ensures NewWaits(s, run) <==> NewWaits(s', run[1..])
  {
    var rest := run[1..];
    assert forall i :: 0 <= i < |rest| ==> rest[i] == run[i + 1];
    if NewWaits(s', rest) {
      forall i | 0 <= i < |run| ensures run[i].id < SLOTS && run[i].thread !in s.parked {
        assert i > 0 ==> run[i] == rest[i - 1];
      }
      forall i, j | 0 <= i < j < |run| ensures run[i].thread != run[j].thread {
        assert run[j] == rest[j - 1];
        assert i > 0 ==> run[i] == rest[i - 1];
      }
    }
  }

  /** The threads that enter a wait. */
  ghost function Entered(run: seq<Event>): set<nat> {
    set i | 0 <= i < |run| && run[i].Enter? :: run[i].thread
  }

  lemma EnteredSplit(run: seq<Event>)
    requires run != [] && run[0].Enter?
    ensures Entered(run) == {run[0].thread} + Entered(run[1..])
  {
    var rest := run[1..];
    forall t | t in Entered(run) ensures t in {run[0].thread} + Entered(rest) {
      var i :| 0 <= i < |run| && run[i].Enter? && run[i].thread == t;
      assert i > 0 ==> rest[i - 1] == run[i];
    }
    forall t | t in Entered(rest) ensures t in Entered(run) {
      var i :| 0 <= i < |rest| && rest[i].Enter? && rest[i].thread == t;
      assert run[i + 1] == rest[i];
    }
  }

  ghost function WithoutSignals(run: seq<Event>): seq<Event> {
    if run == [] then []
    else (if run[0].Signal? then [] else [run[0]]) + WithoutSignals(run[1..])
  }

  ghost predicate SignalsInRange(run: seq<Event>) {
    forall i :: 0 <= i < |run| && run[i].Signal? ==> run[i].id < SLOTS
  }

  /** Signals make no difference: a run is possible if and only if it is without
      them, and both end in the same state. */
  lemma {:induction false} SignalsDoNotMatter(s: State, run: seq<Event>)
    requires s.Valid()
    ensures CanRun(s, run) <==> SignalsInRange(run) && CanRun(s, WithoutSignals(run))
    ensures CanRun(s, run) ==> After(s, run) == After(s, WithoutSignals(run))
    decreases run
  {
    if run != [] {
      var e, rest := run[0], WithoutSignals(run[1..]);
      SignalsSplit(run);
      if e.Signal? {
        assert [] + rest == rest;
      } else {
        assert ([e] + rest)[0] == e && ([e] + rest)[1..] == rest;
      }
      if Enabled(s, e) {
        SignalsDoNotMatter(Next(s, e), run[1..]);
      }
    }
  }

  lemma SignalsSplit(run: seq<Event>)
    requires run != []
    ensures SignalsInRange(run) <==> (run[0].Signal? ==> run[0].id < SLOTS) && SignalsInRange(run[1..])
  {
    var rest := run[1..];
    assert forall i :: 0 <= i < |rest| ==> rest[i] == run[i + 1];
    if SignalsInRange(rest) && (run[0].Signal? ==> run[0].id < SLOTS) {
      forall i | 0 <= i < |run| && run[i].Signal? ensures run[i].id < SLOTS {
        assert i > 0 ==> run[i] == rest[i - 1];
      }
    }
  }

  // ----- No outside write

  /** Either nothing is held and the slot shows `orig`, or the slot shows
      WAITING and exactly one parked thread holds `orig`. */
  ghost predicate Kept(s: State, id: nat, orig: Status) {
    && s.Valid() && id < SLOTS && orig != Waiting
    && (|| (s.status[id] == orig && Holders(s, id) == {})
        || (s.status[id] == Waiting && exists t :: t in s.parked && Holders(s, id) == {t} && s.parked[t].saved == orig))
  }

  lemma StepKeeps(s: State, e: Event, id: nat, orig: Status)
    requires Kept(s, id, orig) && Enabled(s, e) && !(e.Write? && e.id == id)
    ensures Kept(Next(s, e), id, orig)
  {
    var s' := Next(s, e);
    if s.status[id] == Waiting {
      var t :| t in s.parked && Holders(s, id) == {t} && s.parked[t].saved == orig;
      assert t in Holders(s, id);
      if e == Return(t) {
        assert Holders(s', id) == {};
      } else {
        assert e.Return? ==> e.thread !in Holders(s, id);
        assert Holders(s', id) == {t} && s'.parked[t] == s.parked[t];
      }
    } else if e.Enter? && e.id == id {
      assert Holders(s', id) == {e.thread};
    } else {
      assert forall t :: t in On(s, id) ==> s.parked[t].saved == Waiting by {
        assert forall t :: t in On(s, id) ==> t in Holders(s, id) || s.parked[t].saved == Waiting;
      }
      assert Holders(s', id) == {};
    }
  }

  /** For any number of waiters, any order of returns, spurious ones included:
      at every point of the run the slot shows WAITING exactly when one parked
      thread, and only one, holds a status other than WAITING; and whenever
      nobody is parked on the slot it shows what it showed at first. */
  lemma {:induction false} WaitsRestoreStatus(s: State, run: seq<Event>, id: nat, orig: Status)
    requires Kept(s, id, orig) && CanRun(s, run) && NoWrites(run, id)
    ensures Kept(After(s, run), id, orig)
    ensures After(s, run).status[id] == Waiting <==> |Holders(After(s, run), id)| == 1
    ensures On(After(s, run), id) == {} ==> After(s, run).status[id] == orig
    decreases run
  {
    if run == [] {
      if s.status[id] == Waiting {
        var t :| t in s.parked && Holders(s, id) == {t} && s.parked[t].saved == orig;
        assert t in Holders(s, id) && t in On(s, id);
      }
    } else {
      StepKeeps(s, run[0], id, orig);
      WaitsRestoreStatus(Next(s, run[0]), run[1..], id, orig);
    }
  }

  // ----- Outside writes

  /** Once written, a status other than WAITING stays for as long as no new wait
      begins on the slot, whoever returns and in whatever order. */
  lemma {:induction false} WriteStaysWithoutNewWaits(s: State, run: seq<Event>, id: nat)
    requires s.Valid() && CanRun(s, run) && id < SLOTS && s.status[id] != Waiting
    requires NoWrites(run, id) && NoNewWaits(run, id)
    ensures After(s, run).status[id] == s.status[id]
    decreases run
  {
    if run != [] {
      WriteStaysWithoutNewWaits(Next(s, run[0]), run[1..], id);
    }
  }

  /** A status other than WAITING that other code writes is shown, whatever the
      slot showed before and whoever was parked on it, until a new wait begins on
      the slot or it is written again. */
  lemma WriteTakesEffect(s: State, id: nat, w: Status, run: seq<Event>)
    requires s.Valid() && id < SLOTS && w != Waiting
    requires CanRun(s, [Write(id, w)] + run) && NoWrites(run, id) && NoNewWaits(run, id)
    ensures After(s, [Write(id, w)] + run).status[id] == w
  {
    assert ([Write(id, w)] + run)[1..] == run;
    WriteStaysWithoutNewWaits(Next(s, Write(id, w)), run, id);
  }

  /** Nothing but w can come to be restored. */
  ghost predicate OnlyHolds(s: State, id: nat, w: Status) {
    && s.Valid() && id < SLOTS && w != Waiting
    && (s.status[id] == w || s.status[id] == Waiting)
    && (s.status[id] == Waiting ==> Holders(s, id) != {})
    && forall t :: t in s.parked && s.parked[t].id == id ==> s.parked[t].saved == w || s.parked[t].saved == Waiting
  }

  lemma StepOnlyHolds(s: State, e: Event, id: nat, w: Status)
    requires OnlyHolds(s, id, w) && Enabled(s, e) && !(e.Write? && e.id == id)
    ensures OnlyHolds(Next(s, e), id, w)
  {
    var s' := Next(s, e);
    if s'.status[id] == Waiting {
      if s.status[id] == Waiting {
        var t :| t in Holders(s, id);
        assert t in Holders(s', id);
      } else {
        assert e.thread in Holders(s', id);
      }
    }
  }

  lemma {:induction false} RunOnlyHolds(s: State, run: seq<Event>, id: nat, w: Status)
    requires OnlyHolds(s, id, w) && CanRun(s, run) && NoWrites(run, id)
    ensures OnlyHolds(After(s, run), id, w)
    decreases run
  {
    if run != [] {
      StepOnlyHolds(s, run[0], id, w);
      RunOnlyHolds(Next(s, run[0]), run[1..], id, w);
    }
  }

  /** Lets every thread parked on the slot return. */
  lemma {:induction false} Drain(s: State, id: nat) returns (run: seq<Event>)
    requires s.Valid() && id < SLOTS && s.status[id] != Waiting
    ensures CanRun(s, run) && NoWrites(run, id) && On(After(s, run), id) == {}
    ensures After(s, run).status[id] == s.status[id]
    decreases On(s, id)
  {
    if On(s, id) == {} {
      run := [];
    } else {
      var t :| t in On(s, id);
      var s' := Next(s, Return(t));
      assert On(s', id) == On(s, id) - {t};
      var rest := Drain(s', id);
      run := [Return(t)] + rest;
      assert run[1..] == rest;
    }
  }

  /** Every later interleaving of waits and returns that ends with nobody parked
      ends with the status shown now. */
  ghost predicate SafeFromNow(s: State, id: nat)
    requires s.Valid() && id < SLOTS
  {
    forall run :: CanRun(s, run) && NoWrites(run, id) && On(After(s, run), id) == {}
              ==> After(s, run).status[id] == s.status[id]
  }

  /** The status just written survives every later interleaving of waits and
      returns that ends with nobody parked, if and only if no parked thread
      still holds a different one: a wait that begins after the write publishes
      WAITING again, and an older waiter then restores what it saved. */
  lemma WriteSurvivesIff(s: State, id: nat)
    requires s.Valid() && id < SLOTS && s.status[id] != Waiting
    ensures SafeFromNow(s, id)
       <==> (forall t :: t in Holders(s, id) ==> s.parked[t].saved == s.status[id])
  {
    var w := s.status[id];
    if forall t :: t in Holders(s, id) ==> s.parked[t].saved == w {
      forall run | CanRun(s, run) && NoWrites(run, id) && On(After(s, run), id) == {}
        ensures After(s, run).status[id] == w
      {
        assert forall t :: t in s.parked && s.parked[t].id == id ==>
                             t in Holders(s, id) || s.parked[t].saved == Waiting;
        RunOnlyHolds(s, run, id, w);
        assert Holders(After(s, run), id) <= On(After(s, run), id);
      }
    } else {
      var t :| t in Holders(s, id) && s.parked[t].saved != w;
      var run := Overwrite(s, id, t);
      assert CanRun(s, run) && After(s, run).status[id] != w;
    }
  }

  /** The run that loses a written status to the waiter t. */
  lemma Overwrite(s: State, id: nat, t: nat) returns (run: seq<Event>)
    requires s.Valid() && id < SLOTS && t in Holders(s, id)
    ensures CanRun(s, run) && NoWrites(run, id) && On(After(s, run), id) == {}
    ensures After(s, run).status[id] == s.parked[t].saved
  {
    var u := FreshThread(s.parked.Keys);
    var s1 := Next(s, Enter(u, id));
    var s2 := Next(s1, Return(t));
    var rest := Drain(s2, id);
    run := [Enter(u, id), Return(t)] + rest;
    assert run[1..] == [Return(t)] + rest && run[1..][1..] == rest;
    assert CanRun(s1, run[1..]);
  }

  lemma {:induction false} FreshThread(used: set<nat>) returns (u: nat)
    ensures u !in used
  {
    u := 0;
    var left := used;
    while u in used
      invariant left <= used && forall t :: t in used && t !in left ==> t < u
      invariant forall t :: t in left ==> t >= u
      decreases left
    {
      left := left - {u};
      u := u + 1;
    }
  }

  /** The check a writer can make: in a slot that only waits have touched since
      it showed `orig`, a status is safe against all later waits if and only if
      it is `orig` or the slot did not show WAITING when it was written. */
  lemma WriteSafeIff(s: State, id: nat, orig: Status, w: Status)
    requires Kept(s, id, orig) && w != Waiting
    ensures SafeFromNow(Next(s, Write(id, w)), id) <==> (s.status[id] != Waiting || w == orig)
  {
    var s' := Next(s, Write(id, w));
    WriteSurvivesIff(s', id);
    assert Holders(s', id) == Holders(s, id);
    if s.status[id] == Waiting {
      var t :| t in s.parked && Holders(s, id) == {t} && s.parked[t].saved == orig;
      assert t in Holders(s', id);
    }
  }

  // ----- Any interleaving of waits and writes

  /** A slot showing WAITING has a holder, and everything held or shown comes from `known`. */
  ghost predicate Sound(s: State, id: nat, known: set<Status>) {
    && s.Valid() && id < SLOTS && Waiting !in known
    && (s.status[id] == Waiting ==> Holders(s, id) != {})
    && (s.status[id] != Waiting ==> s.status[id] in known)
    && forall t :: t in s.parked && s.parked[t].id == id && s.parked[t].saved != Waiting ==> s.parked[t].saved in known
  }

  ghost function Written(run: seq<Event>, id: nat): set<Status> {
    set i | 0 <= i < |run| && run[i].Write? && run[i].id == id :: run[i].status
  }

  lemma StepSound(s: State, e: Event, id: nat, known: set<Status>)
    requires Sound(s, id, known) && Enabled(s, e)
    requires e.Write? && e.id == id ==> e.status in known
    ensures Sound(Next(s, e), id, known)
  {
    var s' := Next(s, e);
    if s'.status[id] == Waiting {
      if s.status[id] == Waiting {
        var t :| t in Holders(s, id);
        assert t in Holders(s', id);
      } else {
        assert e.thread in Holders(s', id);
      }
    }
  }

  /** Whatever the interleaving of waits, returns, signals and outside writes of
      statuses other than WAITING: when nobody is parked on the slot it is not
      left at WAITING but shows the first status or one that was written. */
  lemma {:induction false} NeverLeftWaiting(s: State, run: seq<Event>, id: nat, known: set<Status>)
    requires Sound(s, id, known) && CanRun(s, run) && Written(run, id) <= known
    ensures Sound(After(s, run), id, known)
    ensures On(After(s, run), id) == {} ==> After(s, run).status[id] in known
    decreases run
  {
    if run == [] {
      assert Holders(s, id) <= On(s, id);
    } else {
      var e := run[0];
      assert e.Write? && e.id == id ==> e.status in Written(run, id);
      forall st | st in Written(run[1..], id) ensures st in Written(run, id) {
        var i :| 0 <= i < |run[1..]| && run[1..][i].Write? && run[1..][i].id == id && run[1..][i].status == st;
        assert run[i + 1] == run[1..][i];
      }
      StepSound(s, e, id, known);
      NeverLeftWaiting(Next(s, e), run[1..], id, known);
    }
  }

  // ----- From the first state of a thread

  /** Nobody has waited yet: the theorems above apply to every slot that does not
      start out at WAITING. */
  lemma StartsKeptAndSound(initial: seq<Status>, id: nat)
    requires |initial| == SLOTS && id < SLOTS && initial[id] != Waiting
    ensures Kept(State(initial, map[]), id, initial[id])
    ensures Sound(State(initial, map[]), id, {initial[id]})
  {
    var s := State(initial, map[]);
    assert Holders(s, id) == {};
  }

  /** From the first state, whatever run of waits, returns, signals and writes of
      statuses other than WAITING is made: whenever nobody is parked on the slot
      it shows a status that was written to it or, certainly if none was, the
      first one. */
  lemma StatusFromStart(initial: seq<Status>, run: seq<Event>, id: nat)
    requires |initial| == SLOTS && id < SLOTS && initial[id] != Waiting
    requires CanRun(State(initial, map[]), run) && Waiting !in Written(run, id)
    ensures var s' := After(State(initial, map[]), run);
            On(s', id) == {} ==>
              && s'.status[id] in {initial[id]} + Written(run, id)
              && (NoWrites(run, id) ==> s'.status[id] == initial[id])
  {
    var s := State(initial, map[]);
    StartsKeptAndSound(initial, id);
    NeverLeftWaiting(s, run, id, {initial[id]} + Written(run, id));
    if NoWrites(run, id) {
      WaitsRestoreStatus(s, run, id, initial[id]);
    }
  }

  // ----- The class

  class MppThread {
    const mStatus: array<Status>
    /** The threads inside `wait`, with their local variable. */
    ghost var parked: map<nat, Parked>

    ghost predicate Valid()
      reads this, mStatus
    {
      mStatus.Length == SLOTS && View().Valid()
    }

    ghost function View(): State
      reads this, mStatus
    {
      State(mStatus[..], parked)
    }

    constructor (initial: seq<Status>)
      requires |initial| == SLOTS
      ensures Valid() && fresh(mStatus)
      ensures View() == State(initial, map[])
    {
      mStatus := new Status[SLOTS](i requires 0 <= i < SLOTS => initial[i]);
      parked := map[];
      new;
      assert mStatus[..] == initial;
    }

    /** `wait` up to the point where the thread is parked. */
    method WaitEnter(id: nat, ghost thread: nat) returns (status: Status)
      requires Valid() && id < SLOTS && thread !in parked
      modifies mStatus, this`parked
      ensures Valid() && View() == Next(old(View()), Enter(thread, id))
      ensures status == old(mStatus[id]) && mStatus[..] == old(mStatus[..])[id := Waiting]
      ensures parked == old(parked)[thread := Parked(id, status)]
    {
      status := mStatus[id];
      mStatus[id] := Waiting;
      parked := parked[thread := Parked(id, status)];
    }

    /** `wait` from the point where the thread has the mutex again. */
    method WaitReturn(id: nat, status: Status, ghost thread: nat)
      requires Valid() && thread in parked && parked[thread] == Parked(id, status)
      modifies mStatus, this`parked
      ensures Valid() && View() == Next(old(View()), Return(thread))
      ensures mStatus[..] == if old(mStatus[id]) == Waiting then old(mStatus[..])[id := status] else old(mStatus[..])
      ensures parked == old(parked) - {thread}
    {
      if mStatus[id] == Waiting {
        mStatus[id] := status;
      }
      parked := parked - {thread};
    }

    /** Code outside the class assigns a status. */
    method WriteStatus(id: nat, status: Status)
      requires Valid() && id < SLOTS
      modifies mStatus
      ensures Valid() && View() == Next(old(View()), Write(id, status))
      ensures mStatus[..] == old(mStatus[..])[id := status]
    {
      mStatus[id] := status;
    }
  }
}
