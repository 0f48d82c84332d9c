/**
 The test-and-set lock (spinlock and mutex alike) as atomic steps of any number of threads over one lock word and one
 counter that is incremented by a separate load and store. Memory is sequentially consistent.
 */
module LockModel {
  import opened Words

  type Tid = nat

  /** Where a thread is; Loaded carries the counter value it has read and not yet written back. */
  datatype Phase = Outside | Inside | Loaded(v: nat)

  datatype State = State(locked: nat, counter: nat, phases: map<Tid, Phase>)

  function At(s: State, t: Tid): Phase {
    if t in s.phases then s.phases[t] else Outside
  }

  predicate Holds(s: State, t: Tid) {
    !At(s, t).Outside?
  }

  datatype Action = TestAndSet | Load | Store | Release

  /** One atomic step of thread t. A failed exchange leaves the thread spinning. */
  function Step(s: State, t: Tid, a: Action): State {
    match a
    case TestAndSet =>
      if Holds(s, t) then s
      else State(1, s.counter, if s.locked == 0 then s.phases[t := Inside] else s.phases)
    case Load => if Holds(s, t) then s.(phases := s.phases[t := Loaded(s.counter)]) else s
    case Store =>
      if At(s, t).Loaded? then State(s.locked, U64(At(s, t).v + 1), s.phases[t := Inside]) else s
    case Release => if Holds(s, t) then ReleaseBy(s, t) else s
  }

  /** __sync_lock_release does not look at who calls it. */
  function ReleaseBy(s: State, t: Tid): State {
    State(0, s.counter, s.phases[t := Outside])
  }

  datatype Event = Event(t: Tid, a: Action)

  function Run(s: State, es: seq<Event>): State {
    if es == [] then s else Step(Run(s, es[..|es| - 1]), es[|es| - 1].t, es[|es| - 1].a)
  }

  function Initial(counter: nat): State {
    State(0, counter, map[])
  }

  /** The lock word is 0 exactly when nobody is inside, at most one thread is inside, and a loaded value is current. */
  ghost predicate Inv(s: State) {
    && s.locked <= 1 && s.counter < TWO64
    && (s.locked == 0 <==> forall t :: !Holds(s, t))
    && (forall t, u :: Holds(s, t) && Holds(s, u) ==> t == u)
    && (forall t :: At(s, t).Loaded? ==> At(s, t).v == s.counter)
  }

  /** A step moves no thread but its own. */
  lemma StepOthers(s: State, t: Tid, a: Action, u: Tid)
    requires u != t
    ensures At(Step(s, t, a), u) == At(s, u) && Holds(Step(s, t, a), u) == Holds(s, u)
  {
  }

  lemma StepInv(s: State, t: Tid, a: Action)
    requires Inv(s)
    ensures Inv(Step(s, t, a))
  {
    var r := Step(s, t, a);
    forall u | u != t
      ensures At(r, u) == At(s, u) && Holds(r, u) == Holds(s, u)
      ensures Holds(s, t) ==> !Holds(r, u) && !At(r, u).Loaded?
    {
      StepOthers(s, t, a, u);
    }
    if s.locked != 0 && r.locked != 0 {
      var w :| Holds(s, w);
      if w != t { StepOthers(s, t, a, w); }
      assert Holds(r, w);
    } else if r.locked != 0 {
      assert Holds(r, t);
    } else {
      assert !Holds(r, t);
    }
  }

  lemma {:induction false} RunInv(s: State, es: seq<Event>)
    requires Inv(s)
    ensures Inv(Run(s, es))
  {
    if es == [] {
    } else {
      RunInv(s, es[..|es| - 1]);
      StepInv(Run(s, es[..|es| - 1]), es[|es| - 1].t, es[|es| - 1].a);
    }
  }

  /** However the steps interleave, two threads are never inside together, and the lock word tells whether one is. */
  lemma MutualExclusion(counter: nat, es: seq<Event>, t: Tid, u: Tid)
    requires counter < TWO64 && t != u
    ensures var s := Run(Initial(counter), es);
            && !(Holds(s, t) && Holds(s, u))
            && (s.locked != 0 <==> exists w :: Holds(s, w))
  {
    RunInv(Initial(counter), es);
  }

  /** How many stores of the schedule write back a loaded value. */
  function Increments(s: State, es: seq<Event>): nat {
    if es == [] then 0
    else
      var before, e := Run(s, es[..|es| - 1]), es[|es| - 1];
      Increments(s, es[..|es| - 1]) + if e.a.Store? && At(before, e.t).Loaded? then 1 else 0
  }

  lemma StepCounts(s: State, t: Tid, a: Action)
    requires Inv(s)
    ensures Step(s, t, a).counter == if a.Store? && At(s, t).Loaded? then U64(s.counter + 1) else s.counter
  {
  }

  /** No update is lost: the counter has moved by exactly the number of increments, modulo 2^64. */
  lemma {:induction false} NoLostUpdate(counter: nat, es: seq<Event>)
    requires counter < TWO64
    ensures Run(Initial(counter), es).counter == U64(counter + Increments(Initial(counter), es))
  {
    if es == [] {
    } else {
      var init, e := es[..|es| - 1], es[|es| - 1];
      NoLostUpdate(counter, init);
      RunInv(Initial(counter), init);
      StepCounts(Run(Initial(counter), init), e.t, e.a);
      U64Sum(counter + Increments(Initial(counter), init), 1);
    }
  }

  /** While a thread is inside, no step of another thread moves it, the counter or the lock. */
  lemma {:induction false} LockedOut(s: State, t: Tid, es: seq<Event>)
    requires Inv(s) && Holds(s, t) && forall i :: 0 <= i < |es| ==> es[i].t != t
    ensures var r := Run(s, es);
            Inv(r) && At(r, t) == At(s, t) && r.counter == s.counter && r.locked == s.locked
  {
    RunInv(s, es);
    if es == [] {
    } else {
      var init, e := es[..|es| - 1], es[|es| - 1];
      LockedOut(s, t, init);
      StepOthers(Run(s, init), e.t, e.a, t);
    }
  }

  /** A critical section does what it is for: a thread that takes the free lock, loads, stores and releases adds one to
      the counter, whatever steps other threads make in between. */
  lemma Section(s: State, t: Tid, e1: seq<Event>, e2: seq<Event>, e3: seq<Event>)
    requires Inv(s) && s.locked == 0
    requires forall e :: e in e1 || e in e2 || e in e3 ==> e.t != t
    ensures var taken := Run(Step(s, t, TestAndSet), e1);
            var loaded := Run(Step(taken, t, Load), e2);
            var stored := Run(Step(loaded, t, Store), e3);
            var done := Step(stored, t, Release);
            && Holds(taken, t) && Holds(loaded, t) && Holds(stored, t)
            && done.counter == U64(s.counter + 1) && done.locked == 0 && forall u :: !Holds(done, u)
  {
    StepInv(s, t, TestAndSet);
    LockedOut(Step(s, t, TestAndSet), t, e1);
    var taken := Run(Step(s, t, TestAndSet), e1);
    StepInv(taken, t, Load);
    LockedOut(Step(taken, t, Load), t, e2);
    var loaded := Run(Step(taken, t, Load), e2);
    StepInv(loaded, t, Store);
    LockedOut(Step(loaded, t, Store), t, e3);
    var stored := Run(Step(loaded, t, Store), e3);
    StepInv(stored, t, Release);
  }

  /** Nobody waits in vain: from any reachable state a waiting thread gets in with its next exchange, or with the
      one after the holder's release. */
  lemma NoDeadlock(s: State, t: Tid)
    requires Inv(s) && !Holds(s, t)
    ensures s.locked == 0 ==> Holds(Step(s, t, TestAndSet), t)
    ensures s.locked != 0 ==> exists u :: Holds(s, u) && Holds(Step(Step(s, u, Release), t, TestAndSet), t)
  {
    if s.locked != 0 {
      var u :| Holds(s, u);
      assert Holds(Step(Step(s, u, Release), t, TestAndSet), t);
    }
  }

  lemma RunOne(s: State, e: Event)
    ensures Run(s, [e]) == Step(s, e.t, e.a)
  {
    assert [e][..0] == [];
    assert Run(s, []) == s;
  }

  /** Two threads are inside together. */
  ghost predicate Broken(s: State) {
    exists t, u :: t != u && Holds(s, t) && Holds(s, u)
  }

  lemma ReleaseKeepsInv(s: State, t: Tid)
    requires Inv(s) && (Holds(s, t) || s.locked == 0)
    ensures Inv(ReleaseBy(s, t))
  {
    var r := ReleaseBy(s, t);
    assert forall u :: u != t ==> At(r, u) == At(s, u) && Holds(r, u) == Holds(s, u);
    assert forall u :: !Holds(r, u);
  }

  /** A thread that releases a lock held by another lets every thread outside join the holder. */
  lemma RogueRelease(s: State, t: Tid, u: Tid, v: Tid)
    requires Inv(s) && !Holds(s, t) && Holds(s, u) && !Holds(s, v)
    ensures s.locked != 0
    ensures var r := Step(ReleaseBy(s, t), v, TestAndSet);
            Holds(r, u) && Holds(r, v) && u != v && Broken(r)
  {
    var r := Step(ReleaseBy(s, t), v, TestAndSet);
    assert Holds(ReleaseBy(s, t), u);
    assert Holds(r, u) && Holds(r, v);
  }

  /** A release does no harm, whatever happens afterwards, exactly when its caller holds the lock or nobody does. */
  lemma ReleaseSafeIff(s: State, t: Tid)
    requires Inv(s)
    ensures (forall es :: !Broken(Run(ReleaseBy(s, t), es))) <==> Holds(s, t) || s.locked == 0
  {
    if Holds(s, t) || s.locked == 0 {
      ReleaseKeepsInv(s, t);
      forall es ensures !Broken(Run(ReleaseBy(s, t), es)) {
        RunInv(ReleaseBy(s, t), es);
      }
    } else {
      var u :| Holds(s, u);
      RogueRelease(s, t, u, t);
      RunOne(ReleaseBy(s, t), Event(t, TestAndSet));
      assert Broken(Run(ReleaseBy(s, t), [Event(t, TestAndSet)]));
    }
  }

  /** Such a release is within reach: one thread takes the lock, another gives it back and takes it too. */
  lemma RogueRun(t: Tid, u: Tid)
    requires t != u
    ensures Broken(Step(ReleaseBy(Run(Initial(0), [Event(t, TestAndSet)]), u), u, TestAndSet))
  {
    var s := Run(Initial(0), [Event(t, TestAndSet)]);
    RunInv(Initial(0), [Event(t, TestAndSet)]);
    RunOne(Initial(0), Event(t, TestAndSet));
    RogueRelease(s, u, t, u);
  }
}
