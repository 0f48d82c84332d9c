/** thread.c: the round-robin index over at most 16 threads. */
module Scheduler {
  const MAX_THREADS: nat := 16

  datatype State = State(count: nat, current: nat)

  /** created: the entry was given and the stack could be allocated. */
  datatype Event = Create(created: bool) | Yield

  const INITIAL: State := State(0, 0)

  function Step(s: State, e: Event): State {
    match e
    case Create(created) => if created && s.count < MAX_THREADS then s.(count := s.count + 1) else s
    case Yield =>
      if s.count == 0 then s
      else if s.current + 1 >= s.count then s.(current := 0)
      else s.(current := s.current + 1)
  }

  function Run(s: State, es: seq<Event>): State {
    if es == [] then s else Step(Run(s, es[..|es| - 1]), es[|es| - 1])
  }

  /** The running index names a created thread as soon as there is one. */
  ghost predicate Inv(s: State) {
    s.count <= MAX_THREADS && (s.current < s.count || s.current == 0)
  }

  lemma {:induction false} RunInv(s: State, es: seq<Event>)
    requires Inv(s)
    ensures Inv(Run(s, es)) && s.count <= Run(s, es).count
  {
    if es == [] {
    } else {
      RunInv(s, es[..|es| - 1]);
    }
  }

  /** How many events of the run are creations with an entry and a stack. */
  function Creations(es: seq<Event>): nat {
    if es == [] then 0 else Creations(es[..|es| - 1]) + if es[|es| - 1] == Create(true) then 1 else 0
  }

  /** Every creation that has what it needs makes a thread, up to 16; nothing else changes their number. */
  lemma {:induction false} CountIs(es: seq<Event>)
    ensures Run(INITIAL, es).count == if Creations(es) < 16 then Creations(es) else 16
  {
    if es == [] {
    } else {
      CountIs(es[..|es| - 1]);
    }
  }

  function Yields(es: seq<Event>): (r: nat)
    ensures r <= |es|
  {
    if es == [] then 0 else Yields(es[..|es| - 1]) + if es[|es| - 1].Yield? then 1 else 0
  }

  /** Some yield of the run selects thread t. */
  ghost predicate Selects(s: State, es: seq<Event>, t: nat) {
    exists k :: 0 <= k < |es| && SelectsAt(s, es, t, k)
  }

  predicate SelectsAt(s: State, es: seq<Event>, t: nat, k: nat)
    requires k < |es|
  {
    es[k].Yield? && Run(s, es[..k + 1]).current == t
  }

  /** How many more yields thread t can be made to wait, however many threads are still to come. */
  function Distance(current: nat, t: nat): int {
    if t > current then t - current else MAX_THREADS - current + t
  }

  /** Every yield that passes t by brings it closer; creating threads does not push it away. */
  lemma {:induction false} Approach(s: State, es: seq<Event>, t: nat)
    requires Inv(s) && t < s.count && !Selects(s, es, t)
    ensures Distance(Run(s, es).current, t) + Yields(es) <= Distance(s.current, t)
  {
    if es == [] {
    } else {
      var init := es[..|es| - 1];
      forall k | 0 <= k < |init| ensures !SelectsAt(s, init, t, k) {
        assert init[..k + 1] == es[..k + 1];
        assert SelectsAt(s, es, t, k) == SelectsAt(s, init, t, k);
      }
      Approach(s, init, t);
      RunInv(s, init);
      assert es[..|es|] == es;
      assert !SelectsAt(s, es, t, |es| - 1);
    }
  }

  /** Bounded waiting: from any reachable state a created thread is selected within 16 yields, however thread
      creation is mixed in. */
  lemma BoundedWaiting(before: seq<Event>, es: seq<Event>, t: nat)
    requires t < Run(INITIAL, before).count && Yields(es) >= MAX_THREADS
    ensures Selects(Run(INITIAL, before), es, t)
  {
    var s := Run(INITIAL, before);
    RunInv(INITIAL, before);
    if !Selects(s, es, t) {
      Approach(s, es, t);
      RunInv(s, es);
    }
  }

  /** The same from the calls alone: the first 16 successful creations each get a thread that is selected within 16
      yields. */
  lemma CreatedIsSelected(before: seq<Event>, es: seq<Event>, t: nat)
    requires t < Creations(before) && t < 16 && Yields(es) >= 16
    ensures Selects(Run(INITIAL, before), es, t)
  {
    CountIs(before);
    BoundedWaiting(before, es, t);
  }

  /** n yields in a row. */
  function Yielding(n: nat): (es: seq<Event>)
    ensures |es| == n && forall i :: 0 <= i < n ==> es[i] == Yield
  {
    if n == 0 then [] else Yielding(n - 1) + [Yield]
  }

  /** With the threads fixed, the k-th yield from now selects the thread k places further round. */
  lemma {:induction false} Rotation(s: State, k: nat)
    requires Inv(s) && 0 < s.count && k <= s.count
    ensures var there := s.current + k;
            Run(s, Yielding(k)) == State(s.count, if there < s.count then there else there - s.count)
  {
    if k == 0 {
    } else {
      Rotation(s, k - 1);
      assert Yielding(k)[..k - 1] == Yielding(k - 1);
      assert Run(s, Yielding(k)) == Step(Run(s, Yielding(k - 1)), Yield);
    }
  }

  /** With n threads fixed, any n consecutive yields select each of them exactly once. */
  lemma RoundRobin(s: State, t: nat)
    requires Inv(s) && t < s.count
    ensures exists i :: InRound(s, t, i)
    ensures forall i, j :: InRound(s, t, i) && InRound(s, t, j) ==> i == j
  {
    var n := if t > s.current then t - s.current else s.count - s.current + t;
    forall i: nat | 0 < i <= s.count ensures InRound(s, t, i) <==> i == n {
      Rotation(s, i);
    }
    assert InRound(s, t, n);
  }

  /** Of the next s.count yields, the i-th selects thread t. */
  ghost predicate InRound(s: State, t: nat, i: nat) {
    0 < i <= s.count && Run(s, Yielding(i)).current == t
  }

  /** The index and the counter as the kernel keeps them. */
  class Threads {
    var threadCount: nat
    var currentThread: nat

    ghost function View(): State
      reads this
    {
      State(threadCount, currentThread)
    }

    constructor ()
      ensures View() == INITIAL
    {
      threadCount, currentThread := 0, 0;
    }

    /** Returns the slot of the new thread, or MAX_THREADS for null. */
    method Spawn(entry: bool, stack: bool) returns (slot: nat)
      modifies this
      ensures View() == Step(old(View()), Create(entry && stack))
      ensures slot == if entry && stack && old(threadCount) < MAX_THREADS then old(threadCount) else MAX_THREADS
    {
      if !entry { return MAX_THREADS; }
      if threadCount >= MAX_THREADS { return MAX_THREADS; }
      if !stack { return MAX_THREADS; }
      slot := threadCount;
      threadCount := threadCount + 1;
    }

    method YieldNow()
      modifies this
      ensures View() == Step(old(View()), Yield)
    {
      if threadCount == 0 { return; }
      currentThread := currentThread + 1;
      if currentThread >= threadCount {
        currentThread := 0;
      }
    }
  }
}
