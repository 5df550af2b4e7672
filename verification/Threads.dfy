/** Threads, ports and the steps the current thread takes, on values. */
module Threads {
  import opened Status

  datatype ThreadState = Ready | Running | Blocked | Dead

  const MAX_THREADS: nat := 128

  /** The states of all threads, the run queue front first, and the current thread. */
  datatype Sched = Sched(states: seq<ThreadState>, run: seq<nat>, current: Option<nat>) {
    predicate InPool() {
      && (forall i | 0 <= i < |run| :: run[i] < |states|)
      && (current.Some? ==> current.value < |states|)
    }
  }

  /** PsReadyThread, PsWakeThread: to the back of the queue. */
  function Enqueue(s: Sched, t: nat): (r: Sched)
    requires s.InPool() && t < |s.states|
    ensures r.InPool()
  {
    Sched(s.states[t := Ready], s.run + [t], s.current)
  }

  function Wake(s: Sched, t: nat): (r: Sched)
    requires s.InPool() && t < |s.states|
    ensures r.InPool()
  {
    if s.states[t] == Blocked then Enqueue(s, t) else s
  }

  /** PsDispatch: the front of the queue runs, a thread still running goes to the back. */
  function Dispatch(s: Sched): (r: Sched)
    requires s.InPool()
    ensures r.InPool()
  {
    if s.run == [] then s
    else
      var rest := Sched(s.states, s.run[1..], s.current);
      var kept := if s.current.Some? && s.states[s.current.value] == Running then Enqueue(rest, s.current.value)
          else rest;
      Sched(kept.states[s.run[0] := Running], kept.run, Some(s.run[0]))
  }

  /** PsBlockCurrentThread and PsExitCurrentThread: no thread is current when the next is picked. */
  function Leave(s: Sched, how: ThreadState): (r: Sched)
    requires s.InPool() && s.current.Some?
    ensures r.InPool()
  {
    Dispatch(Sched(s.states[s.current.value := how], s.run, None))
  }

  /** A start routine returning: the thread is dead but still current when the next is picked. */
  function Return(s: Sched): (r: Sched)
    requires s.InPool() && s.current.Some?
    ensures r.InPool()
  {
    Dispatch(s.(states := s.states[s.current.value := Dead]))
  }

  predicate Distinct(q: seq<nat>) {
    forall i, j | 0 <= i < j < |q| :: q[i] != q[j]
  }

  /** The scheduler's invariant: the queue has no thread twice and only ready ones, the current
      thread is not queued, and no other thread is running. */
  predicate Sound(s: Sched) {
    && s.InPool() && Distinct(s.run)
    && (forall i | 0 <= i < |s.run| :: s.states[s.run[i]] == Ready)
    && (forall t | 0 <= t < |s.states| :: s.states[t] == Running ==> s.current == Some(t))
    && (s.current.Some? ==> s.states[s.current.value] == Running || s.states[s.current.value] == Dead)
  }

  lemma EnqueueSound(s: Sched, t: nat)
    requires Sound(s) && t < |s.states| && t !in s.run && s.current != Some(t)
    ensures Sound(Enqueue(s, t))
  {
    var r := Enqueue(s, t);
    forall i | 0 <= i < |r.run| ensures r.states[r.run[i]] == Ready {
      if i < |s.run| { assert r.run[i] == s.run[i]; }
    }
  }

  lemma DispatchSound(s: Sched)
    requires Sound(s)
    ensures Sound(Dispatch(s))
  {
    if s.run != [] {
      var rest := Sched(s.states, s.run[1..], s.current);
      assert Distinct(rest.run);
      assert forall i | 0 <= i < |rest.run| :: rest.run[i] == s.run[i + 1];
    }
  }

  /** Leaving keeps the invariant, the thread in its new state and, if there is no other, nobody current. */
  lemma LeaveSound(s: Sched, how: ThreadState)
    requires Sound(s) && s.current.Some? && s.states[s.current.value] == Running && (how == Blocked || how == Dead)
    ensures Sound(Leave(s, how)) && Leave(s, how).states[s.current.value] == how
  {
    var c := s.current.value;
    assert forall i | 0 <= i < |s.run| :: s.run[i] != c;
    DispatchSound(Sched(s.states[c := how], s.run, None));
  }

  lemma ReturnSound(s: Sched)
    requires Sound(s) && s.current.Some?
    ensures Sound(Return(s))
  {
    assert forall i | 0 <= i < |s.run| :: s.run[i] != s.current.value;
    DispatchSound(s.(states := s.states[s.current.value := Dead]));
  }
}
