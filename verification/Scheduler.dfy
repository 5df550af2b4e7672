/** The intrusive run queue and the scheduler built on it. */
module Scheduling {
  import opened Status
  import opened Threads

  /** A list threaded through `next`: q from head to tail, nobody twice, ending in None. */
  predicate Chain(next: seq<Option<nat>>, head: Option<nat>, tail: Option<nat>, q: seq<nat>) {
    && Distinct(q)
    && head == (if q == [] then None else Some(q[0]))
    && tail == (if q == [] then None else Some(q[|q| - 1]))
    && (forall i | 0 <= i < |q| :: q[i] < |next|)
    && (forall i | 0 <= i < |q| :: Linked(next, q, i))
  }

  /** The i-th member's link. */
  predicate Linked(next: seq<Option<nat>>, q: seq<nat>, i: nat)
    requires i < |q|
  {
    q[i] < |next| && next[q[i]] == if i + 1 < |q| then Some(q[i + 1]) else None
  }

  /** Appending behind the tail. */
  lemma ChainPush(next: seq<Option<nat>>, head: Option<nat>, tail: Option<nat>, q: seq<nat>, t: nat)
    requires Chain(next, head, tail, q) && t < |next| && t !in q
    ensures q == [] ==> Chain(next[t := None], Some(t), Some(t), [t])
    ensures q != [] ==> tail.Some? && tail.value < |next| &&
                        Chain(next[t := None][tail.value := Some(t)], head, Some(t), q + [t])
  {
    if q != [] {
      var n := next[t := None][tail.value := Some(t)];
      var r := q + [t];
      assert Linked(next, q, |q| - 1);
      forall i | 0 <= i < |r| ensures Linked(n, r, i) {
        if i < |q| - 1 { assert Linked(next, q, i) && q[i] != q[|q| - 1]; }
      }
    }
  }

  /** Taking the head off. */
  lemma ChainPop(next: seq<Option<nat>>, head: Option<nat>, tail: Option<nat>, q: seq<nat>)
    requires Chain(next, head, tail, q) && q != []
    ensures q[0] < |next| && Chain(next[q[0] := None], next[q[0]], if next[q[0]].None? then None else tail, q[1..])
  {
    var (n, r) := (next[q[0] := None], q[1..]);
    assert Linked(next, q, 0);
    forall i | 0 <= i < |r| ensures Linked(n, r, i) {
      assert Linked(next, q, i + 1) && q[0] != q[i + 1];
    }
  }

  /** Links of others do not matter. */
  lemma ChainElsewhere(next: seq<Option<nat>>, head: Option<nat>, tail: Option<nat>, q: seq<nat>, t: nat,
      v: Option<nat>)
    requires Chain(next, head, tail, q) && t < |next| && t !in q
    ensures Chain(next[t := v], head, tail, q)
  {
    var n := next[t := v];
    forall i | 0 <= i < |q| ensures Linked(n, q, i) {
      assert Linked(next, q, i);
    }
  }

  class Scheduler {
    const state: array<ThreadState>
    const runNext: array<Option<nat>>
    var head: Option<nat>
    var tail: Option<nat>
    var current: Option<nat>
    ghost var run: seq<nat>

    ghost predicate Valid()
      reads this, state, runNext
    {
      && state.Length == runNext.Length == MAX_THREADS
      && Chain(runNext[..], head, tail, run)
      && (current.Some? ==> current.value < MAX_THREADS)
    }

    ghost function View(): (s: Sched)
      reads this, state, runNext
      requires Valid()
      ensures s.InPool() && |s.states| == MAX_THREADS
    {
      Sched(state[..], run, current)
    }

    constructor ()
      ensures Valid() && fresh(state) && fresh(runNext)
      ensures View() == Sched(seq(MAX_THREADS, _ => Ready), [], None)
    {
      state := new ThreadState[MAX_THREADS](_ => Ready);
      runNext := new Option<nat>[MAX_THREADS](_ => None);
      head, tail, current, run := None, None, None, [];
      new;
      assert state[..] == seq(MAX_THREADS, _ => Ready);
    }

    /** PspRunQueuePush */
    method Push(t: nat)
      requires Valid() && t < MAX_THREADS && t !in run
      modifies this`head, this`tail, this`run, runNext
      ensures Valid() && run == old(run) + [t]
    {
      ChainPush(runNext[..], head, tail, run, t);
      ghost var next := runNext[..];
      runNext[t] := None;
      if tail.None? {
        head, tail := Some(t), Some(t);
        assert runNext[..] == next[t := None];
      } else {
        runNext[tail.value] := Some(t);
        assert runNext[..] == next[t := None][tail.value := Some(t)];
        tail := Some(t);
      }
      run := run + [t];
    }

    /** PspRunQueuePop */
    method Pop() returns (t: Option<nat>)
      requires Valid()
      modifies this`head, this`tail, this`run, runNext
      ensures Valid()
      ensures old(run) == [] ==> t == None && run == []
      ensures old(run) != [] ==> t == Some(old(run)[0]) && run == old(run)[1..]
    {
      t := head;
      if t.None? {
        return;
      }
      ChainPop(runNext[..], head, tail, run);
      ghost var next := runNext[..];
      head := runNext[t.value];
      if head.None? {
        tail := None;
      }
      runNext[t.value] := None;
      assert runNext[..] == next[t.value := None];
      run := run[1..];
    }

    method ReadyThread(t: nat) returns (status: KStatus)
      requires Valid() && t < MAX_THREADS && t !in run
      modifies this`head, this`tail, this`run, runNext, state
      ensures Valid()
      ensures old(state[t]) == Dead ==> status == InvalidParameter && View() == old(View())
      ensures old(state[t]) != Dead ==> status == Success && View() == Enqueue(old(View()), t)
    {
      if state[t] == Dead {
        return InvalidParameter;
      }
      ghost var was := state[..];
      state[t] := Ready;
      assert state[..] == was[t := Ready];
      Push(t);
      status := Success;
    }

    method WakeThread(t: nat)
      requires Valid() && t < MAX_THREADS && t !in run
      modifies this`head, this`tail, this`run, runNext, state
      ensures Valid() && View() == Wake(old(View()), t)
    {
      if state[t] == Blocked {
        ghost var was := state[..];
        state[t] := Ready;
        assert state[..] == was[t := Ready];
        Push(t);
      }
    }

    /** PsDispatch */
    method PickNext() returns (status: KStatus)
      requires Valid() && (current.Some? ==> current.value !in run)
      modifies this, runNext, state
      ensures Valid() && View() == Dispatch(old(View()))
      ensures status == if old(run) == [] then InitFailed else Success
    {
      var next := Pop();
      if next.None? {
        return InitFailed;
      }
      ghost var was := state[..];
      if current.Some? && state[current.value] == Running {
        state[current.value] := Ready;
        assert state[..] == was[current.value := Ready];
        Push(current.value);
      }
      ghost var kept := state[..];
      state[next.value] := Running;
      assert state[..] == kept[next.value := Running];
      current := next;
      status := Success;
    }

    method YieldThread() returns (status: KStatus)
      requires Valid() && (current.Some? ==> current.value !in run)
      modifies this, runNext, state
      ensures Valid()
      ensures old(current) == None ==> status == InvalidParameter && View() == old(View())
      ensures old(current) != None ==> View() == Dispatch(old(View()))
      ensures old(current) != None ==> status == if old(run) == [] then InitFailed else Success
    {
      if current.None? {
        return InvalidParameter;
      }
      status := PickNext();
    }

    /** PsExitCurrentThread with Dead, PsBlockCurrentThread with Blocked. */
    method LeaveProcessor(how: ThreadState) returns (status: KStatus)
      requires Valid()
      modifies this, runNext, state
      ensures Valid()
      ensures old(current) == None ==> status == InvalidParameter && View() == old(View())
      ensures old(current) != None ==> View() == Leave(old(View()), how)
      ensures old(current) != None ==> status == if old(run) == [] then InitFailed else Success
    {
      if current.None? {
        return InvalidParameter;
      }
      ghost var was := state[..];
      state[current.value] := how;
      assert state[..] == was[current.value := how];
      current := None;
      status := PickNext();
    }

    /** The end of a start routine in PspThreadEntryThunk. */
    method ThreadReturned()
      requires Valid() && current.Some? && current.value !in run
      modifies this, runNext, state
      ensures Valid() && View() == Return(old(View()))
    {
      ghost var was := state[..];
      state[current.value] := Dead;
      assert state[..] == was[current.value := Dead];
      var _ := PickNext();
    }
  }
}
