/** Ports and the steps of the current thread upon them, on values; what holds over every run. */
module Messaging {
  import opened Status
  import opened Threads

  const DEPTH: nat := 32
  const PAYLOAD: nat := 64

  datatype Message = Message(opcode: nat, length: nat, payload: seq<nat>)

  /** A port: its queue, the threads waiting front first, the threads woken that have not retried,
      and the messages accepted and received so far. */
  datatype Port = Port(queue: seq<Message>, waiting: seq<nat>, woken: set<nat>, accepted: seq<Message>,
      received: seq<Message>)

  datatype System = System(sched: Sched, ports: seq<Port>)

  datatype Step =
    | ReadyStep(thread: nat)
    | DispatchStep
    | YieldStep
    | ExitStep
    | ReturnStep
    | SendStep(port: nat, message: Message)
    | ReceiveStep(port: nat, wait: bool)

  predicate Accepts(port: Port, m: Message) { m.length <= PAYLOAD && |port.queue| < DEPTH }

  /** A message sent: queued, and the first waiting thread woken. */
  function Sent(port: Port, m: Message): (r: Port) {
    if port.waiting == [] then port.(queue := port.queue + [m], accepted := port.accepted + [m])
    else port.(queue := port.queue + [m], accepted := port.accepted + [m],
               waiting := port.waiting[1..], woken := port.woken + {port.waiting[0]})
  }

  /** The port after thread c has tried to receive. */
  function Tried(port: Port, c: nat, wait: bool): (r: Port) {
    if port.queue != [] then
      port.(queue := port.queue[1..], received := port.received + [port.queue[0]], woken := port.woken - {c})
    else if wait then port.(waiting := port.waiting + [c], woken := port.woken - {c})
    else port.(woken := port.woken - {c})
  }

  predicate Shaped(y: System) {
    && y.sched.InPool()
    && forall p, i | 0 <= p < |y.ports| && 0 <= i < |y.ports[p].waiting| :: y.ports[p].waiting[i] < |y.sched.states|
  }

  /** Which steps the model lets a state take: they are the current thread's, and a thread that has
      been woken on a port is inside its receive loop and tries that port again. */
  predicate Enabled(y: System, e: Step)
    requires Shaped(y)
  {
    var s := y.sched;
    match e
    case ReadyStep(t) => t < |s.states| && s.states[t] == Ready && t !in s.run
    case DispatchStep => s.current.None?
    case YieldStep => s.current.Some? && s.states[s.current.value] == Running
    case ExitStep => s.current.Some? && s.states[s.current.value] == Running && !Woken(y, s.current.value)
    case ReturnStep => s.current.Some? && !Woken(y, s.current.value)
    case SendStep(p, m) => p < |y.ports| && s.current.Some? && s.states[s.current.value] == Running
                           && !Woken(y, s.current.value)
    case ReceiveStep(p, wait) => p < |y.ports| && s.current.Some? && s.states[s.current.value] == Running
                                 && forall q | 0 <= q < |y.ports| && s.current.value in y.ports[q].woken ::
                                     q == p && wait
  }

  predicate Woken(y: System, t: nat) {
    exists p :: 0 <= p < |y.ports| && t in y.ports[p].woken
  }

  function Apply(y: System, e: Step): (r: System)
    requires Shaped(y) && Enabled(y, e)
  {
    var s := y.sched;
    match e
    case ReadyStep(t) => y.(sched := Enqueue(s, t))
    case DispatchStep => y.(sched := Dispatch(s))
    case YieldStep => y.(sched := Dispatch(s))
    case ExitStep => y.(sched := Leave(s, Dead))
    case ReturnStep => y.(sched := Return(s))
    case SendStep(p, m) =>
      if !Accepts(y.ports[p], m) then y
      else
        var waiting := y.ports[p].waiting;
        System(if waiting == [] then s else Wake(s, waiting[0]), y.ports[p := Sent(y.ports[p], m)])
    case ReceiveStep(p, wait) =>
      var c := s.current.value;
      System(if y.ports[p].queue == [] && wait then Leave(s, Blocked) else s, y.ports[p := Tried(y.ports[p], c, wait)])
  }

  /** Per port: bounded, received messages first, waiting threads all different, and, while threads
      wait, no more messages queued than threads woken that have not retried. */
  predicate PortSound(port: Port) {
    && |port.queue| <= DEPTH
    && port.accepted == port.received + port.queue
    && Distinct(port.waiting)
    && (port.waiting != [] ==> |port.queue| <= |port.woken|)
  }

  /** Waiting threads are blocked, woken threads neither blocked nor dead. */
  predicate StatesAgree(port: Port, states: seq<ThreadState>) {
    && (forall i | 0 <= i < |port.waiting| :: port.waiting[i] < |states| && states[port.waiting[i]] == Blocked)
    && (forall t | t in port.woken :: t < |states| && (states[t] == Ready || states[t] == Running))
  }

  /** ... and are in the wait queue of one port only. */
  predicate OnePort(ports: seq<Port>) {
    forall p, q, t | 0 <= p < q < |ports| && t in ports[p].waiting :: t !in ports[q].waiting
  }

  predicate EveryBlockedWaits(y: System) {
    forall t | 0 <= t < |y.sched.states| && y.sched.states[t] == Blocked :: Waits(y, t)
  }

  predicate Waits(y: System, t: nat) {
    exists p :: 0 <= p < |y.ports| && t in y.ports[p].waiting
  }

  /** A woken thread is queued or current. */
  predicate WokenRuns(y: System) {
    forall p, t | 0 <= p < |y.ports| && t in y.ports[p].woken :: t in y.sched.run || y.sched.current == Some(t)
  }

  predicate Inv(y: System) {
    && Sound(y.sched)
    && (forall p | 0 <= p < |y.ports| :: PortSound(y.ports[p]))
    && (forall p | 0 <= p < |y.ports| :: StatesAgree(y.ports[p], y.sched.states))
    && OnePort(y.ports) && EveryBlockedWaits(y) && WokenRuns(y)
  }

  lemma InvShaped(y: System)
    requires Inv(y)
    ensures Shaped(y)
  {
    forall p, i | 0 <= p < |y.ports| && 0 <= i < |y.ports[p].waiting|
      ensures y.ports[p].waiting[i] < |y.sched.states|
    {
      assert StatesAgree(y.ports[p], y.sched.states);
    }
  }

  /** The next thread is picked. */
  lemma DispatchKeeps(y: System)
    requires Inv(y)
    ensures Inv(y.(sched := Dispatch(y.sched)))
  {
    var s := y.sched;
    if s.run != [] {
      DispatchSound(s);
      var r := Dispatch(s);
      var n := y.(sched := r);
      forall p | 0 <= p < |y.ports| ensures StatesAgree(y.ports[p], r.states) {
        assert StatesAgree(y.ports[p], s.states);
      }
      forall t | 0 <= t < |r.states| && r.states[t] == Blocked ensures Waits(n, t) {
        assert Waits(y, t);
        var p :| 0 <= p < |y.ports| && t in y.ports[p].waiting;
        assert t in n.ports[p].waiting;
      }
      forall p, t | 0 <= p < |n.ports| && t in n.ports[p].woken ensures t in r.run || r.current == Some(t) {
        assert StatesAgree(y.ports[p], s.states) && t in y.ports[p].woken;
        StillThere(s, t);
      }
    }
  }

  /** A thread that exits, returns or blocks has its new state after the step, and another thread runs if
      one is queued. */
  lemma Departs(y: System, e: Step)
    requires Inv(y) && Shaped(y) && Enabled(y, e)
    requires e == ExitStep || e == ReturnStep || (e.ReceiveStep? && e.wait && y.ports[e.port].queue == [])
    ensures var (s, n) := (y.sched, Apply(y, e).sched);
            Sound(n) && n.states[s.current.value] == (if e.ReceiveStep? then Blocked else Dead) &&
            (s.run != [] ==> n.current == Some(s.run[0]) && s.run[0] != s.current.value)
  {
    CurrentNotQueued(y.sched);
    match e
    case ReturnStep => ReturnSound(y.sched);
    case ExitStep => LeaveSound(y.sched, Dead);
    case ReceiveStep(_, _) => LeaveSound(y.sched, Blocked);
  }

  lemma StillThere(s: Sched, t: nat)
    requires Sound(s) && s.run != [] && (t in s.run || s.current == Some(t))
    requires t < |s.states| && s.states[t] != Dead
    ensures t in Dispatch(s).run || Dispatch(s).current == Some(t)
  {
    assert s.run == [s.run[0]] + s.run[1..];
    if t in s.run && t != s.run[0] { assert t in s.run[1..]; }
  }

  /** A thread that waits nowhere and has not been woken may change its state freely. */
  lemma StateKeeps(y: System, c: nat, how: ThreadState, current: Option<nat>)
    requires Inv(y) && y.sched.current == Some(c) && !Waits(y, c) && !Woken(y, c)
    requires how == Dead && (current == None || current == Some(c))
    ensures Inv(y.(sched := Sched(y.sched.states[c := how], y.sched.run, current)))
  {
    var s := y.sched;
    var n := y.(sched := Sched(s.states[c := how], s.run, current));
    assert c !in s.run by { CurrentNotQueued(s); }
    forall p | 0 <= p < |y.ports| ensures StatesAgree(y.ports[p], n.sched.states) {
      assert StatesAgree(y.ports[p], s.states);
      assert c !in y.ports[p].waiting && c !in y.ports[p].woken;
    }
    forall t | 0 <= t < |n.sched.states| && n.sched.states[t] == Blocked ensures Waits(n, t) {
      assert Waits(y, t);
      var p :| 0 <= p < |y.ports| && t in y.ports[p].waiting;
      assert t in n.ports[p].waiting;
    }
    forall p, t | 0 <= p < |n.ports| && t in n.ports[p].woken ensures t in n.sched.run || n.sched.current == Some(t) {
      assert t in y.ports[p].woken && t != c;
    }
  }

  lemma CurrentNotQueued(s: Sched)
    requires Sound(s) && s.current.Some?
    ensures s.current.value !in s.run
  {
  }

  /** The current thread waits nowhere. */
  lemma CurrentWaitsNowhere(y: System)
    requires Inv(y) && y.sched.current.Some?
    ensures !Waits(y, y.sched.current.value)
  {
    forall p | 0 <= p < |y.ports| ensures y.sched.current.value !in y.ports[p].waiting {
      assert StatesAgree(y.ports[p], y.sched.states);
    }
  }

  lemma ReadyKeeps(y: System, t: nat)
    requires Inv(y) && t < |y.sched.states| && y.sched.states[t] == Ready && t !in y.sched.run
    ensures Inv(y.(sched := Enqueue(y.sched, t)))
  {
    EnqueueSound(y.sched, t);
    var n := y.(sched := Enqueue(y.sched, t));
    assert n.sched.states == y.sched.states;
    forall u | 0 <= u < |n.sched.states| && n.sched.states[u] == Blocked ensures Waits(n, u) {
      assert Waits(y, u);
      var p :| 0 <= p < |y.ports| && u in y.ports[p].waiting;
      assert u in n.ports[p].waiting;
    }
  }

  /** Sending keeps a port's own invariant; the thread it wakes was blocked, so it counts as a new one. */
  lemma SentSound(port: Port, m: Message, states: seq<ThreadState>)
    requires PortSound(port) && StatesAgree(port, states) && Accepts(port, m)
    ensures PortSound(Sent(port, m))
  {
    assert port.accepted + [m] == port.received + (port.queue + [m]);
    if port.waiting != [] {
      assert port.waiting[0] !in port.woken;
    }
  }

  /** So does receiving or starting to wait. */
  lemma TriedSound(port: Port, c: nat, wait: bool)
    requires PortSound(port) && c !in port.waiting
    ensures PortSound(Tried(port, c, wait))
  {
    if port.queue != [] {
      assert port.queue == [port.queue[0]] + port.queue[1..];
      assert port.accepted == (port.received + [port.queue[0]]) + port.queue[1..];
      if c in port.woken { assert |port.woken - {c}| == |port.woken| - 1; }
    }
  }

  lemma WakeAgrees(port: Port, states: seq<ThreadState>, t: nat)
    requires StatesAgree(port, states) && t < |states| && t !in port.waiting
    requires states[t] == Blocked
    ensures StatesAgree(port, states[t := Ready])
  {
    forall i | 0 <= i < |port.waiting|
      ensures port.waiting[i] < |states| && states[t := Ready][port.waiting[i]] == Blocked
    {
      assert port.waiting[i] in port.waiting;
    }
  }

  lemma SendKeeps(y: System, p: nat, m: Message)
    requires Inv(y) && Shaped(y) && Enabled(y, SendStep(p, m))
    ensures Inv(Apply(y, SendStep(p, m)))
  {
    var port := y.ports[p];
    if Accepts(port, m) {
      SentSound(port, m, y.sched.states);
      if port.waiting == [] {
        QueuedKeeps(y, p, m);
      } else {
        WokenKeeps(y, p, m);
      }
    }
  }

  lemma QueuedKeeps(y: System, p: nat, m: Message)
    requires Inv(y) && p < |y.ports| && y.ports[p].waiting == []
    requires PortSound(Sent(y.ports[p], m))
    ensures Inv(y.(ports := y.ports[p := Sent(y.ports[p], m)]))
  {
    var n := y.(ports := y.ports[p := Sent(y.ports[p], m)]);
    forall t | 0 <= t < |n.sched.states| && n.sched.states[t] == Blocked ensures Waits(n, t) {
      assert Waits(y, t);
      var q :| 0 <= q < |y.ports| && t in y.ports[q].waiting;
      assert t in n.ports[q].waiting;
    }
  }

  /** A port's wait queue may lose threads, and gain one that waits nowhere. */
  lemma OnePortChanged(y: System, p: nat, port: Port, c: nat)
    requires OnePort(y.ports) && p < |y.ports|
    requires forall t | t in port.waiting :: t in y.ports[p].waiting || (t == c && !Waits(y, c))
    ensures OnePort(y.ports[p := port])
  {
    var ports := y.ports[p := port];
    forall q, r, t | 0 <= q < r < |ports| && t in ports[q].waiting ensures t !in ports[r].waiting {
      if q == p && t !in y.ports[p].waiting {
        assert t !in y.ports[r].waiting;
      } else if r == p && t in port.waiting {
        assert t in y.ports[q].waiting;
        assert Waits(y, t);
      }
    }
  }

  lemma StillWaits(y: System, p: nat, port: Port, s: Sched, t: nat)
    requires Waits(y, t) && p < |y.ports| && (t in y.ports[p].waiting ==> t in port.waiting)
    ensures Waits(System(s, y.ports[p := port]), t)
  {
    var q :| 0 <= q < |y.ports| && t in y.ports[q].waiting;
    assert t in y.ports[p := port][q].waiting;
  }

  /** What waking the first waiting thread does to it and to the others. */
  lemma FrontWoken(y: System, p: nat)
    requires Inv(y) && p < |y.ports| && y.ports[p].waiting != []
    ensures var t := y.ports[p].waiting[0];
            t < |y.sched.states| && y.sched.states[t] == Blocked && t !in y.ports[p].waiting[1..] &&
            Wake(y.sched, t) == Enqueue(y.sched, t) && Sound(Enqueue(y.sched, t)) &&
            forall q | 0 <= q < |y.ports| && q != p :: t !in y.ports[q].waiting
  {
    assert StatesAgree(y.ports[p], y.sched.states) && y.ports[p].waiting[0] in y.ports[p].waiting;
    EnqueueSound(y.sched, y.ports[p].waiting[0]);
  }

  lemma WokenKeeps(y: System, p: nat, m: Message)
    requires Inv(y) && p < |y.ports| && y.ports[p].waiting != [] && PortSound(Sent(y.ports[p], m))
    requires y.ports[p].waiting[0] < |y.sched.states|
    ensures Inv(System(Wake(y.sched, y.ports[p].waiting[0]), y.ports[p := Sent(y.ports[p], m)]))
  {
    hide Distinct, PortSound, OnePort, Waits, Woken;
    var (s, port, t) := (y.sched, y.ports[p], y.ports[p].waiting[0]);
    var n := System(Wake(s, t), y.ports[p := Sent(port, m)]);
    FrontWoken(y, p);
    forall q | 0 <= q < |n.ports| ensures StatesAgree(n.ports[q], n.sched.states) {
      assert StatesAgree(y.ports[q], s.states);
      WakeAgrees(if q == p then port.(waiting := port.waiting[1..]) else y.ports[q], s.states, t);
    }
    assert port.waiting == [t] + port.waiting[1..];
    forall u | 0 <= u < |n.sched.states| && n.sched.states[u] == Blocked ensures Waits(n, u) {
      StillWaits(y, p, Sent(port, m), n.sched, u);
    }
    forall q, u | 0 <= q < |n.ports| && u in n.ports[q].woken ensures u in n.sched.run || n.sched.current == Some(u) {
      assert u == t || u in y.ports[q].woken;
    }
    OnePortChanged(y, p, Sent(port, m), t);
  }

  lemma ReceiveKeeps(y: System, p: nat, wait: bool)
    requires Inv(y) && Shaped(y) && Enabled(y, ReceiveStep(p, wait))
    ensures Inv(Apply(y, ReceiveStep(p, wait)))
  {
    var c := y.sched.current.value;
    CurrentWaitsNowhere(y);
    assert c !in y.ports[p].waiting;
    TriedSound(y.ports[p], c, wait);
    if y.ports[p].queue == [] && wait {
      BlockedKeeps(y, p);
      var mid := System(Sched(y.sched.states[c := Blocked], y.sched.run, None),
          y.ports[p := Tried(y.ports[p], c, true)]);
      DispatchKeeps(mid);
    } else {
      TookKeeps(y, p, wait);
    }
  }

  lemma TookKeeps(y: System, p: nat, wait: bool)
    requires Inv(y) && p < |y.ports| && y.sched.current.Some? &&
        PortSound(Tried(y.ports[p], y.sched.current.value, wait))
    requires y.ports[p].queue != [] || !wait
    ensures Inv(y.(ports := y.ports[p := Tried(y.ports[p], y.sched.current.value, wait)]))
  {
    var n := y.(ports := y.ports[p := Tried(y.ports[p], y.sched.current.value, wait)]);
    forall q | 0 <= q < |n.ports| ensures StatesAgree(n.ports[q], n.sched.states) {
      assert StatesAgree(y.ports[q], y.sched.states);
    }
    forall t | 0 <= t < |n.sched.states| && n.sched.states[t] == Blocked ensures Waits(n, t) {
      assert Waits(y, t);
      var q :| 0 <= q < |y.ports| && t in y.ports[q].waiting;
      assert t in n.ports[q].waiting;
    }
  }

  /** The current thread has joined the wait queue and is blocked, and nobody is current. */
  lemma BlockedKeeps(y: System, p: nat)
    requires Inv(y) && Shaped(y) && Enabled(y, ReceiveStep(p, true)) && y.ports[p].queue == []
    requires PortSound(Tried(y.ports[p], y.sched.current.value, true))
    ensures var c := y.sched.current.value;
            Inv(System(Sched(y.sched.states[c := Blocked], y.sched.run, None),
                y.ports[p := Tried(y.ports[p], c, true)]))
  {
    hide Distinct, PortSound, OnePort;
    var (s, c) := (y.sched, y.sched.current.value);
    var n := System(Sched(s.states[c := Blocked], s.run, None), y.ports[p := Tried(y.ports[p], c, true)]);
    CurrentNotQueued(s);
    CurrentWaitsNowhere(y);
    forall q | 0 <= q < |n.ports| ensures StatesAgree(n.ports[q], n.sched.states) {
      assert StatesAgree(y.ports[q], s.states);
      assert c !in n.ports[q].woken;
    }
    forall t | 0 <= t < |n.sched.states| && n.sched.states[t] == Blocked ensures Waits(n, t) {
      if t == c {
        assert t in n.ports[p].waiting;
      } else {
        StillWaits(y, p, n.ports[p], n.sched, t);
      }
    }
    forall q, t | 0 <= q < |n.ports| && t in n.ports[q].woken ensures t in n.sched.run || n.sched.current == Some(t) {
      assert t in y.ports[q].woken && t != c;
    }
    OnePortChanged(y, p, n.ports[p], c);
  }

  /** Every step keeps the invariant. */
  lemma StepKeeps(y: System, e: Step)
    requires Inv(y) && Shaped(y) && Enabled(y, e)
    ensures Inv(Apply(y, e)) && Shaped(Apply(y, e))
  {
    match e {
      case ReadyStep(t) => ReadyKeeps(y, t);
      case DispatchStep => DispatchKeeps(y);
      case YieldStep => DispatchKeeps(y);
      case ExitStep =>
        var c := y.sched.current.value;
        CurrentWaitsNowhere(y);
        StateKeeps(y, c, Dead, None);
        DispatchKeeps(y.(sched := Sched(y.sched.states[c := Dead], y.sched.run, None)));
      case ReturnStep =>
        var c := y.sched.current.value;
        CurrentWaitsNowhere(y);
        StateKeeps(y, c, Dead, Some(c));
        DispatchKeeps(y.(sched := Sched(y.sched.states[c := Dead], y.sched.run, Some(c))));
      case SendStep(p, m) => SendKeeps(y, p, m);
      case ReceiveStep(p, wait) => ReceiveKeeps(y, p, wait);
    }
    InvShaped(Apply(y, e));
  }

  // What each step does, without the functions that define it.

  /** The states of all threads but a few are as before. */
  predicate StatesBut(a: Sched, b: Sched, few: set<nat>) {
    |a.states| == |b.states| && forall t: nat | t < |a.states| && t !in few :: b.states[t] == a.states[t]
  }

  /** A thread made ready is behind all the others. */
  lemma Readied(y: System, t: nat)
    requires Shaped(y) && Enabled(y, ReadyStep(t))
    ensures var (s, n) := (y.sched, Apply(y, ReadyStep(t)));
      && n.sched.run == s.run + [t] && n.sched.states[t] == Ready && n.sched.current == s.current
      && StatesBut(s, n.sched, {t}) && n.ports == y.ports
  {
  }

  /** A dispatch lets the front run and puts a thread that was running at the back. */
  lemma Switched(y: System, e: Step)
    requires Inv(y) && Shaped(y) && Enabled(y, e) && (e == YieldStep || e == DispatchStep)
    ensures var (s, n) := (y.sched, Apply(y, e));
      && n.ports == y.ports && (s.run == [] ==> n == y)
      && (s.run != [] ==>
            && n.sched.current == Some(s.run[0]) && n.sched.states[s.run[0]] == Running
            && (e == DispatchStep ==> n.sched.run == s.run[1..] && StatesBut(s, n.sched, {s.run[0]}))
            && (e == YieldStep ==>
                  && n.sched.run == s.run[1..] + [s.current.value] && n.sched.states[s.current.value] == Ready
                  && StatesBut(s, n.sched, {s.run[0], s.current.value})))
  {
    if y.sched.current.Some? { CurrentNotQueued(y.sched); }
  }

  /** A thread that leaves is in its new state, and the front runs; without one nobody is current, or still the
      thread that returned. */
  lemma Left(y: System, e: Step)
    requires Inv(y) && Shaped(y) && Enabled(y, e)
    requires e == ExitStep || e == ReturnStep || (e.ReceiveStep? && e.wait && y.ports[e.port].queue == [])
    ensures var (s, c, n) := (y.sched, y.sched.current.value, Apply(y, e));
      && n.sched.states[c] == (if e.ReceiveStep? then Blocked else Dead)
      && (s.run == [] ==> n.sched.run == [] && n.sched.current == (if e == ReturnStep then Some(c) else None) &&
                          StatesBut(s, n.sched, {c}))
      && (s.run != [] ==> n.sched.run == s.run[1..] && n.sched.current == Some(s.run[0]) &&
                          n.sched.states[s.run[0]] == Running && StatesBut(s, n.sched, {c, s.run[0]}))
      && (e.ReceiveStep? ==> n.ports == y.ports[e.port := n.ports[e.port]] &&
                             n.ports[e.port].waiting == y.ports[e.port].waiting + [c] && n.ports[e.port].queue == [])
      && (!e.ReceiveStep? ==> n.ports == y.ports)
  {
    CurrentNotQueued(y.sched);
  }

  /** A message accepted is behind all the others, and the first waiting thread is ready, behind all the others;
      one that is too long, or for which there is no room, changes nothing. */
  lemma Delivered(y: System, p: nat, m: Message)
    requires Inv(y) && Shaped(y) && Enabled(y, SendStep(p, m))
    ensures var (s, port, n) := (y.sched, y.ports[p], Apply(y, SendStep(p, m)));
      if m.length > PAYLOAD || |port.queue| >= DEPTH then n == y
      else
        && n.ports == y.ports[p := n.ports[p]]
        && n.ports[p].queue == port.queue + [m] && n.ports[p].accepted == port.accepted + [m]
        && n.ports[p].received == port.received
        && (port.waiting == [] ==> n.sched == s && n.ports[p].waiting == [] && n.ports[p].woken == port.woken)
        && (port.waiting != [] ==>
              var w := port.waiting[0];
              && n.ports[p].waiting == port.waiting[1..] && n.ports[p].woken == port.woken + {w}
              && n.sched.run == s.run + [w] && n.sched.current == s.current
              && w < |n.sched.states| && n.sched.states[w] == Ready && StatesBut(s, n.sched, {w}))
  {
    if y.ports[p].waiting != [] { FrontWoken(y, p); }
  }

  /** Receiving takes the oldest message, and without one and without waiting changes no queue. */
  lemma Fetched(y: System, p: nat, wait: bool)
    requires Shaped(y) && Enabled(y, ReceiveStep(p, wait)) && (y.ports[p].queue != [] || !wait)
    ensures var (port, n, c) := (y.ports[p], Apply(y, ReceiveStep(p, wait)), y.sched.current.value);
      && n.sched == y.sched && n.ports == y.ports[p := n.ports[p]]
      && n.ports[p].waiting == port.waiting && n.ports[p].woken == port.woken - {c}
      && n.ports[p].accepted == port.accepted
      && (port.queue == [] ==> n.ports[p].queue == [] && n.ports[p].received == port.received)
      && (port.queue != [] ==>
            n.ports[p].queue == port.queue[1..] && n.ports[p].received == port.received + [port.queue[0]])
  {
  }

  /** The steps es can be taken one after the other from y. */
  predicate Possible(y: System, es: seq<Step>)
    decreases |es|
  {
    es == [] || (Shaped(y) && Enabled(y, es[0]) && Possible(Apply(y, es[0]), es[1..]))
  }

  function After(y: System, es: seq<Step>): (r: System)
    requires Possible(y, es)
    decreases |es|
  {
    if es == [] then y else After(Apply(y, es[0]), es[1..])
  }

  /** The threads made, none of them queued, and empty ports. */
  function Initial(threads: nat, ports: nat): (r: System) {
    System(Sched(seq(threads, _ => Ready), [], None), seq(ports, _ => EmptyPort()))
  }

  function EmptyPort(): (r: Port) { Port([], [], {}, [], []) }

  lemma InitialInv(threads: nat, ports: nat)
    ensures Inv(Initial(threads, ports))
  {
    var y := Initial(threads, ports);
    var none := EmptyPort();
    assert PortSound(none) && StatesAgree(none, y.sched.states);
    assert forall p | 0 <= p < |y.ports| :: y.ports[p] == none;
    assert forall t | 0 <= t < |y.sched.states| :: y.sched.states[t] == Ready;
    hide PortSound, StatesAgree, Initial;
  }

  lemma {:induction false} RunKeeps(y: System, es: seq<Step>)
    requires Inv(y) && Possible(y, es)
    ensures Inv(After(y, es))
    decreases |es|
  {
    if es != [] {
      StepKeeps(y, es[0]);
      RunKeeps(Apply(y, es[0]), es[1..]);
    }
  }

  /** In every reachable state: the scheduler is sound; a blocked thread is in exactly one wait queue and
      only blocked threads are in any; a port holds at most 32 messages, and what has been received
      from it is, in order, the first part of what it accepted. */
  lemma Reachable(threads: nat, ports: nat, es: seq<Step>, z: System)
    requires Possible(Initial(threads, ports), es) && z == After(Initial(threads, ports), es)
    ensures Sound(z.sched)
    ensures forall t | 0 <= t < |z.sched.states| :: z.sched.states[t] == Blocked <==> Waits(z, t)
    ensures OnePort(z.ports) && forall p | 0 <= p < |z.ports| :: Distinct(z.ports[p].waiting)
    ensures forall p | 0 <= p < |z.ports| :: |z.ports[p].queue| <= DEPTH
    ensures forall p | 0 <= p < |z.ports| :: z.ports[p].received <= z.ports[p].accepted
  {
    InitialInv(threads, ports);
    RunKeeps(Initial(threads, ports), es);
    forall t | 0 <= t < |z.sched.states| && Waits(z, t) ensures z.sched.states[t] == Blocked {
      var p :| 0 <= p < |z.ports| && t in z.ports[p].waiting;
      assert StatesAgree(z.ports[p], z.sched.states);
    }
    forall p | 0 <= p < |z.ports| ensures z.ports[p].received <= z.ports[p].accepted {
      assert PortSound(z.ports[p]);
    }
  }

  /** No stranded message: in every reachable state, if threads wait on a port, its messages number at
      most the woken threads that have not retried; so a queued message has such a thread, and that
      thread is current or somewhere in the run queue. */
  lemma NoStrandedMessage(threads: nat, ports: nat, es: seq<Step>, z: System, p: nat) returns (t: nat, k: nat)
    requires Possible(Initial(threads, ports), es) && z == After(Initial(threads, ports), es) && p < |z.ports| &&
        z.ports[p].waiting != []
    ensures |z.ports[p].queue| <= |z.ports[p].woken|
    ensures z.ports[p].queue != [] ==> t in z.ports[p].woken
    ensures z.ports[p].queue != [] ==> z.sched.current == Some(t) || (k < |z.sched.run| && z.sched.run[k] == t)
  {
    InitialInv(threads, ports);
    RunKeeps(Initial(threads, ports), es);
    assert PortSound(z.ports[p]);
    t, k := 0, 0;
    if z.ports[p].queue != [] {
      assert z.ports[p].woken != {};
      t :| t in z.ports[p].woken;
      if z.sched.current != Some(t) {
        k :| 0 <= k < |z.sched.run| && z.sched.run[k] == t;
      }
    }
  }

  /** Does the step take the front of the run queue? */
  predicate Picks(y: System, e: Step)
    requires Shaped(y) && Enabled(y, e)
  {
    y.sched.run != [] &&
    match e
    case ReadyStep(_) => false
    case SendStep(_, _) => false
    case ReceiveStep(p, wait) => wait && y.ports[p].queue == []
    case _ => true
  }

  /** How many successful dispatches the steps contain. */
  function Dispatches(y: System, es: seq<Step>): (r: nat)
    requires Possible(y, es)
    decreases |es|
  {
    if es == [] then 0 else (if Picks(y, es[0]) then 1 else 0) + Dispatches(Apply(y, es[0]), es[1..])
  }

  /** A step takes at most the front of the run queue away and adds only behind the rest. */
  lemma QueueMoves(y: System, e: Step)
    requires Shaped(y) && Enabled(y, e)
    ensures y.sched.run[if Picks(y, e) then 1 else 0..] <= Apply(y, e).sched.run
    ensures Picks(y, e) ==> Apply(y, e).sched.current == Some(y.sched.run[0])
  {
  }

  lemma {:induction false} MovesUp(y: System, es: seq<Step>, z: System, k: nat)
    requires Possible(y, es) && z == After(y, es) && k < |y.sched.run| && Dispatches(y, es) <= k
    ensures k - Dispatches(y, es) < |z.sched.run| && z.sched.run[k - Dispatches(y, es)] == y.sched.run[k]
    decreases |es|
  {
    if es != [] {
      var n := Apply(y, es[0]);
      var d := if Picks(y, es[0]) then 1 else 0;
      QueueMoves(y, es[0]);
      assert y.sched.run[d..][k - d] == n.sched.run[k - d];
      MovesUp(n, es[1..], z, k - d);
    }
  }

  /** Round robin: whatever steps are taken meanwhile, the thread at position k of the run queue becomes
      current at exactly the (k+1)-st successful dispatch from here. */
  lemma RoundRobin(y: System, es: seq<Step>, z: System, k: nat, e: Step)
    requires Possible(y, es) && z == After(y, es) && k < |y.sched.run| && Dispatches(y, es) == k
    requires Shaped(z) && Enabled(z, e) && Picks(z, e)
    ensures Apply(z, e).sched.current == Some(y.sched.run[k])
  {
    MovesUp(y, es, z, k);
    QueueMoves(z, e);
  }

  /** A thread made ready becomes current at exactly the (n+1)-st successful dispatch, when n were queued. */
  lemma ReadyRuns(y: System, t: nat, es: seq<Step>, z: System, e: Step)
    requires Shaped(y) && Enabled(y, ReadyStep(t))
    requires Possible(Apply(y, ReadyStep(t)), es) && z == After(Apply(y, ReadyStep(t)), es)
    requires Dispatches(Apply(y, ReadyStep(t)), es) == |y.sched.run| && Shaped(z) && Enabled(z, e) && Picks(z, e)
    ensures Apply(z, e).sched.current == Some(t)
  {
    Readied(y, t);
    RoundRobin(Apply(y, ReadyStep(t)), es, z, |y.sched.run|, e);
  }

  /** The thread is queued, current, in a wait queue, or dead. */
  predicate Kept(y: System, t: nat) {
    t < |y.sched.states| &&
    (t in y.sched.run || y.sched.current == Some(t) || Waits(y, t) || y.sched.states[t] == Dead)
  }

  lemma QueueKept(run: seq<nat>, t: nat)
    requires run != [] && t in run
    ensures t == run[0] || t in run[1..]
  {
  }

  lemma StepKeepsThread(y: System, e: Step, t: nat)
    requires Inv(y) && Shaped(y) && Enabled(y, e) && Kept(y, t)
    ensures Kept(Apply(y, e), t)
  {
    hide Apply, Inv, Shaped;
    var (s, n) := (y.sched, Apply(y, e));
    ghost var q := 0;
    if Waits(y, t) { q :| 0 <= q < |y.ports| && t in y.ports[q].waiting; }
    if s.run != [] && t in s.run { QueueKept(s.run, t); }
    match e {
      case ReadyStep(u) => Readied(y, u);
      case DispatchStep => Switched(y, e);
      case YieldStep => Switched(y, e);
      case ExitStep => Left(y, e);
      case ReturnStep => Left(y, e);
      case SendStep(p, m) =>
        Delivered(y, p, m);
        if Waits(y, t) {
          if q == p { QueueKept(y.ports[p].waiting, t); }
          assert t in n.ports[q].waiting || t in n.sched.run;
        }
      case ReceiveStep(p, wait) =>
        if wait && y.ports[p].queue == [] { Left(y, e); } else { Fetched(y, p, wait); }
        if Waits(y, t) { assert t in n.ports[q].waiting; }
    }
    if e.ReceiveStep? && y.sched.current == Some(t) && e.wait && y.ports[e.port].queue == [] {
      assert t in n.ports[e.port].waiting;
    }
  }

  lemma {:induction false} RunKeepsThread(y: System, es: seq<Step>, t: nat)
    requires Inv(y) && Possible(y, es) && Kept(y, t)
    ensures Kept(After(y, es), t)
    decreases |es|
  {
    if es != [] {
      StepKeeps(y, es[0]);
      StepKeepsThread(y, es[0], t);
      RunKeepsThread(Apply(y, es[0]), es[1..], t);
    }
  }

  /** No thread is lost: whatever was made ready in the course of a run is queued, current, waiting on a port, or
      dead at its end. */
  lemma {:induction false} NoThreadLost(y: System, es: seq<Step>, z: System, i: nat)
    requires Inv(y) && Possible(y, es) && z == After(y, es) && i < |es| && es[i].ReadyStep?
    ensures Kept(z, es[i].thread)
    decreases |es|
  {
    StepKeeps(y, es[0]);
    if i == 0 {
      Readied(y, es[0].thread);
      RunKeepsThread(Apply(y, es[0]), es[1..], es[0].thread);
    } else {
      NoThreadLost(Apply(y, es[0]), es[1..], z, i - 1);
    }
  }

  /** A run: thread 0 waits for a message, thread 1 sends one, and thread 0 has it when it runs again. */
  function Handshake(m: Message): (es: seq<Step>) {
    [ReadyStep(0), DispatchStep, ReadyStep(1), ReceiveStep(0, true), SendStep(0, m), YieldStep, ReceiveStep(0, true)]
  }

  /** The states of the run. */
  function HandshakeState(i: nat, m: Message): (y: System) {
    match i
    case 0 => System(Sched([Ready, Ready], [], None), [EmptyPort()])
    case 1 => System(Sched([Ready, Ready], [0], None), [EmptyPort()])
    case 2 => System(Sched([Running, Ready], [], Some(0)), [EmptyPort()])
    case 3 => System(Sched([Running, Ready], [1], Some(0)), [EmptyPort()])
    case 4 => System(Sched([Blocked, Running], [], Some(1)), [Port([], [0], {}, [], [])])
    case 5 => System(Sched([Ready, Running], [0], Some(1)), [Port([m], [], {0}, [m], [])])
    case 6 => System(Sched([Running, Ready], [1], Some(0)), [Port([m], [], {0}, [m], [])])
    case _ => System(Sched([Running, Ready], [1], Some(0)), [Port([], [], {}, [m], [m])])
  }

  lemma HandshakeTried(m: Message)
    ensures Tried(EmptyPort(), 0, true) == Port([], [0], {}, [], [])
    ensures Tried(Port([m], [], {0}, [m], []), 0, true) == Port([], [], {}, [m], [m])
    ensures m.length <= PAYLOAD ==>
              Accepts(Port([], [0], {}, [], []), m) &&
              Sent(Port([], [0], {}, [], []), m) == Port([m], [], {0}, [m], [])
  {
  }

  lemma HandshakeStep(i: nat, m: Message)
    requires m.length <= PAYLOAD && i < 7
    ensures var (y, e) := (HandshakeState(i, m), Handshake(m)[i]);
            Shaped(y) && Enabled(y, e) && Apply(y, e) == HandshakeState(i + 1, m)
  {
    hide Tried, Sent, Accepts;
    HandshakeTried(m);
    var (y, e) := (HandshakeState(i, m), Handshake(m)[i]);
    assert Shaped(y) && Enabled(y, e);
    assert Apply(y, e).sched == HandshakeState(i + 1, m).sched;
    assert Apply(y, e).ports == HandshakeState(i + 1, m).ports;
  }

  lemma {:induction false} HandshakeFrom(i: nat, m: Message)
    requires m.length <= PAYLOAD && i <= 7
    ensures Possible(HandshakeState(i, m), Handshake(m)[i..])
    ensures After(HandshakeState(i, m), Handshake(m)[i..]) == HandshakeState(7, m)
    decreases 7 - i
  {
    hide HandshakeState, Apply, Enabled, Shaped;
    if i < 7 {
      HandshakeStep(i, m);
      HandshakeFrom(i + 1, m);
      assert Handshake(m)[i..] == [Handshake(m)[i]] + Handshake(m)[i + 1..];
      OneStep(HandshakeState(i, m), Handshake(m)[i], Handshake(m)[i + 1..], HandshakeState(i + 1, m),
          HandshakeState(7, m));
    }
  }

  lemma HandshakeRuns(m: Message)
    requires m.length <= PAYLOAD
    ensures Possible(Initial(2, 1), Handshake(m))
    ensures After(Initial(2, 1), Handshake(m)) ==
            System(Sched([Running, Ready], [1], Some(0)), [Port([], [], {}, [m], [m])])
  {
    HandshakeFrom(0, m);
    assert Handshake(m)[0..] == Handshake(m) && Initial(2, 1) == HandshakeState(0, m);
  }

  /** A step before others. */
  lemma OneStep(y: System, e: Step, rest: seq<Step>, n: System, z: System)
    requires Shaped(y) && Enabled(y, e) && Apply(y, e) == n && Possible(n, rest) && After(n, rest) == z
    ensures Possible(y, [e] + rest) && After(y, [e] + rest) == z
  {
    assert ([e] + rest)[1..] == rest;
  }
}
