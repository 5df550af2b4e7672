/** The message ring of a port, and the port manager's send and receive. */
module Ports {
  import opened Status
  import opened Threads
  import opened Messaging
  import opened Scheduling

  /** The n messages of the ring from head on. */
  function RingContents(ring: seq<Message>, head: nat, n: nat): (q: seq<Message>)
    requires |ring| == DEPTH && head < DEPTH && n <= DEPTH
    ensures |q| == n
  {
    seq(n, i requires 0 <= i < n => ring[(head + i) % DEPTH])
  }

  lemma RingAppend(ring: seq<Message>, head: nat, n: nat, m: Message)
    requires |ring| == DEPTH && head < DEPTH && n < DEPTH
    ensures RingContents(ring[(head + n) % DEPTH := m], head, n + 1) == RingContents(ring, head, n) + [m]
  {
  }

  lemma RingDrop(ring: seq<Message>, head: nat, n: nat)
    requires |ring| == DEPTH && head < DEPTH && 0 < n <= DEPTH
    ensures RingContents(ring, (head + 1) % DEPTH, n - 1) == RingContents(ring, head, n)[1..]
    ensures RingContents(ring, head, n)[0] == ring[head]
  {
  }

  class NkPort {
    const queue: array<Message>
    var head: nat
    var tail: nat
    var count: nat

    ghost predicate Valid()
      reads this, queue
    {
      queue.Length == DEPTH && head < DEPTH && count <= DEPTH && tail == (head + count) % DEPTH
    }

    /** The messages in the port, oldest first. */
    ghost function Contents(): (q: seq<Message>)
      reads this, queue
      requires Valid()
    {
      RingContents(queue[..], head, count)
    }

    constructor ()
      ensures Valid() && Contents() == [] && fresh(queue)
    {
      queue := new Message[DEPTH](_ => Message(0, 0, []));
      head, tail, count := 0, 0, 0;
    }

    method Send(m: Message) returns (status: KStatus)
      requires Valid()
      modifies this, queue
      ensures Valid()
      ensures m.length > PAYLOAD ==> status == InvalidParameter
      ensures m.length <= PAYLOAD ==> status == if |old(Contents())| < DEPTH then Success else InitFailed
      ensures Contents() == if status == Success then old(Contents()) + [m] else old(Contents())
    {
      if m.length > PAYLOAD {
        return InvalidParameter;
      }
      if count >= DEPTH {
        return InitFailed;
      }
      ghost var ring := queue[..];
      RingAppend(ring, head, count, m);
      queue[tail] := m;
      assert queue[..] == ring[(head + count) % DEPTH := m];
      tail := (tail + 1) % DEPTH;
      count := count + 1;
      status := Success;
    }

    method Receive() returns (status: KStatus, m: Option<Message>)
      requires Valid()
      modifies this
      ensures Valid()
      ensures old(Contents()) == [] ==> status == InitFailed && m == None && Contents() == []
      ensures old(Contents()) != [] ==>
                status == Success && m == Some(old(Contents())[0]) && Contents() == old(Contents())[1..]
    {
      if count == 0 {
        return InitFailed, None;
      }
      RingDrop(queue[..], head, count);
      m := Some(queue[head]);
      head := (head + 1) % DEPTH;
      count := count - 1;
      status := Success;
    }
  }

  /** Appending to one port's list leaves the others alone. */
  lemma OthersAfterPush(next: seq<Option<nat>>, head: Option<nat>, tail: Option<nat>, q: seq<nat>, t: nat, p: seq<nat>)
    requires Chain(next, head, tail, q) && t < |next| && t !in q
    requires forall u | u in p :: u < |next| && u !in q
    ensures Chain(next[t := None], head, tail, q)
    ensures p != [] ==> p[|p| - 1] < |next| && Chain(next[t := None][p[|p| - 1] := Some(t)], head, tail, q)
  {
    ChainElsewhere(next, head, tail, q, t, None);
    if p != [] {
      assert p[|p| - 1] in p;
      ChainElsewhere(next[t := None], head, tail, q, p[|p| - 1], Some(t));
    }
  }

  /** A list per port, all threaded through one link per thread, no thread in two of them. */
  predicate Lists(next: seq<Option<nat>>, heads: seq<Option<nat>>, tails: seq<Option<nat>>, queues: seq<seq<nat>>) {
    && |heads| == |tails| == |queues|
    && (forall p | 0 <= p < |queues| :: Chain(next, heads[p], tails[p], queues[p]))
    && (forall p, q, t | 0 <= p < q < |queues| && t in queues[p] :: t !in queues[q])
  }

  lemma ListsPush(next: seq<Option<nat>>, heads: seq<Option<nat>>, tails: seq<Option<nat>>, queues: seq<seq<nat>>,
                  p: nat, t: nat)
    requires Lists(next, heads, tails, queues) && p < |queues| && t < |next|
    requires forall q | 0 <= q < |queues| :: t !in queues[q]
    ensures tails[p] == None ==>
              Lists(next[t := None], heads[p := Some(t)], tails[p := Some(t)], queues[p := queues[p] + [t]])
    ensures tails[p] != None ==> tails[p].value < |next|
    ensures tails[p] != None ==>
              Lists(next[t := None][tails[p].value := Some(t)], heads, tails[p := Some(t)],
                  queues[p := queues[p] + [t]])
  {
    hide Chain, Linked, Distinct;
    ChainEnds(next, heads[p], tails[p], queues[p]);
    ChainPush(next, heads[p], tails[p], queues[p], t);
    if queues[p] == [] { assert queues[p] + [t] == [t]; }
    forall q | 0 <= q < |queues| && q != p
      ensures Chain(next[t := None], heads[q], tails[q], queues[q])
      ensures queues[p] != [] ==> Chain(next[t := None][tails[p].value := Some(t)], heads[q], tails[q], queues[q])
    {
      assert forall u | u in queues[p] :: u !in queues[q];
      OthersAfterPush(next, heads[q], tails[q], queues[q], t, queues[p]);
    }
  }

  lemma ChainEnds(next: seq<Option<nat>>, head: Option<nat>, tail: Option<nat>, q: seq<nat>)
    requires Chain(next, head, tail, q)
    ensures forall u | u in q :: u < |next|
    ensures q == [] ==> head == None && tail == None
    ensures q != [] ==> head == Some(q[0]) && tail == Some(q[|q| - 1])
  {
  }

  lemma ListsPop(next: seq<Option<nat>>, heads: seq<Option<nat>>, tails: seq<Option<nat>>, queues: seq<seq<nat>>,
      p: nat)
    requires Lists(next, heads, tails, queues) && p < |queues| && queues[p] != []
    ensures var t := queues[p][0];
            t < |next| && heads[p] == Some(t) &&
            Lists(next[t := None], heads[p := next[t]], if next[t].None? then tails[p := None] else tails,
                  queues[p := queues[p][1..]])
  {
    hide Chain, Linked, Distinct;
    ChainEnds(next, heads[p], tails[p], queues[p]);
    ChainPop(next, heads[p], tails[p], queues[p]);
    var t := queues[p][0];
    assert t in queues[p];
    forall q | 0 <= q < |queues| && q != p ensures Chain(next[t := None], heads[q], tails[q], queues[q]) {
      ChainElsewhere(next, heads[q], tails[q], queues[q], t, None);
    }
  }

  /** The wait queues of all ports. */
  class WaitQueues {
    const next: array<Option<nat>>
    const heads: array<Option<nat>>
    const tails: array<Option<nat>>
    ghost var queues: seq<seq<nat>>

    ghost predicate Valid()
      reads this, next, heads, tails
    {
      && next != heads && next != tails && heads != tails && next.Length == MAX_THREADS
      && Lists(next[..], heads[..], tails[..], queues)
    }

    constructor (n: nat)
      ensures Valid() && queues == seq(n, _ => []) && fresh(next) && fresh(heads) && fresh(tails)
    {
      next := new Option<nat>[MAX_THREADS](_ => None);
      heads := new Option<nat>[n](_ => None);
      tails := new Option<nat>[n](_ => None);
      queues := seq(n, _ => []);
    }

    /** LpcpEnqueueWaiter */
    method Enqueue(p: nat, t: nat)
      requires Valid() && p < |queues| && t < MAX_THREADS && forall q | 0 <= q < |queues| :: t !in queues[q]
      modifies this, next, heads, tails
      ensures Valid() && queues == old(queues)[p := old(queues)[p] + [t]]
    {
      ghost var (links, fronts, backs) := (next[..], heads[..], tails[..]);
      ListsPush(links, fronts, backs, queues, p, t);
      hide Lists;
      next[t] := None;
      if tails[p].None? {
        heads[p], tails[p] := Some(t), Some(t);
        assert next[..] == links[t := None] && heads[..] == fronts[p := Some(t)];
      } else {
        next[tails[p].value] := Some(t);
        assert next[..] == links[t := None][backs[p].value := Some(t)] && heads[..] == fronts;
        tails[p] := Some(t);
      }
      assert tails[..] == backs[p := Some(t)];
      queues := queues[p := queues[p] + [t]];
    }

    /** LpcpDequeueWaiter */
    method Dequeue(p: nat) returns (t: Option<nat>)
      requires Valid() && p < |queues|
      modifies this, next, heads, tails
      ensures Valid()
      ensures t == if old(queues)[p] == [] then None else Some(old(queues)[p][0])
      ensures queues == if old(queues)[p] == [] then old(queues) else old(queues)[p := old(queues)[p][1..]]
    {
      t := heads[p];
      ChainEnds(next[..], heads[p], tails[p], queues[p]);
      if t.None? {
        return;
      }
      ghost var (links, fronts, backs) := (next[..], heads[..], tails[..]);
      ListsPop(links, fronts, backs, queues, p);
      heads[p] := next[t.value];
      if heads[p].None? {
        tails[p] := None;
      }
      next[t.value] := None;
      assert next[..] == links[t.value := None] && heads[..] == fronts[p := links[t.value]];
      assert tails[..] == if links[t.value].None? then backs[p := None] else backs;
      queues := queues[p := queues[p][1..]];
    }
  }

  lemma CurrentIsApart(y: System)
    requires Inv(y)
    ensures y.sched.current.Some? ==> y.sched.current.value < |y.sched.states| && y.sched.current.value !in y.sched.run
  {
    if y.sched.current.Some? { CurrentNotQueued(y.sched); }
  }

  /** A send taken apart. */
  lemma SendParts(y: System, p: nat, m: Message)
    requires Inv(y) && Shaped(y) && Enabled(y, SendStep(p, m))
    ensures var (port, n) := (y.ports[p], Apply(y, SendStep(p, m)));
            && |port.queue| <= DEPTH
            && (!Accepts(port, m) ==> n == y)
            && (Accepts(port, m) ==> |n.ports| == |y.ports| && n.ports == y.ports[p := n.ports[p]])
            && (Accepts(port, m) ==> n.ports[p].queue == port.queue + [m])
            && (Accepts(port, m) ==> n.ports[p].waiting == if port.waiting == [] then [] else port.waiting[1..])
            && (Accepts(port, m) && port.waiting == [] ==> n.sched == y.sched)
            && (Accepts(port, m) && port.waiting != [] ==>
                  port.waiting[0] < |y.sched.states| && port.waiting[0] !in y.sched.run &&
                  n.sched == Wake(y.sched, port.waiting[0]) && n.sched.run == y.sched.run + [port.waiting[0]])
  {
    assert PortSound(y.ports[p]);
    if y.ports[p].waiting != [] { FrontWoken(y, p); }
  }

  /** A round of receiving taken apart. */
  lemma ReceiveParts(y: System, p: nat, wait: bool)
    requires Inv(y) && Shaped(y) && Enabled(y, ReceiveStep(p, wait))
    ensures var (port, n, c) := (y.ports[p], Apply(y, ReceiveStep(p, wait)), y.sched.current.value);
            && |n.ports| == |y.ports| && n.ports == y.ports[p := n.ports[p]]
            && n.ports[p].queue == (if port.queue != [] then port.queue[1..] else [])
            && n.ports[p].waiting == (if port.queue == [] && wait then port.waiting + [c] else port.waiting)
            && n.sched == (if port.queue == [] && wait then Leave(y.sched, Blocked) else y.sched)
            && forall q | 0 <= q < |y.ports| :: c !in y.ports[q].waiting
  {
    CurrentWaitsNowhere(y);
  }

  /** Scheduler, wait queues and ports together; the ghost state is the model of all of them. */
  class PortManager {
    const sched: Scheduler
    const waits: WaitQueues
    const ports: seq<NkPort>
    ghost var model: System

    ghost predicate Apart()
      reads this
    {
      && waits.next != sched.runNext && waits.heads != sched.runNext && waits.tails != sched.runNext
      && (forall p, q | 0 <= p < q < |ports| :: ports[p] != ports[q] && ports[p].queue != ports[q].queue)
    }

    ghost predicate Valid()
      reads this, sched, sched.state, sched.runNext, waits, waits.next, waits.heads, waits.tails
      reads set p | p in ports, set p | p in ports :: p.queue
    {
      && Apart() && sched.Valid() && waits.Valid() && Inv(model) && Shaped(model)
      && model.sched == sched.View()
      && |waits.queues| == |ports| == |model.ports|
      && (forall p | 0 <= p < |ports| :: waits.queues[p] == model.ports[p].waiting)
      && (forall p | 0 <= p < |ports| :: ports[p].Valid() && ports[p].Contents() == model.ports[p].queue)
    }

    constructor (n: nat)
      ensures Valid() && model == Initial(MAX_THREADS, n)
    {
      hide NkPort.Contents, NkPort.Valid, WaitQueues.Valid, Chain;
      var scheduler := new Scheduler();
      var queues := new WaitQueues(n);
      var made: seq<NkPort> := [];
      while |made| < n
        invariant |made| <= n
        invariant forall p | 0 <= p < |made| :: fresh(made[p]) && fresh(made[p].queue)
        invariant forall p | 0 <= p < |made| :: made[p].Valid() && made[p].Contents() == []
        invariant forall p, q | 0 <= p < q < |made| :: made[p] != made[q] && made[p].queue != made[q].queue
        invariant fresh(scheduler) && fresh(scheduler.runNext) && scheduler.Valid() && fresh(queues)
        invariant scheduler.View() == Sched(seq(MAX_THREADS, _ => Ready), [], None)
        invariant queues.Valid() && queues.queues == seq(n, _ => []) && queues.next != scheduler.runNext
        invariant queues.heads != scheduler.runNext && queues.tails != scheduler.runNext
      {
        var port := new NkPort();
        made := made + [port];
      }
      sched, waits, ports := scheduler, queues, made;
      model := Initial(MAX_THREADS, n);
      InitialInv(MAX_THREADS, n);
      InvShaped(Initial(MAX_THREADS, n));
    }

    /** The first waiting thread, if any, leaves the wait queue for the run queue. */
    method WakeFirst(p: nat)
      requires Apart() && sched.Valid() && waits.Valid() && p < |waits.queues|
      requires waits.queues[p] != [] ==> waits.queues[p][0] < MAX_THREADS && waits.queues[p][0] !in sched.run
      modifies sched, sched.state, sched.runNext, waits, waits.next, waits.heads, waits.tails
      ensures sched.Valid() && waits.Valid() && |waits.queues| == |old(waits.queues)|
      ensures old(waits.queues)[p] == [] ==> waits.queues == old(waits.queues) && sched.View() == old(sched.View())
      ensures old(waits.queues)[p] != [] ==> waits.queues == old(waits.queues)[p := old(waits.queues)[p][1..]]
      ensures old(waits.queues)[p] != [] ==> sched.View() == Wake(old(sched.View()), old(waits.queues)[p][0])
    {
      hide Chain, Wake;
      var waiter := waits.Dequeue(p);
      if waiter.Some? {
        sched.WakeThread(waiter.value);
      }
    }

    /** The current thread joins the wait queue and blocks. */
    method WaitOn(p: nat) returns (status: KStatus)
      requires Apart() && sched.Valid() && waits.Valid() && p < |waits.queues| && sched.current.Some?
      requires forall q | 0 <= q < |waits.queues| :: sched.current.value !in waits.queues[q]
      modifies sched, sched.state, sched.runNext, waits, waits.next, waits.heads, waits.tails
      ensures sched.Valid() && waits.Valid() && |waits.queues| == |old(waits.queues)|
      ensures waits.queues == old(waits.queues)[p := old(waits.queues)[p] + [old(sched.current).value]]
      ensures sched.View() == Leave(old(sched.View()), Blocked)
    {
      hide Chain, Leave;
      waits.Enqueue(p, sched.current.value);
      status := sched.LeaveProcessor(Blocked);
    }

    /** LpcSendByHandle on an open port, as the current thread. */
    method Send(p: nat, m: Message) returns (status: KStatus)
      requires Valid() && Enabled(model, SendStep(p, m))
      modifies this, sched, sched.state, sched.runNext, waits, waits.next, waits.heads, waits.tails
      modifies ports[p], ports[p].queue
      ensures Valid() && model == Apply(old(model), SendStep(p, m))
      ensures status == if m.length <= PAYLOAD && |old(ports[p].Contents())| < DEPTH then Success else WouldBlock
      ensures status != Success ==> model == old(model)
      ensures status == Success ==> ports[p].Contents() == old(ports[p].Contents()) + [m]
      ensures status == Success && old(waits.queues)[p] != [] ==>
                waits.queues == old(waits.queues)[p := old(waits.queues)[p][1..]] &&
                sched.run == old(sched.run) + [old(waits.queues)[p][0]]
    {
      hide Inv, Shaped, Apply, Chain, Wake, NkPort.Contents, NkPort.Valid, WaitQueues.Valid, Scheduler.Valid;
      ghost var after := Apply(model, SendStep(p, m));
      StepKeeps(model, SendStep(p, m));
      SendParts(model, p, m);
      status := ports[p].Send(m);
      if status == Success {
        WakeFirst(p);
      } else {
        status := WouldBlock;
      }
      model := after;
    }

    /** One round of LpcReceiveByHandle on an open port, as the current thread: a message, nothing, or
        the thread joins the wait queue and blocks; when it runs again it takes another round. */
    method Receive(p: nat, wait: bool) returns (status: KStatus, m: Option<Message>)
      requires Valid() && Enabled(model, ReceiveStep(p, wait))
      modifies this, sched, sched.state, sched.runNext, waits, waits.next, waits.heads, waits.tails
      modifies ports[p], ports[p].queue
      ensures Valid() && model == Apply(old(model), ReceiveStep(p, wait))
      ensures old(model).ports[p].queue != [] ==> status == Success && m == Some(old(model).ports[p].queue[0])
      ensures old(model).ports[p].queue != [] ==> ports[p].Contents() == old(ports[p].Contents())[1..]
      ensures old(model).ports[p].queue == [] ==> m == None
      ensures old(model).ports[p].queue == [] && wait ==>
                old(sched.current).Some? &&
                waits.queues == old(waits.queues)[p := old(waits.queues)[p] + [old(sched.current).value]]
      ensures old(model).ports[p].queue == [] && !wait ==> status == WouldBlock
    {
      hide Inv, Shaped, Apply, Chain, Leave, NkPort.Contents, NkPort.Valid, WaitQueues.Valid, Scheduler.Valid;
      ghost var after := Apply(model, ReceiveStep(p, wait));
      StepKeeps(model, ReceiveStep(p, wait));
      ReceiveParts(model, p, wait);
      status, m := ports[p].Receive();
      if status != Success {
        if !wait {
          status := WouldBlock;
        } else {
          status := WaitOn(p);
        }
      }
      model := after;
    }

    /** PsReadyThread on a fresh thread. */
    method ReadyThread(t: nat) returns (status: KStatus)
      requires Valid() && Enabled(model, ReadyStep(t))
      modifies this, sched, sched.state, sched.runNext
      ensures Valid() && model == Apply(old(model), ReadyStep(t))
      ensures status == Success
      ensures t < MAX_THREADS && sched.run == old(sched.run) + [t] && sched.current == old(sched.current)
      ensures sched.state[..] == old(sched.state[..])[t := ThreadState.Ready]
    {
      hide Inv, Shaped, Chain, NkPort.Contents, NkPort.Valid, WaitQueues.Valid;
      ghost var after := Apply(model, ReadyStep(t));
      StepKeeps(model, ReadyStep(t));
      CurrentIsApart(model);
      status := sched.ReadyThread(t);
      model := after;
    }

    /** PsDispatch with no thread current. */
    method Start() returns (status: KStatus)
      requires Valid() && Enabled(model, DispatchStep)
      modifies this, sched, sched.state, sched.runNext
      ensures Valid() && model == Apply(old(model), DispatchStep)
      ensures status == if old(model).sched.run == [] then InitFailed else Success
      ensures old(sched.run) != [] ==> sched.run == old(sched.run)[1..] && sched.current == Some(old(sched.run)[0])
    {
      hide Inv, Shaped, Chain, NkPort.Contents, NkPort.Valid, WaitQueues.Valid;
      ghost var after := Apply(model, DispatchStep);
      StepKeeps(model, DispatchStep);
      Switched(model, DispatchStep);
      CurrentIsApart(model);
      status := sched.PickNext();
      model := after;
    }

    /** PsYieldThread, also where PsHandlePreemptionPoint calls it. */
    method Yield() returns (status: KStatus)
      requires Valid() && Enabled(model, YieldStep)
      modifies this, sched, sched.state, sched.runNext
      ensures Valid() && model == Apply(old(model), YieldStep)
      ensures status == if old(model).sched.run == [] then InitFailed else Success
      ensures old(sched.run) != [] && old(sched.current).Some? ==>
                sched.run == old(sched.run)[1..] + [old(sched.current).value] &&
                    sched.current == Some(old(sched.run)[0])
    {
      hide Inv, Shaped, Chain, NkPort.Contents, NkPort.Valid, WaitQueues.Valid;
      ghost var after := Apply(model, YieldStep);
      StepKeeps(model, YieldStep);
      Switched(model, YieldStep);
      CurrentIsApart(model);
      status := sched.YieldThread();
      model := after;
    }

    /** PsExitCurrentThread. */
    method Exit() returns (status: KStatus)
      requires Valid() && Enabled(model, ExitStep)
      modifies this, sched, sched.state, sched.runNext
      ensures Valid() && model == Apply(old(model), ExitStep)
      ensures status == if old(model).sched.run == [] then InitFailed else Success
      ensures old(sched.current).Some? && old(sched.current).value < MAX_THREADS &&
                sched.state[old(sched.current).value] == Dead
      ensures old(sched.run) != [] ==> sched.run == old(sched.run)[1..] && sched.current == Some(old(sched.run)[0])
    {
      hide Inv, Shaped, Chain, NkPort.Contents, NkPort.Valid, WaitQueues.Valid;
      ghost var after := Apply(model, ExitStep);
      StepKeeps(model, ExitStep);
      Left(model, ExitStep);
      CurrentIsApart(model);
      status := sched.LeaveProcessor(Dead);
      model := after;
    }

    /** The end of a start routine. */
    method ReturnFromStart()
      requires Valid() && Enabled(model, ReturnStep)
      modifies this, sched, sched.state, sched.runNext
      ensures Valid() && model == Apply(old(model), ReturnStep)
      ensures old(sched.current).Some? && old(sched.current).value < MAX_THREADS &&
                sched.state[old(sched.current).value] == Dead
      ensures old(sched.run) != [] ==> sched.run == old(sched.run)[1..] && sched.current == Some(old(sched.run)[0])
    {
      hide Inv, Shaped, Chain, NkPort.Contents, NkPort.Valid, WaitQueues.Valid;
      ghost var after := Apply(model, ReturnStep);
      StepKeeps(model, ReturnStep);
      Left(model, ReturnStep);
      CurrentIsApart(model);
      sched.ThreadReturned();
      model := after;
    }
  }
}
