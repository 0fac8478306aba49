/** IPC endpoints: send and receive as atomic steps under the endpoint lock, over a FIFO kept
    in a vector with a moving head. */
module IpcEndpoint {

  import opened Basics

  datatype Message = Message(senderPid: nat, opcode: nat, payload: seq<nat>)

  datatype Item = Item(sender: nat, msg: Message)

  // ----- the message queue -----

  /** A vector of items of which the first `head` are already taken. */
  datatype Queue = Queue(items: seq<Item>, head: nat) {
    predicate Valid() { head <= |items| }

    /** The items still queued. */
    function Live(): seq<Item>
      requires Valid()
    {
      items[head..]
    }

    /** The dead prefix is small, or smaller than the live part. */
    predicate Compact()
    {
      head <= 64 || head < |items| / 2
    }
  }

  function PushBack(q: Queue, i: Item): Queue { q.(items := q.items + [i]) }

  function Popped(q: Queue): Queue {
    if q.head >= |q.items| then q
    else if q.head + 1 > 64 && q.head + 1 >= |q.items| / 2 then Queue(q.items[q.head + 1..], 0)
    else q.(head := q.head + 1)
  }

  function Front(q: Queue): Option<Item> {
    if q.head >= |q.items| then None else Some(q.items[q.head])
  }

  /** The compacting queue is a FIFO, and its vector is at most twice the live items plus 64. */
  lemma QueueIsFifo(q: Queue, i: Item)
    requires q.Valid() && q.Compact()
    ensures PushBack(q, i).Valid() && PushBack(q, i).Compact() && PushBack(q, i).Live() == q.Live() + [i]
    ensures Popped(q).Valid() && Popped(q).Compact()
    ensures Front(q) == if q.Live() == [] then None else Some(q.Live()[0])
    ensures Popped(q).Live() == if q.Live() == [] then [] else q.Live()[1..]
    ensures |q.items| <= 2 * |q.Live()| + 64
  {
  }

  // ----- threads, endpoints, and the steps -----

  datatype ThreadState = Ready | Running | Waiting | Dead

  datatype Thread = Thread(state: ThreadState, basePriority: nat, effectivePriority: nat, waitTarget: Option<nat>)

  datatype Endpoint = Endpoint(queue: Queue, waitingReceiver: Option<nat>)

  datatype System = System(endpoints: seq<Option<Endpoint>>, threads: map<nat, Thread>, sends: nat, recvs: nat)

  /** `current` is the thread on whose behalf a step is taken, if any. */
  datatype Op = Send(ep: nat, pid: nat, msg: Message, current: Option<nat>)
              | Recv(ep: nat, current: Option<nat>)
              | Dispatch(tid: nat)
              | Preempt(tid: nat)
              | Spawn(tid: nat, priority: nat)
              | CreateEndpoint

  datatype Result = Sent | Received(msg: Message) | InvalidEndpoint | NoThread | NoCurrentThread | WouldBlock | Other

  predicate Exists(s: System, ep: nat) {
    ep < |s.endpoints| && s.endpoints[ep].Some?
  }

  /** A thread that is running may act; one that waits takes no step until woken. */
  predicate Enabled(s: System, op: Op) {
    match op
    case Send(_, _, _, current) => current.Some? ==> current.value in s.threads && s.threads[current.value].state == Running
    case Recv(_, current) => current.Some? ==> current.value in s.threads && s.threads[current.value].state == Running
    case Dispatch(tid) => tid in s.threads && s.threads[tid].state == Ready
    case Preempt(tid) => tid in s.threads && s.threads[tid].state == Running
    case Spawn(tid, _) => tid !in s.threads
    case CreateEndpoint => true
  }

  /** Wake a receiver: it inherits the sender's priority if that is higher. */
  function Wake(threads: map<nat, Thread>, receiver: Option<nat>, priority: nat): map<nat, Thread> {
    if receiver == None || receiver.value !in threads then threads else
      var r := threads[receiver.value];
      threads[receiver.value := r.(effectivePriority := Max(r.effectivePriority, priority), state := Ready)]
  }

  function SenderPriority(s: System, current: Option<nat>): nat {
    if current.Some? && current.value in s.threads then s.threads[current.value].effectivePriority else 0
  }

  function AfterSend(s: System, ep: nat, item: Item, current: Option<nat>): System
    requires Exists(s, ep)
  {
    var e := s.endpoints[ep].value;
    System(s.endpoints[ep := Some(Endpoint(PushBack(e.queue, item), None))],
           Wake(s.threads, e.waitingReceiver, SenderPriority(s, current)), s.sends + 1, s.recvs)
  }

  /** The receive found a message: it is gone from the queue whether or not there is a thread
      to give it to. */
  function AfterTake(s: System, ep: nat, current: Option<nat>): System
    requires Exists(s, ep) && (current.Some? ==> current.value in s.threads)
  {
    var e := s.endpoints[ep].value;
    var s' := s.(endpoints := s.endpoints[ep := Some(e.(queue := Popped(e.queue)))]);
    if current == None then s' else
      var t := s.threads[current.value];
      s'.(threads := s.threads[current.value := t.(effectivePriority := t.basePriority)], recvs := s.recvs + 1)
  }

  function AfterBlock(s: System, ep: nat, tid: nat): System
    requires Exists(s, ep) && tid in s.threads
  {
    var e := s.endpoints[ep].value;
    s.(threads := s.threads[tid := s.threads[tid].(state := Waiting, waitTarget := Some(ep))],
       endpoints := s.endpoints[ep := Some(e.(waitingReceiver := Some(tid)))])
  }

  function After(s: System, op: Op): System
    requires Enabled(s, op)
  {
    match op
    case Send(ep, pid, msg, current) =>
      if Exists(s, ep) then AfterSend(s, ep, Item(pid, msg), current) else s
    case Recv(ep, current) =>
      if !Exists(s, ep) then s
      else if Front(s.endpoints[ep].value.queue).Some? then AfterTake(s, ep, current)
      else if current.Some? then AfterBlock(s, ep, current.value)
      else s
    case Dispatch(tid) => s.(threads := s.threads[tid := s.threads[tid].(state := Running)])
    case Preempt(tid) => s.(threads := s.threads[tid := s.threads[tid].(state := Ready)])
    case Spawn(tid, priority) => s.(threads := s.threads[tid := Thread(Ready, priority, priority, None)])
    case CreateEndpoint => s.(endpoints := s.endpoints + [Some(Endpoint(Queue([], 0), None))])
  }

  function ResultOf(s: System, op: Op): Result {
    match op
    case Send(ep, _, _, _) => if Exists(s, ep) then Sent else InvalidEndpoint
    case Recv(ep, current) =>
      if !Exists(s, ep) then InvalidEndpoint
      else if Front(s.endpoints[ep].value.queue).Some? then
        if current == None then NoThread else Received(Front(s.endpoints[ep].value.queue).value.msg)
      else if current == None then NoCurrentThread else WouldBlock
    case _ => Other
  }

  // ----- no lost wakeup -----

  ghost predicate QueuesOk(s: System) {
    forall e: nat :: Exists(s, e) ==> s.endpoints[e].value.queue.Valid() && s.endpoints[e].value.queue.Compact()
  }

  /** A registered receiver is a thread in state Waiting on that very endpoint, and the
      endpoint's queue is empty. */
  ghost predicate RegisteredAt(s: System, e: nat)
    requires Exists(s, e)
  {
    var ep := s.endpoints[e].value;
    ep.waitingReceiver.Some? ==>
      && ep.waitingReceiver.value in s.threads
      && s.threads[ep.waitingReceiver.value].state == Waiting
      && s.threads[ep.waitingReceiver.value].waitTarget == Some(e)
      && Front(ep.queue) == None
  }

  ghost predicate Registered(s: System) {
    forall e: nat :: Exists(s, e) ==> RegisteredAt(s, e)
  }

  /** Every waiting thread is registered at the endpoint it waits on. */
  ghost predicate WaiterKnown(s: System, t: nat)
    requires t in s.threads
  {
    s.threads[t].state == Waiting ==>
      && s.threads[t].waitTarget.Some? && Exists(s, s.threads[t].waitTarget.value)
      && s.endpoints[s.threads[t].waitTarget.value].value.waitingReceiver == Some(t)
  }

  ghost predicate NoLostWaiter(s: System) {
    forall t :: t in s.threads ==> WaiterKnown(s, t)
  }

  ghost predicate PrioritiesOk(s: System) {
    forall t :: t in s.threads ==> s.threads[t].basePriority <= s.threads[t].effectivePriority
  }

  ghost predicate Consistent(s: System) {
    QueuesOk(s) && Registered(s) && PrioritiesOk(s)
  }

  lemma StepKeepsQueues(s: System, op: Op)
    requires QueuesOk(s) && Enabled(s, op)
    ensures QueuesOk(After(s, op))
  {
  }

  lemma StepKeepsRegistered(s: System, op: Op, e: nat)
    requires Registered(s) && Enabled(s, op) && Exists(After(s, op), e)
    ensures RegisteredAt(After(s, op), e)
  {
    if Exists(s, e) {
      assert RegisteredAt(s, e);
    }
    if op.Send? && Exists(s, op.ep) {
      assert RegisteredAt(s, op.ep);
    }
  }

  /** Each step keeps receivers registered only where they wait, on an empty queue, and
      effective priorities at or above base priorities. */
  lemma StepKeepsConsistent(s: System, op: Op)
    requires Consistent(s) && Enabled(s, op)
    ensures Consistent(After(s, op))
  {
    StepKeepsQueues(s, op);
    forall e: nat | Exists(After(s, op), e)
      ensures RegisteredAt(After(s, op), e)
    {
      StepKeepsRegistered(s, op, e);
    }
  }

  /** No thread is registered at two endpoints. */
  lemma RegisteredOnce(s: System, e: nat, f: nat, t: nat)
    requires Registered(s) && Exists(s, e) && Exists(s, f)
    requires s.endpoints[e].value.waitingReceiver == Some(t) && s.endpoints[f].value.waitingReceiver == Some(t)
    ensures e == f
  {
  }

  ghost predicate Blocks(s: System, op: Op) {
    op.Recv? && op.current.Some? && Exists(s, op.ep) && Front(s.endpoints[op.ep].value.queue) == None
  }

  /** A step loses no waiter if and only if it does not block on an endpoint where another
      receiver is already registered (whose registration it would overwrite). */
  lemma LosesNoWaiterIff(s: System, op: Op)
    requires Consistent(s) && NoLostWaiter(s) && Enabled(s, op)
    ensures NoLostWaiter(After(s, op)) <==> (Blocks(s, op) ==> s.endpoints[op.ep].value.waitingReceiver == None)
  {
    var s' := After(s, op);
    if Blocks(s, op) && s.endpoints[op.ep].value.waitingReceiver.Some? {
      assert RegisteredAt(s, op.ep);
      var r := s.endpoints[op.ep].value.waitingReceiver.value;
      assert !WaiterKnown(s', r);
    } else {
      forall t | t in s'.threads
        ensures WaiterKnown(s', t)
      {
        if t in s.threads {
          assert WaiterKnown(s, t);
        }
        if op.Send? && Exists(s, op.ep) {
          assert RegisteredAt(s, op.ep);
        }
      }
    }
  }

  // ----- whole runs, with their history -----

  /** Per endpoint: what was sent to it, what was taken out of it, how many of those were taken
      with no thread to receive them, for each whether there was one, and the messages that
      receives returned. */
  datatype Log = Log(sent: seq<Item>, taken: seq<Item>, dropped: nat, kept: seq<bool>, given: seq<Message>)

  const EMPTY_LOG: Log := Log([], [], 0, [], [])

  datatype Trace = Trace(s: System, logs: seq<Log>)

  function Returned(r: Result): seq<Message> { if r.Received? then [r.msg] else [] }

  function Logged(s: System, logs: seq<Log>, op: Op): seq<Log>
    requires |logs| == |s.endpoints|
  {
    match op
    case Send(ep, pid, msg, _) =>
      if Exists(s, ep) then logs[ep := logs[ep].(sent := logs[ep].sent + [Item(pid, msg)])] else logs
    case Recv(ep, current) =>
      if Exists(s, ep) && Front(s.endpoints[ep].value.queue).Some? then
        logs[ep := Log(logs[ep].sent, logs[ep].taken + [Front(s.endpoints[ep].value.queue).value],
                       logs[ep].dropped + (if current == None then 1 else 0), logs[ep].kept + [current.Some?],
                       logs[ep].given + Returned(ResultOf(s, op)))]
      else logs
    case CreateEndpoint => logs + [EMPTY_LOG]
    case _ => logs
  }

  /** A run is legal if every step is enabled when it is taken. */
  ghost predicate Legal(tr: Trace, ops: seq<Op>)
    decreases |ops|
  {
    && |tr.logs| == |tr.s.endpoints|
    && (ops == [] || (Enabled(tr.s, ops[0]) && Legal(Next(tr, ops[0]), ops[1..])))
  }

  function Next(tr: Trace, op: Op): Trace
    requires Enabled(tr.s, op) && |tr.logs| == |tr.s.endpoints|
  {
    Trace(After(tr.s, op), Logged(tr.s, tr.logs, op))
  }

  function Run(tr: Trace, ops: seq<Op>): Trace
    requires Legal(tr, ops)
    decreases |ops|
  {
    if ops == [] then tr else Run(Next(tr, ops[0]), ops[1..])
  }

  function Boot(): Trace { Trace(System([None], map[], 0, 0), [EMPTY_LOG]) }

  function Backlog(eps: seq<Option<Endpoint>>): nat { Sum(eps, Pending) }

  function Pending(e: Option<Endpoint>): nat {
    if e.Some? && e.value.queue.head <= |e.value.queue.items| then |e.value.queue.items| - e.value.queue.head else 0
  }

  function DroppedAt(l: Log): nat { l.dropped }

  function Dropped(logs: seq<Log>): nat { Sum(logs, DroppedAt) }

  ghost predicate FifoAt(tr: Trace, e: nat)
    requires e < |tr.logs| == |tr.s.endpoints|
  {
    if tr.s.endpoints[e].Some? && tr.s.endpoints[e].value.queue.Valid()
    then tr.logs[e].sent == tr.logs[e].taken + tr.s.endpoints[e].value.queue.Live()
    else tr.logs[e] == EMPTY_LOG
  }

  ghost predicate Conserved(tr: Trace) {
    && |tr.logs| == |tr.s.endpoints|
    && (forall e: nat :: e < |tr.logs| ==> FifoAt(tr, e))
    && Balanced(tr.s, tr.logs)
  }

  lemma SendKeepsFifo(q: Queue, l: Log, item: Item)
    requires q.Valid() && q.Compact() && l.sent == l.taken + q.Live()
    ensures PushBack(q, item).Valid() && l.sent + [item] == l.taken + PushBack(q, item).Live()
  {
    QueueIsFifo(q, item);
  }

  lemma TakeKeepsFifo(q: Queue, l: Log)
    requires q.Valid() && q.Compact() && l.sent == l.taken + q.Live() && Front(q).Some?
    ensures Popped(q).Valid() && l.sent == l.taken + [Front(q).value] + Popped(q).Live()
  {
    QueueIsFifo(q, Front(q).value);
  }

  lemma StepKeepsFifo(tr: Trace, op: Op, e: nat)
    requires Consistent(tr.s) && Enabled(tr.s, op) && |tr.logs| == |tr.s.endpoints|
    requires e < |tr.logs| && FifoAt(tr, e)
    ensures FifoAt(Next(tr, op), e)
  {
    if Exists(tr.s, e) {
      var q := tr.s.endpoints[e].value.queue;
      match op
      case Send(ep, pid, msg, _) =>
        if ep == e { SendKeepsFifo(q, tr.logs[e], Item(pid, msg)); }
      case Recv(ep, _) =>
        if ep == e && Front(q).Some? { TakeKeepsFifo(q, tr.logs[e]); }
      case _ =>
    }
  }

  ghost predicate Balanced(s: System, logs: seq<Log>) {
    s.sends == s.recvs + Dropped(logs) + Backlog(s.endpoints)
  }

  lemma SendBalances(s: System, logs: seq<Log>, ep: nat, item: Item, current: Option<nat>)
    requires QueuesOk(s) && Exists(s, ep) && |logs| == |s.endpoints| && Balanced(s, logs)
    ensures Balanced(AfterSend(s, ep, item, current), logs[ep := logs[ep].(sent := logs[ep].sent + [item])])
  {
    SumUpdate(s.endpoints, ep, AfterSend(s, ep, item, current).endpoints[ep], Pending);
    SumUpdate(logs, ep, logs[ep].(sent := logs[ep].sent + [item]), DroppedAt);
  }

  lemma TakeBalances(s: System, logs: seq<Log>, ep: nat, current: Option<nat>, l: Log)
    requires QueuesOk(s) && Exists(s, ep) && |logs| == |s.endpoints| && Balanced(s, logs)
    requires Front(s.endpoints[ep].value.queue).Some? && (current.Some? ==> current.value in s.threads)
    requires l.dropped == logs[ep].dropped + if current == None then 1 else 0
    ensures Balanced(AfterTake(s, ep, current), logs[ep := l])
  {
    SumUpdate(s.endpoints, ep, AfterTake(s, ep, current).endpoints[ep], Pending);
    SumUpdate(logs, ep, l, DroppedAt);
  }

  lemma BlockBalances(s: System, logs: seq<Log>, ep: nat, tid: nat)
    requires Exists(s, ep) && tid in s.threads && Balanced(s, logs)
    ensures Balanced(AfterBlock(s, ep, tid), logs)
  {
    SumUpdate(s.endpoints, ep, AfterBlock(s, ep, tid).endpoints[ep], Pending);
  }

  lemma StepKeepsBalance(tr: Trace, op: Op)
    requires Consistent(tr.s) && Enabled(tr.s, op) && |tr.logs| == |tr.s.endpoints|
    requires Balanced(tr.s, tr.logs)
    ensures Balanced(Next(tr, op).s, Next(tr, op).logs)
  {
    var s := tr.s;
    match op
    case Send(ep, pid, msg, current) =>
      if Exists(s, ep) { SendBalances(s, tr.logs, ep, Item(pid, msg), current); }
    case Recv(ep, current) =>
      if Exists(s, ep) {
        if Front(s.endpoints[ep].value.queue).Some? {
          TakeBalances(s, tr.logs, ep, current, Logged(s, tr.logs, op)[ep]);
        } else if current.Some? {
          BlockBalances(s, tr.logs, ep, current.value);
        }
      }
    case CreateEndpoint =>
      assert After(s, op).endpoints[..|s.endpoints|] == s.endpoints;
      assert Logged(s, tr.logs, op)[..|tr.logs|] == tr.logs;
    case _ =>
  }

  lemma StepKeepsConserved(tr: Trace, op: Op)
    requires Consistent(tr.s) && Conserved(tr) && Enabled(tr.s, op)
    ensures Conserved(Next(tr, op))
  {
    var tr' := Next(tr, op);
    StepKeepsBalance(tr, op);
    forall e: nat | e < |tr'.logs|
      ensures FifoAt(tr', e)
    {
      if e < |tr.logs| {
        StepKeepsFifo(tr, op, e);
      }
    }
  }

  /** The recv steps of a run all have a current thread. */
  ghost predicate ThreadAtEveryRecv(ops: seq<Op>) {
    forall i :: 0 <= i < |ops| && ops[i].Recv? ==> ops[i].current.Some?
  }

  /** Only thread `owner(e)` receives from endpoint `e`. */
  ghost predicate OneReceiver(ops: seq<Op>, owner: nat -> nat) {
    forall i :: 0 <= i < |ops| && ops[i].Recv? && ops[i].current.Some? ==> ops[i].current.value == owner(ops[i].ep)
  }

  /** Every waiting thread is registered and is the owner of its endpoint. */
  ghost predicate OwnersWait(s: System, owner: nat -> nat) {
    && NoLostWaiter(s)
    && forall t :: t in s.threads && s.threads[t].state == Waiting && s.threads[t].waitTarget.Some?
         ==> t == owner(s.threads[t].waitTarget.value)
  }

  lemma OwnerStep(s: System, op: Op, owner: nat -> nat)
    requires Consistent(s) && OwnersWait(s, owner) && Enabled(s, op)
    requires op.Recv? && op.current.Some? ==> op.current.value == owner(op.ep)
    ensures OwnersWait(After(s, op), owner)
  {
    assert Blocks(s, op) ==> RegisteredAt(s, op.ep);
    LosesNoWaiterIff(s, op);
  }

  /** Over every interleaving: registered receivers are waiting threads of empty endpoints, and
      effective priorities are never below base; what is taken from an endpoint is always a
      prefix of what was sent to it; and sends equal receives plus dropped plus queued. */
  lemma {:induction false} RunsStayConsistent(tr: Trace, ops: seq<Op>)
    requires Legal(tr, ops) && Consistent(tr.s) && Conserved(tr)
    ensures Consistent(Run(tr, ops).s) && Conserved(Run(tr, ops))
    decreases |ops|
  {
    if ops == [] {
    } else {
      StepKeepsConsistent(tr.s, ops[0]);
      StepKeepsConserved(tr, ops[0]);
      RunsStayConsistent(Next(tr, ops[0]), ops[1..]);
    }
  }

  // ----- what receives return -----

  /** The messages of the items that were kept, in order. */
  function Picked(items: seq<Item>, kept: seq<bool>): seq<Message>
    requires |items| == |kept|
  {
    if items == [] then [] else
      var n := |items| - 1;
      Picked(items[..n], kept[..n]) + if kept[n] then [items[n].msg] else []
  }

  /** What receives returned from an endpoint is what was taken out of it, without the dropped. */
  ghost predicate Given(l: Log) {
    |l.kept| == |l.taken| && l.given == Picked(l.taken, l.kept) && |l.given| + l.dropped == |l.taken|
  }

  lemma GivenOneMore(l: Log, l': Log, item: Item, some: bool)
    requires Given(l) && l'.taken == l.taken + [item] && l'.kept == l.kept + [some]
    requires l'.dropped == l.dropped + (if some then 0 else 1) && l'.given == l.given + if some then [item.msg] else []
    ensures Given(l')
  {
    assert l'.taken[..|l.taken|] == l.taken && l'.kept[..|l.taken|] == l.kept;
  }

  lemma StepKeepsGiven(tr: Trace, op: Op, e: nat)
    requires Enabled(tr.s, op) && |tr.logs| == |tr.s.endpoints| && e < |tr.logs| && Given(tr.logs[e])
    ensures Given(Next(tr, op).logs[e])
  {
    if op.Recv? && op.ep == e && Exists(tr.s, e) && Front(tr.s.endpoints[e].value.queue).Some? {
      GivenOneMore(tr.logs[e], Next(tr, op).logs[e], Front(tr.s.endpoints[e].value.queue).value, op.current.Some?);
    }
  }

  function GivenAt(l: Log): nat { |l.given| }

  lemma StepCountsGiven(tr: Trace, op: Op)
    requires Enabled(tr.s, op) && |tr.logs| == |tr.s.endpoints|
    ensures Next(tr, op).s.recvs - tr.s.recvs == Sum(Next(tr, op).logs, GivenAt) - Sum(tr.logs, GivenAt)
  {
    var logs := Next(tr, op).logs;
    if (op.Send? || op.Recv?) && Exists(tr.s, op.ep) {
      SumUpdate(tr.logs, op.ep, logs[op.ep], GivenAt);
    } else if op.CreateEndpoint? {
      assert logs[..|tr.logs|] == tr.logs;
    }
  }

  /** Over every run: the messages received from each endpoint are those taken out of it without
      the dropped, and RECV_COUNT is how many were received. */
  lemma {:induction false} RunsGive(tr: Trace, ops: seq<Op>)
    requires Legal(tr, ops) && (forall e: nat :: e < |tr.logs| ==> Given(tr.logs[e]))
    requires tr.s.recvs == Sum(tr.logs, GivenAt)
    ensures var tr' := Run(tr, ops);
      (forall e: nat :: e < |tr'.logs| ==> Given(tr'.logs[e])) && tr'.s.recvs == Sum(tr'.logs, GivenAt)
    decreases |ops|
  {
    if ops != [] {
      var tr1 := Next(tr, ops[0]);
      forall e: nat | e < |tr1.logs|
        ensures Given(tr1.logs[e])
      {
        if e < |tr.logs| {
          StepKeepsGiven(tr, ops[0], e);
        }
      }
      StepCountsGiven(tr, ops[0]);
      RunsGive(tr1, ops[1..]);
    }
  }

  lemma {:induction false} AllPicked(items: seq<Item>, kept: seq<bool>, i: nat)
    requires |items| == |kept| && i < |items|
    ensures |Picked(items, kept)| <= |items|
    ensures |Picked(items, kept)| == |items| ==> Picked(items, kept)[i] == items[i].msg
  {
    var n := |items| - 1;
    if n > 0 {
      AllPicked(items[..n], kept[..n], Min(i, n - 1));
    }
  }

  /** When every recv has a thread nothing is dropped, so SEND_COUNT is RECV_COUNT plus all
      queued messages. */
  lemma {:induction false} NothingDropped(tr: Trace, ops: seq<Op>)
    requires Legal(tr, ops) && ThreadAtEveryRecv(ops)
    ensures Dropped(Run(tr, ops).logs) == Dropped(tr.logs)
    decreases |ops|
  {
    if ops == [] {
    } else {
      var tr' := Next(tr, ops[0]);
      if (ops[0].Send? || ops[0].Recv?) && Exists(tr.s, ops[0].ep) {
        SumUpdate(tr.logs, ops[0].ep, tr'.logs[ops[0].ep], DroppedAt);
      } else if ops[0].CreateEndpoint? {
        assert tr'.logs[..|tr.logs|] == tr.logs;
      }
      NothingDropped(tr', ops[1..]);
    }
  }

  /** If `t` waits, it is registered at the endpoint it waits on, and no message is there. */
  ghost predicate WaitsProperly(s: System, t: nat)
    requires t in s.threads
  {
    WaiterKnown(s, t)
    && (s.threads[t].state == Waiting ==> Front(s.endpoints[s.threads[t].waitTarget.value].value.queue) == None)
  }

  /** No lost wakeup: with one receiver per endpoint, in every state of every run a thread that
      waits on an endpoint is registered there and the endpoint has no message queued. */
  lemma {:induction false} NoLostWakeup(tr: Trace, ops: seq<Op>, owner: nat -> nat)
    requires Legal(tr, ops) && Consistent(tr.s) && OwnersWait(tr.s, owner) && OneReceiver(ops, owner)
    ensures var s := Run(tr, ops).s; forall t :: t in s.threads ==> WaitsProperly(s, t)
    decreases |ops|
  {
    if ops == [] {
      forall t | t in tr.s.threads
        ensures WaitsProperly(tr.s, t)
      {
        assert WaiterKnown(tr.s, t);
        if tr.s.threads[t].state == Waiting {
          assert RegisteredAt(tr.s, tr.s.threads[t].waitTarget.value);
        }
      }
    } else {
      StepKeepsConsistent(tr.s, ops[0]);
      OwnerStep(tr.s, ops[0], owner);
      NoLostWakeup(Next(tr, ops[0]), ops[1..], owner);
      assert Run(tr, ops) == Run(Next(tr, ops[0]), ops[1..]);
    }
  }

  lemma BootIsConsistent(owner: nat -> nat)
    ensures Consistent(Boot().s) && Conserved(Boot()) && OwnersWait(Boot().s, owner)
  {
  }

  /** From boot, when every recv has a thread: SEND_COUNT is RECV_COUNT plus all queued messages. */
  lemma CountersBalance(ops: seq<Op>)
    requires Legal(Boot(), ops) && ThreadAtEveryRecv(ops)
    ensures var s := Run(Boot(), ops).s; s.sends == s.recvs + Backlog(s.endpoints)
  {
    BootIsConserved();
    RunsStayConsistent(Boot(), ops);
    NothingDropped(Boot(), ops);
    BalancedWithoutLoss(Run(Boot(), ops));
  }

  lemma BalancedWithoutLoss(tr: Trace)
    requires Conserved(tr) && Dropped(tr.logs) == 0
    ensures tr.s.sends == tr.s.recvs + Backlog(tr.s.endpoints)
  {
  }

  lemma BootIsConserved()
    ensures Consistent(Boot().s) && Conserved(Boot()) && Dropped(Boot().logs) == 0
  {
    SumOne(Boot().s.endpoints, Pending);
    SumOne(Boot().logs, DroppedAt);
  }

  /** From boot: the messages received from an endpoint are those of the first messages sent to
      it, in order, without the ones a recv with no thread took and dropped; so if every recv has
      a thread, exactly the first ones. */
  lemma ReceivedInOrder(ops: seq<Op>, e: nat, l: Log)
    requires Legal(Boot(), ops) && e < |Run(Boot(), ops).logs| && l == Run(Boot(), ops).logs[e]
    ensures l.taken <= l.sent && Given(l)
    ensures ThreadAtEveryRecv(ops) ==>
      |l.given| <= |l.sent| && forall i :: 0 <= i < |l.given| ==> l.given[i] == l.sent[i].msg
  {
    BootIsConserved();
    BootIsGiven();
    RunsStayConsistent(Boot(), ops);
    TakenIsPrefix(Run(Boot(), ops), e);
    RunsGive(Boot(), ops);
    if ThreadAtEveryRecv(ops) {
      NothingDropped(Boot(), ops);
      SumZero(Run(Boot(), ops).logs, DroppedAt, e);
      GivenAll(l);
    }
  }

  lemma BootIsGiven()
    ensures forall e: nat :: e < |Boot().logs| ==> Given(Boot().logs[e])
    ensures Boot().s.recvs == Sum(Boot().logs, GivenAt)
  {
    SumOne(Boot().logs, GivenAt);
  }

  lemma TakenIsPrefix(tr: Trace, e: nat)
    requires Conserved(tr) && e < |tr.logs|
    ensures tr.logs[e].taken <= tr.logs[e].sent
  {
    assert FifoAt(tr, e);
  }

  lemma GivenAll(l: Log)
    requires Given(l) && l.dropped == 0 && l.taken <= l.sent
    ensures |l.given| <= |l.sent| && forall i :: 0 <= i < |l.given| ==> l.given[i] == l.sent[i].msg
  {
    forall i: nat | i < |l.given|
      ensures l.given[i] == l.sent[i].msg
    {
      AllPicked(l.taken, l.kept, i);
    }
  }

  // ----- what results and priorities mean -----

  /** The result of a send or receive tells what it did. */
  lemma ResultsAreTrue(s: System, op: Op)
    requires Enabled(s, op) && (op.Send? || op.Recv?)
    ensures var r, s' := ResultOf(s, op), After(s, op);
      && (r == InvalidEndpoint <==> !Exists(s, op.ep))
      && (r == Sent <==> s'.sends == s.sends + 1)
      && (r.Received? <==> s'.recvs == s.recvs + 1)
      && (r == NoThread <==> Exists(s, op.ep) && op.Recv? && op.current == None && s' != s)
      && (r == WouldBlock ==> op.current.Some? && s'.threads[op.current.value].state == Waiting
                              && s'.endpoints[op.ep].value.waitingReceiver == op.current)
      && (r == InvalidEndpoint || r == NoCurrentThread ==> s' == s)
  {
  }

  /** A send hands the sender's priority to the receiver it wakes, if that is higher, and touches
      no other thread; a receive that returns a message sets the receiver back to its base. */
  lemma PriorityIsInherited(s: System, op: Op, t: nat)
    requires Consistent(s) && Enabled(s, op) && t in s.threads
    ensures var s' := After(s, op);
      var woken := op.Send? && Exists(s, op.ep) && s.endpoints[op.ep].value.waitingReceiver == Some(t);
      && t in s'.threads && s'.threads[t].basePriority == s.threads[t].basePriority
      && (woken ==> s'.threads[t].state == Ready)
      && s'.threads[t].effectivePriority ==
         if woken && op.current.Some?
         then Max(s.threads[t].effectivePriority, s.threads[op.current.value].effectivePriority)
         else if ResultOf(s, op).Received? && op.current == Some(t) then s.threads[t].basePriority
         else s.threads[t].effectivePriority
  {
    assert op.Send? && Exists(s, op.ep) ==> RegisteredAt(s, op.ep);
  }

  /** Preempting a thread undoes its dispatch. */
  lemma PreemptUndoesDispatch(s: System, tid: nat)
    requires Enabled(s, Dispatch(tid))
    ensures var s' := After(s, Dispatch(tid));
      s'.threads[tid].state == Running && Enabled(s', Preempt(tid)) && After(s', Preempt(tid)) == s
  {
    var s' := After(After(s, Dispatch(tid)), Preempt(tid));
    assert s'.threads == s.threads;
  }

  // ----- a second receiver -----

  lemma {:induction false} RunConcat(tr: Trace, a: seq<Op>, b: seq<Op>)
    requires Legal(tr, a) && Legal(Run(tr, a), b)
    ensures Legal(tr, a + b) && Run(tr, a + b) == Run(Run(tr, a), b)
    decreases |a|
  {
    if a == [] {
      assert a + b == b;
    } else {
      assert (a + b)[1..] == a[1..] + b;
      RunConcat(Next(tr, a[0]), a[1..], b);
    }
  }

  lemma RunOne(tr: Trace, op: Op, tr': Trace)
    requires |tr.logs| == |tr.s.endpoints| && Enabled(tr.s, op) && tr' == Next(tr, op)
    ensures Legal(tr, [op]) && Run(tr, [op]) == tr'
  {
    assert [op][1..] == [];
    assert Legal(tr', []) && Run(tr', []) == tr';
  }

  function Started(): seq<Op> { [Spawn(1, 1), Spawn(2, 1), CreateEndpoint, Dispatch(1), Dispatch(2)] }

  function TwoReceivers(m: Message): seq<Op> {
    [Recv(1, Some(1)), Recv(1, Some(2)), Send(1, 9, m, None), Send(1, 9, m, None)]
  }

  /** Two running threads and one empty endpoint. */
  function Scene(): Trace {
    var t := Thread(Running, 1, 1, None);
    Trace(System([None, Some(Endpoint(Queue([], 0), None))], map[1 := t, 2 := t], 0, 0),
          [EMPTY_LOG, EMPTY_LOG])
  }

  lemma BootToScene()
    ensures Legal(Boot(), Started()) && Run(Boot(), Started()) == Scene()
  {
    var t1 := Next(Boot(), Spawn(1, 1));
    var t2 := Next(t1, Spawn(2, 1));
    var t3 := Next(t2, CreateEndpoint);
    var t4 := Next(t3, Dispatch(1));
    var t5 := Next(t4, Dispatch(2));
    assert t5.s.threads == Scene().s.threads;
    RunOne(Boot(), Spawn(1, 1), t1);
    RunOne(t1, Spawn(2, 1), t2);
    RunConcat(Boot(), [Spawn(1, 1)], [Spawn(2, 1)]);
    RunOne(t2, CreateEndpoint, t3);
    RunConcat(Boot(), [Spawn(1, 1)] + [Spawn(2, 1)], [CreateEndpoint]);
    RunOne(t3, Dispatch(1), t4);
    RunConcat(Boot(), [Spawn(1, 1)] + [Spawn(2, 1)] + [CreateEndpoint], [Dispatch(1)]);
    RunOne(t4, Dispatch(2), t5);
    RunConcat(Boot(), [Spawn(1, 1)] + [Spawn(2, 1)] + [CreateEndpoint] + [Dispatch(1)], [Dispatch(2)]);
    assert Started() == [Spawn(1, 1)] + [Spawn(2, 1)] + [CreateEndpoint] + [Dispatch(1)] + [Dispatch(2)];
  }

  lemma SceneStrandsFirst(m: Message)
    ensures Legal(Scene(), TwoReceivers(m))
    ensures Run(Scene(), TwoReceivers(m)).s ==
      System([None, Some(Endpoint(Queue([Item(9, m), Item(9, m)], 0), None))],
             map[1 := Thread(Waiting, 1, 1, Some(1)), 2 := Thread(Ready, 1, 1, Some(1))], 2, 0)
  {
    var o1, o2, o3 := Recv(1, Some(1)), Recv(1, Some(2)), Send(1, 9, m, None);
    var t1 := Next(Scene(), o1);
    var t2 := Next(t1, o2);
    var t3 := Next(t2, o3);
    var t4 := Next(t3, o3);
    assert t4.s.threads == map[1 := Thread(Waiting, 1, 1, Some(1)), 2 := Thread(Ready, 1, 1, Some(1))];
    assert t4.s.endpoints[1].value.queue.items == [Item(9, m), Item(9, m)];
    assert t4.s.endpoints == [None, Some(Endpoint(Queue([Item(9, m), Item(9, m)], 0), None))];
    RunOne(Scene(), o1, t1);
    RunOne(t1, o2, t2);
    RunConcat(Scene(), [o1], [o2]);
    RunOne(t2, o3, t3);
    RunConcat(Scene(), [o1] + [o2], [o3]);
    RunOne(t3, o3, t4);
    RunConcat(Scene(), [o1] + [o2] + [o3], [o3]);
    assert TwoReceivers(m) == [o1] + [o2] + [o3] + [o3];
  }

  /** From boot: two receivers on one endpoint. The second registration overwrites the first,
      and after two sends thread 1 still waits although two messages are queued. */
  lemma SecondReceiverStrandsFirst(m: Message)
    ensures Legal(Boot(), Started() + TwoReceivers(m))
    ensures Run(Boot(), Started() + TwoReceivers(m)).s ==
      System([None, Some(Endpoint(Queue([Item(9, m), Item(9, m)], 0), None))],
             map[1 := Thread(Waiting, 1, 1, Some(1)), 2 := Thread(Ready, 1, 1, Some(1))], 2, 0)
  {
    BootToScene();
    SceneStrandsFirst(m);
    RunConcat(Boot(), Started(), TwoReceivers(m));
  }

  // ----- a receive with no thread -----

  function NoThreadRun(m: Message): seq<Op> { [CreateEndpoint, Send(1, 9, m, None), Recv(1, None)] }

  /** From boot: one message is sent, a receive without a current thread takes it out and drops
      it, and the counters no longer balance. */
  lemma ReceiveWithoutThreadDrops(m: Message)
    ensures Legal(Boot(), NoThreadRun(m))
    ensures var tr := Run(Boot(), NoThreadRun(m));
      && tr.logs == [EMPTY_LOG, Log([Item(9, m)], [Item(9, m)], 1, [false], [])]
      && tr.s == System([None, Some(Endpoint(Queue([Item(9, m)], 1), None))], map[], 1, 0)
  {
    var o1, o2, o3 := CreateEndpoint, Op.Send(1, 9, m, None), Op.Recv(1, None);
    var t1 := Next(Boot(), o1);
    var t2 := Next(t1, o2);
    var t3 := Next(t2, o3);
    assert t2.s.endpoints[1].value.queue == Queue([Item(9, m)], 0);
    assert t3.s.endpoints[1].value.queue == Queue([Item(9, m)], 1);
    assert t3.logs[0] == EMPTY_LOG && t3.logs[1] == Log([Item(9, m)], [Item(9, m)], 1, [false], []);
    RunOne(Boot(), o1, t1);
    RunOne(t1, o2, t2);
    RunConcat(Boot(), [o1], [o2]);
    RunOne(t2, o3, t3);
    RunConcat(Boot(), [o1] + [o2], [o3]);
    assert NoThreadRun(m) == [o1] + [o2] + [o3];
  }

  // ----- killing a process -----

  /** Killing a process marks its thread Dead if it waits, and leaves it registered. */
  function AfterKill(s: System, tid: nat): System
    requires tid in s.threads
  {
    if s.threads[tid].state == Waiting then s.(threads := s.threads[tid := s.threads[tid].(state := Dead)]) else s
  }

  ghost predicate RegisteredSomewhere(s: System, tid: nat) {
    exists e: nat :: Exists(s, e) && s.endpoints[e].value.waitingReceiver == Some(tid)
  }

  /** A kill keeps the tables consistent if and only if its thread is registered nowhere. */
  lemma KillKeepsConsistentIff(s: System, tid: nat)
    requires Consistent(s) && tid in s.threads
    ensures Consistent(AfterKill(s, tid)) <==> !RegisteredSomewhere(s, tid)
  {
    var s' := AfterKill(s, tid);
    if RegisteredSomewhere(s, tid) {
      var e: nat :| Exists(s, e) && s.endpoints[e].value.waitingReceiver == Some(tid);
      assert RegisteredAt(s, e) && Exists(s', e) && !RegisteredAt(s', e);
    } else {
      forall e: nat | Exists(s', e)
        ensures RegisteredAt(s', e)
      {
        assert RegisteredAt(s, e);
      }
    }
  }

  /** ... and if it is registered, the next send to that endpoint makes the dead thread Ready. */
  lemma SendRevivesKilled(s: System, ep: nat, tid: nat, item: Item, current: Option<nat>)
    requires Consistent(s) && Exists(s, ep) && s.endpoints[ep].value.waitingReceiver == Some(tid)
    ensures tid in s.threads && AfterKill(s, tid).threads[tid].state == Dead
    ensures AfterSend(AfterKill(s, tid), ep, item, current).threads[tid].state == Ready
  {
    assert RegisteredAt(s, ep);
  }

  // ----- the kernel's endpoint table -----

  class Kernel {
    var endpoints: seq<Option<Endpoint>>
    var threads: map<nat, Thread>
    var sendCount: nat
    var recvCount: nat

    ghost function View(): System
      reads this
    {
      System(endpoints, threads, sendCount, recvCount)
    }

    /** Slot 0 is reserved; endpoints are created from 1 on. */
    constructor ()
      ensures View() == Boot().s
    {
      endpoints := [None];
      threads := map[];
      sendCount := 0;
      recvCount := 0;
    }

    method Create() returns (id: nat)
      modifies this
      ensures View() == After(old(View()), CreateEndpoint)
      ensures Exists(View(), id) && !Exists(old(View()), id)
    {
      id := |endpoints|;
      endpoints := endpoints + [Some(Endpoint(Queue([], 0), None))];
    }

    method PopFront(ep: nat) returns (r: Option<Item>)
      requires Exists(View(), ep)
      modifies this`endpoints
      ensures r == Front(old(endpoints[ep].value.queue))
      ensures var e := old(endpoints[ep].value); endpoints == old(endpoints)[ep := Some(e.(queue := Popped(e.queue)))]
    {
      var e := endpoints[ep].value;
      if e.queue.head >= |e.queue.items| {
        return None;
      }
      r := Some(e.queue.items[e.queue.head]);
      var items, head := e.queue.items, e.queue.head + 1;
      if head > 64 && head >= |items| / 2 {
        items, head := items[head..], 0;
      }
      endpoints := endpoints[ep := Some(e.(queue := Queue(items, head)))];
    }

    /** The registered receiver, followed through a raw pointer, must be a thread. */
    method Send(ep: nat, senderPid: nat, msg: Message, current: Option<nat>) returns (r: Result)
      requires Enabled(View(), Op.Send(ep, senderPid, msg, current))
      requires Exists(View(), ep) && endpoints[ep].value.waitingReceiver.Some? ==>
        endpoints[ep].value.waitingReceiver.value in threads
      modifies this
      ensures View() == After(old(View()), Op.Send(ep, senderPid, msg, current))
      ensures r == ResultOf(old(View()), Op.Send(ep, senderPid, msg, current))
    {
      var senderPriority := if current.Some? then threads[current.value].effectivePriority else 0;
      if ep >= |endpoints| || endpoints[ep].None? {
        return InvalidEndpoint;
      }
      var e := endpoints[ep].value;
      var receiver := e.waitingReceiver;
      e := e.(queue := PushBack(e.queue, Item(senderPid, msg)));
      sendCount := sendCount + 1;
      if receiver.Some? {
        e := e.(waitingReceiver := None);
        var t := threads[receiver.value];
        if senderPriority > t.effectivePriority {
          t := t.(effectivePriority := senderPriority);
        }
        threads := threads[receiver.value := t.(state := Ready)];
      }
      endpoints := endpoints[ep := Some(e)];
      return Sent;
    }

    method Recv(ep: nat, current: Option<nat>) returns (r: Result)
      requires Enabled(View(), Op.Recv(ep, current))
      modifies this
      ensures View() == After(old(View()), Op.Recv(ep, current))
      ensures r == ResultOf(old(View()), Op.Recv(ep, current))
    {
      if ep >= |endpoints| || endpoints[ep].None? {
        return InvalidEndpoint;
      }
      var item := PopFront(ep);
      if item.Some? {
        if current.None? {
          return NoThread;
        }
        var t := threads[current.value];
        threads := threads[current.value := t.(effectivePriority := t.basePriority)];
        recvCount := recvCount + 1;
        return Received(item.value.msg);
      }
      assert endpoints == old(endpoints);
      if current.None? {
        return NoCurrentThread;
      }
      var t := threads[current.value];
      threads := threads[current.value := t.(state := Waiting, waitTarget := Some(ep))];
      endpoints := endpoints[ep := Some(endpoints[ep].value.(waitingReceiver := Some(current.value)))];
      return WouldBlock;
    }
  }
}
