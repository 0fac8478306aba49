/** The AI workload scheduler: a queue of workloads, and per GPU a table of four slots that
    must agree with the states of the workloads. */
module AiScheduler {

  import opened Basics

  const MAX_QUEUES: nat := 16
  const MAX_GPUS: nat := 4
  const MAX_PER_GPU: nat := 4
  const TIME_QUANTUM_OPS: nat := 1000
  const PRIO_REALTIME: nat := 3

  datatype Status = Queued | Running | Completed | Failed | Preempted

  datatype Workload = Workload(pid: nat, gpu: nat, priority: nat, state: Status, batch: nat, opsDone: nat, tick: nat)

  /** The slots hold workload indices, -1 for none. */
  datatype Device = Device(active: bool, slots: seq<int>, opsCompleted: nat)

  datatype State = State(queue: seq<Workload>, gpus: seq<Device>, gpuCount: nat)

  datatype Op = Register
              | Submit(pid: nat, gpu: nat, priority: nat, batch: nat, tick: nat)
              | Schedule
              | Complete(id: nat, ok: bool)
              | Preempt(id: nat)
              | CheckPreemption
              | Advance(id: nat, ops: nat)

  // ----- slots -----

  function IndexOf(slots: seq<int>, v: int): (k: nat)
    ensures k <= |slots| && v !in slots[..k] && (k < |slots| ==> slots[k] == v)
  {
    if slots == [] then 0
    else if slots[0] == v then 0
    else
      assert slots == [slots[0]] + slots[1..];
      1 + IndexOf(slots[1..], v)
  }

  /** Replace the first occurrence of `v`. */
  function Replace(slots: seq<int>, v: int, w: int): seq<int> {
    if IndexOf(slots, v) < |slots| then slots[IndexOf(slots, v) := w] else slots
  }

  predicate RunsOn(w: Workload, g: nat) { w.state == Running && w.gpu == g }

  function RunningOn(g: nat): Workload -> nat { (w: Workload) => if RunsOn(w, g) then 1 else 0 }

  function CountRunning(q: seq<Workload>, g: nat): nat { Sum(q, RunningOn(g)) }

  function Occupied(slots: seq<int>): nat {
    if slots == [] then 0 else Occupied(slots[..|slots| - 1]) + if slots[|slots| - 1] != -1 then 1 else 0
  }

  ghost predicate SlotOk(slots: seq<int>, q: seq<Workload>, g: nat, k: nat)
    requires k < |slots|
  {
    slots[k] == -1 || (0 <= slots[k] < |q| && RunsOn(q[slots[k]], g))
  }

  ghost predicate Distinct(slots: seq<int>) {
    forall j, k :: 0 <= j < k < |slots| && slots[j] == slots[k] ==> slots[j] == -1
  }

  /** The slots hold exactly the indices of the workloads running on `g`, each once. */
  ghost predicate SlotsAgree(slots: seq<int>, q: seq<Workload>, g: nat) {
    && |slots| == MAX_PER_GPU
    && (forall k: nat :: k < |slots| ==> SlotOk(slots, q, g, k))
    && Distinct(slots)
    && (forall i :: 0 <= i < |q| && RunsOn(q[i], g) ==> i in slots)
  }

  ghost predicate Agrees(s: State) {
    && |s.queue| <= MAX_QUEUES && |s.gpus| == MAX_GPUS && s.gpuCount <= MAX_GPUS
    && forall g: nat :: g < MAX_GPUS ==> SlotsAgree(s.gpus[g].slots, s.queue, g)
  }

  ghost function RunSet(q: seq<Workload>, g: nat): set<int> {
    set i | 0 <= i < |q| && RunsOn(q[i], g)
  }

  ghost function Values(slots: seq<int>): set<int> {
    set v | v in slots && v != -1
  }

  lemma {:induction false} CountIsCard(q: seq<Workload>, g: nat)
    ensures CountRunning(q, g) == |RunSet(q, g)|
  {
    if q == [] {
      assert RunSet(q, g) == {};
    } else {
      var n := |q| - 1;
      CountIsCard(q[..n], g);
      assert RunSet(q, g) == RunSet(q[..n], g) + if RunsOn(q[n], g) then {n} else {};
    }
  }

  lemma {:induction false} OccupiedIsCard(slots: seq<int>)
    requires Distinct(slots)
    ensures Occupied(slots) == |Values(slots)|
  {
    if slots == [] {
      assert Values(slots) == {};
    } else {
      var n := |slots| - 1;
      OccupiedIsCard(slots[..n]);
      assert slots == slots[..n] + [slots[n]];
      assert Values(slots) == Values(slots[..n]) + if slots[n] != -1 then {slots[n]} else {};
      assert slots[n] != -1 ==> slots[n] !in Values(slots[..n]);
    }
  }

  lemma {:induction false} OccupiedBound(slots: seq<int>)
    ensures Occupied(slots) <= |slots|
    ensures Occupied(slots) == |slots| <==> -1 !in slots
  {
    if slots == [] {
    } else {
      OccupiedBound(slots[..|slots| - 1]);
      assert slots == slots[..|slots| - 1] + [slots[|slots| - 1]];
    }
  }

  /** When slots and queue agree, the number of taken slots is the number of RUNNING workloads
      on that GPU, at most four; and a slot is free iff fewer than four run. */
  lemma SlotsCountRunning(slots: seq<int>, q: seq<Workload>, g: nat)
    requires SlotsAgree(slots, q, g)
    ensures Occupied(slots) == CountRunning(q, g) <= MAX_PER_GPU
    ensures -1 in slots <==> CountRunning(q, g) < MAX_PER_GPU
  {
    CountIsCard(q, g);
    OccupiedIsCard(slots);
    OccupiedBound(slots);
    forall v | v in Values(slots)
      ensures v in RunSet(q, g)
    {
      var k: nat :| k < |slots| && slots[k] == v;
      assert SlotOk(slots, q, g, k);
    }
    assert Values(slots) == RunSet(q, g);
  }

  /** The agreement depends only on which workloads run on `g`. */
  lemma SameRunning(slots: seq<int>, q: seq<Workload>, q': seq<Workload>, g: nat)
    requires SlotsAgree(slots, q, g) && |q| <= |q'|
    requires forall i :: 0 <= i < |q'| ==> (RunsOn(q'[i], g) <==> i < |q| && RunsOn(q[i], g))
    ensures SlotsAgree(slots, q', g)
  {
    forall k: nat | k < |slots|
      ensures SlotOk(slots, q', g, k)
    {
      assert SlotOk(slots, q, g, k);
    }
  }

  lemma StartRunning(slots: seq<int>, q: seq<Workload>, i: nat, w: Workload, g: nat)
    requires SlotsAgree(slots, q, g) && i < |q| && !RunsOn(q[i], g) && RunsOn(w, g)
    requires CountRunning(q, g) < MAX_PER_GPU
    ensures SlotsAgree(Replace(slots, -1, i), q[i := w], g)
  {
    SlotsCountRunning(slots, q, g);
    var q', slots' := q[i := w], Replace(slots, -1, i);
    var f := IndexOf(slots, -1);
    assert f < |slots|;
    forall k: nat | k < |slots'|
      ensures SlotOk(slots', q', g, k) && (k != f ==> slots'[k] != i)
    {
      assert SlotOk(slots, q, g, k);
    }
    forall j | 0 <= j < |q'| && RunsOn(q'[j], g)
      ensures j in slots'
    {
      if j == i {
        assert slots'[f] == i;
      } else {
        var k :| 0 <= k < |slots| && slots[k] == j;
        assert slots'[k] == j;
      }
    }
  }

  lemma StopRunning(slots: seq<int>, q: seq<Workload>, i: nat, w: Workload, g: nat)
    requires SlotsAgree(slots, q, g) && i < |q| && !RunsOn(w, g)
    ensures SlotsAgree(Replace(slots, i, -1), q[i := w], g)
  {
    var q', slots' := q[i := w], Replace(slots, i, -1);
    var f := IndexOf(slots, i);
    forall k: nat | k < |slots'|
      ensures SlotOk(slots', q', g, k)
    {
      assert SlotOk(slots, q, g, k);
      if f == |slots| {
        assert slots[..f] == slots;
      }
    }
    forall j | 0 <= j < |q'| && RunsOn(q'[j], g)
      ensures j in slots'
    {
      var k :| 0 <= k < |slots| && slots[k] == j;
      assert slots'[k] == j;
    }
  }

  // ----- choosing -----

  predicate Eligible(q: seq<Workload>, i: nat)
    requires i < |q|
  {
    && (q[i].state == Queued || q[i].state == Preempted)
    && (q[i].gpu < MAX_GPUS ==> CountRunning(q, q[i].gpu) < MAX_PER_GPU)
  }

  predicate Better(a: Workload, b: Workload) {
    a.priority > b.priority || (a.priority == b.priority && a.tick < b.tick)
  }

  /** `i` is the eligible workload of highest priority, then earliest tick, then lowest index,
      among the first `n`. */
  ghost predicate IsBest(q: seq<Workload>, n: nat, i: nat)
    requires n <= |q|
  {
    && i < n && Eligible(q, i)
    && forall j: nat :: j < n && Eligible(q, j) ==> j == i || Better(q[i], q[j]) || (!Better(q[j], q[i]) && i < j)
  }

  ghost predicate IsChoice(q: seq<Workload>, n: nat, r: Option<nat>)
    requires n <= |q|
  {
    if r.Some? then IsBest(q, n, r.value) else forall j: nat :: j < n ==> !Eligible(q, j)
  }

  function Best(q: seq<Workload>, n: nat): (r: Option<nat>)
    requires n <= |q|
    ensures IsChoice(q, n, r)
  {
    if n == 0 then None
    else
      var b := Best(q, n - 1);
      if Eligible(q, n - 1) && (b == None || Better(q[n - 1], q[b.value])) then Some(n - 1) else b
  }

  /** Only one workload can be the choice. */
  lemma ChoiceIsUnique(q: seq<Workload>, n: nat, a: Option<nat>, b: Option<nat>)
    requires n <= |q| && IsChoice(q, n, a) && IsChoice(q, n, b)
    ensures a == b
  {
  }

  /** In full: the choice waits or was preempted, its device (if there can be one) runs fewer than
      four, and no other such workload has a higher priority, or the same and an earlier tick, or
      the same of both and a lower index. */
  lemma ChoiceMeans(q: seq<Workload>, i: nat, j: nat)
    requires Best(q, |q|) == Some(i) && i < |q| && j < |q| && j != i
    ensures q[i].state in {Queued, Preempted} && (CountRunning(q, q[i].gpu) < 4 || q[i].gpu >= 4)
    ensures q[j].state in {Queued, Preempted} && (CountRunning(q, q[j].gpu) < 4 || q[j].gpu >= 4) ==>
      var a, b := q[i], q[j];
      a.priority > b.priority || (a.priority == b.priority && (a.tick < b.tick || (a.tick == b.tick && i < j)))
  {
    assert Eligible(q, j) ==> j == i || Better(q[i], q[j]) || (!Better(q[j], q[i]) && i < j);
  }

  // ----- the steps -----

  function WithGpu(s: State, g: nat, slots: seq<int>): State
    requires g < |s.gpus|
  {
    s.(gpus := s.gpus[g := s.gpus[g].(slots := slots)])
  }

  function Started(s: State, i: nat): State
    requires i < |s.queue| && |s.gpus| == MAX_GPUS
  {
    var g := s.queue[i].gpu;
    var s' := s.(queue := s.queue[i := s.queue[i].(state := Running)]);
    if g < MAX_GPUS then WithGpu(s', g, Replace(s.gpus[g].slots, -1, i)) else s'
  }

  function Stopped(s: State, i: nat, status: Status): State
    requires i < |s.queue| && |s.gpus| == MAX_GPUS
  {
    var g := s.queue[i].gpu;
    var s' := s.(queue := s.queue[i := s.queue[i].(state := status)]);
    if g < MAX_GPUS then WithGpu(s', g, Replace(s.gpus[g].slots, i, -1)) else s'
  }

  function Counted(s: State, i: nat): State
    requires i < |s.queue| && |s.gpus| == MAX_GPUS
  {
    var g := s.queue[i].gpu;
    if g < MAX_GPUS
    then s.(gpus := s.gpus[g := s.gpus[g].(opsCompleted := s.gpus[g].opsCompleted + s.queue[i].opsDone)])
    else s
  }

  predicate HasPending(q: seq<Workload>, i: nat, n: nat)
    requires i < |q| && n <= |q|
  {
    exists j: nat :: j < n && j != i && q[j].state == Queued && q[j].gpu == q[i].gpu
  }

  /** Workload `i` runs, has used up its time slice, and another is queued for its GPU. */
  predicate Expired(q: seq<Workload>, i: nat)
    requires i < |q|
  {
    q[i].state == Running && q[i].opsDone >= TIME_QUANTUM_OPS && HasPending(q, i, |q|)
  }

  function Sweep(s: State, n: nat): (r: State)
    requires n <= |s.queue| && |s.gpus| == MAX_GPUS
    ensures |r.queue| == |s.queue| && |r.gpus| == MAX_GPUS
  {
    if n == 0 then s
    else
      var t := Sweep(s, n - 1);
      if Expired(t.queue, n - 1) then Stopped(t, n - 1, Preempted) else t
  }

  function Fresh(pid: nat, gpu: nat, priority: nat, batch: nat, tick: nat): Workload {
    Workload(pid, gpu, if priority < PRIO_REALTIME then priority else PRIO_REALTIME, Queued, batch, 0, tick)
  }

  function Apply(s: State, op: Op): State
    requires |s.gpus| == MAX_GPUS && |s.queue| <= MAX_QUEUES
  {
    match op
    case Register =>
      if s.gpuCount >= MAX_GPUS then s
      else State(s.queue, s.gpus[s.gpuCount := Device(true, [-1, -1, -1, -1], 0)], s.gpuCount + 1)
    case Submit(pid, gpu, priority, batch, tick) =>
      if |s.queue| >= MAX_QUEUES then s else s.(queue := s.queue + [Fresh(pid, gpu, priority, batch, tick)])
    case Schedule =>
      var b := Best(s.queue, |s.queue|);
      if b == None then s else Started(s, b.value)
    case Complete(id, ok) =>
      if id >= |s.queue| then s else Counted(Stopped(s, id, if ok then Completed else Failed), id)
    case Preempt(id) =>
      if id >= |s.queue| || s.queue[id].state != Running then s else Stopped(s, id, Preempted)
    case CheckPreemption => Sweep(s, |s.queue|)
    case Advance(id, ops) =>
      if id >= |s.queue| || s.queue[id].state != Running then s
      else s.(queue := s.queue[id := s.queue[id].(opsDone := s.queue[id].opsDone + ops)])
  }

  // ----- agreement over whole runs -----

  lemma StartedAgrees(s: State, i: nat)
    requires Agrees(s) && i < |s.queue| && Eligible(s.queue, i)
    ensures Agrees(Started(s, i))
  {
    var s' := Started(s, i);
    forall g: nat | g < MAX_GPUS
      ensures SlotsAgree(s'.gpus[g].slots, s'.queue, g)
    {
      if g == s.queue[i].gpu {
        StartRunning(s.gpus[g].slots, s.queue, i, s'.queue[i], g);
      } else {
        SameRunning(s.gpus[g].slots, s.queue, s'.queue, g);
      }
    }
  }

  lemma StoppedAgrees(s: State, i: nat, status: Status)
    requires Agrees(s) && i < |s.queue| && status != Running
    ensures Agrees(Stopped(s, i, status))
  {
    var s' := Stopped(s, i, status);
    forall g: nat | g < MAX_GPUS
      ensures SlotsAgree(s'.gpus[g].slots, s'.queue, g)
    {
      if g == s.queue[i].gpu {
        StopRunning(s.gpus[g].slots, s.queue, i, s'.queue[i], g);
      } else {
        SameRunning(s.gpus[g].slots, s.queue, s'.queue, g);
      }
    }
  }

  lemma {:induction false} SweepAgrees(s: State, n: nat)
    requires Agrees(s) && n <= |s.queue|
    ensures Agrees(Sweep(s, n))
  {
    if n == 0 {
    } else {
      SweepAgrees(s, n - 1);
      if Expired(Sweep(s, n - 1).queue, n - 1) {
        StoppedAgrees(Sweep(s, n - 1), n - 1, Preempted);
      }
    }
  }

  lemma QueueOnlyAgrees(s: State, q': seq<Workload>)
    requires Agrees(s) && |s.queue| <= |q'| <= MAX_QUEUES
    requires forall i :: 0 <= i < |q'| ==>
      (q'[i].state == Running <==> i < |s.queue| && s.queue[i].state == Running)
    requires forall i :: 0 <= i < |s.queue| ==> q'[i].gpu == s.queue[i].gpu
    ensures Agrees(s.(queue := q'))
  {
    forall g: nat | g < MAX_GPUS
      ensures SlotsAgree(s.gpus[g].slots, q', g)
    {
      SameRunning(s.gpus[g].slots, s.queue, q', g);
    }
  }

  /** Registering a device wipes its slots: agreement survives iff the table is full, or no
      workload is already running on the new device's id. */
  lemma RegisterAgreesIff(s: State)
    requires Agrees(s)
    ensures Agrees(Apply(s, Register)) <==> s.gpuCount >= MAX_GPUS || CountRunning(s.queue, s.gpuCount) == 0
  {
    if s.gpuCount < MAX_GPUS {
      var s' := Apply(s, Register);
      var g := s.gpuCount;
      CountIsCard(s.queue, g);
      assert s'.gpus[g].slots == [-1, -1, -1, -1];
      if CountRunning(s.queue, g) == 0 {
        assert RunSet(s.queue, g) == {};
        forall h: nat | h < MAX_GPUS
          ensures SlotsAgree(s'.gpus[h].slots, s.queue, h)
        {
          if h == g {
            assert forall i :: 0 <= i < |s.queue| && RunsOn(s.queue[i], g) ==> i in RunSet(s.queue, g);
          }
        }
      } else {
        var i :| i in RunSet(s.queue, g);
        assert i !in s'.gpus[g].slots;
        assert !SlotsAgree(s'.gpus[g].slots, s.queue, g);
      }
    }
  }

  lemma ApplyKeepsAgreement(s: State, op: Op)
    requires Agrees(s)
    requires op == Register ==> s.gpuCount >= MAX_GPUS || CountRunning(s.queue, s.gpuCount) == 0
    ensures Agrees(Apply(s, op))
  {
    match op
    case Register => RegisterAgreesIff(s);
    case Submit(pid, gpu, priority, batch, tick) =>
      if |s.queue| < MAX_QUEUES { QueueOnlyAgrees(s, Apply(s, op).queue); }
    case Schedule =>
      var b := Best(s.queue, |s.queue|);
      if b.Some? { StartedAgrees(s, b.value); }
    case Complete(id, ok) =>
      if id < |s.queue| { StoppedAgrees(s, id, if ok then Completed else Failed); }
    case Preempt(id) =>
      if id < |s.queue| { StoppedAgrees(s, id, Preempted); }
    case CheckPreemption => SweepAgrees(s, |s.queue|);
    case Advance(id, ops) =>
      if id < |s.queue| { QueueOnlyAgrees(s, Apply(s, op).queue); }
  }

  function After(s: State, ops: seq<Op>): State
    requires |s.gpus| == MAX_GPUS && |s.queue| <= MAX_QUEUES
    decreases |ops|
  {
    if ops == [] then s else
      assert |Apply(s, ops[0]).gpus| == MAX_GPUS && |Apply(s, ops[0]).queue| <= MAX_QUEUES;
      After(Apply(s, ops[0]), ops[1..])
  }

  /** Devices are registered before use: no workload runs on an id when it is registered. */
  ghost predicate RegisteredBeforeUse(s: State, ops: seq<Op>)
    requires |s.gpus| == MAX_GPUS && |s.queue| <= MAX_QUEUES
    decreases |ops|
  {
    ops == [] ||
    (&& (ops[0] == Register ==> s.gpuCount >= MAX_GPUS || CountRunning(s.queue, s.gpuCount) == 0)
     && RegisteredBeforeUse(Apply(s, ops[0]), ops[1..]))
  }

  function Boot(): State {
    State([], seq(MAX_GPUS, _ => Device(false, [-1, -1, -1, -1], 0)), 0)
  }

  /** In every state of every run, each GPU id has at most four RUNNING workloads, and its
      slots hold exactly their indices, each once. */
  lemma {:induction false} RunsStayInAgreement(s: State, ops: seq<Op>, g: nat)
    requires Agrees(s) && RegisteredBeforeUse(s, ops) && g < MAX_GPUS
    ensures Agrees(After(s, ops))
    ensures CountRunning(After(s, ops).queue, g) == Occupied(After(s, ops).gpus[g].slots) <= MAX_PER_GPU
    decreases |ops|
  {
    if ops == [] {
      SlotsCountRunning(s.gpus[g].slots, s.queue, g);
    } else {
      ApplyKeepsAgreement(s, ops[0]);
      RunsStayInAgreement(Apply(s, ops[0]), ops[1..], g);
    }
  }

  // ----- the limit holds even when slots were wiped -----

  ghost predicate AtMostFour(q: seq<Workload>) {
    forall g: nat :: g < MAX_GPUS ==> CountRunning(q, g) <= MAX_PER_GPU
  }

  lemma {:induction false} SweepKeepsLimit(s: State, n: nat)
    requires n <= |s.queue| && |s.gpus| == MAX_GPUS && AtMostFour(s.queue)
    ensures AtMostFour(Sweep(s, n).queue)
  {
    if n == 0 {
    } else {
      SweepKeepsLimit(s, n - 1);
      var q := Sweep(s, n - 1).queue;
      forall g: nat | g < MAX_GPUS
        ensures CountRunning(Sweep(s, n).queue, g) <= MAX_PER_GPU
      {
        assert CountRunning(q, g) <= MAX_PER_GPU;
        SumUpdate(q, n - 1, q[n - 1].(state := Preempted), RunningOn(g));
      }
    }
  }

  lemma ApplyKeepsLimit(s: State, op: Op)
    requires |s.gpus| == MAX_GPUS && |s.queue| <= MAX_QUEUES && AtMostFour(s.queue)
    ensures AtMostFour(Apply(s, op).queue)
  {
    var q, q' := s.queue, Apply(s, op).queue;
    if op.CheckPreemption? {
      SweepKeepsLimit(s, |q|);
    } else {
      forall g: nat | g < MAX_GPUS
        ensures CountRunning(q', g) <= MAX_PER_GPU
      {
        assert CountRunning(q, g) <= MAX_PER_GPU;
        if op.Submit? && |q'| > |q| {
          assert q'[..|q|] == q;
        } else if op.Schedule? {
          var b := Best(q, |q|);
          if b.Some? {
            SumUpdate(q, b.value, q[b.value].(state := Running), RunningOn(g));
          }
        } else if (op.Complete? || op.Preempt? || op.Advance?) && op.id < |q| {
          SumUpdate(q, op.id, q'[op.id], RunningOn(g));
        }
      }
    }
  }

  /** Over every run, whenever devices are registered: at most four workloads RUNNING per GPU. */
  lemma {:induction false} RunsKeepLimit(s: State, ops: seq<Op>)
    requires |s.gpus| == MAX_GPUS && |s.queue| <= MAX_QUEUES && AtMostFour(s.queue)
    ensures AtMostFour(After(s, ops).queue)
    decreases |ops|
  {
    if ops == [] {
    } else {
      ApplyKeepsLimit(s, ops[0]);
      RunsKeepLimit(Apply(s, ops[0]), ops[1..]);
    }
  }

  lemma BootAgrees()
    ensures Agrees(Boot()) && AtMostFour(Boot().queue)
  {
  }

  /** The preemption scan changes the table while it walks it, yet has the effect of preempting
      all expired workloads at once. */
  lemma {:induction false} SweepIsSimultaneous(s: State, n: nat, i: nat)
    requires n <= |s.queue| && |s.gpus| == MAX_GPUS && i < |s.queue|
    ensures Sweep(s, n).queue[i] ==
      if i < n && Expired(s.queue, i) then s.queue[i].(state := Preempted) else s.queue[i]
  {
    if n == 0 {
    } else {
      SweepIsSimultaneous(s, n - 1, i);
      if i == n - 1 {
        SweepKeepsPending(s, n - 1, i);
      }
    }
  }

  lemma SweepKeepsPending(s: State, n: nat, i: nat)
    requires n <= |s.queue| && |s.gpus| == MAX_GPUS && i < |s.queue|
    ensures HasPending(Sweep(s, n).queue, i, |s.queue|) == HasPending(s.queue, i, |s.queue|)
  {
    var t := Sweep(s, n);
    forall j: nat | j < |s.queue|
      ensures t.queue[j].gpu == s.queue[j].gpu && (t.queue[j].state == Queued <==> s.queue[j].state == Queued)
    {
      SweepKeepsQueued(s, n, j);
    }
  }

  lemma {:induction false} SweepKeepsQueued(s: State, n: nat, j: nat)
    requires n <= |s.queue| && |s.gpus| == MAX_GPUS && j < |s.queue|
    ensures Sweep(s, n).queue[j].gpu == s.queue[j].gpu
    ensures Sweep(s, n).queue[j].state == Queued <==> s.queue[j].state == Queued
  {
    if n == 0 {
    } else {
      SweepKeepsQueued(s, n - 1, j);
    }
  }

  // ----- what a step does to a workload and to a device -----

  /** The state a step leaves workload `i` in: completed or failed as reported, preempted if it
      ran, running if it was chosen, and else what it was. */
  function StatusAfter(s: State, op: Op, i: nat): Status
    requires i < |s.queue|
  {
    match op
    case Complete(id, ok) => if id == i then if ok then Completed else Failed else s.queue[i].state
    case Preempt(id) => if id == i && s.queue[i].state == Running then Preempted else s.queue[i].state
    case CheckPreemption => if Expired(s.queue, i) then Preempted else s.queue[i].state
    case Schedule => if Best(s.queue, |s.queue|) == Some(i) then Running else s.queue[i].state
    case _ => s.queue[i].state
  }

  /** Of a workload a step changes the state, as above, and the operations done, by an advance
      while it runs; nothing else. */
  lemma WorkloadStep(s: State, op: Op, i: nat)
    requires |s.gpus| == MAX_GPUS && |s.queue| <= MAX_QUEUES && i < |s.queue|
    ensures var w, q' := s.queue[i], Apply(s, op).queue;
      && |s.queue| <= |q'|
      && q'[i] == w.(state := StatusAfter(s, op, i),
                     opsDone := w.opsDone + if op.Advance? && op.id == i && w.state == Running then op.ops else 0)
  {
    if op.CheckPreemption? {
      SweepIsSimultaneous(s, |s.queue|, i);
    }
  }

  /** In full: the scan preempts a workload iff it runs, has done at least 1000 operations, and
      another one waits for the same device. */
  lemma PreemptedIff(s: State, i: nat)
    requires |s.gpus| == MAX_GPUS && |s.queue| <= MAX_QUEUES && i < |s.queue|
    ensures Apply(s, CheckPreemption).queue[i] != s.queue[i] <==>
      && s.queue[i].state == Running && s.queue[i].opsDone >= 1000
      && exists j: nat :: j < |s.queue| && j != i && s.queue[j].state == Queued && s.queue[j].gpu == s.queue[i].gpu
  {
    SweepIsSimultaneous(s, |s.queue|, i);
  }

  /** A registered device is active, has four free slots and has completed nothing. */
  lemma RegisterIs(s: State)
    requires |s.gpus| == MAX_GPUS && |s.queue| <= MAX_QUEUES && s.gpuCount < MAX_GPUS
    ensures var s' := Apply(s, Register);
      && s'.gpuCount == s.gpuCount + 1 && s'.queue == s.queue
      && s'.gpus[s.gpuCount] == Device(true, [-1, -1, -1, -1], 0)
  {
  }

  /** A new workload waits at the end of the queue with nothing done and its priority clamped. */
  lemma SubmitQueues(s: State, op: Op)
    requires |s.gpus| == MAX_GPUS && |s.queue| < MAX_QUEUES && op.Submit?
    ensures var q' := Apply(s, op).queue;
      && |q'| == |s.queue| + 1
      && q'[|s.queue|] == Workload(op.pid, op.gpu, Min(op.priority, 3), Queued, op.batch, 0, op.tick)
  {
  }

  lemma {:induction false} SweepKeepsCounts(s: State, n: nat, g: nat)
    requires n <= |s.queue| && |s.gpus| == MAX_GPUS && g < MAX_GPUS
    ensures Sweep(s, n).gpus[g] == s.gpus[g].(slots := Sweep(s, n).gpus[g].slots)
  {
    if n > 0 {
      SweepKeepsCounts(s, n - 1, g);
    }
  }

  /** A device's count goes up by what a workload of its has done when that one completes or
      fails, and only then; apart from registering, nothing else of it but the slots changes. */
  lemma DeviceStep(s: State, op: Op, g: nat)
    requires |s.gpus| == MAX_GPUS && |s.queue| <= MAX_QUEUES && g < MAX_GPUS
    requires op == Register ==> s.gpuCount >= MAX_GPUS || g != s.gpuCount
    ensures var d, s' := s.gpus[g], Apply(s, op);
      && |s'.gpus| == MAX_GPUS
      && s'.gpus[g] == d.(slots := s'.gpus[g].slots,
           opsCompleted := d.opsCompleted +
             if op.Complete? && op.id < |s.queue| && s.queue[op.id].gpu == g then s.queue[op.id].opsDone else 0)
  {
    if op.CheckPreemption? {
      SweepKeepsCounts(s, |s.queue|, g);
    }
  }

  /** Over every run a workload keeps its owner, device, priority, batch and tick, and its
      operations never go down. */
  lemma {:induction false} RunsKeepIdentity(s: State, ops: seq<Op>, i: nat)
    requires |s.gpus| == MAX_GPUS && |s.queue| <= MAX_QUEUES && i < |s.queue|
    ensures var w, q' := s.queue[i], After(s, ops).queue;
      && |s.queue| <= |q'|
      && q'[i] == w.(state := q'[i].state, opsDone := q'[i].opsDone) && w.opsDone <= q'[i].opsDone
    decreases |ops|
  {
    if ops != [] {
      WorkloadStep(s, ops[0], i);
      RunsKeepIdentity(Apply(s, ops[0]), ops[1..], i);
    }
  }

  function EarlyRun(): seq<Op> { [Submit(7, 0, 1, 1, 0), Schedule] }

  lemma EarlyRunStarts()
    ensures After(Boot(), EarlyRun()) == Started(Apply(Boot(), EarlyRun()[0]), 0)
  {
  }

  /** A workload may be scheduled on an id not yet registered; registering it then leaves the
      workload RUNNING in no slot. */
  lemma LateRegisterWipesSlots()
    ensures var s := After(Boot(), EarlyRun());
      Agrees(s) && s.gpus[0].slots == [0, -1, -1, -1] && !Agrees(Apply(s, Register))
  {
    EarlyRunStarts();
    var s1 := Apply(Boot(), EarlyRun()[0]);
    EarlyRunAgrees(s1);
    EarlyRunIsWiped(Started(s1, 0));
  }

  lemma EarlyRunAgrees(s1: State)
    requires s1 == Apply(Boot(), EarlyRun()[0])
    ensures Agrees(Started(s1, 0)) && Started(s1, 0).gpus[0].slots == [0, -1, -1, -1]
  {
    ApplyKeepsAgreement(Boot(), EarlyRun()[0]);
    SumOne(s1.queue, RunningOn(0));
    StartedAgrees(s1, 0);
  }

  lemma EarlyRunIsWiped(s: State)
    requires Agrees(s) && |s.queue| == 1 && RunsOn(s.queue[0], 0) && s.gpuCount == 0
    ensures !Agrees(Apply(s, Register))
  {
    SumOne(s.queue, RunningOn(0));
    RegisterAgreesIff(s);
  }

  // ----- the tables -----

  class Tables {
    const queues: array<Workload>
    const devices: array<Device>
    var count: nat
    var gpuCount: nat

    ghost predicate Valid()
      reads this, queues, devices
    {
      && queues.Length == MAX_QUEUES && devices.Length == MAX_GPUS && count <= MAX_QUEUES && gpuCount <= MAX_GPUS
    }

    ghost function View(): State
      requires Valid()
      reads this, queues, devices
    {
      State(queues[..count], devices[..], gpuCount)
    }

    constructor ()
      ensures Valid() && fresh(queues) && fresh(devices)
      ensures View() == Boot()
    {
      queues := new Workload[MAX_QUEUES](_ => Workload(0, 0, 0, Queued, 0, 0, 0));
      devices := new Device[MAX_GPUS](_ => Device(false, [-1, -1, -1, -1], 0));
      count := 0;
      gpuCount := 0;
    }

    method Register() returns (id: Option<nat>)
      requires Valid()
      modifies this, devices
      ensures Valid() && View() == Apply(old(View()), Op.Register)
      ensures id == if old(gpuCount) < MAX_GPUS then Some(old(gpuCount)) else None
    {
      if gpuCount >= MAX_GPUS {
        return None;
      }
      id := Some(gpuCount);
      devices[gpuCount] := Device(true, [-1, -1, -1, -1], 0);
      gpuCount := gpuCount + 1;
    }

    method Submit(pid: nat, gpu: nat, priority: nat, batch: nat, tick: nat) returns (id: Option<nat>)
      requires Valid()
      modifies this, queues
      ensures Valid() && View() == Apply(old(View()), Op.Submit(pid, gpu, priority, batch, tick))
      ensures id == if old(count) < MAX_QUEUES then Some(old(count)) else None
    {
      if count >= MAX_QUEUES {
        return None;
      }
      id := Some(count);
      queues[count] := Fresh(pid, gpu, priority, batch, tick);
      count := count + 1;
    }

    /** Count RUNNING workloads per GPU in one pass. */
    method CountPerGpu() returns (running: seq<nat>)
      requires Valid()
      ensures |running| == MAX_GPUS && forall g: nat :: g < MAX_GPUS ==> running[g] == CountRunning(queues[..count], g)
    {
      running := [0, 0, 0, 0];
      for i := 0 to count
        invariant |running| == MAX_GPUS
        invariant forall g: nat :: g < MAX_GPUS ==> running[g] == CountRunning(queues[..i], g)
      {
        assert queues[..i + 1][..i] == queues[..i];
        var w := queues[i];
        if w.state == Running && w.gpu < MAX_GPUS {
          running := running[w.gpu := running[w.gpu] + 1];
        }
      }
    }

    method Pick(running: seq<nat>) returns (best: Option<nat>)
      requires Valid()
      requires |running| == MAX_GPUS && forall g: nat :: g < MAX_GPUS ==> running[g] == CountRunning(queues[..count], g)
      ensures best == Best(queues[..count], count) && IsChoice(queues[..count], count, best)
    {
      best := None;
      ghost var q := queues[..count];
      for i := 0 to count
        invariant best == Best(q, i)
      {
        var w := queues[i];
        assert w == q[i];
        if w.state != Queued && w.state != Preempted {
          continue;
        }
        if w.gpu < MAX_GPUS && running[w.gpu] >= MAX_PER_GPU {
          continue;
        }
        if best == None || w.priority > queues[best.value].priority
           || (w.priority == queues[best.value].priority && w.tick < queues[best.value].tick) {
          best := Some(i);
        }
      }
    }

    /** Overwrite the first slot of device `g` that holds `v`. */
    method ReplaceSlot(g: nat, v: int, w: int)
      requires Valid() && g < MAX_GPUS
      modifies devices
      ensures devices[..] == old(devices[..])[g := old(devices[g]).(slots := Replace(old(devices[g].slots), v, w))]
    {
      var slots := devices[g].slots;
      var k := 0;
      while k < |slots| && slots[k] != v
        invariant 0 <= k <= |slots| && v !in slots[..k]
      {
        k := k + 1;
      }
      FirstIsIndex(slots, v, k);
      if k < |slots| {
        devices[g] := devices[g].(slots := slots[k := w]);
      }
    }

    method Schedule() returns (best: Option<nat>)
      requires Valid()
      modifies this, queues, devices
      ensures Valid() && View() == Apply(old(View()), Op.Schedule)
      ensures IsChoice(old(View()).queue, old(count), best)
    {
      var running := CountPerGpu();
      best := Pick(running);
      if best.Some? {
        var i := best.value;
        queues[i] := queues[i].(state := Running);
        if queues[i].gpu < MAX_GPUS {
          ReplaceSlot(queues[i].gpu, -1, i);
        }
      }
    }

    method Complete(id: nat, ok: bool) returns (r: bool)
      requires Valid()
      modifies this, queues, devices
      ensures Valid() && View() == Apply(old(View()), Op.Complete(id, ok))
      ensures r == (id < old(count))
    {
      if id >= count {
        return false;
      }
      queues[id] := queues[id].(state := if ok then Completed else Failed);
      var g := queues[id].gpu;
      if g < MAX_GPUS {
        ReplaceSlot(g, id, -1);
      }
      if g < MAX_GPUS {
        devices[g] := devices[g].(opsCompleted := devices[g].opsCompleted + queues[id].opsDone);
      }
      return true;
    }

    method Preempt(id: nat) returns (r: bool)
      requires Valid()
      modifies this, queues, devices
      ensures Valid() && count == old(count) && gpuCount == old(gpuCount)
      ensures View() == Apply(old(View()), Op.Preempt(id))
      ensures r == (id < old(count) && old(queues[..])[id].state == Running)
    {
      if id >= count || queues[id].state != Running {
        return false;
      }
      queues[id] := queues[id].(state := Preempted);
      if queues[id].gpu < MAX_GPUS {
        ReplaceSlot(queues[id].gpu, id, -1);
      }
      return true;
    }

    method Pending(i: nat) returns (b: bool)
      requires Valid() && i < count
      ensures b == HasPending(queues[..count], i, count)
    {
      ghost var q := queues[..count];
      for j := 0 to count
        invariant !HasPending(q, i, j)
      {
        assert queues[j] == q[j];
        if j != i && queues[j].state == Queued && queues[j].gpu == queues[i].gpu {
          return true;
        }
      }
      return false;
    }

    method CheckPreemption()
      requires Valid()
      modifies this, queues, devices
      ensures Valid() && View() == Apply(old(View()), Op.CheckPreemption)
    {
      ghost var s := View();
      var n := count;
      for i := 0 to n
        invariant Valid() && count == n
        invariant View() == Sweep(s, i)
      {
        if queues[i].state == Running && queues[i].opsDone >= TIME_QUANTUM_OPS {
          var pending := Pending(i);
          if pending {
            var _ := Preempt(i);
          }
        }
      }
    }

    method ActiveWorkloads(gpu: nat) returns (n: nat)
      requires Valid()
      ensures n == if gpu < gpuCount && devices[gpu].active then CountRunning(queues[..count], gpu) else 0
      ensures Agrees(View()) && gpu < gpuCount && devices[gpu].active ==> n == Occupied(devices[gpu].slots) <= MAX_PER_GPU
    {
      if gpu >= gpuCount || !devices[gpu].active {
        return 0;
      }
      n := 0;
      for i := 0 to count
        invariant n == CountRunning(queues[..i], gpu)
      {
        assert queues[..i + 1][..i] == queues[..i];
        if queues[i].state == Running && queues[i].gpu == gpu {
          n := n + 1;
        }
      }
      if gpu < MAX_GPUS {
        SlotsCountIf(View(), gpu);
      }
    }

    method AdvanceOps(id: nat, ops: nat)
      requires Valid()
      modifies queues
      ensures Valid() && View() == Apply(old(View()), Advance(id, ops))
    {
      if id < count && queues[id].state == Running {
        queues[id] := queues[id].(opsDone := queues[id].opsDone + ops);
      }
    }
  }

  lemma FirstIsIndex(slots: seq<int>, v: int, k: nat)
    requires k <= |slots| && v !in slots[..k] && (k < |slots| ==> slots[k] == v)
    ensures k == IndexOf(slots, v)
  {
  }

  lemma SlotsCountIf(s: State, g: nat)
    requires |s.gpus| == MAX_GPUS && g < MAX_GPUS
    ensures Agrees(s) ==> Occupied(s.gpus[g].slots) == CountRunning(s.queue, g) <= MAX_PER_GPU
  {
    if Agrees(s) {
      SlotsCountRunning(s.gpus[g].slots, s.queue, g);
    }
  }
}
