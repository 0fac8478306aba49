/** The deadline I/O scheduler: two ring buffers with deadlines and a starvation counter. */
module DeadlineScheduler {
  import opened Basics

  datatype BlockRequest = BlockRequest(sector: nat, count: nat, buf: nat, write: bool)

  const SCHED_MAX: nat := 256
  const READ_DEADLINE_TICKS: nat := 50
  const WRITE_DEADLINE_TICKS: nat := 500
  const STARVE_LIMIT: nat := 16

  // ----- the scheduler as a state machine -----

  datatype Entry = Entry(req: BlockRequest, deadline: nat)

  datatype State = State(readQ: seq<Entry>, writeQ: seq<Entry>, starve: nat)

  datatype Op = Enqueue(req: BlockRequest, now: nat) | Dequeue(now: nat)

  /** A full queue refuses silently. */
  function Put(q: seq<Entry>, e: Entry): seq<Entry> {
    if |q| < SCHED_MAX then q + [e] else q
  }

  function AfterEnqueue(s: State, req: BlockRequest, now: nat): State {
    if req.write then s.(writeQ := Put(s.writeQ, Entry(req, now + WRITE_DEADLINE_TICKS)))
    else s.(readQ := Put(s.readQ, Entry(req, now + READ_DEADLINE_TICKS)))
  }

  /** The index of the first expired entry, or the length if there is none. */
  function FirstExpired(q: seq<Entry>, now: nat): (i: nat)
    ensures i <= |q| && (i < |q| ==> now >= q[i].deadline)
    ensures forall k :: 0 <= k < i ==> now < q[k].deadline
  {
    if q == [] then 0
    else if now >= q[0].deadline then 0
    else 1 + FirstExpired(q[1..], now)
  }

  /** Where the next request comes from. `at` is its index; everything before it in the same
      queue goes as well. */
  datatype Choice = Nothing | Read(at: nat, starve: nat) | Write(at: nat)

  function Choose(s: State, now: nat): (c: Choice)
    ensures InRange(s, c)
  {
    var i := FirstExpired(s.readQ, now);
    var j := FirstExpired(s.writeQ, now);
    if i < |s.readQ| then Read(i, 0)
    else if j < |s.writeQ| then Write(j)
    else if s.readQ != [] then
      if s.starve >= STARVE_LIMIT && s.writeQ != [] then Write(0) else Read(0, s.starve + 1)
    else if s.writeQ != [] then Write(0)
    else Nothing
  }

  predicate InRange(s: State, c: Choice) {
    (c.Read? ==> c.at < |s.readQ|) && (c.Write? ==> c.at < |s.writeQ|)
  }

  function Taken(s: State, c: Choice): State
    requires InRange(s, c)
  {
    match c
    case Nothing => s
    case Read(at, starve) => State(s.readQ[at + 1..], s.writeQ, starve)
    case Write(at) => State(s.readQ, s.writeQ[at + 1..], 0)
  }

  function RequestAt(s: State, c: Choice): Option<BlockRequest>
    requires InRange(s, c)
  {
    match c
    case Nothing => None
    case Read(at, _) => Some(s.readQ[at].req)
    case Write(at) => Some(s.writeQ[at].req)
  }

  function AfterDequeue(s: State, now: nat): State { Taken(s, Choose(s, now)) }

  function Dispatched(s: State, now: nat): Option<BlockRequest> { RequestAt(s, Choose(s, now)) }

  function After(s: State, op: Op): State {
    match op
    case Enqueue(req, now) => AfterEnqueue(s, req, now)
    case Dequeue(now) => AfterDequeue(s, now)
  }

  function Count(s: State): nat { |s.readQ| + |s.writeQ| }

  // ----- when a dequeue loses requests -----

  /** The expiry scan skips over unexpired entries and drops them. A dequeue loses nothing if
      and only if whichever queue the scan stops in, it stops at the head. */
  lemma DequeueLosesNothingIff(s: State, now: nat)
    ensures Count(s) == Count(AfterDequeue(s, now)) + (if Dispatched(s, now) == None then 0 else 1)
            <==> if exists e :: e in s.readQ && now >= e.deadline then now >= s.readQ[0].deadline
                 else (exists e :: e in s.writeQ && now >= e.deadline) ==> now >= s.writeQ[0].deadline
  {
  }

  /** With ticks that go back it happens: a read due at tick 60 is dropped to reach one due
      at 50. */
  lemma BackwardTicksLoseARead(a: BlockRequest, b: BlockRequest)
    requires !a.write && !b.write
    ensures var s := AfterEnqueue(AfterEnqueue(State([], [], 0), a, 10), b, 0);
      Count(s) == 2 && Dispatched(s, 50) == Some(b) && Count(AfterDequeue(s, 50)) == 0
  {
    var s := AfterEnqueue(AfterEnqueue(State([], [], 0), a, 10), b, 0);
    assert s.readQ == [Entry(a, 60), Entry(b, 50)];
    assert FirstExpired(s.readQ, 50) == 1 + FirstExpired(s.readQ[1..], 50);
  }

  // ----- whole runs -----

  ghost predicate Sorted(q: seq<Entry>) {
    forall i, j :: 0 <= i < j < |q| ==> q[i].deadline <= q[j].deadline
  }

  /** A run and its history: the entries accepted and taken out, by direction, and the requests
      the dequeues returned. */
  datatype History = History(s: State, last: nat, inReads: seq<Entry>, inWrites: seq<Entry>,
                             outReads: seq<Entry>, outWrites: seq<Entry>, returned: seq<BlockRequest>)

  /** What a queue takes of an offered entry. */
  function Accepted(q: seq<Entry>, e: Entry): seq<Entry> {
    if |q| < SCHED_MAX then [e] else []
  }

  function Step(h: History, op: Op): History {
    match op
    case Enqueue(req, now) =>
      var s' := AfterEnqueue(h.s, req, now);
      if req.write
      then h.(s := s', last := now, inWrites := h.inWrites + Accepted(h.s.writeQ, Entry(req, now + WRITE_DEADLINE_TICKS)))
      else h.(s := s', last := now, inReads := h.inReads + Accepted(h.s.readQ, Entry(req, now + READ_DEADLINE_TICKS)))
    case Dequeue(now) =>
      var r := Dispatched(h.s, now);
      Recorded(h, Choose(h.s, now)).(returned := if r == None then h.returned else h.returned + [r.value])
  }

  function Recorded(h: History, c: Choice): History
    requires InRange(h.s, c)
  {
    var s' := Taken(h.s, c);
    match c
    case Nothing => h
    case Read(at, _) => h.(s := s', outReads := h.outReads + [h.s.readQ[at]])
    case Write(at) => h.(s := s', outWrites := h.outWrites + [h.s.writeQ[at]])
  }

  function Run(ops: seq<Op>): History {
    if ops == [] then History(State([], [], 0), 0, [], [], [], [], [])
    else Step(Run(ops[..|ops| - 1]), ops[|ops| - 1])
  }

  /** The enqueue ticks of a run never decrease. */
  ghost predicate Monotone(ops: seq<Op>) {
    forall i, j :: 0 <= i < j < |ops| && ops[i].Enqueue? && ops[j].Enqueue? ==> ops[i].now <= ops[j].now
  }

  lemma {:induction false} LastIsAnEnqueueTick(ops: seq<Op>, bound: nat)
    requires forall i :: 0 <= i < |ops| && ops[i].Enqueue? ==> ops[i].now <= bound
    ensures Run(ops).last <= bound
  {
    if ops == [] {
    } else {
      LastIsAnEnqueueTick(ops[..|ops| - 1], bound);
    }
  }

  /** Sorted deadlines, none above `bound`. */
  ghost predicate Timely(q: seq<Entry>, bound: nat) {
    Sorted(q) && forall i :: 0 <= i < |q| ==> q[i].deadline <= bound
  }

  /** Deadlines are sorted and none is beyond what tick `last` could have set. */
  ghost predicate Orderly(s: State, last: nat) {
    Timely(s.readQ, last + READ_DEADLINE_TICKS) && Timely(s.writeQ, last + WRITE_DEADLINE_TICKS)
  }

  /** Nothing lost, nothing duplicated, each direction in first-in-first-out order: what was
      accepted is what was dispatched followed by what is queued. */
  ghost predicate Lossless(h: History) {
    && Orderly(h.s, h.last)
    && h.inReads == h.outReads + h.s.readQ
    && h.inWrites == h.outWrites + h.s.writeQ
  }

  lemma SortedStopsAtHead(q: seq<Entry>, now: nat)
    requires Sorted(q)
    ensures FirstExpired(q, now) == 0 || FirstExpired(q, now) == |q|
  {
  }

  /** With sorted queues the choice is always the head. */
  lemma ChoiceIsHead(s: State, now: nat)
    requires Sorted(s.readQ) && Sorted(s.writeQ)
    ensures var c := Choose(s, now); c == Nothing || c.at == 0
  {
  }

  lemma TimelyPut(q: seq<Entry>, bound: nat, e: Entry)
    requires Timely(q, bound) && bound <= e.deadline
    ensures Timely(Put(q, e), e.deadline)
  {
  }

  lemma TimelyDrop(q: seq<Entry>, n: nat, bound: nat, later: nat)
    requires Timely(q, bound) && n <= |q| && bound <= later
    ensures Timely(q[n..], later) && Timely(q, later)
  {
  }

  lemma AppendPut(sent: seq<Entry>, q: seq<Entry>, e: Entry)
    ensures sent + q + Accepted(q, e) == sent + Put(q, e)
  {
  }

  lemma AppendTake(sent: seq<Entry>, q: seq<Entry>)
    requires q != []
    ensures sent + q == sent + [q[0]] + q[1..]
  {
  }

  lemma OrderlyAfter(s: State, last: nat, op: Op)
    requires Orderly(s, last) && (op.Enqueue? ==> last <= op.now)
    ensures Orderly(After(s, op), if op.Enqueue? then op.now else last)
  {
    match op
    case Enqueue(req, now) => OrderlyEnqueue(s, last, req, now);
    case Dequeue(now) => OrderlyTaken(s, last, Choose(s, now));
  }

  lemma OrderlyEnqueue(s: State, last: nat, req: BlockRequest, now: nat)
    requires Orderly(s, last) && last <= now
    ensures Orderly(AfterEnqueue(s, req, now), now)
  {
    if req.write {
      TimelyPut(s.writeQ, last + WRITE_DEADLINE_TICKS, Entry(req, now + WRITE_DEADLINE_TICKS));
      TimelyDrop(s.readQ, 0, last + READ_DEADLINE_TICKS, now + READ_DEADLINE_TICKS);
    } else {
      TimelyPut(s.readQ, last + READ_DEADLINE_TICKS, Entry(req, now + READ_DEADLINE_TICKS));
      TimelyDrop(s.writeQ, 0, last + WRITE_DEADLINE_TICKS, now + WRITE_DEADLINE_TICKS);
    }
  }

  lemma OrderlyTaken(s: State, last: nat, c: Choice)
    requires Orderly(s, last) && InRange(s, c)
    ensures Orderly(Taken(s, c), last)
  {
    if c.Read? {
      TimelyDrop(s.readQ, c.at + 1, last + READ_DEADLINE_TICKS, last + READ_DEADLINE_TICKS);
    } else if c.Write? {
      TimelyDrop(s.writeQ, c.at + 1, last + WRITE_DEADLINE_TICKS, last + WRITE_DEADLINE_TICKS);
    }
  }

  lemma EnqueueKeepsLossless(h: History, req: BlockRequest, now: nat)
    requires Lossless(h) && h.last <= now
    ensures Lossless(Step(h, Enqueue(req, now)))
  {
    OrderlyAfter(h.s, h.last, Enqueue(req, now));
    AppendPut(h.outWrites, h.s.writeQ, Entry(req, now + WRITE_DEADLINE_TICKS));
    AppendPut(h.outReads, h.s.readQ, Entry(req, now + READ_DEADLINE_TICKS));
  }

  lemma DequeueKeepsLossless(h: History, now: nat, c: Choice)
    requires Lossless(h) && c == Choose(h.s, now)
    ensures Lossless(Step(h, Dequeue(now)))
  {
    OrderlyAfter(h.s, h.last, Dequeue(now));
    ChoiceIsHead(h.s, now);
    match c
    case Nothing =>
    case Read(_, _) => AppendTake(h.outReads, h.s.readQ);
    case Write(_) => AppendTake(h.outWrites, h.s.writeQ);
  }

  /** Over every run whose enqueue ticks never decrease, the deadlines in each ring stay sorted;
      each direction is dispatched in exact FIFO order with no accepted request dropped or
      duplicated; and the count is accepted minus dispatched. */
  lemma {:induction false} RunsLoseNothing(ops: seq<Op>)
    requires Monotone(ops)
    ensures Lossless(Run(ops))
    ensures Count(Run(ops).s) ==
            |Run(ops).inReads| + |Run(ops).inWrites| - |Run(ops).outReads| - |Run(ops).outWrites|
  {
    if ops == [] {
    } else {
      var n := |ops| - 1;
      RunsLoseNothing(ops[..n]);
      match ops[n]
      case Enqueue(req, now) =>
        LastIsAnEnqueueTick(ops[..n], now);
        EnqueueKeepsLossless(Run(ops[..n]), req, now);
      case Dequeue(now) => DequeueKeepsLossless(Run(ops[..n]), now, Choose(Run(ops[..n]).s, now));
    }
  }

  // ----- what the dequeues return -----

  /** The requests of one direction. */
  function Only(rs: seq<BlockRequest>, write: bool): seq<BlockRequest> {
    if rs == [] then [] else
      Only(rs[..|rs| - 1], write) + if rs[|rs| - 1].write == write then [rs[|rs| - 1]] else []
  }

  function Requests(es: seq<Entry>): seq<BlockRequest> { seq(|es|, i requires 0 <= i < |es| => es[i].req) }

  ghost predicate Kind(es: seq<Entry>, write: bool) { forall e :: e in es ==> e.req.write == write }

  /** The rings hold their own direction, and what was returned of each direction is what was
      taken out of its ring, in order. */
  ghost predicate Returns(h: History) {
    && Kind(h.s.readQ, false) && Kind(h.s.writeQ, true)
    && Only(h.returned, false) == Requests(h.outReads) && Only(h.returned, true) == Requests(h.outWrites)
  }

  lemma ReturnedOne(rs: seq<BlockRequest>, es: seq<Entry>, e: Entry, r: BlockRequest, write: bool)
    requires Only(rs, write) == Requests(es)
    ensures r.write != write ==> Only(rs + [r], write) == Requests(es)
    ensures r.write == write && e.req == r ==> Only(rs + [r], write) == Requests(es + [e])
  {
    assert (rs + [r])[..|rs|] == rs;
    assert e.req == r ==> Requests(es + [e]) == Requests(es) + [r];
  }

  lemma StepReturns(h: History, op: Op)
    requires Returns(h)
    ensures Returns(Step(h, op))
  {
    if op.Dequeue? {
      var c := Choose(h.s, op.now);
      if c != Nothing {
        var e := if c.Read? then h.s.readQ[c.at] else h.s.writeQ[c.at];
        assert c.Read? ==> e in h.s.readQ;
        assert c.Write? ==> e in h.s.writeQ;
        ReturnedOne(h.returned, h.outReads, e, RequestAt(h.s, c).value, false);
        ReturnedOne(h.returned, h.outWrites, e, RequestAt(h.s, c).value, true);
      }
    }
  }

  lemma {:induction false} RunsReturn(ops: seq<Op>)
    ensures Returns(Run(ops))
  {
    if ops != [] {
      RunsReturn(ops[..|ops| - 1]);
      StepReturns(Run(ops[..|ops| - 1]), ops[|ops| - 1]);
    }
  }

  lemma RequestsConcat(a: seq<Entry>, b: seq<Entry>)
    ensures Requests(a + b) == Requests(a) + Requests(b)
  {
  }

  /** Over every run whose enqueue ticks never decrease: of each direction, the requests returned
      followed by those queued are the requests accepted, in order. */
  lemma RunsReturnInOrder(ops: seq<Op>, h: History)
    requires Monotone(ops) && h == Run(ops)
    ensures Only(h.returned, false) + Requests(h.s.readQ) == Requests(h.inReads)
    ensures Only(h.returned, true) + Requests(h.s.writeQ) == Requests(h.inWrites)
  {
    RunsReturn(ops);
    RunsLoseNothing(ops);
    RequestsConcat(h.outReads, h.s.readQ);
    RequestsConcat(h.outWrites, h.s.writeQ);
  }

  // ----- bounded waiting of writes -----

  /** No queued read is past its deadline. */
  ghost predicate ReadsOnTime(s: State, now: nat) {
    forall e :: e in s.readQ ==> now < e.deadline
  }

  /** From `s`, with ticks not before `last`: enqueue ticks never decrease, and at every dequeue
      the queued reads are on time. */
  ghost predicate Calm(s: State, last: nat, ops: seq<Op>)
    decreases |ops|
  {
    ops == [] ||
    match ops[0]
    case Enqueue(_, now) => last <= now && Calm(After(s, ops[0]), now, ops[1..])
    case Dequeue(now) => ReadsOnTime(s, now) && Calm(After(s, ops[0]), last, ops[1..])
  }

  function Dequeues(ops: seq<Op>): nat {
    if ops == [] then 0 else (if ops[0].Dequeue? then 1 else 0) + Dequeues(ops[1..])
  }

  /** How many writes are dispatched when `ops` runs from `s`. */
  function WritesOut(s: State, ops: seq<Op>): nat
    decreases |ops|
  {
    if ops == [] then 0 else
      (if ops[0].Dequeue? && Choose(s, ops[0].now).Write? then 1 else 0) + WritesOut(After(s, ops[0]), ops[1..])
  }

  /** From `last` on, enqueue ticks never decrease. */
  ghost predicate MonotoneFrom(last: nat, ops: seq<Op>)
    decreases |ops|
  {
    ops == [] ||
    if ops[0].Enqueue? then last <= ops[0].now && MonotoneFrom(ops[0].now, ops[1..]) else MonotoneFrom(last, ops[1..])
  }

  /** A read past its deadline is dispatched. */
  predicate LateRead(s: State, now: nat) { FirstExpired(s.readQ, now) < |s.readQ| }

  /** How many of the dequeues dispatch a late read when `ops` runs from `s`. */
  function LateReads(s: State, ops: seq<Op>): nat
    decreases |ops|
  {
    if ops == [] then 0 else
      (if ops[0].Dequeue? && LateRead(s, ops[0].now) then 1 else 0) + LateReads(After(s, ops[0]), ops[1..])
  }

  /** What a dequeue that dispatches no late read does while a write is queued: a write goes, or
      the starvation counter, still below the limit, goes up. */
  lemma CalmDequeue(s: State, now: nat)
    requires !LateRead(s, now) && Sorted(s.writeQ) && s.writeQ != []
    ensures var s' := AfterDequeue(s, now);
      if Choose(s, now).Write? then s'.writeQ == s.writeQ[1..] && s'.starve == 0
      else s'.writeQ == s.writeQ && s.starve < STARVE_LIMIT && s'.starve == s.starve + 1
  {
  }

  lemma LateDequeue(s: State, now: nat)
    requires LateRead(s, now)
    ensures Choose(s, now).Read? && AfterDequeue(s, now).writeQ == s.writeQ && AfterDequeue(s, now).starve == 0
  {
  }

  /** Bounded waiting on every run with non-decreasing enqueue ticks: each late read dispatched
      costs a queued write at most 17 dequeues, and each write before it too. */
  lemma {:induction false} WritesLeaveInTime(s: State, last: nat, ops: seq<Op>, k: nat)
    requires Orderly(s, last) && MonotoneFrom(last, ops) && k <= |s.writeQ|
    requires Dequeues(ops) + Min(s.starve, STARVE_LIMIT) >= 17 * (k + LateReads(s, ops))
    ensures WritesOut(s, ops) >= k
    decreases |ops|
  {
    if k > 0 && ops != [] {
      var s' := After(s, ops[0]);
      OrderlyAfter(s, last, ops[0]);
      match ops[0]
      case Enqueue(_, now) =>
        WritesLeaveInTime(s', now, ops[1..], k);
      case Dequeue(now) =>
        if LateRead(s, now) {
          LateDequeue(s, now);
          WritesLeaveInTime(s', last, ops[1..], k);
        } else {
          CalmDequeue(s, now);
          WritesLeaveInTime(s', last, ops[1..], if Choose(s, now).Write? then k - 1 else k);
        }
    }
  }

  lemma {:induction false} CalmIsMonotone(s: State, last: nat, ops: seq<Op>)
    requires Calm(s, last, ops)
    ensures MonotoneFrom(last, ops) && LateReads(s, ops) == 0
    decreases |ops|
  {
    if ops == [] {
    } else {
      CalmIsMonotone(After(s, ops[0]), if ops[0].Enqueue? then ops[0].now else last, ops[1..]);
    }
  }

  /** So with `k` writes queued and no read late, 17 k dequeues dispatch at least `k` writes,
      whatever is enqueued meanwhile. (At most 16 reads go in a row while a write is queued.) */
  lemma WritesWaitAtMost(s: State, last: nat, ops: seq<Op>, k: nat)
    requires Orderly(s, last) && Calm(s, last, ops) && k <= |s.writeQ|
    requires Dequeues(ops) + Min(s.starve, STARVE_LIMIT) >= 17 * k
    ensures WritesOut(s, ops) >= k
  {
    CalmIsMonotone(s, last, ops);
    WritesLeaveInTime(s, last, ops, k);
  }

  // ----- reads go first -----

  /** A write past its deadline is dispatched, no read being late. */
  predicate LateWrite(s: State, now: nat) { !LateRead(s, now) && FirstExpired(s.writeQ, now) < |s.writeQ| }

  function LateWrites(s: State, ops: seq<Op>): nat
    decreases |ops|
  {
    if ops == [] then 0 else
      (if ops[0].Dequeue? && LateWrite(s, ops[0].now) then 1 else 0) + LateWrites(After(s, ops[0]), ops[1..])
  }

  /** How many reads are dispatched when `ops` runs from `s`. */
  function ReadsOut(s: State, ops: seq<Op>): nat
    decreases |ops|
  {
    if ops == [] then 0 else
      (if ops[0].Dequeue? && Choose(s, ops[0].now).Read? then 1 else 0) + ReadsOut(After(s, ops[0]), ops[1..])
  }

  /** At every dequeue a read is queued. */
  ghost predicate Busy(s: State, ops: seq<Op>)
    decreases |ops|
  {
    ops == [] || ((ops[0].Dequeue? ==> s.readQ != []) && Busy(After(s, ops[0]), ops[1..]))
  }

  /** With a read queued, a write that is not late goes only at the limit of the counter; else
      the read goes, and the counter goes up unless the read was late. */
  lemma ReadFirst(s: State, now: nat)
    requires s.readQ != [] && !LateWrite(s, now)
    ensures var c, s' := Choose(s, now), AfterDequeue(s, now);
      if c.Write? then s.starve >= STARVE_LIMIT && s'.starve == 0 && s'.readQ == s.readQ
      else c.Read? && s'.starve == if LateRead(s, now) then 0 else s.starve + 1
  {
  }

  /** While reads are queued, writes that are not late get at most every seventeenth dequeue. */
  lemma {:induction false} WritesHeldBack(s: State, ops: seq<Op>)
    requires Busy(s, ops)
    ensures 17 * (WritesOut(s, ops) - LateWrites(s, ops)) <= Dequeues(ops) + Min(s.starve, STARVE_LIMIT)
    decreases |ops|
  {
    if ops != [] {
      WritesHeldBack(After(s, ops[0]), ops[1..]);
      if ops[0].Dequeue? && !LateWrite(s, ops[0].now) {
        ReadFirst(s, ops[0].now);
      }
    }
  }

  /** So none of them goes before the counter has reached its limit. */
  lemma ReadsGoFirst(s: State, ops: seq<Op>)
    requires Busy(s, ops) && s.starve + Dequeues(ops) <= STARVE_LIMIT
    ensures WritesOut(s, ops) <= LateWrites(s, ops)
  {
    WritesHeldBack(s, ops);
  }

  /** Bounded waiting of reads, on every run with non-decreasing enqueue ticks: a read waits for
      the reads before it, one write in seventeen dequeues, and the late writes. */
  lemma {:induction false} ReadsLeaveInTime(s: State, last: nat, ops: seq<Op>, k: nat)
    requires Orderly(s, last) && MonotoneFrom(last, ops) && k <= |s.readQ|
    requires 16 * Dequeues(ops) + 16 >= 17 * k + Min(s.starve, STARVE_LIMIT) + 16 * LateWrites(s, ops)
    ensures ReadsOut(s, ops) >= k
    decreases |ops|
  {
    if k > 0 && ops != [] {
      var s' := After(s, ops[0]);
      OrderlyAfter(s, last, ops[0]);
      match ops[0]
      case Enqueue(_, now) =>
        ReadsLeaveInTime(s', now, ops[1..], k);
      case Dequeue(now) =>
        ChoiceIsHead(s, now);
        if !LateWrite(s, now) {
          ReadFirst(s, now);
        }
        ReadsLeaveInTime(s', last, ops[1..], if Choose(s, now).Read? then k - 1 else k);
    }
  }

  /** A read is late from 50 ticks after it was enqueued on, a write from 500. */
  lemma LateFrom(req: BlockRequest, t: nat, now: nat)
    ensures var s := AfterEnqueue(State([], [], 0), req, t);
      (LateRead(s, now) <==> !req.write && now >= t + 50) && (LateWrite(s, now) <==> req.write && now >= t + 500)
  {
  }

  // ----- without the calm there is no bound -----

  /** `n` times: enqueue a read and dequeue it 50 ticks later, when it has just expired. */
  function Overload(n: nat, t: nat, req: BlockRequest): seq<Op> {
    if n == 0 then [] else [Enqueue(req, t), Dequeue(t + 50)] + Overload(n - 1, t + 50, req)
  }

  /** Expired reads are served before expired writes and reset the counter, so a queued write
      can be passed over any number of times. */
  lemma {:induction false} ExpiredReadsStarveWrites(n: nat, t: nat, req: BlockRequest, s: State)
    requires !req.write && s.readQ == []
    ensures Dequeues(Overload(n, t, req)) == n && WritesOut(s, Overload(n, t, req)) == 0
    decreases n
  {
    if n == 0 {
    } else {
      var ops := Overload(n, t, req);
      var rest := Overload(n - 1, t + 50, req);
      var s1 := After(s, ops[0]);
      assert s1.readQ == [Entry(req, t + 50)];
      assert Choose(s1, t + 50) == Read(0, 0);
      var s2 := After(s1, ops[1]);
      assert s2.readQ == [];
      assert ops[1..][1..] == rest && ops[1..][0] == ops[1];
      assert Dequeues(ops) == Dequeues(ops[1..]) && Dequeues(ops[1..]) == 1 + Dequeues(rest);
      ExpiredReadsStarveWrites(n - 1, t + 50, req, s2);
    }
  }

  // ----- the rings -----

  lemma RingSlotsDiffer(a: nat, b: nat)
    requires a < b < a + SCHED_MAX
    ensures a % SCHED_MAX != b % SCHED_MAX
  {
  }

  /** One direction's buffers: requests and deadlines in a ring, with free-running indices. */
  class Ring {
    const queue: array<BlockRequest>
    const deadlines: array<nat>
    var head: nat
    var tail: nat

    ghost predicate Valid()
      reads this
    {
      queue.Length == SCHED_MAX && deadlines.Length == SCHED_MAX && head <= tail <= head + SCHED_MAX
    }

    ghost function EntryAt(i: nat): Entry
      reads this, queue, deadlines
      requires Valid()
    {
      Entry(queue[i % SCHED_MAX], deadlines[i % SCHED_MAX])
    }

    ghost function Contents(): (q: seq<Entry>)
      reads this, queue, deadlines
      requires Valid()
      ensures |q| == tail - head && forall k :: 0 <= k < |q| ==> q[k] == EntryAt(head + k)
    {
      seq(tail - head, k requires Valid() && 0 <= k reads this, queue, deadlines => EntryAt(head + k))
    }

    constructor ()
      ensures Valid() && Contents() == [] && fresh(queue) && fresh(deadlines)
    {
      queue := new BlockRequest[SCHED_MAX](_ => BlockRequest(0, 0, 0, false));
      deadlines := new nat[SCHED_MAX](_ => 0);
      head, tail := 0, 0;
    }

    method Push(req: BlockRequest, deadline: nat)
      requires Valid()
      modifies this, queue, deadlines
      ensures Valid() && Contents() == Put(old(Contents()), Entry(req, deadline))
    {
      if tail - head < SCHED_MAX {
        var idx := tail % SCHED_MAX;
        forall k | head <= k < tail
          ensures k % SCHED_MAX != idx
        {
          RingSlotsDiffer(k, tail);
        }
        queue[idx] := req;
        deadlines[idx] := deadline;
        tail := tail + 1;
        assert forall k :: 0 <= k < |old(Contents())| ==> Contents()[k] == old(Contents())[k];
      }
    }

    /** Scan for the first expired entry; the result is `tail` if there is none. */
    method Scan(now: nat) returns (i: nat)
      requires Valid()
      ensures i == head + FirstExpired(Contents(), now)
    {
      i := head;
      ghost var q := Contents();
      while i < tail && now < deadlines[i % SCHED_MAX]
        invariant head <= i <= tail
        invariant forall k :: 0 <= k < i - head ==> now < q[k].deadline
      {
        assert q[i - head] == EntryAt(i);
        i := i + 1;
      }
      assert i < tail ==> q[i - head] == EntryAt(i);
      FirstExpiredUnique(q, now, i - head);
    }

    /** Take the entry `k` past the head, moving the head just past it. */
    method TakeAt(k: nat) returns (req: BlockRequest)
      requires Valid() && head + k < tail
      modifies this`head
      ensures Valid() && Contents() == old(Contents())[k + 1..]
      ensures req == old(Contents())[k].req
    {
      req := queue[(head + k) % SCHED_MAX];
      assert Contents()[k] == EntryAt(head + k);
      head := head + k + 1;
    }
  }

  lemma FirstExpiredUnique(q: seq<Entry>, now: nat, i: nat)
    requires i <= |q| && (i < |q| ==> now >= q[i].deadline)
    requires forall k :: 0 <= k < i ==> now < q[k].deadline
    ensures i == FirstExpired(q, now)
  {
  }

  class Scheduler {
    const readRing: Ring
    const writeRing: Ring
    var starve: nat

    ghost predicate Valid()
      reads this, readRing, writeRing
    {
      && readRing.Valid() && writeRing.Valid() && readRing != writeRing
      && readRing.queue != writeRing.queue && readRing.deadlines != writeRing.deadlines
    }

    ghost function View(): State
      reads this, readRing, readRing.queue, readRing.deadlines, writeRing, writeRing.queue, writeRing.deadlines
      requires Valid()
    {
      State(readRing.Contents(), writeRing.Contents(), starve)
    }

    constructor ()
      ensures Valid() && View() == State([], [], 0)
    {
      readRing := new Ring();
      writeRing := new Ring();
      starve := 0;
    }

    method Enqueue(req: BlockRequest, now: nat)
      requires Valid()
      modifies readRing, readRing.queue, readRing.deadlines, writeRing, writeRing.queue, writeRing.deadlines
      ensures Valid() && View() == AfterEnqueue(old(View()), req, now)
    {
      if req.write {
        writeRing.Push(req, now + WRITE_DEADLINE_TICKS);
      } else {
        readRing.Push(req, now + READ_DEADLINE_TICKS);
      }
    }

    /** Decide where the next request comes from. */
    method Pick(now: nat) returns (c: Choice)
      requires Valid()
      ensures c == Choose(View(), now)
    {
      var i := readRing.Scan(now);
      if i < readRing.tail {
        return Read(i - readRing.head, 0);
      }
      var j := writeRing.Scan(now);
      if j < writeRing.tail {
        return Write(j - writeRing.head);
      }
      if readRing.head < readRing.tail {
        if starve >= STARVE_LIMIT && writeRing.head < writeRing.tail {
          return Write(0);
        }
        return Read(0, starve + 1);
      } else if writeRing.head < writeRing.tail {
        return Write(0);
      }
      return Nothing;
    }

    method TakeRead(at: nat, counter: nat) returns (req: BlockRequest)
      requires Valid() && at < |View().readQ|
      modifies this`starve, readRing`head
      ensures Valid() && View() == Taken(old(View()), Read(at, counter)) && req == old(View()).readQ[at].req
    {
      starve := counter;
      req := readRing.TakeAt(at);
    }

    method TakeWrite(at: nat) returns (req: BlockRequest)
      requires Valid() && at < |View().writeQ|
      modifies this`starve, writeRing`head
      ensures Valid() && View() == Taken(old(View()), Write(at)) && req == old(View()).writeQ[at].req
    {
      starve := 0;
      req := writeRing.TakeAt(at);
    }

    method Dequeue(now: nat) returns (req: Option<BlockRequest>)
      requires Valid()
      modifies this`starve, readRing`head, writeRing`head
      ensures Valid() && View() == AfterDequeue(old(View()), now) && req == Dispatched(old(View()), now)
    {
      var c := Pick(now);
      match c
      case Nothing =>
        req := None;
      case Read(at, counter) =>
        var r := TakeRead(at, counter);
        req := Some(r);
      case Write(at) =>
        var r := TakeWrite(at);
        req := Some(r);
    }

    method PendingCount() returns (n: nat)
      requires Valid()
      ensures n == Count(View())
    {
      n := (readRing.tail - readRing.head) + (writeRing.tail - writeRing.head);
    }
  }
}
