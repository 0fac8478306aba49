/** The static table of kernel extensions: registration, hooks, and what every run of them
    keeps. */
module ExtensionTable {
  import opened Basics
  import opened ExtensionIsa
  import opened ExtensionMachine
  import opened ExtensionVerifier

  const MAX_EXTENSIONS: nat := 8

  datatype ExtensionData = Extension(name: seq<byte>, pid: u32, bytecode: seq<byte>, bcLen: nat,
                                     hook: byte, active: bool, scratch: Scratch)

  predicate Sized(e: ExtensionData) {
    |e.name| == 16 && |e.bytecode| == MAX_BYTECODE && e.bcLen <= MAX_BYTECODE
  }

  function Blank(): (e: ExtensionData)
    ensures Sized(e)
  {
    Extension(Repeat(0, 16), 0, Repeat(0, MAX_BYTECODE), 0, 0, false, Repeat(0, SCRATCH_SIZE))
  }

  type Extension = e: ExtensionData | Sized(e) witness Blank()

  function Program(e: Extension): seq<byte> {
    e.bytecode[..e.bcLen]
  }

  datatype TableData = Table(exts: seq<Extension>, count: nat)

  type Table = t: TableData | |t.exts| == MAX_EXTENSIONS && t.count <= MAX_EXTENSIONS
    witness EmptyTable()

  function EmptyTable(): (t: TableData)
    ensures |t.exts| == MAX_EXTENSIONS && t.count == 0
  {
    Table(seq(MAX_EXTENSIONS, i => Blank()), 0)
  }

  datatype Op = Register(pid: u32, hook: byte, code: seq<byte>, name: seq<byte>)
              | Unregister(id: nat)
              | RunHook(hook: byte, context0: u64, context1: u64)
              | ExecuteSingle(id: nat, hook: byte, context0: u64, context1: u64)

  // ----- the specification -----

  /** One extension's program, run from its boot state. */
  function RunOf(e: Extension, hook: byte, context0: u64, context1: u64): (ExecResult, Machine) {
    Run(Program(e), Boot(e.scratch, hook, context0, context1))
  }

  /** The extension after its program ran: new scratch, and disabled unless it ended Ok. */
  function AfterRun(e: Extension, hook: byte, context0: u64, context1: u64): Extension {
    var (r, m) := RunOf(e, hook, context0, context1);
    e.(scratch := m.scratch, active := e.active && r == Ok)
  }

  predicate Fires(t: Table, i: nat, op: Op) {
    && i < t.count && t.exts[i].active
    && match op
       case RunHook(hook, _, _) => t.exts[i].hook == hook
       case ExecuteSingle(id, _, _, _) => i == id
       case _ => false
  }

  /** The table after an operation fired its hooks; slots that do not fire are untouched. */
  function Fired(t: Table, op: Op): Table
    requires op.RunHook? || op.ExecuteSingle?
  {
    Table(seq(MAX_EXTENSIONS, i requires 0 <= i < MAX_EXTENSIONS =>
      if Fires(t, i, op) then AfterRun(t.exts[i], op.hook, op.context0, op.context1) else t.exts[i]), t.count)
  }

  function Installed(e: Extension, op: Op): (r: Extension)
    requires op.Register? && |op.code| <= MAX_BYTECODE
    ensures Program(r) == op.code && r.active
  {
    var n := if |op.name| < 15 then |op.name| else 15;
    Extension(op.name[..n] + [0] + e.name[n + 1..], op.pid, op.code + e.bytecode[|op.code|..], |op.code|,
              op.hook, true, Repeat(0, SCRATCH_SIZE))
  }

  ghost predicate CanRegister(t: Table, op: Op)
    requires op.Register?
  {
    Accepts(op.code) && t.count < MAX_EXTENSIONS
  }

  ghost function Apply(t: Table, op: Op): Table {
    match op
    case Register(_, _, _, _) =>
      if CanRegister(t, op) then Table(t.exts[t.count := Installed(t.exts[t.count], op)], t.count + 1) else t
    case Unregister(id) =>
      if id < t.count then t.(exts := t.exts[id := t.exts[id].(active := false)]) else t
    case _ => Fired(t, op)
  }

  // ----- what every run keeps -----

  /** Every registered slot holds a program the verifier accepted. */
  ghost predicate Verified(t: Table) {
    forall i: nat :: i < t.count ==> Accepts(Program(t.exts[i]))
  }

  /** The table after a whole run from boot. */
  ghost function After(ops: seq<Op>): Table {
    if ops == [] then EmptyTable() else Apply(After(ops[..|ops| - 1]), ops[|ops| - 1])
  }

  lemma ApplyKeepsVerified(t: Table, op: Op)
    requires Verified(t)
    ensures Verified(Apply(t, op))
  {
  }

  lemma {:induction false} RunsStayVerified(ops: seq<Op>)
    ensures Verified(After(ops))
  {
    if ops == [] {
    } else {
      RunsStayVerified(ops[..|ops| - 1]);
      ApplyKeepsVerified(After(ops[..|ops| - 1]), ops[|ops| - 1]);
    }
  }

  /** Over every run of register, unregister, hooks and single executions, with any contexts:
      no extension ever times out or panics, and each run of one takes at most 64 cycles. */
  lemma NoRunTimesOut(ops: seq<Op>, i: nat, hook: byte, context0: u64, context1: u64)
    requires i < After(ops).count
    ensures var (r, m) := RunOf(After(ops).exts[i], hook, context0, context1);
      Benign(r) && m.cycles <= 64
  {
    RunsStayVerified(ops);
    var e := After(ops).exts[i];
    VerifiedProgramsAreSafe(Program(e), Boot(e.scratch, hook, context0, context1));
  }

  /** An extension is disabled only by being unregistered or by a stack error of its own. */
  lemma DisabledOnlyByStackError(ops: seq<Op>, op: Op, i: nat)
    requires var t := After(ops); i < t.count && t.exts[i].active
    requires op.Unregister? ==> op.id != i
    ensures Apply(After(ops), op).exts[i].active ||
            ((op.RunHook? || op.ExecuteSingle?) && Fires(After(ops), i, op) &&
             RunOf(After(ops).exts[i], op.hook, op.context0, op.context1).0
               in {Error(StackOverflow), Error(StackUnderflow)})
  {
    if op.RunHook? || op.ExecuteSingle? {
      NoRunTimesOut(ops, i, op.hook, op.context0, op.context1);
    }
  }

  // ----- what registering and hooks come to -----

  /** A registered extension holds its owner, its hook, its program, cleared scratch and its name,
      cut to 15 bytes and ended by a zero. */
  lemma InstalledIs(e: Extension, op: Op, n: nat)
    requires op.Register? && |op.code| <= MAX_BYTECODE && n == Min(|op.name|, 15)
    ensures var r := Installed(e, op);
      && r.pid == op.pid && r.hook == op.hook && r.active && Program(r) == op.code
      && r.name[..n] == op.name[..n] && r.name[n] == 0 && r.scratch == Repeat(0, SCRATCH_SIZE)
  {
  }

  /** What a step does to a slot in use. A hook runs every active extension of its type, and a
      single execution the one it names if it is active: its scratch is then what the program
      leaves, and it stays active iff the program ended Ok. */
  lemma SlotStep(t: Table, op: Op, i: nat)
    requires i < t.count && (op.RunHook? || op.ExecuteSingle?)
    ensures var e, e' := t.exts[i], Apply(t, op).exts[i];
      var (r, m) := Run(Program(e), Boot(e.scratch, op.hook, op.context0, op.context1));
      if e.active && (if op.RunHook? then op.hook == e.hook else op.id == i)
      then e' == e.(scratch := m.scratch, active := r == Ok)
      else e' == e
  {
  }

  /** An extension registered for a hook runs its program, from cleared scratch, when that hook is
      next raised, and at no other hook; once unregistered it runs no more. */
  lemma RegisteredRuns(t: Table, reg: Op, op: Op)
    requires reg.Register? && CanRegister(t, reg) && op.RunHook?
    ensures var k, t1 := t.count, Apply(t, reg);
      var (r, m) := Run(reg.code, Boot(Repeat(0, SCRATCH_SIZE), op.hook, op.context0, op.context1));
      && t1.exts[k].active && t1.exts[k].hook == reg.hook
      && Apply(t1, op).exts[k] ==
         (if op.hook == reg.hook then t1.exts[k].(scratch := m.scratch, active := r == Ok) else t1.exts[k])
      && Apply(Apply(t1, Unregister(k)), op).exts[k] == t1.exts[k].(active := false)
  {
    var t1 := Apply(t, reg);
    SlotStep(t1, op, t.count);
    SlotStep(Apply(t1, Unregister(t.count)), op, t.count);
  }

  // ----- the kernel's table -----

  method ExecuteExtension(e: Extension, hook: byte, context0: u64, context1: u64)
    returns (r: ExecResult, e': Extension)
    ensures r == RunOf(e, hook, context0, context1).0
    ensures e' == e.(scratch := RunOf(e, hook, context0, context1).1.scratch)
  {
    var scratch := new byte[SCRATCH_SIZE](i requires 0 <= i < SCRATCH_SIZE => e.scratch[i]);
    assert scratch[..] == e.scratch;
    r := Interpret(Program(e), scratch, hook, context0, context1);
    e' := e.(scratch := scratch[..]);
  }

  class Registry {
    var exts: array<Extension>
    var count: nat

    ghost predicate Valid()
      reads this
    {
      exts.Length == MAX_EXTENSIONS && count <= MAX_EXTENSIONS
    }

    ghost function View(): Table
      reads this, exts
      requires Valid()
    {
      Table(exts[..], count)
    }

    constructor ()
      ensures Valid() && fresh(exts) && View() == EmptyTable()
    {
      exts := new Extension[MAX_EXTENSIONS](_ => Blank());
      count := 0;
      new;
      assert exts[..] == EmptyTable().exts;
    }

    method RegisterExtension(pid: u32, hook: byte, code: seq<byte>, name: seq<byte>) returns (id: Option<nat>)
      requires Valid()
      modifies this`count, exts
      ensures Valid() && View() == Apply(old(View()), Register(pid, hook, code, name))
      ensures id == if CanRegister(old(View()), Register(pid, hook, code, name)) then Some(old(count)) else None
    {
      var verdict := VerifyBytecode(code);
      if verdict.Rejected? {
        return None;
      }
      if count >= MAX_EXTENSIONS {
        return None;
      }
      exts[count] := Installed(exts[count], Register(pid, hook, code, name));
      count := count + 1;
      return Some(count - 1);
    }

    method UnregisterExtension(id: nat) returns (ok: bool)
      requires Valid()
      modifies exts
      ensures Valid() && View() == Apply(old(View()), Unregister(id))
      ensures ok <==> id < count && old(exts[..])[id].active
    {
      if id < count && exts[id].active {
        exts[id] := exts[id].(active := false);
        return true;
      }
      return false;
    }

    method FireSlot(i: nat, hook: byte, context0: u64, context1: u64) returns (r: ExecResult)
      requires Valid() && i < count && exts[i].active
      modifies exts
      ensures exts[..] == old(exts[..])[i := AfterRun(old(exts[i]), hook, context0, context1)]
      ensures r == RunOf(old(exts[i]), hook, context0, context1).0
    {
      var e;
      r, e := ExecuteExtension(exts[i], hook, context0, context1);
      exts[i] := e.(active := e.active && r == Ok);
    }

    method Hook(hook: byte, context0: u64, context1: u64)
      requires Valid()
      modifies exts
      ensures Valid() && View() == Apply(old(View()), RunHook(hook, context0, context1))
    {
      ghost var t := View();
      ghost var op := RunHook(hook, context0, context1);
      ghost var goal := Fired(t, op).exts;
      for i := 0 to count
        invariant forall j :: 0 <= j < MAX_EXTENSIONS ==> exts[j] == if j < i then goal[j] else t.exts[j]
      {
        ghost var before := exts[..];
        if exts[i].active && exts[i].hook == hook {
          var r := FireSlot(i, hook, context0, context1);
        }
        assert exts[..] == before[i := goal[i]];
        assert forall j :: 0 <= j < MAX_EXTENSIONS ==> exts[j] == exts[..][j];
      }
      assert exts[..] == goal;
    }

    method Single(id: nat, hook: byte, context0: u64, context1: u64) returns (ok: bool)
      requires Valid()
      modifies exts
      ensures Valid() && View() == Apply(old(View()), ExecuteSingle(id, hook, context0, context1))
      ensures ok <==> id < count && exts[id].active
    {
      ghost var goal := Fired(View(), ExecuteSingle(id, hook, context0, context1)).exts;
      if id >= count || !exts[id].active {
        assert exts[..] == goal;
        return false;
      }
      var r := FireSlot(id, hook, context0, context1);
      assert exts[..] == goal;
      return r == Ok;
    }
  }
}
