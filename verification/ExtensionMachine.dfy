/** The sandboxed interpreter of kernel extensions, and the soundness of the verifier with
    respect to it. */
module ExtensionMachine {
  import opened Basics
  import opened ControlFlow
  import opened ExtensionIsa

  const CYCLE_BUDGET: nat := 1000
  const STACK_DEPTH: nat := 32

  datatype RuntimeError = BadPc | BadJump | BadScratch | StackOverflow | StackUnderflow | BadOpcode

  /** `Panic` stands for an out-of-range register index, which aborts the kernel. */
  datatype ExecResult = Ok | Timeout | Error(error: RuntimeError) | Panic

  type Regs = s: seq<u64> | |s| == REG_COUNT witness seq(REG_COUNT, i => 0)
  type Stack = s: seq<u64> | |s| == STACK_DEPTH witness seq(STACK_DEPTH, i => 0)
  type Scratch = s: seq<byte> | |s| == SCRATCH_SIZE witness seq(SCRATCH_SIZE, i => 0)
  type Sp = n: nat | n <= STACK_DEPTH

  datatype Machine = Machine(regs: Regs, stack: Stack, sp: Sp, pc: nat, cycles: nat, eq: bool, scratch: Scratch)

  datatype Outcome = Next(m: Machine) | Stop(r: ExecResult, m: Machine)

  function ToLe(v: nat, n: nat): (s: seq<byte>)
    ensures |s| == n
  {
    if n == 0 then [] else [v % 256] + ToLe(v / 256, n - 1)
  }

  function Le64(b: seq<byte>): u64
    requires |b| == 8
  {
    b[0] as int + 0x100 * b[1] as int + 0x1_0000 * b[2] as int + 0x100_0000 * b[3] as int
    + 0x1_0000_0000 * b[4] as int + 0x100_0000_0000 * b[5] as int
    + 0x1_0000_0000_0000 * b[6] as int + 0x100_0000_0000_0000 * b[7] as int
  }

  const WORD: int := 0x1_0000_0000_0000_0000

  function JumpTo(m: Machine, len: nat, offset: int): Outcome {
    var target := m.pc + offset;
    if target < 0 || target >= len || target % 8 != 0 then Stop(Error(BadJump), m)
    else Next(m.(pc := target))
  }

  function SetReg(m: Machine, r: nat, v: u64): Outcome
  {
    if r >= REG_COUNT then Stop(Panic, m) else Next(m.(regs := m.regs[r := v], pc := m.pc + 8))
  }

  /** The effect of one fetched instruction, after the cycle has been counted. */
  function Execute(i: Inst, len: nat, m: Machine): Outcome
  {
    if i.op == OP_MOV then
      SetReg(m, i.r1, i.imm)
    else if i.op == OP_ADD || i.op == OP_SUB then
      if i.r2 >= REG_COUNT || i.r3 >= REG_COUNT then Stop(Panic, m)
      else if i.op == OP_ADD then SetReg(m, i.r1, (m.regs[i.r2] as int + m.regs[i.r3] as int) % WORD)
      else SetReg(m, i.r1, (m.regs[i.r2] as int - m.regs[i.r3] as int) % WORD)
    else if i.op == OP_CMP then
      if i.r2 >= REG_COUNT || i.r3 >= REG_COUNT then Stop(Panic, m)
      else Next(m.(eq := m.regs[i.r2] == m.regs[i.r3], pc := m.pc + 8))
    else if i.op == OP_JMP then
      JumpTo(m, len, i.Offset())
    else if i.op == OP_JE then
      if m.eq then JumpTo(m, len, i.Offset()) else Next(m.(pc := m.pc + 8))
    else if i.op == OP_JNE then
      if !m.eq then JumpTo(m, len, i.Offset()) else Next(m.(pc := m.pc + 8))
    else if i.op == OP_LOAD then
      if i.imm + 8 > SCRATCH_SIZE then Stop(Error(BadScratch), m)
      else SetReg(m, i.r1, Le64(m.scratch[i.imm..i.imm + 8]))
    else if i.op == OP_STORE then
      if i.imm + 8 > SCRATCH_SIZE then Stop(Error(BadScratch), m)
      else if i.r2 >= REG_COUNT then Stop(Panic, m)
      else Next(m.(scratch := Splice(m.scratch, i.imm, ToLe(m.regs[i.r2], 8)), pc := m.pc + 8))
    else if i.op == OP_PUSH then
      if m.sp >= STACK_DEPTH then Stop(Error(StackOverflow), m)
      else if i.r2 >= REG_COUNT then Stop(Panic, m)
      else Next(m.(stack := m.stack[m.sp := m.regs[i.r2]], sp := m.sp + 1, pc := m.pc + 8))
    else if i.op == OP_POP then
      if m.sp == 0 then Stop(Error(StackUnderflow), m)
      else SetReg(m.(sp := m.sp - 1), i.r1, m.stack[m.sp - 1])
    else if i.op == OP_RET then
      Stop(Ok, m)
    else
      Stop(Error(BadOpcode), m)
  }

  /** One turn of the interpreter loop on the program `bc`. */
  function Step(bc: seq<byte>, m: Machine): Outcome
  {
    if m.cycles >= CYCLE_BUDGET then Stop(Timeout, m)
    else if m.pc + 8 > |bc| then Stop(Error(BadPc), m)
    else Execute(Fetch(bc, m.pc), |bc|, m.(cycles := m.cycles + 1))
  }

  lemma ExecuteKeepsCycles(i: Inst, len: nat, m: Machine)
    ensures Execute(i, len, m).m.cycles == m.cycles
  {
  }

  /** Run to the end; the cycle budget bounds the recursion. */
  function Run(bc: seq<byte>, m: Machine): (ExecResult, Machine)
    decreases CYCLE_BUDGET - m.cycles
  {
    var s := Step(bc, m);
    if m.cycles >= CYCLE_BUDGET then (Timeout, m)
    else if s.Stop? then (s.r, s.m)
    else
      ExecuteKeepsCycles(Fetch(bc, m.pc), |bc|, m.(cycles := m.cycles + 1));
      Run(bc, s.m)
  }

  /** The machine an extension starts in: hook type and context in registers 30 and 31,
      both context words in the first 16 scratch bytes. */
  function Boot(scratch: Scratch, hook: byte, context0: u64, context1: u64): (m: Machine)
    ensures m.pc == 0 && m.cycles == 0
  {
    Machine(seq(REG_COUNT, i => 0)[30 := hook][31 := context0], seq(STACK_DEPTH, i => 0), 0, 0, 0, false,
            Splice(Splice(scratch, 0, ToLe(context0, 8)), 8, ToLe(context1, 8)))
  }

  // ----- soundness of the verifier -----

  /** The only ways a verified program may end. */
  predicate Benign(r: ExecResult) {
    r == Ok || r == Error(StackOverflow) || r == Error(StackUnderflow)
  }

  /** An instruction that passed its checks ends benignly or goes where the graph says
      (falling off the end of the program is the one exception left open here). */
  lemma CheckedInstIsSafe(i: Inst, len: nat, m: Machine, out: Outcome)
    requires FaultOf(i, m.pc, len) == None && out == Execute(i, len, m)
    ensures out.m.cycles == m.cycles
    ensures out.Stop? ==> Benign(out.r)
    ensures out.Next? ==> i.op != OP_RET
    ensures out.Next? ==> out.m.pc in Targets(i, m.pc, len) || m.pc + 16 > len
  {
  }

  /** One instruction of an accepted program: it ends benignly, or control moves strictly
      forward to a reachable instruction. */
  lemma StepIsSafe(bc: seq<byte>, m: Machine, i: Inst, counted: Machine, out: Outcome)
    requires Accepts(bc) && Slot(bc, m.pc) && Reachable(Cfg(bc), m.pc)
    requires i == Fetch(bc, m.pc) && counted == m.(cycles := m.cycles + 1) && out == Execute(i, |bc|, counted)
    ensures out.m.cycles == m.cycles + 1
    ensures out.Stop? ==> Benign(out.r)
    ensures out.Next? ==> out.m.pc >= m.pc + 8 && Slot(bc, out.m.pc) && Reachable(Cfg(bc), out.m.pc)
  {
    CfgAt(bc, m.pc);
    CheckedInstIsSafe(i, |bc|, counted, out);
    if out.Next? {
      FlowStaysReachable(bc, m.pc, out.m.pc);
    }
  }

  lemma FlowStaysReachable(bc: seq<byte>, pc: nat, next: nat)
    requires Accepts(bc) && Slot(bc, pc) && Reachable(Cfg(bc), pc) && Passes(bc, pc)
    requires Fetch(bc, pc).op != OP_RET
    requires next in Targets(Fetch(bc, pc), pc, |bc|) || pc + 16 > |bc|
    ensures next >= pc + 8 && Slot(bc, next) && Reachable(Cfg(bc), next)
  {
    SomethingFollows(bc, pc);
    ReachableNext(bc, Cfg(bc), pc, next);
    assert pc % 8 == 0 && next % 8 == 0;
  }

  /** Verifier soundness: an accepted program never times out, never panics, and stops within
      one cycle per instruction slot, wherever it has got to. */
  lemma {:induction false} RunIsSafe(bc: seq<byte>, m: Machine)
    requires Accepts(bc) && Slot(bc, m.pc) && Reachable(Cfg(bc), m.pc)
    requires 8 * m.cycles <= m.pc
    ensures Benign(Run(bc, m).0) && 8 * Run(bc, m).1.cycles <= |bc|
    decreases CYCLE_BUDGET - m.cycles
  {
    var i := Fetch(bc, m.pc);
    var counted := m.(cycles := m.cycles + 1);
    var out := RunUnfold(bc, m, i, counted);
    StepIsSafe(bc, m, i, counted, out);
    if out.Next? {
      RunIsSafe(bc, out.m);
    }
  }

  /** The same from the boot state, for every hook type, context and scratch content. */
  lemma VerifiedProgramsAreSafe(bc: seq<byte>, boot: Machine)
    requires Accepts(bc) && boot.pc == 0 && boot.cycles == 0
    ensures Benign(Run(bc, boot).0) && Run(bc, boot).1.cycles <= |bc| / 8 <= 64
  {
    CfgIsForward(bc, Cfg(bc));
    ReachableStart(Cfg(bc));
    RunIsSafe(bc, boot);
  }

  // ----- the interpreter loop -----

  lemma RunUnfold(bc: seq<byte>, m: Machine, i: Inst, counted: Machine) returns (out: Outcome)
    requires m.cycles < CYCLE_BUDGET && m.pc + 8 <= |bc|
    requires i == Fetch(bc, m.pc) && counted == m.(cycles := m.cycles + 1)
    ensures out == Execute(i, |bc|, counted)
    ensures out.Stop? ==> Run(bc, m) == (out.r, out.m)
    ensures out.Next? ==> Run(bc, m) == Run(bc, out.m)
  {
    out := Step(bc, m);
    ExecuteKeepsCycles(i, |bc|, counted);
  }

  /** Carry out one instruction on the register file, the stack and the scratch buffer. */
  method ExecuteInst(i: Inst, len: nat, regs: array<u64>, stack: array<u64>, scratch: array<byte>,
                     sp: Sp, pc: nat, eq: bool, ghost m: Machine, ghost out: Outcome)
    returns (stop: Option<ExecResult>, sp': Sp, pc': nat, eq': bool)
    requires regs.Length == REG_COUNT && stack.Length == STACK_DEPTH && scratch.Length == SCRATCH_SIZE
    requires regs != stack
    requires m == Machine(regs[..], stack[..], sp, pc, m.cycles, eq, scratch[..]) && out == Execute(i, len, m)
    modifies regs, stack, scratch
    ensures stop.Some? ==> out.Stop? && out.r == stop.value && out.m.scratch == scratch[..]
    ensures stop == None ==> out == Next(Machine(regs[..], stack[..], sp', pc', m.cycles, eq', scratch[..]))
  {
    sp', pc', eq' := sp, pc + 8, eq;
    if i.op == OP_MOV {
      if i.r1 >= REG_COUNT { return Some(Panic), sp, pc, eq; }
      regs[i.r1] := i.imm;
    } else if i.op == OP_ADD {
      if i.r1 >= REG_COUNT || i.r2 >= REG_COUNT || i.r3 >= REG_COUNT { return Some(Panic), sp, pc, eq; }
      regs[i.r1] := (regs[i.r2] as int + regs[i.r3] as int) % WORD;
    } else if i.op == OP_SUB {
      if i.r1 >= REG_COUNT || i.r2 >= REG_COUNT || i.r3 >= REG_COUNT { return Some(Panic), sp, pc, eq; }
      regs[i.r1] := (regs[i.r2] as int - regs[i.r3] as int) % WORD;
    } else if i.op == OP_CMP {
      if i.r2 >= REG_COUNT || i.r3 >= REG_COUNT { return Some(Panic), sp, pc, eq; }
      eq' := regs[i.r2] == regs[i.r3];
    } else if i.op == OP_JMP || (i.op == OP_JE && eq) || (i.op == OP_JNE && !eq) {
      var target := pc + i.Offset();
      if target < 0 || target >= len || target % 8 != 0 { return Some(Error(BadJump)), sp, pc, eq; }
      pc' := target;
    } else if i.op == OP_JE || i.op == OP_JNE {
      // condition not met: fall through
    } else if i.op == OP_LOAD {
      if i.imm + 8 > SCRATCH_SIZE { return Some(Error(BadScratch)), sp, pc, eq; }
      if i.r1 >= REG_COUNT { return Some(Panic), sp, pc, eq; }
      regs[i.r1] := Le64(scratch[i.imm..i.imm + 8]);
    } else if i.op == OP_STORE {
      if i.imm + 8 > SCRATCH_SIZE { return Some(Error(BadScratch)), sp, pc, eq; }
      if i.r2 >= REG_COUNT { return Some(Panic), sp, pc, eq; }
      Write(scratch, i.imm, ToLe(regs[i.r2], 8));
    } else if i.op == OP_PUSH {
      if sp >= STACK_DEPTH { return Some(Error(StackOverflow)), sp, pc, eq; }
      if i.r2 >= REG_COUNT { return Some(Panic), sp, pc, eq; }
      stack[sp] := regs[i.r2];
      sp' := sp + 1;
    } else if i.op == OP_POP {
      if sp == 0 { return Some(Error(StackUnderflow)), sp, pc, eq; }
      if i.r1 >= REG_COUNT { return Some(Panic), sp, pc, eq; }
      sp' := sp - 1;
      regs[i.r1] := stack[sp'];
    } else if i.op == OP_RET {
      return Some(Ok), sp, pc, eq;
    } else {
      return Some(Error(BadOpcode)), sp, pc, eq;
    }
    stop := None;
  }

  /** The interpreter loop, from any machine `boot` laid out in the given arrays. */
  method Loop(bc: seq<byte>, regs: array<u64>, stack: array<u64>, scratch: array<byte>, ghost boot: Machine)
    returns (r: ExecResult)
    requires regs.Length == REG_COUNT && stack.Length == STACK_DEPTH && scratch.Length == SCRATCH_SIZE
    requires regs != stack
    requires boot == Machine(regs[..], stack[..], 0, 0, 0, false, scratch[..])
    modifies regs, stack, scratch
    ensures Run(bc, boot).0 == r && Run(bc, boot).1.scratch == scratch[..]
  {
    var sp: Sp, pc: nat, cycles: nat, eq := 0, 0, 0, false;
    ghost var m := boot;
    while true
      invariant m == Machine(regs[..], stack[..], sp, pc, cycles, eq, scratch[..])
      invariant Run(bc, m) == Run(bc, boot)
      decreases CYCLE_BUDGET - cycles
    {
      if cycles >= CYCLE_BUDGET { return Timeout; }
      if pc + 8 > |bc| { return Error(BadPc); }
      cycles := cycles + 1;
      var i := Fetch(bc, pc);
      ghost var counted := m.(cycles := cycles);
      ghost var out := RunUnfold(bc, m, i, counted);
      var stop;
      stop, sp, pc, eq := ExecuteInst(i, |bc|, regs, stack, scratch, sp, pc, eq, counted, out);
      m := out.m;
      if stop.Some? { return stop.value; }
    }
  }

  /** Running an extension's program is `Run` from the boot state, and leaves its scratch. */
  method Interpret(bc: seq<byte>, scratch: array<byte>, hook: byte, context0: u64, context1: u64)
    returns (r: ExecResult)
    requires scratch.Length == SCRATCH_SIZE
    modifies scratch
    ensures Run(bc, Boot(old(scratch[..]), hook, context0, context1)).0 == r
    ensures Run(bc, Boot(old(scratch[..]), hook, context0, context1)).1.scratch == scratch[..]
  {
    var regs := new u64[REG_COUNT](_ => 0);
    var stack := new u64[STACK_DEPTH](_ => 0);
    regs[30] := hook;
    regs[31] := context0;
    Write(scratch, 0, ToLe(context0, 8));
    Write(scratch, 8, ToLe(context1, 8));
    ghost var boot := Boot(old(scratch[..]), hook, context0, context1);
    assert boot.regs == regs[..] && boot.stack == stack[..];
    r := Loop(bc, regs, stack, scratch, boot);
  }

  // ----- the limits of the two theorems, on concrete programs -----

  /** `JE +8; RET`: every reachable instruction passes and the program ends with RET, yet the
      verifier refuses it. So the twin condition of `Accepts` cannot be dropped. */
  lemma TwinProgramRefused(code: seq<byte>)
    requires code == [OP_JE, 0, 0, 0, 8, 0, 0, 0, OP_RET, 0, 0, 0, 0, 0, 0, 0]
    ensures LegalLength(code) && NoBadReachable(Cfg(code)) && EndsWithRet(code) && !Accepts(code)
  {
    var g := Cfg(code);
    CfgAt(code, 0);
    CfgAt(code, 8);
    assert Fetch(code, 0) == Inst(OP_JE, 0, 0, 0, 8) && Fetch(code, 8).op == OP_RET;
    forall v | Reachable(g, v)
      ensures v !in g.bad
    {
      ClosedContainsReachable(g, v, {0, 8});
    }
    EntryTwinIsEarly(g);
  }

  /** `POP r0; RET` is accepted and underflows: the benign errors do happen. */
  lemma UnderflowProgramAccepted(code: seq<byte>, boot: Machine)
    requires code == [OP_POP, 0, 0, 0, 0, 0, 0, 0, OP_RET, 0, 0, 0, 0, 0, 0, 0]
    requires boot.pc == 0 && boot.cycles == 0 && boot.sp == 0
    ensures Accepts(code) && Run(code, boot).0 == Error(StackUnderflow)
  {
    var g := Cfg(code);
    CfgAt(code, 0);
    CfgAt(code, 8);
    assert Passes(code, 0) && Passes(code, 8);
    assert g.succ[0] == {8} && g.succ[8] == {};
    forall v | Reachable(g, v)
      ensures v in {0, 8}
    {
      ClosedContainsReachable(g, v, {0, 8});
    }
    AcceptsWithoutTwins(code);
  }
}
