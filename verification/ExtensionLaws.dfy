/** Laws of the extension machine: the verifier's checks are tight, and short instruction
    sequences do what their names say, from every machine. */
module ExtensionLaws {
  import opened Basics
  import opened ControlFlow
  import opened ExtensionIsa
  import opened ExtensionMachine

  // ----- the checks are tight -----

  predicate IsJump(i: Inst) { i.op == OP_JMP || i.IsConditional() }

  /** What one instruction may do: end benignly, go on at the next slot, or jump to an aligned
      slot strictly ahead and inside the program. */
  predicate Proper(i: Inst, pc: nat, len: nat, out: Outcome) {
    match out
    case Stop(r, _) => Benign(r)
    case Next(m) => m.pc == pc + 8 || (IsJump(i) && pc < m.pc < len && m.pc % 8 == 0)
  }

  /** A machine at `pc` with one word on its stack. */
  function Probe(pc: nat, eq: bool): Machine {
    Machine(Repeat(0, REG_COUNT), Repeat(0, STACK_DEPTH), 1, pc, 0, eq, Repeat(0, SCRATCH_SIZE))
  }

  /** An instruction passes its checks if and only if it is proper in every state: nothing is
      let through that can go wrong, and nothing is refused that cannot. */
  lemma ChecksAreTight(i: Inst, pc: nat, len: nat)
    ensures FaultOf(i, pc, len) == None <==>
      forall m: Machine :: m.pc == pc ==> Proper(i, pc, len, Execute(i, len, m))
  {
    if FaultOf(i, pc, len) == None {
      forall m: Machine | m.pc == pc
        ensures Proper(i, pc, len, Execute(i, len, m))
      {
      }
    } else {
      var m := Probe(pc, i.op == OP_JE);
      assert !Proper(i, pc, len, Execute(i, len, m));
    }
  }

  /** A refusal names what is wrong: what the machine would do, or the field out of range. */
  lemma FaultTellsWhy(i: Inst, pc: nat, len: nat, m: Machine)
    requires FaultOf(i, pc, len).Some? && m.pc == pc
    ensures match FaultOf(i, pc, len).value
      case UnknownOpcode => Execute(i, len, m) == Stop(Error(BadOpcode), m)
      case ScratchOutOfBounds => Execute(i, len, m) == Stop(Error(BadScratch), m)
      case BackwardJump => IsJump(i) && pc + i.Offset() <= pc
      case MisalignedTarget => IsJump(i) && pc + i.Offset() > pc && (pc + i.Offset()) % 8 != 0
      case TargetOutOfBounds => IsJump(i) && pc + i.Offset() > pc && pc + i.Offset() >= len
      case BadDst => i.r1 >= 32
      case BadSrc1 => i.r2 >= 32
      case BadSrc2 => i.r3 >= 32
  {
  }

  ghost predicate Moves(i: Inst, pc: nat, len: nat, next: nat) {
    exists m: Machine :: m.pc == pc && Execute(i, len, m).Next? && Execute(i, len, m).m.pc == next
  }

  /** The edges the verifier follows are exactly the moves the machine can make to a slot of the
      program. */
  lemma EdgesAreMoves(i: Inst, pc: nat, len: nat, next: nat)
    requires FaultOf(i, pc, len) == None && pc % 8 == 0 && len % 8 == 0
    ensures next in Targets(i, pc, len) <==> next + 8 <= len && Moves(i, pc, len, next)
  {
    if next in Targets(i, pc, len) {
      var m := Probe(pc, (i.op == OP_JE) == (next == pc + i.Offset()));
      assert Execute(i, len, m).Next? && Execute(i, len, m).m.pc == next;
    } else if next + 8 <= len && Moves(i, pc, len, next) {
      var m: Machine :| m.pc == pc && Execute(i, len, m).Next? && Execute(i, len, m).m.pc == next;
      CheckedInstIsSafe(i, len, m, Execute(i, len, m));
    }
  }

  /** So, without a reachable conditional jump of offset 8, the verifier accepts exactly the
      programs of legal length that end with RET and whose reachable instructions are proper in
      every state. */
  lemma AcceptsIffProper(bc: seq<byte>)
    requires forall pc :: Reachable(Cfg(bc), pc) && Slot(bc, pc) ==> !IsTwin(bc, pc)
    ensures Accepts(bc) <==>
      && LegalLength(bc) && EndsWithRet(bc)
      && forall pc, m: Machine :: Reachable(Cfg(bc), pc) && Slot(bc, pc) && m.pc == pc ==>
           Proper(Fetch(bc, pc), pc, |bc|, Execute(Fetch(bc, pc), |bc|, m))
  {
    AcceptsWithoutTwins(bc);
    forall pc | Slot(bc, pc)
      ensures Passes(bc, pc) <==>
        forall m: Machine :: m.pc == pc ==> Proper(Fetch(bc, pc), pc, |bc|, Execute(Fetch(bc, pc), |bc|, m))
    {
      ChecksAreTight(Fetch(bc, pc), pc, |bc|);
    }
  }

  // ----- instructions in sequence -----

  function Then(i: Inst, j: Inst, len: nat, m: Machine): Outcome {
    var out := Execute(i, len, m);
    if out.Next? then Execute(j, len, out.m) else out
  }

  function Moved(m: Machine, d: byte, v: u64): Machine
    requires d < 32
  {
    m.(regs := m.regs[d := v], pc := m.pc + 16)
  }

  /** ADD d, a, b; SUB d, d, b leaves what `a` held, whatever overflows. */
  lemma AddThenSub(i: Inst, j: Inst, len: nat, m: Machine)
    requires i.op == OP_ADD && j.op == OP_SUB && j.r1 == j.r2 == i.r1 && j.r3 == i.r3 != i.r1
    requires i.r1 < 32 && i.r2 < 32 && i.r3 < 32
    ensures Then(i, j, len, m) == Next(Moved(m, i.r1, m.regs[i.r2]))
  {
    var a, b := m.regs[i.r2], m.regs[i.r3];
    var sum := (a as int + b as int) % WORD;
    assert (sum - b) % WORD == a;
    assert m.regs[i.r1 := sum][i.r1 := a] == m.regs[i.r1 := a];
  }

  /** MOV a, x; MOV b, y: then ADD gives the sum of the two immediates, and SUB the difference
      of the first and the second. */
  lemma MovesThenArithmetic(i: Inst, j: Inst, k: Inst, len: nat, m: Machine)
    requires i.op == OP_MOV && j.op == OP_MOV && i.r1 != j.r1 && i.r1 < 32 && j.r1 < 32
    requires k.r1 < 32 && k.r2 == i.r1 && k.r3 == j.r1
    ensures Then(i, j, len, m) == Next(m.(regs := m.regs[i.r1 := i.imm][j.r1 := j.imm], pc := m.pc + 16))
    ensures var out := Execute(k, len, Then(i, j, len, m).m);
      && (k.op == OP_ADD ==> out.Next? && out.m.regs[k.r1] == i.imm + j.imm)
      && (k.op == OP_SUB && i.imm >= j.imm ==> out.Next? && out.m.regs[k.r1] == i.imm - j.imm)
  {
  }

  /** The number whose bytes are `b`, least significant first. */
  function Value(b: seq<byte>): nat { if b == [] then 0 else b[0] + 256 * Value(b[1..]) }

  function Power256(n: nat): nat { if n == 0 then 1 else 256 * Power256(n - 1) }

  lemma {:induction false} ToLeValue(v: nat, n: nat)
    requires v < Power256(n)
    ensures Value(ToLe(v, n)) == v
    decreases n
  {
    if n > 0 {
      assert v / 256 < Power256(n - 1);
      ToLeValue(v / 256, n - 1);
      assert ToLe(v, n)[1..] == ToLe(v / 256, n - 1);
    }
  }

  lemma FourBytes(b: seq<byte>)
    requires |b| >= 4
    ensures Value(b) == From32(b[0], b[1], b[2], b[3]) + TWO32 * Value(b[4..])
  {
    assert b[1..][1..] == b[2..] && b[2..][1..] == b[3..] && b[3..][1..] == b[4..];
    assert Value(b[2..]) == b[2] + 256 * Value(b[3..]) && Value(b[3..]) == b[3] + 256 * Value(b[4..]);
  }

  lemma Le64Value(b: seq<byte>)
    requires |b| == 8
    ensures Le64(b) == Value(b)
  {
    FourBytes(b);
    FourBytes(b[4..]);
    assert b[4..][4..] == [];
  }

  lemma ReadBack(v: u64)
    ensures Value(ToLe(v, 8)) == v && Le64(ToLe(v, 8)) == v
  {
    assert Power256(4) == TWO32 && Power256(8) == WORD;
    ToLeValue(v, 8);
    Le64Value(ToLe(v, 8));
  }

  lemma SplicedPart(s: seq<byte>, at: nat, bytes: seq<byte>)
    requires at + |bytes| <= |s|
    ensures var t := Splice(s, at, bytes);
      t[at..at + |bytes|] == bytes && t[..at] == s[..at] && t[at + |bytes|..] == s[at + |bytes|..]
  {
  }

  /** STORE then LOAD at one offset copies the register; the bytes are those of the word, least
      significant first, and no other byte changes. */
  lemma StoreThenLoad(i: Inst, j: Inst, len: nat, m: Machine)
    requires i.op == OP_STORE && j.op == OP_LOAD && i.imm == j.imm && i.imm + 8 <= SCRATCH_SIZE
    requires i.r2 < 32 && j.r1 < 32
    ensures var out := Then(i, j, len, m);
      && out.Next? && out.m == Moved(m, j.r1, m.regs[i.r2]).(scratch := out.m.scratch)
      && out.m.scratch[..i.imm] == m.scratch[..i.imm] && out.m.scratch[i.imm + 8..] == m.scratch[i.imm + 8..]
      && Value(out.m.scratch[i.imm..i.imm + 8]) == m.regs[i.r2]
  {
    var bytes := ToLe(m.regs[i.r2], 8);
    SplicedPart(m.scratch, i.imm, bytes);
    ReadBack(m.regs[i.r2]);
  }

  /** PUSH a; POP d copies a register and leaves the stack as deep as it was. */
  lemma PushThenPop(i: Inst, j: Inst, len: nat, m: Machine)
    requires i.op == OP_PUSH && j.op == OP_POP && i.r2 < 32 && j.r1 < 32
    ensures var out := Then(i, j, len, m);
      if m.sp == STACK_DEPTH then out == Stop(Error(StackOverflow), m)
      else out.Next? && out.m == Moved(m, j.r1, m.regs[i.r2]).(stack := out.m.stack)
           && out.m.stack[..m.sp] == m.stack[..m.sp]
  {
  }

  /** PUSH a; PUSH b; POP d; POP e: last in, first out. */
  lemma LastInFirstOut(a: Inst, b: Inst, d: Inst, e: Inst, len: nat, m: Machine)
    requires a.op == b.op == OP_PUSH && d.op == e.op == OP_POP && m.sp + 2 <= STACK_DEPTH
    requires a.r2 < 32 && b.r2 < 32 && d.r1 < 32 && e.r1 < 32
    ensures var pushed := Then(a, b, len, m);
      && pushed.Next? && Then(d, e, len, pushed.m).Next?
      && Then(d, e, len, pushed.m).m.regs == m.regs[d.r1 := m.regs[b.r2]][e.r1 := m.regs[a.r2]]
  {
  }

  /** POP fails on an empty stack and on no other. */
  lemma PopNeedsWord(i: Inst, len: nat, m: Machine)
    requires i.op == OP_POP && i.r1 < 32
    ensures Execute(i, len, m) == Stop(Error(StackUnderflow), m) <==> m.sp == 0
  {
  }

  /** CMP a, b; JE jumps if and only if the registers are equal, JNE if and only if they are
      not, and JMP always. */
  lemma CompareThenJump(i: Inst, j: Inst, len: nat, m: Machine)
    requires i.op == OP_CMP && i.r2 < 32 && i.r3 < 32 && IsJump(j) && FaultOf(j, m.pc + 8, len) == None
    ensures var equal := m.regs[i.r2] == m.regs[i.r3];
      var jumps := j.op == OP_JMP || (j.op == OP_JE && equal) || (j.op == OP_JNE && !equal);
      Then(i, j, len, m) == Next(m.(eq := equal, pc := m.pc + 8 + if jumps then j.Offset() else 8))
  {
  }

  lemma RetStops(i: Inst, len: nat, m: Machine)
    ensures Execute(i, len, m) == Stop(Ok, m) <==> i.op == OP_RET
  {
  }

  /** At boot the first sixteen scratch bytes are the two context words; registers 30 and 31 hold
      the hook type and the first of them, all others zero. */
  lemma BootLayout(scratch: Scratch, hook: byte, context0: u64, context1: u64, r: nat)
    requires r < 32
    ensures var m := Boot(scratch, hook, context0, context1);
      && Value(m.scratch[0..8]) == context0 && Value(m.scratch[8..16]) == context1
      && m.scratch[16..] == scratch[16..]
      && m.regs[r] == (if r == 30 then hook else if r == 31 then context0 else 0)
      && m.sp == 0 && !m.eq && m.stack == Repeat(0, STACK_DEPTH)
  {
    var m := Boot(scratch, hook, context0, context1);
    assert m.scratch[0..8] == ToLe(context0, 8) && m.scratch[8..16] == ToLe(context1, 8);
    assert m.scratch[16..] == scratch[16..];
    ReadBack(context0);
    ReadBack(context1);
  }

  /** LOAD gives the number whose bytes stand at its offset; so from boot, LOAD 0 and LOAD 8 give
      the context words. */
  lemma LoadReads(i: Inst, len: nat, m: Machine)
    requires i.op == OP_LOAD && i.r1 < 32 && i.imm + 8 <= SCRATCH_SIZE
    ensures var out := Execute(i, len, m);
      out.Next? && out.m == m.(regs := out.m.regs, pc := m.pc + 8)
      && out.m.regs == m.regs[i.r1 := out.m.regs[i.r1]]
      && out.m.regs[i.r1] == Value(m.scratch[i.imm..i.imm + 8])
  {
    Le64Value(m.scratch[i.imm..i.imm + 8]);
  }

  // ----- encoding and whole programs -----

  /** The fields of an instruction are its first four bytes and the number in its last four. */
  lemma FetchReads(bc: seq<byte>, pc: nat)
    requires pc + 8 <= |bc|
    ensures var i := Fetch(bc, pc);
      [i.op, i.r1, i.r2, i.r3] == bc[pc..pc + 4] && i.imm == Value(bc[pc + 4..pc + 8])
  {
    var b := bc[pc + 4..pc + 8];
    FourBytes(b);
    assert b[4..] == [];
  }

  /** Jump offsets are in two's complement. */
  lemma OffsetIsSigned(i: Inst)
    ensures 0 - 0x8000_0000 <= i.Offset() < 0x8000_0000 && i.Offset() % TWO32 == i.imm
  {
  }

  lemma Advance(bc: seq<byte>, m: Machine, m': Machine)
    requires m.cycles < CYCLE_BUDGET && m.pc + 8 <= |bc|
    requires Execute(Fetch(bc, m.pc), |bc|, m.(cycles := m.cycles + 1)) == Next(m')
    ensures Run(bc, m) == Run(bc, m')
  {
    var out := RunUnfold(bc, m, Fetch(bc, m.pc), m.(cycles := m.cycles + 1));
  }

  /** A jump to itself, had it got past the verifier, is stopped after exactly 1000 cycles. */
  lemma {:induction false} LoopTimesOut(bc: seq<byte>, m: Machine, n: nat)
    requires |bc| == 8 && Fetch(bc, 0) == Inst(OP_JMP, 0, 0, 0, 0) && m.pc == 0 && m.cycles + n == 1000
    ensures Run(bc, m) == (Timeout, m.(cycles := 1000))
    decreases n
  {
    if n > 0 {
      var m' := m.(cycles := m.cycles + 1);
      Advance(bc, m, m');
      LoopTimesOut(bc, m', n - 1);
    }
  }

  /** A program without conditional jumps whose every slot passes is accepted. */
  lemma StraightIsAccepted(bc: seq<byte>)
    requires LegalLength(bc) && EndsWithRet(bc)
    requires forall pc :: Slot(bc, pc) ==> Passes(bc, pc) && !Fetch(bc, pc).IsConditional()
    ensures Accepts(bc)
  {
    forall pc | Slot(bc, pc)
      ensures Passes(bc, pc) && !IsTwin(bc, pc)
    {
    }
    AcceptsWithoutTwins(bc);
  }

  /** Such as `MOV r0, 7; RET`. */
  lemma MoveProgramAccepted(code: seq<byte>)
    requires code == [0x01, 0, 0, 0, 7, 0, 0, 0, 0x0C, 0, 0, 0, 0, 0, 0, 0]
    ensures Accepts(code) && Fetch(code, 0) == Inst(OP_MOV, 0, 0, 0, 7)
  {
    forall pc | Slot(code, pc)
      ensures Passes(code, pc) && !Fetch(code, pc).IsConditional()
    {
      assert pc == 0 || pc == 8;
    }
    StraightIsAccepted(code);
  }
}
