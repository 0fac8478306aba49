/** The instruction set of kernel extensions: decoding, the verifier's per-instruction
    checks, the control-flow graph, and what it means for a program to be acceptable. */
module ExtensionIsa {
  import opened Basics
  import opened ControlFlow


  const MAX_BYTECODE: nat := 512
  const SCRATCH_SIZE: nat := 256
  const REG_COUNT: nat := 32

  const OP_MOV: byte := 0x01
  const OP_ADD: byte := 0x02
  const OP_SUB: byte := 0x03
  const OP_CMP: byte := 0x04
  const OP_JMP: byte := 0x05
  const OP_JE: byte := 0x06
  const OP_JNE: byte := 0x07
  const OP_LOAD: byte := 0x08
  const OP_STORE: byte := 0x09
  const OP_PUSH: byte := 0x0A
  const OP_POP: byte := 0x0B
  const OP_RET: byte := 0x0C

  /** One 8-byte instruction; `imm` is the little-endian unsigned immediate. */
  datatype Inst = Inst(op: byte, r1: byte, r2: byte, r3: byte, imm: u32) {
    predicate IsConditional() {
      op == OP_JE || op == OP_JNE
    }

    /** The immediate reinterpreted as a signed 32-bit offset. */
    function Offset(): int {
      if imm < 0x8000_0000 then imm else imm - 0x1_0000_0000
    }
  }

  /** Why a single instruction is refused. */
  datatype Fault = BadDst | BadSrc1 | BadSrc2 | ScratchOutOfBounds
                 | BackwardJump | MisalignedTarget | TargetOutOfBounds | UnknownOpcode

  function Fetch(bc: seq<byte>, pc: nat): Inst
    requires pc + 8 <= |bc|
  {
    Inst(bc[pc], bc[pc + 1], bc[pc + 2], bc[pc + 3],
         From32(bc[pc + 4], bc[pc + 5], bc[pc + 6], bc[pc + 7]))
  }

  /** The checks of the verifier on one instruction, in the order it makes them. */
  function FaultOf(i: Inst, pc: nat, len: nat): Option<Fault> {
    if i.op == OP_RET then None
    else if i.op == OP_JMP || i.IsConditional() then
      if i.Offset() <= 0 then Some(BackwardJump)
      else if (pc + i.Offset()) % 8 != 0 then Some(MisalignedTarget)
      else if pc + i.Offset() >= len then Some(TargetOutOfBounds)
      else None
    else if i.op == OP_MOV || i.op == OP_POP then
      if i.r1 >= 32 then Some(BadDst) else None
    else if i.op == OP_ADD || i.op == OP_SUB then
      if i.r1 >= 32 then Some(BadDst)
      else if i.r2 >= 32 then Some(BadSrc1)
      else if i.r3 >= 32 then Some(BadSrc2)
      else None
    else if i.op == OP_CMP then
      if i.r2 >= 32 then Some(BadSrc1)
      else if i.r3 >= 32 then Some(BadSrc2)
      else None
    else if i.op == OP_LOAD then
      if i.r1 >= 32 then Some(BadDst)
      else if i.imm + 8 > SCRATCH_SIZE then Some(ScratchOutOfBounds)
      else None
    else if i.op == OP_STORE then
      if i.r2 >= 32 then Some(BadSrc1)
      else if i.imm + 8 > SCRATCH_SIZE then Some(ScratchOutOfBounds)
      else None
    else if i.op == OP_PUSH then
      if i.r2 >= 32 then Some(BadSrc1) else None
    else Some(UnknownOpcode)
  }

  predicate LegalLength(bc: seq<byte>) {
    8 <= |bc| <= MAX_BYTECODE && |bc| % 8 == 0
  }

  /** `pc` is the address of an instruction slot. */
  predicate Slot(bc: seq<byte>, pc: nat) {
    pc + 8 <= |bc| && pc % 8 == 0
  }

  predicate Passes(bc: seq<byte>, pc: nat)
    requires Slot(bc, pc)
  {
    FaultOf(Fetch(bc, pc), pc, |bc|) == None
  }

  /** Where control may go from instruction `i` at `pc` once it has passed its checks. */
  function Targets(i: Inst, pc: nat, len: nat): set<nat>
    requires FaultOf(i, pc, len) == None
  {
    (if i.op == OP_JMP || i.IsConditional() then {(pc + i.Offset()) as nat} else {}) +
    (if i.op != OP_RET && i.op != OP_JMP && pc + 16 <= len then {pc + 8} else {})
  }

  /** The successors of a slot. A refused instruction leads nowhere. */
  function Succs(bc: seq<byte>, pc: nat): set<nat>
    requires Slot(bc, pc)
  {
    if Passes(bc, pc) then Targets(Fetch(bc, pc), pc, |bc|) else {}
  }

  lemma SuccsAreForward(bc: seq<byte>, pc: nat, next: nat)
    requires LegalLength(bc) && Slot(bc, pc) && next in Succs(bc, pc)
    ensures Slot(bc, next) && next > pc
  {
  }

  predicate EndsWithRet(bc: seq<byte>)
    requires LegalLength(bc)
  {
    bc[|bc| - 8] == OP_RET
  }

  /** A conditional jump whose target is also its fall-through. */
  predicate IsTwin(bc: seq<byte>, pc: nat)
    requires Slot(bc, pc)
  {
    Passes(bc, pc) && Fetch(bc, pc).IsConditional() && Fetch(bc, pc).Offset() == 8
  }

  function Slots(bc: seq<byte>): (r: set<nat>)
    ensures forall pc :: pc in r <==> Slot(bc, pc)
  {
    set pc: nat | pc < |bc| && Slot(bc, pc)
  }

  /** The control-flow graph of a program. */
  function Cfg(bc: seq<byte>): Graph {
    Graph(map pc | pc in Slots(bc) :: Succs(bc, pc),
          set pc | pc in Slots(bc) && !Passes(bc, pc),
          set pc | pc in Slots(bc) && IsTwin(bc, pc))
  }

  lemma CfgAt(bc: seq<byte>, pc: nat)
    ensures pc in Cfg(bc).succ <==> Slot(bc, pc)
    ensures Slot(bc, pc) ==>
      && Cfg(bc).succ[pc] == Succs(bc, pc)
      && (pc in Cfg(bc).bad <==> !Passes(bc, pc))
      && (pc in Cfg(bc).twins <==> IsTwin(bc, pc))
  {
  }

  lemma CfgIsForward(bc: seq<byte>, g: Graph)
    requires LegalLength(bc) && g == Cfg(bc)
    ensures g.Forward()
  {
    CfgAt(bc, 0);
    forall v | v in g.succ
      ensures v % 8 == 0 && v < 512 && g.succ[v] <= g.succ.Keys
      ensures forall w :: w in g.succ[v] ==> w > v
    {
      CfgAt(bc, v);
      forall w | w in g.succ[v]
        ensures w in g.succ && w > v
      {
        SuccsAreForward(bc, v, w);
        CfgAt(bc, w);
      }
    }
  }

  /** Control flow stays inside the reachable slots and moves forward. */
  lemma ReachableNext(bc: seq<byte>, g: Graph, pc: nat, next: nat)
    requires LegalLength(bc) && g == Cfg(bc) && Slot(bc, pc) && Reachable(g, pc) && next in Succs(bc, pc)
    ensures Slot(bc, next) && next > pc && Reachable(g, next)
  {
    SuccsAreForward(bc, pc, next);
    CfgAt(bc, pc);
    CfgIsForward(bc, g);
    ReachableStep(g, pc, next);
  }

  /** Only the last slot has nothing after it, and that is RET. */
  lemma SomethingFollows(bc: seq<byte>, pc: nat)
    requires LegalLength(bc) && EndsWithRet(bc) && Slot(bc, pc) && bc[pc] != OP_RET
    ensures pc + 16 <= |bc|
  {
  }

  /** The exact set of programs the verifier lets through: legal length, every reachable
      instruction passes its checks, the last slot is RET, and no twin is listed before its
      successor in highest-first order. */
  ghost predicate Accepts(bc: seq<byte>) {
    LegalLength(bc) && NoBadReachable(Cfg(bc)) && EndsWithRet(bc) && TwinFree(Cfg(bc))
  }

  /** Without a reachable conditional jump of offset 8 the twin condition is void, so
      acceptance is exactly "legal, every reachable instruction passes, ends with RET". */
  lemma AcceptsWithoutTwins(bc: seq<byte>)
    requires forall pc :: Reachable(Cfg(bc), pc) && Slot(bc, pc) ==> !IsTwin(bc, pc)
    ensures Accepts(bc) <==>
            && LegalLength(bc) && EndsWithRet(bc)
            && forall pc :: Reachable(Cfg(bc), pc) && Slot(bc, pc) ==> Passes(bc, pc)
  {
    var g := Cfg(bc);
    forall pc
      ensures Slot(bc, pc) ==> (pc in g.bad <==> !Passes(bc, pc))
      ensures pc in g.bad ==> Slot(bc, pc)
    {
      CfgAt(bc, pc);
    }
    if LegalLength(bc) {
      CfgIsForward(bc, g);
      forall o | HighestFirst(g, o)
        ensures TwinsLate(g, o)
      {
        forall k: nat | k < |o|
          ensures LateAt(g, o, k)
        {
          ListedAreReachable(g, o, k);
          CfgAt(bc, o[k]);
        }
      }
    }
  }
}
