/** The bytecode verifier: a depth-first walk of the control-flow graph with an explicit
    stack and a visited table, proved to accept exactly the programs of
    `ExtensionIsa.Accepts`. */
module ExtensionVerifier {
  import opened Basics
  import opened ControlFlow
  import opened ExtensionIsa

  datatype Reason = EmptyCode | TooShort | TooLong | NotMultipleOf8
                  | PcOutOfBounds | BackEdge | TooComplex | NoFinalRet
                  | BadInstruction(fault: Fault)

  datatype Verdict = Accepted | Rejected(reason: Reason)

  predicate FallsThrough(i: Inst) { i.op != OP_RET && i.op != OP_JMP }

  predicate Jumps(i: Inst) { i.op == OP_JMP || i.IsConditional() }

  /** `v` alone, unless it is among the visited ones. */
  function Unless(v: nat, seen: seq<nat>): seq<nat> {
    if v in seen then [] else [v]
  }

  /** What the verifier pushes for an instruction: the fall-through first, then the jump
      target, each only if it is not among the visited ones, `seen`. */
  function PushList(i: Inst, pc: nat, len: nat, seen: seq<nat>): seq<nat>
    requires FaultOf(i, pc, len) == None
  {
    (if FallsThrough(i) && pc + 16 <= len then Unless(pc + 8, seen) else []) +
    (if Jumps(i) then Unless((pc + i.Offset()) as nat, seen) else [])
  }

  function Pushes(bc: seq<byte>, pc: nat, seen: seq<nat>): seq<nat>
    requires Slot(bc, pc) && Passes(bc, pc)
  {
    PushList(Fetch(bc, pc), pc, |bc|, seen)
  }

  lemma PushListOrder(i: Inst, pc: nat, len: nat, seen: seq<nat>)
    requires FaultOf(i, pc, len) == None && pc % 8 == 0 && len % 8 == 0
    ensures forall w :: w in PushList(i, pc, len, seen) <==> w in Targets(i, pc, len) && w !in seen
    ensures if i.IsConditional() && i.Offset() == 8 && pc + 8 !in seen
            then PushList(i, pc, len, seen) == [pc + 8, pc + 8]
            else Ascending(PushList(i, pc, len, seen))
  {
  }

  /** The visited table marks exactly the instructions listed in `o`. */
  ghost predicate Marks(visited: seq<bool>, o: seq<nat>) {
    |visited| == 64 && forall i :: 0 <= i < 64 ==> (visited[i] <==> 8 * i in o)
  }

  lemma MarkStep(visited: seq<bool>, o: seq<nat>, idx: nat)
    requires Marks(visited, o) && idx < 64
    ensures Marks(visited[idx := true], o + [8 * idx])
  {
  }

  lemma PushesMatchGraph(bc: seq<byte>, pc: nat, seen: seq<nat>)
    requires LegalLength(bc) && Slot(bc, pc) && Passes(bc, pc)
    ensures pc in Cfg(bc).succ && pc !in Cfg(bc).bad
    ensures PushesFor(Cfg(bc), pc, seen, Pushes(bc, pc, seen))
  {
    CfgAt(bc, pc);
    PushListOrder(Fetch(bc, pc), pc, |bc|, seen);
  }

  /** The tail of one iteration: push the fall-through, then the target, if unvisited. */
  method PushSuccessors(inst: Inst, pc: nat, len: nat, visited: array<bool>, stack: array<nat>, sp: nat,
                        ghost seen: seq<nat>)
    returns (sp': nat)
    requires FaultOf(inst, pc, len) == None && pc % 8 == 0 && len % 8 == 0 && pc + 8 <= len <= MAX_BYTECODE
    requires visited.Length == 64 && stack.Length == 64 && sp <= 62
    requires Marks(visited[..], seen)
    modifies stack
    ensures sp' <= 64
    ensures stack[..sp'] == old(stack[..sp]) + PushList(inst, pc, len, seen)
  {
    var idx := pc / 8;
    sp' := sp;
    assert idx + 1 < len / 8 <==> pc + 16 <= len;
    if FallsThrough(inst) && idx + 1 < len / 8 {
      sp' := PushUnvisited(pc + 8, visited, stack, sp', seen);
    }
    if Jumps(inst) {
      sp' := PushUnvisited(pc + inst.Offset(), visited, stack, sp', seen);
    }
  }

  method PushUnvisited(target: nat, visited: array<bool>, stack: array<nat>, sp: nat, ghost seen: seq<nat>)
    returns (sp': nat)
    requires target % 8 == 0 && target < MAX_BYTECODE
    requires visited.Length == 64 && stack.Length == 64 && sp <= 63
    requires Marks(visited[..], seen)
    modifies stack
    ensures sp <= sp' <= sp + 1
    ensures stack[..sp'] == old(stack[..sp]) + Unless(target, seen)
  {
    sp' := sp;
    assert visited[..][target / 8] <==> target in seen;
    if !visited[target / 8] {
      stack[sp'] := target;
      sp' := sp' + 1;
    }
  }

  function Unmarked(visited: seq<bool>): set<nat> {
    set i: nat | i < |visited| && !visited[i]
  }

  /** One iteration of the walk: pop an instruction, refuse it, or mark it and push its
      successors. `o` lists the instructions visited so far. */
  method Visit(bc: seq<byte>, visited: array<bool>, stack: array<nat>, sp: nat, ghost o: seq<nat>)
    returns (refused: Option<Reason>, sp': nat, ghost o': seq<nat>)
    requires visited.Length == 64 && stack.Length == 64 && 0 < sp < 64
    requires LegalLength(bc) && WalkInvariant(Cfg(bc), stack[..sp], o) && Marks(visited[..], o)
    modifies visited, stack
    ensures refused.Some? ==> !Accepts(bc)
    ensures refused.Some? && (refused.value.BackEdge? || refused.value.TooComplex?) ==> !TwinFree(Cfg(bc))
    ensures refused.Some? ==> refused.value.BackEdge? || refused.value.TooComplex? || refused.value.BadInstruction?
    ensures refused == None ==> sp' < 64 && WalkInvariant(Cfg(bc), stack[..sp'], o') && Marks(visited[..], o')
    ensures refused == None ==> Unmarked(visited[..]) < old(Unmarked(visited[..]))
  {
    sp' := sp - 1;
    o' := o;
    var pc := stack[sp'];
    var idx := pc / 8;
    ghost var rest := stack[..sp'];
    assert stack[..sp] == rest + [pc] && stack[..sp][sp'] == pc;
    CfgAt(bc, pc);
    assert pc == 8 * idx;
    if idx >= |bc| / 8 {
      return Some(PcOutOfBounds), sp', o;
    }
    if visited[idx] {
      RevisitNeedsTwin(Cfg(bc), rest, pc, o);
      return Some(BackEdge), sp', o;
    }
    MarkStep(visited[..], o, idx);
    assert idx in Unmarked(visited[..]);
    visited[idx] := true;
    assert visited[..] == old(visited[..])[idx := true];
    var inst := Fetch(bc, pc);
    var fault := FaultOf(inst, pc, |bc|);
    if fault.Some? {
      BadPopRejects(Cfg(bc), rest, pc, o);
      return Some(BadInstruction(fault.value)), sp', o;
    }
    PushesMatchGraph(bc, pc, o + [pc]);
    WalkStep(Cfg(bc), rest, pc, o, Pushes(bc, pc, o + [pc]));
    o' := o + [pc];
    sp' := PushSuccessors(inst, pc, |bc|, visited, stack, sp', o');
    if sp' >= 64 {
      FullStackNeedsTwin(Cfg(bc), stack[..sp'], o');
      return Some(TooComplex), sp', o';
    }
    return None, sp', o';
  }

  method VerifyBytecode(bc: seq<byte>) returns (r: Verdict)
    // accepted exactly when the program is acceptable, for every input
    ensures r == Accepted <==> Accepts(bc)
    // the two control-flow rejections need an early twin, and one rejection is dead code
    ensures r == Rejected(BackEdge) || r == Rejected(TooComplex) ==> !TwinFree(Cfg(bc))
    ensures r != Rejected(PcOutOfBounds)
    ensures !LegalLength(bc) <==> r in {Rejected(EmptyCode), Rejected(TooShort), Rejected(TooLong), Rejected(NotMultipleOf8)}
  {
    if |bc| == 0 { return Rejected(EmptyCode); }
    if |bc| < 8 { return Rejected(TooShort); }
    if |bc| > MAX_BYTECODE { return Rejected(TooLong); }
    if |bc| % 8 != 0 { return Rejected(NotMultipleOf8); }

    var visited := new bool[64](_ => false);
    var stack := new nat[64](_ => 0);
    stack[0] := 0;
    var sp: nat := 1;
    ghost var o: seq<nat> := [];
    assert stack[..1] == [0];
    ghost var g := Cfg(bc);
    CfgIsForward(bc, g);
    StartIsClean(g);
    while sp > 0
      invariant sp < 64
      invariant WalkInvariant(Cfg(bc), stack[..sp], o) && Marks(visited[..], o)
      decreases Unmarked(visited[..])
    {
      var refused;
      refused, sp, o := Visit(bc, visited, stack, sp, o);
      if refused.Some? {
        return Rejected(refused.value);
      }
    }
    assert stack[..0] == [];
    EmptyStackAccepts(Cfg(bc), o);
    if bc[|bc| - 8] != OP_RET {
      return Rejected(NoFinalRet);
    }
    return Accepted;
  }
}
