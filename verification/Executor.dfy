/** include/executor/executor.hh and src/executor/executor.cc: callbacks that write the state in place, and
    the loop that executes a block.  An exception is the returned error; it leaves the state that the
    specification's outcome carries.
  */
module Executor {
  import opened Wrappers
  import opened Instructions
  import opened Machine
  import opened BlockCache
  import opened Interpreter
  import opened BlockRun
  import opened State

  /** What a finished or thrown execution shows in the state. */
  ghost predicate Shows(o: Outcome, e: Option<Error>, after: Arch) {
    o == match e case None => Done(after) case Some(err) => Threw(err, after)
  }

  /** The end of a round, given how the instruction went. */
  lemma RoundShows(inst: Instruction, s: Arch, e: Option<Error>, after: Arch)
    requires inst.InRange() && Shows(Execute(inst, s.(log := s.log + [Num(s.instrCount)])), e, after)
    ensures Shows(ExecChecked(inst, s), e, if e.Some? then after else Counted(after))
  {}

  class Executor {
    /** `instrCount`, a 64-bit counter that starts at one. */
    var instrCount: nat

    constructor ()
      ensures instrCount == 1
    {
      instrCount := 1;
    }

    method ExecuteArithmetic(inst: Instruction, state: State) returns (e: Option<Error>)
      requires state.Valid() && inst.InRange()
      modifies state, state.regs.regs
      ensures state.Valid() && Shows(Arithmetic(inst, old(state.View(instrCount))), e, state.View(instrCount))
    {
      var rs1 := state.regs.Get(inst.rs1);
      var rs2 := state.regs.Get(inst.rs2);
      var value := RegisterValue(inst, state.pc, rs1, rs2);
      if value.Failure? {
        return Some(value.error);
      }
      state.SetReg(inst.rd, value.value, instrCount);
      return None;
    }
 
    /** `executeLW`. */
    method ExecuteLoad(inst: Instruction, state: State) returns (e: Option<Error>)
      requires state.Valid() && inst.InRange() && inst.callback == LW && this as object !in state.mem.Repr
      modifies state, state.regs.regs, state.mem, state.mem.Repr
      ensures state.Valid() && state.mem.Repr == old(state.mem.Repr)
      ensures Shows(MemoryAccess(inst, old(state.View(instrCount))), e, state.View(instrCount))
    {
      var rs1 := state.regs.Get(inst.rs1);
      var word := state.Load(AddW(rs1, inst.imm), instrCount);
      if word.Failure? {
        return Some(MemoryError(word.error));
      }
      state.SetReg(inst.rd, word.value, instrCount);
      return None;
    }

    /** `executeSW`. */
    method ExecuteStore(inst: Instruction, state: State) returns (e: Option<Error>)
      requires state.Valid() && inst.InRange() && inst.callback == SW && this as object !in state.mem.Repr
      modifies state, state.mem, state.mem.Repr
      ensures state.Valid() && fresh(state.mem.Repr - old(state.mem.Repr))
      ensures Shows(MemoryAccess(inst, old(state.View(instrCount))), e, state.View(instrCount))
    {
      var rs1 := state.regs.Get(inst.rs1);
      var rs2 := state.regs.Get(inst.rs2);
      var stored := state.Store(AddW(rs1, inst.imm), rs2, instrCount);
      if stored.Failure? {
        return Some(MemoryError(stored.error));
      }
      return None;
    }

    /** `executeJAL` and `executeJALR`. */
    method ExecuteJump(inst: Instruction, state: State)
      requires state.Valid() && inst.InRange() && IsJump(inst.callback)
      modifies state, state.regs.regs
      ensures state.Valid() && Jump(inst, old(state.View(instrCount))) == Done(state.View(instrCount))
    {
      var rs1 := state.regs.Get(inst.rs1);
      state.branchIsTaken := true;
      state.npc := if inst.callback == JALR then ClearBit0(AddW(rs1, inst.imm)) else AddW(state.pc, inst.imm);
      state.SetReg(inst.rd, AddW(state.pc, XLEN_BYTES), instrCount);
    }

    /** `executeCondBranch`. */
    method ExecuteBranch(inst: Instruction, state: State)
      requires state.Valid() && inst.InRange() && IsConditional(inst.callback)
      modifies state
      ensures state.Valid() && Branch(inst, old(state.View(instrCount))) == Done(state.View(instrCount))
    {
      var rs1 := state.regs.Get(inst.rs1);
      var rs2 := state.regs.Get(inst.rs2);
      if Condition(inst.callback, rs1, rs2) {
        state.branchIsTaken := true;
        state.npc := AddW(state.pc, inst.imm);
      }
    }

    method ExecuteCSR(inst: Instruction, state: State)
      requires state.Valid() && inst.InRange()
      modifies state, state.regs.regs, state.csregs.regs
      ensures state.Valid() && CSRAccess(inst, old(state.View(instrCount))) == Done(state.View(instrCount))
    {
      var rs1 := state.regs.Get(inst.rs1);
      var csr := state.csregs.Get(inst.csr);
      state.SetCSReg(inst.csr, CSRValue(inst, rs1, csr), instrCount);
      state.SetReg(inst.rd, csr, instrCount);
    }

    /** `inst.callback(inst, state)`. */
    method Call(inst: Instruction, state: State) returns (e: Option<Error>)
      requires state.Valid() && inst.InRange() && this as object !in state.mem.Repr
      modifies state, state.regs.regs, state.csregs.regs, state.mem, state.mem.Repr
      ensures state.Valid() && fresh(state.mem.Repr - old(state.mem.Repr))
      ensures Shows(Callback(inst, old(state.View(instrCount))), e, state.View(instrCount))
    {
      var op := inst.callback;
      e := None;
      if op == LW {
        e := ExecuteLoad(inst, state);
      } else if op == SW {
        e := ExecuteStore(inst, state);
      } else if IsJump(op) {
        ExecuteJump(inst, state);
      } else if IsConditional(op) {
        ExecuteBranch(inst, state);
      } else if op == ECALL {
        state.complete := true;
      } else if IsCSR(op) {
        ExecuteCSR(inst, state);
      } else {
        e := ExecuteArithmetic(inst, state);
      }
    }

    /** One instruction: the callback, then the program counter. */
    method ExecuteInst(inst: Instruction, state: State) returns (e: Option<Error>)
      requires state.Valid() && inst.InRange() && this as object !in state.mem.Repr
      modifies state, state.regs.regs, state.csregs.regs, state.mem, state.mem.Repr
      ensures state.Valid() && fresh(state.mem.Repr - old(state.mem.Repr))
      ensures Shows(Execute(inst, old(state.View(instrCount))), e, state.View(instrCount))
    {
      e := Call(inst, state);
      if e.Some? {
        return;
      }
      if state.branchIsTaken {
        state.pc := state.npc;
        state.branchIsTaken := false;
      } else {
        state.pc := AddW(state.pc, XLEN_BYTES);
      }
    }

    /** One round of the loop over a block. */
    method ExecuteRound(inst: Instruction, state: State) returns (e: Option<Error>)
      requires state.Valid() && this as object !in state.Repr()
      modifies this, state.Repr()
      ensures state.Valid() && fresh(state.mem.Repr - old(state.mem.Repr))
      ensures Shows(ExecChecked(inst, old(state.View(instrCount))), e, state.View(instrCount))
    {
      if !inst.InRange() {
        return Some(OutOfRange);
      }
      ghost var s := state.View(instrCount);
      state.log := state.log + [Num(instrCount)];
      e := ExecuteInst(inst, state);
      ghost var t := state.View(instrCount);
      RoundShows(inst, s, e, t);
      if e.Some? {
        return;
      }
      CountInst(state);
    }

    /** The end of a round that did not throw. */
    method CountInst(state: State)
      requires state.Valid()
      modifies this`instrCount, state`log
      ensures state.Valid()
      ensures state.View(instrCount) == Counted(old(state.View(instrCount)))
    {
      state.log := state.log + [PcSet(state.pc)];
      instrCount := (instrCount + 1) % COUNTER_LIMIT;
    }

    /** The block, instruction by instruction, until one throws. */
    method ExecuteBlock(bb: Block, state: State, ghost cpu: Cpu) returns (e: Option<Error>)
      requires state.Valid() && this as object !in state.Repr() && ExecWired(cpu)
      modifies this, state.Repr()
      ensures state.Valid() && fresh(state.mem.Repr - old(state.mem.Repr))
      ensures Shows(BlockRun.ExecuteBlock(cpu, bb, old(state.View(instrCount))), e, state.View(instrCount))
    {
      ghost var s := state.View(instrCount);
      for i := 0 to |bb|
        invariant state.Valid() && fresh(state.mem.Repr - old(state.mem.Repr))
        invariant BlockRun.ExecuteBlock(cpu, bb, s)
                  == BlockRun.ExecuteBlock(cpu, bb[i..], state.View(instrCount))
      {
        assert bb[i..][0] == bb[i] && bb[i..][1..] == bb[i + 1..];
        e := ExecuteRound(bb[i], state);
        if e.Some? {
          return;
        }
      }
      e := None;
    }
  }
}
