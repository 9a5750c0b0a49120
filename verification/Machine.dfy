/** What one instruction does to the architectural state.

    The callbacks are those of src/executor/executor.cc, as written.  The state carries the event log
    that co-simulation prints, and the executor's instruction counter.
  */
module Machine {
  import opened Bits
  import opened Wrappers
  import opened FlatMemory
  import opened Instructions
  import opened DecoderTable

  const XLEN_BYTES: nat := 4
  const COUNTER_LIMIT: nat := 0x1_0000_0000_0000_0000

  type Regs = s: seq<Word> | |s| == 32 witness seq(32, _ => 0)
  type CSRegs = s: seq<Word> | |s| == 4096 witness seq(4096, _ => 0)

  datatype Event = Num(n: nat) | RegSet(r: nat, v: Word) | MemSet(a: Word, v: Word) | PcSet(pc: Word)

  datatype Error =
    | MemoryError(e: MemError)
    | UnknownInstruction
    | NotImplemented
    | DivisionByZero
    | UndefinedShift   // a C++ shift by 32 or more
    | NullCallback
    | OutOfRange       // a register index past the end of the file

  datatype Arch = Arch(
    pc: Word, npc: Word, regs: Regs, csregs: CSRegs, mem: Flat,
    branchIsTaken: bool, complete: bool, instrCount: nat, log: seq<Event>)
  {
    function SetReg(r: nat, v: Word): Arch
      requires r < 32
    {
      if r == 0 then this else this.(regs := regs[r := v], log := log + [RegSet(r, v)])
    }

    function SetCSReg(r: nat, v: Word): Arch
      requires r < 4096
    {
      this.(csregs := csregs[r := v])
    }
  }

  /** `Threw` carries the state in which the exception left the machine. */
  datatype Outcome = Done(st: Arch) | Threw(e: Error, st: Arch)

  // ----- the arithmetic of RegVal -----

  lemma AddMod(a: nat, b: nat, c: nat)
    ensures ((a + b) % COUNTER_LIMIT + c) % COUNTER_LIMIT == (a + (b + c)) % COUNTER_LIMIT
  {}

  function Wrap(v: int): Word { v % WORD_LIMIT }

  lemma WrapTwice(x: int, y: int)
    ensures Wrap(Wrap(x) + y) == Wrap(x + y)
  {}

  function AddW(a: Word, b: Word): Word { Wrap(a + b) }

  function SubW(a: Word, b: Word): Word { Wrap(a - b) }

  function MulW(a: Word, b: Word): Word { Wrap(a * b) }

  function ShlW(a: Word, s: nat): Word { Pow2Values(); Shl(32, a, s) }

  function ShrW(a: Word, s: nat): Word { Shr(a, s) }

  /** `>>` on a signed value, back in a register. */
  function SarW(a: Word, s: nat): Word { Wrap(AsSigned(32, a) / Pow2(s)) }

  function LowFive(v: Word): (r: nat)
    ensures r < 32
  {
    Pow2Values();
    LowBits(32, 5, v);
    GetBits(32, 4, 0, v)
  }

  function ClearBit0(v: Word): Word {
    Pow2Values();
    forall i: nat | i >= 32 ensures !Bit(SetBit(0, false, v), i) { SetBitBit(0, false, v, i); HighBit(v, 32, i); }
    BoundedByBits(SetBit(0, false, v), 32);
    SetBit(0, false, v)
  }

  // ----- the callbacks -----

  function LoadWord(m: Flat, a: Word): Result<Word, MemError> {
    match m.Load(W32, a)
    case Failure(e) => Failure(e)
    case Success(v) => ComposeBound(m, a); Success(v)
  }

  /** The value register arithmetic leaves in rd, and the callbacks that only throw. */
  function RegisterValue(inst: Instruction, pc: Word, rs1: Word, rs2: Word): Result<Word, Error> {
    var imm := inst.imm;
    match inst.callback
    case ADD => Success(AddW(rs1, rs2))
    case SUB => Success(SubW(rs1, rs2))
    case MUL => Success(MulW(rs1, rs2))
    case DIV => if rs2 == 0 then Failure(DivisionByZero) else Success(rs1 / rs2)
    case XOR => Success(XorW(rs1, rs2))
    case SLL => if rs2 >= 32 then Failure(UndefinedShift) else Success(ShlW(rs1, rs2))
    case SRL => if rs2 >= 32 then Failure(UndefinedShift) else Success(ShrW(rs1, rs2))
    case SRA => if rs2 >= 32 then Failure(UndefinedShift) else Success(SarW(rs1, rs2))
    case ADDI => Success(AddW(rs1, imm))
    case ANDI => Success(AndW(rs1, imm))
    case ORI => Success(OrW(rs1, imm))
    case XORI => Success(XorW(rs1, imm))
    case SLTI => Success(if AsSigned(32, rs1) < AsSigned(32, imm) then 1 else 0)
    case SLTIU => Success(if rs1 < imm then 1 else 0)
    case SLLI => Success(ShlW(rs1, LowFive(imm)))
    case SRLI => Success(ShrW(rs1, LowFive(imm)))
    case SRAI => Success(SarW(rs1, LowFive(imm)))
    case LUI => Success(ShlW(imm, 12))
    case AUIPC => Success(AddW(pc, ShlW(imm, 12)))
    case UNKNOWN => Failure(NullCallback)
    case _ => Failure(NotImplemented)
  }

  function Arithmetic(inst: Instruction, s: Arch): Outcome
    requires inst.InRange()
  {
    Retire(inst, s, RegisterValue(inst, s.pc, s.regs[inst.rs1], s.regs[inst.rs2]))
  }

  function Retire(inst: Instruction, s: Arch, v: Result<Word, Error>): Outcome
    requires inst.InRange()
  {
    match v
    case Failure(e) => Threw(e, s)
    case Success(v) => Done(s.SetReg(inst.rd, v))
  }

  function MemoryAccess(inst: Instruction, s: Arch): Outcome
    requires inst.InRange()
  {
    var a := AddW(s.regs[inst.rs1], inst.imm);
    if inst.callback == LW then
      match LoadWord(s.mem, a)
      case Failure(e) => Threw(MemoryError(e), s)
      case Success(v) => Done(s.SetReg(inst.rd, v))
    else
      var v := s.regs[inst.rs2];
      match s.mem.Store(W32, a, v)
      case Failure(e) => Threw(MemoryError(e), s)
      case Success(m) => Done(s.(mem := m, log := s.log + [MemSet(a, v)]))
  }

  /** The condition of a conditional branch, as the callback computes it. */
  predicate Condition(op: OpType, rs1: Word, rs2: Word) {
    match op
    case BEQ => rs1 == rs2
    case BNE => rs1 != rs2
    case BLT => rs1 < rs2
    case BLTU => rs1 > rs2
    case BGEU => rs1 >= rs2
    case BGE => AsSigned(32, rs1) >= AsSigned(32, rs2)
    case _ => false
  }

  // Which callback is which: of the operations themselves, whatever the decoder's branch list says.

  predicate IsJump(op: OpType) { op.JAL? || op.JALR? }

  predicate IsConditional(op: OpType) { op.BEQ? || op.BNE? || op.BLT? || op.BLTU? || op.BGE? || op.BGEU? }

  predicate IsCSR(op: OpType) { op.CSRRW? || op.CSRRS? || op.CSRRC? || op.CSRRWI? || op.CSRRSI? || op.CSRRCI? }

  function Jump(inst: Instruction, s: Arch): Outcome
    requires inst.InRange()
  {
    var target := if inst.callback == JALR then ClearBit0(AddW(s.regs[inst.rs1], inst.imm)) else AddW(s.pc, inst.imm);
    Done(s.(branchIsTaken := true, npc := target).SetReg(inst.rd, AddW(s.pc, XLEN_BYTES)))
  }

  function Branch(inst: Instruction, s: Arch): Outcome
    requires inst.InRange()
  {
    if Condition(inst.callback, s.regs[inst.rs1], s.regs[inst.rs2])
    then Done(s.(branchIsTaken := true, npc := AddW(s.pc, inst.imm)))
    else Done(s)
  }

  /** The new value of a CSR; the immediate forms take the index of rs1 as their operand. */
  function CSRValue(inst: Instruction, rs1: Word, csr: Word): Word
    requires inst.InRange()
  {
    match inst.callback
    case CSRRW => rs1
    case CSRRS => OrW(rs1, csr)
    case CSRRC => AndW(rs1, NotW(csr))
    case CSRRWI => LowFive(inst.rs1)
    case CSRRSI => OrW(csr, LowFive(inst.rs1))
    case _ => AndW(csr, NotW(LowFive(inst.rs1)))
  }

  function CSRAccess(inst: Instruction, s: Arch): Outcome
    requires inst.InRange()
  {
    var csr := s.csregs[inst.csr];
    Done(s.SetCSReg(inst.csr, CSRValue(inst, s.regs[inst.rs1], csr)).SetReg(inst.rd, csr))
  }

  function Callback(inst: Instruction, s: Arch): Outcome
    requires inst.InRange()
  {
    var op := inst.callback;
    if op == LW || op == SW then MemoryAccess(inst, s)
    else if IsJump(op) then Jump(inst, s)
    else if IsConditional(op) then Branch(inst, s)
    else if op == ECALL then Done(s.(complete := true))
    else if IsCSR(op) then CSRAccess(inst, s)
    else Arithmetic(inst, s)
  }

  /** After a callback: the program counter moves on, to npc when a branch is taken. */
  function Advanced(r: Outcome): Outcome {
    match r
    case Threw(e, t) => r
    case Done(t) =>
      if t.branchIsTaken then Done(t.(pc := t.npc, branchIsTaken := false))
      else Done(t.(pc := AddW(t.pc, XLEN_BYTES)))
  }

  /** `Executor::execute` for one instruction: the callback, then the program counter. */
  function Execute(inst: Instruction, s: Arch): Outcome
    requires inst.InRange()
  {
    Advanced(Callback(inst, s))
  }

  /** The end of a round of the block loop: log the pc, count. */
  function Counted(t: Arch): Arch {
    t.(log := t.log + [PcSet(t.pc)], instrCount := (t.instrCount + 1) % COUNTER_LIMIT)
  }

  function Finished(r: Outcome): Outcome {
    match r
    case Threw(e, t) => r
    case Done(t) => Done(Counted(t))
  }

  /** One round of the block loop: log the number, execute, log the pc, count. */
  function ExecuteLogged(inst: Instruction, s: Arch): Outcome
    requires inst.InRange()
  {
    Finished(Execute(inst, s.(log := s.log + [Num(s.instrCount)])))
  }

  // ----- fetch and decode -----

  function DecodeAt(table: seq<Entry>, m: Flat, a: Word): Result<Instruction, Error> {
    match LoadWord(m, a)
    case Failure(e) => Failure(MemoryError(e))
    case Success(w) =>
      var inst := Decode(table, w);
      if inst.optype == UNKNOWN then Failure(UnknownInstruction) else Success(inst)
  }

  lemma DecodeAtIsSafe(table: seq<Entry>, m: Flat, a: Word)
    ensures DecodeAt(table, m, a).Success? ==>
              var inst := DecodeAt(table, m, a).value;
              inst.InRange() && (inst.isBranch <==> inst.callback in BRANCH_MNEMONICS)
  {
    match LoadWord(m, a)
    case Failure(_) =>
    case Success(w) => DecodedIsSafe(table, w);
  }

  // ----- what one instruction keeps -----

  /** A callback that is not in the branch list leaves both flags and npc alone, only ECALL completes and
      only SW stores; none of them touches pc, x0 or the counter, and one that throws changes nothing. */
  ghost predicate Effect(inst: Instruction, s: Arch, r: Outcome) {
    && r.st.pc == s.pc && r.st.instrCount == s.instrCount && r.st.regs[0] == s.regs[0]
    && (inst.callback !in BRANCH_MNEMONICS ==> r.st.branchIsTaken == s.branchIsTaken && r.st.npc == s.npc)
    && (inst.callback != ECALL ==> r.st.complete == s.complete)
    && (inst.callback != SW ==> r.st.mem == s.mem)
    && (r.Threw? ==> r.st == s && r.e != OutOfRange)
  }

  lemma CallbackEffect(inst: Instruction, s: Arch)
    requires inst.InRange()
    ensures Effect(inst, s, Callback(inst, s))
  {
    var op := inst.callback;
    if op == LW || op == SW {
      MemoryEffect(inst, s);
    } else if IsJump(op) {
      JumpEffect(inst, s);
    } else if IsConditional(op) {
      BranchEffect(inst, s);
    } else if op == ECALL {
      assert op in BRANCH_MNEMONICS;
    } else if IsCSR(op) {
      CSREffect(inst, s);
    } else {
      ArithmeticEffect(inst, s);
    }
  }

  lemma ArithmeticEffect(inst: Instruction, s: Arch)
    requires inst.InRange()
    ensures Effect(inst, s, Arithmetic(inst, s))
  {
    NeverOutOfRange(inst, s.pc, s.regs[inst.rs1], s.regs[inst.rs2]);
    RetireEffect(inst, s, RegisterValue(inst, s.pc, s.regs[inst.rs1], s.regs[inst.rs2]));
  }

  lemma RetireEffect(inst: Instruction, s: Arch, v: Result<Word, Error>)
    requires inst.InRange() && v != Failure(OutOfRange)
    ensures Effect(inst, s, Retire(inst, s, v))
  {}

  lemma NeverOutOfRange(inst: Instruction, pc: Word, rs1: Word, rs2: Word)
    ensures RegisterValue(inst, pc, rs1, rs2) != Failure(OutOfRange)
  {}

  lemma MemoryEffect(inst: Instruction, s: Arch)
    requires inst.InRange() && (inst.callback == LW || inst.callback == SW)
    ensures Effect(inst, s, MemoryAccess(inst, s))
  {}

  lemma JumpEffect(inst: Instruction, s: Arch)
    requires inst.InRange() && IsJump(inst.callback)
    ensures Effect(inst, s, Jump(inst, s))
  {}

  lemma BranchEffect(inst: Instruction, s: Arch)
    requires inst.InRange() && IsConditional(inst.callback)
    ensures Effect(inst, s, Branch(inst, s))
  {}

  lemma CSREffect(inst: Instruction, s: Arch)
    requires inst.InRange() && IsCSR(inst.callback)
    ensures Effect(inst, s, CSRAccess(inst, s))
  {}

  /** Only the listed mnemonics divert control or end the run: any other instruction falls through. */
  lemma NonBranchFallsThrough(inst: Instruction, s: Arch)
    requires inst.InRange() && inst.callback !in BRANCH_MNEMONICS && !s.branchIsTaken
    ensures ExecuteLogged(inst, s).Done? ==>
              var t := ExecuteLogged(inst, s).st;
              t.pc == AddW(s.pc, XLEN_BYTES) && t.complete == s.complete && !t.branchIsTaken
  {
    CallbackEffect(inst, s.(log := s.log + [Num(s.instrCount)]));
  }

  /** The callback raises the branch flag or `complete` from a state with neither. */
  ghost predicate Diverts(inst: Instruction, s: Arch) {
    && inst.InRange() && !s.branchIsTaken && !s.complete
    && (Callback(inst, s).st.branchIsTaken || Callback(inst, s).st.complete)
  }

  /** The decoder's list is exactly right: its mnemonics are those whose callbacks can divert control or end
      the run. */
  lemma BranchListIsExact(op: OpType)
    ensures op in BRANCH_MNEMONICS <==> exists inst: Instruction, s: Arch :: inst.callback == op && Diverts(inst, s)
  {
    forall inst: Instruction, s: Arch | inst.callback == op && Diverts(inst, s) ensures op in BRANCH_MNEMONICS {
      CallbackEffect(inst, s);
    }
    if op in BRANCH_MNEMONICS {
      var inst, s := Diverting(op);
    }
  }

  /** An instruction on x1 and x2, and values in them for which it diverts. */
  lemma Diverting(op: OpType) returns (inst: Instruction, s: Arch)
    requires op in BRANCH_MNEMONICS
    ensures inst.callback == op && Diverts(inst, s)
  {
    inst := Instruction(1, 2, 0, 0, 0, 0, op, 0, true, op);
    var a: Word := if op == BLTU || op == BGEU then 1 else 0;
    var b: Word := if op == BNE || op == BLT then 1 else 0;
    var regs: Regs := seq(32, i => if i == 1 then a else if i == 2 then b else 0);
    s := Arch(0, 0, regs, seq(4096, _ => 0), EMPTY, false, false, 1, []);
    assert op != JAL && op != JALR && op != ECALL ==> Condition(op, s.regs[1], s.regs[2]);
  }
}
