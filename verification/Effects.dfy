/** What each instruction leaves behind, in plain arithmetic, bits and bytes, and not in terms of the functions
    that `Machine` is made of: where control goes, what registers, CSRs, memory and log hold, and exactly when
    it throws.

    `s` is the state before, with no branch pending, and `t` the state after.  `npc` is left out of account:
    it is read only while a branch is pending.
  */
module Effects {
  import opened Bits
  import opened Wrappers
  import opened FlatMemory
  import opened Instructions
  import opened DecoderTable
  import opened Machine
  import opened Interpreter
  import opened Opcodes

  // ----- the vocabulary -----

  /** Equal modulo 2^32. */
  predicate Congruent(x: int, y: int) { (x - y) % 0x1_0000_0000 == 0 }

  /** A word read as a signed number: the sign bit counts -2^31. */
  function Signed(a: Word): int { if a < 0x8000_0000 then a else a - 0x1_0000_0000 }

  function Modulo(x: int): Word { x % 0x1_0000_0000 }

  /** The instruction has been counted and logged, with `written` in between, and control is at `pc`. */
  predicate Moved(s: Arch, t: Arch, pc: Word, written: seq<Event>) {
    && t.pc == pc && !t.branchIsTaken
    && t.instrCount == (s.instrCount + 1) % 0x1_0000_0000_0000_0000
    && t.log == s.log + [Num(s.instrCount)] + written + [PcSet(pc)]
  }

  /** No register but `rd` has changed, and x0 has not. */
  predicate OnlyRegister(s: Arch, t: Arch, rd: nat) {
    forall r :: 0 <= r < 32 && (r == 0 || r != rd) ==> t.regs[r] == s.regs[r]
  }

  /** A register other than x0 is logged with the value it got. */
  function RegisterEvents(t: Arch, rd: nat): seq<Event>
    requires rd < 32
  {
    if rd == 0 then [] else [RegSet(rd, t.regs[rd])]
  }

  /** An instruction that throws leaves its number in the log, and nothing else. */
  predicate Stopped(s: Arch, t: Arch) { t == s.(log := s.log + [Num(s.instrCount)]) }

  /** Control went to `pc`, and nothing else changed but register `rd`. */
  predicate OnlyWrote(s: Arch, t: Arch, pc: Word, rd: nat)
    requires rd < 32
  {
    && Moved(s, t, pc, RegisterEvents(t, rd)) && OnlyRegister(s, t, rd)
    && t.mem == s.mem && t.csregs == s.csregs && t.complete == s.complete
  }

  // ----- from the callback to the end of the round -----

  function Numbered(s: Arch): Arch { s.(log := s.log + [Num(s.instrCount)]) }

  lemma RoundOf(inst: Instruction, s: Arch)
    requires inst.InRange()
    ensures ExecuteLogged(inst, s) == Finished(Advanced(Callback(inst, Numbered(s))))
  {}

  /** A callback that only wrote a register. */
  lemma RoundWrites(s: Arch, rd: nat, v: Word)
    requires rd < 32 && !s.branchIsTaken
    ensures var r := Finished(Advanced(Done(Numbered(s).SetReg(rd, v))));
            r.Done? && OnlyWrote(s, r.st, Modulo(s.pc + 4), rd) && (rd != 0 ==> r.st.regs[rd] == v)
  {}

  /** A callback that wrote a register and raised the branch flag. */
  lemma RoundJumps(s: Arch, target: Word, rd: nat, v: Word)
    requires rd < 32
    ensures var r := Finished(Advanced(Done(Numbered(s).(branchIsTaken := true, npc := target).SetReg(rd, v))));
            r.Done? && OnlyWrote(s, r.st, target, rd) && (rd != 0 ==> r.st.regs[rd] == v)
  {}

  // ----- jumps and branches -----

  /** Where a jump goes. */
  function Target(op: OpType, pc: Word, a: Word, imm: Word): Word {
    if op == JAL then Modulo(pc + imm) else Even(Modulo(a + imm))
  }

  function Even(v: Word): Word { v / 2 * 2 }

  /** JAL goes to pc + imm, JALR to rs1 + imm made even; both leave pc + 4 in rd. */
  lemma JumpEffects(inst: Instruction, s: Arch)
    requires inst.InRange() && !s.branchIsTaken && (inst.callback.JAL? || inst.callback.JALR?)
    ensures var r := ExecuteLogged(inst, s);
            && r.Done?
            && OnlyWrote(s, r.st, Target(inst.callback, s.pc, s.regs[inst.rs1], inst.imm), inst.rd)
            && (inst.rd != 0 ==> r.st.regs[inst.rd] == Modulo(s.pc + 4))
  {
    RoundOf(inst, s);
    CallbackJumps(inst, Numbered(s));
    RoundJumps(s, Target(inst.callback, s.pc, s.regs[inst.rs1], inst.imm), inst.rd, Modulo(s.pc + 4));
  }

  lemma CallbackJumps(inst: Instruction, s: Arch)
    requires inst.InRange() && (inst.callback.JAL? || inst.callback.JALR?)
    ensures var target := Target(inst.callback, s.pc, s.regs[inst.rs1], inst.imm);
            Callback(inst, s) == Done(s.(branchIsTaken := true, npc := target).SetReg(inst.rd, Modulo(s.pc + 4)))
  {
    JumpTarget(inst.callback, s.pc, s.regs[inst.rs1], inst.imm);
    assert Callback(inst, s) == Jump(inst, s);
  }

  lemma JumpTarget(op: OpType, pc: Word, a: Word, imm: Word)
    requires op.JAL? || op.JALR?
    ensures Target(op, pc, a, imm) == if op == JALR then ClearBit0(AddW(a, imm)) else AddW(pc, imm)
    ensures Modulo(pc + 4) == AddW(pc, XLEN_BYTES)
  {
    EvenBelow(AddW(a, imm));
    assert AddW(a, imm) == Modulo(a + imm);
  }

  lemma EvenBelow(v: Word)
    ensures ClearBit0(v) == Even(v)
  {
    Pow2Values();
    var even := Even(v);
    forall i: nat ensures Bit(ClearBit0(v), i) <==> Bit(even, i) {
      SetBitBit(0, false, v, i);
      if i > 0 { assert even / 2 == v / 2; }
    }
    SameBits(ClearBit0(v), even, 32);
  }

  /** When each conditional branch is taken: BEQ and BNE as named, BLT below and BLTU above as unsigned numbers,
      BGEU not below, and BGE not below as signed numbers. */
  predicate Taken(op: OpType, a: Word, b: Word) {
    && (op == BEQ ==> a == b) && (op == BNE ==> a != b)
    && (op == BLT ==> a < b) && (op == BLTU ==> b < a) && (op == BGEU ==> !(a < b))
    && (op == BGE ==> if (a < 0x8000_0000) == (b < 0x8000_0000) then b <= a else b >= 0x8000_0000)
  }

  predicate Compares(op: OpType) { op.BEQ? || op.BNE? || op.BLT? || op.BLTU? || op.BGE? || op.BGEU? }

  lemma BranchEffects(inst: Instruction, s: Arch)
    requires inst.InRange() && !s.branchIsTaken && Compares(inst.callback)
    ensures var r := ExecuteLogged(inst, s);
            && r.Done?
            && OnlyWrote(s, r.st, if Taken(inst.callback, s.regs[inst.rs1], s.regs[inst.rs2])
                                  then Modulo(s.pc + inst.imm) else Modulo(s.pc + 4), 0)
  {
    RoundOf(inst, s);
    CallbackBranches(inst, Numbered(s));
    RoundJumps(s, Modulo(s.pc + inst.imm), 0, 0);
    RoundWrites(s, 0, 0);
  }

  lemma CallbackBranches(inst: Instruction, s: Arch)
    requires inst.InRange() && Compares(inst.callback)
    ensures Callback(inst, s) ==
            if Taken(inst.callback, s.regs[inst.rs1], s.regs[inst.rs2])
            then Done(s.(branchIsTaken := true, npc := Modulo(s.pc + inst.imm)).SetReg(0, 0))
            else Done(s.SetReg(0, 0))
  {
    TakenIsCondition(inst.callback, s.regs[inst.rs1], s.regs[inst.rs2]);
    assert AddW(s.pc, inst.imm) == Modulo(s.pc + inst.imm);
    assert Callback(inst, s) == Branch(inst, s);
  }

  lemma TakenIsCondition(op: OpType, a: Word, b: Word)
    requires Compares(op)
    ensures Taken(op, a, b) <==> Condition(op, a, b)
  {
    SignedRange(a);
    SignedRange(b);
    SignWeight();
  }

  // ----- LW and SW -----

  function Address(inst: Instruction, s: Arch): Word
    requires inst.InRange()
  {
    Modulo(s.regs[inst.rs1] + inst.imm)
  }

  /** The little-endian word at `a`. */
  function WordAt(m: Flat, a: nat): nat {
    m.At(a) + 0x100 * m.At(a + 1) + 0x1_0000 * m.At(a + 2) + 0x100_0000 * m.At(a + 3)
  }

  lemma ComposeIsWordAt(m: Flat, a: nat)
    ensures m.Compose(a, 4) == WordAt(m, a)
  {
    assert m.Compose(a + 4, 0) == 0;
    assert m.Compose(a + 3, 1) == m.At(a + 3);
    assert m.Compose(a + 2, 2) == m.At(a + 2) + 0x100 * m.At(a + 3);
    assert m.Compose(a + 1, 3) == m.At(a + 1) + 0x100 * m.At(a + 2) + 0x1_0000 * m.At(a + 3);
  }

  /** Why a word cannot be loaded. */
  function LoadError(m: Flat, a: Word): Option<Error> {
    if a % 4 != 0 then Some(MemoryError(Misaligned))
    else if a / 4096 !in m.mapped then Some(MemoryError(PageFault))
    else None
  }

  lemma LoadWordIs(m: Flat, a: Word)
    ensures match LoadWord(m, a)
            case Failure(e) => LoadError(m, a) == Some(MemoryError(e))
            case Success(v) => LoadError(m, a) == None && v == WordAt(m, a)
  {
    ComposeIsWordAt(m, a);
  }

  /** LW throws for a misaligned address and for an unmapped page, and otherwise leaves the word at rs1 + imm
      in rd. */
  lemma LoadEffects(inst: Instruction, s: Arch)
    requires inst.InRange() && !s.branchIsTaken && inst.callback == LW
    ensures match ExecuteLogged(inst, s)
            case Threw(e, t) => LoadError(s.mem, Address(inst, s)) == Some(e) && Stopped(s, t)
            case Done(t) =>
              && LoadError(s.mem, Address(inst, s)) == None
              && OnlyWrote(s, t, Modulo(s.pc + 4), inst.rd)
              && (inst.rd != 0 ==> t.regs[inst.rd] == WordAt(s.mem, Address(inst, s)))
  {
    LoadWordIs(s.mem, Address(inst, s));
    RoundOf(inst, s);
    assert Callback(inst, Numbered(s)) == MemoryAccess(inst, Numbered(s));
    var v := LoadWord(s.mem, Address(inst, s));
    if v.Success? { RoundWrites(s, inst.rd, v.value); }
  }

  /** The memory `n` is `m` with the word `v` at `a`, on a page that is now mapped. */
  ghost predicate StoredAt(m: Flat, n: Flat, a: Word, v: Word) {
    && n.mapped == m.mapped + {a / 4096}
    && n.At(a) == v % 0x100 && n.At(a + 1) == v / 0x100 % 0x100
    && n.At(a + 2) == v / 0x1_0000 % 0x100 && n.At(a + 3) == v / 0x100_0000
    && forall b: nat :: b < a || a + 4 <= b ==> n.At(b) == m.At(b)
  }

  lemma StoreIs(m: Flat, a: Word, v: Word) returns (n: Flat)
    requires a % 4 == 0
    ensures m.Store(W32, a, v) == Success(n) && StoredAt(m, n, a, v) && n.Load(W32, a) == Success(v)
  {
    StoreReadsBack(m, a, v);
    n := m.Store(W32, a, v).value;
    var g := m.(mapped := m.mapped + {a / PAGE_SIZE});
    forall b: nat ensures n.At(b) == if a <= b < a + 4 then ByteOf(v, b - a) else m.At(b) {
      WriteEffect(g, a, 4, v, b);
    }
    WriteEffect(g, a, 4, v, a);
    FourBytes(v);
  }

  lemma FourBytes(v: Word)
    ensures ByteOf(v, 0) == v % 0x100 && ByteOf(v, 1) == v / 0x100 % 0x100
    ensures ByteOf(v, 2) == v / 0x1_0000 % 0x100 && ByteOf(v, 3) == v / 0x100_0000
  {
    FirstByte(v, 0);
    SecondByte(v, 1);
    ThirdByte(v, 2);
    FourthByte(v, 3);
  }

  lemma FirstByte(v: nat, k: nat)
    requires k == 0
    ensures ByteOf(v, k) == v % 0x100
  {}

  lemma SecondByte(v: nat, k: nat)
    requires k == 1
    ensures ByteOf(v, k) == v / 0x100 % 0x100
  {
    NextByte(v, k);
    FirstByte(v / 0x100, k - 1);
  }

  lemma ThirdByte(v: nat, k: nat)
    requires k == 2
    ensures ByteOf(v, k) == v / 0x1_0000 % 0x100
  {
    NextByte(v, k);
    SecondByte(v / 0x100, k - 1);
  }

  lemma FourthByte(v: Word, k: nat)
    requires k == 3
    ensures ByteOf(v, k) == v / 0x100_0000
  {
    NextByte(v, k);
    ThirdByte(v / 0x100, k - 1);
  }

  lemma NextByte(v: nat, k: nat)
    requires k > 0
    ensures ByteOf(v, k) == ByteOf(v / 0x100, k - 1)
  {}

  /** What SW of `v` to `a` comes to. */
  ghost predicate Stores(s: Arch, r: Outcome, a: Word, v: Word) {
    match r
    case Threw(e, t) => a % 4 != 0 && e == MemoryError(Misaligned) && Stopped(s, t)
    case Done(t) =>
      && a % 4 == 0 && StoredAt(s.mem, t.mem, a, v) && t.mem.Load(W32, a) == Success(v)
      && Moved(s, t, Modulo(s.pc + 4), [MemSet(a, v)])
      && t.regs == s.regs && t.csregs == s.csregs && t.complete == s.complete
  }

  /** SW throws for a misaligned address, and otherwise leaves rs2 in the word at rs1 + imm. */
  lemma StoreEffects(inst: Instruction, s: Arch)
    requires inst.InRange() && !s.branchIsTaken && inst.callback == SW
    ensures Stores(s, ExecuteLogged(inst, s), Address(inst, s), s.regs[inst.rs2])
  {
    var a, v := Address(inst, s), s.regs[inst.rs2];
    if a % 4 == 0 {
      var m := StoreIs(s.mem, a, v);
      StoreRound(inst, s, m);
      RoundStores(s, m, a, v);
    } else {
      RefusedRound(inst, s);
    }
  }

  lemma RefusedRound(inst: Instruction, s: Arch)
    requires inst.InRange() && inst.callback == SW && Address(inst, s) % 4 != 0
    ensures ExecuteLogged(inst, s) == Threw(MemoryError(Misaligned), Numbered(s))
  {
    RoundOf(inst, s);
    CallbackRefuses(inst, Numbered(s));
  }

  lemma CallbackRefuses(inst: Instruction, s: Arch)
    requires inst.InRange() && inst.callback == SW && Address(inst, s) % 4 != 0
    ensures Callback(inst, s) == Threw(MemoryError(Misaligned), s)
  {
    assert Callback(inst, s) == MemoryAccess(inst, s);
  }

  lemma StoreRound(inst: Instruction, s: Arch, m: Flat)
    requires inst.InRange() && inst.callback == SW && s.mem.Store(W32, Address(inst, s), s.regs[inst.rs2]) == Success(m)
    ensures var stored := MemSet(Address(inst, s), s.regs[inst.rs2]);
            ExecuteLogged(inst, s) == Finished(Advanced(Done(Numbered(s).(mem := m, log := Numbered(s).log + [stored]))))
  {
    RoundOf(inst, s);
    CallbackStores(inst, Numbered(s), m);
  }

  lemma CallbackStores(inst: Instruction, s: Arch, m: Flat)
    requires inst.InRange() && inst.callback == SW && s.mem.Store(W32, Address(inst, s), s.regs[inst.rs2]) == Success(m)
    ensures Callback(inst, s) == Done(s.(mem := m, log := s.log + [MemSet(Address(inst, s), s.regs[inst.rs2])]))
  {
    assert Callback(inst, s) == MemoryAccess(inst, s);
  }

  lemma RoundStores(s: Arch, m: Flat, a: Word, v: Word)
    requires !s.branchIsTaken && a % 4 == 0 && StoredAt(s.mem, m, a, v) && m.Load(W32, a) == Success(v)
    ensures Stores(s, Finished(Advanced(Done(Numbered(s).(mem := m, log := Numbered(s).log + [MemSet(a, v)])))), a, v)
  {}

  lemma StoreReadsBack(m: Flat, a: Word, v: Word)
    requires a % 4 == 0
    ensures m.Store(W32, a, v).Success? && m.Store(W32, a, v).value.Load(W32, a) == Success(v)
  {
    StoreThenLoad(m, W32, a, v);
    Pow2Values();
    SmallMod(v, WORD_LIMIT);
  }

  // ----- arithmetic, logic and shifts -----

  /** Why an instruction that is no jump, branch, memory or CSR access throws. */
  function Refusal(op: OpType, b: Word): Option<Error> {
    match op
    case DIV => if b == 0 then Some(DivisionByZero) else None
    case SLL => if b >= 32 then Some(UndefinedShift) else None
    case SRL => if b >= 32 then Some(UndefinedShift) else None
    case SRA => if b >= 32 then Some(UndefinedShift) else None
    case UNKNOWN => Some(NullCallback)
    case Unimplemented(_) => Some(NotImplemented)
    case _ => None
  }

  predicate IsSum(op: OpType) { op.ADD? || op.SUB? || op.MUL? || op.DIV? || op.ADDI? || op.LUI? || op.AUIPC? }

  predicate IsLogic(op: OpType) { op.XOR? || op.XORI? || op.ANDI? || op.ORI? }

  predicate IsShift(op: OpType) { op.SLL? || op.SRL? || op.SRA? || op.SLLI? || op.SRLI? || op.SRAI? }

  predicate IsComparison(op: OpType) { op.SLTI? || op.SLTIU? }

  predicate Computes(op: OpType) {
    IsSum(op) || IsLogic(op) || IsShift(op) || IsComparison(op) || op.UNKNOWN? || op.Unimplemented?
  }

  ghost predicate Sum(op: OpType, pc: Word, imm: Word, a: Word, b: Word, v: Word) {
    match op
    case ADD => Congruent(v, a + b)
    case SUB => Congruent(v, a - b)
    case MUL => Congruent(v, a * b)
    case DIV => Quotient(v, a, b)
    case ADDI => Congruent(v, a + imm)
    case LUI => Congruent(v, imm * 4096)
    case AUIPC => Congruent(v, pc + imm * 4096)
    case _ => false
  }

  /** `v` is a divided by b, rounded down. */
  predicate Quotient(v: Word, a: Word, b: Word) { v * b <= a < v * b + b }

  ghost predicate LogicBit(op: OpType, imm: Word, a: Word, b: Word, v: Word, i: nat) {
    match op
    case XOR => Bit(v, i) <==> Bit(a, i) != Bit(b, i)
    case XORI => Bit(v, i) <==> Bit(a, i) != Bit(imm, i)
    case ANDI => Bit(v, i) <==> Bit(a, i) && Bit(imm, i)
    case ORI => Bit(v, i) <==> Bit(a, i) || Bit(imm, i)
    case _ => false
  }

  ghost predicate Shifted(op: OpType, imm: Word, a: Word, b: Word, v: Word) {
    match op
    case SLL => v == a * Pow2(b) % 0x1_0000_0000
    case SRL => v == a / Pow2(b)
    case SRA => Signed(v) == Signed(a) / Pow2(b)
    case SLLI => v == a * Pow2(imm % 32) % 0x1_0000_0000
    case SRLI => v == a / Pow2(imm % 32)
    case SRAI => Signed(v) == Signed(a) / Pow2(imm % 32)
    case _ => false
  }

  ghost predicate Compared(op: OpType, imm: Word, a: Word, v: Word) {
    v == match op
         case SLTI => if Signed(a) < Signed(imm) then 1 else 0
         case _ => if a < imm then 1 else 0
  }

  /** What the value in rd means: a sum, difference or product modulo 2^32, a quotient, a shifted number, the
      outcome of a comparison, or a combination bit by bit. */
  ghost predicate Means(inst: Instruction, pc: Word, a: Word, b: Word, v: Word) {
    var op, imm := inst.callback, inst.imm;
    && (IsSum(op) ==> Sum(op, pc, imm, a, b, v))
    && (IsLogic(op) ==> forall i: nat :: i < 32 ==> LogicBit(op, imm, a, b, v, i))
    && (IsShift(op) ==> Shifted(op, imm, a, b, v))
    && (IsComparison(op) ==> Compared(op, imm, a, v))
  }

  /** It throws exactly for a zero divisor, a shift by 32 or more, or a callback that is missing or only
      throws; otherwise rd gets the value that the operation means, and nothing else changes. */
  lemma RegisterEffects(inst: Instruction, s: Arch)
    requires inst.InRange() && !s.branchIsTaken && Computes(inst.callback)
    ensures var a, b := s.regs[inst.rs1], s.regs[inst.rs2];
            match ExecuteLogged(inst, s)
            case Threw(e, t) => Refusal(inst.callback, b) == Some(e) && Stopped(s, t)
            case Done(t) =>
              && Refusal(inst.callback, b) == None
              && OnlyWrote(s, t, Modulo(s.pc + 4), inst.rd)
              && (inst.rd != 0 ==> Means(inst, s.pc, a, b, t.regs[inst.rd]))
  {
    var v := RegisterValue(inst, s.pc, s.regs[inst.rs1], s.regs[inst.rs2]);
    ValueMeans(inst, s.pc, s.regs[inst.rs1], s.regs[inst.rs2]);
    RoundOf(inst, s);
    CallbackComputes(inst, Numbered(s));
    if v.Success? { RoundWrites(s, inst.rd, v.value); }
  }

  lemma CallbackComputes(inst: Instruction, s: Arch)
    requires inst.InRange() && Computes(inst.callback)
    ensures Callback(inst, s) == Retire(inst, s, RegisterValue(inst, s.pc, s.regs[inst.rs1], s.regs[inst.rs2]))
  {
    ComputesOnly(inst.callback);
    CallbackOtherwise(inst, s);
  }

  lemma ComputesOnly(op: OpType)
    requires Computes(op)
    ensures op != LW && op != SW && !IsJump(op) && !IsConditional(op) && op != ECALL && !IsCSR(op)
  {}

  lemma CallbackOtherwise(inst: Instruction, s: Arch)
    requires inst.InRange()
    requires var op := inst.callback;
             op != LW && op != SW && !IsJump(op) && !IsConditional(op) && op != ECALL && !IsCSR(op)
    ensures Callback(inst, s) == Retire(inst, s, RegisterValue(inst, s.pc, s.regs[inst.rs1], s.regs[inst.rs2]))
  {
    assert Callback(inst, s) == Arithmetic(inst, s);
  }

  lemma ValueMeans(inst: Instruction, pc: Word, a: Word, b: Word)
    requires Computes(inst.callback)
    ensures match RegisterValue(inst, pc, a, b)
            case Failure(e) => Refusal(inst.callback, b) == Some(e)
            case Success(v) => Refusal(inst.callback, b) == None && Means(inst, pc, a, b, v)
  {
    var op := inst.callback;
    if IsSum(op) {
      SumsMean(inst, pc, a, b);
    } else if IsLogic(op) {
      LogicMeans(inst, pc, a, b);
    } else if IsShift(op) {
      ShiftsMean(inst, pc, a, b);
    } else if IsComparison(op) {
      ComparisonsMean(inst, pc, a, b);
    }
  }

  lemma WrapIsCongruent(x: int)
    ensures Congruent(Wrap(x), x)
  {}

  lemma SumsMean(inst: Instruction, pc: Word, a: Word, b: Word)
    requires IsSum(inst.callback)
    ensures match RegisterValue(inst, pc, a, b)
            case Failure(e) => Refusal(inst.callback, b) == Some(e)
            case Success(v) => Refusal(inst.callback, b) == None && Sum(inst.callback, pc, inst.imm, a, b, v)
  {
    match inst.callback
    case DIV => DivMeans(inst, pc, a, b);
    case LUI => UpperMeans(inst, pc, a, b);
    case AUIPC => UpperMeans(inst, pc, a, b);
    case ADD => WrapIsCongruent(a + b);
    case SUB => WrapIsCongruent(a - b);
    case MUL => WrapIsCongruent(a * b);
    case ADDI => WrapIsCongruent(a + inst.imm);
  }

  lemma DivMeans(inst: Instruction, pc: Word, a: Word, b: Word)
    requires inst.callback.DIV?
    ensures match RegisterValue(inst, pc, a, b)
            case Failure(e) => Refusal(inst.callback, b) == Some(e)
            case Success(v) => Refusal(inst.callback, b) == None && Sum(inst.callback, pc, inst.imm, a, b, v)
  {
    if b != 0 { QuotientIs(a, b); }
  }

  lemma UpperMeans(inst: Instruction, pc: Word, a: Word, b: Word)
    requires inst.callback.LUI? || inst.callback.AUIPC?
    ensures Refusal(inst.callback, b) == None
    ensures RegisterValue(inst, pc, a, b).Success?
    ensures Sum(inst.callback, pc, inst.imm, a, b, RegisterValue(inst, pc, a, b).value)
  {
    UpperSum(pc, inst.imm);
  }

  lemma QuotientIs(a: Word, b: Word)
    requires b != 0
    ensures a / b < WORD_LIMIT && Quotient(a / b, a, b)
  {
    QuotientBelow(a, b);
    assert a == b * (a / b) + a % b;
  }

  lemma UpperSum(pc: Word, imm: Word)
    ensures Congruent(ShlW(imm, 12), imm * 4096) && Congruent(AddW(pc, ShlW(imm, 12)), pc + imm * 4096)
  {
    ShlTwelve(imm);
    WrapIsCongruent(imm * 4096);
    SumIsCongruent(pc, ShlW(imm, 12), imm * 4096);
  }

  lemma SumIsCongruent(p: Word, x: Word, y: nat)
    requires x == y % WORD_LIMIT
    ensures Congruent(Wrap(p + x), p + y)
  {
    var q, k := (p + x) / WORD_LIMIT, y / WORD_LIMIT;
    assert Wrap(p + x) - (p + y) == (0 - q - k) * WORD_LIMIT;
  }

  lemma LogicMeans(inst: Instruction, pc: Word, a: Word, b: Word)
    requires IsLogic(inst.callback)
    ensures RegisterValue(inst, pc, a, b).Success? && Refusal(inst.callback, b) == None
    ensures forall i: nat :: i < 32 ==> LogicBit(inst.callback, inst.imm, a, b, RegisterValue(inst, pc, a, b).value, i)
  {
    forall i: nat | i < 32 ensures LogicBit(inst.callback, inst.imm, a, b, RegisterValue(inst, pc, a, b).value, i) {
      XorBit(a, b, i);
      XorBit(a, inst.imm, i);
      AndBit(a, inst.imm, i);
      OrBit(a, inst.imm, i);
    }
  }

  lemma ShiftsMean(inst: Instruction, pc: Word, a: Word, b: Word)
    requires IsShift(inst.callback)
    ensures match RegisterValue(inst, pc, a, b)
            case Failure(e) => Refusal(inst.callback, b) == Some(e)
            case Success(v) => Refusal(inst.callback, b) == None && Shifted(inst.callback, inst.imm, a, b, v)
  {
    Pow2Values();
    LowBits(32, 5, inst.imm);
    OneShift(a, b);
    OneShift(a, inst.imm % 32);
  }

  lemma OneShift(a: Word, n: nat)
    ensures ShlW(a, n) == a * Pow2(n) % 0x1_0000_0000 && ShrW(a, n) == a / Pow2(n)
    ensures Signed(SarW(a, n)) == Signed(a) / Pow2(n)
  {
    Pow2Values();
    ShlIsTimes(a, n);
    ShrIsDiv(a, n);
    SarDivides(a, n);
    SignedIs(a);
    SignedIs(SarW(a, n));
  }

  lemma SignedIs(a: Word)
    ensures AsSigned(32, a) == Signed(a)
  {
    SignedRange(a);
    SignWeight();
  }

  lemma ComparisonsMean(inst: Instruction, pc: Word, a: Word, b: Word)
    requires IsComparison(inst.callback)
    ensures RegisterValue(inst, pc, a, b).Success? && Refusal(inst.callback, b) == None
    ensures Compared(inst.callback, inst.imm, a, RegisterValue(inst, pc, a, b).value)
  {
    SignedIs(a);
    SignedIs(inst.imm);
  }

  /** The meaning leaves no choice: at most one word has it. */
  lemma MeaningIsUnique(inst: Instruction, pc: Word, a: Word, b: Word, v: Word, v': Word)
    requires Computes(inst.callback) && inst.callback != UNKNOWN && !inst.callback.Unimplemented?
    requires Means(inst, pc, a, b, v) && Means(inst, pc, a, b, v')
    ensures v == v'
  {
    var op := inst.callback;
    if IsSum(op) {
      SumIsUnique(op, pc, inst.imm, a, b, v, v');
    } else if IsLogic(op) {
      LogicIsUnique(op, inst.imm, a, b, v, v');
    } else if IsShift(op) {
      ShiftIsUnique(op, inst.imm, a, b, v, v');
    }
  }

  lemma SumIsUnique(op: OpType, pc: Word, imm: Word, a: Word, b: Word, v: Word, v': Word)
    requires Sum(op, pc, imm, a, b, v) && Sum(op, pc, imm, a, b, v')
    ensures v == v'
  {
    match op
    case ADD => CongruentOnce(v, v', a + b);
    case SUB => CongruentOnce(v, v', a - b);
    case MUL => CongruentOnce(v, v', a * b);
    case DIV => QuotientOnce(a, b, v, v');
    case ADDI => CongruentOnce(v, v', a + imm);
    case LUI => CongruentOnce(v, v', imm * 4096);
    case AUIPC => CongruentOnce(v, v', pc + imm * 4096);
  }

  lemma CongruentOnce(v: Word, v': Word, x: int)
    requires Congruent(v, x) && Congruent(v', x)
    ensures v == v'
  {}

  lemma QuotientOnce(a: Word, b: Word, v: Word, v': Word)
    requires Quotient(v, a, b) && Quotient(v', a, b)
    ensures v == v'
  {
    QuotientUnique(b, v, a - v * b, v', a - v' * b);
  }

  lemma LogicIsUnique(op: OpType, imm: Word, a: Word, b: Word, v: Word, v': Word)
    requires forall i: nat :: i < 32 ==> LogicBit(op, imm, a, b, v, i)
    requires forall i: nat :: i < 32 ==> LogicBit(op, imm, a, b, v', i)
    ensures v == v'
  {
    forall i: nat | i < 32 ensures Bit(v, i) <==> Bit(v', i) {
      assert LogicBit(op, imm, a, b, v, i) && LogicBit(op, imm, a, b, v', i);
    }
    Pow2Values();
    SameBits(v, v', 32);
  }

  lemma ShiftIsUnique(op: OpType, imm: Word, a: Word, b: Word, v: Word, v': Word)
    requires Shifted(op, imm, a, b, v) && Shifted(op, imm, a, b, v')
    ensures v == v'
  {}

  // ----- CSR accesses and ECALL -----

  /** Bit i of the new CSR: CSRRW copies rs1, CSRRS sets and CSRRC, as written, keeps the bits of rs1 that
      are not in the CSR; the immediate forms use the index of rs1 and the manual's operations. */
  predicate NewCSRBit(op: OpType, operand: nat, csr: Word, i: nat) {
    match op
    case CSRRW => Bit(operand, i)
    case CSRRWI => Bit(operand, i)
    case CSRRS => Bit(csr, i) || Bit(operand, i)
    case CSRRSI => Bit(csr, i) || Bit(operand, i)
    case CSRRC => Bit(operand, i) && !Bit(csr, i)
    case _ => Bit(csr, i) && !Bit(operand, i)
  }

  /** No CSR but one has changed. */
  predicate OnlyCSR(s: Arch, t: Arch, csr: nat) {
    forall c :: 0 <= c < 4096 && c != csr ==> t.csregs[c] == s.csregs[c]
  }

  predicate AccessesCSR(op: OpType) { op.CSRRW? || op.CSRRS? || op.CSRRC? || op.CSRRWI? || op.CSRRSI? || op.CSRRCI? }

  /** What is combined with the CSR: rs1, or the index that names it. */
  function Operand(inst: Instruction, rs1: Word): nat {
    if inst.callback.CSRRW? || inst.callback.CSRRS? || inst.callback.CSRRC? then rs1 else inst.rs1
  }

  /** rd gets the CSR as it was; one CSR changes, as `NewCSRBit` says. */
  lemma CSREffects(inst: Instruction, s: Arch)
    requires inst.InRange() && !s.branchIsTaken && AccessesCSR(inst.callback)
    ensures var r := ExecuteLogged(inst, s);
            var operand := Operand(inst, s.regs[inst.rs1]);
            && r.Done?
            && Moved(s, r.st, Modulo(s.pc + 4), RegisterEvents(r.st, inst.rd)) && OnlyRegister(s, r.st, inst.rd)
            && (inst.rd != 0 ==> r.st.regs[inst.rd] == s.csregs[inst.csr])
            && (forall i: nat :: i < 32 ==>
                  (Bit(r.st.csregs[inst.csr], i) <==> NewCSRBit(inst.callback, operand, s.csregs[inst.csr], i)))
            && OnlyCSR(s, r.st, inst.csr)
            && r.st.mem == s.mem && r.st.complete == s.complete
  {
    var csr := s.csregs[inst.csr];
    CSRValueBits(inst, s.regs[inst.rs1], csr);
    RoundOf(inst, s);
    assert Callback(inst, Numbered(s)) == CSRAccess(inst, Numbered(s));
    RoundWritesCSR(s, inst.csr, CSRValue(inst, s.regs[inst.rs1], csr), inst.rd, csr);
  }

  lemma CSRValueBits(inst: Instruction, rs1: Word, csr: Word)
    requires inst.InRange() && AccessesCSR(inst.callback)
    ensures forall i: nat :: i < 32 ==> (Bit(CSRValue(inst, rs1, csr), i) <==> NewCSRBit(inst.callback, Operand(inst, rs1), csr, i))
  {
    forall i: nat | i < 32 ensures Bit(CSRValue(inst, rs1, csr), i) <==> NewCSRBit(inst.callback, Operand(inst, rs1), csr, i) {
      CSRValueBit(inst, rs1, csr, i);
    }
  }

  lemma CSRValueBit(inst: Instruction, rs1: Word, csr: Word, i: nat)
    requires inst.InRange() && AccessesCSR(inst.callback) && i < 32
    ensures Bit(CSRValue(inst, rs1, csr), i) <==>
            NewCSRBit(inst.callback, Operand(inst, rs1), csr, i)
  {
    LowFiveOfIndex(inst.rs1);
    match inst.callback
    case CSRRW =>
    case CSRRWI =>
    case CSRRS => OrBit(rs1, csr, i);
    case CSRRSI => OrBit(csr, inst.rs1, i);
    case CSRRC => AndNotBit(rs1, csr, i);
    case CSRRCI => AndNotBit(csr, inst.rs1, i);
  }

  lemma LowFiveOfIndex(r: nat)
    requires r < 32
    ensures LowFive(r) == r
  {
    Pow2Values();
    LowBits(32, 5, r);
    SmallMod(r, 32);
  }

  /** A callback that wrote a CSR and a register. */
  lemma RoundWritesCSR(s: Arch, c: nat, x: Word, rd: nat, v: Word)
    requires c < 4096 && rd < 32 && !s.branchIsTaken
    ensures var r := Finished(Advanced(Done(Numbered(s).SetCSReg(c, x).SetReg(rd, v))));
            && r.Done? && r.st.csregs[c] == x && OnlyCSR(s, r.st, c)
            && Moved(s, r.st, Modulo(s.pc + 4), RegisterEvents(r.st, rd)) && OnlyRegister(s, r.st, rd)
            && (rd != 0 ==> r.st.regs[rd] == v) && r.st.mem == s.mem && r.st.complete == s.complete
  {}

  /** ECALL ends the run, and moves on. */
  lemma EcallEffects(inst: Instruction, s: Arch)
    requires inst.InRange() && !s.branchIsTaken && inst.callback == ECALL
    ensures var r := ExecuteLogged(inst, s);
            && r.Done? && r.st.complete
            && Moved(s, r.st, Modulo(s.pc + 4), [])
            && r.st.regs == s.regs && r.st.csregs == s.csregs && r.st.mem == s.mem
  {
    RoundOf(inst, s);
    RoundWrites(s, 0, 0);
  }

  // ----- fetching -----

  /** Entry `i` is the first, in table order, whose pattern the word has. */
  ghost predicate Selects(table: seq<Entry>, w: Word, i: nat) {
    i < |table| && And(w, table[i].mask) == table[i].matched
    && forall k :: 0 <= k < i ==> And(w, table[k].mask) != table[k].matched
  }

  lemma {:induction false} FirstMatchSelects(table: seq<Entry>, w: Word) returns (i: nat)
    ensures match FirstMatch(table, w)
            case None => forall k :: 0 <= k < |table| ==> And(w, table[k].mask) != table[k].matched
            case Some(e) => Selects(table, w, i) && table[i] == e
  {
    i := 0;
    if table != [] {
      var n := |table| - 1;
      i := FirstMatchSelects(table[..n], w);
      assert forall k :: 0 <= k < n ==> table[k] == table[..n][k];
      if FirstMatch(table[..n], w) == None { i := n; }
    }
  }

  /** One step of the simulator, from the bytes at pc: it throws when they cannot be loaded or no entry, or
      only the unknown one, has their pattern, and otherwise executes what the first such entry describes. */
  lemma StepEffects(table: seq<Entry>, s: Arch) returns (i: nat)
    ensures var r := Step(SimCpu(table), s);
            if LoadError(s.mem, s.pc).Some? then r == Threw(LoadError(s.mem, s.pc).value, s)
            else
              WordAt(s.mem, s.pc) < WORD_LIMIT &&
              var w: Word := WordAt(s.mem, s.pc);
              if Selects(table, w, i) && table[i].name != UNKNOWN
              then DecodeEntry(table[i], w).InRange() && r == ExecuteLogged(DecodeEntry(table[i], w), s)
              else r == Threw(UnknownInstruction, s) && forall k: nat :: Selects(table, w, k) ==> table[k].name == UNKNOWN
  {
    LoadWordIs(s.mem, s.pc);
    i := 0;
    if LoadError(s.mem, s.pc) == None {
      var w := LoadWord(s.mem, s.pc).value;
      i := FirstMatchSelects(table, w);
      DecodedIsSafe(table, w);
    }
  }
}
