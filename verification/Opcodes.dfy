/** What some callbacks mean, stated apart from how they compute it, and where decoder and callbacks
    together depart from the RISC-V Unprivileged ISA manual (20191213): each such lemma says exactly
    when the result is still the manual's.
  */
module Opcodes {
  import opened Bits
  import opened Wrappers
  import opened Instructions
  import opened Immediates
  import opened DecoderTable
  import opened Machine

  /** What `callback` leaves in rd for two operands that are both registers. */
  function OnRegisters(op: OpType, a: Word, b: Word): Result<Word, Error> {
    RegisterValue(NO_INSTRUCTION.(callback := op), 0, a, b)
  }

  /** ADD is the sum modulo 2^32, and SUB takes it back. */
  lemma SubUndoesAdd(a: Word, b: Word)
    ensures OnRegisters(ADD, a, b).Success? && (OnRegisters(ADD, a, b).value - (a + b)) % WORD_LIMIT == 0
    ensures OnRegisters(SUB, OnRegisters(ADD, a, b).value, b) == Success(a)
  {}

  /** XOR tells bit by bit where the operands differ, and twice it restores. */
  lemma XorTwice(a: Word, b: Word)
    ensures OnRegisters(XOR, a, b).Success?
    ensures forall i: nat :: Bit(OnRegisters(XOR, a, b).value, i) <==> Bit(a, i) != Bit(b, i)
    ensures OnRegisters(XOR, OnRegisters(XOR, a, b).value, b) == Success(a)
  {
    Pow2Values();
    var x := XorW(a, b);
    forall i: nat ensures (Bit(x, i) <==> Bit(a, i) != Bit(b, i)) && (Bit(Xor(x, b), i) <==> Bit(a, i)) {
      XorBit(x, b, i);
      XorBit(a, b, i);
    }
    OpBounds(x, b, 32);
    SameBits(Xor(x, b), a, 32);
  }

  /** SRA divides the signed value by a power of two, rounding down. */
  lemma ArithmeticShift(a: Word, b: Word)
    requires b < 32
    ensures OnRegisters(SRA, a, b).Success?
    ensures AsSigned(32, OnRegisters(SRA, a, b).value) == AsSigned(32, a) / Pow2(b)
  {
    SarDivides(a, b);
  }

  lemma SarDivides(a: Word, b: nat)
    ensures AsSigned(32, SarW(a, b)) == AsSigned(32, a) / Pow2(b)
  {
    SignedRange(a);
    QuotientRange(AsSigned(32, a), Pow2(b), Pow2(31));
    EncodedAgain(AsSigned(32, a) / Pow2(b));
  }

  lemma EncodedAgain(v: int)
    requires 0 <= v + Pow2(31) && v < Pow2(31)
    ensures AsSigned(32, Wrap(v)) == v
  {
    Pow2Values();
    AsSignedOfEncoding(32, v);
  }

  lemma SignedRange(a: Word)
    ensures AsSigned(32, a) == if a < Pow2(31) then a else a - WORD_LIMIT
    ensures 0 <= AsSigned(32, a) + Pow2(31) && AsSigned(32, a) < Pow2(31)
  {
    Pow2Values();
    SmallMod(a, Pow2(32));
  }

  lemma QuotientRange(v: int, p: nat, m: nat)
    requires p >= 1 && -(m as int) <= v < m
    ensures -(m as int) <= v / p < m
  {
    var q, r := v / p, v % p;
    assert v == p * q + r;
    MulMonotone(m, 1, p);
    if q >= m {
      MulMonotone(p, m, q);
    } else if q < -(m as int) {
      MulMonotone(p, q, -(m as int) - 1);
      MulDist(p, -(m as int), -1);
      MulDist(p, m, -(m as int));
    }
  }

  // ----- where the code departs from the manual -----

  /** The manual masks the shift amount to five bits; the code does as the manual says exactly below 32. */
  lemma ShiftsAgreeBelow32(a: Word, b: Word)
    ensures OnRegisters(SLL, a, b) == Success(ShlW(a, LowFive(b))) <==> b < 32
    ensures OnRegisters(SRL, a, b) == Success(ShrW(a, LowFive(b))) <==> b < 32
    ensures OnRegisters(SRA, a, b) == Success(SarW(a, LowFive(b))) <==> b < 32
  {
    Pow2Values();
    LowBits(32, 5, b);
    if b < 32 { SmallMod(b, 32); }
  }

  /** Signed division rounding toward zero. */
  function Truncated(x: int, y: int): int
    requires y != 0
  {
    var q := Magnitude(x) / Magnitude(y);
    if (x < 0) == (y < 0) then q else -q
  }

  function Magnitude(x: int): (r: nat)
    ensures r == 0 <==> x == 0
  {
    if x < 0 then -x else x
  }

  /** The manual's DIV: all ones for a zero divisor, and the dividend when the quotient overflows. */
  function ManualDiv(a: Word, b: Word): Word {
    if b == 0 then WORD_LIMIT - 1
    else
      SignedRange(b);
      Wrap(Truncated(AsSigned(32, a), AsSigned(32, b)))
  }

  const SIGN: nat := 0x8000_0000

  lemma SignWeight()
    ensures Pow2(31) == SIGN
  {
    Pow2Values();
    assert Pow2(32) == 2 * Pow2(31);
  }

  /** DIV divides unsigned, and throws for a zero divisor: it yields the manual's quotient exactly for
      operands that are both nonnegative, for a quotient that is zero either way, and for a negative
      dividend over one or over itself. */
  lemma DivAgreesExactly(a: Word, b: Word)
    ensures OnRegisters(DIV, a, b) == Success(ManualDiv(a, b)) <==>
            b != 0 && (if a < SIGN then b < SIGN || a + b < WORD_LIMIT else b == 1 || a == b)
  {
    if b != 0 {
      ManualQuotient(a, b);
      if a < SIGN && b < SIGN {
        QuotientBelow(a, b);
        SmallMod(a / b, WORD_LIMIT);
      } else if a < SIGN {
        DivNegativeDivisor(a, b);
      } else if b < SIGN {
        DivNegativeDividend(a, b);
      } else {
        DivBothNegative(a, b);
      }
    }
  }

  /** The four combinations of signs. */
  lemma ManualQuotient(a: Word, b: Word)
    requires b != 0
    ensures ManualDiv(a, b) ==
            if a < SIGN then
              (if b < SIGN then Wrap(a / b) else Wrap(0 - a / (WORD_LIMIT - b)))
            else
              (if b < SIGN then Wrap(0 - (WORD_LIMIT - a) / b) else Wrap((WORD_LIMIT - a) / (WORD_LIMIT - b)))
  {
    SignedRange(a);
    SignedRange(b);
    SignWeight();
  }

  lemma QuotientBelow(a: nat, b: nat)
    requires b >= 1
    ensures a / b <= a
    ensures a < b ==> a / b == 0
    ensures a >= b ==> a / b >= 1
    ensures b >= 2 ==> a / b <= a / 2
  {
    var q, r := a / b, a % b;
    assert a == b * q + r;
    MulMonotone(q, 1, b);
    if b >= 2 { MulMonotone(q, 2, b); }
    if a < b {
      ModUnique(a, b, 0, a);
    } else if q <= 0 {
      MulMonotone(b, q, 0);
    }
  }

  lemma DivNegativeDivisor(a: Word, b: Word)
    requires a < SIGN <= b
    ensures a / b == Wrap(0 - a / (WORD_LIMIT - b)) <==> a + b < WORD_LIMIT
  {
    QuotientBelow(a, b);
    QuotientBelow(a, WORD_LIMIT - b);
    NegatedQuotient(a / (WORD_LIMIT - b));
  }

  lemma NegatedQuotient(q: nat)
    requires q <= SIGN
    ensures Wrap(0 - q) == if q == 0 then 0 else WORD_LIMIT - q
  {
    if q > 0 { ModUnique(0 - q, WORD_LIMIT, -1, WORD_LIMIT - q); }
  }

  lemma DivNegativeDividend(a: Word, b: Word)
    requires 0 < b < SIGN <= a
    ensures a / b == Wrap(0 - (WORD_LIMIT - a) / b) <==> b == 1
  {
    QuotientBelow(a, b);
    QuotientBelow(WORD_LIMIT - a, b);
    NegatedQuotient((WORD_LIMIT - a) / b);
  }

  lemma DivBothNegative(a: Word, b: Word)
    requires SIGN <= a && SIGN <= b
    ensures a / b == Wrap((WORD_LIMIT - a) / (WORD_LIMIT - b)) <==> a == b
  {
    QuotientBelow(a, b);
    QuotientBelow(WORD_LIMIT - a, WORD_LIMIT - b);
    SmallMod((WORD_LIMIT - a) / (WORD_LIMIT - b), WORD_LIMIT);
    if a == b {
      ModUnique(a, b, 1, 0);
      ModUnique(WORD_LIMIT - a, WORD_LIMIT - b, 1, 0);
    }
  }

  /** BLT compares unsigned: right exactly when both operands have the same sign. */
  lemma BltAgreesOnSameSign(a: Word, b: Word)
    ensures (Condition(BLT, a, b) <==> AsSigned(32, a) < AsSigned(32, b)) <==> (a < Pow2(31) <==> b < Pow2(31))
  {
    SignedRange(a);
    SignedRange(b);
  }

  /** BLTU compares the other way round: right exactly on equal operands. */
  lemma BltuAgreesOnEqual(a: Word, b: Word)
    ensures (Condition(BLTU, a, b) <==> a < b) <==> a == b
  {}

  /** The manual's new CSR value, for both the register and the immediate forms. */
  function ManualCSR(op: OpType, csr: Word, operand: Word): Word {
    match op
    case CSRRW => operand
    case CSRRWI => operand
    case CSRRS => OrW(csr, operand)
    case CSRRSI => OrW(csr, operand)
    case _ => AndW(csr, NotW(operand))
  }

  lemma AndNotBit(a: Word, b: Word, i: nat)
    requires i < 32
    ensures Bit(AndW(a, NotW(b)), i) <==> Bit(a, i) && !Bit(b, i)
  {
    Pow2Values();
    AndBit(a, Not(32, b), i);
    NotBit(32, b, i);
  }

  /** CSRRC clears the wrong operand: the new CSR value is `csr & ~rs1` exactly when they are equal. */
  lemma CsrrcAgreesOnEqual(inst: Instruction, rs1: Word, csr: Word)
    requires inst.InRange() && inst.callback == CSRRC
    ensures CSRValue(inst, rs1, csr) == ManualCSR(CSRRC, csr, rs1) <==> rs1 == csr
  {
    AndNotSwapped(rs1, csr);
  }

  lemma AndNotSwapped(a: Word, b: Word)
    ensures AndW(a, NotW(b)) == AndW(b, NotW(a)) <==> a == b
  {
    if AndW(a, NotW(b)) == AndW(b, NotW(a)) {
      forall i: nat | i < 32 ensures Bit(a, i) <==> Bit(b, i) {
        AndNotBit(a, b, i);
        AndNotBit(b, a, i);
      }
      Pow2Values();
      SameBits(a, b, 32);
    }
  }

  /** The decoder has already put the immediate of LUI into bits 31..12, and the callback shifts again:
      rd gets the immediate exactly when it is zero. */
  lemma LuiShiftsTwice(e: Entry, w: Word, pc: Word, rs1: Word, rs2: Word)
    requires e.name == LUI && ImmSlices(e.fields, ImmDict) == ImmDict(Imm20)
    ensures var inst := DecodeEntry(e, w);
            && inst.imm == w / 4096 * 4096
            && RegisterValue(inst, pc, rs1, rs2) == Success(inst.imm * 4096 % WORD_LIMIT)
            && (RegisterValue(inst, pc, rs1, rs2) == Success(inst.imm) <==> inst.imm == 0)
  {
    UpperImmediate(w);
    ShlTwelve(w / 4096 * 4096);
    ShiftedAgain(w / 4096);
  }

  /** AUIPC likewise: pc plus the immediate exactly when that is zero. */
  lemma AuipcShiftsTwice(e: Entry, w: Word, pc: Word, rs1: Word, rs2: Word)
    requires e.name == AUIPC && ImmSlices(e.fields, ImmDict) == ImmDict(Imm20)
    ensures var inst := DecodeEntry(e, w);
            && inst.imm == w / 4096 * 4096
            && RegisterValue(inst, pc, rs1, rs2) == Success((pc + inst.imm * 4096 % WORD_LIMIT) % WORD_LIMIT)
            && (RegisterValue(inst, pc, rs1, rs2) == Success(AddW(pc, inst.imm)) <==> inst.imm == 0)
  {
    UpperImmediate(w);
    UpperPlus(pc, w / 4096, DecodeEntry(e, w).imm);
    AuipcValue(DecodeEntry(e, w), pc, rs1, rs2);
  }

  lemma AuipcValue(inst: Instruction, pc: Word, rs1: Word, rs2: Word)
    requires inst.callback == AUIPC
    ensures RegisterValue(inst, pc, rs1, rs2) == Success(AddW(pc, ShlW(inst.imm, 12)))
  {}

  lemma UpperPlus(pc: Word, k: nat, imm: Word)
    requires k < 0x10_0000 && imm == k * 4096
    ensures AddW(pc, ShlW(imm, 12)) == (pc + imm * 4096 % WORD_LIMIT) % WORD_LIMIT
    ensures AddW(pc, ShlW(imm, 12)) == AddW(pc, imm) <==> imm == 0
  {
    ShiftedAgain(k);
    ShlTwelve(imm);
    SumTells(pc, ShlW(imm, 12), imm);
  }

  lemma SumTells(pc: Word, x: Word, y: Word)
    ensures AddW(pc, x) == AddW(pc, y) <==> x == y
  {}

  lemma ShiftedAgain(k: nat)
    requires k < 0x10_0000
    ensures ShlW(k * 4096, 12) == k * 4096 <==> k == 0
  {
    ShlTwelve(k * 4096);
    if (k * 4096 * 4096) % WORD_LIMIT == k * 4096 {
      TopBitsOnly(k);
    }
  }

  lemma ShlTwelve(a: Word)
    ensures ShlW(a, 12) == (a * 4096) % WORD_LIMIT
  {
    Pow2Values();
    ShlIsTimes(a, 12);
  }

  lemma TopBitsOnly(k: nat)
    requires k < 0x10_0000 && (k * 4096 * 4096) % WORD_LIMIT == k * 4096
    ensures k == 0
  {
    var q := (k * 4096 * 4096) / WORD_LIMIT;
    assert k * 4096 * 4096 == q * WORD_LIMIT + k * 4096;
    assert k == 0x10_0000 * (16 * k - 4097 * q);
  }

  /** A word of the U format decodes to its upper twenty bits, in place. */
  lemma UpperImmediate(w: Word)
    ensures Immediate(ImmDict(Imm20), w) == w / 4096 * 4096
  {
    Pow2Values();
    var s := ImmDict(Imm20);
    assert s[..0] == [];
    OrZero(TakeSlice(s[0], w));
    GetBitsIsDivMod(32, 31, 12, w);
    SmallMod(w / 4096, 0x10_0000);
    ShlIsTimes(w / 4096, 12);
    SmallMod(w / 4096 * 4096, WORD_LIMIT);
    assert Gather(s, w) == Or(Gather(s[..0], w), TakeSlice(s[0], w));
    assert MaxFrom(s) == 31;
  }

  lemma OrZero(a: Word)
    ensures Or(0, a) == a && Or(a, 0) == a
  {
    Pow2Values();
    forall i: nat ensures (Bit(Or(0, a), i) <==> Bit(a, i)) && (Bit(Or(a, 0), i) <==> Bit(a, i)) {
      OrBit(0, a, i);
      OrBit(a, 0, i);
      ZeroBit(i);
    }
    OpBounds(0, a, 32);
    OpBounds(a, 0, 32);
    SameBits(Or(0, a), a, 32);
    SameBits(Or(a, 0), a, 32);
  }

  lemma AndOnes(a: Word)
    ensures AndW(a, NotW(0)) == a
  {
    Pow2Values();
    var ones := NotW(0);
    forall i: nat ensures Bit(And(a, ones), i) <==> Bit(a, i) {
      AndBit(a, ones, i);
      NotBit(32, 0, i);
      ZeroBit(i);
      HighBit(a, 32, i);
    }
    OpBounds(a, ones, 32);
    SameBits(And(a, ones), a, 32);
  }

  /** `<<` on 32 bits is multiplication by a power of two, wrapped. */
  lemma {:induction false} ShlIsTimes(a: nat, s: nat)
    requires a < Pow2(32)
    ensures Shl(32, a, s) == (a * Pow2(s)) % WORD_LIMIT
    decreases s
  {
    Pow2Values();
    if s > 0 {
      var p := Pow2(s - 1);
      ShlIsTimes((2 * a) % Pow2(32), s - 1);
      ModTimes(2 * a, p);
      MulAssoc(a, 2, p);
    } else {
      SmallMod(a, WORD_LIMIT);
    }
  }

  lemma ModTimes(x: nat, p: nat)
    ensures ((x % WORD_LIMIT) * p) % WORD_LIMIT == (x * p) % WORD_LIMIT
  {
    var q, r := x / WORD_LIMIT, x % WORD_LIMIT;
    var k, t := (r * p) / WORD_LIMIT, (r * p) % WORD_LIMIT;
    assert x == WORD_LIMIT * q + r && r * p == WORD_LIMIT * k + t;
    MulAssoc(WORD_LIMIT, q, p);
    assert x * p == WORD_LIMIT * (q * p) + r * p;
    assert x * p == WORD_LIMIT * (q * p + k) + t;
    ModUnique(x * p, WORD_LIMIT, q * p + k, t);
  }

  /** The decoder stores zimm in the immediate, the callbacks read the register index, which stays zero:
      CSRRWI writes zero, CSRRSI and CSRRCI change nothing, whatever the word says. */
  lemma CsrImmediateIsIgnored(e: Entry, w: Word, rs1: Word, csr: Word)
    requires e.name in {CSRRWI, CSRRSI, CSRRCI} && Reg(Rs1) !in e.fields
    ensures DecodeEntry(e, w).InRange()
    ensures CSRValue(DecodeEntry(e, w), rs1, csr) == if e.name == CSRRWI then 0 else csr
  {
    EntryIsSafe(e, w);
    NoIndex();
    OrZero(csr);
    AndOnes(csr);
  }

  /** So the immediate forms meet the manual exactly where its operation would change nothing, and for CSRRWI
      exactly for a zero immediate. */
  lemma CsrImmediateAgreesExactly(e: Entry, w: Word, rs1: Word, csr: Word)
    requires e.name in {CSRRWI, CSRRSI, CSRRCI} && Reg(Rs1) !in e.fields
    requires ImmSlices(e.fields, ImmDict) == ImmDict(Zimm)
    ensures DecodeEntry(e, w).InRange()
    ensures var zimm := DecodeEntry(e, w).imm;
            && zimm == w / 0x8000 % 32
            && (CSRValue(DecodeEntry(e, w), rs1, csr) == ManualCSR(e.name, csr, zimm) <==>
                match e.name
                case CSRRWI => zimm == 0
                case CSRRSI => AndW(zimm, NotW(csr)) == 0
                case _ => AndW(csr, zimm) == 0)
  {
    CsrImmediateIsIgnored(e, w, rs1, csr);
    ZimmOfWord(w);
    var zimm: Word := w / 0x8000 % 32;
    OrKeeps(csr, zimm);
    AndNotKeeps(csr, zimm);
  }

  lemma ZimmOfWord(w: Word)
    ensures Immediate(ImmDict(Zimm), w) == w / 0x8000 % 32
  {
    Pow2Values();
    var s := ImmDict(Zimm);
    assert s[..0] == [] && !s[0].sign;
    OrZero(TakeSlice(s[0], w));
    GetBitsIsDivMod(32, 19, 15, w);
    assert Pow2(15) == 0x8000;
    assert Gather(s, w) == Or(Gather(s[..0], w), TakeSlice(s[0], w));
  }

  lemma OrKeeps(csr: Word, x: Word)
    ensures OrW(csr, x) == csr <==> AndW(x, NotW(csr)) == 0
  {
    Pow2Values();
    forall i: nat | i < 32
      ensures Bit(OrW(csr, x), i) <==> Bit(csr, i) || Bit(x, i)
      ensures Bit(AndW(x, NotW(csr)), i) <==> Bit(x, i) && !Bit(csr, i)
      ensures !Bit(0, i)
    {
      OrBit(csr, x, i);
      AndNotBit(x, csr, i);
      ZeroBit(i);
    }
    if AndW(x, NotW(csr)) == 0 { SameBits(OrW(csr, x), csr, 32); }
    if OrW(csr, x) == csr { SameBits(AndW(x, NotW(csr)), 0, 32); }
  }

  lemma AndNotKeeps(csr: Word, x: Word)
    ensures csr == AndW(csr, NotW(x)) <==> AndW(csr, x) == 0
  {
    Pow2Values();
    forall i: nat | i < 32
      ensures Bit(AndW(csr, NotW(x)), i) <==> Bit(csr, i) && !Bit(x, i)
      ensures Bit(AndW(csr, x), i) <==> Bit(csr, i) && Bit(x, i)
      ensures !Bit(0, i)
    {
      AndNotBit(csr, x, i);
      AndBit(csr, x, i);
      ZeroBit(i);
    }
    if AndW(csr, x) == 0 { SameBits(AndW(csr, NotW(x)), csr, 32); }
    if csr == AndW(csr, NotW(x)) { SameBits(AndW(csr, x), 0, 32); }
  }

  // ----- one failing input for each departure -----

  lemma DivDepartures()
    ensures OnRegisters(DIV, 0xFFFF_FFFF, 2) != Success(ManualDiv(0xFFFF_FFFF, 2))
    ensures OnRegisters(DIV, 7, 0) == Failure(DivisionByZero)
  {
    DivAgreesExactly(0xFFFF_FFFF, 2);
  }

  lemma ShiftDepartures()
    ensures OnRegisters(SLL, 1, 32) != Success(ShlW(1, LowFive(32)))
    ensures OnRegisters(SRL, 1, 32) != Success(ShrW(1, LowFive(32)))
    ensures OnRegisters(SRA, 1, 32) != Success(SarW(1, LowFive(32)))
  {
    ShiftsAgreeBelow32(1, 32);
  }

  /** Such as 0xFFFFFFFF, which is -1, and 0. */
  lemma BltDepartures(a: Word, b: Word)
    requires b < SIGN <= a
    ensures !Condition(BLT, a, b) && AsSigned(32, a) < AsSigned(32, b)
  {
    SignedRange(a);
    SignedRange(b);
    SignWeight();
  }

  lemma BltuDepartures(a: Word, b: Word)
    requires a < b
    ensures !Condition(BLTU, a, b)
  {}

  lemma CsrrcDeparture(inst: Instruction)
    requires inst.InRange() && inst.callback == CSRRC
    ensures CSRValue(inst, 1, 0) != ManualCSR(CSRRC, 0, 1)
  {
    CsrrcAgreesOnEqual(inst, 1, 0);
  }

  lemma UpperImmediateDepartures(lui: Entry, auipc: Entry, pc: Word, rs1: Word, rs2: Word)
    requires lui.name == LUI && ImmSlices(lui.fields, ImmDict) == ImmDict(Imm20)
    requires auipc.name == AUIPC && ImmSlices(auipc.fields, ImmDict) == ImmDict(Imm20)
    ensures RegisterValue(DecodeEntry(lui, 4096), pc, rs1, rs2) != Success(4096)
    ensures RegisterValue(DecodeEntry(auipc, 4096), pc, rs1, rs2) != Success(AddW(pc, 4096))
  {
    UpperDeparts(lui, auipc, 4096, pc, rs1, rs2);
  }

  lemma UpperDeparts(lui: Entry, auipc: Entry, w: Word, pc: Word, rs1: Word, rs2: Word)
    requires lui.name == LUI && ImmSlices(lui.fields, ImmDict) == ImmDict(Imm20)
    requires auipc.name == AUIPC && ImmSlices(auipc.fields, ImmDict) == ImmDict(Imm20)
    requires w >= 4096
    ensures RegisterValue(DecodeEntry(lui, w), pc, rs1, rs2) != Success(w / 4096 * 4096)
    ensures RegisterValue(DecodeEntry(auipc, w), pc, rs1, rs2) != Success(AddW(pc, w / 4096 * 4096))
  {
    LuiShiftsTwice(lui, w, pc, rs1, rs2);
    AuipcShiftsTwice(auipc, w, pc, rs1, rs2);
  }

  /** Any word with zimm one, such as 0x8000, over a CSR that holds zero, or one for CSRRCI. */
  lemma CsrImmediateDepartures(e: Entry, w: Word, rs1: Word, csr: Word)
    requires e.name in {CSRRWI, CSRRSI, CSRRCI} && Reg(Rs1) !in e.fields
    requires ImmSlices(e.fields, ImmDict) == ImmDict(Zimm)
    requires w / 0x8000 % 32 == 1 && csr == if e.name == CSRRCI then 1 else 0
    ensures DecodeEntry(e, w).InRange() && DecodeEntry(e, w).imm == 1
    ensures CSRValue(DecodeEntry(e, w), rs1, csr) != ManualCSR(e.name, csr, 1)
  {
    CsrImmediateAgreesExactly(e, w, rs1, csr);
    AndOnes(1);
    OneAndOne();
  }

  lemma OneAndOne()
    ensures AndW(1, 1) == 1
  {
    assert And(0, 0) == 0;
  }

  lemma NoIndex()
    ensures LowFive(0) == 0
  {
    Pow2Values();
    LowBits(32, 5, 0);
  }
}
