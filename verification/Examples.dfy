/** Two small programs at the edges of the main theorems: a memory in which createBB never returns, and a
    program that rewrites its code, on which `run` and the interpreter part ways.
  */
module Examples {
  import opened Bits
  import opened Wrappers
  import opened FlatMemory
  import opened Instructions
  import opened DecoderTable
  import opened DecoderGen
  import opened Machine
  import opened BlockCache
  import opened Interpreter
  import opened BasicBlock
  import opened BlockRun
  import opened SelfModification

  /** An entry that fills no field. */
  predicate Bare(e: Entry, name: OpType) { e.name == name && e.fields == [] }

  lemma BareDecodes(e: Entry, w: Word)
    requires Bare(e, e.name)
    ensures DecodeEntry(e, w) == Instruction(0, 0, 0, 0, 0, 0, e.name, 0, e.name in BRANCH_MNEMONICS, e.name)
  {
    ExtendZero();
  }

  // ----- createBB never returns -----

  predicate IsPage(p: nat) { p < 0x10_0000 }

  predicate IsByte(b: nat) { b < WORD_LIMIT }

  /** Memory full of ones. */
  function Ones(): Flat {
    Flat(set p: nat {:trigger IsPage(p)} | p < 0x10_0000 && IsPage(p),
         map b: nat {:trigger IsByte(b)} | b < WORD_LIMIT && IsByte(b) :: 1)
  }

  lemma OnesWord(a: Word)
    requires a % 4 == 0
    ensures LoadWord(Ones(), a).Success? && LoadWord(Ones(), a).value % 2 == 1
  {
    assert IsPage(a / PAGE_SIZE) && IsByte(a);
    assert Ones().Compose(a, 4) == 1 + 256 * Ones().Compose(a + 1, 3);
  }

  lemma OnesTidy()
    ensures Tidy(Ones())
  {
    forall b | b in Ones().bytes ensures b / PAGE_SIZE in Ones().mapped {
      assert IsPage(b / PAGE_SIZE);
    }
  }

  lemma OddMatches(w: nat)
    requires w % 2 == 1
    ensures And(w, 1) == 1
  {
    AndWithZero(w / 2);
  }

  lemma {:induction false} AndWithZero(a: nat)
    ensures And(a, 0) == 0
  {
    if a > 0 { AndWithZero(a / 2); }
  }

  /** A table in which every odd word is an ADD, and no other word an instruction. */
  predicate OddIsAdd(table: seq<Entry>) {
    |table| == 1 && Bare(table[0], ADD) && table[0].mask == 1 && table[0].matched == 1
  }

  lemma OddDecodes(table: seq<Entry>, w: Word)
    requires OddIsAdd(table)
    ensures w % 2 == 1 ==> Decode(table, w).optype == ADD && !Decode(table, w).isBranch
    ensures w == 0 ==> Decode(table, w).optype == UNKNOWN
  {
    OddMatch(table, w);
    if w % 2 == 1 { BareDecodes(table[0], w); }
  }

  lemma OddMatch(table: seq<Entry>, w: Word)
    requires OddIsAdd(table)
    ensures w % 2 == 1 ==> FirstMatch(table, w) == Some(table[0])
    ensures w == 0 ==> FirstMatch(table, w) == None
  {
    var i := FirstMatchPosition(table, w);
    if w % 2 == 1 { OddMatches(w); }
  }

  /** Memory full of ones then sends createBB round and round, from every aligned entry. */
  lemma CreateBBNeverReturns(table: seq<Entry>, a: Word)
    requires OddIsAdd(table) && a % 4 == 0
    ensures Decode(table, 0).optype == UNKNOWN && Tidy(Ones())
    ensures Build(SimCpu(table), Ones(), a) == Endless
  {
    OddDecodes(table, 0);
    OnesTidy();
    forall i: nat ensures Plain(SimCpu(table), Ones(), Offset(a, i)) {
      OffsetAligned(a, i);
      OnesWord(Offset(a, i));
      OddDecodes(table, LoadWord(Ones(), Offset(a, i)).value);
    }
    EndlessRun(SimCpu(table), Ones(), a);
  }

  lemma OffsetAligned(a: Word, i: nat)
    requires a % 4 == 0
    ensures Offset(a, i) % 4 == 0
  {}

  // ----- a program that rewrites its code -----

  /** SW, ADD and ECALL are the words whose last two bits are 1, 2 and 3. */
  predicate ThreeEntries(table: seq<Entry>) {
    && |table| == 3 && Bare(table[0], SW) && Bare(table[1], ADD) && Bare(table[2], ECALL)
    && forall i :: 0 <= i < 3 ==> table[i].mask == 3 && table[i].matched == i + 1
  }

  lemma LowBitsMatch(w: Word)
    requires w <= 3
    ensures And(w, 3) == w
  {
    assert And(0, 1) == 0 && And(1, 1) == 1 && And(0, 0) == 0;
    assert And(w / 2, 1) == w / 2;
  }

  lemma DecodesSmall(table: seq<Entry>, w: Word)
    requires ThreeEntries(table) && w <= 3
    ensures FirstMatch(table, w) == if w == 0 then None else Some(table[w - 1])
  {
    LowBitsMatch(w);
    var i := FirstMatchPosition(table, w);
  }

  /** The instruction that such a word decodes to, and what it decodes to in memory. */
  lemma SmallWord(table: seq<Entry>, m: Flat, a: Word, w: Word)
    requires ThreeEntries(table) && w <= 3 && LoadWord(m, a) == Success(w)
    ensures w == 0 ==> DecodeAt(table, m, a) == Failure(UnknownInstruction)
    ensures w > 0 ==> DecodeAt(table, m, a) == Success(Small(w))
  {
    SmallDecode(table, w);
  }

  lemma SmallDecode(table: seq<Entry>, w: Word)
    requires ThreeEntries(table) && w <= 3
    ensures w == 0 ==> Decode(table, w).optype == UNKNOWN
    ensures w > 0 ==> Decode(table, w) == Small(w) && Small(w).optype != UNKNOWN
  {
    DecodesSmall(table, w);
    if w > 0 { BareDecodes(table[w - 1], w); }
  }

  function Small(w: Word): Instruction
    requires 1 <= w <= 3
  {
    var op := if w == 1 then SW else if w == 2 then ADD else ECALL;
    Instruction(0, 0, 0, 0, 0, 0, op, 0, op in BRANCH_MNEMONICS, op)
  }

  /** SW in the last word of the address space, ADD at 0, ECALL at 4; every register is zero, so the SW
      stores zero over the ADD, which createBB has already decoded. */
  ghost predicate Rewriter(s: Arch) {
    && Boundary(s) && !s.complete && AddW(s.pc, XLEN_BYTES) == 0
    && LoadWord(s.mem, s.pc) == Success(1) && LoadWord(s.mem, 0) == Success(2) && LoadWord(s.mem, 4) == Success(3)
  }

  /** What the three instructions do. */
  lemma SmallSteps(w: Word, s: Arch)
    requires 1 <= w <= 3 && Boundary(s)
    ensures var r := ExecChecked(Small(w), s);
            && r.Done? && Boundary(r.st) && r.st.pc == AddW(s.pc, XLEN_BYTES)
            && r.st.complete == (s.complete || w == 3)
            && (w == 1 ==> r.st.mem == s.mem.Store(W32, 0, 0).value)
  {
    var numbered := s.(log := s.log + [Num(s.instrCount)]);
    CallbackEffect(Small(w), numbered);
    if w == 1 {
      assert Callback(Small(w), numbered) == MemoryAccess(Small(w), numbered);
    }
  }

  lemma OffsetsFromLast(a: Word)
    requires AddW(a, XLEN_BYTES) == 0
    ensures Offset(a, 0) == a && Offset(a, 1) == 0 && Offset(a, 2) == 4
  {
    LastWord(a);
    SmallMod(a, WORD_LIMIT);
    ModUnique(a + 8, WORD_LIMIT, 1, 4);
  }

  lemma LastWord(a: Word)
    requires AddW(a, XLEN_BYTES) == 0
    ensures a == WORD_LIMIT - 4
  {}

  /** The interpreter fetches the zero and throws. */
  lemma SteppingThrows(table: seq<Entry>, s: Arch) returns (n: nat)
    requires ThreeEntries(table) && Rewriter(s)
    ensures Interpret(SimCpu(table), s, n).Threw?
  {
    var t := AfterStore(table, s);
    SmallWord(table, t.mem, 0, 0);
    n := 2;
    assert Interpret(SimCpu(table), t, 1).Threw?;
  }

  lemma AfterStore(table: seq<Entry>, s: Arch) returns (t: Arch)
    requires ThreeEntries(table) && Rewriter(s)
    ensures Step(SimCpu(table), s) == Done(t) && t.pc == 0 && !t.complete && LoadWord(t.mem, 0) == Success(0)
  {
    SmallWord(table, s.mem, s.pc, 1);
    SmallSteps(1, s);
    OffsetsFromLast(s.pc);
    t := ExecChecked(Small(1), s).st;
    StoreThenLoad(s.mem, W32, 0, 0);
  }

  /** Running blocks executes the ADD that was decoded before, and completes, whatever the cache. */
  lemma RunningBlocksCompletes(table: seq<Entry>, s: Arch, size: int) returns (t: Arch)
    requires ThreeEntries(table) && Rewriter(s)
    ensures RunCompletes(SimCpu(table), s, EmptyCache(size), t)
  {
    var cpu, bb, cache := SimCpu(table), Program(), EmptyCache(size);
    ProgramDecodes(table, s);
    ProgramIsBlock(cpu, s);
    t := ThreeSteps(cpu, table, s);
    EmptyIsCoherent(cpu, s.mem, size);
    TurnUsesBlock(cpu, s, cache, bb);
    var after := Lookup(cache, s.pc, Success(bb)).1;
    RunBlocksStep(cpu, s, cache, t, after, 0);
    assert RanTo(RunBlocks(cpu, s, cache, 1), t);
  }

  function Program(): Block { [Small(1), Small(2), Small(3)] }

  lemma ProgramDecodes(table: seq<Entry>, s: Arch)
    requires ThreeEntries(table) && Rewriter(s)
    ensures DecodeAt(table, s.mem, s.pc) == Success(Small(1))
    ensures DecodeAt(table, s.mem, 0) == Success(Small(2))
    ensures DecodeAt(table, s.mem, 4) == Success(Small(3))
  {
    SmallWord(table, s.mem, s.pc, 1);
    SmallWord(table, s.mem, 0, 2);
    SmallWord(table, s.mem, 4, 3);
  }

  lemma ProgramIsBlock(cpu: Cpu, s: Arch)
    requires Rewriter(s) && cpu.decodeAt(s.mem, s.pc) == Success(Small(1))
    requires cpu.decodeAt(s.mem, 0) == Success(Small(2)) && cpu.decodeAt(s.mem, 4) == Success(Small(3))
    ensures IsBlock(cpu, s.mem, s.pc, Program())
  {
    OffsetsFromLast(s.pc);
    forall i: nat | i < 3
      ensures cpu.decodeAt(s.mem, Offset(s.pc, i)) == Success(Program()[i])
      ensures Program()[i].isBranch <==> i == 2
    {
      assert i == 0 || i == 1 || i == 2;
    }
  }

  lemma ThreeSteps(cpu: Cpu, table: seq<Entry>, s: Arch) returns (t: Arch)
    requires cpu == SimCpu(table) && Boundary(s)
    ensures ExecuteBlock(cpu, Program(), s) == Done(t) && t.complete
  {
    SmallSteps(1, s);
    var s1 := ExecChecked(Small(1), s).st;
    SmallSteps(2, s1);
    var s2 := ExecChecked(Small(2), s1).st;
    SmallSteps(3, s2);
    t := ExecChecked(Small(3), s2).st;
    LastOfBlock(cpu, Small(3), s2);
    assert [Small(2), Small(3)][1..] == [Small(3)];
    assert Program()[1..] == [Small(2), Small(3)];
  }

  lemma LastOfBlock(cpu: Cpu, inst: Instruction, s: Arch)
    requires cpu.exec(inst, s).Done?
    ensures ExecuteBlock(cpu, [inst], s) == cpu.exec(inst, s)
  {
    assert [inst][1..] == [];
  }

  /** So the condition of the main theorem is needed: this program rewrites its code, and `run` completes
      where single stepping throws. */
  lemma RewritingIsVisible(table: seq<Entry>, s: Arch, size: int) returns (t: Arch)
    requires ThreeEntries(table) && Rewriter(s)
    ensures Decode(table, 0).optype == UNKNOWN
    ensures RunCompletes(SimCpu(table), s, EmptyCache(size), t) && !Completes(SimCpu(table), s, t)
    ensures Tidy(s.mem) ==> !WellBehaved(table, s, size)
  {
    DecodesSmall(table, 0);
    t := RunningBlocksCompletes(table, s, size);
    var n := SteppingThrows(table, s);
    if Completes(SimCpu(table), s, t) {
      var k: nat :| Interpret(SimCpu(table), s, k) == Done(t);
      CompleteNeverThrows(SimCpu(table), s, k, n);
    }
    if Tidy(s.mem) && WellBehaved(table, s, size) {
      RunMatchesInterpreter(table, s, size, t);
    }
  }
}
