/** The mutable machine state of include/common/state.hh: register files over fixed arrays, the memory, the
    program counter and the two flags.  `State.View` is the `Machine.Arch` it stands for.
  */
module State {
  import opened Bits
  import opened Wrappers
  import opened FlatMemory
  import opened PagedMemory
  import opened Machine

  class RegFile {
    const regs: array<Word>

    ghost predicate Valid() { regs.Length == 32 }

    constructor ()
      ensures Valid() && fresh(regs) && forall i :: 0 <= i < 32 ==> regs[i] == 0
    {
      regs := new Word[32](_ => 0);
    }

    function Get(r: nat): Word
      requires Valid() && r < 32
      reads regs
    {
      regs[r]
    }

    /** x0 is never assigned. */
    method Set(r: nat, v: Word)
      requires Valid() && r < 32
      modifies regs
      ensures regs[..] == if r == 0 then old(regs[..]) else old(regs[..])[r := v]
    {
      if r == 0 {
        return;
      }
      regs[r] := v;
    }
  }

  // ----- counters -----

  const INSTRET: nat := 0xC02
  const INSTRETH: nat := 0xC82
  const CYCLE: nat := 0xC00
  const CYCLEH: nat := 0xC80

  /** `upper << 32 | lower` on 64 bits. */
  function Join(lower: Word, upper: Word): nat {
    Pow2Values();
    Or(Shl(64, upper, 32), lower)
  }

  /** The two halves of a 64-bit value, taken with `getBits`. */
  function Split(v: nat): (Word, Word)
    requires v < COUNTER_LIMIT
  {
    HalvesAreWords(v);
    (GetBits(64, 31, 0, v), GetBits(64, 63, 32, v))
  }

  lemma HalvesAreWords(v: nat)
    requires v < COUNTER_LIMIT
    ensures v < Pow2(64)
    ensures GetBits(64, 31, 0, v) == v % WORD_LIMIT && GetBits(64, 63, 32, v) == v / WORD_LIMIT
    ensures v / WORD_LIMIT < WORD_LIMIT
  {
    Pow2Values();
    LowBits(64, 32, v);
    GetBitsIsDivMod(64, 63, 32, v);
    UpperHalf(v);
    SmallMod(v / WORD_LIMIT, WORD_LIMIT);
  }

  lemma UpperHalf(v: nat)
    requires v < COUNTER_LIMIT
    ensures v / WORD_LIMIT < WORD_LIMIT
  {}

  lemma JoinIsSum(lower: Word, upper: Word)
    ensures Join(lower, upper) == lower + WORD_LIMIT * upper
    ensures Join(lower, upper) < COUNTER_LIMIT
  {
    Pow2Values();
    var sum := lower + WORD_LIMIT * upper;
    forall i: nat ensures Bit(Join(lower, upper), i) <==> Bit(sum, i) {
      ShlBit(64, upper, 32, i);
      OrBit(Shl(64, upper, 32), lower, i);
      if i < 32 {
        ModBit(sum, 32, i);
        ModUnique(sum, WORD_LIMIT, upper, lower);
      } else {
        HighBit(lower, 32, i);
        ShrBit(sum, 32, i - 32);
        ShrIsDiv(sum, 32);
        ModUnique(sum, WORD_LIMIT, upper, lower);
        HighBit(upper, 32, i - 32);
      }
    }
    OpBounds(Shl(64, upper, 32), lower, 64);
    SameBits(Join(lower, upper), sum, 64);
  }

  /** The split is exact: quotient and remainder by 2^32, so joining gives the value back. */
  lemma SplitIsDivMod(v: nat)
    requires v < COUNTER_LIMIT
    ensures Split(v) == (v % WORD_LIMIT, v / WORD_LIMIT)
  {
    HalvesAreWords(v);
  }

  lemma SplitSums(v: nat)
    requires v < COUNTER_LIMIT
    ensures Split(v).0 + WORD_LIMIT * Split(v).1 == v
  {
    SplitIsDivMod(v);
  }

  /** The 64-bit number kept in registers lo and hi. */
  function Pair(regs: CSRegs, lo: nat, hi: nat): nat
    requires lo < 4096 && hi < 4096
  {
    regs[lo] + WORD_LIMIT * regs[hi]
  }

  /** The file after adding `inc` to that number. */
  function Bumped(regs: CSRegs, lo: nat, hi: nat, inc: nat): CSRegs
    requires lo < 4096 && hi < 4096
  {
    var v := (Pair(regs, lo, hi) + inc) % COUNTER_LIMIT;
    var after: seq<Word> := regs[lo := v % WORD_LIMIT][hi := v / WORD_LIMIT];
    after
  }

  /** What one `updateTimers` leaves in the file. */
  function UpdatedTimers(regs: CSRegs, throughput: nat): CSRegs {
    Bumped(Bumped(regs, INSTRET, INSTRETH, 1), CYCLE, CYCLEH, throughput)
  }

  function RunTimers(regs: CSRegs, throughputs: seq<nat>): CSRegs {
    if throughputs == [] then regs
    else UpdatedTimers(RunTimers(regs, throughputs[..|throughputs| - 1]), throughputs[|throughputs| - 1])
  }

  function Sum(s: seq<nat>): nat { if s == [] then 0 else Sum(s[..|s| - 1]) + s[|s| - 1] }

  /** After any sequence of updates, from any halves, the joined counters have advanced by the number of
      updates and by the sum of the throughputs, modulo 2^64, and no other register has changed. */
  lemma {:induction false} TimersCount(regs: CSRegs, throughputs: seq<nat>)
    ensures Pair(RunTimers(regs, throughputs), 0xC02, 0xC82) == (Pair(regs, 0xC02, 0xC82) + |throughputs|) % COUNTER_LIMIT
    ensures Pair(RunTimers(regs, throughputs), 0xC00, 0xC80) == (Pair(regs, 0xC00, 0xC80) + Sum(throughputs)) % COUNTER_LIMIT
    ensures forall i :: 0 <= i < 4096 && i !in {0xC00, 0xC02, 0xC80, 0xC82} ==> RunTimers(regs, throughputs)[i] == regs[i]
  {
    if throughputs != [] {
      var n := |throughputs| - 1;
      TimersCount(regs, throughputs[..n]);
      TimersStep(RunTimers(regs, throughputs[..n]), throughputs[n]);
      AddMod(Pair(regs, INSTRET, INSTRETH), n, 1);
      AddMod(Pair(regs, CYCLE, CYCLEH), Sum(throughputs[..n]), throughputs[n]);
    }
  }

  lemma BumpedPair(regs: CSRegs, lo: nat, hi: nat, inc: nat)
    requires lo < 4096 && hi < 4096 && lo != hi
    ensures Pair(Bumped(regs, lo, hi, inc), lo, hi) == (Pair(regs, lo, hi) + inc) % COUNTER_LIMIT
    ensures forall i :: 0 <= i < 4096 && i != lo && i != hi ==> Bumped(regs, lo, hi, inc)[i] == regs[i]
  {
  }

  lemma TimersStep(regs: CSRegs, throughput: nat)
    ensures var after := UpdatedTimers(regs, throughput);
            && Pair(after, INSTRET, INSTRETH) == (Pair(regs, INSTRET, INSTRETH) + 1) % COUNTER_LIMIT
            && Pair(after, CYCLE, CYCLEH) == (Pair(regs, CYCLE, CYCLEH) + throughput) % COUNTER_LIMIT
            && forall i :: 0 <= i < 4096 && i != INSTRET && i != INSTRETH && i != CYCLE && i != CYCLEH ==>
                 after[i] == regs[i]
  {
    BumpedPair(regs, INSTRET, INSTRETH, 1);
    BumpedPair(Bumped(regs, INSTRET, INSTRETH, 1), CYCLE, CYCLEH, throughput);
  }

  class CSRegFile {
    const regs: array<Word>

    ghost predicate Valid() { regs.Length == 4096 }

    constructor ()
      ensures Valid() && fresh(regs) && forall i :: 0 <= i < 4096 ==> regs[i] == 0
    {
      regs := new Word[4096](_ => 0);
    }

    function Get(r: nat): Word
      requires Valid() && r < 4096
      reads regs
    {
      regs[r]
    }

    method Set(r: nat, v: Word)
      requires Valid() && r < 4096
      modifies regs
      ensures regs[..] == old(regs[..])[r := v]
    {
      regs[r] := v;
    }

    method UpdateTimers(throughput: nat)
      requires Valid()
      modifies regs
      ensures regs[..] == UpdatedTimers(old(regs[..]), throughput)
    {
      Bump(INSTRET, INSTRETH, 1);
      Bump(CYCLE, CYCLEH, throughput);
    }

    method Bump(lo: nat, hi: nat, inc: nat)
      requires Valid() && lo < 4096 && hi < 4096
      modifies regs
      ensures regs[..] == Bumped(old(regs[..]), lo, hi, inc)
    {
      var lower, upper := AddToPair(regs[lo], regs[hi], inc);
      regs[lo] := lower;
      regs[hi] := upper;
    }

    static method JoinHalves(lower: Word, upper: Word) returns (v: nat)
      ensures v == lower + WORD_LIMIT * upper < COUNTER_LIMIT
    {
      v := Join(lower, upper);
      JoinIsSum(lower, upper);
    }

    static method SplitHalves(v: nat) returns (lower: Word, upper: Word)
      requires v < COUNTER_LIMIT
      ensures lower + WORD_LIMIT * upper == v
    {
      SplitSums(v);
      var halves := Split(v);
      lower, upper := halves.0, halves.1;
    }

    /** Join, add, split. */
    static method AddToPair(lower: Word, upper: Word, inc: nat) returns (lower': Word, upper': Word)
      ensures lower' + WORD_LIMIT * upper' == (lower + WORD_LIMIT * upper + inc) % COUNTER_LIMIT
    {
      var tmp := JoinHalves(lower, upper);
      tmp := (tmp + inc) % COUNTER_LIMIT;
      lower', upper' := SplitHalves(tmp);
    }
  }

  // ----- the whole state -----

  lemma StoreIsFlat(m: Model, a: Word, v: Word)
    requires Consistent(m)
    ensures var f, (r, n) := m.flat.Store(W32, a, v), StoreModel(m, W32, a, v);
            && r == (if f.Failure? then Failure(f.error) else Success(()))
            && n.flat == if f.Failure? then m.flat else f.value
  {
    TlbInvisible(m, W32, a, v);
  }

  /** A running machine: the program is stored, so stores are logged. */
  class State {
    var pc: Word
    var npc: Word
    const regs: RegFile
    const csregs: CSRegFile
    const mem: Memory
    var branchIsTaken: bool
    var complete: bool
    ghost var log: seq<Event>

    ghost predicate Valid()
      reads this, mem, mem.Repr
    {
      && regs.Valid() && csregs.Valid() && regs.regs != csregs.regs
      && mem.Valid() && mem.isProgramStored
      && {this, mem, regs.regs, csregs.regs} !! mem.Repr
    }

    /** Everything execution may change. */
    ghost function Repr(): set<object>
      reads mem
    {
      {this, mem, regs.regs, csregs.regs} + mem.Repr
    }

    ghost function View(count: nat): Arch
      requires regs.Valid() && csregs.Valid()
      reads this, regs.regs, csregs.regs, mem
    {
      Arch(pc, npc, regs.regs[..], csregs.regs[..], mem.model.flat, branchIsTaken, complete, count, log)
    }

    constructor (mem: Memory, entry: Word)
      requires mem.Valid() && mem.isProgramStored
      ensures Valid() && this.mem == mem && fresh(regs.regs) && fresh(csregs.regs)
      ensures pc == entry && npc == 0 && !branchIsTaken && !complete && log == []
      ensures regs.regs[..] == seq(32, _ => 0) && csregs.regs[..] == seq(4096, _ => 0)
    {
      this.mem := mem;
      pc, npc, branchIsTaken, complete, log := entry, 0, false, false, [];
      regs := new RegFile();
      csregs := new CSRegFile();
      new;
      assert regs.regs[..] == seq(32, _ => 0) && csregs.regs[..] == seq(4096, _ => 0);
    }

    method SetReg(r: nat, v: Word, ghost count: nat)
      requires Valid() && r < 32
      modifies this`log, regs.regs
      ensures Valid() && View(count) == old(View(count)).SetReg(r, v)
    {
      regs.Set(r, v);
      if r != 0 {
        log := log + [RegSet(r, v)];
      }
    }

    method SetCSReg(r: nat, v: Word, ghost count: nat)
      requires Valid() && r < 4096
      modifies csregs.regs
      ensures Valid() && View(count) == old(View(count)).SetCSReg(r, v)
    {
      csregs.Set(r, v);
    }

    method Load(a: Word, ghost count: nat) returns (r: Result<Word, MemError>)
      requires Valid()
      modifies mem, mem.Repr
      ensures Valid() && mem.Repr == old(mem.Repr)
      ensures r == LoadWord(mem.model.flat, a) && View(count) == old(View(count))
    {
      TlbInvisible(mem.model, W32, a, 0);
      ComposeBound(mem.model.flat, a);
      var loaded := mem.LoadEntity(W32, a);
      match loaded
      case Failure(e) => r := Failure(e);
      case Success(v) => r := Success(v);
    }

    method Store(a: Word, v: Word, ghost count: nat) returns (r: Result<(), MemError>)
      requires Valid()
      modifies mem, mem.Repr, this`log
      ensures Valid() && fresh(mem.Repr - old(mem.Repr))
      ensures var m := old(mem.model.flat).Store(W32, a, v);
              && r == (if m.Failure? then Failure(m.error) else Success(()))
              && View(count) == if m.Failure? then old(View(count))
                                else old(View(count)).(mem := m.value, log := old(log) + [MemSet(a, v)])
    {
      r := StoreUnlogged(a, v);
      if r.Success? {
        log := log + [MemSet(a, v)];
      }
    }

    method StoreUnlogged(a: Word, v: Word) returns (r: Result<(), MemError>)
      requires Valid()
      modifies mem, mem.Repr
      ensures Valid() && fresh(mem.Repr - old(mem.Repr))
      ensures var m := old(mem.model.flat).Store(W32, a, v);
              && r == (if m.Failure? then Failure(m.error) else Success(()))
              && mem.model.flat == if m.Failure? then old(mem.model.flat) else m.value
    {
      StoreIsFlat(mem.model, a, v);
      r := mem.StoreEntity(W32, a, v);
    }
  }
}
