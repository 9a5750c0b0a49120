/** When a program keeps its code: no store hits a word that is live, that is, in a block that the cache holds or
    among those that the running block executes.

    This is the condition of the block-cache results, read off the run of the interpreter.  A page
    that is not mapped yet needs care: a store next to a word can map it, and the word then reads as
    zero.  That is harmless because the zero word is not an instruction.
  */
module SelfModification {
  import opened Bits
  import opened Wrappers
  import opened FlatMemory
  import opened Instructions
  import opened DecoderTable
  import opened Machine
  import opened Interpreter
  import opened BlockCache
  import opened BlockRun

  /** The word the next instruction stores to, if it is a store. */
  function StoreTarget(table: seq<Entry>, s: Arch): Option<Word> {
    match DecodeAt(table, s.mem, s.pc)
    case Failure(_) => None
    case Success(inst) =>
      if inst.InRange() && inst.callback == SW then Some(AddW(s.regs[inst.rs1], inst.imm)) else None
  }

  function SimTarget(table: seq<Entry>): Arch -> Option<Word> { (s: Arch) => StoreTarget(table, s) }

  /** No step of the run stores to a word of `code`. */
  ghost predicate NoStoreInto(cpu: Cpu, target: Arch -> Option<Word>, s: Arch, n: nat, code: set<Word>)
    decreases n
  {
    n == 0 || s.complete ||
    ((target(s).Some? ==> target(s).value !in code) &&
     var r := Step(cpu, s);
     r.Done? ==> NoStoreInto(cpu, target, r.st, n - 1, code))
  }

  /** Bytes exist only on mapped pages, as in every memory built by stores. */
  ghost predicate Tidy(m: Flat) { forall a :: a in m.bytes ==> a / PAGE_SIZE in m.mapped }

  lemma StoreKeepsTidy(m: Flat, a: Word, v: nat)
    requires Tidy(m) && a % 4 == 0
    ensures Tidy(m.Store(W32, a, v).value)
  {
    var f := m.(mapped := m.mapped + {a / PAGE_SIZE});
    var n := f.Write(a, 4, v);
    WriteEffect(f, a, 4, v, 0);
    forall b | b in n.bytes ensures b / PAGE_SIZE in n.mapped {
      if a <= b < a + 4 { OnePage(W32, a); }
    }
  }

  lemma OtherWord(a: nat, c: nat, b: nat)
    requires a % 4 == 0 && c % 4 == 0 && a != c && c <= b < c + 4
    ensures !(a <= b < a + 4)
  {}

  /** The bytes of another word stay. */
  lemma StoreKeepsWord(m: Flat, a: Word, v: nat, c: Word)
    requires a % 4 == 0 && c % 4 == 0 && a != c
    ensures forall b: nat :: c <= b < c + 4 ==> m.Store(W32, a, v).value.At(b) == m.At(b)
  {
    forall b: nat | c <= b < c + 4 ensures m.Store(W32, a, v).value.At(b) == m.At(b) {
      OtherWord(a, c, b);
      WriteEffect(m.(mapped := m.mapped + {a / PAGE_SIZE}), a, 4, v, b);
    }
  }

  lemma UnmappedIsZero(m: Flat, c: Word)
    requires Tidy(m) && c % 4 == 0 && c / PAGE_SIZE !in m.mapped
    ensures forall b: nat :: c <= b < c + 4 ==> m.At(b) == 0
  {
    forall b: nat | c <= b < c + 4 ensures m.At(b) == 0 {
      OnePage(W32, c);
    }
  }

  /** Another word keeps its value; if its page was not mapped, it now reads as zero. */
  lemma StoreElsewhere(m: Flat, a: Word, v: nat, c: Word)
    requires Tidy(m) && a % 4 == 0 && c % 4 == 0 && a != c
    ensures var n := m.Store(W32, a, v).value;
            && Tidy(n)
            && (c / PAGE_SIZE in m.mapped ==> LoadWord(n, c) == LoadWord(m, c))
            && (c / PAGE_SIZE !in m.mapped && c / PAGE_SIZE in n.mapped ==> LoadWord(n, c) == Success(0))
  {
    var n := m.Store(W32, a, v).value;
    StoreKeepsTidy(m, a, v);
    StoreKeepsWord(m, a, v, c);
    WriteEffect(m.(mapped := m.mapped + {a / PAGE_SIZE}), a, 4, v, 0);
    ComposeReadsOnly(n, m, c, 4);
    if c / PAGE_SIZE !in m.mapped {
      UnmappedIsZero(m, c);
      ComposeReadsOnly(n, EMPTY, c, 4);
      ComposeOfZeros(c, 4);
    }
  }

  lemma {:induction false} ComposeOfZeros(a: nat, n: nat)
    ensures EMPTY.Compose(a, n) == 0
    decreases n
  {
    if n > 0 { ComposeOfZeros(a + 1, n - 1); }
  }

  /** One step changes memory only by its store. */
  lemma StepMemory(table: seq<Entry>, s: Arch)
    requires Step(SimCpu(table), s).Done?
    ensures var t := Step(SimCpu(table), s).st;
            match StoreTarget(table, s)
            case None => t.mem == s.mem
            case Some(a) => a % 4 == 0 && exists v: Word :: t.mem == s.mem.Store(W32, a, v).value
  {
    var inst := DecodeAt(table, s.mem, s.pc).value;
    DecodeAtIsSafe(table, s.mem, s.pc);
    var s' := s.(log := s.log + [Num(s.instrCount)]);
    CallbackEffect(inst, s');
    if inst.callback == SW {
      assert Callback(inst, s') == MemoryAccess(inst, s');
      assert Step(SimCpu(table), s).st.mem == s.mem.Store(W32, AddW(s.regs[inst.rs1], inst.imm), s.regs[inst.rs2]).value;
    }
  }

  /** What decodes at c stays, and what decodes at c afterwards did before. */
  ghost predicate KeepsWord(cpu: Cpu, m: Flat, n: Flat, c: Word) {
    && Tidy(n)
    && (cpu.decodeAt(m, c).Success? ==> cpu.decodeAt(n, c) == cpu.decodeAt(m, c))
    && (cpu.decodeAt(n, c).Success? ==> cpu.decodeAt(m, c).Success?)
  }

  /** `target` tells the one word a step can store to. */
  ghost predicate OnlyStores(cpu: Cpu, target: Arch -> Option<Word>) {
    forall s: Arch, c: Word :: StepKeeps(cpu, target, s, c)
  }

  ghost predicate StepKeeps(cpu: Cpu, target: Arch -> Option<Word>, s: Arch, c: Word) {
    Tidy(s.mem) && Step(cpu, s).Done? && target(s) != Some(c) ==> KeepsWord(cpu, s.mem, Step(cpu, s).st.mem, c)
  }

  lemma SimOnlyStores(table: seq<Entry>)
    requires Decode(table, 0).optype == UNKNOWN
    ensures OnlyStores(SimCpu(table), SimTarget(table))
  {
    forall s: Arch, c: Word ensures StepKeeps(SimCpu(table), SimTarget(table), s, c) {
      if Tidy(s.mem) && Step(SimCpu(table), s).Done? && StoreTarget(table, s) != Some(c) {
        StepMemory(table, s);
        if StoreTarget(table, s).Some? {
          var a := StoreTarget(table, s).value;
          var v: Word :| Step(SimCpu(table), s).st.mem == s.mem.Store(W32, a, v).value;
          StoreKeepsInst(table, s.mem, a, v, c);
        }
      }
    }
  }

  lemma StoreKeepsInst(table: seq<Entry>, m: Flat, a: Word, v: Word, c: Word)
    requires Tidy(m) && Decode(table, 0).optype == UNKNOWN && a % 4 == 0 && a != c
    ensures KeepsWord(SimCpu(table), m, m.Store(W32, a, v).value, c)
  {
    var other: Word := if c % 4 == 0 then c else if a == 0 then 4 else 0;
    StoreElsewhere(m, a, v, other);
  }

  lemma {:induction false} NoStoreIsClean(cpu: Cpu, target: Arch -> Option<Word>, s: Arch, n: nat, code: set<Word>)
    requires OnlyStores(cpu, target) && Tidy(s.mem) && NoStoreInto(cpu, target, s, n, code)
    requires StaysIn(cpu, s, n, code)
    ensures Clean(cpu, s, n, code)
    decreases n
  {
    if n > 0 && !s.complete {
      var r := Step(cpu, s);
      if r.Done? {
        forall c | c in code ensures KeepsWord(cpu, s.mem, r.st.mem, c) {
          assert StepKeeps(cpu, target, s, c);
        }
        assert StepKeeps(cpu, target, s, s.pc);
        NoStoreIsClean(cpu, target, r.st, n - 1, code);
      }
    }
  }

  /** While this block runs no step stores to a live word, one that the block executes or a cached block holds. */
  ghost predicate BlockKeepsLive(cpu: Cpu, target: Arch -> Option<Word>, at: Option<(Arch, Cache)>) {
    at.Some? && !at.value.0.complete ==>
      NoStoreInto(cpu, target, at.value.0, Ahead(cpu, at.value.0.mem, at.value.0.pc), Live(cpu, at.value.0, at.value.1))
  }

  /** The condition on programs, for a given cache: code may be written as long as no cached block holds it and
      the running block does not execute it. */
  ghost predicate KeepsLiveCode(cpu: Cpu, target: Arch -> Option<Word>, s: Arch, cache: Cache) {
    forall n: nat :: BlockKeepsLive(cpu, target, NthBlock(cpu, s, cache, n))
  }

  lemma {:induction false} RunKeepsTidy(cpu: Cpu, target: Arch -> Option<Word>, s: Arch, n: nat, code: set<Word>)
    requires OnlyStores(cpu, target) && Tidy(s.mem) && NoStoreInto(cpu, target, s, n, code)
    requires StaysIn(cpu, s, n, code)
    ensures Tidy(Interpret(cpu, s, n).st.mem) || Interpret(cpu, s, n).Threw?
    decreases n
  {
    if n > 0 && !s.complete {
      var r := Step(cpu, s);
      if r.Done? {
        assert StepKeeps(cpu, target, s, s.pc);
        RunKeepsTidy(cpu, target, r.st, n - 1, code);
      }
    }
  }

  /** The block that starts now, when no store hits a word of `code`. */
  lemma BlockKeeps(cpu: Cpu, target: Arch -> Option<Word>, s: Arch, k: nat, code: set<Word>)
    requires OnlyStores(cpu, target) && Tidy(s.mem) && NoStoreInto(cpu, target, s, k, code)
    requires StaysIn(cpu, s, k, code)
    ensures Clean(cpu, s, k, code)
    ensures Interpret(cpu, s, k).Done? ==> Tidy(Interpret(cpu, s, k).st.mem)
  {
    NoStoreIsClean(cpu, target, s, k, code);
    RunKeepsTidy(cpu, target, s, k, code);
  }

  lemma {:induction false} NthIsTidy(cpu: Cpu, target: Arch -> Option<Word>, s: Arch, cache: Cache, n: nat)
    requires OnlyStores(cpu, target) && Tidy(s.mem) && KeepsLiveCode(cpu, target, s, cache)
    ensures NthBlock(cpu, s, cache, n).Some? ==> Tidy(NthBlock(cpu, s, cache, n).value.0.mem)
  {
    if n > 0 {
      NthIsTidy(cpu, target, s, cache, n - 1);
      var at := NthBlock(cpu, s, cache, n - 1);
      assert BlockKeepsLive(cpu, target, at);
      if at.Some? && !at.value.0.complete {
        KeptBlock(cpu, target, at.value.0, at.value.1);
      }
    }
  }

  lemma KeptBlock(cpu: Cpu, target: Arch -> Option<Word>, s: Arch, cache: Cache)
    requires OnlyStores(cpu, target) && Tidy(s.mem) && !s.complete && BlockKeepsLive(cpu, target, Some((s, cache)))
    ensures BlockIsClean(cpu, Some((s, cache)))
    ensures NextBlock(cpu, s, cache).Some? ==> Tidy(NextBlock(cpu, s, cache).value.0.mem)
  {
    BlockKeeps(cpu, target, s, Ahead(cpu, s.mem, s.pc), Live(cpu, s, cache));
  }

  lemma KeepsLiveIsClean(cpu: Cpu, target: Arch -> Option<Word>, s: Arch, cache: Cache)
    requires OnlyStores(cpu, target) && Tidy(s.mem) && KeepsLiveCode(cpu, target, s, cache)
    ensures CleanRun(cpu, s, cache)
  {
    forall n: nat ensures BlockIsClean(cpu, NthBlock(cpu, s, cache, n)) {
      var at := NthBlock(cpu, s, cache, n);
      NthIsTidy(cpu, target, s, cache, n);
      assert BlockKeepsLive(cpu, target, at);
      if at.Some? && !at.value.0.complete {
        KeptBlock(cpu, target, at.value.0, at.value.1);
      }
    }
  }

  /** What the theorems ask of a program, for the cache of a given size, empty at the start. */
  ghost predicate WellBehaved(table: seq<Entry>, s: Arch, size: int) {
    Decode(table, 0).optype == UNKNOWN && KeepsLiveCode(SimCpu(table), SimTarget(table), s, EmptyCache(size))
  }

  lemma StartsSteady(table: seq<Entry>, s: Arch, size: int)
    requires WellBehaved(table, s, size) && Boundary(s) && Tidy(s.mem)
    ensures Legal(SimCpu(table)) && Steady(SimCpu(table), s, EmptyCache(size))
  {
    var cpu, cache := SimCpu(table), EmptyCache(size);
    SimCpuIsLegal(table);
    SimOnlyStores(table);
    KeepsLiveIsClean(cpu, SimTarget(table), s, cache);
    EmptyIsCoherent(cpu, s.mem, size);
  }

  /** The simulator, for every instruction table in which zero is not an instruction: if a program never stores
      to code that is live under a cache policy and size, `run` with that cache completes exactly when
      stepping does, and in the same state. */
  lemma RunMatchesInterpreter(table: seq<Entry>, s: Arch, size: int, t: Arch)
    requires WellBehaved(table, s, size) && Boundary(s) && Tidy(s.mem)
    ensures RunCompletes(SimCpu(table), s, EmptyCache(size), t) <==> Completes(SimCpu(table), s, t)
  {
    StartsSteady(table, s, size);
    RunIsInterpreter(SimCpu(table), s, EmptyCache(size), t);
  }

  /** The same program and exceptions: when `run` throws in state t, the interpreter throws the same error in
      t, or it reaches t, where createBB throws decoding ahead, and throws later itself. */
  lemma RunThrowsAlike(table: seq<Entry>, s: Arch, size: int, turns: nat) returns (n: nat, later: nat)
    requires WellBehaved(table, s, size) && Boundary(s) && Tidy(s.mem)
    requires RunBlocks(SimCpu(table), s, EmptyCache(size), turns).Failed?
    ensures var f := RunBlocks(SimCpu(table), s, EmptyCache(size), turns);
            ThrowsAlike(SimCpu(table), Interpret(SimCpu(table), s, n), f.e, f.st)
    ensures Interpret(SimCpu(table), s, later).Threw?
  {
    StartsSteady(table, s, size);
    n, later := BlocksThrow(SimCpu(table), s, EmptyCache(size), turns);
  }

  /** And when the interpreter throws, `run` never completes. */
  lemma InterpreterThrowsAlike(table: seq<Entry>, s: Arch, size: int, n: nat, t: Arch)
    requires WellBehaved(table, s, size) && Boundary(s) && Tidy(s.mem)
    requires Interpret(SimCpu(table), s, n).Threw?
    ensures !RunCompletes(SimCpu(table), s, EmptyCache(size), t)
  {
    var cpu := SimCpu(table);
    RunMatchesInterpreter(table, s, size, t);
    if Completes(cpu, s, t) {
      var k: nat :| Interpret(cpu, s, k) == Done(t);
      CompleteNeverThrows(cpu, s, k, n);
    }
  }

  /** Where the condition holds for two policies, they agree after every turn, thrown errors included. */
  lemma AnyTwoPoliciesAgree(table: seq<Entry>, s: Arch, size: int, size': int, turns: nat)
    requires WellBehaved(table, s, size) && WellBehaved(table, s, size') && Boundary(s) && Tidy(s.mem)
    ensures Agree(RunBlocks(SimCpu(table), s, EmptyCache(size), turns), RunBlocks(SimCpu(table), s, EmptyCache(size'), turns))
  {
    StartsSteady(table, s, size);
    StartsSteady(table, s, size');
    PolicyIndependence(SimCpu(table), s, EmptyCache(size), EmptyCache(size'), turns);
  }

  // ----- conditions for every cache at once -----

  /** Without a cache only the words that the running block executes are live. */
  lemma NoCacheWatchesRunningBlock(cpu: Cpu, s: Arch)
    ensures forall a: Word :: a in Live(cpu, s, EmptyCache(0)) <==> Visits(cpu, s, Ahead(cpu, s.mem, s.pc), a)
    ensures After(cpu, s, EmptyCache(0)) == EmptyCache(0)
  {
    forall a: Word ensures a !in Words(No) {}
  }

  /** `code` with what the run executes up to the end of the block that starts now. */
  ghost function Grown(cpu: Cpu, s: Arch, code: set<Word>): set<Word> {
    set a: Word | a in code || Visits(cpu, s, Ahead(cpu, s.mem, s.pc), a)
  }

  /** Block by block: no step stores to a word that an earlier block executed or this block executes. */
  ghost predicate NeverRewrites(cpu: Cpu, target: Arch -> Option<Word>, s: Arch, code: set<Word>, n: nat)
    decreases n
  {
    n == 0 || s.complete ||
    (var k, now := Ahead(cpu, s.mem, s.pc), Grown(cpu, s, code);
     && NoStoreInto(cpu, target, s, k, now)
     && (var r := Interpret(cpu, s, k); r.Done? ==> NeverRewrites(cpu, target, r.st, now, n - 1)))
  }

  /** Code may be written before it runs, and never once the block that executes it has begun. */
  ghost predicate NeverRewritesCode(cpu: Cpu, target: Arch -> Option<Word>, s: Arch) {
    forall n: nat :: NeverRewrites(cpu, target, s, {}, n)
  }

  lemma NeverRewritesNext(cpu: Cpu, target: Arch -> Option<Word>, s: Arch, code: set<Word>)
    requires !s.complete && forall n: nat :: NeverRewrites(cpu, target, s, code, n)
    ensures var k := Ahead(cpu, s.mem, s.pc);
            && NoStoreInto(cpu, target, s, k, Grown(cpu, s, code))
            && (var r := Interpret(cpu, s, k);
                r.Done? ==> forall n: nat :: NeverRewrites(cpu, target, r.st, Grown(cpu, s, code), n))
  {
    assert NeverRewrites(cpu, target, s, code, 1);
    var r := Interpret(cpu, s, Ahead(cpu, s.mem, s.pc));
    if r.Done? {
      forall n: nat ensures NeverRewrites(cpu, target, r.st, Grown(cpu, s, code), n) {
        assert NeverRewrites(cpu, target, s, code, n + 1);
      }
    }
  }

  /** Every cached word was executed before, so a program that never rewrites code keeps what any cache holds. */
  lemma {:induction false} NeverRewritesKeepsLive(cpu: Cpu, target: Arch -> Option<Word>, s: Arch, code: set<Word>, cache: Cache, n: nat)
    requires Legal(cpu) && OnlyStores(cpu, target) && Tidy(s.mem) && Boundary(s)
    requires Words(cache) <= code && forall m: nat :: NeverRewrites(cpu, target, s, code, m)
    ensures BlockKeepsLive(cpu, target, NthBlock(cpu, s, cache, n))
    decreases n
  {
    if s.complete {
      if n > 0 { NothingAfterEnd(cpu, s, cache, n); }
      return;
    }
    var k, now := Ahead(cpu, s.mem, s.pc), Grown(cpu, s, code);
    NeverRewritesNext(cpu, target, s, code);
    if n == 0 {
      SmallerTarget(cpu, target, s, k, Live(cpu, s, cache), now);
    } else if NextBlock(cpu, s, cache).Some? {
      BlockKeeps(cpu, target, s, k, now);
      RunInvariant(cpu, s, k);
      WordsGrow(cpu, s, cache, now);
      var (t, after) := NextBlock(cpu, s, cache).value;
      NeverRewritesKeepsLive(cpu, target, t, now, after, n - 1);
      NthOfNext(cpu, s, cache, t, after, n - 1);
    } else {
      NothingAfterEnd(cpu, s, cache, n);
    }
  }

  lemma {:induction false} NothingAfterEnd(cpu: Cpu, s: Arch, cache: Cache, n: nat)
    requires NextBlock(cpu, s, cache) == None && n > 0
    ensures NthBlock(cpu, s, cache, n) == None
  {
    if n > 1 {
      NothingAfterEnd(cpu, s, cache, n - 1);
    } else {
      assert NthBlock(cpu, s, cache, 0) == Some((s, cache));
    }
  }

  /** Such a program is well-behaved under every policy and size. */
  lemma NeverRewritesIsWellBehaved(table: seq<Entry>, s: Arch, size: int)
    requires Decode(table, 0).optype == UNKNOWN && Boundary(s) && Tidy(s.mem)
    requires NeverRewritesCode(SimCpu(table), SimTarget(table), s)
    ensures WellBehaved(table, s, size)
  {
    var cpu, cache := SimCpu(table), EmptyCache(size);
    SimCpuIsLegal(table);
    SimOnlyStores(table);
    forall a: Word ensures a !in Words(cache) {}
    forall n: nat ensures BlockKeepsLive(cpu, SimTarget(table), NthBlock(cpu, s, cache, n)) {
      NeverRewritesKeepsLive(cpu, SimTarget(table), s, {}, cache, n);
    }
  }

  /** No store, at any time, to a word of `code`, and nothing else is executed. */
  ghost predicate StaysOutOf(cpu: Cpu, target: Arch -> Option<Word>, s: Arch, code: set<Word>) {
    forall n: nat :: StaysOutFor(cpu, target, s, code, n)
  }

  ghost predicate StaysOutFor(cpu: Cpu, target: Arch -> Option<Word>, s: Arch, code: set<Word>, n: nat) {
    NoStoreInto(cpu, target, s, n, code) && StaysIn(cpu, s, n, code)
  }

  lemma {:induction false} StaysOutSplit(cpu: Cpu, target: Arch -> Option<Word>, s: Arch, code: set<Word>, k: nat, n: nat)
    requires StaysOutFor(cpu, target, s, code, k + n) && Interpret(cpu, s, k).Done?
    ensures StaysOutFor(cpu, target, Interpret(cpu, s, k).st, code, n)
    decreases k
  {
    if k > 0 && !s.complete {
      StaysOutSplit(cpu, target, Step(cpu, s).st, code, k - 1, n);
    } else if s.complete {
      assert Interpret(cpu, s, k).st == s;
    }
  }

  lemma {:induction false} SmallerTarget(cpu: Cpu, target: Arch -> Option<Word>, s: Arch, n: nat, small: set<Word>, code: set<Word>)
    requires NoStoreInto(cpu, target, s, n, code) && small <= code
    ensures NoStoreInto(cpu, target, s, n, small)
    decreases n
  {
    if n > 0 && !s.complete {
      var r := Step(cpu, s);
      if r.Done? { SmallerTarget(cpu, target, r.st, n - 1, small, code); }
    }
  }

  /** A program that keeps its stores and its code apart never rewrites its code. */
  lemma {:induction false} ApartNeverRewrites(cpu: Cpu, target: Arch -> Option<Word>, s: Arch, code: set<Word>, done: set<Word>, n: nat)
    requires StaysOutOf(cpu, target, s, code) && done <= code
    ensures NeverRewrites(cpu, target, s, done, n)
    decreases n
  {
    if n > 0 && !s.complete {
      var k, now := Ahead(cpu, s.mem, s.pc), Grown(cpu, s, done);
      assert StaysOutFor(cpu, target, s, code, k);
      SmallerTarget(cpu, target, s, k, now, code);
      var r := Interpret(cpu, s, k);
      if r.Done? {
        forall j: nat ensures StaysOutFor(cpu, target, r.st, code, j) {
          assert StaysOutFor(cpu, target, s, code, k + j);
          StaysOutSplit(cpu, target, s, code, k, j);
        }
        ApartNeverRewrites(cpu, target, r.st, code, now, n - 1);
      }
    }
  }
}
