/** Running whole basic blocks out of a cache, against the plain interpreter.

    `run` executes basic blocks, taken from a cache of some policy, until `complete`.  The main results: as
    long as the words that a block executes keep their meaning from then on, this is the plain interpreter,
    whatever the cache.
  */
module BlockRun {
  import opened Bits
  import opened Wrappers
  import opened FlatMemory
  import DecoderTable
  import opened Machine
  import opened BlockCache
  import opened Interpreter
  import opened BasicBlock

  // ----- executing a block is single stepping -----

  function ExecuteBlock(cpu: Cpu, bb: Block, s: Arch): Outcome {
    if bb == [] then Done(s)
    else
      match cpu.exec(bb[0], s)
      case Threw(e, t) => Threw(e, t)
      case Done(t) => ExecuteBlock(cpu, bb[1..], t)
  }

  /** Decoded instructions of which at most the last diverts control. */
  ghost predicate IsStraight(cpu: Cpu, bb: Block) {
    forall i :: 0 <= i < |bb| ==> Decodes(cpu, bb[i]) && (bb[i].isBranch ==> i == |bb| - 1)
  }

  /** Instruction i of a block starts at entry + 4i, with no branch pending and the run not complete; so
      `complete` is raised by the last instruction or not at all.  No condition on stores. */
  lemma {:induction false} InstructionStartsAt(cpu: Cpu, bb: Block, s: Arch, i: nat)
    requires Legal(cpu) && Boundary(s) && !s.complete && IsStraight(cpu, bb) && i < |bb|
    ensures var r := ExecuteBlock(cpu, bb[..i], s);
            r.Done? ==> r.st.pc == Offset(s.pc, i) && Boundary(r.st) && !r.st.complete
    decreases i
  {
    OffsetNext(s.pc, 0);
    if i > 0 {
      var r := cpu.exec(bb[0], s);
      assert ExecOk(bb[0], s, r);
      assert bb[..i][0] == bb[0] && bb[..i][1..] == bb[1..][..i - 1];
      if r.Done? {
        OffsetNext(s.pc, i - 1);
        InstructionStartsAt(cpu, bb[1..], r.st, i - 1);
      }
    }
  }

  /** Two memories that hold the same instruction at an address, or both none. */
  ghost predicate SameWord(cpu: Cpu, m: Flat, n: Flat, a: Word) {
    cpu.decodeAt(m, a) == cpu.decodeAt(n, a) || (cpu.decodeAt(m, a).Failure? && cpu.decodeAt(n, a).Failure?)
  }

  ghost predicate SameCode(cpu: Cpu, m: Flat, n: Flat, code: set<Word>) {
    forall a :: a in code ==> SameWord(cpu, m, n, a)
  }

  lemma SameCodeLater(cpu: Cpu, m: Flat, n: Flat, k: Flat, code: set<Word>)
    requires SameCode(cpu, m, n, code) && SameCode(cpu, n, k, code)
    ensures SameCode(cpu, m, k, code)
  {
    forall a | a in code ensures SameWord(cpu, m, k, a) {
      assert SameWord(cpu, m, n, a) && SameWord(cpu, n, k, a);
    }
  }

  /** For `n` steps every instruction comes from `code`, and `code` keeps its meaning. */
  ghost predicate Clean(cpu: Cpu, s: Arch, n: nat, code: set<Word>)
    decreases n
  {
    n == 0 || s.complete ||
    (s.pc in code &&
     var r := Step(cpu, s);
     r.Done? ==> SameCode(cpu, s.mem, r.st.mem, code) && Clean(cpu, r.st, n - 1, code))
  }

  lemma {:induction false} CleanShorter(cpu: Cpu, s: Arch, n: nat, k: nat, code: set<Word>)
    requires Clean(cpu, s, n, code) && k <= n
    ensures Clean(cpu, s, k, code)
    decreases k
  {
    if k > 0 && !s.complete {
      var r := Step(cpu, s);
      if r.Done? { CleanShorter(cpu, r.st, n - 1, k - 1, code); }
    }
  }

  lemma {:induction false} CleanSmaller(cpu: Cpu, s: Arch, n: nat, code: set<Word>, small: set<Word>)
    requires Clean(cpu, s, n, code) && StaysIn(cpu, s, n, small) && small <= code
    ensures Clean(cpu, s, n, small)
    decreases n
  {
    if n > 0 && !s.complete {
      var r := Step(cpu, s);
      if r.Done? { CleanSmaller(cpu, r.st, n - 1, code, small); }
    }
  }

  ghost predicate Within(a: Word, n: nat, code: set<Word>) {
    forall i: nat :: i < n ==> Offset(a, i) in code
  }

  lemma WithinLonger(a: Word, n: nat, code: set<Word>)
    requires a in code && Within(AddW(a, XLEN_BYTES), n, code)
    ensures Within(a, n + 1, code)
  {
    OffsetNext(a, 0);
    forall i: nat | i < n + 1 ensures Offset(a, i) in code {
      if i > 0 {
        OffsetNext(a, i - 1);
        assert Offset(AddW(a, XLEN_BYTES), i - 1) in code;
      }
    }
  }

  lemma TailOfBlock(cpu: Cpu, m: Flat, a: Word, bb: Block)
    requires IsBlock(cpu, m, a, bb) && |bb| > 1
    ensures !bb[0].isBranch && IsBlock(cpu, m, AddW(a, XLEN_BYTES), bb[1..])
  {
    forall i: nat | i < |bb| - 1
      ensures cpu.decodeAt(m, Offset(AddW(a, XLEN_BYTES), i)) == Success(bb[1..][i])
      ensures bb[1..][i].isBranch <==> i == |bb| - 2
    {
      OffsetNext(a, i);
      assert cpu.decodeAt(m, Offset(a, i + 1)) == Success(bb[i + 1]);
    }
  }

  /** A block built over memory `m` and executed at its own address, while the code keeps its meaning, is
      that many steps of the interpreter: same outcome, same state, exception or not. */
  lemma {:induction false} BlockIsSteps(cpu: Cpu, m: Flat, bb: Block, s: Arch, code: set<Word>)
    requires Legal(cpu) && Boundary(s) && !s.complete && Clean(cpu, s, |bb|, code)
    requires IsBlock(cpu, m, s.pc, bb) && SameCode(cpu, m, s.mem, code)
    ensures ExecuteBlock(cpu, bb, s) == Interpret(cpu, s, |bb|)
    ensures var r := ExecuteBlock(cpu, bb, s);
            Boundary(r.st) && (r.Done? ==> Within(s.pc, |bb|, code) && SameCode(cpu, m, r.st.mem, code))
    decreases |bb|
  {
    OffsetNext(s.pc, 0);
    StepOk(cpu, s);
    assert cpu.decodeAt(m, Offset(s.pc, 0)) == Success(bb[0]);
    var r := Step(cpu, s);
    assert SameWord(cpu, m, s.mem, s.pc);
    assert r == cpu.exec(bb[0], s);
    if r.Done? {
      SameCodeLater(cpu, m, s.mem, r.st.mem, code);
      if |bb| == 1 {
        assert ExecuteBlock(cpu, bb[1..], r.st) == Done(r.st) == Interpret(cpu, r.st, 0);
      } else {
        TailOfBlock(cpu, m, s.pc, bb);
        BlockIsSteps(cpu, m, bb[1..], r.st, code);
        if ExecuteBlock(cpu, bb[1..], r.st).Done? {
          WithinLonger(s.pc, |bb| - 1, code);
        }
      }
    }
  }

  /** Stepping through words that are no branch: the run goes straight on and does not complete. */
  lemma {:induction false} PlainRun(cpu: Cpu, s: Arch, m: Flat, n: nat, code: set<Word>)
    requires Legal(cpu) && Boundary(s) && !s.complete && Clean(cpu, s, n, code) && SameCode(cpu, m, s.mem, code)
    requires forall i: nat :: i < n ==> Plain(cpu, m, Offset(s.pc, i))
    ensures var r := Interpret(cpu, s, n);
            && Boundary(r.st)
            && (r.Done? ==> !r.st.complete && r.st.pc == Offset(s.pc, n)
                            && Within(s.pc, n, code) && SameCode(cpu, m, r.st.mem, code))
    decreases n
  {
    OffsetNext(s.pc, 0);
    if n > 0 {
      StepOk(cpu, s);
      assert Plain(cpu, m, Offset(s.pc, 0)) && SameWord(cpu, m, s.mem, s.pc);
      var r := Step(cpu, s);
      if r.Done? {
        SameCodeLater(cpu, m, s.mem, r.st.mem, code);
        forall i: nat ensures Offset(r.st.pc, i) == Offset(s.pc, i + 1) { OffsetNext(s.pc, i); }
        PlainRun(cpu, r.st, m, n - 1, code);
        if Interpret(cpu, r.st, n - 1).Done? {
          WithinLonger(s.pc, n - 1, code);
        }
      }
    }
  }

  // ----- Hart::run -----

  /** `Ran` after some blocks, `Failed` when a callback or createBB threw, `Stuck` in a createBB that never
      returns. */
  datatype HartResult = Ran(st: Arch, cache: Cache) | Failed(e: Error, st: Arch) | Stuck(st: Arch)

  /** One turn of the loop in `run`. */
  ghost function Turn(cpu: Cpu, s: Arch, cache: Cache): HartResult {
    var built := Build(cpu, s.mem, s.pc);
    if !Hits(cache, s.pc) && built == Endless then Stuck(s)
    else
      var (found, after) := Lookup(cache, s.pc, Answer(built));
      ExecuteFound(cpu, s, found, after)
  }

  /** Execute the block the cache handed out. */
  function ExecuteFound(cpu: Cpu, s: Arch, found: Fetched, after: Cache): HartResult {
    match found
    case Failure(e) => Failed(e, s)
    case Success(bb) =>
      match ExecuteBlock(cpu, bb, s)
      case Threw(e, t) => Failed(e, t)
      case Done(t) => Ran(t, after)
  }

  /** At most `n` turns, stopping when complete. */
  ghost function RunBlocks(cpu: Cpu, s: Arch, cache: Cache, n: nat): HartResult
    decreases n, 0
  {
    if n == 0 || s.complete then Ran(s, cache) else GoOn(cpu, Turn(cpu, s, cache), n - 1)
  }

  /** At most `n` turns more, unless one threw. */
  ghost function GoOn(cpu: Cpu, r: HartResult, n: nat): HartResult
    decreases n, 1
  {
    if r.Ran? then RunBlocks(cpu, r.st, r.cache, n) else r
  }

  // ----- what a cache holds -----

  ghost predicate Cached(cache: Cache, a: Word) {
    exists k: Word, bb: Block, i: nat :: Holds(cache, k, bb) && i < |bb| && Offset(k, i) == a
  }

  /** The addresses of all instructions in the cached blocks. */
  ghost function Words(cache: Cache): set<Word> { set a: Word | Cached(cache, a) }

  lemma CachedWithin(cache: Cache, k: Word, bb: Block)
    requires Holds(cache, k, bb)
    ensures Within(k, |bb|, Words(cache))
  {
    forall i: nat | i < |bb| ensures Offset(k, i) in Words(cache) {
      assert Cached(cache, Offset(k, i));
    }
  }

  /** A lookup adds the words of no block but the one it answers with. */
  lemma WordsAfter(cache: Cache, key: Word, fetched: Fetched, code: set<Word>)
    requires Words(cache) <= code && (fetched.Success? ==> Within(key, |fetched.value|, code))
    ensures Words(Lookup(cache, key, fetched).1) <= code
  {
    LookupAnswers(cache, key, fetched);
    var (r, after) := Lookup(cache, key, fetched);
    forall a | a in Words(after) ensures a in code {
      var k: Word, bb: Block, i: nat :| Holds(after, k, bb) && i < |bb| && Offset(k, i) == a;
      if Holds(cache, k, bb) {
        CachedWithin(cache, k, bb);
      } else {
        assert fetched == Success(bb);
      }
    }
  }

  // ----- when the run keeps its code -----

  /** How many words createBB looks at from `a`, at most once round the address space. */
  ghost function Ahead(cpu: Cpu, m: Flat, a: Word): (k: nat)
    ensures 1 <= k <= WORDS
  {
    var k := FirstStop(cpu, m, a);
    if k < WORDS then k + 1 else k
  }

  /** What must keep its meaning while the block that starts now runs: the words that it executes, and
      those of the blocks in the cache. */
  ghost function Live(cpu: Cpu, s: Arch, cache: Cache): set<Word> {
    set a: Word | Cached(cache, a) || Visits(cpu, s, Ahead(cpu, s.mem, s.pc), a)
  }

  /** The cache after this block has been looked up. */
  ghost function After(cpu: Cpu, s: Arch, cache: Cache): Cache {
    Lookup(cache, s.pc, Answer(Build(cpu, s.mem, s.pc))).1
  }

  /** Where the interpreter's run starts its n-th block, and the cache it would have; none when it has
      completed or thrown before. */
  ghost function NthBlock(cpu: Cpu, s: Arch, cache: Cache, n: nat): Option<(Arch, Cache)> {
    if n == 0 then Some((s, cache))
    else
      match NthBlock(cpu, s, cache, n - 1)
      case None => None
      case Some(at) => NextBlock(cpu, at.0, at.1)
  }

  ghost function NextBlock(cpu: Cpu, s: Arch, cache: Cache): Option<(Arch, Cache)> {
    if s.complete then None
    else
      match Interpret(cpu, s, Ahead(cpu, s.mem, s.pc))
      case Threw(_, _) => None
      case Done(t) => Some((t, After(cpu, s, cache)))
  }

  lemma {:induction false} NthOfNext(cpu: Cpu, s: Arch, cache: Cache, t: Arch, after: Cache, n: nat)
    requires NextBlock(cpu, s, cache) == Some((t, after))
    ensures NthBlock(cpu, t, after, n) == NthBlock(cpu, s, cache, n + 1)
  {
    if n > 0 {
      NthOfNext(cpu, s, cache, t, after, n - 1);
    } else {
      assert NthBlock(cpu, s, cache, 0) == Some((s, cache));
    }
  }

  /** While this block runs the live words keep their meaning. */
  ghost predicate BlockIsClean(cpu: Cpu, at: Option<(Arch, Cache)>) {
    at.Some? && !at.value.0.complete ==>
      Clean(cpu, at.value.0, Ahead(cpu, at.value.0.mem, at.value.0.pc), Live(cpu, at.value.0, at.value.1))
  }

  /** So it is for every block of the interpreter's run, however long.  The less a cache holds, the less this
      asks; without a cache only the running block counts. */
  ghost predicate CleanRun(cpu: Cpu, s: Arch, cache: Cache) {
    forall n: nat :: BlockIsClean(cpu, NthBlock(cpu, s, cache, n))
  }

  lemma CleanNext(cpu: Cpu, s: Arch, cache: Cache)
    requires CleanRun(cpu, s, cache) && !s.complete
    ensures var k := Ahead(cpu, s.mem, s.pc);
            && Clean(cpu, s, k, Live(cpu, s, cache))
            && (var r := Interpret(cpu, s, k); r.Done? ==> CleanRun(cpu, r.st, After(cpu, s, cache)))
  {
    assert BlockIsClean(cpu, NthBlock(cpu, s, cache, 0));
    var r := Interpret(cpu, s, Ahead(cpu, s.mem, s.pc));
    if r.Done? {
      forall n: nat ensures BlockIsClean(cpu, NthBlock(cpu, r.st, After(cpu, s, cache), n)) {
        NthOfNext(cpu, s, cache, r.st, After(cpu, s, cache), n);
        assert BlockIsClean(cpu, NthBlock(cpu, s, cache, n + 1));
      }
    }
  }

  lemma AheadOfBlock(cpu: Cpu, m: Flat, a: Word, bb: Block)
    requires IsBlock(cpu, m, a, bb)
    ensures Build(cpu, m, a) == Block(bb) && Ahead(cpu, m, a) == |bb|
  {
    BuildIsBlock(cpu, m, a, bb);
    BuildStops(cpu, m, a);
  }

  /** The block that can be built lies in the words that the run executes, so after the lookup the cache holds
      no other words. */
  lemma WordsGrow(cpu: Cpu, s: Arch, cache: Cache, code: set<Word>)
    requires Legal(cpu) && Boundary(s) && !s.complete && Words(cache) <= code
    requires Clean(cpu, s, Ahead(cpu, s.mem, s.pc), code) && Interpret(cpu, s, Ahead(cpu, s.mem, s.pc)).Done?
    ensures Words(After(cpu, s, cache)) <= code
  {
    var built := Build(cpu, s.mem, s.pc);
    BuildStops(cpu, s.mem, s.pc);
    if built.Block? {
      AheadOfBlock(cpu, s.mem, s.pc, built.bb);
      BlockIsSteps(cpu, s.mem, built.bb, s, code);
    }
    WordsAfter(cache, s.pc, Answer(built), code);
  }

  // ----- coherent caches -----

  /** Every cached block is the one that would be built now. */
  ghost predicate Coherent(cpu: Cpu, m: Flat, cache: Cache) {
    forall k, bb :: Holds(cache, k, bb) ==> IsBlock(cpu, m, k, bb)
  }

  lemma SameCodeBlock(cpu: Cpu, m: Flat, n: Flat, a: Word, bb: Block, code: set<Word>)
    requires SameCode(cpu, m, n, code) && Within(a, |bb|, code) && IsBlock(cpu, m, a, bb)
    ensures IsBlock(cpu, n, a, bb)
  {
    forall i: nat | i < |bb| ensures cpu.decodeAt(n, Offset(a, i)) == Success(bb[i]) {
      assert Offset(a, i) in code;
    }
  }

  lemma CoherentLater(cpu: Cpu, m: Flat, n: Flat, cache: Cache, code: set<Word>)
    requires Coherent(cpu, m, cache) && SameCode(cpu, m, n, code) && Words(cache) <= code
    ensures Coherent(cpu, n, cache)
  {
    forall k, bb | Holds(cache, k, bb) ensures IsBlock(cpu, n, k, bb) {
      CachedWithin(cache, k, bb);
      SameCodeBlock(cpu, m, n, k, bb, code);
    }
  }

  /** A coherent cache holds no block where none can be built. */
  lemma NoHitWithoutBlock(cpu: Cpu, s: Arch, cache: Cache)
    requires Coherent(cpu, s.mem, cache)
    ensures Hits(cache, s.pc) ==> Build(cpu, s.mem, s.pc).Block?
  {
    LookupAnswers(cache, s.pc, Failure(NotImplemented));
    if Hits(cache, s.pc) {
      var found := Lookup(cache, s.pc, Failure(NotImplemented)).0;
      BuildIsBlock(cpu, s.mem, s.pc, found.value);
    }
  }

  /** A coherent cache of any policy hands out the block that would be built, if there is one. */
  lemma TurnUsesBlock(cpu: Cpu, s: Arch, cache: Cache, bb: Block)
    requires Coherent(cpu, s.mem, cache) && IsBlock(cpu, s.mem, s.pc, bb)
    ensures var after := Lookup(cache, s.pc, Success(bb)).1;
            && Turn(cpu, s, cache) == ExecuteFound(cpu, s, Success(bb), after)
            && After(cpu, s, cache) == after && Coherent(cpu, s.mem, after)
  {
    BuildIsBlock(cpu, s.mem, s.pc, bb);
    LookupAnswers(cache, s.pc, Success(bb));
    var found := Lookup(cache, s.pc, Success(bb)).0;
    if Hits(cache, s.pc) {
      BlockUnique(cpu, s.mem, s.pc, found.value, bb);
    }
  }

  /** Where no block can be built, every coherent cache shows it. */
  lemma TurnWithoutBlock(cpu: Cpu, s: Arch, cache: Cache)
    requires Coherent(cpu, s.mem, cache)
    ensures match Build(cpu, s.mem, s.pc)
            case Block(_) => true
            case Fault(e) => Turn(cpu, s, cache) == Failed(e, s)
            case Endless => Turn(cpu, s, cache) == Stuck(s)
  {
    NoHitWithoutBlock(cpu, s, cache);
    LookupAnswers(cache, s.pc, Answer(Build(cpu, s.mem, s.pc)));
  }

  /** What holds between the turns of a clean run. */
  ghost predicate Steady(cpu: Cpu, s: Arch, cache: Cache) {
    Boundary(s) && CleanRun(cpu, s, cache) && Coherent(cpu, s.mem, cache)
  }

  /** One turn of a clean run does the block's steps. */
  lemma TurnIsSteps(cpu: Cpu, s: Arch, cache: Cache, bb: Block)
    requires Legal(cpu) && Steady(cpu, s, cache) && !s.complete && IsBlock(cpu, s.mem, s.pc, bb)
    ensures var r := Interpret(cpu, s, |bb|);
            && Boundary(r.st)
            && Turn(cpu, s, cache) ==
               match r case Threw(e, t) => Failed(e, t) case Done(t) => Ran(t, Lookup(cache, s.pc, Success(bb)).1)
  {
    AheadOfBlock(cpu, s.mem, s.pc, bb);
    CleanNext(cpu, s, cache);
    TurnUsesBlock(cpu, s, cache, bb);
    BlockIsSteps(cpu, s.mem, bb, s, Live(cpu, s, cache));
  }

  /** And it leaves a cache whose blocks are still those that createBB would build. */
  lemma RunTurn(cpu: Cpu, s: Arch, cache: Cache, bb: Block) returns (t: Arch, after: Cache)
    requires Legal(cpu) && Steady(cpu, s, cache) && !s.complete && IsBlock(cpu, s.mem, s.pc, bb)
    requires Interpret(cpu, s, |bb|).Done?
    ensures Interpret(cpu, s, |bb|) == Done(t) && Turn(cpu, s, cache) == Ran(t, after)
    ensures Steady(cpu, t, after)
  {
    var now := Live(cpu, s, cache);
    AheadOfBlock(cpu, s.mem, s.pc, bb);
    CleanNext(cpu, s, cache);
    TurnIsSteps(cpu, s, cache, bb);
    BlockIsSteps(cpu, s.mem, bb, s, now);
    TurnUsesBlock(cpu, s, cache, bb);
    WordsAfter(cache, s.pc, Success(bb), now);
    t, after := Interpret(cpu, s, |bb|).st, Lookup(cache, s.pc, Success(bb)).1;
    CoherentLater(cpu, s.mem, t.mem, after, now);
  }

  lemma RunBlocksStep(cpu: Cpu, s: Arch, cache: Cache, t: Arch, after: Cache, turns: nat)
    requires !s.complete && Turn(cpu, s, cache) == Ran(t, after)
    ensures RunBlocks(cpu, s, cache, turns + 1) == RunBlocks(cpu, t, after, turns)
  {}

  /** A turn that ends well has run the block that can be built. */
  lemma BlockOfTurn(cpu: Cpu, s: Arch, cache: Cache) returns (bb: Block)
    requires Coherent(cpu, s.mem, cache) && Turn(cpu, s, cache).Ran?
    ensures IsBlock(cpu, s.mem, s.pc, bb)
  {
    BuildStops(cpu, s.mem, s.pc);
    TurnWithoutBlock(cpu, s, cache);
    bb := Build(cpu, s.mem, s.pc).bb;
  }

  // ----- runs that complete -----

  /** The interpreter reaches the complete state t in n steps. */
  ghost predicate CompletesIn(cpu: Cpu, s: Arch, n: nat) {
    Interpret(cpu, s, n).Done? && Interpret(cpu, s, n).st.complete
  }

  /** A run that completes does not throw on the way, nor afterwards. */
  lemma CompleteNeverThrows(cpu: Cpu, s: Arch, n: nat, k: nat)
    requires CompletesIn(cpu, s, n)
    ensures Interpret(cpu, s, k).Done?
    ensures k <= n ==> Interpret(cpu, Interpret(cpu, s, k).st, n - k) == Interpret(cpu, s, n)
  {
    if k <= n {
      InterpretSplit(cpu, s, k, n - k);
    } else {
      InterpretSplit(cpu, s, n, k - n);
    }
  }

  /** Where createBB meets a word that it cannot decode, stepping throws: at that word, or earlier. */
  lemma {:induction false} StraightRunThrows(cpu: Cpu, s: Arch, m: Flat, k: nat, code: set<Word>)
    requires Legal(cpu) && Boundary(s) && !s.complete && Clean(cpu, s, k + 1, code)
    requires SameCode(cpu, m, s.mem, code) && FailsAt(cpu, m, s.pc, k)
    ensures Interpret(cpu, s, k + 1).Threw?
    decreases k
  {
    OffsetNext(s.pc, 0);
    StepOk(cpu, s);
    assert SameWord(cpu, m, s.mem, s.pc);
    if k > 0 {
      assert Plain(cpu, m, Offset(s.pc, 0));
      var r := Step(cpu, s);
      if r.Done? {
        SameCodeLater(cpu, m, s.mem, r.st.mem, code);
        forall j: nat ensures Offset(r.st.pc, j) == Offset(s.pc, j + 1) { OffsetNext(s.pc, j); }
        StraightRunThrows(cpu, r.st, m, k - 1, code);
      }
    }
  }

  lemma LookAheadThrows(cpu: Cpu, s: Arch, cache: Cache) returns (n: nat)
    requires Legal(cpu) && Boundary(s) && !s.complete && CleanRun(cpu, s, cache)
    requires Build(cpu, s.mem, s.pc).Fault?
    ensures Interpret(cpu, s, n).Threw?
  {
    BuildStops(cpu, s.mem, s.pc);
    CleanNext(cpu, s, cache);
    n := Ahead(cpu, s.mem, s.pc);
    StraightRunThrows(cpu, s, s.mem, n - 1, Live(cpu, s, cache));
  }

  lemma SameRound(cpu: Cpu, m: Flat, n: Flat, a: Word, code: set<Word>)
    requires forall i: nat :: i < WORDS ==> Plain(cpu, m, Offset(a, i))
    requires SameCode(cpu, m, n, code) && Within(a, WORDS, code)
    ensures forall i: nat :: i < WORDS ==> Plain(cpu, n, Offset(a, i))
  {
    forall i: nat | i < WORDS ensures Plain(cpu, n, Offset(a, i)) {
      assert Offset(a, i) in code && Plain(cpu, m, Offset(a, i));
    }
  }

  lemma EndlessIsPlain(cpu: Cpu, m: Flat, a: Word)
    requires Build(cpu, m, a) == Endless
    ensures Ahead(cpu, m, a) == WORDS && forall i: nat :: i < WORDS ==> Plain(cpu, m, Offset(a, i))
  {
    BuildStops(cpu, m, a);
  }

  /** Stepping once round the address space, or less far, where createBB never returns. */
  lemma EndlessSteps(cpu: Cpu, s: Arch, k: nat, cache: Cache)
    requires Legal(cpu) && Boundary(s) && !s.complete && CleanRun(cpu, s, cache)
    requires Build(cpu, s.mem, s.pc) == Endless && k <= WORDS
    ensures var r := Interpret(cpu, s, k);
            r.Done? ==> !r.st.complete && Boundary(r.st) && r.st.pc == Offset(s.pc, k)
                        && Within(s.pc, k, Live(cpu, s, cache)) && SameCode(cpu, s.mem, r.st.mem, Live(cpu, s, cache))
  {
    EndlessIsPlain(cpu, s.mem, s.pc);
    CleanNext(cpu, s, cache);
    CleanShorter(cpu, s, WORDS, k, Live(cpu, s, cache));
    PlainRun(cpu, s, s.mem, k, Live(cpu, s, cache));
  }

  /** After a whole round createBB would still never return. */
  lemma EndlessAgain(cpu: Cpu, s: Arch, n: nat, cache: Cache) returns (t: Arch)
    requires Legal(cpu) && Boundary(s) && !s.complete && CleanRun(cpu, s, cache)
    requires Build(cpu, s.mem, s.pc) == Endless && CompletesIn(cpu, s, n) && n > WORDS
    ensures Boundary(t) && !t.complete && CleanRun(cpu, t, After(cpu, s, cache)) && Build(cpu, t.mem, t.pc) == Endless
    ensures CompletesIn(cpu, t, n - WORDS)
  {
    CompleteNeverThrows(cpu, s, n, WORDS);
    t := Interpret(cpu, s, WORDS).st;
    EndlessSteps(cpu, s, WORDS, cache);
    EndlessIsPlain(cpu, s.mem, s.pc);
    CleanNext(cpu, s, cache);
    OffsetWraps(s.pc, WORDS);
    OffsetNext(s.pc, 0);
    SameRound(cpu, s.mem, t.mem, s.pc, Live(cpu, s, cache));
    EndlessRun(cpu, t.mem, s.pc);
  }

  /** Where createBB never returns, stepping never completes. */
  lemma {:induction false} EndlessNeverCompletes(cpu: Cpu, s: Arch, n: nat, cache: Cache)
    requires Legal(cpu) && Boundary(s) && !s.complete && CleanRun(cpu, s, cache)
    requires Build(cpu, s.mem, s.pc) == Endless
    ensures !CompletesIn(cpu, s, n)
    decreases n
  {
    if n <= WORDS {
      EndlessSteps(cpu, s, n, cache);
    } else if CompletesIn(cpu, s, n) {
      var t := EndlessAgain(cpu, s, n, cache);
      EndlessNeverCompletes(cpu, t, n - WORDS, After(cpu, s, cache));
    }
  }

  /** The first basic block of a run that completes can be built, and the run executes all of it. */
  lemma BlockOfRun(cpu: Cpu, s: Arch, n: nat, cache: Cache) returns (bb: Block)
    requires Legal(cpu) && Boundary(s) && !s.complete && CleanRun(cpu, s, cache) && CompletesIn(cpu, s, n)
    ensures IsBlock(cpu, s.mem, s.pc, bb) && |bb| <= n
  {
    BuildStops(cpu, s.mem, s.pc);
    var built := Build(cpu, s.mem, s.pc);
    if built.Endless? {
      EndlessNeverCompletes(cpu, s, n, cache);
    } else if built.Fault? {
      var k := LookAheadThrows(cpu, s, cache);
      CompleteNeverThrows(cpu, s, n, k);
    } else {
      bb := built.bb;
      if n < |bb| {
        CleanNext(cpu, s, cache);
        CleanShorter(cpu, s, |bb|, n, Live(cpu, s, cache));
        PlainRun(cpu, s, s.mem, n, Live(cpu, s, cache));
      }
    }
  }

  /** The first turn of a run that completes: fewer steps remain, and they complete alike. */
  lemma FirstTurn(cpu: Cpu, s: Arch, cache: Cache, n: nat)
    returns (t: Arch, after: Cache, left: nat)
    requires Legal(cpu) && Steady(cpu, s, cache) && !s.complete && CompletesIn(cpu, s, n)
    ensures Turn(cpu, s, cache) == Ran(t, after) && Steady(cpu, t, after)
    ensures left < n && Interpret(cpu, t, left) == Interpret(cpu, s, n)
  {
    var bb := BlockOfRun(cpu, s, n, cache);
    left := n - |bb|;
    CompleteNeverThrows(cpu, s, n, |bb|);
    t, after := RunTurn(cpu, s, cache, bb);
  }

  /** Single stepping to blocks, from any coherent cache. */
  lemma {:induction false} InterpreterToBlocks(cpu: Cpu, s: Arch, cache: Cache, n: nat)
    returns (turns: nat)
    requires Legal(cpu) && Steady(cpu, s, cache) && CompletesIn(cpu, s, n)
    ensures turns <= n && RanTo(RunBlocks(cpu, s, cache, turns), Interpret(cpu, s, n).st)
    decreases n
  {
    if s.complete { return 0; }
    var t, after, left := FirstTurn(cpu, s, cache, n);
    var k := InterpreterToBlocks(cpu, t, after, left);
    RunBlocksStep(cpu, s, cache, t, after, k);
    turns := k + 1;
  }

  lemma InterpretAfter(cpu: Cpu, s: Arch, k: nat, t: Arch, l: nat) returns (n: nat)
    requires Interpret(cpu, s, k) == Done(t)
    ensures Interpret(cpu, s, n) == Interpret(cpu, t, l)
  {
    n := k + l;
    InterpretSplit(cpu, s, k, l);
  }

  /** Blocks to single stepping: the converse, after every turn. */
  lemma {:induction false} BlocksToInterpreter(cpu: Cpu, s: Arch, cache: Cache, turns: nat)
    returns (n: nat)
    requires Legal(cpu) && Steady(cpu, s, cache) && RunBlocks(cpu, s, cache, turns).Ran?
    ensures Interpret(cpu, s, n) == Done(RunBlocks(cpu, s, cache, turns).st)
    decreases turns
  {
    if turns == 0 || s.complete { return 0; }
    var bb, t, after := GoodTurn(cpu, s, cache);
    RunBlocksStep(cpu, s, cache, t, after, turns - 1);
    var k := BlocksToInterpreter(cpu, t, after, turns - 1);
    n := InterpretAfter(cpu, s, |bb|, t, k);
  }

  /** A turn that ends well: its block, and what follows. */
  lemma GoodTurn(cpu: Cpu, s: Arch, cache: Cache) returns (bb: Block, t: Arch, after: Cache)
    requires Legal(cpu) && Steady(cpu, s, cache) && !s.complete && Turn(cpu, s, cache).Ran?
    ensures |bb| >= 1 && Interpret(cpu, s, |bb|) == Done(t) && Turn(cpu, s, cache) == Ran(t, after)
    ensures Steady(cpu, t, after)
  {
    bb := BlockOfTurn(cpu, s, cache);
    TurnIsSteps(cpu, s, cache, bb);
    t, after := RunTurn(cpu, s, cache, bb);
  }

  /** The interpreter reaches the complete state t. */
  ghost predicate Completes(cpu: Cpu, s: Arch, t: Arch) {
    t.complete && exists n: nat :: Interpret(cpu, s, n) == Done(t)
  }

  ghost predicate RanTo(r: HartResult, t: Arch) { r.Ran? && r.st == t }

  /** `run` reaches it. */
  ghost predicate RunCompletes(cpu: Cpu, s: Arch, cache: Cache, t: Arch) {
    t.complete && exists turns: nat :: RanTo(RunBlocks(cpu, s, cache, turns), t)
  }

  /** As long as the words a block has executed keep their meaning, `run` completes in a state exactly when
      single stepping does: pc, registers, CSRs, memory, event log and instruction count. */
  lemma RunIsInterpreter(cpu: Cpu, s: Arch, cache: Cache, t: Arch)
    requires Legal(cpu) && Steady(cpu, s, cache)
    ensures RunCompletes(cpu, s, cache, t) <==> Completes(cpu, s, t)
  {
    if Completes(cpu, s, t) {
      var n: nat :| Interpret(cpu, s, n) == Done(t);
      var turns := InterpreterToBlocks(cpu, s, cache, n);
      assert RanTo(RunBlocks(cpu, s, cache, turns), t);
    }
    if RunCompletes(cpu, s, cache, t) {
      var turns: nat :| RanTo(RunBlocks(cpu, s, cache, turns), t);
      var n := BlocksToInterpreter(cpu, s, cache, turns);
    }
  }

  // ----- exceptions -----

  /** How a block run that throws in state t relates to the interpreter: a callback throws there, or the
      interpreter is there too, and createBB throws decoding ahead from it. */
  ghost predicate ThrowsAlike(cpu: Cpu, o: Outcome, e: Error, t: Arch) {
    o == Threw(e, t) || (o == Done(t) && Build(cpu, t.mem, t.pc) == Fault(e))
  }

  /** When running blocks throws, the interpreter throws the same error in the same state, or it reaches the
      same state, where createBB throws decoding ahead; then it throws as well, perhaps later. */
  lemma {:induction false} BlocksThrow(cpu: Cpu, s: Arch, cache: Cache, turns: nat)
    returns (n: nat, later: nat)
    requires Legal(cpu) && Steady(cpu, s, cache) && RunBlocks(cpu, s, cache, turns).Failed?
    ensures var f := RunBlocks(cpu, s, cache, turns); ThrowsAlike(cpu, Interpret(cpu, s, n), f.e, f.st)
    ensures Interpret(cpu, s, later).Threw?
    decreases turns
  {
    if Turn(cpu, s, cache).Ran? {
      var bb, t, after := GoodTurn(cpu, s, cache);
      RunBlocksStep(cpu, s, cache, t, after, turns - 1);
      var k, l := BlocksThrow(cpu, t, after, turns - 1);
      n := InterpretAfter(cpu, s, |bb|, t, k);
      later := InterpretAfter(cpu, s, |bb|, t, l);
    } else {
      n, later := TurnThrows(cpu, s, cache);
    }
  }

  lemma TurnThrows(cpu: Cpu, s: Arch, cache: Cache) returns (n: nat, later: nat)
    requires Legal(cpu) && Steady(cpu, s, cache) && !s.complete && Turn(cpu, s, cache).Failed?
    ensures var f := Turn(cpu, s, cache); ThrowsAlike(cpu, Interpret(cpu, s, n), f.e, f.st)
    ensures Interpret(cpu, s, later).Threw?
  {
    TurnWithoutBlock(cpu, s, cache);
    var built := Build(cpu, s.mem, s.pc);
    if built.Block? {
      BuildStops(cpu, s.mem, s.pc);
      TurnIsSteps(cpu, s, cache, built.bb);
      n, later := |built.bb|, |built.bb|;
    } else {
      n := 0;
      later := LookAheadThrows(cpu, s, cache);
    }
  }

  lemma ThrowsLater(cpu: Cpu, s: Arch, k: nat, n: nat)
    requires Interpret(cpu, s, k).Done? && Interpret(cpu, s, n).Threw?
    ensures k < n && Interpret(cpu, Interpret(cpu, s, k).st, n - k) == Interpret(cpu, s, n)
  {
    if k < n {
      InterpretSplit(cpu, s, k, n - k);
    } else {
      InterpretSplit(cpu, s, n, k - n);
    }
  }

  lemma TurnBeforeThrow(cpu: Cpu, s: Arch, cache: Cache, n: nat)
    returns (t: Arch, after: Cache, left: nat)
    requires Legal(cpu) && Steady(cpu, s, cache) && !s.complete
    requires Interpret(cpu, s, n).Threw? && Turn(cpu, s, cache).Ran?
    ensures Turn(cpu, s, cache) == Ran(t, after) && Steady(cpu, t, after)
    ensures left < n && Interpret(cpu, t, left) == Interpret(cpu, s, n)
  {
    var bb: Block;
    bb, t, after := GoodTurn(cpu, s, cache);
    ThrowsLater(cpu, s, |bb|, n);
    left := n - |bb|;
  }

  /** When stepping throws, running blocks does not complete: it throws too, or createBB, looking past the
      instruction that throws, never returns. */
  lemma {:induction false} InterpreterThrows(cpu: Cpu, s: Arch, cache: Cache, n: nat)
    returns (turns: nat)
    requires Legal(cpu) && Steady(cpu, s, cache) && Interpret(cpu, s, n).Threw?
    ensures turns <= n && !RunBlocks(cpu, s, cache, turns).Ran?
    decreases n
  {
    if !Turn(cpu, s, cache).Ran? { return 1; }
    var t, after, left := TurnBeforeThrow(cpu, s, cache, n);
    var k := InterpreterThrows(cpu, t, after, left);
    RunBlocksStep(cpu, s, cache, t, after, k);
    turns := k + 1;
  }

  // ----- every run, whatever it stores -----

  /** A cache that holds decoded straight code, perhaps no longer what is in memory. */
  ghost predicate HoldsStraight(cpu: Cpu, cache: Cache) {
    forall k, bb :: Holds(cache, k, bb) ==> IsStraight(cpu, bb)
  }

  lemma BlockIsStraight(cpu: Cpu, m: Flat, a: Word, bb: Block)
    requires IsBlock(cpu, m, a, bb)
    ensures IsStraight(cpu, bb)
  {
    forall i: nat | i < |bb| ensures Decodes(cpu, bb[i]) {
      assert cpu.decodeAt(m, Offset(a, i)) == Success(bb[i]);
    }
  }

  /** How many instructions of a block finish. */
  function Finished(cpu: Cpu, bb: Block, s: Arch): nat {
    if bb == [] then 0
    else
      match cpu.exec(bb[0], s)
      case Threw(_, _) => 0
      case Done(t) => 1 + Finished(cpu, bb[1..], t)
  }

  lemma {:induction false} ExecuteBlockSafely(cpu: Cpu, bb: Block, s: Arch)
    requires Legal(cpu) && Boundary(s) && IsStraight(cpu, bb)
    ensures var r := ExecuteBlock(cpu, bb, s);
            && Boundary(r.st) && NoRangeError(r)
            && r.st.instrCount == (s.instrCount + Finished(cpu, bb, s)) % COUNTER_LIMIT
    decreases |bb|
  {
    if bb != [] {
      var r := cpu.exec(bb[0], s);
      assert ExecOk(bb[0], s, r);
      if r.Done? {
        ExecuteBlockSafely(cpu, bb[1..], r.st);
        AddMod(s.instrCount, 1, Finished(cpu, bb[1..], r.st));
      }
    }
  }

  /** The block that a turn executes, if it gets one. */
  ghost function FoundBlock(cpu: Cpu, s: Arch, cache: Cache): Fetched {
    Lookup(cache, s.pc, Answer(Build(cpu, s.mem, s.pc))).0
  }

  ghost function FinishedInTurn(cpu: Cpu, s: Arch, cache: Cache): nat {
    var found := FoundBlock(cpu, s, cache);
    if found.Success? then Finished(cpu, found.value, s) else 0
  }

  /** How many instructions finish in at most `n` turns. */
  ghost function FinishedInRun(cpu: Cpu, s: Arch, cache: Cache, n: nat): nat
    decreases n, 0
  {
    if n == 0 || s.complete then 0 else FinishedInTurn(cpu, s, cache) + FinishedLater(cpu, Turn(cpu, s, cache), n - 1)
  }

  ghost function FinishedLater(cpu: Cpu, r: HartResult, n: nat): nat
    decreases n, 1
  {
    if r.Ran? then FinishedInRun(cpu, r.st, r.cache, n) else 0
  }

  lemma FoundIsStraight(cpu: Cpu, s: Arch, cache: Cache)
    requires Legal(cpu) && HoldsStraight(cpu, cache)
    ensures var found := FoundBlock(cpu, s, cache);
            if found.Success? then IsStraight(cpu, found.value) else found.error != OutOfRange
    ensures HoldsStraight(cpu, After(cpu, s, cache))
  {
    var built := Build(cpu, s.mem, s.pc);
    BuildStops(cpu, s.mem, s.pc);
    if built.Block? { BlockIsStraight(cpu, s.mem, s.pc, built.bb); }
    LookupAnswers(cache, s.pc, Answer(built));
  }

  lemma TurnSafely(cpu: Cpu, s: Arch, cache: Cache)
    requires Legal(cpu) && Boundary(s) && HoldsStraight(cpu, cache)
    ensures var r := Turn(cpu, s, cache);
            && Boundary(r.st) && (r.Failed? ==> r.e != OutOfRange) && (r.Ran? ==> HoldsStraight(cpu, r.cache))
            && (!r.Stuck? ==> r.st.instrCount == (s.instrCount + FinishedInTurn(cpu, s, cache)) % COUNTER_LIMIT)
            && (r.Stuck? ==> FinishedInTurn(cpu, s, cache) == 0)
  {
    FoundIsStraight(cpu, s, cache);
    LookupAnswers(cache, s.pc, Answer(Build(cpu, s.mem, s.pc)));
    var found := FoundBlock(cpu, s, cache);
    if found.Success? { ExecuteBlockSafely(cpu, found.value, s); }
  }

  /** `run` itself, on any program, self-modifying or not, after any number of turns: no branch is pending, x0
      reads zero, no register index was out of range, and the counter has advanced by the number of
      instructions that finished. */
  lemma {:induction false} RunStaysSafe(cpu: Cpu, s: Arch, cache: Cache, n: nat)
    requires Legal(cpu) && Boundary(s) && HoldsStraight(cpu, cache)
    ensures var r := RunBlocks(cpu, s, cache, n);
            && Boundary(r.st) && (r.Failed? ==> r.e != OutOfRange) && (r.Ran? ==> HoldsStraight(cpu, r.cache))
            && r.st.instrCount == (s.instrCount + FinishedInRun(cpu, s, cache, n)) % COUNTER_LIMIT
    decreases n
  {
    if n > 0 && !s.complete {
      TurnSafely(cpu, s, cache);
      var r := Turn(cpu, s, cache);
      if r.Ran? {
        RunStaysSafe(cpu, r.st, r.cache, n - 1);
        AddMod(s.instrCount, FinishedInTurn(cpu, s, cache), FinishedInRun(cpu, r.st, r.cache, n - 1));
      }
    }
  }

  /** The simulator, for every table, start state and cache the constructor can create. */
  lemma SimRunStaysSafe(table: seq<DecoderTable.Entry>, s: Arch, size: int, n: nat)
    requires Boundary(s)
    ensures var r := RunBlocks(SimCpu(table), s, EmptyCache(size), n);
            && Boundary(r.st) && (r.Failed? ==> r.e != OutOfRange)
            && r.st.instrCount == (s.instrCount + FinishedInRun(SimCpu(table), s, EmptyCache(size), n)) % COUNTER_LIMIT
  {
    SimCpuIsLegal(table);
    RunStaysSafe(SimCpu(table), s, EmptyCache(size), n);
  }

  // ----- any two caches -----

  /** The caches the constructor can create: infinite, none, or LRU of a positive size; all empty. */
  function EmptyCache(size: int): Cache {
    if size < 0 then Inf(map[]) else if size == 0 then No else Lru(size, [])
  }

  lemma EmptyIsCoherent(cpu: Cpu, m: Flat, size: int)
    ensures Coherent(cpu, m, EmptyCache(size))
  {}

  /** The same outcome up to the cache. */
  ghost predicate Agree(r1: HartResult, r2: HartResult) { if r1.Ran? then RanTo(r2, r1.st) else r2 == r1 }

  /** Policy and size do not matter, turn by turn: whatever coherent caches two runs start from, after the
      same number of turns they are in the same state, with the same event log and instruction count, or
      have thrown the same error, or are stuck in the same endless createBB. */
  lemma {:induction false} PolicyIndependence(cpu: Cpu, s: Arch, c1: Cache, c2: Cache, turns: nat)
    requires Legal(cpu) && Steady(cpu, s, c1) && Steady(cpu, s, c2)
    ensures Agree(RunBlocks(cpu, s, c1, turns), RunBlocks(cpu, s, c2, turns))
    decreases turns
  {
    if turns > 0 && !s.complete {
      BuildStops(cpu, s.mem, s.pc);
      TurnWithoutBlock(cpu, s, c1);
      TurnWithoutBlock(cpu, s, c2);
      var built := Build(cpu, s.mem, s.pc);
      if built.Block? {
        TurnIsSteps(cpu, s, c1, built.bb);
        TurnIsSteps(cpu, s, c2, built.bb);
        if Interpret(cpu, s, |built.bb|).Done? {
          var t, a1 := RunTurn(cpu, s, c1, built.bb);
          var u, a2 := RunTurn(cpu, s, c2, built.bb);
          RunBlocksStep(cpu, s, c1, t, a1, turns - 1);
          RunBlocksStep(cpu, s, c2, u, a2, turns - 1);
          PolicyIndependence(cpu, t, a1, a2, turns - 1);
        }
      }
    }
  }
}
