/** src/hart/hart.cc: the simulated hart, from its constructor to the end of `run`. */
module Hart {
  import opened Bits
  import opened Wrappers
  import opened FlatMemory
  import opened PagedMemory
  import opened DecoderTable
  import opened Machine
  import opened BlockCache
  import opened Interpreter
  import opened BasicBlock
  import opened BlockRun
  import opened State
  import opened Executor
  import opened Caches
  import opened Loader
  import opened SelfModification

  /** The result of a turn or of a run, seen in the objects. */
  ghost predicate Reports(r: HartResult, e: Option<Error>, st: Arch, cache: Cache) {
    match r
    case Ran(st', cache') => e == None && st == st' && cache == cache'
    case Failed(error, st') => e == Some(error) && st == st'
    case Stuck(_) => false
  }

  class Hart {
    const state: State
    const exec: Executor
    const source: BlockSource
    const bbc: BBCache

    ghost predicate Valid()
      reads this, state, state.mem, state.mem.Repr, bbc.Repr(), if bbc.LruBBC? then {bbc.lru} else {}
    {
      && state.Valid() && source.mem == state.mem && source.Ready() && ExecWired(source.cpu)
      && bbc.Valid() && bbc.Repr() !! state.Repr()
      && exec !in state.Repr() && exec !in bbc.Repr()
    }

    ghost function View(): Arch
      requires state.Valid()
      reads this, exec, state, state.regs.regs, state.csregs.regs, state.mem, state.mem.Repr
    {
      state.View(exec.instrCount)
    }

    /** The hart over a loaded memory; a negative cache size means unbounded, zero means none. */
    constructor (mem: Memory, table: seq<Entry>, entry: Word, bbCacheSize: int)
      requires mem.Valid() && mem.isProgramStored
      ensures Valid() && state.mem == mem && View() == Initial(entry, mem.model.flat)
      ensures bbc.View() == EmptyCache(bbCacheSize) && source.cpu == SimCpu(table)
      ensures fresh(exec) && fresh(state.Repr() - {mem} - mem.Repr) && fresh(bbc.Repr())
    {
      var st := new State(mem, entry);
      state := st;
      exec := new Executor();
      source := new BlockSource(mem, table);
      var cache := NewCache(bbCacheSize);
      bbc := cache;
    }

    /** `bbc_->lookupUpdate(getPC(), lCreateBB)`. */
    method FindBlock(ghost answer: Fetched) returns (found: Fetched)
      requires Valid() && answer == source.Answer(state.pc)
      requires Hits(bbc.View(), state.pc) || source.Built(state.pc) != Endless
      modifies state.mem, state.mem.Repr, bbc.Repr()
      ensures Valid() && fresh(bbc.Repr() - old(bbc.Repr())) && state.mem.Repr == old(state.mem.Repr)
      ensures View() == old(View())
      ensures (found, bbc.View()) == Lookup(old(bbc.View()), state.pc, answer)
    {
      ghost var before, cached := state.Repr(), bbc.Repr();
      assert cached !! before;
      found := bbc.LookupUpdate(state.pc, source);
      assert state.Repr() == before;
      OldIsNotFresh(before);
      StillApart(bbc.Repr(), cached, before);
    }

    method ExecuteFound(found: Fetched) returns (e: Option<Error>)
      requires Valid()
      modifies exec, state.Repr()
      ensures Valid() && fresh(state.mem.Repr - old(state.mem.Repr)) && bbc.View() == old(bbc.View())
      ensures Reports(BlockRun.ExecuteFound(source.cpu, old(View()), found, bbc.View()), e, View(), bbc.View())
    {
      if found.Failure? {
        return Some(found.error);
      }
      e := exec.ExecuteBlock(found.value, state, source.cpu);
    }

    /** One turn of the loop: a block from the cache, executed to its end. */
    method OneTurn() returns (e: Option<Error>)
      requires Valid() && !Turn(source.cpu, View(), bbc.View()).Stuck?
      modifies exec, state.Repr(), bbc.Repr()
      ensures Valid() && fresh(state.mem.Repr - old(state.mem.Repr)) && fresh(bbc.Repr() - old(bbc.Repr()))
      ensures Reports(Turn(source.cpu, old(View()), old(bbc.View())), e, View(), bbc.View())
    {
      ghost var answer := source.Answer(state.pc);
      TurnLooksUp(source.cpu, View(), bbc.View(), answer);
      var found := FindBlock(answer);
      e := ExecuteFound(found);
    }

    /** `run`: turns until `complete`, or until one throws.  It is called only where that happens, within
        some number of turns. */
    method Run(ghost turns: nat) returns (e: Option<Error>)
      requires Valid() && Ends(RunBlocks(source.cpu, View(), bbc.View(), turns))
      modifies exec, state.Repr(), bbc.Repr()
      ensures Valid()
      ensures Reports(RunBlocks(source.cpu, old(View()), old(bbc.View()), turns), e, View(), bbc.View())
    {
      ghost var goal, left := RunBlocks(source.cpu, View(), bbc.View(), turns), turns;
      while !state.complete
        invariant Valid() && fresh(state.mem.Repr - old(state.mem.Repr)) && fresh(bbc.Repr() - old(bbc.Repr()))
        invariant HeadsFor(goal, left)
        decreases left
      {
        e := NextTurn(left, goal);
        if e.Some? {
          return;
        }
        left := left - 1;
      }
      e := None;
    }

    /** `goal` is what `left` more turns come to. */
    ghost predicate HeadsFor(goal: HartResult, left: nat)
      requires Valid()
      reads this, exec, state, state.regs.regs, state.csregs.regs, state.mem, state.mem.Repr
      reads bbc.Repr(), if bbc.LruBBC? then {bbc.lru, bbc.lru.list} else {}
    {
      RunBlocks(source.cpu, View(), bbc.View(), left) == goal
    }

    /** A turn of a run whose outcome is `goal`: it is the outcome, or the outcome of the turns left. */
    method NextTurn(ghost left: nat, ghost goal: HartResult) returns (e: Option<Error>)
      requires Valid() && !state.complete && Ends(goal) && HeadsFor(goal, left)
      modifies exec, state.Repr(), bbc.Repr()
      ensures Valid() && fresh(state.mem.Repr - old(state.mem.Repr)) && fresh(bbc.Repr() - old(bbc.Repr()))
      ensures left > 0
      ensures if e.Some? then Reports(goal, e, View(), bbc.View()) else HeadsFor(goal, left - 1)
    {
      ghost var s, cache := View(), bbc.View();
      GoalAhead(source.cpu, s, cache, left, goal);
      e := OneTurn();
      if e.None? {
        RunBlocksStep(source.cpu, s, cache, View(), bbc.View(), left - 1);
      }
    }

    /** The whole constructor: load the segments, set the flag. */
    static method Create(table: seq<Entry>, entry: Word, segments: seq<Segment>, bbCacheSize: int)
      returns (r: Result<Hart, MemError>)
      requires Loadable(segments)
      ensures match LoadAllFlat(EMPTY, segments)
              case Failure(e) => r == Failure(e)
              case Success(f) =>
                && r.Success? && r.value.ReadyToRun(table, entry, f, bbCacheSize)
                && r.value.StartsAt(entry, f)
                && fresh(r.value.exec) && fresh(r.value.state.Repr()) && fresh(r.value.bbc.Repr())
    {
      var loaded := LoadProgram(segments);
      if loaded.Failure? {
        return Failure(loaded.error);
      }
      var hart := Start(loaded.value, table, entry, bbCacheSize);
      InitialIsZero(entry, hart.View().mem);
      r := Success(hart);
    }

    static method Start(mem: Memory, table: seq<Entry>, entry: Word, bbCacheSize: int) returns (hart: Hart)
      requires mem.Valid() && mem.isProgramStored && Consistent(mem.model)
      ensures hart.ReadyToRun(table, entry, mem.model.flat, bbCacheSize) && hart.state.mem == mem
      ensures fresh(hart.exec) && fresh(hart.state.Repr() - {mem} - mem.Repr) && fresh(hart.bbc.Repr())
    {
      hart := new Hart(mem, table, entry, bbCacheSize);
    }

    /** The program counter at the entry, the program in memory, everything else zero, lowered or empty, and
        the counter at one. */
    ghost predicate StartsAt(entry: Word, f: Flat)
      requires state.Valid()
      reads this, exec, state, state.regs.regs, state.csregs.regs, state.mem, state.mem.Repr
    {
      var s := View();
      && s.pc == entry && s.mem == f && s.instrCount == 1 && s.log == [] && !s.branchIsTaken && !s.complete
      && (forall r :: 0 <= r < 32 ==> s.regs[r] == 0) && (forall c :: 0 <= c < 4096 ==> s.csregs[c] == 0)
    }

    /** Wired up, with the program in `f` and an empty cache. */
    ghost predicate ReadyToRun(table: seq<Entry>, entry: Word, f: Flat, bbCacheSize: int)
      reads this, exec, state, state.regs.regs, state.csregs.regs, state.mem, state.mem.Repr
      reads bbc.Repr(), if bbc.LruBBC? then {bbc.lru, bbc.lru.list} else {}
    {
      && Valid() && View() == Initial(entry, f) && bbc.View() == EmptyCache(bbCacheSize)
      && source.cpu == SimCpu(table) && Tidy(f)
    }
  }

  /** The run is over. */
  ghost predicate Ends(r: HartResult) { r.Failed? || (r.Ran? && r.st.complete) }

  /** A hart that stopped in state t, with an error or without, against the interpreter. */
  ghost predicate StopsLikeInterpreter(cpu: Cpu, s: Arch, e: Option<Error>, t: Arch) {
    match e
    case None => Completes(cpu, s, t)
    case Some(error) => exists n: nat :: ThrowsAlike(cpu, Interpret(cpu, s, n), error, t)
  }

  /** From the ELF segments to the last instruction: loading fails with the error of the first store that
      throws, or the objects stop like the interpreter, for every program that keeps the code that is live
      under their cache. */
  method Simulate(table: seq<Entry>, entry: Word, segments: seq<Segment>, bbCacheSize: int, ghost turns: nat)
    returns (loaded: Result<Hart, MemError>, e: Option<Error>)
    requires Loadable(segments)
    requires var f := LoadAllFlat(EMPTY, segments);
             f.Success? ==> Ends(RunBlocks(SimCpu(table), Initial(entry, f.value), EmptyCache(bbCacheSize), turns))
    ensures match LoadAllFlat(EMPTY, segments)
            case Failure(error) => loaded == Failure(error)
            case Success(f) =>
              && loaded.Success? && loaded.value.Valid()
              && (WellBehaved(table, Initial(entry, f), bbCacheSize) ==>
                    StopsLikeInterpreter(SimCpu(table), Initial(entry, f), e, loaded.value.View()))
  {
    e := None;
    loaded := Hart.Create(table, entry, segments, bbCacheSize);
    if loaded.Success? {
      ghost var s := loaded.value.View();
      e := loaded.value.Run(turns);
      if WellBehaved(table, s, bbCacheSize) {
        StopIsAlike(table, s, bbCacheSize, turns, e, loaded.value.View());
      }
    }
  }

  lemma StopIsAlike(table: seq<Entry>, s: Arch, size: int, turns: nat, e: Option<Error>, t: Arch)
    requires WellBehaved(table, s, size) && Boundary(s) && Tidy(s.mem)
    requires var r := RunBlocks(SimCpu(table), s, EmptyCache(size), turns);
             Ends(r) && r.st == t && e == if r.Failed? then Some(r.e) else None
    ensures StopsLikeInterpreter(SimCpu(table), s, e, t)
  {
    var r := RunBlocks(SimCpu(table), s, EmptyCache(size), turns);
    if r.Failed? {
      var n, _ := RunThrowsAlike(table, s, size, turns);
      assert ThrowsAlike(SimCpu(table), Interpret(SimCpu(table), s, n), r.e, t);
    } else {
      assert RanTo(r, t);
      RunMatchesInterpreter(table, s, size, t);
    }
  }

  /** A run that ends and has not ended yet takes a turn, and a turn that fails is its outcome. */
  lemma GoalAhead(cpu: Cpu, s: Arch, cache: Cache, left: nat, goal: HartResult)
    requires !s.complete && Ends(goal) && RunBlocks(cpu, s, cache, left) == goal
    ensures left > 0 && !Turn(cpu, s, cache).Stuck? && (Turn(cpu, s, cache).Failed? ==> goal == Turn(cpu, s, cache))
  {}

  twostate lemma OldIsNotFresh(objects: set<object>)
    ensures forall o :: o in objects ==> !fresh(o)
  {}

  lemma StillApart(now: set<object>, was: set<object>, other: set<object>)
    requires was !! other && forall o :: o in other ==> o !in now - was
    ensures now !! other
  {}

  lemma InitialIsZero(entry: Word, mem: Flat)
    ensures forall r :: 0 <= r < 32 ==> Initial(entry, mem).regs[r] == 0
    ensures forall c :: 0 <= c < 4096 ==> Initial(entry, mem).csregs[c] == 0
  {}

  /** The machine as the constructor leaves it. */
  ghost function Initial(entry: Word, mem: Flat): Arch {
    Arch(entry, 0, seq(32, _ => 0), seq(4096, _ => 0), mem, false, false, 1, [])
  }

  /** A turn in terms of the lookup's answer. */
  lemma TurnLooksUp(cpu: Cpu, s: Arch, cache: Cache, answer: Fetched)
    requires !Turn(cpu, s, cache).Stuck?
    requires answer == BasicBlock.Answer(Build(cpu, s.mem, s.pc))
    ensures Hits(cache, s.pc) || Build(cpu, s.mem, s.pc) != Endless
    ensures var (found, after) := Lookup(cache, s.pc, answer);
            Turn(cpu, s, cache) == BlockRun.ExecuteFound(cpu, s, found, after)
  {}
}
