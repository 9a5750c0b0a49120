/** The segment-loading loops of the Hart constructor: the words of the file, then zero words up to the
    memory size, one segment after the other.
  */
module Loader {
  import opened Bits
  import opened Wrappers
  import opened FlatMemory
  import opened PagedMemory
  import opened Machine
  import opened State

  /** A loadable segment as the ELF loader gives it; the file data is cut to whole words. */
  datatype Segment = Segment(addr: Word, words: seq<Word>, fileSize: Word, memSize: Word) {
    predicate Valid() { |words| == fileSize / 4 }

    /** The number of zero words, when the counter does not wrap. */
    function FillCount(): nat { FillLeft(fileSize) }

    /** And how many of them are left when the counter stands at `counter`. */
    function FillLeft(counter: Word): nat {
      if counter < memSize then (memSize - counter + 3) / 4 else 0
    }

    predicate Counting(counter: Word) { counter % 4 == fileSize % 4 }

    /** The counter of the zero-fill loop can reach `memSize`. */
    predicate CounterReaches() {
      fileSize >= memSize || memSize <= WORD_LIMIT - 4 + fileSize % 4
    }

    /** The zero-fill loop stops, if only because its first store throws. */
    predicate Ends() {
      CounterReaches() || (addr + fileSize) % 4 != 0
    }

    /** The first file word already throws. */
    predicate Unstorable() { words != [] && addr % 4 != 0 }

    /** Loading the segment throws. */
    predicate Rejected() { Unstorable() || (fileSize < memSize && (addr + fileSize) % 4 != 0) }

    /** Loading the segment stops: the zero-fill loop is not reached, or it ends. */
    predicate Returns() { Unstorable() || Ends() }
  }

  /** Every segment that loading comes to stops. */
  predicate Loadable(segments: seq<Segment>) {
    forall i :: 0 <= i < |segments| && Reached(segments, i) ==> segments[i].Returns()
  }

  /** No segment before number `i` throws. */
  predicate Reached(segments: seq<Segment>, i: nat)
    requires i <= |segments|
  {
    forall j :: 0 <= j < i ==> !segments[j].Rejected()
  }

  /** The counter after `i` rounds. */
  function Counter(fileSize: Word, i: nat): Word { Wrap(fileSize + 4 * i) }

  /** The loop test becomes false in some round exactly when the counter cannot jump over the gap between
      the memory size and 2^32. */
  lemma CounterStops(s: Segment)
    ensures s.CounterReaches() <==> exists i: nat :: Counter(s.fileSize, i) >= s.memSize
  {
    if s.fileSize >= s.memSize {
      assert Counter(s.fileSize, 0) >= s.memSize;
    } else if s.CounterReaches() {
      assert Counter(s.fileSize, s.FillCount()) >= s.memSize;
    }
    forall i: nat ensures Counter(s.fileSize, i) <= WORD_LIMIT - 4 + s.fileSize % 4 {
      CounterResidue(s.fileSize, i);
    }
  }

  lemma CounterResidue(fileSize: Word, i: nat)
    ensures Counter(fileSize, i) % 4 == fileSize % 4
  {}

  // ----- what the loops leave in memory -----

  function StoreRangeFlat(f: Flat, start: Word, words: seq<Word>): Result<Flat, MemError>
    decreases |words|
  {
    if words == [] then Success(f)
    else
      match f.Store(W32, start, words[0])
      case Failure(e) => Failure(e)
      case Success(g) => StoreRangeFlat(g, AddW(start, XLEN_BYTES), words[1..])
  }

  function Zeros(n: nat): seq<Word> { seq(n, _ => 0) }

  function LoadSegmentFlat(f: Flat, s: Segment): Result<Flat, MemError> {
    match StoreRangeFlat(f, s.addr, s.words)
    case Failure(e) => Failure(e)
    case Success(g) => FillFlat(g, s, s.fileSize)
  }

  function LoadAllFlat(f: Flat, segments: seq<Segment>): Result<Flat, MemError> {
    if segments == [] then Success(f)
    else
      match LoadAllFlat(f, segments[..|segments| - 1])
      case Failure(e) => Failure(e)
      case Success(g) => LoadSegmentFlat(g, segments[|segments| - 1])
  }

  lemma StoredByte(f: Flat, a: Word, v: Word, b: nat)
    requires a % 4 == 0
    ensures f.Store(W32, a, v).Success?
    ensures f.Store(W32, a, v).value.At(b) == if a <= b < a + 4 then ByteOf(v, b - a) else f.At(b)
  {
    WriteEffect(f.(mapped := f.mapped + {a / PAGE_SIZE}), a, 4, v, b);
  }

  /** The byte that a range of words puts at an address it covers. */
  function RangeByte(start: Word, words: seq<Word>, b: nat): Byte
    requires start <= b < start + 4 * |words|
  {
    ByteOf(words[(b - start) / 4], (b - start) % 4)
  }

  lemma RangeByteStep(start: Word, words: seq<Word>, b: nat)
    requires words != [] && start + 4 <= b < start + 4 * |words| && start + 4 < WORD_LIMIT
    ensures RangeByte(start, words, b) == RangeByte(start + 4, words[1..], b)
  {
    assert (b - (start + 4)) / 4 == (b - start) / 4 - 1;
  }

  lemma StoreRangeStep(f: Flat, start: Word, words: seq<Word>)
    requires start % 4 == 0 && words != [] && start + 4 * |words| <= WORD_LIMIT
    ensures var g := f.Store(W32, start, words[0]).value;
            StoreRangeFlat(f, start, words) ==
            if |words| == 1 then Success(g) else StoreRangeFlat(g, start + 4, words[1..])
  {
    if |words| == 1 {
      assert words[1..] == [];
    } else {
      SmallMod(start + 4, WORD_LIMIT);
    }
  }

  /** A range of words lands byte by byte, and nothing else changes. */
  lemma {:induction false} StoreRangeBytes(f: Flat, start: Word, words: seq<Word>, b: nat)
    requires start % 4 == 0 && start + 4 * |words| <= WORD_LIMIT
    ensures StoreRangeFlat(f, start, words).Success?
    ensures StoreRangeFlat(f, start, words).value.At(b) ==
            if start <= b < start + 4 * |words| then RangeByte(start, words, b) else f.At(b)
    decreases |words|
  {
    if words != [] {
      StoredByte(f, start, words[0], b);
      StoreRangeStep(f, start, words);
      var g := f.Store(W32, start, words[0]).value;
      if |words| > 1 {
        StoreRangeBytes(g, start + 4, words[1..], b);
        if start + 4 <= b < start + 4 * |words| {
          RangeByteStep(start, words, b);
        }
      }
    }
  }

  /** Loading throws exactly when a word has to be stored at an address that is not a multiple of four. */
  lemma {:induction false} StoreRangeFails(f: Flat, start: Word, words: seq<Word>)
    ensures StoreRangeFlat(f, start, words).Failure? <==> words != [] && start % 4 != 0
    decreases |words|
  {
    if words != [] && start % 4 == 0 {
      StoreRangeFails(f.Store(W32, start, words[0]).value, AddW(start, XLEN_BYTES), words[1..]);
    }
  }

  lemma FillFails(f: Flat, s: Segment)
    ensures FillFlat(f, s, s.fileSize).Failure? <==> s.fileSize < s.memSize && (s.addr + s.fileSize) % 4 != 0
  {
    StoreRangeFails(f, AddW(s.addr, s.fileSize), Zeros(s.FillCount()));
    assert AddW(s.addr, s.fileSize) % 4 == (s.addr + s.fileSize) % 4;
  }

  lemma LoadSegmentFails(f: Flat, s: Segment)
    ensures LoadSegmentFlat(f, s).Failure? <==> s.Rejected()
  {
    StoreRangeFails(f, s.addr, s.words);
    var g := StoreRangeFlat(f, s.addr, s.words);
    if g.Success? {
      FillFails(g.value, s);
    }
  }

  /** A segment that sits on word boundaries, does not wrap around the address space, and whose counter
      does not wrap. */
  predicate Placed(s: Segment) {
    && s.Valid() && s.CounterReaches() && s.addr % 4 == 0 && s.fileSize % 4 == 0
    && s.addr + s.fileSize + 4 * s.FillCount() <= WORD_LIMIT
  }

  predicate Covers(s: Segment, b: nat) { s.addr <= b < s.addr + s.fileSize + 4 * s.FillCount() }

  /** The byte a segment puts at an address it covers: of the file, or zero. */
  function SegmentByte(s: Segment, b: nat): Byte
    requires Placed(s) && Covers(s, b)
  {
    if b < s.addr + s.fileSize then RangeByte(s.addr, s.words, b) else 0
  }

  lemma FillBytes(f: Flat, s: Segment, b: nat)
    requires Placed(s)
    ensures FillFlat(f, s, s.fileSize).Success?
    ensures FillFlat(f, s, s.fileSize).value.At(b) ==
            if s.addr + s.fileSize <= b < s.addr + s.fileSize + 4 * s.FillCount() then 0 else f.At(b)
  {
    var start, zeros := s.addr + s.fileSize, Zeros(s.FillCount());
    if s.FillCount() > 0 {
      SmallMod(start, WORD_LIMIT);
      StoreRangeBytes(f, start, zeros, b);
      if start <= b < start + 4 * s.FillCount() {
        ByteOfZero((b - start) % 4);
      }
    }
  }

  lemma SegmentBytes(f: Flat, s: Segment, b: nat)
    requires Placed(s)
    ensures LoadSegmentFlat(f, s).Success?
    ensures LoadSegmentFlat(f, s).value.At(b) == if Covers(s, b) then SegmentByte(s, b) else f.At(b)
  {
    StoreRangeBytes(f, s.addr, s.words, b);
    FillBytes(StoreRangeFlat(f, s.addr, s.words).value, s, b);
  }

  /** The covered addresses are those of the words that begin inside the file or the memory size. */
  lemma CoversExactly(s: Segment, b: nat)
    requires Placed(s)
    ensures Covers(s, b) <==> s.addr <= b && b / 4 * 4 < s.addr + if s.fileSize >= s.memSize then s.fileSize else s.memSize
  {}

  /** The words of the file can be loaded back, each from its place. */
  lemma SegmentWords(f: Flat, s: Segment, k: nat)
    requires Placed(s) && k < |s.words|
    ensures LoadSegmentFlat(f, s).Success?
    ensures LoadSegmentFlat(f, s).value.Load(W32, s.addr + 4 * k) == Success(s.words[k])
  {
    var a := PlaceOfWord(s, k);
    SegmentPages(f, s, a / PAGE_SIZE);
    forall b: nat | a <= b < a + 4 ensures LoadSegmentFlat(f, s).value.At(b) == ByteOf(s.words[k], b - a) {
      SegmentWordByte(f, s, k, b - a);
    }
    LoadsBack(LoadSegmentFlat(f, s).value, a, s.words[k]);
  }

  lemma PlaceOfWord(s: Segment, k: nat) returns (a: Word)
    requires Placed(s) && k < |s.words|
    ensures a == s.addr + 4 * k && a % 4 == 0 && OnPage(s, a / PAGE_SIZE)
  {
    a := s.addr + 4 * k;
    assert Covers(s, a);
  }

  lemma SegmentWordByte(f: Flat, s: Segment, k: nat, j: nat)
    requires Placed(s) && k < |s.words| && j < 4
    ensures LoadSegmentFlat(f, s).Success?
    ensures LoadSegmentFlat(f, s).value.At(s.addr + 4 * k + j) == ByteOf(s.words[k], j)
  {
    SegmentBytes(f, s, s.addr + 4 * k + j);
    WordOfRange(s.addr, s.words, k, j);
  }

  lemma LoadsBack(g: Flat, a: Word, v: Word)
    requires a % 4 == 0 && a / PAGE_SIZE in g.mapped
    requires forall b: nat :: a <= b < a + 4 ==> g.At(b) == ByteOf(v, b - a)
    ensures g.Load(W32, a) == Success(v)
  {
    ComposeIsModulo(g, a, 4, v);
    Pow2Values();
    SmallMod(v, WORD_LIMIT);
  }

  lemma WordOfRange(start: Word, words: seq<Word>, k: nat, j: nat)
    requires k < |words| && j < 4
    ensures RangeByte(start, words, start + 4 * k + j) == ByteOf(words[k], j)
  {}

  /** The byte at `b` once every segment is loaded: the last covering segment wins. */
  function LoadedByte(f: Flat, segments: seq<Segment>, b: nat): Byte
    requires forall i :: 0 <= i < |segments| ==> Placed(segments[i])
  {
    if segments == [] then f.At(b)
    else
      var s := segments[|segments| - 1];
      if Covers(s, b) then SegmentByte(s, b) else LoadedByte(f, segments[..|segments| - 1], b)
  }

  /** Loading placed segments succeeds, with every byte that of the last segment that covers it and every
      other byte unchanged. */
  lemma {:induction false} LoadAllBytes(f: Flat, segments: seq<Segment>, b: nat)
    requires forall i :: 0 <= i < |segments| ==> Placed(segments[i])
    ensures LoadAllFlat(f, segments).Success? && LoadAllFlat(f, segments).value.At(b) == LoadedByte(f, segments, b)
  {
    if segments != [] {
      var n := |segments| - 1;
      LoadAllBytes(f, segments[..n], b);
      SegmentBytes(LoadAllFlat(f, segments[..n]).value, segments[n], b);
    }
  }

  // ----- the pages that loading maps -----

  /** A page that holds an address from lo up to hi. */
  predicate PageMeets(lo: nat, hi: nat, p: nat) { lo < hi && lo < (p + 1) * PAGE_SIZE && p * PAGE_SIZE < hi }

  lemma PageMeetsStep(lo: nat, hi: nat, p: nat)
    requires lo % 4 == 0 && hi % 4 == 0 && lo < hi
    ensures PageMeets(lo, hi, p) <==> p == lo / PAGE_SIZE || PageMeets(lo + 4, hi, p)
  {}

  lemma PageMeetsByte(lo: nat, hi: nat, p: nat) returns (b: nat)
    requires PageMeets(lo, hi, p)
    ensures lo <= b < hi && b / PAGE_SIZE == p
  {
    b := if lo / PAGE_SIZE == p then lo else p * PAGE_SIZE;
  }

  lemma StoredPages(f: Flat, a: Word, v: Word)
    requires a % 4 == 0
    ensures f.Store(W32, a, v).Success? && f.Store(W32, a, v).value.mapped == f.mapped + {a / PAGE_SIZE}
  {
    WriteEffect(f.(mapped := f.mapped + {a / PAGE_SIZE}), a, 4, v, 0);
  }

  lemma {:induction false} StoreRangePages(f: Flat, start: Word, words: seq<Word>, p: nat)
    requires start % 4 == 0 && start + 4 * |words| <= WORD_LIMIT
    ensures StoreRangeFlat(f, start, words).Success?
    ensures p in StoreRangeFlat(f, start, words).value.mapped <==> p in f.mapped || PageMeets(start, start + 4 * |words|, p)
    decreases |words|
  {
    if words != [] {
      StoredPages(f, start, words[0]);
      StoreRangeStep(f, start, words);
      var g, end := f.Store(W32, start, words[0]).value, start + 4 * |words|;
      PageMeetsStep(start, end, p);
      if |words| > 1 {
        StoreRangePages(g, start + 4, words[1..], p);
        assert start + 4 + 4 * |words[1..]| == end;
      }
    }
  }

  lemma SegmentPages(f: Flat, s: Segment, p: nat)
    requires Placed(s)
    ensures LoadSegmentFlat(f, s).Success?
    ensures p in LoadSegmentFlat(f, s).value.mapped <==> p in f.mapped || OnPage(s, p)
  {
    StoreRangePages(f, s.addr, s.words, p);
    FillPages(StoreRangeFlat(f, s.addr, s.words).value, s, p);
    CoveredPages(s, p);
  }

  lemma FillPages(f: Flat, s: Segment, p: nat)
    requires Placed(s)
    ensures FillFlat(f, s, s.fileSize).Success?
    ensures p in FillFlat(f, s, s.fileSize).value.mapped <==>
            p in f.mapped || PageMeets(s.addr + s.fileSize, s.addr + s.fileSize + 4 * s.FillCount(), p)
  {
    if s.FillCount() > 0 {
      SmallMod(s.addr + s.fileSize, WORD_LIMIT);
      StoreRangePages(f, s.addr + s.fileSize, Zeros(s.FillCount()), p);
    }
  }

  /** The covered addresses are those of the file and those of the fill. */
  lemma CoveredPages(s: Segment, p: nat)
    requires Placed(s)
    ensures var middle := s.addr + s.fileSize;
            OnPage(s, p) <==> PageMeets(s.addr, middle, p) || PageMeets(middle, middle + 4 * s.FillCount(), p)
  {
    var middle, end := s.addr + s.fileSize, s.addr + s.fileSize + 4 * s.FillCount();
    if PageMeets(s.addr, middle, p) {
      var b := PageMeetsByte(s.addr, middle, p);
      assert Covers(s, b);
    }
    if PageMeets(middle, end, p) {
      var b := PageMeetsByte(middle, end, p);
      assert Covers(s, b);
    }
  }

  /** The segment covers an address of the page. */
  ghost predicate OnPage(s: Segment, p: nat) { exists b: nat :: Covers(s, b) && b / PAGE_SIZE == p }

  /** Loading placed segments maps exactly the pages on which some segment covers an address. */
  lemma {:induction false} LoadAllPages(f: Flat, segments: seq<Segment>, p: nat)
    requires forall i :: 0 <= i < |segments| ==> Placed(segments[i])
    ensures LoadAllFlat(f, segments).Success?
    ensures p in LoadAllFlat(f, segments).value.mapped <==>
            p in f.mapped || exists i :: 0 <= i < |segments| && OnPage(segments[i], p)
  {
    if segments != [] {
      var n := |segments| - 1;
      LoadAllPages(f, segments[..n], p);
      SegmentPages(LoadAllFlat(f, segments[..n]).value, segments[n], p);
      assert forall i :: 0 <= i < n ==> segments[..n][i] == segments[i];
    }
  }

  // ----- the loops -----

  /** `storeEntity<Word>`, before the program counts as stored. */
  method StoreWord(mem: Memory, a: Word, v: Word) returns (r: Result<(), MemError>)
    requires mem.Valid()
    modifies mem, mem.Repr
    ensures mem.Valid() && fresh(mem.Repr - old(mem.Repr))
    ensures var m := old(mem.model.flat).Store(W32, a, v);
            && r == (if m.Failure? then Failure(m.error) else Success(()))
            && mem.model.flat == if m.Failure? then old(mem.model.flat) else m.value
  {
    StoreIsFlat(mem.model, a, v);
    r := mem.StoreEntity(W32, a, v);
  }

  /** The outcome of a loading loop against the flat memory's. */
  ghost predicate Loads(r: Result<(), MemError>, after: Flat, expected: Result<Flat, MemError>) {
    match expected
    case Failure(e) => r == Failure(e)
    case Success(f) => r == Success(()) && after == f
  }

  method StoreRange(mem: Memory, start: Word, words: seq<Word>) returns (r: Result<(), MemError>)
    requires mem.Valid()
    modifies mem, mem.Repr
    ensures mem.Valid() && fresh(mem.Repr - old(mem.Repr))
    ensures Loads(r, mem.model.flat, StoreRangeFlat(old(mem.model.flat), start, words))
  {
    var a := start;
    ghost var f := mem.model.flat;
    for i := 0 to |words|
      invariant mem.Valid() && fresh(mem.Repr - old(mem.Repr))
      invariant StoreRangeFlat(f, start, words) == StoreRangeFlat(mem.model.flat, a, words[i..])
    {
      assert words[i..][0] == words[i] && words[i..][1..] == words[i + 1..];
      r := StoreWord(mem, a, words[i]);
      if r.Failure? {
        return;
      }
      a := AddW(a, XLEN_BYTES);
    }
    r := Success(());
  }

  /** The loop counts `fileSize` up to the memory size. */
  method ZeroFill(mem: Memory, s: Segment) returns (r: Result<(), MemError>)
    requires mem.Valid() && s.Ends()
    modifies mem, mem.Repr
    ensures mem.Valid() && fresh(mem.Repr - old(mem.Repr))
    ensures Loads(r, mem.model.flat, FillFlat(old(mem.model.flat), s, s.fileSize))
  {
    var fileSize: Word := s.fileSize;
    ghost var goal := FillFlat(mem.model.flat, s, fileSize);
    while fileSize < s.memSize
      invariant mem.Valid() && fresh(mem.Repr - old(mem.Repr))
      invariant s.Counting(fileSize)
      invariant FillFlat(mem.model.flat, s, fileSize) == goal
      decreases s.memSize - fileSize
    {
      r := FillWord(mem, s, fileSize);
      if r.Failure? {
        return;
      }
      fileSize := AddW(fileSize, XLEN_BYTES);
    }
    r := Success(());
  }

  /** One round; unless it throws, the counter does not wrap. */
  method FillWord(mem: Memory, s: Segment, counter: Word) returns (r: Result<(), MemError>)
    requires mem.Valid() && s.Ends() && counter < s.memSize && s.Counting(counter)
    modifies mem, mem.Repr
    ensures mem.Valid() && fresh(mem.Repr - old(mem.Repr))
    ensures var goal := FillFlat(old(mem.model.flat), s, counter);
            if r.Failure? then goal == Failure(r.error)
            else FillFlat(mem.model.flat, s, AddW(counter, XLEN_BYTES)) == goal
    ensures r.Success? ==> AddW(counter, XLEN_BYTES) == counter + 4 && s.Counting(AddW(counter, XLEN_BYTES))
  {
    FillRound(mem.model.flat, s, counter);
    r := StoreWord(mem, AddW(s.addr, counter), 0);
  }

  /** What is left of the fill when the counter stands at `counter`. */
  function FillFlat(f: Flat, s: Segment, counter: Word): Result<Flat, MemError> {
    StoreRangeFlat(f, AddW(s.addr, counter), Zeros(s.FillLeft(counter)))
  }

  /** One round of the fill: unless its store throws, the counter does not wrap. */
  lemma FillRound(f: Flat, s: Segment, counter: Word)
    requires s.Ends() && counter < s.memSize && s.Counting(counter)
    ensures FillFlat(f, s, counter) ==
            match f.Store(W32, AddW(s.addr, counter), 0)
            case Failure(e) => Failure(e)
            case Success(g) => FillFlat(g, s, AddW(counter, XLEN_BYTES))
    ensures f.Store(W32, AddW(s.addr, counter), 0).Success? ==>
              AddW(counter, XLEN_BYTES) == counter + 4 && s.Counting(AddW(counter, XLEN_BYTES))
  {
    var a, n := AddW(s.addr, counter), s.FillLeft(counter);
    StoreZero(f, a, n);
    if a % 4 == 0 {
      CounterSteps(s, counter);
      var next := AddW(counter, XLEN_BYTES);
      assert AddW(a, XLEN_BYTES) == AddW(s.addr, next) && n - 1 == s.FillLeft(next);
    }
  }

  lemma WrapKeepsResidue(x: nat)
    ensures Wrap(x) % 4 == x % 4
  {}

  lemma SameResidueSum(a: nat, b: nat, c: nat)
    requires b % 4 == c % 4
    ensures (a + b) % 4 == (a + c) % 4
  {
    ModUnique(a + b, 4, (a + c) / 4 + b / 4 - c / 4, (a + c) % 4);
  }

  /** The largest word with the residue of `counter`. */
  lemma ResidueTop(counter: Word)
    ensures counter <= WORD_LIMIT - 4 + counter % 4
  {
    assert counter == 4 * (counter / 4) + counter % 4;
  }

  lemma NextResidue(counter: nat)
    ensures (counter + 4) % 4 == counter % 4
  {}

  lemma CounterBound(s: Segment, counter: Word)
    requires s.CounterReaches() && counter < s.memSize && s.Counting(counter)
    ensures counter + 4 < WORD_LIMIT && s.FillLeft(counter + 4) == s.FillLeft(counter) - 1
  {
    assert counter == 4 * (counter / 4) + counter % 4;
  }

  lemma CounterSteps(s: Segment, counter: Word)
    requires s.Ends() && counter < s.memSize && s.Counting(counter) && AddW(s.addr, counter) % 4 == 0
    ensures counter + 4 < WORD_LIMIT && AddW(counter, XLEN_BYTES) == counter + 4 && s.Counting(counter + 4)
    ensures s.FillLeft(counter + 4) == s.FillLeft(counter) - 1
    ensures AddW(AddW(s.addr, counter), XLEN_BYTES) == AddW(s.addr, counter + 4)
  {
    WrapKeepsResidue(s.addr + counter);
    WrapTwice(s.addr + counter, XLEN_BYTES);
    SameResidueSum(s.addr, counter, s.fileSize);
    CounterBound(s, counter);
    NextResidue(counter);
    SmallMod(counter + 4, WORD_LIMIT);
  }

  lemma StoreZero(f: Flat, a: Word, n: nat)
    requires n > 0
    ensures StoreRangeFlat(f, a, Zeros(n)) ==
            match f.Store(W32, a, 0)
            case Failure(e) => Failure(e)
            case Success(g) => StoreRangeFlat(g, AddW(a, XLEN_BYTES), Zeros(n - 1))
    ensures f.Store(W32, a, 0).Failure? <==> a % 4 != 0
  {
    assert Zeros(n)[1..] == Zeros(n - 1);
  }

  // ----- the zero-fill loop as it runs, wrap-around included -----

  datatype Fill = Filling(f: Flat, counter: Word) | Filled(f: Flat) | FillThrew(e: MemError)

  /** One test of the loop and, if it holds, one round. */
  function FillStep(s: Segment, x: Fill): Fill {
    match x
    case Filling(f, counter) =>
      if counter >= s.memSize then Filled(f)
      else
        (match f.Store(W32, AddW(s.addr, counter), 0)
         case Failure(e) => FillThrew(e)
         case Success(g) => Filling(g, AddW(counter, XLEN_BYTES)))
    case _ => x
  }

  function FillRun(s: Segment, x: Fill, n: nat): Fill
    decreases n
  {
    if n == 0 then x else FillRun(s, FillStep(s, x), n - 1)
  }

  function FillOutcome(r: Result<Flat, MemError>): Fill {
    match r case Failure(e) => FillThrew(e) case Success(f) => Filled(f)
  }

  ghost predicate FillStops(s: Segment, f: Flat, n: nat) { !FillRun(s, Filling(f, s.fileSize), n).Filling? }

  /** A loop that ends computes the fill. */
  lemma {:induction false} FillReaches(s: Segment, f: Flat, counter: Word) returns (n: nat)
    requires s.Ends() && s.Counting(counter)
    ensures FillRun(s, Filling(f, counter), n) == FillOutcome(FillFlat(f, s, counter))
    decreases s.memSize - counter
  {
    FillNext(s, f, counter);
    match FillStep(s, Filling(f, counter))
    case Filling(g, next) =>
      n := FillReaches(s, g, next);
      FillRunNext(s, Filling(f, counter), n);
      n := n + 1;
    case _ => n := 1;
  }

  /** One round leaves the same fill to do, or has the outcome. */
  lemma FillNext(s: Segment, f: Flat, counter: Word)
    requires s.Ends() && s.Counting(counter)
    ensures var x, goal := FillStep(s, Filling(f, counter)), FillFlat(f, s, counter);
            if x.Filling? then
              counter < s.memSize && x.counter == counter + 4 && s.Counting(x.counter) && FillFlat(x.f, s, x.counter) == goal
            else x == FillOutcome(goal)
  {
    if counter < s.memSize {
      FillRound(f, s, counter);
    } else {
      FillDone(f, s, counter);
    }
  }

  lemma FillRunNext(s: Segment, x: Fill, n: nat)
    ensures FillRun(s, x, n + 1) == FillRun(s, FillStep(s, x), n)
  {}

  lemma FillDone(f: Flat, s: Segment, counter: Word)
    requires counter >= s.memSize
    ensures FillFlat(f, s, counter) == Success(f)
  {}

  /** Where the counter jumps over the gap and the stores are aligned, every round leads to another. */
  lemma {:induction false} FillGoesOn(s: Segment, f: Flat, counter: Word, n: nat)
    requires !s.Ends() && s.Counting(counter)
    ensures FillRun(s, Filling(f, counter), n).Filling?
    decreases n
  {
    if n > 0 {
      GapIsJumped(s, counter);
      var g := f.Store(W32, AddW(s.addr, counter), 0).value;
      FillGoesOn(s, g, AddW(counter, XLEN_BYTES), n - 1);
    }
  }

  lemma GapIsJumped(s: Segment, counter: Word)
    requires !s.Ends() && s.Counting(counter)
    ensures counter < s.memSize && AddW(s.addr, counter) % 4 == 0 && s.Counting(AddW(counter, XLEN_BYTES))
  {
    WrapKeepsResidue(s.addr + counter);
    SameResidueSum(s.addr, counter, s.fileSize);
    ResidueTop(counter);
    NextResidue(counter);
    WrapKeepsResidue(counter + 4);
  }

  /** The zero-fill loop ends, whatever the memory, exactly when its counter can reach the memory size or its
      first store throws; and then it leaves what the fill prescribes. */
  lemma FillEndsExactly(s: Segment, f: Flat)
    ensures s.Ends() <==> exists n: nat :: FillStops(s, f, n)
    ensures s.Ends() ==> exists n: nat :: FillRun(s, Filling(f, s.fileSize), n) == FillOutcome(FillFlat(f, s, s.fileSize))
  {
    if s.Ends() {
      var n := FillReaches(s, f, s.fileSize);
      assert FillStops(s, f, n);
    } else {
      forall n: nat ensures !FillStops(s, f, n) { FillGoesOn(s, f, s.fileSize, n); }
    }
  }

  /** A segment for which it does not: the whole address space but one byte. */
  lemma FillOfAlmostEverything(f: Flat, n: nat)
    ensures var s := Segment(0, [], 0, 0xFFFF_FFFF);
            s.Valid() && !s.Ends() && !FillStops(s, f, n)
  {
    FillEndsExactly(Segment(0, [], 0, 0xFFFF_FFFF), f);
  }

  /** Loading one segment stops: the store of its file words throws, or the zero-fill loop ends. */
  ghost predicate SegmentStops(f: Flat, s: Segment) {
    var g := StoreRangeFlat(f, s.addr, s.words);
    g.Failure? || exists n: nat :: FillStops(s, g.value, n)
  }

  /** Loading comes to a segment exactly when the earlier ones load. */
  lemma {:induction false} ReachedExactly(f: Flat, segments: seq<Segment>, i: nat)
    requires i <= |segments|
    ensures Reached(segments, i) <==> LoadAllFlat(f, segments[..i]).Success?
    decreases i
  {
    if i > 0 {
      ReachedExactly(f, segments, i - 1);
      assert segments[..i][..i - 1] == segments[..i - 1];
      if Reached(segments, i - 1) {
        LoadSegmentFails(LoadAllFlat(f, segments[..i - 1]).value, segments[i - 1]);
      }
    }
  }

  /** The segments are loadable exactly when loading stops at each one it comes to. */
  lemma LoadableExactly(f: Flat, segments: seq<Segment>)
    ensures Loadable(segments) <==>
            forall i :: 0 <= i < |segments| && Reached(segments, i) ==>
              LoadAllFlat(f, segments[..i]).Success? && SegmentStops(LoadAllFlat(f, segments[..i]).value, segments[i])
  {
    forall i | 0 <= i < |segments| && Reached(segments, i)
      ensures LoadAllFlat(f, segments[..i]).Success?
      ensures SegmentStops(LoadAllFlat(f, segments[..i]).value, segments[i]) <==> segments[i].Returns()
    {
      ReachedExactly(f, segments, i);
      SegmentStopsExactly(LoadAllFlat(f, segments[..i]).value, segments[i]);
    }
  }

  lemma SegmentStopsExactly(f: Flat, s: Segment)
    ensures SegmentStops(f, s) <==> s.Returns()
  {
    StoreRangeFails(f, s.addr, s.words);
    var g := StoreRangeFlat(f, s.addr, s.words);
    if g.Success? { FillEndsExactly(s, g.value); }
  }

  method LoadSegments(mem: Memory, segments: seq<Segment>) returns (r: Result<(), MemError>)
    requires mem.Valid() && Loadable(segments)
    modifies mem, mem.Repr
    ensures mem.Valid() && fresh(mem.Repr - old(mem.Repr))
    ensures Loads(r, mem.model.flat, LoadAllFlat(old(mem.model.flat), segments))
  {
    ghost var f := mem.model.flat;
    for i := 0 to |segments|
      invariant mem.Valid() && fresh(mem.Repr - old(mem.Repr))
      invariant Reached(segments, i) && LoadAllFlat(f, segments[..i]) == Success(mem.model.flat)
    {
      assert segments[..i + 1][..i] == segments[..i];
      LoadSegmentFails(mem.model.flat, segments[i]);
      r := LoadSegment(mem, segments[i]);
      if r.Failure? {
        LoadFailsEarly(f, segments, i + 1);
        return;
      }
    }
    assert segments[..|segments|] == segments;
    r := Success(());
  }

  /** A fresh memory with the program in it, and the flag that says so. */
  method LoadProgram(segments: seq<Segment>) returns (r: Result<Memory, MemError>)
    requires Loadable(segments)
    ensures match LoadAllFlat(EMPTY, segments)
            case Failure(e) => r == Failure(e)
            case Success(f) =>
              && r.Success? && fresh(r.value) && fresh(r.value.Repr)
              && r.value.Valid() && r.value.isProgramStored && r.value.model.flat == f && Consistent(r.value.model)
  {
    var mem := new Memory();
    var loaded := LoadSegments(mem, segments);
    if loaded.Failure? {
      return Failure(loaded.error);
    }
    mem.SetProgramStoredFlag();
    r := Success(mem);
  }

  method LoadSegment(mem: Memory, s: Segment) returns (r: Result<(), MemError>)
    requires mem.Valid() && s.Returns()
    modifies mem, mem.Repr
    ensures mem.Valid() && fresh(mem.Repr - old(mem.Repr))
    ensures Loads(r, mem.model.flat, LoadSegmentFlat(old(mem.model.flat), s))
  {
    StoreRangeFails(mem.model.flat, s.addr, s.words);
    r := StoreRange(mem, s.addr, s.words);
    if r.Success? {
      r := ZeroFill(mem, s);
    }
  }

  lemma {:induction false} LoadFailsEarly(f: Flat, segments: seq<Segment>, n: nat)
    requires n <= |segments| && LoadAllFlat(f, segments[..n]).Failure?
    ensures LoadAllFlat(f, segments) == LoadAllFlat(f, segments[..n])
    decreases |segments| - n
  {
    if n == |segments| {
      assert segments[..n] == segments;
    } else {
      assert segments[..n + 1][..n] == segments[..n];
      LoadFailsEarly(f, segments, n + 1);
    }
  }
}
