/** What a lookup in each of the three basic-block caches of src/hart/hart.cc answers and leaves behind,
    given the result `fetched` that `slowGetData(key)` would have.
  */
module BlockCache {
  import opened Bits
  import opened Wrappers
  import opened Instructions
  import opened Machine
  import opened LruTheory

  type Block = seq<Instruction>

  datatype Line = Line(key: Word, block: Block)

  datatype Cache = Inf(hash: map<Word, Block>) | No | Lru(size: nat, lines: seq<Line>)

  type Fetched = Result<Block, Error>

  function Keys(lines: seq<Line>): (keys: seq<Word>)
    ensures |keys| == |lines|
    ensures forall i :: 0 <= i < |lines| ==> keys[i] == lines[i].key
  {
    seq(|lines|, i requires 0 <= i < |lines| => lines[i].key)
  }

  /** The position of the first line with this key; the length of the list when there is none. */
  function Find(lines: seq<Line>, key: Word): (i: nat)
    ensures i <= |lines|
    ensures i < |lines| ==> lines[i].key == key
    ensures forall k :: 0 <= k < i ==> lines[k].key != key
  {
    if lines == [] then 0
    else
      var n := |lines| - 1;
      var i := Find(lines[..n], key);
      if i < n || lines[n].key == key then i else n + 1
  }

  function LruLookup(size: nat, lines: seq<Line>, key: Word, fetched: Fetched): (Fetched, seq<Line>) {
    var i := Find(lines, key);
    if i < |lines| then (Success(lines[i].block), [lines[i]] + (lines[..i] + lines[i + 1..]))
    else
      var kept := if |lines| == size && size > 0 then lines[..size - 1] else lines;
      match fetched
      case Failure(e) => (Failure(e), kept)
      case Success(block) => (Success(block), [Line(key, block)] + kept)
  }

  function Lookup(cache: Cache, key: Word, fetched: Fetched): (Fetched, Cache) {
    match cache
    case No => (fetched, No)
    case Inf(hash) =>
      if key in hash then (Success(hash[key]), cache)
      else if fetched.Success? then (fetched, Inf(hash[key := fetched.value]))
      else (fetched, cache)
    case Lru(size, lines) =>
      var (r, lines') := LruLookup(size, lines, key, fetched);
      (r, Lru(size, lines'))
  }

  predicate Hits(cache: Cache, key: Word) {
    match cache
    case No => false
    case Inf(hash) => key in hash
    case Lru(size, lines) => Find(lines, key) < |lines|
  }

  ghost predicate Holds(cache: Cache, key: Word, block: Block) {
    match cache
    case No => false
    case Inf(hash) => key in hash && hash[key] == block
    case Lru(size, lines) => Line(key, block) in lines
  }

  lemma FindIsMember(lines: seq<Line>, key: Word)
    ensures Find(lines, key) < |lines| <==> key in Keys(lines)
  {
    if Find(lines, key) < |lines| {
      assert Keys(lines)[Find(lines, key)] == key;
    }
  }

  /** On keys, a lookup is one step of the replacement theory. */
  lemma LookupStepsKeys(size: nat, lines: seq<Line>, key: Word, fetched: Fetched)
    requires Distinct(Keys(lines))
    ensures Keys(LruLookup(size, lines, key, fetched).1) == LruStep(size, Keys(lines), key, fetched.Success?)
  {
    var i := Find(lines, key);
    FindIsMember(lines, key);
    if i < |lines| {
      RemoveAt(Keys(lines), i);
      assert Keys(lines)[i] == key;
    }
  }

  /** A lookup answers with the block it holds, or with what was fetched; and it can only have come to
      hold what it held before or the block it answers with. */
  lemma LookupAnswers(cache: Cache, key: Word, fetched: Fetched)
    ensures var (r, after) := Lookup(cache, key, fetched);
            && (if Hits(cache, key) then r.Success? && Holds(cache, key, r.value) else r == fetched)
            && forall k, b :: Holds(after, k, b) ==> Holds(cache, k, b) || (k == key && r == Success(b))
  {
    if cache.Lru? {
      var i := Find(cache.lines, key);
      if i < |cache.lines| {
        assert cache.lines[i] == Line(key, cache.lines[i].block);
      }
    }
  }

  /** Every returned block is what `slowGetData` answers for the key, as long as its answers do not change. */
  ghost predicate Faithful(cache: Cache, slow: Word -> Fetched) {
    forall k, b :: Holds(cache, k, b) ==> slow(k) == Success(b)
  }

  lemma FaithfulLookup(cache: Cache, slow: Word -> Fetched, key: Word)
    requires Faithful(cache, slow)
    ensures Lookup(cache, key, slow(key)).0 == slow(key)
    ensures Faithful(Lookup(cache, key, slow(key)).1, slow)
  {
    LookupAnswers(cache, key, slow(key));
  }

  // ----- whole lookup sequences -----

  function RunLookups(cache: Cache, slow: Word -> Fetched, history: seq<Word>): Cache {
    if history == [] then cache
    else
      var key := history[|history| - 1];
      Lookup(RunLookups(cache, slow, history[..|history| - 1]), key, slow(key)).1
  }

  /** How often those lookups call `slowGetData`. */
  function Calls(cache: Cache, slow: Word -> Fetched, history: seq<Word>): nat {
    if history == [] then 0
    else
      var init, key := history[..|history| - 1], history[|history| - 1];
      Calls(cache, slow, init) + if Hits(RunLookups(cache, slow, init), key) then 0 else 1
  }

  /** Starting empty, the LRU cache's keys are those of the replacement theory, its blocks are the fetched
      ones, every lookup answers exactly what fetching would, and the fetches are the theory's misses. */
  lemma {:induction false} LruRuns(size: nat, slow: Word -> Fetched, history: seq<Word>)
    requires size >= 1
    ensures var c := RunLookups(Lru(size, []), slow, history);
            && c.Lru? && c.size == size
            && Keys(c.lines) == RunLru(size, (k: Word) => slow(k).Success?, history)
            && Distinct(Keys(c.lines)) && |c.lines| <= size
            && Faithful(c, slow)
    ensures Calls(Lru(size, []), slow, history) == Misses(size, (k: Word) => slow(k).Success?, history)
  {
    if history != [] {
      var init, key := history[..|history| - 1], history[|history| - 1];
      LruRuns(size, slow, init);
      FindIsMember(RunLookups(Lru(size, []), slow, init).lines, key);
      var c := RunLookups(Lru(size, []), slow, init);
      FaithfulLookup(c, slow, key);
      LookupStepsKeys(size, c.lines, key, slow(key));
      StepKeepsShape(size, Keys(c.lines), key, slow(key).Success?);
    }
  }

  /** The same for the infinite cache: it holds every block ever fetched. */
  lemma {:induction false} InfRuns(slow: Word -> Fetched, history: seq<Word>)
    ensures var c := RunLookups(Inf(map[]), slow, history);
            c.Inf? && c.hash.Keys == RunInf((k: Word) => slow(k).Success?, history) && Faithful(c, slow)
    ensures Calls(Inf(map[]), slow, history) == InfMisses((k: Word) => slow(k).Success?, history)
  {
    if history != [] {
      var init, key := history[..|history| - 1], history[|history| - 1];
      InfRuns(slow, init);
      FaithfulLookup(RunLookups(Inf(map[]), slow, init), slow, key);
    }
  }
}
