/** Least-recently-used replacement, on the keys alone.

    `LruStep` is the key list of src/hart/hart.cc's LRUCache across one lookup.  The lemmas are about
    whole lookup sequences: what the list holds, how sizes compare, and how far the number of misses
    can be from that of any other policy.
  */
module LruTheory {
  import opened Bits

  type Key = Word

  function Remove(keys: seq<Key>, key: Key): seq<Key> {
    if keys == [] then []
    else if keys[0] == key then keys[1..]
    else [keys[0]] + Remove(keys[1..], key)
  }

  /** The list with `key` in front, wherever it was before. */
  function Touch(keys: seq<Key>, key: Key): seq<Key> { [key] + Remove(keys, key) }

  /** `splice` on a hit; on a miss evict from the back when full, and insert in front unless
      `slowGetData` throws (`ok` is false). */
  function LruStep(size: nat, keys: seq<Key>, key: Key, ok: bool): seq<Key> {
    if key in keys then Touch(keys, key)
    else
      var kept := if |keys| == size && size > 0 then keys[..size - 1] else keys;
      if ok then [key] + kept else kept
  }

  predicate Distinct(keys: seq<Key>) {
    forall i, j :: 0 <= i < j < |keys| ==> keys[i] != keys[j]
  }

  // ----- Remove -----

  lemma {:induction false} RemoveAbsent(keys: seq<Key>, key: Key)
    requires key !in keys
    ensures Remove(keys, key) == keys
  {
    if keys != [] { RemoveAbsent(keys[1..], key); }
  }

  lemma {:induction false} RemoveAt(keys: seq<Key>, i: nat)
    requires Distinct(keys) && i < |keys|
    ensures Remove(keys, keys[i]) == keys[..i] + keys[i + 1..]
  {
    if i > 0 {
      RemoveAt(keys[1..], i - 1);
      assert keys[..i] == [keys[0]] + keys[1..][..i - 1];
    }
  }

  lemma {:induction false} RemoveMembers(keys: seq<Key>, key: Key)
    requires Distinct(keys)
    ensures forall k :: k in Remove(keys, key) <==> k in keys && k != key
    ensures Distinct(Remove(keys, key))
    ensures |Remove(keys, key)| == if key in keys then |keys| - 1 else |keys|
  {
    if key in keys {
      var i :| 0 <= i < |keys| && keys[i] == key;
      RemoveAt(keys, i);
    } else {
      RemoveAbsent(keys, key);
    }
  }

  /** The representation invariant on keys: distinct, and never more than `size`. */
  lemma StepKeepsShape(size: nat, keys: seq<Key>, key: Key, ok: bool)
    requires size >= 1 && Distinct(keys) && |keys| <= size
    ensures var next := LruStep(size, keys, key, ok);
            && Distinct(next) && |next| <= size
            && (ok || key in keys ==> next != [] && next[0] == key)
            && (!ok && key !in keys ==> key !in next)
  {
    RemoveMembers(keys, key);
  }

  // ----- recency -----

  /** The distinct keys of a history, most recently used first. */
  function Recency(history: seq<Key>): seq<Key> {
    if history == [] then [] else Touch(Recency(history[..|history| - 1]), history[|history| - 1])
  }

  /** One more than the position of the last use of a key; zero when it was never used. */
  function LastUse(history: seq<Key>, key: Key): nat {
    if history == [] then 0
    else if history[|history| - 1] == key then |history|
    else LastUse(history[..|history| - 1], key)
  }

  ghost predicate ByLastUse(keys: seq<Key>, history: seq<Key>) {
    && (forall k :: k in keys <==> LastUse(history, k) > 0)
    && forall i, j :: 0 <= i < j < |keys| ==> LastUse(history, keys[i]) > LastUse(history, keys[j])
  }

  lemma {:induction false} LastUseBound(history: seq<Key>, key: Key)
    ensures LastUse(history, key) <= |history|
    ensures LastUse(history, key) > 0 <==> key in history
  {
    if history != [] { LastUseBound(history[..|history| - 1], key); }
  }

  /** Moving the key just used to the front keeps the order by last use. */
  lemma TouchByLastUse(keys: seq<Key>, history: seq<Key>, key: Key)
    requires Distinct(keys) && ByLastUse(keys, history)
    ensures ByLastUse(Touch(keys, key), history + [key])
  {
    assert (history + [key])[..|history|] == history;
    forall k ensures LastUse(history + [key], k) == if k == key then |history| + 1 else LastUse(history, k) {
      LastUseBound(history, k);
    }
    RemoveMembers(keys, key);
    var r := Remove(keys, key);
    forall i, j | 0 <= i < j < |r| ensures LastUse(history, r[i]) > LastUse(history, r[j]) {
      RemoveKeepsOrder(keys, key, i, j);
    }
    forall k | k in keys ensures LastUse(history, k) <= |history| {
      LastUseBound(history, k);
    }
  }

  lemma {:induction false} RemoveKeepsOrder(keys: seq<Key>, key: Key, i: nat, j: nat)
    requires i < j < |Remove(keys, key)|
    ensures exists i', j' :: 0 <= i' < j' < |keys| && keys[i'] == Remove(keys, key)[i] && keys[j'] == Remove(keys, key)[j]
  {
    if keys[0] == key {
      assert keys[i + 1] == Remove(keys, key)[i] && keys[j + 1] == Remove(keys, key)[j];
    } else {
      var j0 := RemoveOrigin(keys[1..], key, j - 1);
      assert keys[j0 + 1] == Remove(keys, key)[j];
      if i > 0 {
        RemoveKeepsOrder(keys[1..], key, i - 1, j - 1);
        var i', j' :| 0 <= i' < j' < |keys[1..]| && keys[1..][i'] == Remove(keys[1..], key)[i - 1]
                      && keys[1..][j'] == Remove(keys[1..], key)[j - 1];
        assert keys[i' + 1] == Remove(keys, key)[i] && keys[j' + 1] == Remove(keys, key)[j];
      } else {
        assert keys[0] == Remove(keys, key)[0];
      }
    }
  }

  lemma {:induction false} RemoveOrigin(keys: seq<Key>, key: Key, j: nat) returns (j0: nat)
    requires j < |Remove(keys, key)|
    ensures j0 < |keys| && keys[j0] == Remove(keys, key)[j]
  {
    if keys[0] == key {
      j0 := j + 1;
    } else if j == 0 {
      j0 := 0;
    } else {
      j0 := RemoveOrigin(keys[1..], key, j - 1);
      j0 := j0 + 1;
    }
  }

  /** Recency lists exactly the used keys, each once, by decreasing last use. */
  lemma {:induction false} RecencyIsByLastUse(history: seq<Key>)
    ensures Distinct(Recency(history)) && ByLastUse(Recency(history), history)
  {
    if history != [] {
      var n := |history| - 1;
      RecencyIsByLastUse(history[..n]);
      RemoveMembers(Recency(history[..n]), history[n]);
      TouchByLastUse(Recency(history[..n]), history[..n], history[n]);
      assert history[..n] + [history[n]] == history;
    }
  }

  function Take(keys: seq<Key>, n: nat): seq<Key> { if |keys| <= n then keys else keys[..n] }

  /** The key list after a lookup sequence; `ok(key)` says whether fetching the key succeeds. */
  function RunLru(size: nat, ok: Key -> bool, history: seq<Key>): seq<Key> {
    if history == [] then []
    else
      var key := history[|history| - 1];
      LruStep(size, RunLru(size, ok, history[..|history| - 1]), key, ok(key))
  }

  ghost predicate AllOk(ok: Key -> bool, history: seq<Key>) { forall i :: 0 <= i < |history| ==> ok(history[i]) }

  /** Truncating commutes with one lookup. */
  lemma StepOfTake(size: nat, keys: seq<Key>, key: Key)
    requires size >= 1 && Distinct(keys)
    ensures LruStep(size, Take(keys, size), key, true) == Take(Touch(keys, key), size)
  {
    if key !in keys {
      RemoveAbsent(keys, key);
    } else {
      var i :| 0 <= i < |keys| && keys[i] == key;
      RemoveAt(keys, i);
      if i < size {
        HitOfTake(size, keys, i);
      } else {
        MissOfTake(size, keys, i);
      }
    }
  }

  lemma MissOfTake(size: nat, keys: seq<Key>, i: nat)
    requires size >= 1 && Distinct(keys) && size <= i < |keys|
    ensures LruStep(size, Take(keys, size), keys[i], true) == Take(Touch(keys, keys[i]), size)
  {
    var t := keys[..size];
    assert keys[i] !in t;
    RemoveAt(keys, i);
    assert [keys[i]] + t[..size - 1] == ([keys[i]] + (keys[..i] + keys[i + 1..]))[..size];
  }

  lemma HitOfTake(size: nat, keys: seq<Key>, i: nat)
    requires Distinct(keys) && i < |keys| && i < size
    ensures LruStep(size, Take(keys, size), keys[i], true) == Take(Touch(keys, keys[i]), size)
  {
    var t := Take(keys, size);
    assert t[i] == keys[i];
    RemoveAt(t, i);
    RemoveAt(keys, i);
    if |keys| > size {
      assert [keys[i]] + (t[..i] + t[i + 1..]) == ([keys[i]] + (keys[..i] + keys[i + 1..]))[..size];
    }
  }

  /** After any sequence of successful lookups the list is exactly the `size` most recently used
      distinct keys, most recent first. */
  lemma {:induction false} LruHoldsMostRecent(size: nat, ok: Key -> bool, history: seq<Key>)
    requires size >= 1 && AllOk(ok, history)
    ensures RunLru(size, ok, history) == Take(Recency(history), size)
  {
    if history != [] {
      var n := |history| - 1;
      LruHoldsMostRecent(size, ok, history[..n]);
      RecencyIsByLastUse(history[..n]);
      StepOfTake(size, Recency(history[..n]), history[n]);
    }
  }

  // ----- stack inclusion, failing lookups included -----

  ghost predicate KeysOk(keys: seq<Key>, ok: Key -> bool) { forall k :: k in keys ==> ok(k) }

  /** The number of times `slowGetData` was called. */
  function Misses(size: nat, ok: Key -> bool, history: seq<Key>): nat {
    if history == [] then 0
    else
      var init := history[..|history| - 1];
      Misses(size, ok, init) + if history[|history| - 1] in RunLru(size, ok, init) then 0 else 1
  }

  lemma PrefixStep(n: nat, m: nat, small: seq<Key>, big: seq<Key>, key: Key, ok: bool)
    requires 1 <= n <= m && Distinct(big) && |small| <= n && |big| <= m && small <= big
    requires key in big ==> ok
    ensures LruStep(n, small, key, ok) <= LruStep(m, big, key, ok)
  {
    assert Distinct(small);
    if key in small {
      PrefixHit(small, big, key);
    } else if key in big {
      PrefixLaterHit(small, big, key);
    }
  }

  lemma PrefixHit(small: seq<Key>, big: seq<Key>, key: Key)
    requires Distinct(big) && Distinct(small) && small <= big && key in small
    ensures key in big && Touch(small, key) <= Touch(big, key)
  {
    var i :| 0 <= i < |small| && small[i] == key;
    assert big[i] == key;
    RemoveAt(small, i);
    RemoveAt(big, i);
    PrefixWithout(small, big, i);
  }

  lemma PrefixWithout(small: seq<Key>, big: seq<Key>, i: nat)
    requires small <= big && i < |small|
    ensures small[..i] + small[i + 1..] <= big[..i] + big[i + 1..]
  {}

  lemma PrefixLaterHit(small: seq<Key>, big: seq<Key>, key: Key)
    requires Distinct(big) && small <= big && key !in small && key in big
    ensures [key] + small <= Touch(big, key)
  {
    var i :| 0 <= i < |big| && big[i] == key;
    assert forall j :: 0 <= j < |small| ==> small[j] == big[j];
    RemoveAt(big, i);
  }

  /** Stack inclusion: on the same lookups, whether they succeed or throw, the list of a smaller cache
      is a prefix of the list of a larger one, so a hit stays a hit and misses never increase. */
  lemma {:induction false} StackInclusion(n: nat, m: nat, ok: Key -> bool, history: seq<Key>)
    requires 1 <= n <= m
    ensures RunLru(n, ok, history) <= RunLru(m, ok, history)
    ensures Distinct(RunLru(m, ok, history)) && |RunLru(n, ok, history)| <= n && |RunLru(m, ok, history)| <= m
    ensures KeysOk(RunLru(m, ok, history), ok)
    ensures Misses(m, ok, history) <= Misses(n, ok, history)
  {
    if history != [] {
      var init, key := history[..|history| - 1], history[|history| - 1];
      StackInclusion(n, m, ok, init);
      var small, big := RunLru(n, ok, init), RunLru(m, ok, init);
      PrefixStep(n, m, small, big, key, ok(key));
      assert Distinct(small);
      StepKeepsShape(n, small, key, ok(key));
      StepKeepsShape(m, big, key, ok(key));
      RemoveMembers(big, key);
    }
  }

  /** InfCache: everything that was ever fetched successfully. */
  function RunInf(ok: Key -> bool, history: seq<Key>): set<Key> {
    if history == [] then {}
    else
      var key := history[|history| - 1];
      RunInf(ok, history[..|history| - 1]) + if ok(key) then {key} else {}
  }

  function InfMisses(ok: Key -> bool, history: seq<Key>): nat {
    if history == [] then 0
    else
      var init := history[..|history| - 1];
      InfMisses(ok, init) + if history[|history| - 1] in RunInf(ok, init) then 0 else 1
  }

  /** No LRU size misses less than InfCache. */
  lemma {:induction false} InfIsBest(size: nat, ok: Key -> bool, history: seq<Key>)
    requires size >= 1
    ensures forall k :: k in RunLru(size, ok, history) ==> k in RunInf(ok, history)
    ensures InfMisses(ok, history) <= Misses(size, ok, history)
  {
    if history != [] {
      var init, key := history[..|history| - 1], history[|history| - 1];
      InfIsBest(size, ok, init);
      StackInclusion(size, size, ok, init);
      RemoveMembers(RunLru(size, ok, init), key);
    }
  }

  ghost function KeySet(keys: seq<Key>): set<Key> { set k | k in keys }

  lemma KeySetAppend(keys: seq<Key>, key: Key)
    ensures KeySet(keys + [key]) == KeySet(keys) + {key}
  {}

  /** The lookups whose fetch succeeds, or would. */
  function Successes(ok: Key -> bool, history: seq<Key>): seq<Key> {
    if history == [] then []
    else
      var init, key := history[..|history| - 1], history[|history| - 1];
      if ok(key) then Successes(ok, init) + [key] else Successes(ok, init)
  }

  /** How many lookups throw. */
  function Failures(ok: Key -> bool, history: seq<Key>): nat {
    if history == [] then 0
    else Failures(ok, history[..|history| - 1]) + if ok(history[|history| - 1]) then 0 else 1
  }

  /** InfCache misses exactly once for each distinct key that can be fetched, and at every lookup that
      throws. */
  lemma {:induction false} InfMissesOncePerKey(ok: Key -> bool, history: seq<Key>)
    ensures RunInf(ok, history) == KeySet(Successes(ok, history))
    ensures InfMisses(ok, history) == |KeySet(Successes(ok, history))| + Failures(ok, history)
  {
    if history != [] {
      var init, key := history[..|history| - 1], history[|history| - 1];
      InfMissesOncePerKey(ok, init);
      if ok(key) {
        KeySetAppend(Successes(ok, init), key);
        AddCard(KeySet(Successes(ok, init)), key);
      } else {
        RunInfOk(ok, init);
      }
    }
  }

  lemma {:induction false} RunInfOk(ok: Key -> bool, history: seq<Key>)
    ensures forall k :: k in RunInf(ok, history) ==> ok(k)
  {
    if history != [] { RunInfOk(ok, history[..|history| - 1]); }
  }

  lemma AddCard(s: set<Key>, key: Key)
    ensures |s + {key}| == |s| + if key in s then 0 else 1
  {
    if key in s { assert s + {key} == s; }
  }

  // ----- competitiveness -----

  /** A replacement policy on the same lookups, seen from outside: what it holds after each lookup.
      It may load and drop blocks as it likes, but holds at most `h` and always the requested one. */
  ghost predicate Policy(h: nat, history: seq<Key>, held: seq<set<Key>>) {
    |held| == |history| && forall i :: 0 <= i < |held| ==> history[i] in held[i] && |held[i]| <= h
  }

  function Last(held: seq<set<Key>>): set<Key> { if held == [] then {} else held[|held| - 1] }

  /** The number of blocks the policy had to fetch, starting empty. */
  function Loads(held: seq<set<Key>>): nat {
    if held == [] then 0
    else
      var init := held[..|held| - 1];
      Loads(init) + |held[|held| - 1] - Last(init)|
  }

  /** What the LRU list of a size holds after each lookup. */
  ghost function HeldByLru(size: nat, ok: Key -> bool, history: seq<Key>): seq<set<Key>> {
    if history == [] then []
    else HeldByLru(size, ok, history[..|history| - 1]) + [KeySet(RunLru(size, ok, history))]
  }

  /** LRU is such a policy itself, and what it loads is what it misses. */
  lemma {:induction false} LruIsAPolicy(size: nat, ok: Key -> bool, history: seq<Key>)
    requires size >= 1 && AllOk(ok, history)
    ensures Policy(size, history, HeldByLru(size, ok, history))
    ensures Loads(HeldByLru(size, ok, history)) == Misses(size, ok, history)
    ensures Last(HeldByLru(size, ok, history)) == KeySet(RunLru(size, ok, history))
  {
    if history != [] {
      var init, key := history[..|history| - 1], history[|history| - 1];
      LruIsAPolicy(size, ok, init);
      StackInclusion(size, size, ok, init);
      LruLoads(size, RunLru(size, ok, init), key);
      OneMoreHeld(size, history, HeldByLru(size, ok, init), KeySet(RunLru(size, ok, history)));
    }
  }

  lemma OneMoreHeld(size: nat, history: seq<Key>, held: seq<set<Key>>, now: set<Key>)
    requires history != [] && Policy(size, history[..|history| - 1], held) && history[|history| - 1] in now && |now| <= size
    ensures Policy(size, history, held + [now])
    ensures Loads(held + [now]) == Loads(held) + |now - Last(held)| && Last(held + [now]) == now
  {
    assert (held + [now])[..|held|] == held;
    forall i | 0 <= i < |held + [now]| ensures history[i] in (held + [now])[i] && |(held + [now])[i]| <= size {
      if i < |held| { assert history[..|history| - 1][i] in held[i]; }
    }
  }

  lemma LruLoads(size: nat, keys: seq<Key>, key: Key)
    requires size >= 1 && Distinct(keys) && |keys| <= size
    ensures var next := LruStep(size, keys, key, true);
            && key in KeySet(next) && |KeySet(next)| <= size
            && |KeySet(next) - KeySet(keys)| == if key in keys then 0 else 1
  {
    StepKeepsShape(size, keys, key, true);
    var next := LruStep(size, keys, key, true);
    KeySetCard(next);
    RemoveMembers(keys, key);
    if key in keys {
      assert KeySet(next) - KeySet(keys) == {};
    } else {
      assert KeySet(next) - KeySet(keys) == {key};
    }
  }

  lemma {:induction false} KeySetCard(keys: seq<Key>)
    ensures |KeySet(keys)| <= |keys|
  {
    if keys != [] {
      var n := |keys| - 1;
      KeySetCard(keys[..n]);
      KeySetAppend(keys[..n], keys[n]);
      assert keys[..n] + [keys[n]] == keys;
      AddCard(KeySet(keys[..n]), keys[n]);
    }
  }

  /** The state of the phase partition after a history: the number of phases begun, the distinct keys of
      the current one, what the other policy held when it began, what it has held since, and how many
      loads it had done by then. */
  datatype Phase = Phase(count: nat, keys: set<Key>, start: set<Key>, seen: set<Key>, base: nat)

  ghost predicate KeysLead(list: seq<Key>, keys: set<Key>) {
    |keys| <= |list| && KeySet(list[..|keys|]) == keys
  }

  ghost predicate PhaseOk(k: nat, h: nat, list: seq<Key>, misses: nat, last: set<Key>, loads: nat, p: Phase) {
    KeysLead(list, p.keys) && CountsOk(k, h, misses, last, loads, p)
  }

  ghost predicate CountsOk(k: nat, h: nat, misses: nat, last: set<Key>, loads: nat, p: Phase) {
    && p.count >= 1 && 1 <= |p.keys| <= k
    && misses <= k * (p.count - 1) + |p.keys|
    && p.keys <= p.seen && last <= p.seen && |p.start| <= h
    && loads >= p.base + |p.seen - p.start|
    && (p.count == 1 ==> p.start == {})
    && (p.count >= 2 ==> p.base >= (k + 1) + (p.count - 2) * (k + 1 - h))
  }

  lemma SubsetCard(a: set<Key>, b: set<Key>)
    requires a <= b
    ensures |a| <= |b|
  {
    assert b == a + (b - a);
  }

  lemma DifferenceCard(a: set<Key>, b: set<Key>)
    ensures |a - b| >= |a| - |b|
  {
    assert a == (a - b) + (a * b);
    SubsetCard(a * b, b);
  }

  /** Loads of one lookup cover what it adds to everything seen in the phase. */
  lemma SeenGrows(seen: set<Key>, start: set<Key>, last: set<Key>, now: set<Key>)
    requires last <= seen
    ensures |seen + now - start| <= |seen - start| + |now - last|
  {
    assert seen + now - start <= (seen - start) + (now - last);
    SubsetCard(seen + now - start, (seen - start) + (now - last));
    assert |(seen - start) + (now - last)| <= |seen - start| + |now - last|;
  }

  // LRU moves the requested key to the front, so the keys of the phase stay in front.

  lemma MovedToFront(keys: seq<Key>, i: nat)
    requires i < |keys|
    ensures KeySet([keys[i]] + (keys[..i] + keys[i + 1..])) == KeySet(keys)
  {
    assert keys == keys[..i] + [keys[i]] + keys[i + 1..];
  }

  lemma PrefixMoves(keys: seq<Key>, i: nat, n: nat)
    requires i < n <= |keys|
    ensures var front := keys[..n];
            ([keys[i]] + (keys[..i] + keys[i + 1..]))[..n] == [front[i]] + (front[..i] + front[i + 1..])
  {}

  lemma LeadAfterHit(k: nat, list: seq<Key>, keys: set<Key>, key: Key)
    requires k >= 1 && Distinct(list) && KeysLead(list, keys) && key in keys
    ensures key in list && KeysLead(LruStep(k, list, key, true), keys)
  {
    var n := |keys|;
    assert key in list[..n];
    var i :| 0 <= i < n && list[i] == key;
    RemoveAt(list, i);
    PrefixMoves(list, i, n);
    MovedToFront(list[..n], i);
  }

  lemma LeadAfterNew(k: nat, list: seq<Key>, keys: set<Key>, key: Key)
    requires Distinct(list) && |list| <= k && KeysLead(list, keys) && key !in keys && |keys| < k
    ensures KeysLead(LruStep(k, list, key, true), keys + {key})
  {
    var n := |keys|;
    var next := LruStep(k, list, key, true);
    assert key !in list[..n];
    if key in list {
      var i :| 0 <= i < |list| && list[i] == key;
      assert forall j :: 0 <= j < n ==> list[..n][j] == list[j];
      RemoveAt(list, i);
      assert next[..n + 1] == [key] + list[..n];
    } else {
      assert next[..n + 1] == [key] + list[..n];
    }
    assert |keys + {key}| == n + 1;
    assert KeySet([key] + list[..n]) == KeySet(list[..n]) + {key};
  }

  lemma Stay(k: nat, h: nat, list: seq<Key>, misses: nat, last: set<Key>, loads: nat, p: Phase, key: Key, now: set<Key>)
    requires 1 <= h <= k && Distinct(list) && PhaseOk(k, h, list, misses, last, loads, p)
    requires key in p.keys
    ensures key in list
    ensures PhaseOk(k, h, LruStep(k, list, key, true), misses, now, loads + |now - last|, p.(seen := p.seen + now))
  {
    LeadAfterHit(k, list, p.keys, key);
    SeenGrows(p.seen, p.start, last, now);
  }

  lemma Extend(k: nat, h: nat, misses: nat, last: set<Key>, loads: nat, p: Phase, key: Key, now: set<Key>)
    requires 1 <= h <= k && CountsOk(k, h, misses, last, loads, p)
    requires key !in p.keys && |p.keys| < k && key in now
    ensures CountsOk(k, h, misses + 1, now, loads + |now - last|, p.(keys := p.keys + {key}, seen := p.seen + now))
  {
    AddCard(p.keys, key);
    SeenGrows(p.seen, p.start, last, now);
  }

  lemma Begin(k: nat, h: nat, list: seq<Key>, misses: nat, last: set<Key>, loads: nat, p: Phase, key: Key, now: set<Key>)
    requires 1 <= h <= k && Distinct(list) && |list| <= k && PhaseOk(k, h, list, misses, last, loads, p)
    requires key !in p.keys && |p.keys| == k && key in now && |now| <= h
    ensures PhaseOk(k, h, LruStep(k, list, key, true), misses + 1, now, loads + |now - last|,
                    Phase(p.count + 1, {key}, now, now, loads + |now - last|))
  {
    BeginLoads(k, h, last, loads, p, key, now);
    assert LruStep(k, list, key, true)[..1] == [key];
    assert KeySet([key]) == {key};
    assert now - now == {};
    assert misses + 1 <= k * p.count + 1 by { PhaseSum(k, p.count); }
  }

  lemma PhaseSum(k: nat, n: nat)
    requires n >= 1
    ensures k * (n - 1) + k == k * n
  {}

  /** A phase that ends has cost the other policy k + 1 - h loads, and the first one k + 1. */
  lemma BeginLoads(k: nat, h: nat, last: set<Key>, loads: nat, p: Phase, key: Key, now: set<Key>)
    requires 1 <= h <= k && p.count >= 1 && |p.keys| == k && key !in p.keys && key in now
    requires p.keys <= p.seen && last <= p.seen && |p.start| <= h && loads >= p.base + |p.seen - p.start|
    requires p.count == 1 ==> p.start == {}
    requires p.count >= 2 ==> p.base >= (k + 1) + (p.count - 2) * (k + 1 - h)
    ensures loads + |now - last| >= (k + 1) + (p.count - 1) * (k + 1 - h)
  {
    var seen := p.seen + now;
    SeenGrows(p.seen, p.start, last, now);
    AddCard(p.keys, key);
    SubsetCard(p.keys + {key}, seen);
    DifferenceCard(seen, p.start);
    if p.count == 1 {
      assert seen - {} == seen;
    } else {
      PhaseSum(k + 1 - h, p.count - 1);
    }
  }

  /** The phase partition of any lookup sequence, against any policy. */
  lemma {:induction false} Partition(k: nat, h: nat, ok: Key -> bool, history: seq<Key>, held: seq<set<Key>>) returns (p: Phase)
    requires 1 <= h <= k && Policy(h, history, held) && AllOk(ok, history) && history != []
    ensures PhaseOk(k, h, RunLru(k, ok, history), Misses(k, ok, history), Last(held), Loads(held), p)
    ensures Distinct(RunLru(k, ok, history)) && |RunLru(k, ok, history)| <= k
  {
    var n := |history| - 1;
    var init, key, now := history[..n], history[n], held[n];
    if n == 0 {
      p := First(k, h, ok, history, held);
    } else {
      var q := Partition(k, h, ok, init, held[..n]);
      var list := RunLru(k, ok, init);
      p := Advance(k, h, list, Misses(k, ok, init), Last(held[..n]), Loads(held[..n]), q, key, now);
      StepKeepsShape(k, list, key, true);
    }
  }

  lemma First(k: nat, h: nat, ok: Key -> bool, history: seq<Key>, held: seq<set<Key>>) returns (p: Phase)
    requires 1 <= h <= k && Policy(h, history, held) && AllOk(ok, history) && |history| == 1
    ensures PhaseOk(k, h, RunLru(k, ok, history), Misses(k, ok, history), Last(held), Loads(held), p)
    ensures RunLru(k, ok, history) == [history[0]]
  {
    assert history[..0] == [] && held[..0] == [];
    assert RunLru(k, ok, []) == [] && Misses(k, ok, []) == 0 && Loads([]) == 0;
    KeySetAppend([], history[0]);
    assert [] + [history[0]] == [history[0]] == [history[0]][..1];
    assert Loads(held) == |held[0] - {}|;
    p := Phase(1, {history[0]}, {}, held[0], 0);
  }

  /** One lookup moves the partition: inside the phase, extending it, or beginning the next one. */
  lemma Advance(k: nat, h: nat, list: seq<Key>, misses: nat, last: set<Key>, loads: nat, q: Phase, key: Key, now: set<Key>)
    returns (p: Phase)
    requires 1 <= h <= k && Distinct(list) && |list| <= k && PhaseOk(k, h, list, misses, last, loads, q)
    requires key in now && |now| <= h
    ensures PhaseOk(k, h, LruStep(k, list, key, true), misses + (if key in list then 0 else 1), now, loads + |now - last|, p)
  {
    if key in q.keys {
      Stay(k, h, list, misses, last, loads, q, key, now);
      p := q.(seen := q.seen + now);
    } else if |q.keys| < k {
      LeadAfterNew(k, list, q.keys, key);
      Extend(k, h, misses, last, loads, q, key, now);
      p := q.(keys := q.keys + {key}, seen := q.seen + now);
    } else {
      Begin(k, h, list, misses, last, loads, q, key, now);
      p := Phase(q.count + 1, {key}, now, now, loads + |now - last|);
    }
  }

  /** Competitiveness.  On every sequence of successful lookups, a cache of k blocks and any other policy that holds
      at most h <= k blocks, both starting empty: (k - h + 1) times the LRU misses is at most k times the
      other policy's loads. */
  lemma LruIsCompetitive(k: nat, h: nat, ok: Key -> bool, history: seq<Key>, held: seq<set<Key>>)
    requires 1 <= h <= k && Policy(h, history, held) && AllOk(ok, history)
    ensures (k - h + 1) * Misses(k, ok, history) <= k * Loads(held)
  {
    if history != [] {
      var p := Partition(k, h, ok, history, held);
      Settle(k, h, Misses(k, ok, history), Last(held), Loads(held), p);
    }
  }

  lemma Settle(k: nat, h: nat, misses: nat, last: set<Key>, loads: nat, p: Phase)
    requires 1 <= h <= k && CountsOk(k, h, misses, last, loads, p)
    ensures (k - h + 1) * misses <= k * loads
  {
    SubsetCard(p.keys, p.seen);
    DifferenceCard(p.seen, p.start);
    assert p.count == 1 ==> p.seen - p.start == p.seen;
    Balance(k, h, misses, loads, p.count, |p.keys|, p.base);
  }

  /** The same size on both sides: at most k times as many calls of `slowGetData`. */
  lemma LruAtMostKTimes(k: nat, ok: Key -> bool, history: seq<Key>, held: seq<set<Key>>)
    requires k >= 1 && Policy(k, history, held) && AllOk(ok, history)
    ensures Misses(k, ok, history) <= k * Loads(held)
  {
    LruIsCompetitive(k, k, ok, history, held);
  }

  /** Lookups that throw cost little: with k blocks and throwing lookups the list always starts with that
      of k - 1 blocks on the successful lookups alone, so it misses no more often besides the throws. */
  lemma {:induction false} FailuresCostOneLine(k: nat, ok: Key -> bool, history: seq<Key>)
    requires k >= 2
    ensures RunLru(k - 1, ok, Successes(ok, history)) <= RunLru(k, ok, history)
    ensures Distinct(RunLru(k, ok, history)) && |RunLru(k, ok, history)| <= k && KeysOk(RunLru(k, ok, history), ok)
    ensures |RunLru(k - 1, ok, Successes(ok, history))| <= k - 1
    ensures Misses(k, ok, history) <= Misses(k - 1, ok, Successes(ok, history)) + Failures(ok, history)
  {
    if history != [] {
      var init, key := history[..|history| - 1], history[|history| - 1];
      FailuresCostOneLine(k, ok, init);
      StackInclusion(k, k, ok, history);
      StackInclusion(k - 1, k - 1, ok, Successes(ok, history));
      if ok(key) {
        var some := Successes(ok, init);
        assert (some + [key])[..|some|] == some;
        PrefixStep(k - 1, k, RunLru(k - 1, ok, some), RunLru(k, ok, init), key, true);
      }
    }
  }

  /** c times a is at most k times b. */
  ghost predicate AtMost(c: int, a: int, k: int, b: int) { c * a <= k * b }

  /** Competitiveness on every lookup sequence, throwing lookups included: they count once each on both
      sides, and one block of LRU capacity is set aside for what they evict. */
  lemma LruIsCompetitiveDespiteFailures(k: nat, h: nat, ok: Key -> bool, history: seq<Key>, held: seq<set<Key>>)
    requires 1 <= h < k && Policy(h, Successes(ok, history), held)
    ensures AtMost(k - h, Misses(k, ok, history) - Failures(ok, history), k - 1, Loads(held))
  {
    var fewer := FewerMisses(k, h, ok, history, held);
    SetAside(k, h, Misses(k, ok, history), Failures(ok, history), fewer, Loads(held));
  }

  lemma FewerMisses(k: nat, h: nat, ok: Key -> bool, history: seq<Key>, held: seq<set<Key>>) returns (fewer: nat)
    requires 1 <= h < k && Policy(h, Successes(ok, history), held)
    ensures Misses(k, ok, history) <= fewer + Failures(ok, history)
    ensures AtMost(k - 1 - h + 1, fewer, k - 1, Loads(held))
  {
    fewer := Misses(k - 1, ok, Successes(ok, history));
    FailuresCostOneLine(k, ok, history);
    CompetitiveOnSuccesses(k - 1, h, ok, history, held);
  }

  lemma CompetitiveOnSuccesses(k: nat, h: nat, ok: Key -> bool, history: seq<Key>, held: seq<set<Key>>)
    requires 1 <= h <= k && Policy(h, Successes(ok, history), held)
    ensures AtMost(k - h + 1, Misses(k, ok, Successes(ok, history)), k, Loads(held))
  {
    SuccessesOk(ok, history);
    LruIsCompetitive(k, h, ok, Successes(ok, history), held);
  }

  lemma SetAside(k: nat, h: nat, misses: nat, failures: nat, fewer: nat, loads: nat)
    requires 1 <= h < k && misses <= fewer + failures && AtMost(k - 1 - h + 1, fewer, k - 1, loads)
    ensures AtMost(k - h, misses - failures, k - 1, loads)
  {
    var c := k - h;
    assert k - 1 - h + 1 == c;
    MulMonotone(c, misses - failures, fewer);
  }

  lemma {:induction false} SuccessesOk(ok: Key -> bool, history: seq<Key>)
    ensures AllOk(ok, Successes(ok, history))
  {
    if history != [] { SuccessesOk(ok, history[..|history| - 1]); }
  }

  lemma Balance(k: nat, h: nat, misses: nat, loads: nat, count: nat, s: nat, base: nat)
    requires 1 <= h <= k && count >= 1 && 1 <= s <= k
    requires misses <= k * (count - 1) + s
    requires loads >= base && (s > h ==> loads >= base + (s - h))
    requires count == 1 ==> loads >= s
    requires count >= 2 ==> base >= (k + 1) + (count - 2) * (k + 1 - h)
    ensures (k - h + 1) * misses <= k * loads
  {
    var r := k - h + 1;
    if count == 1 {
      BalanceOne(k, r, misses, loads, s);
    } else {
      var c := count - 2;
      assert count - 1 == c + 1;
      BalanceMany(k, h, r, misses, loads, c, s, if s > h then s - h else 0);
    }
  }

  lemma BalanceOne(k: nat, r: nat, misses: nat, loads: nat, s: nat)
    requires misses <= s <= loads && r <= k
    ensures r * misses <= k * loads
  {
    MulMonotone(r, misses, loads);
    MulMonotone(loads, r, k);
  }

  lemma BalanceMany(k: nat, h: nat, r: nat, misses: nat, loads: nat, c: nat, s: nat, extra: nat)
    requires 1 <= h <= k && r == k - h + 1 && 1 <= s <= k && extra == (if s > h then s - h else 0)
    requires misses <= k * (c + 1) + s && loads >= (k + 1) + c * r + extra
    ensures r * misses <= k * loads
  {
    BalanceLater(k, h, r, c, s, extra);
    Chain(r, misses, k * (c + 1) + s, k, (k + 1) + c * r + extra, loads);
  }

  lemma Chain(r: nat, x: int, y: int, k: nat, z: int, w: int)
    requires x <= y && r * y <= k * z && z <= w
    ensures r * x <= k * w
  {
    MulMonotone(r, x, y);
    MulMonotone(k, z, w);
  }

  lemma BalanceLater(k: nat, h: nat, r: nat, c: nat, s: nat, extra: nat)
    requires 1 <= h <= k && r == k - h + 1 && 1 <= s <= k && extra == (if s > h then s - h else 0)
    ensures r * (k * (c + 1) + s) <= k * ((k + 1) + c * r + extra)
  {
    // Both sides share r * k * c; what remains is r * k + r * s against k * (k + 1) + k * extra.
    MulDist(k, c, 1);
    MulDist(r, k * c + k, s);
    MulDist(r, k * c, k);
    MulDist(k, (k + 1) + c * r, extra);
    MulDist(k, k + 1, c * r);
    Rotate(r, k, c);
    Remainder(k, h, r, s, extra);
  }

  lemma Rotate(r: int, k: int, c: int)
    ensures r * (k * c) == k * (c * r)
  {}

  lemma Remainder(k: nat, h: nat, r: nat, s: nat, extra: nat)
    requires 1 <= h <= k && r == k - h + 1 && 1 <= s <= k && extra == (if s > h then s - h else 0)
    ensures r * k + r * s <= k * (k + 1) + k * extra
  {
    // r * k == k * (k + 1) - k * h, so it is enough that r * s <= k * h + k * extra.
    MulDist(k, k + 1, 0 - h);
    if s > h {
      MulDist(k, h, extra);
      MulMonotone(s, r, k);
    } else {
      MulMonotone(r, s, h);
      MulMonotone(h, r, k);
    }
  }
}
