/** `createBB`: decoding a straight run of words up to the first branch, over any decoder. */
module BasicBlock {
  import opened Bits
  import opened Wrappers
  import opened FlatMemory
  import opened Instructions
  import opened Machine
  import opened BlockCache
  import opened Interpreter

  // ----- basic blocks -----

  function Offset(a: Word, i: nat): Word { Wrap(a + 4 * i) }

  lemma OffsetNext(a: Word, i: nat)
    ensures Offset(AddW(a, XLEN_BYTES), i) == Offset(a, i + 1)
    ensures AddW(Offset(a, i), XLEN_BYTES) == Offset(a, i + 1)
    ensures Offset(a, 0) == a
  {
    WrapTwice(a + 4, 4 * i);
    WrapTwice(a + 4 * i, 4);
  }

  /** The straight run from `a` up to and including its first branch. */
  ghost predicate IsBlock(cpu: Cpu, m: Flat, a: Word, bb: Block) {
    && |bb| >= 1
    && forall i: nat :: i < |bb| ==> cpu.decodeAt(m, Offset(a, i)) == Success(bb[i]) && (bb[i].isBranch <==> i == |bb| - 1)
  }

  ghost predicate Plain(cpu: Cpu, m: Flat, a: Word) {
    cpu.decodeAt(m, a).Success? && !cpu.decodeAt(m, a).value.isBranch
  }

  /** Decoding from `a` runs into an error at word `i`, before any branch. */
  ghost predicate FailsAt(cpu: Cpu, m: Flat, a: Word, i: nat) {
    && (forall k: nat :: k < i ==> Plain(cpu, m, Offset(a, k)))
    && cpu.decodeAt(m, Offset(a, i)).Failure?
  }

  datatype Built = Block(bb: Block) | Fault(e: Error) | Endless

  /** What `createBB(a)` does: return a block, throw, or never return. */
  ghost function Build(cpu: Cpu, m: Flat, a: Word): Built {
    if bb :| IsBlock(cpu, m, a, bb) then Block(bb)
    else if i: nat :| FailsAt(cpu, m, a, i) then Fault(cpu.decodeAt(m, Offset(a, i)).error)
    else Endless
  }

  /** What a createBB that returns or throws hands to the cache. */
  function Answer(built: Built): Fetched {
    match built
    case Block(bb) => Success(bb)
    case Fault(e) => Failure(e)
    case Endless => Failure(NotImplemented)
  }

  lemma BlockUnique(cpu: Cpu, m: Flat, a: Word, b1: Block, b2: Block)
    requires IsBlock(cpu, m, a, b1) && IsBlock(cpu, m, a, b2)
    ensures b1 == b2
  {
    var n1, n2 := |b1| - 1, |b2| - 1;
    assert n1 < |b2| ==> b2[n1].isBranch;
    assert n2 < |b1| ==> b1[n2].isBranch;
  }

  lemma BuildIsBlock(cpu: Cpu, m: Flat, a: Word, bb: Block)
    requires IsBlock(cpu, m, a, bb)
    ensures Build(cpu, m, a) == Block(bb)
  {
    var other :| IsBlock(cpu, m, a, other);
    forall b | IsBlock(cpu, m, a, b) ensures b == bb { BlockUnique(cpu, m, a, b, bb); }
  }

  lemma FaultUnique(cpu: Cpu, m: Flat, a: Word, i: nat, j: nat)
    requires FailsAt(cpu, m, a, i)
    ensures FailsAt(cpu, m, a, j) ==> j == i
  {
    assert j < i ==> Plain(cpu, m, Offset(a, j));
    assert FailsAt(cpu, m, a, j) && i < j ==> Plain(cpu, m, Offset(a, i));
  }

  lemma NoBlockOverFault(cpu: Cpu, m: Flat, a: Word, i: nat, bb: Block)
    requires FailsAt(cpu, m, a, i)
    ensures !IsBlock(cpu, m, a, bb)
  {
    assert 1 <= |bb| <= i ==> Plain(cpu, m, Offset(a, |bb| - 1));
    assert IsBlock(cpu, m, a, bb) && i < |bb| ==> cpu.decodeAt(m, Offset(a, i)).Success?;
  }

  lemma BuildIsFault(cpu: Cpu, m: Flat, a: Word, i: nat)
    requires FailsAt(cpu, m, a, i)
    ensures Build(cpu, m, a) == Fault(cpu.decodeAt(m, Offset(a, i)).error)
  {
    forall bb ensures !IsBlock(cpu, m, a, bb) { NoBlockOverFault(cpu, m, a, i, bb); }
    forall j: nat ensures FailsAt(cpu, m, a, j) ==> j == i { FaultUnique(cpu, m, a, i, j); }
  }

  // ----- termination of createBB -----

  const WORDS: nat := 0x4000_0000   // 2^30 words in the address space

  lemma OffsetWraps(a: Word, i: nat)
    ensures Offset(a, i) == Offset(a, i % WORDS)
  {
    assert i == WORDS * (i / WORDS) + i % WORDS;
    assert a + 4 * i == (a + 4 * (i % WORDS)) + WORD_LIMIT * (i / WORDS);
  }

  /** Word `k` is the first, within one round of the address space, where decoding stops; or none is. */
  ghost predicate StopsAt(cpu: Cpu, m: Flat, a: Word, k: nat) {
    && k <= WORDS
    && (forall j: nat :: j < k ==> Plain(cpu, m, Offset(a, j)))
    && (k < WORDS ==> !Plain(cpu, m, Offset(a, k)))
  }

  lemma {:induction false} StopExists(cpu: Cpu, m: Flat, a: Word, i: nat) returns (k: nat)
    requires i <= WORDS && forall j: nat :: j < i ==> Plain(cpu, m, Offset(a, j))
    ensures StopsAt(cpu, m, a, k)
    decreases WORDS - i
  {
    if i == WORDS || !Plain(cpu, m, Offset(a, i)) {
      k := i;
    } else {
      k := StopExists(cpu, m, a, i + 1);
    }
  }

  ghost function FirstStop(cpu: Cpu, m: Flat, a: Word): (k: nat)
    ensures StopsAt(cpu, m, a, k)
  {
    assert exists k: nat :: StopsAt(cpu, m, a, k) by {
      var k := StopExists(cpu, m, a, 0);
    }
    var k: nat :| StopsAt(cpu, m, a, k);
    k
  }

  /** The instructions decoded at `n` consecutive words. */
  ghost function Straight(cpu: Cpu, m: Flat, a: Word, n: nat): (bb: Block)
    requires forall i: nat :: i < n ==> cpu.decodeAt(m, Offset(a, i)).Success?
    ensures |bb| == n && forall i: nat :: i < n ==> cpu.decodeAt(m, Offset(a, i)) == Success(bb[i])
  {
    if n == 0 then [] else Straight(cpu, m, a, n - 1) + [cpu.decodeAt(m, Offset(a, n - 1)).value]
  }

  /** `createBB` returns or throws exactly when some word within the 2^30 words from the entry is a branch,
      an unknown word or a fetch fault; otherwise it goes round the address space for ever.  The word
      where it stops is the first such one. */
  lemma BuildStops(cpu: Cpu, m: Flat, a: Word)
    ensures Build(cpu, m, a) != Endless <==> exists i: nat :: i < WORDS && !Plain(cpu, m, Offset(a, i))
    ensures var k, b := FirstStop(cpu, m, a), Build(cpu, m, a);
            && (b.Block? ==> k < WORDS && IsBlock(cpu, m, a, b.bb) && |b.bb| == k + 1)
            && (b.Fault? ==> k < WORDS && FailsAt(cpu, m, a, k) && cpu.decodeAt(m, Offset(a, k)) == Failure(b.e))
            && (b.Endless? ==> k == WORDS)
  {
    var k := FirstStop(cpu, m, a);
    if k < WORDS {
      if cpu.decodeAt(m, Offset(a, k)).Success? {
        var bb := Straight(cpu, m, a, k + 1);
        forall i: nat | i < |bb| ensures bb[i].isBranch <==> i == k {
          if i < k { assert Plain(cpu, m, Offset(a, i)); }
        }
        BuildIsBlock(cpu, m, a, bb);
      } else {
        BuildIsFault(cpu, m, a, k);
      }
    } else {
      EndlessRun(cpu, m, a);
    }
  }

  lemma EndlessRun(cpu: Cpu, m: Flat, a: Word)
    requires forall i: nat :: i < WORDS ==> Plain(cpu, m, Offset(a, i))
    ensures Build(cpu, m, a) == Endless
  {
    forall i: nat ensures Plain(cpu, m, Offset(a, i)) {
      OffsetWraps(a, i);
    }
    forall bb ensures !IsBlock(cpu, m, a, bb) {
      assert |bb| >= 1 ==> Plain(cpu, m, Offset(a, |bb| - 1));
    }
    assert forall i: nat :: !FailsAt(cpu, m, a, i) by {
      assert forall i: nat :: FailsAt(cpu, m, a, i) ==> !Plain(cpu, m, Offset(a, i));
    }
  }

  /** The loop of createBB: `bb` has been decoded from `a` on, and only its last instruction, if that is
      what `done` says, is a branch. */
  ghost predicate Decoding(cpu: Cpu, m: Flat, a: Word, bb: Block, done: bool) {
    if done then IsBlock(cpu, m, a, bb)
    else
      && |bb| <= FirstStop(cpu, m, a) < WORDS
      && forall i: nat :: i < |bb| ==> cpu.decodeAt(m, Offset(a, i)) == Success(bb[i]) && !bb[i].isBranch
  }

  /** One turn of that loop either finishes as `Build` says, or comes closer to the first stop. */
  lemma DecodingNext(cpu: Cpu, m: Flat, a: Word, bb: Block, next: Result<Instruction, Error>)
    requires Decoding(cpu, m, a, bb, false) && next == cpu.decodeAt(m, Offset(a, |bb|))
    ensures match next
            case Failure(e) => Build(cpu, m, a) == Fault(e)
            case Success(inst) => Decoding(cpu, m, a, bb + [inst], inst.isBranch)
    ensures next.Success? && next.value.isBranch ==> Build(cpu, m, a) == Block(bb + [next.value])
  {
    if next.Failure? {
      assert FailsAt(cpu, m, a, |bb|);
      BuildIsFault(cpu, m, a, |bb|);
    } else {
      DecodedMore(cpu, m, a, bb, next.value);
      if next.value.isBranch {
        BuildIsBlock(cpu, m, a, bb + [next.value]);
      }
    }
  }

  lemma DecodedMore(cpu: Cpu, m: Flat, a: Word, bb: Block, inst: Instruction)
    requires Decoding(cpu, m, a, bb, false) && cpu.decodeAt(m, Offset(a, |bb|)) == Success(inst)
    ensures Decoding(cpu, m, a, bb + [inst], inst.isBranch)
  {
    var more := bb + [inst];
    assert forall i: nat :: i < |bb| ==> more[i] == bb[i];
    if !inst.isBranch {
      assert Plain(cpu, m, Offset(a, |bb|));
    }
  }

  lemma DecodingStarts(cpu: Cpu, m: Flat, a: Word)
    requires Build(cpu, m, a) != Endless
    ensures Decoding(cpu, m, a, [], false)
  {
    BuildStops(cpu, m, a);
  }
}
