/** The three basic-block caches of src/hart/hart.cc, and the block builder they call on a miss. */
module Caches {
  import opened Bits
  import opened Wrappers
  import opened FlatMemory
  import opened PagedMemory
  import opened Instructions
  import opened DecoderTable
  import opened Machine
  import opened BlockCache
  import opened Interpreter
  import opened BasicBlock
  import opened BlockRun

  /** The closure that `run` passes to the cache: `createBB` over the hart's memory and decoder. */
  class BlockSource {
    const mem: Memory
    const table: seq<Entry>
    ghost const cpu: Cpu

    constructor (mem: Memory, table: seq<Entry>)
      ensures this.mem == mem && this.table == table && cpu == SimCpu(table)
      ensures DecodeWired(cpu, table) && ExecWired(cpu)
    {
      this.mem := mem;
      this.table := table;
      cpu := SimCpu(table);
    }

    ghost predicate Ready()
      reads mem, mem.Repr
    {
      mem.Valid() && DecodeWired(cpu, table)
    }

    /** Building blocks reads memory: its contents stay, whatever the TLB did. */
    twostate predicate Kept()
      reads mem, mem.Repr
    {
      && Ready() && mem.model.flat == old(mem.model.flat) && mem.Repr == old(mem.Repr)
      && mem.isProgramStored == old(mem.isProgramStored)
    }

    ghost function Built(a: Word): Built
      reads mem
    {
      Build(cpu, mem.model.flat, a)
    }

    /** What `slowGetData(a)` answers, when it returns. */
    ghost function Answer(a: Word): Fetched
      reads mem
    {
      BasicBlock.Answer(Built(a))
    }

    /** One fetch and decode. */
    method FetchDecode(a: Word) returns (r: Result<Instruction, Error>)
      requires Ready()
      modifies mem, mem.Repr
      ensures Kept()
      ensures r == cpu.decodeAt(mem.model.flat, a)
    {
      ghost var m := mem.model.flat;
      assert cpu.decodeAt(m, a) == DecodeAt(table, m, a);
      TlbInvisible(mem.model, W32, a, 0);
      ComposeBound(m, a);
      var word := mem.LoadEntity(W32, a);
      if word.Failure? {
        return Failure(MemoryError(word.error));
      }
      var inst := Decode(table, word.value);
      if inst.optype == UNKNOWN {
        return Failure(UnknownInstruction);
      }
      return Success(inst);
    }

    /** One round of the loop in `createBB`. */
    method DecodeNext(ghost entry: Word, ghost bb: Block, addr: Word) returns (r: Result<Instruction, Error>)
      requires Ready() && Decoding(cpu, mem.model.flat, entry, bb, false) && addr == Offset(entry, |bb|)
      modifies mem, mem.Repr
      ensures Kept()
      ensures match r
              case Failure(e) => Built(entry) == Fault(e)
              case Success(inst) =>
                && Decoding(cpu, mem.model.flat, entry, bb + [inst], inst.isBranch)
                && (inst.isBranch ==> Built(entry) == Block(bb + [inst]))
    {
      ghost var m := mem.model.flat;
      r := FetchDecode(addr);
      DecodingNext(cpu, m, entry, bb, r);
    }

    /** `createBB`: decode until the first branch.  It returns or throws as `Build` says; it is called only
        where it does either. */
    method CreateBB(entry: Word) returns (r: Fetched)
      requires Ready() && Built(entry) != Endless
      modifies mem, mem.Repr
      ensures Kept()
      ensures r == old(Answer(entry))
    {
      ghost var m := mem.model.flat;
      DecodingStarts(cpu, m, entry);
      var bb: Block := [];
      var addr := entry;
      var isBranch := false;
      OffsetNext(entry, 0);
      while !isBranch
        invariant Kept()
        invariant addr == Offset(entry, |bb|)
        invariant Decoding(cpu, m, entry, bb, isBranch)
        invariant isBranch ==> Build(cpu, m, entry) == Block(bb)
        decreases WORDS - |bb|, !isBranch
      {
        var inst := DecodeNext(entry, bb, addr);
        if inst.Failure? {
          return Failure(inst.error);
        }
        isBranch := inst.value.isBranch;
        bb := bb + [inst.value];
        OffsetNext(entry, |bb| - 1);
        addr := AddW(addr, XLEN_BYTES);
      }
      r := Success(bb);
    }
  }

  // ----- no cache and the infinite cache -----

  class NoCache {
    constructor () {}

    method LookupUpdate(key: Word, source: BlockSource) returns (r: Fetched)
      requires source.Ready() && source.Built(key) != Endless
      modifies source.mem, source.mem.Repr
      ensures source.Kept()
      ensures (r, No) == Lookup(No, key, old(source.Answer(key)))
    {
      r := source.CreateBB(key);
    }
  }

  class InfCache {
    var hash: map<Word, Block>

    constructor ()
      ensures hash == map[]
    {
      hash := map[];
    }

    method LookupUpdate(key: Word, source: BlockSource) returns (r: Fetched)
      requires source.Ready() && this as object !in {source.mem} + source.mem.Repr
      requires key in hash || source.Built(key) != Endless
      modifies this, source.mem, source.mem.Repr
      ensures source.Kept()
      ensures (r, Inf(hash)) == Lookup(Inf(old(hash)), key, old(source.Answer(key)))
      ensures key in old(hash) ==> unchanged(source.mem, source.mem.Repr)
    {
      if key in hash {
        return Success(hash[key]);
      }
      r := source.CreateBB(key);
      if r.Success? {
        hash := hash[key := r.value];
      }
    }
  }

  // ----- the LRU cache -----

  /** A node of `std::list<std::pair<Addr, BasicBlock>>`. */
  class Node {
    const key: Word
    const block: Block
    var prev: Node?
    var next: Node?

    constructor (key: Word, block: Block)
      ensures this.key == key && this.block == block
    {
      this.key := key;
      this.block := block;
      prev, next := null, null;
    }
  }

  ghost function LinesOf(nodes: seq<Node>): (lines: seq<Line>)
    ensures |lines| == |nodes|
    ensures forall i :: 0 <= i < |nodes| ==> lines[i] == Line(nodes[i].key, nodes[i].block)
  {
    seq(|nodes|, i requires 0 <= i < |nodes| => Line(nodes[i].key, nodes[i].block))
  }

  /** The doubly linked list. */
  class BlockList {
    var head: Node?
    var tail: Node?
    var count: nat
    ghost var nodes: seq<Node>

    ghost predicate Linked()
      reads this, nodes
    {
      && count == |nodes|
      && (nodes == [] ==> head == null && tail == null)
      && (nodes != [] ==> head == nodes[0] && tail == nodes[|nodes| - 1] && nodes[0].prev == null && nodes[|nodes| - 1].next == null)
      && (forall i {:trigger nodes[i].next} :: 0 <= i < |nodes| - 1 ==> nodes[i].next == nodes[i + 1])
      && (forall i {:trigger nodes[i].prev} :: 1 <= i < |nodes| ==> nodes[i].prev == nodes[i - 1])
      && (forall i, j :: 0 <= i < j < |nodes| ==> nodes[i] != nodes[j])
    }

    constructor ()
      ensures Linked() && nodes == []
    {
      head, tail, count, nodes := null, null, 0, [];
    }

    /** Take a node out: the first half of `splice`, and all of `pop_back`. */
    method Unlink(n: Node, ghost i: nat)
      requires Linked() && i < |nodes| && nodes[i] == n
      modifies this, nodes
      ensures Linked() && nodes == old(nodes)[..i] + old(nodes)[i + 1..]
    {
      if n.prev == null {
        head := n.next;
      } else {
        n.prev.next := n.next;
      }
      if n.next == null {
        tail := n.prev;
      } else {
        n.next.prev := n.prev;
      }
      count := count - 1;
      nodes := nodes[..i] + nodes[i + 1..];
    }

    /** Put a node in front: the second half of `splice`, and all of `emplace_front`. */
    method PushFront(n: Node)
      requires Linked() && n !in nodes
      modifies this, nodes, n
      ensures Linked() && nodes == [n] + old(nodes)
    {
      n.prev := null;
      n.next := head;
      if head == null {
        tail := n;
      } else {
        head.prev := n;
      }
      head := n;
      count := count + 1;
      nodes := [n] + nodes;
    }

    /** `splice` of a node of this list to its own front. */
    method Splice(n: Node, ghost i: nat)
      requires Linked() && i < |nodes| && nodes[i] == n
      modifies this, nodes
      ensures Linked() && nodes == [n] + (old(nodes)[..i] + old(nodes)[i + 1..])
    {
      if n != head {
        Unlink(n, i);
        PushFront(n);
      }
    }

    method EmplaceFront(key: Word, block: Block) returns (n: Node)
      requires Linked()
      modifies this, nodes
      ensures Linked() && fresh(n) && n.key == key && n.block == block && nodes == [n] + old(nodes)
    {
      n := new Node(key, block);
      PushFront(n);
    }
  }

  /** The hash holds exactly the listed keys, each with the node that carries it; keys are distinct. */
  ghost predicate Indexed(nodes: seq<Node>, hash: map<Word, Node>) {
    && (forall i, j :: 0 <= i < j < |nodes| ==> nodes[i].key != nodes[j].key)
    && (forall i :: 0 <= i < |nodes| ==> nodes[i].key in hash && hash[nodes[i].key] == nodes[i])
    && (forall k :: k in hash ==> hash[k] in nodes && hash[k].key == k)
  }

  lemma IndexedFind(nodes: seq<Node>, hash: map<Word, Node>, key: Word) returns (i: nat)
    requires Indexed(nodes, hash)
    ensures key in hash ==> i < |nodes| && nodes[i] == hash[key]
    ensures key !in hash ==> i == |nodes|
    ensures Find(LinesOf(nodes), key) == i
  {
    i := Find(LinesOf(nodes), key);
    if key in hash {
      var j :| 0 <= j < |nodes| && nodes[j] == hash[key];
      assert LinesOf(nodes)[j].key == key;
    }
  }

  lemma IndexedMoved(nodes: seq<Node>, hash: map<Word, Node>, i: nat)
    requires Indexed(nodes, hash) && i < |nodes|
    ensures Indexed([nodes[i]] + (nodes[..i] + nodes[i + 1..]), hash)
  {
    MovedMembers(nodes, i);
    IndexedSame(nodes, [nodes[i]] + (nodes[..i] + nodes[i + 1..]), hash);
  }

  /** The order of the nodes does not matter. */
  lemma IndexedSame(nodes: seq<Node>, after: seq<Node>, hash: map<Word, Node>)
    requires Indexed(nodes, hash)
    requires forall n :: n in after <==> n in nodes
    requires forall i, j :: 0 <= i < j < |after| ==> after[i] != after[j]
    ensures Indexed(after, hash)
  {
    forall i | 0 <= i < |after| ensures after[i].key in hash && hash[after[i].key] == after[i] {
      assert after[i] in nodes;
    }
  }

  lemma MovedMembers(nodes: seq<Node>, i: nat)
    requires i < |nodes| && forall j, k :: 0 <= j < k < |nodes| ==> nodes[j].key != nodes[k].key
    ensures var after := [nodes[i]] + (nodes[..i] + nodes[i + 1..]);
            && (forall n :: n in after <==> n in nodes)
            && (forall j, k :: 0 <= j < k < |after| ==> after[j] != after[k])
  {
    assert nodes == nodes[..i] + [nodes[i]] + nodes[i + 1..];
  }

  lemma IndexedGrown(nodes: seq<Node>, hash: map<Word, Node>, n: Node)
    requires Indexed(nodes, hash) && n.key !in hash
    ensures Indexed([n] + nodes, hash[n.key := n])
  {}

  lemma LinesGrown(nodes: seq<Node>, n: Node)
    ensures LinesOf([n] + nodes) == [Line(n.key, n.block)] + LinesOf(nodes)
  {}

  /** A hit, on nodes and on lines. */
  lemma HitLines(nodes: seq<Node>, hash: map<Word, Node>, size: nat, key: Word, i: nat, f: Fetched)
    requires Indexed(nodes, hash) && key in hash && i < |nodes| && nodes[i] == hash[key]
    ensures LruLookup(size, LinesOf(nodes), key, f)
            == (Success(nodes[i].block), LinesOf([nodes[i]] + (nodes[..i] + nodes[i + 1..])))
  {
    var j := IndexedFind(nodes, hash, key);
    var lines := LinesOf(nodes);
    assert nodes[j] == nodes[i];
    assert LinesOf([nodes[i]] + (nodes[..i] + nodes[i + 1..])) == [lines[i]] + (lines[..i] + lines[i + 1..]);
  }

  /** The nodes that a miss keeps. */
  ghost function KeptNodes(nodes: seq<Node>, size: nat): seq<Node>
    requires size >= 1
  {
    if |nodes| == size then nodes[..size - 1] else nodes
  }

  lemma MissLines(nodes: seq<Node>, hash: map<Word, Node>, size: nat, key: Word, f: Fetched)
    requires Indexed(nodes, hash) && key !in hash && size >= 1
    ensures LruLookup(size, LinesOf(nodes), key, f)
            == (f, (if f.Success? then [Line(key, f.value)] else []) + LinesOf(KeptNodes(nodes, size)))
  {
    var i := IndexedFind(nodes, hash, key);
    var lines := LinesOf(nodes);
    assert LinesOf(KeptNodes(nodes, size)) == if |lines| == size then lines[..size - 1] else lines;
    assert [] + LinesOf(KeptNodes(nodes, size)) == LinesOf(KeptNodes(nodes, size));
  }

  class LRUCache {
    const size: nat
    const list: BlockList
    var hash: map<Word, Node>
    ghost var Repr: set<object>

    /** Distinct keys, a hash that mirrors the list, and never more than `size` blocks, with `size` at least
        one: so `back()` is never taken on an empty list. */
    ghost predicate Valid()
      reads this, Repr
    {
      && this in Repr && list in Repr && (forall n :: n in list.nodes ==> n in Repr)
      && size >= 1 && list.Linked() && Indexed(list.nodes, hash) && |list.nodes| <= size
    }

    ghost function Lines(): seq<Line>
      reads list
    {
      LinesOf(list.nodes)
    }

    constructor (size: nat)
      requires size >= 1
      ensures Valid() && this.size == size && Lines() == [] && fresh(Repr)
    {
      this.size := size;
      list := new BlockList();
      hash := map[];
      new;
      Repr := {this, list};
    }

    /** A hit: the node moves to the front. */
    method Splice(n: Node, ghost i: nat)
      requires Valid() && i < |list.nodes| && list.nodes[i] == n
      modifies list, list.nodes
      ensures Valid() && list.nodes == [n] + (old(list.nodes)[..i] + old(list.nodes)[i + 1..])
    {
      IndexedMoved(list.nodes, hash, i);
      list.Splice(n, i);
    }

    /** Drop the least recently used block. */
    method PopBack()
      requires Valid() && list.nodes != []
      modifies this`hash, list, list.nodes
      ensures Valid() && list.nodes == old(list.nodes)[..|old(list.nodes)| - 1]
      ensures forall k :: k in hash ==> k in old(hash)
    {
      var n := list.tail;
      ghost var before := list.nodes;
      hash := hash - {n.key};
      list.Unlink(n, |list.nodes| - 1);
      assert list.nodes == before[..|before| - 1];
    }

    /** `emplace_front` and the entry in the hash, for a block that is not in the cache. */
    method EmplaceFront(key: Word, block: Block) returns (n: Node)
      requires Valid() && key !in hash && |list.nodes| < size
      modifies this, list, list.nodes
      ensures Valid() && fresh(n) && Repr == old(Repr) + {n}
      ensures n.key == key && n.block == block && list.nodes == [n] + old(list.nodes)
    {
      ghost var before := list.nodes;
      n := list.EmplaceFront(key, block);
      IndexedGrown(before, hash, n);
      hash := hash[key := n];
      Repr := Repr + {n};
    }

    method Hit(key: Word, ghost f: Fetched, ghost others: set<object>) returns (r: Fetched)
      requires Valid() && key in hash && Repr !! others
      modifies list, list.nodes
      ensures Valid() && (r, Lines()) == LruLookup(size, old(Lines()), key, f)
      ensures unchanged(others)
    {
      ghost var i := IndexedFind(list.nodes, hash, key);
      HitLines(list.nodes, hash, size, key, i, f);
      var n := hash[key];
      Splice(n, i);
      assert list.nodes[0] == n;
      r := Success(list.head.block);
    }

    method MakeRoom()
      requires Valid()
      modifies this`hash, list, list.nodes
      ensures Valid() && list.nodes == KeptNodes(old(list.nodes), size) && |list.nodes| < size
      ensures forall k :: k in hash ==> k in old(hash)
    {
      if list.count == size {
        PopBack();
      }
    }

    method Miss(key: Word, source: BlockSource) returns (r: Fetched)
      requires Valid() && source.Ready() && Repr !! {source.mem} + source.mem.Repr
      requires key !in hash && source.Built(key) != Endless
      modifies Repr, source.mem, source.mem.Repr
      ensures Valid() && source.Kept()
      ensures fresh(Repr - old(Repr))
      ensures r == old(source.Answer(key))
      ensures Lines() == (if r.Success? then [Line(key, r.value)] else []) + LinesOf(KeptNodes(old(list.nodes), size))
    {
      MakeRoom();
      r := Fetch(key, source);
      if r.Success? {
        Insert(key, r.value, {source.mem} + source.mem.Repr);
      }
    }

    method Insert(key: Word, block: Block, ghost others: set<object>)
      requires Valid() && key !in hash && |list.nodes| < size && Repr !! others
      modifies this, list, list.nodes
      ensures Valid() && fresh(Repr - old(Repr)) && unchanged(others)
      ensures Lines() == [Line(key, block)] + old(Lines())
    {
      ghost var before := list.nodes;
      var n := EmplaceFront(key, block);
      LinesGrown(before, n);
    }

    /** `slowGetData(key)`: the cache's own objects are out of its reach. */
    method Fetch(key: Word, source: BlockSource) returns (r: Fetched)
      requires Valid() && source.Ready() && Repr !! {source.mem} + source.mem.Repr && source.Built(key) != Endless
      modifies source.mem, source.mem.Repr
      ensures Valid() && unchanged(this, list, list.nodes)
      ensures source.Kept()
      ensures r == old(source.Answer(key))
    {
      r := source.CreateBB(key);
    }

    /** On a hit the block moves to the front and memory is not looked at; on a miss the last block goes when
        the cache is full, then the new one comes in front.  When building it throws, the evicted block stays evicted. */
    method LookupUpdate(key: Word, source: BlockSource) returns (r: Fetched)
      requires Valid() && source.Ready() && Repr !! {source.mem} + source.mem.Repr
      requires key in hash || source.Built(key) != Endless
      modifies Repr, source.mem, source.mem.Repr
      ensures Valid() && source.Kept()
      ensures fresh(Repr - old(Repr))
      ensures (r, Lines()) == LruLookup(size, old(Lines()), key, old(source.Answer(key)))
      ensures key in old(hash) ==> unchanged(source.mem, source.mem.Repr)
    {
      if key in hash {
        r := Hit(key, source.Answer(key), {source.mem} + source.mem.Repr);
      } else {
        MissLines(list.nodes, hash, size, key, source.Answer(key));
        r := Miss(key, source);
      }
    }
  }

  // ----- IBBCache -----

  /** The choice the Hart constructor makes: a negative size means unbounded, zero means no cache. */
  method NewCache(size: int) returns (bbc: BBCache)
    ensures bbc.Valid() && fresh(bbc.Repr()) && bbc.View() == EmptyCache(size)
    ensures if size < 0 then bbc.InfBBC? && bbc.inf.hash == map[]
            else if size == 0 then bbc.NoBBC?
            else bbc.LruBBC? && bbc.lru.size == size && bbc.lru.Lines() == []
  {
    if size < 0 {
      var inf := new InfCache();
      bbc := InfBBC(inf);
    } else if size == 0 {
      var no := new NoCache();
      bbc := NoBBC(no);
    } else {
      var lru := new LRUCache(size);
      bbc := LruBBC(lru);
    }
  }

  /** A pointer to one of the three implementations. */
  datatype BBCache = InfBBC(inf: InfCache) | NoBBC(no: NoCache) | LruBBC(lru: LRUCache) {

    ghost function Repr(): set<object>
      reads if LruBBC? then {lru} else {}
    {
      match this
      case InfBBC(inf) => {inf}
      case NoBBC(no) => {}
      case LruBBC(lru) => lru.Repr
    }

    ghost predicate Valid()
      reads (if LruBBC? then {lru} else {}), Repr()
    {
      LruBBC? ==> lru.Valid()
    }

    ghost function View(): Cache
      reads match this case InfBBC(inf) => {inf as object} case NoBBC(_) => {} case LruBBC(lru) => {lru, lru.list}
    {
      match this
      case InfBBC(inf) => Inf(inf.hash)
      case NoBBC(no) => No
      case LruBBC(lru) => Lru(lru.size, lru.Lines())
    }

    method LookupUpdate(key: Word, source: BlockSource) returns (r: Fetched)
      requires Valid() && source.Ready() && Repr() !! {source.mem} + source.mem.Repr
      requires Hits(View(), key) || source.Built(key) != Endless
      modifies Repr(), source.mem, source.mem.Repr
      ensures Valid() && fresh(Repr() - old(Repr()))
      ensures source.Kept()
      ensures (r, View()) == Lookup(old(View()), key, old(source.Answer(key)))
      ensures old(Hits(View(), key)) ==> unchanged(source.mem, source.mem.Repr)
    {
      match this
      case InfBBC(inf) =>
        r := inf.LookupUpdate(key, source);
      case NoBBC(no) =>
        r := no.LookupUpdate(key, source);
      case LruBBC(lru) =>
        ghost var i := IndexedFind(lru.list.nodes, lru.hash, key);
        r := lru.LookupUpdate(key, source);
    }
  }
}
