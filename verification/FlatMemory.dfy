/** The memory a program sees: one byte per address and one mapped/unmapped bit per 4 KiB page.

    `Model` adds what the paged memory with its TLB can be asked about besides bytes: the addresses
    translated so far and the statistics.  The classes of `PagedMemory` implement `Model`; the lemmas
    here say that, over any run, only the `Flat` part of it decides what a load returns.
  */
module FlatMemory {
  import opened Bits
  import opened Wrappers

  const PAGE_SIZE: nat := 4096
  const TLB_SIZE: nat := 1024

  type Byte = b: int | 0 <= b < 256

  /** The three `isSimType` types. */
  datatype Width = W8 | W16 | W32 {
    function Bytes(): (n: nat)
      ensures n == 1 || n == 2 || n == 4
    {
      match this case W8 => 1 case W16 => 2 case W32 => 4
    }

    /** `addr % sizeof(T) == 0`, for each instance of `T`. */
    predicate Divides(a: nat) {
      match this case W8 => true case W16 => a % 2 == 0 case W32 => a % 4 == 0
    }
  }

  datatype MemError = Misaligned | PageFault

  datatype Flat = Flat(mapped: set<nat>, bytes: map<nat, Byte>) {
    function At(a: nat): Byte {
      if a in bytes then bytes[a] else 0
    }

    /** Little-endian composition of `n` bytes. */
    function Compose(a: nat, n: nat): nat
      decreases n
    {
      if n == 0 then 0 else At(a) + 256 * Compose(a + 1, n - 1)
    }

    function Write(a: nat, n: nat, v: nat): Flat
      decreases n
    {
      if n == 0 then this else this.(bytes := bytes[a := v % 256]).Write(a + 1, n - 1, v / 256)
    }

    function Load(w: Width, a: Word): Result<nat, MemError> {
      if !w.Divides(a) then Failure(Misaligned)
      else if a / PAGE_SIZE !in mapped then Failure(PageFault)
      else Success(Compose(a, w.Bytes()))
    }

    function Store(w: Width, a: Word, v: nat): Result<Flat, MemError> {
      if !w.Divides(a) then Failure(Misaligned)
      else Success(this.(mapped := mapped + {a / PAGE_SIZE}).Write(a, w.Bytes(), v))
    }
  }

  const EMPTY := Flat({}, map[])

  /** Byte `k` of a little-endian value. */
  function ByteOf(v: nat, k: nat): Byte
    decreases k
  {
    if k == 0 then v % 256 else ByteOf(v / 256, k - 1)
  }

  lemma {:induction false} WriteEffect(f: Flat, a: nat, n: nat, v: nat, b: nat)
    ensures f.Write(a, n, v).At(b) == if a <= b < a + n then ByteOf(v, b - a) else f.At(b)
    ensures f.Write(a, n, v).mapped == f.mapped
    ensures forall k :: k in f.Write(a, n, v).bytes ==> k in f.bytes || a <= k < a + n
    decreases n
  {
    if n > 0 {
      var g := f.(bytes := f.bytes[a := v % 256]);
      WriteEffect(g, a + 1, n - 1, v / 256, b);
    }
  }

  lemma {:induction false} ComposeReadsOnly(f: Flat, g: Flat, a: nat, n: nat)
    requires forall b: nat :: a <= b < a + n ==> f.At(b) == g.At(b)
    ensures f.Compose(a, n) == g.Compose(a, n)
    decreases n
  {
    if n > 0 { ComposeReadsOnly(f, g, a + 1, n - 1); }
  }

  lemma ComposeBound(f: Flat, a: nat)
    ensures f.Compose(a, 4) < WORD_LIMIT
  {
    assert f.Compose(a + 4, 0) == 0;
    assert f.Compose(a + 3, 1) < 0x100;
    assert f.Compose(a + 2, 2) < 0x1_0000;
    assert f.Compose(a + 1, 3) < 0x100_0000;
  }

  /** Reading back what was stored, whole. */
  lemma StoreThenLoad(f: Flat, w: Width, a: Word, v: nat)
    requires w.Divides(a)
    ensures f.Store(w, a, v).Success?
    ensures f.Store(w, a, v).value.Load(w, a) == Success(v % Pow2(8 * w.Bytes()))
  {
    var g := f.Store(w, a, v).value;
    var m := f.(mapped := f.mapped + {a / PAGE_SIZE});
    forall b: nat ensures g.At(b) == if a <= b < a + w.Bytes() then ByteOf(v, b - a) else m.At(b) {
      WriteEffect(m, a, w.Bytes(), v, b);
    }
    WriteEffect(m, a, w.Bytes(), v, a);
    ComposeIsModulo(g, a, w.Bytes(), v);
  }

  lemma {:induction false} ComposeIsModulo(f: Flat, a: nat, n: nat, v: nat)
    requires forall b: nat :: a <= b < a + n ==> f.At(b) == ByteOf(v, b - a)
    ensures f.Compose(a, n) == v % Pow2(8 * n)
    decreases n
  {
    if n > 0 {
      forall b: nat | a + 1 <= b < a + n ensures f.At(b) == ByteOf(v / 256, b - (a + 1)) {
        assert ByteOf(v, b - a) == ByteOf(v / 256, b - a - 1);
      }
      ComposeIsModulo(f, a + 1, n - 1, v / 256);
      Pow2Values();
      Pow2Add(8, 8 * (n - 1));
      SplitModulo(v, Pow2(8 * (n - 1)));
    }
  }

  lemma SplitModulo(v: nat, c: nat)
    requires c >= 1
    ensures v % (256 * c) == v % 256 + 256 * ((v / 256) % c)
  {
    var q1, r1 := (v / 256) / c, (v / 256) % c;
    assert v / 256 == c * q1 + r1;
    MulAssoc(256, c, q1);
    ModUnique(v, 256 * c, q1, v % 256 + 256 * r1);
  }

  // ----- what a run of loads and stores leaves behind -----

  datatype Op = Load(w: Width, a: Word) | Store(w: Width, a: Word, v: nat)

  predicate Aligned(op: Op) { op.w.Divides(op.a) }

  function RunFlat(f: Flat, ops: seq<Op>): Flat {
    if ops == [] then f
    else
      var op := ops[|ops| - 1];
      var g := RunFlat(f, ops[..|ops| - 1]);
      if op.Store? && Aligned(op) then g.Store(op.w, op.a, op.v).value else g
  }

  /** The last byte stored at `b` by a successful store, and zero when there is none. */
  function LastStored(ops: seq<Op>, b: nat): Byte {
    if ops == [] then 0
    else
      var op := ops[|ops| - 1];
      if op.Store? && Aligned(op) && op.a <= b < op.a + op.w.Bytes() then ByteOf(op.v, b - op.a)
      else LastStored(ops[..|ops| - 1], b)
  }

  ghost predicate PageTouched(ops: seq<Op>, page: nat) {
    exists i :: 0 <= i < |ops| && ops[i].Store? && Aligned(ops[i]) && ops[i].a / PAGE_SIZE == page
  }

  /** After any run from the empty memory, every byte is the last one stored there and the mapped
      pages are those that a successful store touched. */
  lemma {:induction false} FlatHistory(ops: seq<Op>, b: nat)
    ensures RunFlat(EMPTY, ops).At(b) == LastStored(ops, b)
    ensures forall page: nat :: page in RunFlat(EMPTY, ops).mapped <==> PageTouched(ops, page)
  {
    if ops != [] {
      var n := |ops| - 1;
      var op, init := ops[n], ops[..n];
      FlatHistory(init, b);
      var g := RunFlat(EMPTY, init);
      if op.Store? && Aligned(op) {
        WriteEffect(g.(mapped := g.mapped + {op.a / PAGE_SIZE}), op.a, op.w.Bytes(), op.v, b);
      }
      forall page: nat
        ensures PageTouched(ops, page) <==>
                PageTouched(init, page) || (op.Store? && Aligned(op) && op.a / PAGE_SIZE == page)
      {
        if PageTouched(init, page) {
          var i :| 0 <= i < |init| && init[i].Store? && Aligned(init[i]) && init[i].a / PAGE_SIZE == page;
          assert ops[i] == init[i];
        }
        if PageTouched(ops, page) {
          var i :| 0 <= i < |ops| && ops[i].Store? && Aligned(ops[i]) && ops[i].a / PAGE_SIZE == page;
          assert i < n ==> init[i] == ops[i];
        }
      }
    }
  }

  // ----- translation history and statistics -----

  function TLBIndex(a: nat): nat { (a / PAGE_SIZE) % TLB_SIZE }

  /** The most recent successful translation that used TLB slot `idx`. */
  function Latest(translated: seq<Word>, idx: nat): Option<Word> {
    if translated == [] then None
    else
      var a := translated[|translated| - 1];
      if TLBIndex(a) == idx then Some(a) else Latest(translated[..|translated| - 1], idx)
  }

  predicate Hit(translated: seq<Word>, a: Word) {
    var l := Latest(translated, TLBIndex(a));
    l.Some? && l.value / PAGE_SIZE == a / PAGE_SIZE
  }

  datatype Model = Model(flat: Flat, translated: seq<Word>, loads: nat, stores: nat,
                         requests: nat, hits: nat, misses: nat)

  const INITIAL := Model(EMPTY, [], 0, 0, 0, 0, 0)

  /** Address translation: alignment check, TLB, and the page table only on a miss. */
  function Translate(m: Model, w: Width, a: Word, isStore: bool): (Result<(), MemError>, Model) {
    if !w.Divides(a) then (Failure(Misaligned), m)
    else if Hit(m.translated, a) then
      (Success(()), m.(requests := m.requests + 1, hits := m.hits + 1, translated := m.translated + [a]))
    else
      var n := m.(requests := m.requests + 1, misses := m.misses + 1);
      if a / PAGE_SIZE !in m.flat.mapped && !isStore then (Failure(PageFault), n)
      else (Success(()), n.(flat := n.flat.(mapped := n.flat.mapped + {a / PAGE_SIZE}),
                            translated := n.translated + [a]))
  }

  function LoadModel(m: Model, w: Width, a: Word): (Result<nat, MemError>, Model) {
    var (r, n) := Translate(m.(loads := m.loads + 1), w, a, false);
    match r
    case Failure(e) => (Failure(e), n)
    case Success(_) => (Success(n.flat.Compose(a, w.Bytes())), n)
  }

  function StoreModel(m: Model, w: Width, a: Word, v: nat): (Result<(), MemError>, Model) {
    var (r, n) := Translate(m.(stores := m.stores + 1), w, a, true);
    match r
    case Failure(e) => (Failure(e), n)
    case Success(_) => (Success(()), n.(flat := n.flat.Write(a, w.Bytes(), v)))
  }

  /** Only mapped pages have ever been translated, and only they hold bytes. */
  ghost predicate Consistent(m: Model) {
    && (forall t :: t in m.translated ==> t / PAGE_SIZE in m.flat.mapped)
    && (forall a :: a in m.flat.bytes ==> a / PAGE_SIZE in m.flat.mapped)
  }

  lemma {:induction false} LatestIsTranslated(translated: seq<Word>, idx: nat)
    ensures Latest(translated, idx).Some? ==>
              Latest(translated, idx).value in translated && TLBIndex(Latest(translated, idx).value) == idx
  {
    if translated != [] { LatestIsTranslated(translated[..|translated| - 1], idx); }
  }

  /** An aligned access stays on its page. */
  lemma OnePage(w: Width, a: Word)
    requires w.Divides(a)
    ensures forall b: nat :: a <= b < a + w.Bytes() ==> b / PAGE_SIZE == a / PAGE_SIZE
  {
    OffsetAlignment(a);
    var q, o := a / PAGE_SIZE, a % PAGE_SIZE;
    assert o + w.Bytes() <= PAGE_SIZE;
    forall b: nat | a <= b < a + w.Bytes() ensures b / PAGE_SIZE == q {
      ModUnique(b, PAGE_SIZE, q, o + (b - a));
    }
  }

  lemma OffsetAlignment(a: nat)
    ensures a % PAGE_SIZE % 2 == a % 2 && a % PAGE_SIZE % 4 == a % 4
  {
    var q, o := a / PAGE_SIZE, a % PAGE_SIZE;
    ModUnique(a, 2, 2048 * q + o / 2, o % 2);
    ModUnique(a, 4, 1024 * q + o / 4, o % 4);
  }

  /** The TLB is invisible: loads and stores answer, and change the bytes, exactly as the flat
      memory says, whatever the translation history. */
  lemma TlbInvisible(m: Model, w: Width, a: Word, v: nat)
    requires Consistent(m)
    ensures LoadModel(m, w, a).0 == m.flat.Load(w, a)
    ensures LoadModel(m, w, a).1.flat == m.flat
    ensures StoreModel(m, w, a, v).0.Success? <==> m.flat.Store(w, a, v).Success?
    ensures m.flat.Store(w, a, v) == (if StoreModel(m, w, a, v).0.Success?
                                      then Success(StoreModel(m, w, a, v).1.flat) else Failure(Misaligned))
    ensures StoreModel(m, w, a, v).0.Failure? ==> StoreModel(m, w, a, v) == (Failure(Misaligned), m.(stores := m.stores + 1))
    ensures Consistent(LoadModel(m, w, a).1) && Consistent(StoreModel(m, w, a, v).1)
  {
    LatestIsTranslated(m.translated, TLBIndex(a));
    var f := m.flat.(mapped := m.flat.mapped + {a / PAGE_SIZE});
    if Hit(m.translated, a) {
      assert f.mapped == m.flat.mapped;
    }
    if a / PAGE_SIZE in m.flat.mapped {
      assert f.mapped == m.flat.mapped;
    }
    if w.Divides(a) {
      WriteEffect(f, a, w.Bytes(), v, a);
      OnePage(w, a);
    }
  }

  function StepModel(m: Model, op: Op): Model {
    match op
    case Load(w, a) => LoadModel(m, w, a).1
    case Store(w, a, v) => StoreModel(m, w, a, v).1
  }

  function RunModel(ops: seq<Op>): Model {
    if ops == [] then INITIAL else StepModel(RunModel(ops[..|ops| - 1]), ops[|ops| - 1])
  }

  function MisalignedCount(ops: seq<Op>): nat {
    if ops == [] then 0
    else MisalignedCount(ops[..|ops| - 1]) + if Aligned(ops[|ops| - 1]) then 0 else 1
  }

  /** Whole runs, failing accesses included: the bytes are those of the flat memory, and the
      counters add up. */
  lemma {:induction false} RunAccounting(ops: seq<Op>)
    ensures Consistent(RunModel(ops)) && RunModel(ops).flat == RunFlat(EMPTY, ops)
    ensures RunModel(ops).hits + RunModel(ops).misses == RunModel(ops).requests
    ensures RunModel(ops).loads + RunModel(ops).stores == RunModel(ops).requests + MisalignedCount(ops)
    ensures RunModel(ops).loads + RunModel(ops).stores == |ops|
  {
    if ops != [] {
      var op := ops[|ops| - 1];
      RunAccounting(ops[..|ops| - 1]);
      TlbInvisible(RunModel(ops[..|ops| - 1]), op.w, op.a, if op.Store? then op.v else 0);
    }
  }

  // ----- the counters, from the operations alone -----

  /** The access is aligned, and a load finds its page touched by an earlier store. */
  ghost predicate Succeeds(before: seq<Op>, op: Op) { Aligned(op) && (op.Store? || PageTouched(before, op.a / PAGE_SIZE)) }

  /** The addresses of the successful accesses, in order. */
  ghost function Succeeded(ops: seq<Op>): seq<Word> {
    if ops == [] then []
    else
      var init, op := ops[..|ops| - 1], ops[|ops| - 1];
      if Succeeds(init, op) then Succeeded(init) + [op.a] else Succeeded(init)
  }

  /** The last of the addresses whose page number agrees with that of `a` modulo the number of slots is on
      the same page. */
  ghost predicate SlotKeeps(addresses: seq<Word>, a: Word) {
    exists j :: 0 <= j < |addresses| && LastInSlot(addresses, a, j) && addresses[j] / 4096 == a / 4096
  }

  ghost predicate LastInSlot(addresses: seq<Word>, a: Word, j: nat)
    requires j < |addresses|
  {
    && addresses[j] / 4096 % 1024 == a / 4096 % 1024
    && forall k :: j < k < |addresses| ==> addresses[k] / 4096 % 1024 != a / 4096 % 1024
  }

  ghost function HitCount(ops: seq<Op>): nat {
    if ops == [] then 0
    else
      var init, op := ops[..|ops| - 1], ops[|ops| - 1];
      HitCount(init) + if Aligned(op) && SlotKeeps(Succeeded(init), op.a) then 1 else 0
  }

  function LoadCount(ops: seq<Op>): nat {
    if ops == [] then 0 else LoadCount(ops[..|ops| - 1]) + if ops[|ops| - 1].Load? then 1 else 0
  }

  /** Every counter after any run: a hit for each aligned access whose slot was last used for its page, a miss
      for each other aligned one, and the loads and stores, rejected and faulting ones included. */
  lemma {:induction false} CountersExactly(ops: seq<Op>)
    ensures RunModel(ops).translated == Succeeded(ops)
    ensures RunModel(ops).hits == HitCount(ops)
    ensures RunModel(ops).hits + RunModel(ops).misses == RunModel(ops).requests == |ops| - MisalignedCount(ops)
    ensures RunModel(ops).loads == LoadCount(ops) && RunModel(ops).loads + RunModel(ops).stores == |ops|
  {
    RunAccounting(ops);
    if ops != [] {
      var init, op := ops[..|ops| - 1], ops[|ops| - 1];
      CountersExactly(init);
      RunAccounting(init);
      FlatHistory(init, 0);
      CountStep(RunModel(init), op);
      HitIsKept(RunModel(init).translated, op.a);
    }
  }

  /** One access, read off the model. */
  lemma CountStep(m: Model, op: Op)
    requires Consistent(m)
    ensures var n := StepModel(m, op);
            && n.hits == m.hits + (if Aligned(op) && Hit(m.translated, op.a) then 1 else 0)
            && n.loads == m.loads + (if op.Load? then 1 else 0)
            && n.translated == if Aligned(op) && (op.Store? || op.a / PAGE_SIZE in m.flat.mapped)
                               then m.translated + [op.a] else m.translated
  {
    LatestIsTranslated(m.translated, TLBIndex(op.a));
  }

  lemma {:induction false} LatestIsLast(addresses: seq<Word>, a: Word)
    ensures match Latest(addresses, TLBIndex(a))
            case None => forall k :: 0 <= k < |addresses| ==> addresses[k] / 4096 % 1024 != a / 4096 % 1024
            case Some(l) => exists j :: 0 <= j < |addresses| && LastInSlot(addresses, a, j) && addresses[j] == l
  {
    if addresses != [] {
      var n := |addresses| - 1;
      if TLBIndex(addresses[n]) == TLBIndex(a) {
        assert LastInSlot(addresses, a, n);
      } else {
        LatestIsLast(addresses[..n], a);
        assert forall k :: 0 <= k < n ==> addresses[..n][k] == addresses[k];
        if j :| 0 <= j < n && LastInSlot(addresses[..n], a, j) && addresses[..n][j] == Latest(addresses, TLBIndex(a)).value {
          assert LastInSlot(addresses, a, j);
        }
      }
    }
  }

  lemma HitIsKept(addresses: seq<Word>, a: Word)
    ensures Hit(addresses, a) <==> SlotKeeps(addresses, a)
  {
    LatestIsLast(addresses, a);
  }

  /** The answer of a load at the end of any run, in terms of the operations alone. */
  lemma LoadAfterRun(ops: seq<Op>, w: Width, a: Word)
    ensures var r := LoadModel(RunModel(ops), w, a).0;
            && (r == Failure(Misaligned) <==> !w.Divides(a))
            && (r == Failure(PageFault) <==> w.Divides(a) && !PageTouched(ops, a / PAGE_SIZE))
            && (r.Success? ==> forall k: nat :: k < w.Bytes() ==> ByteOf(r.value, k) == LastStored(ops, a + k))
            && (r.Success? ==> r.value < Pow2(8 * w.Bytes()))
  {
    RunAccounting(ops);
    TlbInvisible(RunModel(ops), w, a, 0);
    FlatHistory(ops, a);
    ComposedBytes(ops, w, a);
    ComposeIsSmall(RunFlat(EMPTY, ops), a, w.Bytes());
  }

  lemma ComposedBytes(ops: seq<Op>, w: Width, a: Word)
    ensures forall k: nat :: k < w.Bytes() ==> ByteOf(RunFlat(EMPTY, ops).Compose(a, w.Bytes()), k) == LastStored(ops, a + k)
  {
    var f := RunFlat(EMPTY, ops);
    forall k: nat | k < w.Bytes()
      ensures ByteOf(f.Compose(a, w.Bytes()), k) == LastStored(ops, a + k)
    {
      FlatHistory(ops, a + k);
      ByteOfCompose(f, a, w.Bytes(), k);
    }
  }

  lemma {:induction false} ByteOfCompose(f: Flat, a: nat, n: nat, k: nat)
    requires k < n
    ensures ByteOf(f.Compose(a, n), k) == f.At(a + k)
    decreases n
  {
    if k > 0 { ByteOfCompose(f, a + 1, n - 1, k - 1); }
  }

  lemma {:induction false} ComposeIsSmall(f: Flat, a: nat, n: nat)
    ensures f.Compose(a, n) < Pow2(8 * n)
    decreases n
  {
    if n > 0 {
      ComposeIsSmall(f, a + 1, n - 1);
      Pow2Values();
      Pow2Add(8, 8 * (n - 1));
    }
  }

  /** A hit is decided by the latest successful translation that shares the slot. */
  lemma {:induction false} LatestAfter(translated: seq<Word>, a: Word, idx: nat)
    ensures Latest(translated + [a], idx) == if TLBIndex(a) == idx then Some(a) else Latest(translated, idx)
  {
    assert (translated + [a])[..|translated|] == translated;
  }
}
