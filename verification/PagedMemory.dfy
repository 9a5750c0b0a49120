/** The simulated memory of include/memory/memory.hh and src/memory/memory.cc: a page table that
    stores fill on demand, in front of it a direct-mapped TLB of page pointers, and bytes, halves and
    words aliasing the same word storage.  `Memory` implements `FlatMemory.Model`.
  */
module PagedMemory {
  import opened Bits
  import opened Wrappers
  import opened FlatMemory

  const PAGE_WORDS: nat := 1024

  function ZeroPage(): seq<Word> { seq(PAGE_WORDS, _ => 0) }

  class Page {
    const wordStorage: array<Word>

    constructor ()
      ensures fresh(wordStorage) && wordStorage[..] == ZeroPage()
    {
      wordStorage := new Word[PAGE_WORDS](_ => 0);
    }
  }

  // ----- bytes inside a word -----

  function FromBytes(b0: Byte, b1: Byte, b2: Byte, b3: Byte): Word {
    b0 + 0x100 * b1 + 0x1_0000 * b2 + 0x100_0000 * b3
  }

  function PatchedByte(word: Word, off: nat, n: nat, v: nat, k: nat): Byte {
    if off <= k < off + n then ByteOf(v, k - off) else ByteOf(word, k)
  }

  /** The word after writing `n` bytes of `v` through a pointer to its byte `off`. */
  function Patch(word: Word, off: nat, n: nat, v: nat): Word {
    FromBytes(PatchedByte(word, off, n, v, 0), PatchedByte(word, off, n, v, 1),
              PatchedByte(word, off, n, v, 2), PatchedByte(word, off, n, v, 3))
  }

  /** The value of the `n` bytes from byte `off` of a word. */
  function Peek(word: Word, off: nat, n: nat): nat
    decreases n
  {
    if n == 0 then 0 else ByteOf(word, off) + 256 * Peek(word, off + 1, n - 1)
  }

  lemma BytesOfWord(b0: Byte, b1: Byte, b2: Byte, b3: Byte)
    ensures var w := FromBytes(b0, b1, b2, b3);
            ByteOf(w, 0) == b0 && ByteOf(w, 1) == b1 && ByteOf(w, 2) == b2 && ByteOf(w, 3) == b3
  {
    var w := FromBytes(b0, b1, b2, b3);
    assert w / 256 == b1 + 0x100 * b2 + 0x1_0000 * b3;
    assert (w / 256) / 256 == b2 + 0x100 * b3;
    assert ((w / 256) / 256) / 256 == b3;
    assert ByteOf(w, 1) == ByteOf(w / 256, 0);
    assert ByteOf(w, 2) == ByteOf(w / 256, 1) == ByteOf(w / 256 / 256, 0);
    assert ByteOf(w, 3) == ByteOf(w / 256, 2) == ByteOf(w / 256 / 256, 1) == ByteOf(w / 256 / 256 / 256, 0);
  }

  lemma PatchEffect(word: Word, off: nat, n: nat, v: nat, k: nat)
    requires k < 4
    ensures ByteOf(Patch(word, off, n, v), k) == if off <= k < off + n then ByteOf(v, k - off) else ByteOf(word, k)
  {
    BytesOfWord(PatchedByte(word, off, n, v, 0), PatchedByte(word, off, n, v, 1),
                PatchedByte(word, off, n, v, 2), PatchedByte(word, off, n, v, 3));
  }

  // ----- a page against the flat memory -----

  ghost predicate PageAgrees(f: Flat, p: nat, words: seq<Word>) {
    && |words| == PAGE_WORDS
    && forall o: nat :: o < PAGE_SIZE ==> f.At(p * PAGE_SIZE + o) == ByteOf(words[o / 4], o % 4)
  }

  lemma FreshPageAgrees(f: Flat, p: nat, words: seq<Word>)
    requires |words| == PAGE_WORDS && forall i :: 0 <= i < PAGE_WORDS ==> words[i] == 0
    requires forall a :: a in f.bytes ==> a / PAGE_SIZE != p
    ensures PageAgrees(f, p, words)
  {
    forall o: nat | o < PAGE_SIZE ensures f.At(p * PAGE_SIZE + o) == ByteOf(words[o / 4], o % 4) {
      assert (p * PAGE_SIZE + o) / PAGE_SIZE == p;
      ByteOfZero(o % 4);
    }
  }

  lemma {:induction false} ByteOfZero(k: nat)
    ensures ByteOf(0, k) == 0
    decreases k
  {
    if k > 0 { ByteOfZero(k - 1); }
  }

  ghost predicate AllAgree(f: Flat, pages: map<nat, seq<Word>>) {
    && f.mapped == pages.Keys
    && forall p :: p in pages ==> PageAgrees(f, p, pages[p])
  }

  /** Translating for a store: a page that was not there appears, full of zeros. */
  lemma MapPageKeepsAgreement(f: Flat, pages: map<nat, seq<Word>>, p: nat)
    requires AllAgree(f, pages)
    requires forall a :: a in f.bytes ==> a / PAGE_SIZE in f.mapped
    ensures AllAgree(f.(mapped := f.mapped + {p}), if p in pages then pages else pages[p := ZeroPage()])
  {
    var g := f.(mapped := f.mapped + {p});
    if p !in pages { FreshPageAgrees(g, p, ZeroPage()); }
    forall q | q in pages ensures PageAgrees(g, q, pages[q]) {
      forall o: nat | o < PAGE_SIZE ensures g.At(q * PAGE_SIZE + o) == ByteOf(pages[q][o / 4], o % 4) {
        assert PageAgrees(f, q, pages[q]);
        assert f.At(q * PAGE_SIZE + o) == ByteOf(pages[q][o / 4], o % 4);
      }
    }
  }

  function StorePages(pages: map<nat, seq<Word>>, w: Width, a: Word, v: nat): map<nat, seq<Word>>
    requires a / PAGE_SIZE in pages && |pages[a / PAGE_SIZE]| == PAGE_WORDS
  {
    var p, i := a / PAGE_SIZE, (a % PAGE_SIZE) / 4;
    var words: seq<Word> := pages[p][i := Patch(pages[p][i], a % PAGE_SIZE % 4, w.Bytes(), v)];
    pages[p := words]
  }

  /** Storing patches one word of one page, and every page still agrees. */
  lemma StoreKeepsAgreement(f: Flat, pages: map<nat, seq<Word>>, w: Width, a: Word, v: nat)
    requires AllAgree(f, pages) && w.Divides(a) && a / PAGE_SIZE in pages
    ensures |pages[a / PAGE_SIZE]| == PAGE_WORDS
    ensures AllAgree(f.Write(a, w.Bytes(), v), StorePages(pages, w, a, v))
  {
    assert PageAgrees(f, a / PAGE_SIZE, pages[a / PAGE_SIZE]);
    WriteEffect(f, a, w.Bytes(), v, 0);
    forall p | p in pages ensures PageAgrees(f.Write(a, w.Bytes(), v), p, StorePages(pages, w, a, v)[p]) {
      assert PageAgrees(f, p, pages[p]);
      StoreKeepsPage(f, p, pages[p], w, a, v);
    }
  }

  lemma StoreKeepsByte(f: Flat, p: nat, words: seq<Word>, w: Width, a: Word, v: nat, o: nat)
    requires PageAgrees(f, p, words) && w.Divides(a) && o < PAGE_SIZE
    ensures var i, k := (a % PAGE_SIZE) / 4, a % PAGE_SIZE % 4;
            var word := if p == a / PAGE_SIZE && o / 4 == i then Patch(words[i], k, w.Bytes(), v) else words[o / 4];
            f.Write(a, w.Bytes(), v).At(p * PAGE_SIZE + o) == ByteOf(word, o % 4)
  {
    var n, i, k := w.Bytes(), (a % PAGE_SIZE) / 4, a % PAGE_SIZE % 4;
    WriteEffect(f, a, n, v, p * PAGE_SIZE + o);
    PatchEffect(words[i], k, n, v, o % 4);
    WithinWord(p, o, a, n);
  }

  lemma StoreKeepsPage(f: Flat, p: nat, words: seq<Word>, w: Width, a: Word, v: nat)
    requires PageAgrees(f, p, words) && w.Divides(a)
    ensures var i := (a % PAGE_SIZE) / 4;
            PageAgrees(f.Write(a, w.Bytes(), v), p,
                       if p == a / PAGE_SIZE then words[i := Patch(words[i], a % PAGE_SIZE % 4, w.Bytes(), v)] else words)
  {
    var n, i := w.Bytes(), (a % PAGE_SIZE) / 4;
    var k := a % PAGE_SIZE % 4;
    forall o: nat | o < PAGE_SIZE
      ensures var words' := if p == a / PAGE_SIZE then words[i := Patch(words[i], k, n, v)] else words;
              f.Write(a, n, v).At(p * PAGE_SIZE + o) == ByteOf(words'[o / 4], o % 4)
    {
      StoreKeepsByte(f, p, words, w, a, v, o);
    }
  }

  lemma WithinWord(p: nat, o: nat, a: nat, n: nat)
    requires o < PAGE_SIZE && (n == 1 || (n == 2 && a % 2 == 0) || (n == 4 && a % 4 == 0))
    ensures a <= p * PAGE_SIZE + o < a + n <==>
            var k := a % PAGE_SIZE % 4;
            p == a / PAGE_SIZE && o / 4 == (a % PAGE_SIZE) / 4 && k <= o % 4 < k + n
    ensures p == a / PAGE_SIZE ==> p * PAGE_SIZE + o - a == o - a % PAGE_SIZE
    ensures o / 4 == (a % PAGE_SIZE) / 4 ==> o - a % PAGE_SIZE == o % 4 - a % PAGE_SIZE % 4
  {
    OffsetAlignment(a);
    NoWordCrossing(o, a % PAGE_SIZE, n);
    SamePage(p, o, a / PAGE_SIZE, a % PAGE_SIZE, n);
    assert a == a / PAGE_SIZE * PAGE_SIZE + a % PAGE_SIZE;
  }

  lemma SamePage(p: nat, o: nat, p': nat, o': nat, n: nat)
    requires o < PAGE_SIZE && o' + n <= PAGE_SIZE
    ensures p' * PAGE_SIZE + o' <= p * PAGE_SIZE + o < p' * PAGE_SIZE + o' + n <==> p == p' && o' <= o < o' + n
  {}

  lemma NoWordCrossing(o: nat, o': nat, n: nat)
    requires o < PAGE_SIZE && o' < PAGE_SIZE && (n == 1 || (n == 2 && o' % 2 == 0) || (n == 4 && o' % 4 == 0))
    ensures o' + n <= PAGE_SIZE
    ensures o' <= o < o' + n <==> o / 4 == o' / 4 && o' % 4 <= o % 4 < o' % 4 + n
  {
    var k', r' := o' / 4, o' % 4;
    assert r' + n <= 4 && o' == 4 * k' + r';
    if o' <= o < o' + n {
      ModUnique(o, 4, k', o - 4 * k');
    }
  }

  /** Within one word, reading through the pointer is composing the flat bytes. */
  lemma {:induction false} PeekIsCompose(f: Flat, p: nat, words: seq<Word>, i: nat, k: nat, n: nat)
    requires PageAgrees(f, p, words) && i < PAGE_WORDS && k + n <= 4
    ensures Peek(words[i], k, n) == f.Compose(p * PAGE_SIZE + 4 * i + k, n)
    decreases n
  {
    if n > 0 {
      var o := 4 * i + k;
      assert o / 4 == i && o % 4 == k;
      assert f.At(p * PAGE_SIZE + o) == ByteOf(words[i], k);
      PeekIsCompose(f, p, words, i, k + 1, n - 1);
    }
  }

  // ----- TLB -----

  datatype TLBEntry = TLBEntry(virtualAddress: Word, physPage: Page?, valid: bool)

  function PageOffset(a: Word): (r: nat)
    ensures r == a % PAGE_SIZE
  {
    Pow2Values();
    LowBits(32, 12, a);
    GetBits(32, 11, 0, a)
  }

  function IndexPt(a: Word): (r: nat)
    ensures r == a / PAGE_SIZE
  {
    Pow2Values();
    GetBitsIsDivMod(32, 31, 12, a);
    SmallMod(a / PAGE_SIZE, Pow2(20));
    GetBits(32, 31, 12, a)
  }

  function SlotOf(a: Word): (r: nat)
    ensures r == TLBIndex(a) && r < TLB_SIZE
  {
    Pow2Values();
    GetBitsIsDivMod(32, 21, 12, a);
    GetBits(32, 21, 12, a)
  }

  /** `addr & kTLBMask`. */
  function Tag(a: Word): Word {
    Pow2Values();
    var mask := Shl(32, WORD_LIMIT - 1, 12);
    OpBounds(a, mask, 32);
    And(a, mask)
  }

  lemma TagBit(a: Word, i: nat)
    ensures Bit(Tag(a), i) <==> 12 <= i && Bit(a, i)
  {
    Pow2Values();
    var mask := Shl(32, WORD_LIMIT - 1, 12);
    AndBit(a, mask, i);
    ShlBit(32, WORD_LIMIT - 1, 12, i);
    HighBit(a, 32, i);
    if 12 <= i < 32 {
      ZeroBit(i - 12);
      NotBit(32, 0, i - 12);
    }
  }

  /** The tag keeps exactly the page number: it is the page-aligned address. */
  lemma TagIsPageBase(a: Word)
    ensures Tag(a) == a / PAGE_SIZE * PAGE_SIZE
  {
    Pow2Values();
    forall i: nat | i < 20 ensures Bit(Shr(Tag(a), 12), i) <==> Bit(Shr(a, 12), i) {
      ShrBit(Tag(a), 12, i); ShrBit(a, 12, i); TagBit(a, i + 12);
    }
    ShrIsDiv(Tag(a), 12);
    ShrIsDiv(a, 12);
    SameBits(Shr(Tag(a), 12), Shr(a, 12), 20);
    forall i: nat | i < 12 ensures Bit(Tag(a) % Pow2(12), i) <==> Bit(0, i) {
      ModBit(Tag(a), 12, i); TagBit(a, i); ZeroBit(i);
    }
    SameBits(Tag(a) % Pow2(12), 0, 12);
  }

  class TLB {
    const entries: array<TLBEntry>
    var hits: nat
    var misses: nat
    var requests: nat

    constructor ()
      ensures fresh(entries) && entries.Length == TLB_SIZE
      ensures forall i :: 0 <= i < TLB_SIZE ==> !entries[i].valid
      ensures hits == misses == requests == 0
    {
      entries := new TLBEntry[TLB_SIZE](_ => TLBEntry(0, null, false));
      hits, misses, requests := 0, 0, 0;
    }

    method Lookup(a: Word) returns (page: Page?)
      requires entries.Length == TLB_SIZE
      modifies this
      ensures requests == old(requests) + 1
      ensures var e := entries[TLBIndex(a)];
              var hit := e.valid && e.virtualAddress == Tag(a);
              && page == (if hit then e.physPage else null)
              && hits == old(hits) + (if hit then 1 else 0)
              && misses == old(misses) + (if hit then 0 else 1)
    {
      requests := requests + 1;
      var found := entries[SlotOf(a)];
      if !found.valid {
        misses := misses + 1;
        return null;
      }
      if found.virtualAddress != Tag(a) {
        misses := misses + 1;
        return null;
      }
      hits := hits + 1;
      return found.physPage;
    }

    method Update(a: Word, page: Page)
      requires entries.Length == TLB_SIZE
      modifies entries
      ensures entries[..] == old(entries[..])[TLBIndex(a) := TLBEntry(Tag(a), page, true)]
    {
      entries[SlotOf(a)] := TLBEntry(Tag(a), page, true);
    }
  }

  // ----- page table -----

  /** What a TLB slot must hold, given the latest translation that used it. */
  ghost predicate SlotOk(e: TLBEntry, latest: Option<Word>, pageTable: map<nat, Page>) {
    && e.valid == latest.Some?
    && (latest.Some? ==>
          var page := latest.value / PAGE_SIZE;
          e.virtualAddress == page * PAGE_SIZE && page in pageTable && e.physPage == pageTable[page])
  }

  ghost predicate SlotsOk(entries: seq<TLBEntry>, translated: seq<Word>, pageTable: map<nat, Page>) {
    && |entries| == TLB_SIZE
    && forall i :: 0 <= i < TLB_SIZE ==> SlotOk(entries[i], Latest(translated, i), pageTable)
  }

  /** The hardware test (valid, same tag) is exactly a hit in the translation history. */
  lemma LookupIsHit(entries: seq<TLBEntry>, translated: seq<Word>, pageTable: map<nat, Page>, a: Word)
    requires SlotsOk(entries, translated, pageTable)
    ensures var e := entries[TLBIndex(a)];
            && (e.valid && e.virtualAddress == Tag(a) <==> Hit(translated, a))
            && (Hit(translated, a) ==> a / PAGE_SIZE in pageTable && e.physPage == pageTable[a / PAGE_SIZE])
  {
    TagIsPageBase(a);
    assert SlotOk(entries[TLBIndex(a)], Latest(translated, TLBIndex(a)), pageTable);
  }

  lemma SlotsAfterHit(entries: seq<TLBEntry>, translated: seq<Word>, pageTable: map<nat, Page>, a: Word)
    requires SlotsOk(entries, translated, pageTable) && Hit(translated, a)
    ensures SlotsOk(entries, translated + [a], pageTable)
  {
    forall i | 0 <= i < TLB_SIZE ensures SlotOk(entries[i], Latest(translated + [a], i), pageTable) {
      LatestAfter(translated, a, i);
      assert SlotOk(entries[i], Latest(translated, i), pageTable);
    }
  }

  lemma SlotsAfterMiss(entries: seq<TLBEntry>, translated: seq<Word>, pageTable: map<nat, Page>,
                       pageTable': map<nat, Page>, a: Word)
    requires SlotsOk(entries, translated, pageTable)
    requires forall p :: p in pageTable ==> p in pageTable' && pageTable'[p] == pageTable[p]
    requires a / PAGE_SIZE in pageTable'
    ensures SlotsOk(entries[TLBIndex(a) := TLBEntry(Tag(a), pageTable'[a / PAGE_SIZE], true)],
                    translated + [a], pageTable')
  {
    TagIsPageBase(a);
    var e := TLBEntry(Tag(a), pageTable'[a / PAGE_SIZE], true);
    forall i | 0 <= i < TLB_SIZE
      ensures SlotOk(entries[TLBIndex(a) := e][i], Latest(translated + [a], i), pageTable')
    {
      LatestAfter(translated, a, i);
      assert SlotOk(entries[i], Latest(translated, i), pageTable);
    }
  }

  /** The table after a translation of `page`: the same, or with that one page added. */
  ghost predicate ExtendsTable(before: map<nat, Page>, after: map<nat, Page>, page: nat) {
    page in after && after == before[page := after[page]] && (page in before ==> after == before)
  }

  /** An aligned access never crosses a page: the second half of the check never fires alone. */
  lemma AlignedFits(w: Width, a: Word)
    requires w.Divides(a)
    ensures a % PAGE_SIZE + w.Bytes() <= PAGE_SIZE
  {
    match w
    case W8 => case W16 => case W32 =>
  }

  lemma OffsetInWord(w: Width, a: Word)
    requires w.Divides(a)
    ensures a % PAGE_SIZE % 4 + w.Bytes() <= 4
  {
    OffsetAlignment(a);
  }

  class PhysMemory {
    var pageTable: map<nat, Page>
    const tlb: TLB
    ghost var translated: seq<Word>

    /** No two pages share storage, and every TLB slot mirrors the latest translation through it. */
    ghost predicate Valid()
      reads this, tlb.entries
    {
      && SlotsOk(tlb.entries[..], translated, pageTable)
      && (forall p :: p in pageTable ==> pageTable[p].wordStorage.Length == PAGE_WORDS)
      && (forall p, q :: p in pageTable && q in pageTable && p != q ==>
            pageTable[p].wordStorage != pageTable[q].wordStorage)
    }

    constructor ()
      ensures Valid() && fresh(tlb) && fresh(tlb.entries)
      ensures pageTable == map[] && translated == []
      ensures tlb.hits == tlb.misses == tlb.requests == 0
    {
      pageTable := map[];
      tlb := new TLB();
      translated := [];
    }

    method PageTableLookup(index: nat, isStore: bool) returns (r: Result<Page, MemError>)
      modifies this`pageTable
      ensures r.Failure? <==> index !in old(pageTable) && !isStore
      ensures r.Failure? ==> r.error == PageFault && pageTable == old(pageTable)
      ensures r.Success? ==> index in pageTable && r.value == pageTable[index]
      ensures index in old(pageTable) ==> pageTable == old(pageTable)
      ensures r.Success? && index !in old(pageTable) ==>
                && pageTable == old(pageTable)[index := r.value]
                && fresh(r.value.wordStorage)
                && r.value.wordStorage[..] == ZeroPage()
    {
      if index !in pageTable {
        if !isStore {
          return Failure(PageFault);
        }
        var page := new Page();
        pageTable := pageTable[index := page];
      }
      return Success(pageTable[index]);
    }

    /** This object is in the translation state of `m`. */
    ghost predicate Shows(m: Model)
      reads this, tlb
    {
      && pageTable.Keys == m.flat.mapped
      && translated == m.translated
      && tlb.requests == m.requests && tlb.hits == m.hits && tlb.misses == m.misses
    }

    /** Translation: on success the live page and the byte offset inside it. */
    method GetEntity(w: Width, a: Word, isStore: bool, ghost m: Model) returns (r: Result<(Page, nat), MemError>)
      requires Valid() && Shows(m)
      modifies this, tlb, tlb.entries
      ensures Valid() && Shows(Translate(m, w, a, isStore).1)
      ensures match Translate(m, w, a, isStore).0
              case Failure(e) => r == Failure(e) && pageTable == old(pageTable)
              case Success(_) =>
                && a / PAGE_SIZE in pageTable && r == Success((pageTable[a / PAGE_SIZE], a % PAGE_SIZE))
                && ExtendsTable(old(pageTable), pageTable, a / PAGE_SIZE)
      ensures a / PAGE_SIZE in pageTable && a / PAGE_SIZE !in old(pageTable) ==>
                && fresh(pageTable[a / PAGE_SIZE].wordStorage)
                && pageTable[a / PAGE_SIZE].wordStorage[..] == ZeroPage()
    {
      if w.Divides(a) { AlignedFits(w, a); }
      if !w.Divides(a) || PageOffset(a) + w.Bytes() > PAGE_SIZE {
        return Failure(Misaligned);
      }
      var offset := PageOffset(a);
      LookupIsHit(tlb.entries[..], translated, pageTable, a);
      var page := tlb.Lookup(a);
      if page == null {
        var found := Refill(a, isStore);
        if found.Failure? {
          return Failure(found.error);
        }
        page := found.value;
      } else {
        SlotsAfterHit(tlb.entries[..], translated, pageTable, a);
        translated := translated + [a];
      }
      return Success((page, offset));
    }

    /** The miss path: walk the page table, then remember the page. */
    method Refill(a: Word, isStore: bool) returns (r: Result<Page, MemError>)
      requires Valid()
      modifies this, tlb.entries
      ensures Valid()
      ensures r.Failure? <==> a / PAGE_SIZE !in old(pageTable) && !isStore
      ensures r.Failure? ==> r.error == PageFault && pageTable == old(pageTable) && translated == old(translated)
      ensures r.Success? ==>
                && ExtendsTable(old(pageTable), pageTable, a / PAGE_SIZE) && r.value == pageTable[a / PAGE_SIZE]
                && translated == old(translated) + [a]
      ensures r.Success? && a / PAGE_SIZE !in old(pageTable) ==>
                fresh(r.value.wordStorage) && r.value.wordStorage[..] == ZeroPage()
    {
      r := PageTableLookup(IndexPt(a), isStore);
      if r.Success? {
        SlotsAfterMiss(tlb.entries[..], translated, old(pageTable), pageTable, a);
        tlb.Update(a, r.value);
        translated := translated + [a];
      }
    }
  }

  // ----- memory -----

  /** What a load finds: the words of the pages, untouched. */
  lemma LoadStep(m: Model, pages: map<nat, seq<Word>>, w: Width, a: Word)
    requires Consistent(m) && AllAgree(m.flat, pages)
    ensures var (t, n) := Translate(m.(loads := m.loads + 1), w, a, false);
            && Consistent(n) && n.flat == m.flat
            && (t.Failure? ==> LoadModel(m, w, a) == (Failure(t.error), n))
            && (t.Success? ==>
                  && a / PAGE_SIZE in pages && |pages[a / PAGE_SIZE]| == PAGE_WORDS
                  && var word := pages[a / PAGE_SIZE][(a % PAGE_SIZE) / 4];
                     LoadModel(m, w, a) == (Success(Peek(word, a % PAGE_SIZE % 4, w.Bytes())), n))
  {
    TlbInvisible(m, w, a, 0);
    var (t, n) := Translate(m.(loads := m.loads + 1), w, a, false);
    if t.Success? {
      LoadFromPage(m.flat, pages, w, a);
    }
  }

  lemma LoadKeeps(m: Model, w: Width, a: Word)
    requires Consistent(m)
    ensures var n := LoadModel(m, w, a).1;
            Consistent(n) && n.flat == m.flat && n.loads == m.loads + 1 && n.stores == m.stores
  {
    TlbInvisible(m, w, a, 0);
  }

  lemma LoadFromPage(f: Flat, pages: map<nat, seq<Word>>, w: Width, a: Word)
    requires AllAgree(f, pages) && w.Divides(a) && a / PAGE_SIZE in pages
    ensures |pages[a / PAGE_SIZE]| == PAGE_WORDS
    ensures f.Compose(a, w.Bytes()) == Peek(pages[a / PAGE_SIZE][(a % PAGE_SIZE) / 4], a % PAGE_SIZE % 4, w.Bytes())
  {
    var p, o := a / PAGE_SIZE, a % PAGE_SIZE;
    OffsetInWord(w, a);
    assert PageAgrees(f, p, pages[p]);
    PeekIsCompose(f, p, pages[p], o / 4, o % 4, w.Bytes());
  }

  /** The pages once the page of `a` is mapped. */
  function MapPage(pages: map<nat, seq<Word>>, a: Word): map<nat, seq<Word>> {
    if a / PAGE_SIZE in pages then pages else pages[a / PAGE_SIZE := ZeroPage()]
  }

  /** Models that differ in bytes and access counts only. */
  ghost predicate SameTranslation(m: Model, n: Model) {
    && m.flat.mapped == n.flat.mapped && m.translated == n.translated
    && m.requests == n.requests && m.hits == n.hits && m.misses == n.misses
  }

  /** A store that is not misaligned maps the page, patches one word and keeps agreement. */
  lemma StoreStep(m: Model, pages: map<nat, seq<Word>>, w: Width, a: Word, v: nat)
    requires Consistent(m) && AllAgree(m.flat, pages)
    ensures var (t, n) := Translate(m.(stores := m.stores + 1), w, a, true);
            var (r, s) := StoreModel(m, w, a, v);
            && r == t && Consistent(s) && SameTranslation(n, s)
            && s.loads == m.loads && s.stores == m.stores + 1
            && |MapPage(pages, a)[a / PAGE_SIZE]| == PAGE_WORDS
            && AllAgree(s.flat, if t.Success? then StorePages(MapPage(pages, a), w, a, v) else pages)
  {
    TlbInvisible(m, w, a, v);
    assert a / PAGE_SIZE in pages ==> PageAgrees(m.flat, a / PAGE_SIZE, pages[a / PAGE_SIZE]);
    var (t, n) := Translate(m.(stores := m.stores + 1), w, a, true);
    if t.Success? {
      MapPageKeepsAgreement(m.flat, pages, a / PAGE_SIZE);
      MappedOnceHit(m, w, a);
      WriteEffect(n.flat, a, w.Bytes(), v, 0);
      StoreKeepsAgreement(n.flat, MapPage(pages, a), w, a, v);
    }
  }

  lemma MappedOnceHit(m: Model, w: Width, a: Word)
    requires Consistent(m)
    ensures var (t, n) := Translate(m, w, a, true);
            t.Success? ==> n.flat == m.flat.(mapped := m.flat.mapped + {a / PAGE_SIZE})
  {
    LatestIsTranslated(m.translated, TLBIndex(a));
    if Hit(m.translated, a) {
      assert m.flat.mapped + {a / PAGE_SIZE} == m.flat.mapped;
    }
  }

  class Memory {
    const physMem: PhysMemory
    var numLoads: nat
    var numStores: nat
    var isProgramStored: bool

    /** The abstract memory, the words of every page, and the objects behind this one. */
    ghost var model: Model
    ghost var pages: map<nat, seq<Word>>
    ghost var Repr: set<object>

    /** The objects behind this one are wired up and `pages` is what the page storage holds. */
    ghost predicate Linked()
      reads this`pages, this`Repr, Repr
    {
      physMem in Repr && LinkedTo(physMem.pageTable) && physMem.Valid()
    }

    ghost predicate LinkedTo(table: map<nat, Page>)
      reads this`pages, this`Repr, Repr
    {
      && this !in Repr && physMem in Repr && physMem.tlb in Repr && physMem.tlb.entries in Repr
      && pages.Keys == table.Keys
      && forall p :: p in table ==> table[p].wordStorage in Repr && table[p].wordStorage[..] == pages[p]
    }

    ghost predicate Valid()
      reads this, Repr
    {
      match model
      case Model(flat, _, loads, stores, _, _, _) =>
        && Linked() && physMem.Shows(model) && numLoads == loads && numStores == stores
        && Consistent(model) && AllAgree(flat, pages)
    }

    constructor ()
      ensures Valid() && fresh(Repr)
      ensures model == INITIAL && !isProgramStored
    {
      physMem := new PhysMemory();
      numLoads, numStores, isProgramStored := 0, 0, false;
      model, pages := INITIAL, map[];
      new;
      Repr := {physMem, physMem.tlb, physMem.tlb.entries};
    }

    method SetProgramStoredFlag()
      requires Valid()
      modifies this`isProgramStored
      ensures Valid() && isProgramStored
    {
      isProgramStored := true;
    }

    method LoadEntity(w: Width, a: Word) returns (r: Result<nat, MemError>)
      requires Valid()
      modifies this, Repr
      ensures Valid() && Repr == old(Repr)
      ensures (r, model) == LoadModel(old(model), w, a)
      ensures isProgramStored == old(isProgramStored)
    {
      numLoads := numLoads + 1;
      LoadKeeps(model, w, a);
      ghost var before := model;
      model := LoadModel(model, w, a).1;
      r := ReadEntity(w, a, before);
    }

    /** The load once it has been counted: `*getEntity<T, LOAD>(addr)`. */
    method ReadEntity(w: Width, a: Word, ghost m: Model) returns (r: Result<nat, MemError>)
      requires Linked() && physMem.Shows(m) && Consistent(m) && AllAgree(m.flat, pages)
      modifies Repr
      ensures Linked() && physMem.Shows(LoadModel(m, w, a).1) && r == LoadModel(m, w, a).0
    {
      LoadStep(m, pages, w, a);
      ghost var counted := m.(loads := m.loads + 1);
      var entity := physMem.GetEntity(w, a, false, counted);
      if entity.Failure? {
        return Failure(entity.error);
      }
      r := PeekAt(entity.value.0, entity.value.1, w);
    }

    method PeekAt(page: Page, offset: nat, w: Width) returns (r: Result<nat, MemError>)
      requires page.wordStorage.Length == PAGE_WORDS && offset < PAGE_SIZE
      ensures r == Success(Peek(page.wordStorage[..][offset / 4], offset % 4, w.Bytes()))
    {
      r := Success(Peek(page.wordStorage[offset / 4], offset % 4, w.Bytes()));
    }

    method StoreEntity(w: Width, a: Word, v: Word) returns (r: Result<(), MemError>)
      requires Valid()
      modifies this, Repr
      ensures Valid() && fresh(Repr - old(Repr))
      ensures (r, model) == StoreModel(old(model), w, a, v)
      ensures isProgramStored == old(isProgramStored)
    {
      numStores := numStores + 1;
      r := StoreAt(w, a, v);
    }

    /** The store once it has been counted. */
    method StoreAt(w: Width, a: Word, v: Word) returns (r: Result<(), MemError>)
      requires Linked() && physMem.Shows(model) && Consistent(model) && AllAgree(model.flat, pages)
      modifies Repr, this`pages, this`model, this`Repr
      ensures Linked() && physMem.Shows(model) && Consistent(model) && AllAgree(model.flat, pages)
      ensures fresh(Repr - old(Repr))
      ensures (r, model) == StoreModel(old(model), w, a, v)
    {
      StoreStep(model, pages, w, a, v);
      ghost var before := model.(stores := model.stores + 1);
      model := StoreModel(model, w, a, v).1;
      r := WriteEntity(w, a, v, before, model);
    }

    /** `*getEntity<T, STORE>(addr) = entity`. */
    method WriteEntity(w: Width, a: Word, v: Word, ghost m: Model, ghost after: Model)
      returns (r: Result<(), MemError>)
      requires Linked() && physMem.Shows(m) && SameTranslation(Translate(m, w, a, true).1, after)
      modifies Repr, this`pages, this`Repr
      ensures Linked() && physMem.Shows(after)
      ensures fresh(Repr - old(Repr))
      ensures r == Translate(m, w, a, true).0
      ensures |MapPage(old(pages), a)[a / PAGE_SIZE]| == PAGE_WORDS
      ensures pages == if r.Success? then StorePages(MapPage(old(pages), a), w, a, v) else old(pages)
    {
      var entity := Locate(w, a, m);
      if entity.Failure? {
        return Failure(entity.error);
      }
      WriteThrough(entity.value.0, entity.value.1, w, a, v);
      r := Success(());
    }

    /** `getEntity<T, STORE>(addr)`, seen from the page contents. */
    method Locate(w: Width, a: Word, ghost m: Model) returns (entity: Result<(Page, nat), MemError>)
      requires Linked() && physMem.Shows(m)
      modifies Repr, this`pages, this`Repr
      ensures Linked() && fresh(Repr - old(Repr)) && old(Repr) <= Repr
      ensures physMem.Shows(Translate(m, w, a, true).1)
      ensures match Translate(m, w, a, true).0
              case Failure(e) => entity == Failure(e) && pages == old(pages)
              case Success(_) =>
                && a / PAGE_SIZE in pages && pages == MapPage(old(pages), a)
                && entity == Success((physMem.pageTable[a / PAGE_SIZE], a % PAGE_SIZE))
    {
      ghost var before := physMem.pageTable;
      entity := physMem.GetEntity(w, a, true, m);
      if entity.Success? {
        Adopt(a, before);
      }
    }

    /** Take the page of `a` into account, when translation has created it. */
    ghost method Adopt(a: Word, before: map<nat, Page>)
      requires LinkedTo(before) && physMem.Valid() && ExtendsTable(before, physMem.pageTable, a / PAGE_SIZE)
      requires a / PAGE_SIZE !in before ==> physMem.pageTable[a / PAGE_SIZE].wordStorage[..] == ZeroPage()
      requires physMem.pageTable[a / PAGE_SIZE].wordStorage != this as object
      modifies this`pages, this`Repr
      ensures Linked() && pages == MapPage(old(pages), a)
      ensures Repr == old(Repr) + {physMem.pageTable[a / PAGE_SIZE].wordStorage}
    {
      Repr := Repr + {physMem.pageTable[a / PAGE_SIZE].wordStorage};
      pages := MapPage(pages, a);
    }

    method WriteThrough(page: Page, offset: nat, w: Width, a: Word, v: Word)
      requires Linked()
      requires a / PAGE_SIZE in physMem.pageTable && page == physMem.pageTable[a / PAGE_SIZE]
      requires offset == a % PAGE_SIZE
      modifies page.wordStorage, this`pages
      ensures |old(pages)[a / PAGE_SIZE]| == PAGE_WORDS
      ensures Linked() && pages == StorePages(old(pages), w, a, v)
    {
      var i := offset / 4;
      page.wordStorage[i] := Patch(page.wordStorage[i], offset % 4, w.Bytes(), v);
      pages := StorePages(pages, w, a, v);
    }
  }
}
