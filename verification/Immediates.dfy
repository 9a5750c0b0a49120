/** Immediates: how the emitted decoder gathers them from the slices of an instruction word, and the
    encoder (scatter) it must undo.
  */
module Immediates {
  import opened Bits

  /** One entry of the bit-map tables: bits msb..lsb of the word go to bits From()..lshift. */
  datatype Slice = Slice(msb: nat, lsb: nat, lshift: nat, sign: bool) {
    function From(): int { lshift + msb - lsb }

    predicate Valid() { lsb <= msb < 32 && lshift < 32 }

    predicate Source(j: nat) { lsb <= j <= msb }

    predicate Target(i: nat) { lshift <= i <= From() }

    /** The slice brings a set bit of the word to bit `i` of the immediate. */
    predicate Carries(word: Word, i: nat)
      requires Valid()
    {
      Target(i) && Bit(word, i - lshift + lsb)
    }
  }

  ghost predicate AllValid(slices: seq<Slice>) {
    forall k :: 0 <= k < |slices| ==> slices[k].Valid()
  }

  /** `getBits<msb, lsb>(word) << Word(lshift)`. */
  function TakeSlice(s: Slice, word: Word): (r: nat)
    requires s.Valid()
    ensures r < WORD_LIMIT
  {
    Pow2Values();
    GetBitsBound(s, word);
    Shl(32, GetBits(32, s.msb, s.lsb, word), s.lshift)
  }

  lemma GetBitsBound(s: Slice, word: Word)
    requires s.Valid()
    ensures word < Pow2(32) && GetBits(32, s.msb, s.lsb, word) < Pow2(32)
  {
    Pow2Values();
    GetBitsIsDivMod(32, s.msb, s.lsb, word);
    Pow2Monotone(s.msb - s.lsb + 1, 32);
  }

  lemma ShiftedBits(n: nat, hi: nat, lo: nat, s: nat, word: nat, i: nat)
    requires lo <= hi < n && word < Pow2(n)
    ensures GetBits(n, hi, lo, word) < Pow2(n)
    ensures Bit(Shl(n, GetBits(n, hi, lo, word), s), i) <==> s <= i < n && i - s <= hi - lo && Bit(word, i - s + lo)
  {
    GetBitsIsDivMod(n, hi, lo, word);
    Pow2Monotone(hi - lo + 1, n);
    ShlBit(n, GetBits(n, hi, lo, word), s, i);
    if i >= s { GetBitsBit(n, hi, lo, word, i - s); }
  }

  lemma TakeSliceBit(s: Slice, word: Word, i: nat)
    requires s.Valid()
    ensures Bit(TakeSlice(s, word), i) <==> i < 32 && s.Carries(word, i)
  {
    Pow2Values();
    ShiftedBits(32, s.msb, s.lsb, s.lshift, word, i);
  }

  /** The value of `imm` after the emitted `|=` statements. */
  function Gather(slices: seq<Slice>, word: Word): (r: nat)
    requires AllValid(slices)
    ensures r < WORD_LIMIT
  {
    if slices == [] then 0
    else
      var n := |slices| - 1;
      Pow2Values();
      OpBounds(Gather(slices[..n], word), TakeSlice(slices[n], word), 32);
      Or(Gather(slices[..n], word), TakeSlice(slices[n], word))
  }

  ghost predicate Carried(slices: seq<Slice>, word: Word, i: nat)
    requires AllValid(slices)
  {
    exists k :: 0 <= k < |slices| && slices[k].Carries(word, i)
  }

  lemma CarriedByLast(slices: seq<Slice>, word: Word, i: nat)
    requires AllValid(slices) && slices != []
    ensures Carried(slices, word, i) <==>
            Carried(slices[..|slices| - 1], word, i) || slices[|slices| - 1].Carries(word, i)
  {
    var n := |slices| - 1;
    assert forall k :: 0 <= k < n ==> slices[..n][k] == slices[k];
    if k :| 0 <= k < n && slices[..n][k].Carries(word, i) {
      assert slices[k].Carries(word, i);
    }
  }

  /** A bit of the gathered value is set exactly when some slice carries a set bit to it. */
  lemma {:induction false} GatherBit(slices: seq<Slice>, word: Word, i: nat)
    requires AllValid(slices)
    ensures Bit(Gather(slices, word), i) <==> i < 32 && Carried(slices, word, i)
  {
    if slices == [] {
      ZeroBit(i);
    } else {
      var n := |slices| - 1;
      GatherBit(slices[..n], word, i);
      TakeSliceBit(slices[n], word, i);
      OrBit(Gather(slices[..n], word), TakeSlice(slices[n], word), i);
      CarriedByLast(slices, word, i);
    }
  }

  function MaxFrom(slices: seq<Slice>): nat {
    if slices == [] then 0
    else
      var n := |slices| - 1;
      var m, f := MaxFrom(slices[..n]), slices[n].From();
      if f > m then f else m
  }

  predicate AllSigned(slices: seq<Slice>) {
    forall k :: 0 <= k < |slices| ==> slices[k].sign
  }

  /** The immediate the emitted code computes: gathered, then sign-extended unless some slice is unsigned. */
  function Immediate(slices: seq<Slice>, word: Word): (r: nat)
    requires AllValid(slices) && (AllSigned(slices) ==> MaxFrom(slices) < 32)
    ensures r < WORD_LIMIT
  {
    var imm := Gather(slices, word);
    if AllSigned(slices) then
      SignExtendKeepsValue(32, MaxFrom(slices) + 1, imm);
      SignExtend(32, MaxFrom(slices) + 1, imm)
    else imm
  }

  // ----- the encoder -----

  /** An n-bit word with bits hi..lo replaced by the low bits of a value. */
  function InsertBits(n: nat, hi: nat, lo: nat, value: nat, word: nat): (r: nat)
    requires lo <= hi < n && word < Pow2(n)
    ensures r < Pow2(n)
  {
    var width := hi - lo + 1;
    Pow2Monotone(width, n);
    var mask := Shl(n, Pow2(width) - 1, lo);
    var kept := And(word, Not(n, mask));
    var field := Shl(n, value % Pow2(width), lo);
    OpBounds(word, Not(n, mask), n);
    OpBounds(kept, field, n);
    Or(kept, field)
  }

  /** The word with the source bits of one slice replaced by the bits of `v` they carry. */
  function Insert(s: Slice, v: Word, word: Word): (r: nat)
    requires s.Valid()
    ensures r < WORD_LIMIT
  {
    Pow2Values();
    InsertBits(32, s.msb, s.lsb, Shr(v, s.lshift), word)
  }

  lemma {:induction false} OnesBit(width: nat, i: nat)
    ensures Bit(Pow2(width) - 1, i) <==> i < width
    decreases width
  {
    if width == 0 {
      ZeroBit(i);
    } else if i > 0 {
      assert (Pow2(width) - 1) / 2 == Pow2(width - 1) - 1;
      OnesBit(width - 1, i - 1);
    }
  }

  /** Bit j of the field as it is put into the word. */
  lemma FieldBit(n: nat, hi: nat, lo: nat, value: nat, j: nat)
    requires lo <= hi < n
    ensures var field := value % Pow2(hi - lo + 1);
            field < Pow2(n) && (Bit(Shl(n, field, lo), j) <==> lo <= j <= hi && Bit(value, j - lo))
  {
    var width := hi - lo + 1;
    Pow2Monotone(width, n);
    ShlBit(n, value % Pow2(width), lo, j);
    if j >= lo {
      ModBit(value, width, j - lo);
    }
  }

  /** Bit j of the mask over the field. */
  lemma MaskBit(n: nat, hi: nat, lo: nat, j: nat)
    requires lo <= hi < n
    ensures var ones := Pow2(hi - lo + 1) - 1;
            ones < Pow2(n) && (Bit(Shl(n, ones, lo), j) <==> lo <= j <= hi)
  {
    var width := hi - lo + 1;
    Pow2Monotone(width, n);
    ShlBit(n, Pow2(width) - 1, lo, j);
    if j >= lo {
      OnesBit(width, j - lo);
    }
  }

  lemma InsertBitsBit(n: nat, hi: nat, lo: nat, value: nat, word: nat, j: nat)
    requires lo <= hi < n && word < Pow2(n)
    ensures Bit(InsertBits(n, hi, lo, value, word), j) <==> if lo <= j <= hi then Bit(value, j - lo) else Bit(word, j)
  {
    MaskBit(n, hi, lo, j);
    FieldBit(n, hi, lo, value, j);
    var mask := Shl(n, Pow2(hi - lo + 1) - 1, lo);
    var field := Shl(n, value % Pow2(hi - lo + 1), lo);
    OrBit(And(word, Not(n, mask)), field, j);
    AndBit(word, Not(n, mask), j);
    NotBit(n, mask, j);
    HighBit(word, n, j);
  }

  lemma InsertedBit(n: nat, hi: nat, lo: nat, v: nat, shift: nat, word: nat, d: nat)
    requires lo + d <= hi < n && word < Pow2(n)
    ensures Bit(InsertBits(n, hi, lo, Shr(v, shift), word), lo + d) <==> Bit(v, d + shift)
  {
    InsertBitsBit(n, hi, lo, Shr(v, shift), word, lo + d);
    ShrBit(v, shift, d);
  }

  /** Bit d of the field. */
  lemma InsertSource(s: Slice, v: Word, word: Word, d: nat)
    requires s.Valid() && s.lsb + d <= s.msb
    ensures Bit(Insert(s, v, word), s.lsb + d) <==> Bit(v, d + s.lshift)
  {
    Pow2Values();
    InsertedBit(32, s.msb, s.lsb, v, s.lshift, word, d);
  }

  lemma InsertElsewhere(s: Slice, v: Word, word: Word, j: nat)
    requires s.Valid() && !s.Source(j)
    ensures Bit(Insert(s, v, word), j) <==> Bit(word, j)
  {
    Pow2Values();
    InsertBitsBit(32, s.msb, s.lsb, Shr(v, s.lshift), word, j);
  }

  function Scatter(slices: seq<Slice>, v: Word, word: Word): (r: nat)
    requires AllValid(slices)
    ensures r < WORD_LIMIT
  {
    if slices == [] then word
    else Insert(slices[|slices| - 1], v, Scatter(slices[..|slices| - 1], v, word))
  }

  ghost predicate DisjointSources(slices: seq<Slice>) {
    forall k, l, j: nat :: 0 <= k < l < |slices| ==> !(slices[k].Source(j) && slices[l].Source(j))
  }

  ghost predicate DisjointTargets(slices: seq<Slice>) {
    forall k, l, i: nat :: 0 <= k < l < |slices| ==> !(slices[k].Target(i) && slices[l].Target(i))
  }

  ghost predicate Reaches(slices: seq<Slice>, i: nat) {
    exists k :: 0 <= k < |slices| && slices[k].Target(i)
  }

  /** The slices reach exactly the bits base..top. */
  ghost predicate Tiles(slices: seq<Slice>, base: nat, top: nat) {
    forall i: nat :: Reaches(slices, i) <==> base <= i <= top
  }

  /** A source bit holds what its slice carries; every other bit is untouched. */
  lemma ScatterBit(slices: seq<Slice>, v: Word, word: Word, j: nat)
    requires AllValid(slices) && DisjointSources(slices)
    ensures forall k :: 0 <= k < |slices| && slices[k].Source(j) ==>
              (Bit(Scatter(slices, v, word), j) <==> Bit(v, j - slices[k].lsb + slices[k].lshift))
    ensures (forall k :: 0 <= k < |slices| ==> !slices[k].Source(j)) ==>
              (Bit(Scatter(slices, v, word), j) <==> Bit(word, j))
  {
    forall k | 0 <= k < |slices| && slices[k].Source(j)
      ensures Bit(Scatter(slices, v, word), j) <==> Bit(v, j - slices[k].lsb + slices[k].lshift)
    {
      ScatterSource(slices, v, word, k, j, j - slices[k].lsb + slices[k].lshift);
    }
    if forall k :: 0 <= k < |slices| ==> !slices[k].Source(j) {
      ScatterElsewhere(slices, v, word, j);
    }
  }

  lemma PrefixDisjoint(slices: seq<Slice>, n: nat)
    requires AllValid(slices) && DisjointSources(slices) && n <= |slices|
    ensures AllValid(slices[..n]) && DisjointSources(slices[..n])
    ensures forall k :: 0 <= k < n ==> slices[..n][k] == slices[k]
  {}

  /** Where another slice reads, this one does not. */
  lemma OtherSource(slices: seq<Slice>, k: nat, l: nat, j: nat)
    requires DisjointSources(slices) && k < l < |slices| && slices[k].Source(j)
    ensures !slices[l].Source(j)
  {}

  lemma {:induction false} ScatterSource(slices: seq<Slice>, v: Word, word: Word, k: nat, j: nat, i: nat)
    requires AllValid(slices) && DisjointSources(slices) && k < |slices| && slices[k].Source(j)
    requires i == j - slices[k].lsb + slices[k].lshift
    ensures Bit(Scatter(slices, v, word), j) <==> Bit(v, i)
    decreases |slices|
  {
    var n := |slices| - 1;
    PrefixDisjoint(slices, n);
    if k == n {
      ScatterFirst(slices, v, word, j, i);
    } else {
      OtherSource(slices, k, n, j);
      ScatterSource(slices[..n], v, word, k, j, i);
      ScatterLast(slices, v, word, j);
    }
  }

  lemma ScatterFirst(slices: seq<Slice>, v: Word, word: Word, j: nat, i: nat)
    requires AllValid(slices) && slices != [] && slices[|slices| - 1].Source(j)
    requires i == j - slices[|slices| - 1].lsb + slices[|slices| - 1].lshift
    ensures Bit(Scatter(slices, v, word), j) <==> Bit(v, i)
  {
    var s := slices[|slices| - 1];
    InsertSource(s, v, Scatter(slices[..|slices| - 1], v, word), j - s.lsb);
  }

  lemma ScatterLast(slices: seq<Slice>, v: Word, word: Word, j: nat)
    requires AllValid(slices) && slices != [] && !slices[|slices| - 1].Source(j)
    ensures AllValid(slices[..|slices| - 1])
    ensures Bit(Scatter(slices, v, word), j) <==> Bit(Scatter(slices[..|slices| - 1], v, word), j)
  {
    InsertElsewhere(slices[|slices| - 1], v, Scatter(slices[..|slices| - 1], v, word), j);
  }

  lemma {:induction false} ScatterElsewhere(slices: seq<Slice>, v: Word, word: Word, j: nat)
    requires AllValid(slices) && forall k :: 0 <= k < |slices| ==> !slices[k].Source(j)
    ensures Bit(Scatter(slices, v, word), j) <==> Bit(word, j)
  {
    if slices != [] {
      var n := |slices| - 1;
      InsertElsewhere(slices[n], v, Scatter(slices[..n], v, word), j);
      ScatterElsewhere(slices[..n], v, word, j);
    }
  }

  /** Gathering what was scattered gives back the tiled bits of the value. */
  lemma GatherScatter(slices: seq<Slice>, base: nat, top: nat, v: Word, word: Word, i: nat)
    requires AllValid(slices) && DisjointSources(slices) && Tiles(slices, base, top) && top < 32
    ensures Bit(Gather(slices, Scatter(slices, v, word)), i) <==> base <= i <= top && Bit(v, i)
  {
    var e := Scatter(slices, v, word);
    GatherBit(slices, e, i);
    assert Reaches(slices, i) <==> base <= i <= top;
    forall k | 0 <= k < |slices| && slices[k].Target(i)
      ensures Bit(e, i - slices[k].lshift + slices[k].lsb) <==> Bit(v, i)
    {
      assert slices[k].Source(i - slices[k].lshift + slices[k].lsb);
      ScatterBit(slices, v, word, i - slices[k].lshift + slices[k].lsb);
    }
  }

  lemma {:induction false} MaxFromBounds(slices: seq<Slice>)
    requires AllValid(slices)
    ensures forall k :: 0 <= k < |slices| ==> slices[k].From() <= MaxFrom(slices)
    ensures MaxFrom(slices) == 0 || exists k :: 0 <= k < |slices| && slices[k].From() == MaxFrom(slices)
  {
    if slices != [] {
      var n := |slices| - 1;
      MaxFromBounds(slices[..n]);
      assert forall k :: 0 <= k < n ==> slices[..n][k] == slices[k];
      if MaxFrom(slices) == MaxFrom(slices[..n]) && MaxFrom(slices) != 0 {
        var k :| 0 <= k < n && slices[..n][k].From() == MaxFrom(slices);
        assert slices[k].From() == MaxFrom(slices);
      }
    }
  }

  lemma TilesMaxFrom(slices: seq<Slice>, base: nat, top: nat)
    requires AllValid(slices) && Tiles(slices, base, top) && base <= top
    ensures MaxFrom(slices) == top
  {
    MaxFromBounds(slices);
    assert Reaches(slices, top);
    var k :| 0 <= k < |slices| && slices[k].Target(top);
    assert forall l :: 0 <= l < |slices| && slices[l].From() >= 0 ==> slices[l].Target(slices[l].From());
    assert forall l :: 0 <= l < |slices| && slices[l].From() >= 0 ==> Reaches(slices, slices[l].From());
  }

  /** Decoding undoes encoding, for every layout: sources disjoint, targets tiling base..top.  Every
      signed value of top + 1 bits that is a multiple of 2^base comes back. */
  lemma DecodeUndoesEncode(slices: seq<Slice>, base: nat, top: nat, x: int, word: Word)
    requires AllValid(slices) && DisjointSources(slices) && Tiles(slices, base, top) && base <= top < 32
    requires AllSigned(slices)
    requires 0 <= x + Pow2(top) < Pow2(top + 1) && x % Pow2(base) == 0
    ensures MaxFrom(slices) == top
    ensures AsSigned(32, Immediate(slices, Scatter(slices, x % WORD_LIMIT, word))) == x
  {
    TilesMaxFrom(slices, base, top);
    var v, n := x % WORD_LIMIT, top + 1;
    ModOfMod(x, base);
    ModOfMod(x, n);
    GatherOfScatter(slices, base, top, v, word);
    ExtendedEncoding(n, x, v % Pow2(n));
  }

  lemma ExtendedEncoding(n: nat, x: int, g: Word)
    requires 0 < n <= 32 && 0 <= x + Pow2(n - 1) && x < Pow2(n - 1) && g == x % Pow2(n)
    ensures SignExtend(32, n, g) < WORD_LIMIT && AsSigned(32, SignExtend(32, n, g)) == x
  {
    AsSignedOfEncoding(n, x);
    SignExtendKeepsValue(32, n, g);
  }

  lemma GatherOfScatter(slices: seq<Slice>, base: nat, top: nat, v: Word, word: Word)
    requires AllValid(slices) && DisjointSources(slices) && Tiles(slices, base, top) && base <= top < 32
    requires v % Pow2(base) == 0
    ensures Gather(slices, Scatter(slices, v, word)) == v % Pow2(top + 1)
    ensures v % Pow2(top + 1) < WORD_LIMIT
  {
    var g, n := Gather(slices, Scatter(slices, v, word)), top + 1;
    forall i: nat ensures Bit(g, i) <==> Bit(v % Pow2(n), i) {
      GatherScatter(slices, base, top, v, word, i);
      ModBit(v, n, i);
      ModBit(v, base, i);
      ZeroBit(i);
    }
    Pow2Values();
    Pow2Monotone(n, 32);
    SameBits(g, v % Pow2(n), 32);
  }

  /** The same for unsigned layouts: every value of top + 1 bits that is a multiple of 2^base. */
  lemma DecodeUndoesEncodeUnsigned(slices: seq<Slice>, base: nat, top: nat, x: Word, word: Word)
    requires AllValid(slices) && DisjointSources(slices) && Tiles(slices, base, top) && base <= top < 32
    requires !AllSigned(slices)
    requires x < Pow2(top + 1) && x % Pow2(base) == 0
    ensures Immediate(slices, Scatter(slices, x, word)) == x
  {
    GatherOfScatter(slices, base, top, x, word);
    SmallMod(x, Pow2(top + 1));
  }

  /** Sign extension leaves the bits it extends alone. */
  lemma ExtensionKeepsBits(n: nat, g: Word, i: nat)
    requires 0 < n <= 32 && i < n
    ensures SignExtend(32, n, g) < WORD_LIMIT
    ensures Bit(SignExtend(32, n, g), i) <==> Bit(g, i)
  {
    SignExtendKeepsValue(32, n, g);
    if n < 32 {
      var v := AsSigned(n, g);
      SignExtendIsEncoding(32, n, g);
      Pow2Values();
      ModOfMod(v, n);
      ModBit(v % WORD_LIMIT, n, i);
      SignedSameResidue(n, g);
      ModBit(g, n, i);
    }
  }

  /** And copies the topmost of them into every bit above. */
  lemma ExtensionCopiesTop(n: nat, g: Word, i: nat)
    requires 0 < n <= i < 32
    ensures SignExtend(32, n, g) < WORD_LIMIT
    ensures Bit(SignExtend(32, n, g), i) <==> Bit(g, n - 1)
  {
    SignExtendKeepsValue(32, n, g);
    SignExtendIsEncoding(32, n, g);
    SignCopied(32, n, g, i);
  }

  lemma SignCopied(size: nat, n: nat, g: nat, i: nat)
    requires 0 < n <= i < size
    ensures Bit(AsSigned(n, g) % Pow2(size), i) <==> Bit(g, n - 1)
  {
    var z := g % Pow2(n);
    ModBit(g, n, n - 1);
    Pow2Monotone(n, size);
    if z < Pow2(n - 1) {
      ModUnique(z, Pow2(size), 0, z);
      HighBit(z, n - 1, n - 1);
      HighBit(z, n - 1, i);
    } else {
      var high := z - Pow2(n) + Pow2(size);
      ModUnique(z - Pow2(n), Pow2(size), -1, high);
      TopOnes(n, n - 1, z, n - 1);
      TopOnes(size, n, high, i);
    }
  }

  /** The largest numbers below a power of two begin with ones. */
  lemma {:induction false} TopOnes(size: nat, k: nat, a: nat, i: nat)
    requires k <= i < size && Pow2(size) - Pow2(k) <= a < Pow2(size)
    ensures Bit(a, i)
    decreases k
  {
    if k == 0 {
      OnesBit(size, i);
    } else {
      TopOnes(size - 1, k - 1, a / 2, i - 1);
    }
  }

  /** A bit of a signed immediate is the one carried there, or the topmost above the slices' reach. */
  lemma ImmediateBit(slices: seq<Slice>, word: Word, i: nat)
    requires AllValid(slices) && AllSigned(slices) && MaxFrom(slices) < 32
    ensures Bit(Immediate(slices, word), i) <==>
            i < 32 && Carried(slices, word, if i <= MaxFrom(slices) then i else MaxFrom(slices))
  {
    var g, n := Gather(slices, word), MaxFrom(slices) + 1;
    if i < n {
      ExtensionKeepsBits(n, g, i);
      GatherBit(slices, word, i);
    } else if i < 32 {
      ExtensionCopiesTop(n, g, i);
      GatherBit(slices, word, n - 1);
    } else {
      Pow2Values();
      HighBit(Immediate(slices, word), 32, i);
    }
  }

  lemma SignedSameResidue(n: nat, g: Word)
    requires n > 0
    ensures AsSigned(n, g) % Pow2(n) == g % Pow2(n)
  {
    var z := g % Pow2(n);
    if z >= Pow2(n - 1) {
      ModUnique(AsSigned(n, g), Pow2(n), -1, z);
    } else {
      ModUnique(z, Pow2(n), 0, z);
    }
  }

  /** Encoding undoes decoding: scattering the decoded immediate of a word, or only its gathered bits, changes
      nothing in the word. */
  lemma EncodeUndoesDecode(slices: seq<Slice>, word: Word)
    requires AllValid(slices) && DisjointSources(slices) && DisjointTargets(slices)
    requires forall k :: 0 <= k < |slices| ==> slices[k].From() < 32
    ensures MaxFrom(slices) < 32
    ensures Scatter(slices, Immediate(slices, word), word) == word
    ensures Scatter(slices, Gather(slices, word), word) == word
  {
    MaxFromBounds(slices);
    EncodeUndoesGather(slices, word, Gather(slices, word));
    forall i: nat | i <= MaxFrom(slices)
      ensures Bit(Immediate(slices, word), i) <==> Bit(Gather(slices, word), i)
    {
      if AllSigned(slices) { ExtensionKeepsBits(MaxFrom(slices) + 1, Gather(slices, word), i); }
    }
    EncodeUndoesGather(slices, word, Immediate(slices, word));
  }

  /** For any value that has the gathered bits where slices reach. */
  lemma EncodeUndoesGather(slices: seq<Slice>, word: Word, v: Word)
    requires AllValid(slices) && DisjointSources(slices) && DisjointTargets(slices)
    requires forall k :: 0 <= k < |slices| ==> slices[k].From() < 32
    requires forall i: nat :: i <= MaxFrom(slices) ==> (Bit(v, i) <==> Bit(Gather(slices, word), i))
    ensures Scatter(slices, v, word) == word
  {
    forall j: nat ensures Bit(Scatter(slices, v, word), j) <==> Bit(word, j) {
      if k :| 0 <= k < |slices| && slices[k].Source(j) {
        EncodedBit(slices, word, v, k, j);
      } else {
        ScatterElsewhere(slices, v, word, j);
      }
    }
    Pow2Values();
    SameBits(Scatter(slices, v, word), word, 32);
  }

  lemma EncodedBit(slices: seq<Slice>, word: Word, v: Word, k: nat, j: nat)
    requires AllValid(slices) && DisjointSources(slices) && DisjointTargets(slices)
    requires k < |slices| && slices[k].Source(j) && slices[k].From() < 32
    requires forall i: nat :: i <= MaxFrom(slices) ==> (Bit(v, i) <==> Bit(Gather(slices, word), i))
    ensures Bit(Scatter(slices, v, word), j) <==> Bit(word, j)
  {
    var d := j - slices[k].lsb;
    var i := d + slices[k].lshift;
    MaxFromBounds(slices);
    ScatterSource(slices, v, word, k, j, i);
    GatherSource(slices, word, k, d);
  }

  lemma OnlyTarget(slices: seq<Slice>, k: nat, i: nat)
    requires DisjointTargets(slices) && k < |slices| && slices[k].Target(i)
    ensures forall l :: 0 <= l < |slices| && slices[l].Target(i) ==> l == k
  {}

  /** Bit d of a slice, in the gathered immediate and in the word. */
  lemma GatherSource(slices: seq<Slice>, word: Word, k: nat, d: nat)
    requires AllValid(slices) && DisjointTargets(slices) && k < |slices|
    requires slices[k].lsb + d <= slices[k].msb && slices[k].From() < 32
    ensures Bit(Gather(slices, word), d + slices[k].lshift) <==> Bit(word, slices[k].lsb + d)
  {
    var i := d + slices[k].lshift;
    GatherBit(slices, word, i);
    OnlyTarget(slices, k, i);
    assert slices[k].Carries(word, i) <==> Bit(word, i - slices[k].lshift + slices[k].lsb);
    assert Carried(slices, word, i) <==> slices[k].Carries(word, i);
  }
}
