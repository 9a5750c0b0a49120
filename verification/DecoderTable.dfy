/** The instruction table the decoder is generated from, and what decoding a word by it means:
    the first entry, in table order, whose pattern the word matches fills the instruction.
  */
module DecoderTable {
  import opened Bits
  import opened Wrappers
  import opened Instructions
  import opened Immediates

  datatype RegField = Rm | Rd | Csr | Rs2 | Rs1 | Rs3

  datatype ImmField =
    | Imm20 | Jimm20 | Succ | Pred | Fm | Imm12 | Zimm | Aq | Rl
    | Bimm12hi | Bimm12lo | Imm12hi | Imm12lo | Shamtw

  /** An element of `variable_fields`; `Unrecognized` is a name in neither dictionary. */
  datatype Field = Reg(reg: RegField) | Imm(imm: ImmField) | Unrecognized

  datatype Entry = Entry(name: OpType, fields: seq<Field>, mask: Word, matched: Word)

  function RegDict(r: RegField): (s: Slice)
    ensures s.Valid() && s.lshift == 0 && s.msb - s.lsb < if r == Csr then 12 else 5
  {
    match r
    case Rm => Slice(14, 12, 0, true)
    case Rd => Slice(11, 7, 0, true)
    case Csr => Slice(31, 20, 0, true)
    case Rs2 => Slice(24, 20, 0, true)
    case Rs1 => Slice(19, 15, 0, true)
    case Rs3 => Slice(31, 27, 0, true)
  }

  function ImmDict(f: ImmField): (s: seq<Slice>)
    ensures AllValid(s) && forall k :: 0 <= k < |s| ==> s[k].From() < 32
  {
    match f
    case Imm20 => [Slice(31, 12, 12, true)]
    case Jimm20 => [Slice(31, 31, 20, true), Slice(30, 21, 1, true), Slice(20, 20, 11, true), Slice(19, 12, 12, true)]
    case Succ => [Slice(23, 20, 0, true)]
    case Pred => [Slice(27, 24, 4, true)]
    case Fm => [Slice(31, 28, 8, true)]
    case Imm12 => [Slice(31, 20, 0, true)]
    case Zimm => [Slice(19, 15, 0, false)]
    case Aq => [Slice(26, 26, 1, true)]
    case Rl => [Slice(25, 25, 0, true)]
    case Bimm12hi => [Slice(31, 31, 12, true), Slice(30, 25, 5, true)]
    case Bimm12lo => [Slice(11, 8, 1, true), Slice(7, 7, 11, true)]
    case Imm12hi => [Slice(31, 25, 5, true)]
    case Imm12lo => [Slice(11, 7, 0, true)]
    case Shamtw => [Slice(24, 20, 0, true)]
  }

  predicate Matches(e: Entry, w: Word) { And(w, e.mask) == e.matched }

  predicate Recognized(e: Entry) { Unrecognized !in e.fields }

  /** All slices of the immediate fields, in field order. */
  function ImmSlices(fields: seq<Field>, dict: ImmField -> seq<Slice>): seq<Slice> {
    if fields == [] then []
    else
      var init, last := ImmSlices(fields[..|fields| - 1], dict), fields[|fields| - 1];
      if last.Imm? then init + dict(last.imm) else init
  }

  lemma {:induction false} ImmSlicesValid(fields: seq<Field>)
    ensures AllValid(ImmSlices(fields, ImmDict)) && MaxFrom(ImmSlices(fields, ImmDict)) < 32
    ensures forall k :: 0 <= k < |ImmSlices(fields, ImmDict)| ==> ImmSlices(fields, ImmDict)[k].From() < 32
  {
    if fields != [] { ImmSlicesValid(fields[..|fields| - 1]); }
    MaxFromBounds(ImmSlices(fields, ImmDict));
  }

  function RegOf(fields: seq<Field>, r: RegField, w: Word): nat {
    var s := RegDict(r);
    Pow2Values();
    if Reg(r) in fields then GetBits(32, s.msb, s.lsb, w) else 0
  }

  /** The instruction an entry describes: named fields from their bits, everything else zero. */
  function Describe(e: Entry, fields: seq<Field>, imm: Word, w: Word): Instruction {
    Instruction(RegOf(fields, Rs1, w), RegOf(fields, Rs2, w), RegOf(fields, Rs3, w), RegOf(fields, Rd, w),
                RegOf(fields, Rm, w), RegOf(fields, Csr, w),
                e.name, imm, e.name in BRANCH_MNEMONICS, e.name)
  }

  function DecodeEntry(e: Entry, w: Word): Instruction {
    ImmSlicesValid(e.fields);
    Describe(e, e.fields, Immediate(ImmSlices(e.fields, ImmDict), w), w)
  }

  function FirstMatch(table: seq<Entry>, w: Word): Option<Entry> {
    if table == [] then None
    else
      var earlier, last := FirstMatch(table[..|table| - 1], w), table[|table| - 1];
      if earlier.Some? then earlier else if Matches(last, w) then Some(last) else None
  }

  function Answer(o: Option<Entry>, w: Word): Option<Instruction> {
    match o case None => None case Some(e) => Some(DecodeEntry(e, w))
  }

  function Decode(table: seq<Entry>, w: Word): Instruction {
    var o := FirstMatch(table, w);
    if o.Some? then DecodeEntry(o.value, w) else NO_INSTRUCTION
  }

  lemma RegOfBound(fields: seq<Field>, r: RegField, w: Word)
    ensures RegOf(fields, r, w) < (if r == Csr then 4096 else 32)
  {
    Pow2Values();
    var s := RegDict(r);
    GetBitsIsDivMod(32, s.msb, s.lsb, w);
    Pow2Monotone(s.msb - s.lsb + 1, if r == Csr then 12 else 5);
  }

  /** Where the register fields are: rd at bit 7, rs1 at 15, rs2 at 20, rs3 at 27, five bits each; rm three bits
      at 12; csr the upper twelve.  What the entry does not list stays zero. */
  lemma DecodedFields(e: Entry, w: Word)
    ensures var inst := DecodeEntry(e, w);
            && inst.rd == (if Reg(Rd) in e.fields then w / 0x80 % 32 else 0)
            && inst.rs1 == (if Reg(Rs1) in e.fields then w / 0x8000 % 32 else 0)
            && inst.rs2 == (if Reg(Rs2) in e.fields then w / 0x10_0000 % 32 else 0)
            && inst.rs3 == (if Reg(Rs3) in e.fields then w / 0x800_0000 % 32 else 0)
            && inst.rm == (if Reg(Rm) in e.fields then w / 0x1000 % 8 else 0)
            && inst.csr == (if Reg(Csr) in e.fields then w / 0x10_0000 % 4096 else 0)
            && inst.optype == e.name && inst.callback == e.name
  {
    FieldWeights();
    FieldIs(e.fields, Rd, w, 7, 5, 0x80, 32);
    FieldIs(e.fields, Rs1, w, 15, 5, 0x8000, 32);
    FieldIs(e.fields, Rs2, w, 20, 5, 0x10_0000, 32);
    FieldIs(e.fields, Rs3, w, 27, 5, 0x800_0000, 32);
    FieldIs(e.fields, Rm, w, 12, 3, 0x1000, 8);
    FieldIs(e.fields, Csr, w, 20, 12, 0x10_0000, 4096);
  }

  lemma FieldIs(fields: seq<Field>, r: RegField, w: Word, low: nat, width: nat, p: nat, q: nat)
    requires width > 0 && low + width <= 32 && RegDict(r) == Slice(low + width - 1, low, 0, true)
    requires p == Pow2(low) && q == Pow2(width)
    ensures RegOf(fields, r, w) == if Reg(r) in fields then w / p % q else 0
  {
    Pow2Values();
    GetBitsIsDivMod(32, low + width - 1, low, w);
  }

  lemma FieldWeights()
    ensures Pow2(3) == 8 && Pow2(5) == 32 && Pow2(7) == 0x80 && Pow2(12) == 0x1000 && Pow2(15) == 0x8000
    ensures Pow2(20) == 0x10_0000 && Pow2(27) == 0x800_0000
  {
    Pow2Values();
    Pow2Add(5, 2);
    Pow2Add(12, 3);
    Pow2Add(20, 7);
  }

  /** No table can make the decoder produce an index outside the register files, call something that
      is not the named operation, or misplace the branch flag. */
  lemma DecodedIsSafe(table: seq<Entry>, w: Word)
    ensures var inst := Decode(table, w);
            && inst.InRange()
            && inst.callback == inst.optype
            && (inst.isBranch <==> inst.callback in BRANCH_MNEMONICS)
            && (FirstMatch(table, w).Some? ==> inst.optype == FirstMatch(table, w).value.name)
  {
    var o := FirstMatch(table, w);
    if o.Some? {
      EntryIsSafe(o.value, w);
    }
  }

  lemma EntryIsSafe(e: Entry, w: Word)
    ensures DecodeEntry(e, w).InRange()
  {
    RegOfBound(e.fields, Rm, w); RegOfBound(e.fields, Rd, w); RegOfBound(e.fields, Csr, w);
    RegOfBound(e.fields, Rs2, w); RegOfBound(e.fields, Rs1, w); RegOfBound(e.fields, Rs3, w);
  }

  // ----- the standard immediate formats -----

  /** Sources disjoint, targets disjoint and tiling base..top, all slices signed. */
  ghost predicate Layout(slices: seq<Slice>, base: nat, top: nat) {
    && AllValid(slices) && AllSigned(slices) && base <= top < 32
    && DisjointSources(slices) && DisjointTargets(slices) && Tiles(slices, base, top)
  }

  lemma LayoutByWitness(slices: seq<Slice>, base: nat, top: nat, at: seq<nat>)
    requires AllValid(slices) && AllSigned(slices) && base <= top < 32
    requires DisjointSources(slices) && DisjointTargets(slices)
    requires forall k :: 0 <= k < |slices| ==> base <= slices[k].lshift && slices[k].From() <= top
    requires |at| == 32
    requires forall i: nat :: base <= i <= top ==> at[i] < |slices| && slices[at[i]].Target(i)
    ensures Layout(slices, base, top)
  {
    forall i: nat ensures Reaches(slices, i) <==> base <= i <= top {
      if base <= i <= top { assert slices[at[i]].Target(i); }
    }
  }

  lemma BranchLayout()
    ensures Layout(ImmDict(Bimm12hi) + ImmDict(Bimm12lo), 1, 12)
  {
    LayoutByWitness(ImmDict(Bimm12hi) + ImmDict(Bimm12lo), 1, 12,
                    seq(32, i => if i == 12 then 0 else if i == 11 then 3 else if i >= 5 then 1 else 2));
  }

  lemma JumpLayout()
    ensures Layout(ImmDict(Jimm20), 1, 20)
  {
    LayoutByWitness(ImmDict(Jimm20), 1, 20,
                    seq(32, i => if i == 20 then 0 else if i >= 12 then 3 else if i == 11 then 2 else 1));
  }

  lemma StoreLayout()
    ensures Layout(ImmDict(Imm12hi) + ImmDict(Imm12lo), 0, 11)
  {
    LayoutByWitness(ImmDict(Imm12hi) + ImmDict(Imm12lo), 0, 11, seq(32, i => if i >= 5 then 0 else 1));
  }

  datatype Format = I | S | B | U | J {
    function Slices(): seq<Slice> {
      match this
      case I => ImmDict(Imm12)
      case S => ImmDict(Imm12hi) + ImmDict(Imm12lo)
      case B => ImmDict(Bimm12hi) + ImmDict(Bimm12lo)
      case U => ImmDict(Imm20)
      case J => ImmDict(Jimm20)
    }

    function Base(): nat { match this case U => 12 case B => 1 case J => 1 case _ => 0 }

    function Top(): nat { match this case B => 12 case U => 31 case J => 20 case _ => 11 }
  }

  lemma FormatLayout(f: Format)
    ensures Layout(f.Slices(), f.Base(), f.Top())
  {
    match f
    case I => LayoutByWitness(f.Slices(), 0, 11, seq(32, _ => 0));
    case S => StoreLayout();
    case B => BranchLayout();
    case U => LayoutByWitness(f.Slices(), 12, 31, seq(32, _ => 0));
    case J => JumpLayout();
  }

  /** Which bit of the instruction is bit `i` of the immediate, after section 2.3 of the RISC-V Unprivileged ISA
      manual (20191213): the topmost is always bit 31, and is copied upwards. */
  function ManualSource(f: Format, i: nat): (j: nat)
    requires f.Base() <= i < 32
    ensures j < 32
  {
    if i >= f.Top() then 31
    else
      match f
      case I => 20 + i
      case S => if i <= 4 then 7 + i else 20 + i
      case B => if i == 11 then 7 else if i >= 5 then 20 + i else 7 + i
      case U => i
      case J => if i >= 12 then i else if i == 11 then 20 else 20 + i
  }

  /** The field table slices each format as the manual lays it out. */
  lemma FormatIsManual(f: Format, w: Word, i: nat)
    ensures MaxFrom(f.Slices()) < 32 && AllSigned(f.Slices())
    ensures Bit(Immediate(f.Slices(), w), i) <==> f.Base() <= i < 32 && Bit(w, ManualSource(f, i))
  {
    FormatLayout(f);
    TilesMaxFrom(f.Slices(), f.Base(), f.Top());
    ImmediateBit(f.Slices(), w, i);
    if i < 32 {
      FormatCarries(f, w, if i <= f.Top() then i else f.Top());
    }
  }

  lemma FormatCarries(f: Format, w: Word, i: nat)
    requires i <= f.Top()
    ensures AllValid(f.Slices())
    ensures Carried(f.Slices(), w, i) <==> f.Base() <= i && Bit(w, ManualSource(f, i))
  {
    var s := f.Slices();
    match f
    case I => assert s[0].Carries(w, i) <==> Bit(w, 20 + i);
    case S =>
      assert |s| == 2;
      if i <= 4 { assert s[1].Carries(w, i) <==> Bit(w, 7 + i); } else { assert s[0].Carries(w, i) <==> Bit(w, 20 + i); }
    case B =>
      assert |s| == 4;
      if i == 12 { assert s[0].Carries(w, i) <==> Bit(w, 31); }
      else if i == 11 { assert s[3].Carries(w, i) <==> Bit(w, 7); }
      else if i >= 5 { assert s[1].Carries(w, i) <==> Bit(w, 20 + i); }
      else if i >= 1 { assert s[2].Carries(w, i) <==> Bit(w, 7 + i); }
    case U => assert i >= 12 ==> (s[0].Carries(w, i) <==> Bit(w, i));
    case J =>
      assert |s| == 4;
      if i == 20 { assert s[0].Carries(w, i) <==> Bit(w, 31); }
      else if i >= 12 { assert s[3].Carries(w, i) <==> Bit(w, i); }
      else if i == 11 { assert s[2].Carries(w, i) <==> Bit(w, 20); }
      else if i >= 1 { assert s[1].Carries(w, i) <==> Bit(w, 20 + i); }
  }

  /** The immediates of the RISC-V Unprivileged ISA manual (20191213), section 2.3, as the field table
      slices them: encode any value of the format and decode it, and it comes back; decode any word
      and encode the result into it, and the word is unchanged. */
  lemma FormatRoundTrip(f: Format, x: int, word: Word)
    requires 0 <= x + Pow2(f.Top()) < Pow2(f.Top() + 1) && x % Pow2(f.Base()) == 0
    ensures Layout(f.Slices(), f.Base(), f.Top()) && MaxFrom(f.Slices()) < 32
    ensures AsSigned(32, Immediate(f.Slices(), Scatter(f.Slices(), x % WORD_LIMIT, word))) == x
    ensures Scatter(f.Slices(), Immediate(f.Slices(), word), word) == word
  {
    FormatLayout(f);
    DecodeUndoesEncode(f.Slices(), f.Base(), f.Top(), x, word);
    MaxFromBounds(f.Slices());
    EncodeUndoesDecode(f.Slices(), word);
  }

  // ----- the immediate of any entry -----

  /** The bit of the instruction that an immediate field brings to bit `i` of the immediate, for every field,
      written down apart from the table. */
  function FieldSource(f: ImmField, i: nat): Option<nat> {
    match f
    case Imm20 => if 12 <= i <= 31 then Some(i) else None
    case Jimm20 =>
      if i == 20 then Some(31) else if 12 <= i <= 19 then Some(i) else if i == 11 then Some(20)
      else if 1 <= i <= 10 then Some(20 + i) else None
    case Succ => if i <= 3 then Some(20 + i) else None
    case Pred => if 4 <= i <= 7 then Some(20 + i) else None
    case Fm => if 8 <= i <= 11 then Some(20 + i) else None
    case Imm12 => if i <= 11 then Some(20 + i) else None
    case Zimm => if i <= 4 then Some(15 + i) else None
    case Aq => if i == 1 then Some(26) else None
    case Rl => if i == 0 then Some(25) else None
    case Bimm12hi => if i == 12 then Some(31) else if 5 <= i <= 10 then Some(20 + i) else None
    case Bimm12lo => if i == 11 then Some(7) else if 1 <= i <= 4 then Some(7 + i) else None
    case Imm12hi => if 5 <= i <= 11 then Some(20 + i) else None
    case Imm12lo => if i <= 4 then Some(7 + i) else None
    case Shamtw => if i <= 4 then Some(20 + i) else None
  }

  /** Some field of the entry reaches bit `i`. */
  ghost predicate FieldsReach(fields: seq<Field>, i: nat) {
    exists k :: 0 <= k < |fields| && fields[k].Imm? && FieldSource(fields[k].imm, i).Some?
  }

  /** Some field of the entry brings a set bit of the word to bit `i`. */
  ghost predicate FieldsCarry(fields: seq<Field>, w: Word, i: nat) {
    exists k :: 0 <= k < |fields| && FieldCarries(fields[k], w, i)
  }

  predicate FieldCarries(f: Field, w: Word, i: nat) {
    f.Imm? && FieldSource(f.imm, i).Some? && Bit(w, FieldSource(f.imm, i).value)
  }

  lemma DictCarries(f: ImmField, w: Word, i: nat)
    ensures Carried(ImmDict(f), w, i) <==> FieldCarries(Imm(f), w, i)
    ensures Reaches(ImmDict(f), i) <==> FieldSource(f, i).Some?
  {
    var s := ImmDict(f);
    if k :| 0 <= k < |s| && s[k].Target(i) {
      SliceSource(f, k, i);
      forall l | 0 <= l < |s| && s[l].Carries(w, i) ensures FieldCarries(Imm(f), w, i) { SliceSource(f, l, i); }
    }
    if FieldSource(f, i).Some? {
      var k := SliceFor(f, i);
      assert s[k].Carries(w, i) <==> Bit(w, i - s[k].lshift + s[k].lsb);
    }
  }

  lemma SliceSource(f: ImmField, k: nat, i: nat)
    requires k < |ImmDict(f)| && ImmDict(f)[k].Target(i)
    ensures FieldSource(f, i) == Some(i - ImmDict(f)[k].lshift + ImmDict(f)[k].lsb)
  {}

  lemma SliceFor(f: ImmField, i: nat) returns (k: nat)
    requires FieldSource(f, i).Some?
    ensures k < |ImmDict(f)| && ImmDict(f)[k].Target(i)
    ensures FieldSource(f, i).value == i - ImmDict(f)[k].lshift + ImmDict(f)[k].lsb
  {
    k := match f
         case Jimm20 => if i == 20 then 0 else if i >= 12 then 3 else if i == 11 then 2 else 1
         case Bimm12hi => if i == 12 then 0 else 1
         case Bimm12lo => if i == 11 then 1 else 0
         case _ => 0;
  }

  lemma CarriedByEither(a: seq<Slice>, b: seq<Slice>, w: Word, i: nat)
    requires AllValid(a) && AllValid(b)
    ensures AllValid(a + b)
    ensures Carried(a + b, w, i) <==> Carried(a, w, i) || Carried(b, w, i)
    ensures Reaches(a + b, i) <==> Reaches(a, i) || Reaches(b, i)
  {
    assert forall k :: 0 <= k < |a| ==> (a + b)[k] == a[k];
    assert forall k :: 0 <= k < |b| ==> (a + b)[|a| + k] == b[k];
  }

  /** The slices of an entry carry what its fields carry, in whatever order they are listed. */
  lemma {:induction false} EntryCarries(fields: seq<Field>, w: Word, i: nat)
    ensures AllValid(ImmSlices(fields, ImmDict))
    ensures Carried(ImmSlices(fields, ImmDict), w, i) <==> FieldsCarry(fields, w, i)
    ensures Reaches(ImmSlices(fields, ImmDict), i) <==> FieldsReach(fields, i)
  {
    if fields != [] {
      var n := |fields| - 1;
      var init, last := fields[..n], fields[n];
      EntryCarries(init, w, i);
      LastField(fields, w, i);
      if last.Imm? {
        DictCarries(last.imm, w, i);
        CarriedByEither(ImmSlices(init, ImmDict), ImmDict(last.imm), w, i);
      }
    }
  }

  lemma LastField(fields: seq<Field>, w: Word, i: nat)
    requires fields != []
    ensures var n := |fields| - 1;
            && (FieldsCarry(fields, w, i) <==> FieldsCarry(fields[..n], w, i) || FieldCarries(fields[n], w, i))
            && (FieldsReach(fields, i) <==>
                FieldsReach(fields[..n], i) || (fields[n].Imm? && FieldSource(fields[n].imm, i).Some?))
  {
    var n := |fields| - 1;
    assert forall k :: 0 <= k < n ==> fields[..n][k] == fields[k];
  }

  lemma {:induction false} SignedFields(fields: seq<Field>)
    ensures AllSigned(ImmSlices(fields, ImmDict)) <==> Imm(Zimm) !in fields
  {
    if fields != [] {
      var n := |fields| - 1;
      SignedFields(fields[..n]);
      assert fields == fields[..n] + [fields[n]];
      if fields[n] == Imm(Zimm) {
        assert !ImmDict(Zimm)[0].sign;
        assert ImmSlices(fields, ImmDict)[|ImmSlices(fields[..n], ImmDict)|] == ImmDict(Zimm)[0];
      } else if fields[n].Imm? {
        SignedBoth(ImmSlices(fields[..n], ImmDict), ImmDict(fields[n].imm));
      }
    }
  }

  lemma SignedBoth(a: seq<Slice>, b: seq<Slice>)
    requires AllSigned(b)
    ensures AllSigned(a + b) <==> AllSigned(a)
  {
    assert forall k :: 0 <= k < |a| ==> (a + b)[k] == a[k];
  }

  /** Every bit of the immediate of any entry: what the fields carry there; above the topmost bit they reach,
      a copy of that one, unless zimm is among them. */
  lemma DecodedImmediate(e: Entry, w: Word, top: nat, i: nat)
    requires FieldsReach(e.fields, top) && forall j: nat :: FieldsReach(e.fields, j) ==> j <= top
    ensures Bit(DecodeEntry(e, w).imm, i) <==>
            i < 32 && FieldsCarry(e.fields, w, if i <= top || Imm(Zimm) in e.fields then i else top)
  {
    var slices := ImmSlices(e.fields, ImmDict);
    ImmSlicesValid(e.fields);
    SignedFields(e.fields);
    EntryCarries(e.fields, w, i);
    EntryCarries(e.fields, w, top);
    if Imm(Zimm) in e.fields {
      GatherBit(slices, w, i);
    } else {
      TopIsMaxFrom(e.fields, w, top);
      ImmediateBit(slices, w, i);
    }
  }

  lemma TopIsMaxFrom(fields: seq<Field>, w: Word, top: nat)
    requires FieldsReach(fields, top) && forall j: nat :: FieldsReach(fields, j) ==> j <= top
    ensures MaxFrom(ImmSlices(fields, ImmDict)) == top
  {
    var slices := ImmSlices(fields, ImmDict);
    ImmSlicesValid(fields);
    MaxFromBounds(slices);
    EntryCarries(fields, w, top);
    var k :| 0 <= k < |slices| && slices[k].Target(top);
    if MaxFrom(slices) > top {
      var l :| 0 <= l < |slices| && slices[l].From() == MaxFrom(slices);
      assert slices[l].Target(MaxFrom(slices));
      EntryCarries(fields, w, MaxFrom(slices));
    }
  }

  /** An entry without immediate fields has the immediate zero. */
  lemma NoImmediate(e: Entry, w: Word)
    requires forall k :: 0 <= k < |e.fields| ==> !e.fields[k].Imm?
    ensures DecodeEntry(e, w).imm == 0
  {
    var slices := ImmSlices(e.fields, ImmDict);
    ImmSlicesValid(e.fields);
    NoSlices(e.fields);
    Pow2Values();
    SignExtendOfZero(MaxFrom(slices) + 1, Gather(slices, w));
  }

  lemma {:induction false} NoSlices(fields: seq<Field>)
    requires forall k :: 0 <= k < |fields| ==> !fields[k].Imm?
    ensures ImmSlices(fields, ImmDict) == []
  {
    if fields != [] { NoSlices(fields[..|fields| - 1]); }
  }

  lemma SignExtendOfZero(n: nat, g: Word)
    requires 0 < n < 32 && g == 0
    ensures SignExtend(32, n, g) == 0
  {
    SignExtendIsEncoding(32, n, g);
    SmallMod(g, Pow2(n));
    SmallMod(g, Pow2(32));
  }

  /** The shift amount shamtw, of an entry with no other immediate field: extended from five bits, so that it
      is the amount again modulo 32. */
  lemma DecodedShamt(e: Entry, w: Word)
    requires Imm(Shamtw) in e.fields && forall f :: f in e.fields && f.Imm? ==> f.imm == Shamtw
    ensures var imm, shamt := DecodeEntry(e, w).imm, w / 0x10_0000 % 32;
            imm % 32 == shamt && imm == if shamt < 16 then shamt else shamt + 0xFFFF_FFE0
  {
    var imm: Word, shamt := DecodeEntry(e, w).imm, w / 0x10_0000 % 32;
    forall i: nat
      ensures Bit(imm, i) <==> i < 32 && Bit(w, if i <= 4 then 20 + i else 24)
    {
      ShamtBit(e, w, i);
    }
    ShamtLow(imm, w);
    ShamtHigh(imm, w);
  }

  lemma ShamtBit(e: Entry, w: Word, i: nat)
    requires Imm(Shamtw) in e.fields && forall f :: f in e.fields && f.Imm? ==> f.imm == Shamtw
    ensures Bit(DecodeEntry(e, w).imm, i) <==> i < 32 && Bit(w, if i <= 4 then 20 + i else 24)
  {
    var k :| 0 <= k < |e.fields| && e.fields[k] == Imm(Shamtw);
    var at := if i <= 4 then i else 4;
    assert FieldSource(Shamtw, 4).Some? && FieldSource(Shamtw, at) == Some(20 + at);
    assert FieldsReach(e.fields, 4);
    DecodedImmediate(e, w, 4, i);
    assert FieldCarries(e.fields[k], w, at) <==> Bit(w, 20 + at);
  }

  lemma ShamtLow(imm: Word, w: Word)
    requires forall i: nat :: Bit(imm, i) <==> i < 32 && Bit(w, if i <= 4 then 20 + i else 24)
    ensures imm % 32 == w / 0x10_0000 % 32
  {
    Pow2Values();
    ShrIsDiv(w, 20);
    forall i: nat | i < 5 ensures Bit(imm % 32, i) <==> Bit(w / 0x10_0000 % 32, i) {
      ModBit(imm, 5, i);
      ModBit(Shr(w, 20), 5, i);
      ShrBit(w, 20, i);
    }
    SameBits(imm % 32, w / 0x10_0000 % 32, 5);
  }

  lemma ShamtHigh(imm: Word, w: Word)
    requires forall i: nat :: Bit(imm, i) <==> i < 32 && Bit(w, if i <= 4 then 20 + i else 24)
    ensures imm == if imm % 32 < 16 then imm % 32 else imm % 32 + 0xFFFF_FFE0
  {
    Pow2Values();
    ModBit(imm, 5, 4);
    TopOfFive(imm % 32);
    if Bit(w, 24) {
      OnesAbove(imm, 5);
    } else {
      BoundedByBits(imm, 5);
    }
  }

  lemma OnesAbove(imm: Word, n: nat)
    requires forall i: nat :: n <= i < 32 ==> Bit(imm, i)
    ensures WORD_LIMIT - Pow2(n) <= imm
  {
    Pow2Values();
    forall i: nat | i >= n ensures !Bit(Not(32, imm), i) { NotBit(32, imm, i); }
    BoundedByBits(Not(32, imm), n);
  }

  lemma TopOfFive(x: nat)
    requires x < 32
    ensures Bit(x, 4) <==> x >= 16
  {
    assert Pow2(4) == 16 by { assert Pow2(2) == 4; }
    ShrBit(x, 4, 0);
    ShrIsDiv(x, 4);
    assert Bit(x / 16, 0) <==> x / 16 % 2 == 1;
  }

  /** The unsigned field zimm: five bits, there and back. */
  lemma ZimmRoundTrip(x: Word, word: Word)
    requires x < 32
    ensures var zimm := ImmDict(Zimm);
            && Immediate(zimm, Scatter(zimm, x, word)) == x
            && Scatter(zimm, Immediate(zimm, word), word) == word
  {
    var zimm := ImmDict(Zimm);
    Pow2Values();
    assert Pow2(0) == 1;
    forall i: nat ensures Reaches(zimm, i) <==> 0 <= i <= 4 {
      if i <= 4 { assert zimm[0].Target(i); }
    }
    assert !zimm[0].sign;
    DecodeUndoesEncodeUnsigned(zimm, 0, 4, x, word);
    EncodeUndoesDecode(zimm, word);
  }
}
