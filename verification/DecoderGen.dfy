/** src/decoder/decoder.py: three generators of the same decoder.

    The text they emit is modelled as syntax trees with an evaluator.  Sequential code is evaluated
    "earlier statements first": a block of arms answers as soon as one of them returns.
  */
module DecoderGen {
  import opened Bits
  import opened Wrappers
  import opened Instructions
  import opened Immediates
  import opened DecoderTable

  datatype GenError = UnrecognizedField | AssertionFailed

  // ----- the code that fills an instruction -----

  datatype Stmt =
    | SetType(op: OpType)
    | SetCallback(op: OpType)
    | SetBranch
    | SetReg(reg: RegField, slice: Slice)
    | OrImm(slice: Slice)
    | SignExtendImm(size: nat)
  {
    /** The static assertions of the C++ templates. */
    predicate Compiles() {
      match this
      case SetReg(_, s) => s.Valid()
      case OrImm(s) => s.Valid()
      case SignExtendImm(n) => 0 < n <= 32
      case _ => true
    }
  }

  /** `static_cast<RegId>` and `static_cast<CSRegId>`. */
  function Cast(r: RegField, v: nat): nat { v % (if r == Csr then 0x1_0000 else 0x100) }

  function AssignReg(inst: Instruction, r: RegField, v: nat): Instruction {
    match r
    case Rm => inst.(rm := v)
    case Rd => inst.(rd := v)
    case Csr => inst.(csr := v)
    case Rs2 => inst.(rs2 := v)
    case Rs1 => inst.(rs1 := v)
    case Rs3 => inst.(rs3 := v)
  }

  function EvalStmt(s: Stmt, inst: Instruction, w: Word): Instruction
    requires s.Compiles()
  {
    match s
    case SetType(op) => inst.(optype := op)
    case SetCallback(op) => inst.(callback := op)
    case SetBranch => inst.(isBranch := true)
    case SetReg(r, slice) => AssignReg(inst, r, Cast(r, TakeSlice(slice, w)))
    case OrImm(slice) => inst.(imm := OrW(inst.imm, TakeSlice(slice, w)))
    case SignExtendImm(n) =>
      SignExtendKeepsValue(32, n, inst.imm);
      inst.(imm := SignExtend(32, n, inst.imm))
  }

  predicate BodyCompiles(body: seq<Stmt>) {
    forall i :: 0 <= i < |body| ==> body[i].Compiles()
  }

  function EvalBody(body: seq<Stmt>, w: Word): Instruction
    requires BodyCompiles(body)
  {
    if body == [] then NO_INSTRUCTION
    else EvalStmt(body[|body| - 1], EvalBody(body[..|body| - 1], w), w)
  }

  lemma EvalAppend(body: seq<Stmt>, s: Stmt, w: Word)
    requires BodyCompiles(body) && s.Compiles()
    ensures BodyCompiles(body + [s]) && EvalBody(body + [s], w) == EvalStmt(s, EvalBody(body, w), w)
  {
    assert (body + [s])[..|body|] == body;
  }

  /** The body fills the instruction that `fields` and the slices `imms` describe. */
  ghost predicate Fills(body: seq<Stmt>, e: Entry, fields: seq<Field>, imms: seq<Slice>)
    requires AllValid(imms)
  {
    BodyCompiles(body) && forall w: Word :: EvalBody(body, w) == Describe(e, fields, Gather(imms, w), w)
  }

  /** Assigning one more register field. */
  lemma FillReg(body: seq<Stmt>, e: Entry, fields: seq<Field>, imms: seq<Slice>, r: RegField)
    requires AllValid(imms) && Fills(body, e, fields, imms)
    ensures Fills(body + [SetReg(r, RegDict(r))], e, fields + [Reg(r)], imms)
  {
    forall w: Word ensures EvalBody(body + [SetReg(r, RegDict(r))], w) == Describe(e, fields + [Reg(r)], Gather(imms, w), w) {
      EvalAppend(body, SetReg(r, RegDict(r)), w);
      RegFits(r, w);
      DescribeMoreReg(e, fields, Gather(imms, w), w, r);
    }
  }

  lemma DescribeMoreReg(e: Entry, fields: seq<Field>, imm: Word, w: Word, r: RegField)
    ensures Describe(e, fields + [Reg(r)], imm, w) == AssignReg(Describe(e, fields, imm, w), r, TakeSlice(RegDict(r), w))
  {
    RegFits(r, w);
    RegOfMore(fields, r, Rm, w); RegOfMore(fields, r, Rd, w); RegOfMore(fields, r, Csr, w);
    RegOfMore(fields, r, Rs2, w); RegOfMore(fields, r, Rs1, w); RegOfMore(fields, r, Rs3, w);
  }

  lemma RegOfMore(fields: seq<Field>, r: RegField, q: RegField, w: Word)
    ensures RegOf(fields + [Reg(r)], q, w) == if q == r then TakeSlice(RegDict(r), w) else RegOf(fields, q, w)
  {
    RegFits(r, w);
  }

  lemma RegFits(r: RegField, w: Word)
    ensures var s := RegDict(r);
            && w < Pow2(32)
            && TakeSlice(s, w) == GetBits(32, s.msb, s.lsb, w)
            && Cast(r, TakeSlice(s, w)) == TakeSlice(s, w)
  {
    var s := RegDict(r);
    GetBitsBound(s, w);
    RegOfBound([Reg(r)], r, w);
    assert RegOf([Reg(r)], r, w) == GetBits(32, s.msb, s.lsb, w);
    SmallMod(TakeSlice(s, w), if r == Csr then 0x1_0000 else 0x100);
  }

  /** OR-ing in one more slice of the immediate. */
  lemma FillImm(body: seq<Stmt>, e: Entry, fields: seq<Field>, imms: seq<Slice>, s: Slice)
    requires AllValid(imms) && Fills(body, e, fields, imms) && s.Valid()
    ensures AllValid(imms + [s]) && Fills(body + [OrImm(s)], e, fields, imms + [s])
  {
    forall w: Word ensures EvalBody(body + [OrImm(s)], w) == Describe(e, fields, Gather(imms + [s], w), w) {
      EvalAppend(body, OrImm(s), w);
      assert (imms + [s])[..|imms|] == imms;
    }
  }

  /** Mentioning an immediate field changes no register. */
  lemma FillMention(body: seq<Stmt>, e: Entry, fields: seq<Field>, imms: seq<Slice>, f: ImmField)
    requires AllValid(imms) && Fills(body, e, fields, imms)
    ensures Fills(body, e, fields + [Imm(f)], imms)
  {
    forall w: Word, q: RegField ensures RegOf(fields + [Imm(f)], q, w) == RegOf(fields, q, w) {
    }
  }

  /** `gen_fill_inst`, for any dictionary of immediate slices.

      It fails exactly on an unrecognized field or when a signed immediate reaches past bit 32; what
      it emits compiles exactly when a signed immediate stays below bit 32, and then it computes the
      described instruction. */
  method GenFillInst(e: Entry, dict: ImmField -> seq<Slice>) returns (r: Result<seq<Stmt>, GenError>)
    requires forall f :: AllValid(dict(f))
    ensures var imms := ImmSlices(e.fields, dict);
            && AllValid(imms)
            && (r == Failure(UnrecognizedField) <==> !Recognized(e))
            && (r == Failure(AssertionFailed) <==> Recognized(e) && AllSigned(imms) && MaxFrom(imms) > 32)
            && (r.Success? ==> (BodyCompiles(r.value) <==> AllSigned(imms) ==> MaxFrom(imms) < 32))
            && (r.Success? && BodyCompiles(r.value) ==>
                  forall w: Word :: EvalBody(r.value, w) == Describe(e, e.fields, Immediate(imms, w), w))
  {
    var code := [SetType(e.name), SetCallback(e.name)];
    if e.name in BRANCH_MNEMONICS {
      code := code + [SetBranch];
    }
    ghost var imms: seq<Slice> := [];
    HeaderFills(e, code);

    var maxFrom, hasImm, signExt := 0, false, true;
    for k := 0 to |e.fields|
      invariant imms == ImmSlices(e.fields[..k], dict) && AllValid(imms)
      invariant Fills(code, e, e.fields[..k], imms)
      invariant Unrecognized !in e.fields[..k]
      invariant maxFrom == MaxFrom(imms) && (signExt <==> AllSigned(imms)) && (!hasImm ==> imms == [])
    {
      TakeNext(e.fields, k);
      match e.fields[k]
      case Reg(reg) =>
        FillReg(code, e, e.fields[..k], imms, reg);
        code := code + [SetReg(reg, RegDict(reg))];
      case Imm(f) =>
        hasImm := true;
        var slices := dict(f);
        ghost var before := imms;
        FillMention(code, e, e.fields[..k], imms, f);
        for j := 0 to |slices|
          invariant imms == before + slices[..j] && AllValid(imms)
          invariant Fills(code, e, e.fields[..k + 1], imms)
          invariant maxFrom == MaxFrom(imms) && (signExt <==> AllSigned(imms))
        {
          if !slices[j].sign {
            signExt := false;
          }
          if slices[j].From() > maxFrom {
            maxFrom := slices[j].From();
          }
          FillImm(code, e, e.fields[..k + 1], imms, slices[j]);
          code := code + [OrImm(slices[j])];
          assert imms + [slices[j]] == before + slices[..j + 1];
          SignedAppend(imms, slices[j]);
          imms := imms + [slices[j]];
        }
        assert slices[..|slices|] == slices;
      case Unrecognized =>
        SlicesValid(e.fields, dict);
        return Failure(UnrecognizedField);
    }
    TakeAll(e.fields);

    r := GenSignExtension(e, code, imms, maxFrom, hasImm, signExt);
  }

  /** The end of `gen_fill_inst`: extend the sign of a signed immediate. */
  method GenSignExtension(e: Entry, code: seq<Stmt>, ghost imms: seq<Slice>, maxFrom: int, hasImm: bool, signExt: bool)
    returns (r: Result<seq<Stmt>, GenError>)
    requires AllValid(imms) && Fills(code, e, e.fields, imms)
    requires maxFrom == MaxFrom(imms) && (signExt <==> AllSigned(imms)) && (!hasImm ==> imms == [])
    ensures r == Failure(AssertionFailed) <==> AllSigned(imms) && MaxFrom(imms) > 32
    ensures r != Failure(UnrecognizedField)
    ensures r.Success? ==> (BodyCompiles(r.value) <==> AllSigned(imms) ==> MaxFrom(imms) < 32)
    ensures r.Success? && BodyCompiles(r.value) ==>
              forall w: Word :: EvalBody(r.value, w) == Describe(e, e.fields, Immediate(imms, w), w)
  {
    if hasImm && signExt {
      if maxFrom > 32 {
        return Failure(AssertionFailed);
      }
      var more := code + [SignExtendImm(maxFrom + 1)];
      assert more[..|code|] == code;
      assert more[|code|] == SignExtendImm(maxFrom + 1);
      if maxFrom < 32 {
        forall w: Word ensures EvalBody(more, w) == Describe(e, e.fields, Immediate(imms, w), w) {
          EvalAppend(code, SignExtendImm(maxFrom + 1), w);
        }
      }
      return Success(more);
    }
    if imms == [] {
      ExtendZero();
    }
    r := Success(code);
  }

  /** The assertion lets a signed field through that reaches bit 32, and `signExtend<33>` does not compile. */
  lemma AssertionAdmits32()
    ensures var imms := [Slice(31, 0, 1, true)];
            && AllValid(imms) && AllSigned(imms) && MaxFrom(imms) == 32
            && !SignExtendImm(MaxFrom(imms) + 1).Compiles()
  {
    SignedAppend([], Slice(31, 0, 1, true));
    assert [] + [Slice(31, 0, 1, true)] == [Slice(31, 0, 1, true)];
  }

  lemma HeaderFills(e: Entry, code: seq<Stmt>)
    requires code == [SetType(e.name), SetCallback(e.name)] + if e.name in BRANCH_MNEMONICS then [SetBranch] else []
    ensures Fills(code, e, [], [])
  {
    var two := [SetType(e.name), SetCallback(e.name)];
    assert two == [SetType(e.name)] + [SetCallback(e.name)];
    forall w: Word ensures EvalBody(code, w) == Describe(e, [], Gather([], w), w) {
      EvalAppend([], SetType(e.name), w);
      assert [] + [SetType(e.name)] == [SetType(e.name)];
      EvalAppend([SetType(e.name)], SetCallback(e.name), w);
      EvalAppend(two, SetBranch, w);
      assert two + [] == two;
    }
  }

  lemma SignedAppend(imms: seq<Slice>, s: Slice)
    ensures AllSigned(imms + [s]) <==> AllSigned(imms) && s.sign
    ensures MaxFrom(imms + [s]) == if s.From() > MaxFrom(imms) then s.From() else MaxFrom(imms)
  {
    assert (imms + [s])[..|imms|] == imms;
    assert forall k :: 0 <= k < |imms| ==> (imms + [s])[k] == imms[k];
    assert (imms + [s])[|imms|] == s;
  }

  lemma {:induction false} SlicesValid(fields: seq<Field>, dict: ImmField -> seq<Slice>)
    requires forall f :: AllValid(dict(f))
    ensures AllValid(ImmSlices(fields, dict))
  {
    if fields != [] { SlicesValid(fields[..|fields| - 1], dict); }
  }

  lemma ExtendZero()
    ensures SignExtend(32, 1, 0) == 0
  {
    assert AsSigned(1, 0) == 0;
    SignExtendIsEncoding(32, 1, 0);
  }

  // ----- generator 1: a chain of ifs -----

  datatype IfArm = IfArm(mask: Word, matched: Word, body: seq<Stmt>)

  /** Generated code for one entry, and what it must compute. */
  ghost predicate BodyFor(body: seq<Stmt>, e: Entry) {
    BodyCompiles(body) && forall w: Word :: EvalBody(body, w) == DecodeEntry(e, w)
  }

  function Run(body: seq<Stmt>, w: Word): Option<Instruction> {
    if BodyCompiles(body) then Some(EvalBody(body, w)) else None
  }

  function EvalIfs(arms: seq<IfArm>, w: Word): Option<Instruction> {
    if arms == [] then None
    else
      var earlier, last := EvalIfs(arms[..|arms| - 1], w), arms[|arms| - 1];
      if earlier.Some? then earlier else if And(w, last.mask) == last.matched then Run(last.body, w) else None
  }

  ghost predicate AllRecognized(table: seq<Entry>) {
    forall i :: 0 <= i < |table| ==> Recognized(table[i])
  }

  method GenBody(e: Entry) returns (r: Result<seq<Stmt>, GenError>)
    ensures r.Success? <==> Recognized(e)
    ensures r.Success? ==> BodyFor(r.value, e)
  {
    ImmSlicesValid(e.fields);
    r := GenFillInst(e, ImmDict);
    if r.Failure? && r.error.AssertionFailed? { assert false; }
  }

  ghost predicate IfsAnswer(arms: seq<IfArm>, table: seq<Entry>) {
    forall w: Word :: EvalIfs(arms, w) == Answer(FirstMatch(table, w), w)
  }

  method GenIfs(table: seq<Entry>) returns (r: Result<seq<IfArm>, GenError>)
    ensures r.Success? <==> AllRecognized(table)
    ensures r.Success? ==> IfsAnswer(r.value, table)
  {
    var arms: seq<IfArm> := [];
    for i := 0 to |table|
      invariant AllRecognized(table[..i])
      invariant IfsAnswer(arms, table[..i])
    {
      var e := table[i];
      var body := GenBody(e);
      if body.Failure? {
        return Failure(body.error);
      }
      ghost var before := arms;
      arms := arms + [IfArm(e.mask, e.matched, body.value)];
      assert table[..i + 1] == table[..i] + [e];
      forall w: Word ensures EvalIfs(arms, w) == Answer(FirstMatch(table[..i + 1], w), w) {
        assert arms[..|before|] == before;
        FirstMatchAppend(table[..i], e, w);
      }
    }
    assert table[..|table|] == table;
    r := Success(arms);
  }

  lemma FirstMatchAppend(table: seq<Entry>, e: Entry, w: Word)
    ensures FirstMatch(table + [e], w) ==
            if FirstMatch(table, w).Some? then FirstMatch(table, w) else if Matches(e, w) then Some(e) else None
  {
    assert (table + [e])[..|table|] == table;
  }

  // ----- grouping by mask -----

  datatype MaskGroup = MaskGroup(mask: Word, entries: seq<Entry>)

  /** `to_ret[mask][inst_name] = dec_data` on an insertion-ordered dictionary of dictionaries. */
  function AddEntry(groups: seq<MaskGroup>, e: Entry): seq<MaskGroup> {
    if groups == [] then [MaskGroup(e.mask, [e])]
    else if groups[0].mask == e.mask then [groups[0].(entries := groups[0].entries + [e])] + groups[1..]
    else [groups[0]] + AddEntry(groups[1..], e)
  }

  function WithMask(table: seq<Entry>, mask: Word): seq<Entry> {
    if table == [] then []
    else
      var init, last := WithMask(table[..|table| - 1], mask), table[|table| - 1];
      if last.mask == mask then init + [last] else init
  }

  /** The position of the first entry with this mask; the length of the table when there is none. */
  function FirstIndex(table: seq<Entry>, mask: Word): (k: nat)
    ensures k <= |table|
    ensures k < |table| ==> table[k].mask == mask
    ensures forall i :: 0 <= i < k ==> table[i].mask != mask
  {
    if table == [] then 0
    else
      var n := |table| - 1;
      var k := FirstIndex(table[..n], mask);
      if k < n then k else if table[n].mask == mask then n else n + 1
  }

  /** Every entry sits in the group of its mask, in table order, and the groups come in the order in
      which their masks first appear. */
  ghost predicate Grouped(groups: seq<MaskGroup>, table: seq<Entry>) {
    InOrder(groups, table) && Covered(groups, table)
  }

  ghost predicate InOrder(groups: seq<MaskGroup>, table: seq<Entry>) {
    && (forall g :: 0 <= g < |groups| ==> groups[g].entries == WithMask(table, groups[g].mask))
    && (forall g :: 0 <= g < |groups| ==> FirstIndex(table, groups[g].mask) < |table|)
    && (forall g, h :: 0 <= g < h < |groups| ==> FirstIndex(table, groups[g].mask) < FirstIndex(table, groups[h].mask))
  }

  ghost predicate Covered(groups: seq<MaskGroup>, table: seq<Entry>) {
    forall i :: 0 <= i < |table| ==> exists g :: 0 <= g < |groups| && groups[g].mask == table[i].mask
  }

  lemma CoveredAppend(groups: seq<MaskGroup>, out: seq<MaskGroup>, table: seq<Entry>, e: Entry, at: nat)
    requires Covered(groups, table) && |groups| <= |out|
    requires forall g :: 0 <= g < |groups| ==> out[g].mask == groups[g].mask
    requires at < |out| && out[at].mask == e.mask
    ensures Covered(out, table + [e])
  {
    forall i | 0 <= i < |table + [e]| ensures exists h :: 0 <= h < |out| && out[h].mask == (table + [e])[i].mask {
      if i < |table| {
        var h :| 0 <= h < |groups| && groups[h].mask == table[i].mask;
        assert out[h].mask == (table + [e])[i].mask;
      } else {
        assert out[at].mask == (table + [e])[i].mask;
      }
    }
  }

  /** Where AddEntry puts the entry. */
  lemma {:induction false} AddEntryEffect(groups: seq<MaskGroup>, e: Entry)
    requires forall g, h :: 0 <= g < h < |groups| ==> groups[g].mask != groups[h].mask
    ensures var out := AddEntry(groups, e);
            if g :| 0 <= g < |groups| && groups[g].mask == e.mask
            then out == groups[g := MaskGroup(e.mask, groups[g].entries + [e])]
            else out == groups + [MaskGroup(e.mask, [e])]
  {
    if groups != [] && groups[0].mask != e.mask {
      AddEntryEffect(groups[1..], e);
    }
  }

  method GenByMaskDict(table: seq<Entry>) returns (groups: seq<MaskGroup>)
    ensures Grouped(groups, table)
  {
    groups := [];
    for i := 0 to |table|
      invariant Grouped(groups, table[..i])
    {
      TakeNext(table, i);
      GroupedAppend(groups, table[..i], table[i]);
      groups := AddEntry(groups, table[i]);
    }
    TakeAll(table);
  }

  lemma WithMaskAppend(table: seq<Entry>, e: Entry, mask: Word)
    ensures WithMask(table + [e], mask) == WithMask(table, mask) + if e.mask == mask then [e] else []
    ensures FirstIndex(table + [e], mask) ==
            if FirstIndex(table, mask) < |table| then FirstIndex(table, mask)
            else if e.mask == mask then |table| else |table| + 1
  {
    assert (table + [e])[..|table|] == table;
  }

  lemma {:induction false} WithMaskEmpty(table: seq<Entry>, mask: Word)
    requires FirstIndex(table, mask) == |table|
    ensures WithMask(table, mask) == []
  {
    if table != [] { WithMaskEmpty(table[..|table| - 1], mask); }
  }

  lemma GroupedAppend(groups: seq<MaskGroup>, table: seq<Entry>, e: Entry)
    requires Grouped(groups, table)
    ensures Grouped(AddEntry(groups, e), table + [e])
  {
    AddEntryEffect(groups, e);
    var k := FirstIndex(table, e.mask);
    assert k < |table| ==> table[k].mask == e.mask;
    if g :| 0 <= g < |groups| && groups[g].mask == e.mask {
      AppendToGroup(groups, table, e, g);
    } else {
      AppendGroup(groups, table, e);
    }
  }

  lemma AppendToGroup(groups: seq<MaskGroup>, table: seq<Entry>, e: Entry, g: nat)
    requires Grouped(groups, table) && g < |groups| && groups[g].mask == e.mask
    ensures Grouped(groups[g := MaskGroup(e.mask, groups[g].entries + [e])], table + [e])
  {
    var out := groups[g := MaskGroup(e.mask, groups[g].entries + [e])];
    assert forall h :: 0 <= h < |groups| ==> out[h].mask == groups[h].mask;
    forall h | 0 <= h < |groups|
      ensures out[h].entries == WithMask(table + [e], out[h].mask)
      ensures FirstIndex(table + [e], out[h].mask) == FirstIndex(table, groups[h].mask)
    {
      WithMaskAppend(table, e, groups[h].mask);
      if h != g { assert FirstIndex(table, groups[h].mask) != FirstIndex(table, groups[g].mask); }
    }
    CoveredAppend(groups, out, table, e, g);
  }

  /** An entry of another mask leaves a group alone. */
  lemma GroupKept(groups: seq<MaskGroup>, table: seq<Entry>, e: Entry, h: nat)
    requires Grouped(groups, table) && h < |groups| && groups[h].mask != e.mask
    ensures groups[h].entries == WithMask(table + [e], groups[h].mask)
    ensures FirstIndex(table + [e], groups[h].mask) == FirstIndex(table, groups[h].mask) < |table|
  {
    WithMaskAppend(table, e, groups[h].mask);
  }

  lemma AppendGroup(groups: seq<MaskGroup>, table: seq<Entry>, e: Entry)
    requires Grouped(groups, table) && FirstIndex(table, e.mask) == |table|
    ensures Grouped(groups + [MaskGroup(e.mask, [e])], table + [e])
  {
    var n, out, table' := |groups|, groups + [MaskGroup(e.mask, [e])], table + [e];
    AppendedFirst(table, e);
    forall h | 0 <= h < n
      ensures groups[h].entries == WithMask(table', groups[h].mask)
      ensures FirstIndex(table', groups[h].mask) == FirstIndex(table, groups[h].mask) < |table|
    {
      assert groups[h].mask != e.mask;
      GroupKept(groups, table, e, h);
    }
    AppendInOrder(groups, table', MaskGroup(e.mask, [e]));
    CoveredAppend(groups, out, table, e, n);
  }

  lemma AppendedFirst(table: seq<Entry>, e: Entry)
    requires FirstIndex(table, e.mask) == |table|
    ensures WithMask(table + [e], e.mask) == [e] && FirstIndex(table + [e], e.mask) == |table|
  {
    WithMaskEmpty(table, e.mask);
    WithMaskAppend(table, e, e.mask);
  }

  lemma {:induction false} AppendInOrder(groups: seq<MaskGroup>, table: seq<Entry>, last: MaskGroup)
    requires InOrder(groups, table)
    requires last.entries == WithMask(table, last.mask) && FirstIndex(table, last.mask) < |table|
    requires forall g :: 0 <= g < |groups| ==> FirstIndex(table, groups[g].mask) < FirstIndex(table, last.mask)
    ensures InOrder(groups + [last], table)
  {
    var out := groups + [last];
    forall g, h | 0 <= g < h < |out| ensures FirstIndex(table, out[g].mask) < FirstIndex(table, out[h].mask) {
      if h < |groups| {
        assert FirstIndex(table, groups[g].mask) < FirstIndex(table, groups[h].mask);
      }
    }
  }

  /** Trying the groups in order, each group's entries in order. */
  function GroupMatch(groups: seq<MaskGroup>, w: Word): Option<Entry> {
    if groups == [] then None
    else
      var earlier := GroupMatch(groups[..|groups| - 1], w);
      if earlier.Some? then earlier else FirstMatch(groups[|groups| - 1].entries, w)
  }

  // ----- generator 2: one switch per mask -----

  datatype Case = Case(caseLabel: Word, body: seq<Stmt>)

  datatype Switch = Switch(mask: Word, cases: seq<Case>)

  function EvalCases(cases: seq<Case>, value: nat, w: Word): Option<Instruction> {
    if cases == [] then None
    else
      var earlier, last := EvalCases(cases[..|cases| - 1], value, w), cases[|cases| - 1];
      if earlier.Some? then earlier else if value == last.caseLabel then Run(last.body, w) else None
  }

  function EvalSwitches(switches: seq<Switch>, w: Word): Option<Instruction> {
    if switches == [] then None
    else
      var earlier, last := EvalSwitches(switches[..|switches| - 1], w), switches[|switches| - 1];
      if earlier.Some? then earlier else EvalCases(last.cases, And(w, last.mask), w)
  }

  ghost predicate SwitchesAnswer(switches: seq<Switch>, groups: seq<MaskGroup>) {
    forall w: Word :: EvalSwitches(switches, w) == Answer(GroupMatch(groups, w), w)
  }

  ghost predicate CasesAnswer(cases: seq<Case>, mask: Word, entries: seq<Entry>) {
    forall w: Word :: EvalCases(cases, And(w, mask), w) == Answer(FirstMatch(entries, w), w)
  }

  /** A switch with two equal case labels does not compile. */
  ghost predicate DistinctLabels(switches: seq<Switch>) {
    forall s, i, j :: 0 <= s < |switches| && 0 <= i < j < |switches[s].cases| ==>
      switches[s].cases[i].caseLabel != switches[s].cases[j].caseLabel
  }

  ghost predicate OneMask(mask: Word, entries: seq<Entry>) {
    forall i :: 0 <= i < |entries| ==> entries[i].mask == mask
  }

  method GenCases(mask: Word, entries: seq<Entry>) returns (r: Result<seq<Case>, GenError>)
    requires OneMask(mask, entries)
    ensures r.Success? <==> AllRecognized(entries)
    ensures r.Success? ==> CasesAnswer(r.value, mask, entries)
    ensures r.Success? ==> |r.value| == |entries| && forall i :: 0 <= i < |entries| ==> r.value[i].caseLabel == entries[i].matched
  {
    var cases: seq<Case> := [];
    for i := 0 to |entries|
      invariant AllRecognized(entries[..i])
      invariant CasesAnswer(cases, mask, entries[..i])
      invariant |cases| == i && forall k :: 0 <= k < i ==> cases[k].caseLabel == entries[k].matched
    {
      var e := entries[i];
      var body := GenBody(e);
      if body.Failure? {
        return Failure(body.error);
      }
      ghost var before := cases;
      cases := cases + [Case(e.matched, body.value)];
      assert entries[..i + 1] == entries[..i] + [e];
      forall w: Word ensures EvalCases(cases, And(w, mask), w) == Answer(FirstMatch(entries[..i + 1], w), w) {
        assert cases[..|before|] == before;
        FirstMatchAppend(entries[..i], e, w);
      }
    }
    assert entries[..|entries|] == entries;
    r := Success(cases);
  }

  ghost predicate OneMaskEach(groups: seq<MaskGroup>) {
    forall g :: 0 <= g < |groups| ==> OneMask(groups[g].mask, groups[g].entries)
  }

  ghost predicate EachRecognized(groups: seq<MaskGroup>) {
    forall g :: 0 <= g < |groups| ==> AllRecognized(groups[g].entries)
  }

  ghost predicate LabelsOf(switches: seq<Switch>, groups: seq<MaskGroup>) {
    |switches| == |groups| && forall g :: 0 <= g < |groups| ==> SameLabels(switches[g], groups[g])
  }

  method GenSwitchBlocks(groups: seq<MaskGroup>) returns (r: Result<seq<Switch>, GenError>)
    requires OneMaskEach(groups)
    ensures r.Success? <==> EachRecognized(groups)
    ensures r.Success? ==> SwitchesAnswer(r.value, groups) && LabelsOf(r.value, groups)
  {
    var switches: seq<Switch> := [];
    for g := 0 to |groups|
      invariant EachRecognized(groups[..g])
      invariant SwitchesAnswer(switches, groups[..g]) && LabelsOf(switches, groups[..g])
    {
      var cases := GenCases(groups[g].mask, groups[g].entries);
      if cases.Failure? {
        return Failure(cases.error);
      }
      ghost var before := switches;
      switches := switches + [Switch(groups[g].mask, cases.value)];
      forall w: Word ensures EvalSwitches(switches, w) == Answer(GroupMatch(groups[..g + 1], w), w) {
        assert switches[..|before|] == before;
        assert groups[..g + 1][..g] == groups[..g];
      }
    }
    assert groups[..|groups|] == groups;
    r := Success(switches);
  }

  method GenSwitches(table: seq<Entry>) returns (r: Result<seq<Switch>, GenError>, ghost groups: seq<MaskGroup>)
    ensures Grouped(groups, table)
    ensures r.Success? <==> AllRecognized(table)
    ensures r.Success? ==> SwitchesAnswer(r.value, groups)
    ensures r.Success? ==> (DistinctLabels(r.value) <==> NoTwins(table))
  {
    var dict := GenByMaskDict(table);
    groups := dict;
    GroupsHaveOneMask(dict, table);
    RecognizedInGroups(dict, table);
    r := GenSwitchBlocks(dict);
    if r.Success? {
      TwinsInGroups(r.value, dict, table);
    }
  }

  lemma GroupsHaveOneMask(groups: seq<MaskGroup>, table: seq<Entry>)
    requires Grouped(groups, table)
    ensures OneMaskEach(groups)
  {
    forall g | 0 <= g < |groups| ensures OneMask(groups[g].mask, groups[g].entries) {
      WithMaskOneMask(table, groups[g].mask);
    }
  }

  ghost predicate SameLabels(s: Switch, g: MaskGroup) {
    |s.cases| == |g.entries| && forall i :: 0 <= i < |g.entries| ==> s.cases[i].caseLabel == g.entries[i].matched
  }

  /** No two entries share both mask and match. */
  ghost predicate NoTwins(table: seq<Entry>) {
    forall i, j :: 0 <= i < j < |table| ==> !(table[i].mask == table[j].mask && table[i].matched == table[j].matched)
  }

  lemma {:induction false} WithMaskOneMask(table: seq<Entry>, mask: Word)
    ensures OneMask(mask, WithMask(table, mask))
  {
    if table != [] { WithMaskOneMask(table[..|table| - 1], mask); }
  }

  /** The entries of a group are table entries in table order, and all of those with the mask. */
  lemma {:induction false} WithMaskPositions(table: seq<Entry>, mask: Word) returns (at: seq<nat>)
    ensures |at| == |WithMask(table, mask)|
    ensures forall i :: 0 <= i < |at| ==> at[i] < |table| && table[at[i]] == WithMask(table, mask)[i]
    ensures forall i, j :: 0 <= i < j < |at| ==> at[i] < at[j]
    ensures forall k: nat :: k < |table| && table[k].mask == mask ==> k in at
  {
    if table == [] { return []; }
    var n := |table| - 1;
    at := WithMaskPositions(table[..n], mask);
    assert forall k: nat :: k < n && table[k].mask == mask ==> table[..n][k].mask == mask && k in at;
    if table[n].mask == mask {
      at := at + [n];
      assert at[|at| - 1] == n;
    }
  }

  lemma RecognizedInGroups(groups: seq<MaskGroup>, table: seq<Entry>)
    requires Grouped(groups, table)
    ensures AllRecognized(table) <==> EachRecognized(groups)
  {
    forall g | 0 <= g < |groups|
      ensures AllRecognized(table) ==> AllRecognized(groups[g].entries)
    {
      var at := WithMaskPositions(table, groups[g].mask);
    }
    forall k | 0 <= k < |table| && EachRecognized(groups)
      ensures Recognized(table[k])
    {
      var g :| 0 <= g < |groups| && groups[g].mask == table[k].mask;
      var at := WithMaskPositions(table, groups[g].mask);
      var i :| 0 <= i < |at| && at[i] == k;
      assert Recognized(groups[g].entries[i]);
    }
  }

  lemma TwinsInGroups(switches: seq<Switch>, groups: seq<MaskGroup>, table: seq<Entry>)
    requires Grouped(groups, table) && LabelsOf(switches, groups)
    ensures DistinctLabels(switches) <==> NoTwins(table)
  {
    if NoTwins(table) {
      forall s, i, j | 0 <= s < |switches| && 0 <= i < j < |switches[s].cases|
        ensures switches[s].cases[i].caseLabel != switches[s].cases[j].caseLabel
      {
        assert SameLabels(switches[s], groups[s]);
        var at := WithMaskPositions(table, groups[s].mask);
        WithMaskOneMask(table, groups[s].mask);
        assert at[i] < at[j];
      }
    }
    if DistinctLabels(switches) {
      forall k, l | 0 <= k < l < |table|
        ensures !(table[k].mask == table[l].mask && table[k].matched == table[l].matched)
      {
        if table[k].mask == table[l].mask { LabelsTell(switches, groups, table, k, l); }
      }
    }
  }

  /** Two entries of one mask have their labels in one switch. */
  lemma LabelsTell(switches: seq<Switch>, groups: seq<MaskGroup>, table: seq<Entry>, k: nat, l: nat)
    requires Grouped(groups, table) && LabelsOf(switches, groups) && DistinctLabels(switches)
    requires k < l < |table| && table[k].mask == table[l].mask
    ensures table[k].matched != table[l].matched
  {
    var g :| 0 <= g < |groups| && groups[g].mask == table[k].mask;
    var i, j := PlacesInGroup(groups, table, g, k, l);
    assert SameLabels(switches[g], groups[g]);
    assert switches[g].cases[i].caseLabel != switches[g].cases[j].caseLabel;
  }

  lemma PlacesInGroup(groups: seq<MaskGroup>, table: seq<Entry>, g: nat, k: nat, l: nat) returns (i: nat, j: nat)
    requires Grouped(groups, table) && g < |groups| && k < l < |table|
    requires table[k].mask == table[l].mask == groups[g].mask
    ensures i < j < |groups[g].entries| && groups[g].entries[i] == table[k] && groups[g].entries[j] == table[l]
  {
    var at := WithMaskPositions(table, groups[g].mask);
    i :| 0 <= i < |at| && at[i] == k;
    j :| 0 <= j < |at| && at[j] == l;
    assert !(j < i);
  }

  // ----- generator 3: one hash map per mask -----

  /** `decMap_<mask>`: keys to the code that fills the instruction. */
  datatype DecMap = DecMap(mask: Word, find: map<Word, seq<Stmt>>)

  function EvalMap(m: DecMap, w: Word): Option<Instruction> {
    Pow2Values();
    OpBounds(w, m.mask, 32);
    var key: Word := And(w, m.mask);
    if key in m.find then Run(m.find[key], w) else None
  }

  function EvalMaps(maps: seq<DecMap>, w: Word): Option<Instruction> {
    if maps == [] then None
    else
      var earlier := EvalMaps(maps[..|maps| - 1], w);
      if earlier.Some? then earlier else EvalMap(maps[|maps| - 1], w)
  }

  ghost predicate MapAnswers(m: DecMap, entries: seq<Entry>) {
    forall w: Word :: EvalMap(m, w) == Answer(FirstMatch(entries, w), w)
  }

  ghost predicate MapsAnswer(maps: seq<DecMap>, groups: seq<MaskGroup>) {
    forall w: Word :: EvalMaps(maps, w) == Answer(GroupMatch(groups, w), w)
  }

  /** Every key comes from an entry. */
  ghost predicate KeysOf(m: DecMap, entries: seq<Entry>) {
    forall key :: key in m.find ==> BodyCompiles(m.find[key]) && HasKey(entries, key)
  }

  ghost predicate HasKey(entries: seq<Entry>, key: Word) { exists i :: 0 <= i < |entries| && entries[i].matched == key }

  /** The initializer list of an `unordered_map`: which of two equal keys it keeps is not specified.  When no
      word matches two entries that does not matter. */
  method GenMap(mask: Word, entries: seq<Entry>) returns (r: Result<DecMap, GenError>)
    requires OneMask(mask, entries)
    ensures r.Success? <==> AllRecognized(entries)
    ensures r.Success? && PairwiseDisjoint(entries) ==> MapAnswers(r.value, entries)
  {
    var m := DecMap(mask, map[]);
    for i := 0 to |entries|
      invariant AllRecognized(entries[..i]) && m.mask == mask
      invariant PairwiseDisjoint(entries) ==> MapAnswers(m, entries[..i])
      invariant KeysOf(m, entries[..i])
    {
      var e := entries[i];
      var body := GenBody(e);
      if body.Failure? {
        return Failure(body.error);
      }
      var keep: bool := *;
      TakeNext(entries, i);
      AddKey(m, entries, i, body.value, keep);
      if !(e.matched in m.find && keep) {
        m := m.(find := m.find[e.matched := body.value]);
      }
    }
    TakeAll(entries);
    r := Success(m);
  }

  /** One more pair of the initializer list. */
  lemma AddKey(m: DecMap, entries: seq<Entry>, i: nat, body: seq<Stmt>, keep: bool)
    requires OneMask(m.mask, entries) && i < |entries| && BodyFor(body, entries[i]) && KeysOf(m, entries[..i])
    ensures var next := if entries[i].matched in m.find && keep then m else m.(find := m.find[entries[i].matched := body]);
            && KeysOf(next, entries[..i + 1])
            && (PairwiseDisjoint(entries) && MapAnswers(m, entries[..i]) ==> MapAnswers(next, entries[..i + 1]))
  {
    var e, next := entries[i], if entries[i].matched in m.find && keep then m else m.(find := m.find[entries[i].matched := body]);
    TakeNext(entries, i);
    forall key | key in next.find ensures HasKey(entries[..i + 1], key) {
      if key != e.matched {
        var j :| 0 <= j < i && entries[..i][j].matched == key;
        assert entries[..i + 1][j].matched == key;
      } else {
        assert entries[..i + 1][i].matched == key;
      }
    }
    if PairwiseDisjoint(entries) && MapAnswers(m, entries[..i]) {
      forall w: Word ensures EvalMap(next, w) == Answer(FirstMatch(entries[..i + 1], w), w) {
        AddKeyAnswers(m, entries, i, body, keep, w);
      }
    }
  }

  lemma AddKeyAnswers(m: DecMap, entries: seq<Entry>, i: nat, body: seq<Stmt>, keep: bool, w: Word)
    requires OneMask(m.mask, entries) && i < |entries| && BodyFor(body, entries[i]) && KeysOf(m, entries[..i])
    requires PairwiseDisjoint(entries) && MapAnswers(m, entries[..i])
    ensures var next := if entries[i].matched in m.find && keep then m else m.(find := m.find[entries[i].matched := body]);
            EvalMap(next, w) == Answer(FirstMatch(entries[..i + 1], w), w)
  {
    var e := entries[i];
    TakeNext(entries, i);
    FirstMatchAppend(entries[..i], e, w);
    assert EvalMap(m, w) == Answer(FirstMatch(entries[..i], w), w);
    if Matches(e, w) {
      if e.matched in m.find {
        var j :| 0 <= j < i && entries[..i][j].matched == e.matched;
        assert false;
      }
    }
  }

  lemma EvalMapsAppend(maps: seq<DecMap>, m: DecMap, w: Word)
    ensures EvalMaps(maps + [m], w) == if EvalMaps(maps, w).Some? then EvalMaps(maps, w) else EvalMap(m, w)
  {
    assert (maps + [m])[..|maps|] == maps;
  }

  method GenMapBlocks(groups: seq<MaskGroup>) returns (r: Result<seq<DecMap>, GenError>)
    requires OneMaskEach(groups)
    ensures r.Success? <==> EachRecognized(groups)
    ensures r.Success? && EachDisjoint(groups) ==> MapsAnswer(r.value, groups)
  {
    var maps: seq<DecMap> := [];
    for g := 0 to |groups|
      invariant EachRecognized(groups[..g]) && (EachDisjoint(groups) ==> MapsAnswer(maps, groups[..g]))
    {
      var m := GenMap(groups[g].mask, groups[g].entries);
      if m.Failure? {
        return Failure(m.error);
      }
      if EachDisjoint(groups) {
        OneMoreMap(maps, m.value, groups, g);
      }
      assert groups[..g + 1][..g] == groups[..g];
      maps := maps + [m.value];
    }
    assert groups[..|groups|] == groups;
    r := Success(maps);
  }

  lemma OneMoreMap(maps: seq<DecMap>, m: DecMap, groups: seq<MaskGroup>, g: nat)
    requires g < |groups| && MapsAnswer(maps, groups[..g]) && MapAnswers(m, groups[g].entries)
    ensures MapsAnswer(maps + [m], groups[..g + 1])
  {
    forall w: Word ensures EvalMaps(maps + [m], w) == Answer(GroupMatch(groups[..g + 1], w), w) {
      EvalMapsAppend(maps, m, w);
      assert groups[..g + 1][..g] == groups[..g];
    }
  }

  method GenMaps(table: seq<Entry>) returns (r: Result<seq<DecMap>, GenError>, ghost groups: seq<MaskGroup>)
    ensures Grouped(groups, table)
    ensures r.Success? <==> AllRecognized(table)
    ensures r.Success? && KeysDoNotMatter(table) ==> MapsAnswer(r.value, groups)
  {
    var dict := GenByMaskDict(table);
    groups := dict;
    GroupsHaveOneMask(dict, table);
    RecognizedInGroups(dict, table);
    if KeysDoNotMatter(table) { GroupsDisjoint(dict, table); }
    r := GenMapBlocks(dict);
  }

  /** It does not matter which of two equal keys a map keeps: there are none, or no word matches them. */
  ghost predicate KeysDoNotMatter(table: seq<Entry>) { NoTwins(table) || PairwiseDisjoint(table) }

  ghost predicate EachDisjoint(groups: seq<MaskGroup>) {
    forall g :: 0 <= g < |groups| ==> PairwiseDisjoint(groups[g].entries)
  }

  /** Two entries of one mask match a common word only if they are twins. */
  lemma GroupsDisjoint(groups: seq<MaskGroup>, table: seq<Entry>)
    requires Grouped(groups, table) && KeysDoNotMatter(table)
    ensures EachDisjoint(groups)
  {
    forall g, i, j | 0 <= g < |groups| && 0 <= i < j < |groups[g].entries|
      ensures !Overlap(groups[g].entries[i], groups[g].entries[j])
    {
      var at := WithMaskPositions(table, groups[g].mask);
      WithMaskOneMask(table, groups[g].mask);
      assert at[i] < at[j];
      assert table[at[i]] == groups[g].entries[i] && table[at[j]] == groups[g].entries[j];
    }
  }

  // ----- the three decoders agree -----

  ghost predicate Overlap(a: Entry, b: Entry) {
    exists w: Word :: Matches(a, w) && Matches(b, w)
  }

  ghost predicate PairwiseDisjoint(table: seq<Entry>) {
    forall i, j :: 0 <= i < j < |table| ==> !Overlap(table[i], table[j])
  }

  ghost predicate IsFirstMatch(table: seq<Entry>, w: Word, i: nat) {
    i < |table| && Matches(table[i], w) && forall k :: 0 <= k < i ==> !Matches(table[k], w)
  }

  /** Whenever several entries match a word, the mask of the first of them is also the first of
      their masks to appear in the table. */
  ghost predicate FirstMaskLeads(table: seq<Entry>) {
    forall w: Word, i: nat, j: nat :: i < |table| && j < |table| ==> Leads(table, w, i, j)
  }

  ghost predicate Leads(table: seq<Entry>, w: Word, i: nat, j: nat)
    requires i < |table| && j < |table|
  {
    IsFirstMatch(table, w, i) && Matches(table[j], w) ==>
      FirstIndex(table, table[i].mask) <= FirstIndex(table, table[j].mask)
  }

  lemma DisjointLeads(table: seq<Entry>)
    requires PairwiseDisjoint(table)
    ensures FirstMaskLeads(table)
  {
    forall w: Word, i: nat, j: nat | i < |table| && j < |table| ensures Leads(table, w, i, j) {
      if i < j { assert !Overlap(table[i], table[j]); }
    }
  }

  lemma {:induction false} FirstMatchPosition(table: seq<Entry>, w: Word) returns (i: nat)
    ensures match FirstMatch(table, w)
            case None => i == |table| && forall k :: 0 <= k < |table| ==> !Matches(table[k], w)
            case Some(e) => IsFirstMatch(table, w, i) && table[i] == e
  {
    if table == [] { return 0; }
    var n := |table| - 1;
    i := FirstMatchPosition(table[..n], w);
    assert forall k :: 0 <= k < n ==> table[k] == table[..n][k];
    if i == n && !Matches(table[n], w) { i := n + 1; }
  }

  /** Restricting to one mask keeps the first match when it has that mask. */
  lemma {:induction false} FirstMatchInGroup(table: seq<Entry>, mask: Word, w: Word)
    requires FirstMatch(table, w).Some? && FirstMatch(table, w).value.mask == mask
    ensures FirstMatch(WithMask(table, mask), w) == FirstMatch(table, w)
  {
    var n := |table| - 1;
    WithMaskAppend(table[..n], table[n], mask);
    assert table[..n] + [table[n]] == table;
    FirstMatchAppend(WithMask(table[..n], mask), table[n], w);
    if FirstMatch(table[..n], w).Some? {
      FirstMatchInGroup(table[..n], mask, w);
    } else {
      NoMatchInGroup(table[..n], mask, w);
    }
  }

  lemma {:induction false} NoMatchInGroup(table: seq<Entry>, mask: Word, w: Word)
    requires FirstMatch(table, w) == None
    ensures FirstMatch(WithMask(table, mask), w) == None
  {
    if table != [] {
      var n := |table| - 1;
      NoMatchInGroup(table[..n], mask, w);
      FirstMatchAppend(WithMask(table[..n], mask), table[n], w);
    }
  }

  lemma {:induction false} GroupMatchIs(groups: seq<MaskGroup>, g: nat, w: Word)
    requires g < |groups| && FirstMatch(groups[g].entries, w).Some?
    requires forall h :: 0 <= h < g ==> FirstMatch(groups[h].entries, w) == None
    ensures GroupMatch(groups, w) == FirstMatch(groups[g].entries, w)
  {
    var n := |groups| - 1;
    if g < n {
      GroupMatchIs(groups[..n], g, w);
    } else {
      GroupMatchNone(groups[..n], w);
    }
  }

  lemma {:induction false} GroupMatchNone(groups: seq<MaskGroup>, w: Word)
    requires forall h :: 0 <= h < |groups| ==> FirstMatch(groups[h].entries, w) == None
    ensures GroupMatch(groups, w) == None
  {
    if groups != [] { GroupMatchNone(groups[..|groups| - 1], w); }
  }

  predicate SameAnswer(table: seq<Entry>, groups: seq<MaskGroup>, w: Word) {
    GroupMatch(groups, w) == FirstMatch(table, w)
  }

  /** Regrouping by mask changes no answer exactly when first masks lead. */
  lemma GroupingPreservesMeaning(table: seq<Entry>, groups: seq<MaskGroup>)
    requires Grouped(groups, table)
    ensures (forall w: Word :: SameAnswer(table, groups, w)) <==> FirstMaskLeads(table)
  {
    if FirstMaskLeads(table) {
      forall w: Word ensures SameAnswer(table, groups, w) {
        LeadingMeansSame(table, groups, w);
      }
    } else {
      var w: Word, i: nat, j: nat :| i < |table| && j < |table| && !Leads(table, w, i, j);
      if SameAnswer(table, groups, w) {
        SameMeansLeading(table, groups, w, i, j);
      }
    }
  }

  lemma LeadingMeansSame(table: seq<Entry>, groups: seq<MaskGroup>, w: Word)
    requires Grouped(groups, table) && FirstMaskLeads(table)
    ensures GroupMatch(groups, w) == FirstMatch(table, w)
  {
    var i := FirstMatchPosition(table, w);
    if FirstMatch(table, w) == None {
      forall h | 0 <= h < |groups| ensures FirstMatch(groups[h].entries, w) == None {
        NoMatchInGroup(table, groups[h].mask, w);
      }
      GroupMatchNone(groups, w);
    } else {
      var g :| 0 <= g < |groups| && groups[g].mask == table[i].mask;
      FirstMatchInGroup(table, table[i].mask, w);
      forall h | 0 <= h < g ensures FirstMatch(groups[h].entries, w) == None {
        EarlierGroupSilent(table, groups, w, i, g, h);
      }
      GroupMatchIs(groups, g, w);
    }
  }

  /** A group tried before the one of the first match cannot answer. */
  lemma EarlierGroupSilent(table: seq<Entry>, groups: seq<MaskGroup>, w: Word, i: nat, g: nat, h: nat)
    requires Grouped(groups, table) && FirstMaskLeads(table) && h < g < |groups|
    requires IsFirstMatch(table, w, i) && groups[g].mask == table[i].mask
    ensures FirstMatch(groups[h].entries, w) == None
  {
    var at := WithMaskPositions(table, groups[h].mask);
    WithMaskOneMask(table, groups[h].mask);
    var k := FirstMatchPosition(groups[h].entries, w);
    assert FirstIndex(table, groups[h].mask) < FirstIndex(table, groups[g].mask);
    forall k | 0 <= k < |at| ensures !Matches(groups[h].entries[k], w) {
      assert table[at[k]].mask == groups[h].mask;
      assert Leads(table, w, i, at[k]);
    }
  }

  /** An earlier group that can answer does, with an entry of another mask. */
  lemma SameMeansLeading(table: seq<Entry>, groups: seq<MaskGroup>, w: Word, i: nat, j: nat)
    requires Grouped(groups, table) && GroupMatch(groups, w) == FirstMatch(table, w)
    requires IsFirstMatch(table, w, i) && j < |table| && Matches(table[j], w)
    ensures FirstIndex(table, table[i].mask) <= FirstIndex(table, table[j].mask)
  {
    var h :| 0 <= h < |groups| && groups[h].mask == table[j].mask;
    var at := WithMaskPositions(table, groups[h].mask);
    var k :| 0 <= k < |at| && at[k] == j;
    var f := FirstMatchPosition(groups[h].entries, w);
    assert Matches(groups[h].entries[k], w);
    var g := AnsweringGroup(groups, w);
    assert g <= h;
    var i' := FirstMatchPosition(table, w);
    assert i' == i;
    WithMaskOneMask(table, groups[g].mask);
    var q := FirstMatchPosition(groups[g].entries, w);
    assert groups[g].entries[q] == table[i];
    assert g < h ==> FirstIndex(table, groups[g].mask) < FirstIndex(table, groups[h].mask);
  }

  lemma {:induction false} AnsweringGroup(groups: seq<MaskGroup>, w: Word) returns (g: nat)
    requires exists h :: 0 <= h < |groups| && FirstMatch(groups[h].entries, w).Some?
    ensures g < |groups| && FirstMatch(groups[g].entries, w).Some?
    ensures GroupMatch(groups, w) == FirstMatch(groups[g].entries, w)
    ensures forall h :: 0 <= h < g ==> FirstMatch(groups[h].entries, w) == None
  {
    g := 0;
    while FirstMatch(groups[g].entries, w) == None
      invariant g < |groups|
      invariant forall h :: 0 <= h < g ==> FirstMatch(groups[h].entries, w) == None
      decreases |groups| - g
    {
      g := g + 1;
    }
    GroupMatchIs(groups, g, w);
  }

  /** The decoders return the same instruction for every word, the one the table prescribes, on every table
      with disjoint patterns, and on every table where first masks lead: the switches when they compile, that
      is, when no two entries share mask and match, the maps when it does not matter which equal key is kept. */
  lemma GeneratorsAgree(table: seq<Entry>, arms: seq<IfArm>, groups: seq<MaskGroup>, switches: seq<Switch>,
                        groups': seq<MaskGroup>, maps: seq<DecMap>, w: Word)
    requires PairwiseDisjoint(table) || FirstMaskLeads(table)
    requires IfsAnswer(arms, table)
    requires Grouped(groups, table) && SwitchesAnswer(switches, groups) && LabelsOf(switches, groups)
    requires Grouped(groups', table) && (KeysDoNotMatter(table) ==> MapsAnswer(maps, groups'))
    ensures KeysDoNotMatter(table) ==> EvalIfs(arms, w) == EvalMaps(maps, w)
    ensures NoTwins(table) ==> DistinctLabels(switches) && EvalIfs(arms, w) == EvalSwitches(switches, w)
    ensures EvalIfs(arms, w) == (if FirstMatch(table, w).Some? then Some(Decode(table, w)) else None)
    ensures FirstMatch(table, w) == None ==> Decode(table, w) == NO_INSTRUCTION
  {
    if PairwiseDisjoint(table) { DisjointLeads(table); }
    LeadingMeansSame(table, groups, w);
    LeadingMeansSame(table, groups', w);
    TwinsInGroups(switches, groups, table);
  }

  /** The keys of the dictionary the table comes from. */
  ghost predicate DistinctNames(table: seq<Entry>) {
    forall i, j :: 0 <= i < j < |table| ==> table[i].name != table[j].name
  }

  ghost predicate FromTable(o: Option<Entry>, table: seq<Entry>) { o.Some? ==> o.value in table }

  lemma AnswerTellsEntry(table: seq<Entry>, o: Option<Entry>, o': Option<Entry>, w: Word)
    requires DistinctNames(table) && FromTable(o, table) && FromTable(o', table)
    ensures Answer(o, w) == Answer(o', w) <==> o == o'
  {}

  lemma MatchesComeFromTable(table: seq<Entry>, groups: seq<MaskGroup>, w: Word)
    requires Grouped(groups, table)
    ensures FromTable(FirstMatch(table, w), table) && FromTable(GroupMatch(groups, w), table)
  {
    var i := FirstMatchPosition(table, w);
    if GroupMatch(groups, w).Some? {
      if forall h :: 0 <= h < |groups| ==> FirstMatch(groups[h].entries, w) == None {
        GroupMatchNone(groups, w);
      }
      var g := AnsweringGroup(groups, w);
      var j := FirstMatchPosition(groups[g].entries, w);
      var at := WithMaskPositions(table, groups[g].mask);
      assert table[at[j]] == groups[g].entries[j];
    }
  }

  /** On every table whose names differ, the emitted switches compile and decode every word as the chain of ifs
      does exactly when no two entries share mask and match and first masks lead; and without such twins the
      emitted maps decode every word so exactly when first masks lead. */
  lemma GeneratorsAgreeExactly(table: seq<Entry>, arms: seq<IfArm>, groups: seq<MaskGroup>,
                               switches: seq<Switch>, maps: seq<DecMap>)
    requires DistinctNames(table) && IfsAnswer(arms, table) && Grouped(groups, table)
    requires SwitchesAnswer(switches, groups) && LabelsOf(switches, groups)
    requires KeysDoNotMatter(table) ==> MapsAnswer(maps, groups)
    ensures DistinctLabels(switches) && (forall w: Word :: EvalIfs(arms, w) == EvalSwitches(switches, w))
            <==> NoTwins(table) && FirstMaskLeads(table)
    ensures NoTwins(table) ==> ((forall w: Word :: EvalIfs(arms, w) == EvalMaps(maps, w)) <==> FirstMaskLeads(table))
  {
    TwinsInGroups(switches, groups, table);
    GroupingPreservesMeaning(table, groups);
    if FirstMaskLeads(table) {
      forall w: Word
        ensures EvalIfs(arms, w) == EvalSwitches(switches, w)
        ensures NoTwins(table) ==> EvalIfs(arms, w) == EvalMaps(maps, w)
      {
        assert SameAnswer(table, groups, w);
        DecodersFollowMatches(table, arms, groups, switches, maps, w);
      }
    } else {
      var w: Word :| !SameAnswer(table, groups, w);
      DecodersFollowMatches(table, arms, groups, switches, maps, w);
    }
  }

  lemma DecodersFollowMatches(table: seq<Entry>, arms: seq<IfArm>, groups: seq<MaskGroup>,
                              switches: seq<Switch>, maps: seq<DecMap>, w: Word)
    requires DistinctNames(table) && IfsAnswer(arms, table) && Grouped(groups, table)
    requires SwitchesAnswer(switches, groups) && (KeysDoNotMatter(table) ==> MapsAnswer(maps, groups))
    ensures EvalIfs(arms, w) == EvalSwitches(switches, w) <==> SameAnswer(table, groups, w)
    ensures KeysDoNotMatter(table) ==> (EvalIfs(arms, w) == EvalMaps(maps, w) <==> SameAnswer(table, groups, w))
  {
    MatchesComeFromTable(table, groups, w);
    AnswerTellsEntry(table, FirstMatch(table, w), GroupMatch(groups, w), w);
  }

  /** Overlapping patterns can make them disagree: the word 2 matches the second entry first, but the
      third entry belongs to the first group.  By OverlapDecodersDiffer the emitted decoders differ. */
  lemma OverlapCanDisagree()
    ensures var a := Entry(ADD, [], 1, 1);
            var b := Entry(SUB, [], 2, 2);
            var c := Entry(XOR, [], 1, 0);
            && !Matches(a, 2) && Matches(b, 2) && Matches(c, 2) && AllRecognized([a, b, c])
            && Grouped([MaskGroup(1, [a, c]), MaskGroup(2, [b])], [a, b, c])
            && FirstMatch([a, b, c], 2) == Some(b)
            && GroupMatch([MaskGroup(1, [a, c]), MaskGroup(2, [b])], 2) == Some(c)
  {
    var a, b, c := Entry(ADD, [], 1, 1), Entry(SUB, [], 2, 2), Entry(XOR, [], 1, 0);
    ExampleGroups(a, b, c);
    assert And(2, 1) == 0 by { assert And(1, 0) == 0; }
    assert And(2, 2) == 2 by { assert And(1, 1) == 1; }
    ExampleFirst(a, c, 2);
    ExampleFirst(a, b, 2);
    FirstMatchAppend([a, b], c, 2);
    assert [a, b] + [c] == [a, b, c];
    GroupMatchIs([MaskGroup(1, [a, c]), MaskGroup(2, [b])], 0, 2);
  }

  /** Whenever the first and third of three entries share a mask and a word matches the last two only, the
      emitted decoders differ on it, although all generators succeed and the switch compiles. */
  lemma OverlapDecodersDiffer(a: Entry, b: Entry, c: Entry, w: Word, arms: seq<IfArm>, groups: seq<MaskGroup>,
                              switches: seq<Switch>, maps: seq<DecMap>)
    requires a.mask == c.mask != b.mask && DistinctNames([a, b, c])
    requires !Matches(a, w) && Matches(b, w) && Matches(c, w)
    requires IfsAnswer(arms, [a, b, c]) && Grouped(groups, [a, b, c])
    requires SwitchesAnswer(switches, groups) && MapsAnswer(maps, groups)
    ensures NoTwins([a, b, c])
    ensures EvalIfs(arms, w) == Some(DecodeEntry(b, w))
    ensures EvalSwitches(switches, w) != EvalIfs(arms, w) && EvalMaps(maps, w) != EvalIfs(arms, w)
  {
    var table := [a, b, c];
    FirstPositions(a, b, c);
    assert IsFirstMatch(table, w, 1) && Matches(table[2], w);
    var i := FirstMatchPosition(table, w);
    if GroupMatch(groups, w) == Some(b) {
      SameMeansLeading(table, groups, w, 1, 2);
    }
    MatchesComeFromTable(table, groups, w);
    AnswerTellsEntry(table, Some(b), GroupMatch(groups, w), w);
  }

  lemma FirstPositions(a: Entry, b: Entry, c: Entry)
    requires a.mask == c.mask != b.mask
    ensures FirstIndex([a, b, c], b.mask) == 1 && FirstIndex([a, b, c], c.mask) == 0
  {
    assert [a, b, c][1].mask == b.mask && [a, b, c][0].mask == c.mask;
  }

  lemma ExampleFirst(a: Entry, b: Entry, w: Word)
    requires !Matches(a, w) && Matches(b, w)
    ensures FirstMatch([a, b], w) == Some(b)
  {
    FirstMatchAppend([], a, w);
    FirstMatchAppend([a], b, w);
    assert [] + [a] == [a] && [a] + [b] == [a, b];
  }

  lemma AddFirst(e: Entry)
    ensures AddEntry([], e) == [MaskGroup(e.mask, [e])]
  {}

  lemma {:induction false} AddOther(g: MaskGroup, e: Entry)
    requires g.mask != e.mask
    ensures AddEntry([g], e) == [g, MaskGroup(e.mask, [e])]
  {
    var groups := [g];
    AddFirst(e);
    assert groups[1..] == [];
  }

  lemma {:induction false} AddSame(g: MaskGroup, h: MaskGroup, e: Entry)
    requires g.mask == e.mask
    ensures AddEntry([g, h], e) == [MaskGroup(g.mask, g.entries + [e]), h]
  {
    var groups := [g, h];
    assert groups[1..] == [h];
  }

  lemma GroupedOne(a: Entry)
    ensures Grouped([MaskGroup(a.mask, [a])], [a])
  {
    AddFirst(a);
    GroupedAppend([], [], a);
    assert [] + [a] == [a];
  }

  lemma GroupedTwo(a: Entry, b: Entry)
    requires a.mask != b.mask
    ensures Grouped([MaskGroup(a.mask, [a]), MaskGroup(b.mask, [b])], [a, b])
  {
    GroupedOne(a);
    AddOther(MaskGroup(a.mask, [a]), b);
    GroupedAppend([MaskGroup(a.mask, [a])], [a], b);
    assert [a] + [b] == [a, b];
  }

  lemma ExampleGroups(a: Entry, b: Entry, c: Entry)
    requires a.mask == c.mask != b.mask
    ensures Grouped([MaskGroup(a.mask, [a, c]), MaskGroup(b.mask, [b])], [a, b, c])
  {
    var g, h := MaskGroup(a.mask, [a]), MaskGroup(b.mask, [b]);
    GroupedTwo(a, b);
    AddSame(g, h, c);
    GroupedAppend([g, h], [a, b], c);
    assert [a, b] + [c] == [a, b, c] && [a] + [c] == [a, c];
  }

  /** Overlap can be read off the table: both patterns are satisfiable and they agree where both look. */
  lemma OverlapIsChecked(a: Entry, b: Entry)
    ensures Overlap(a, b) <==>
            && And(a.matched, a.mask) == a.matched && And(b.matched, b.mask) == b.matched
            && And(a.matched, b.mask) == And(b.matched, a.mask)
  {
    if w: Word :| Matches(a, w) && Matches(b, w) {
      MatchedBits(a, w);
      MatchedBits(b, w);
      forall i: nat
        ensures Bit(And(a.matched, b.mask), i) <==> Bit(And(b.matched, a.mask), i)
        ensures Bit(And(a.matched, a.mask), i) <==> Bit(a.matched, i)
        ensures Bit(And(b.matched, b.mask), i) <==> Bit(b.matched, i)
      {
        AndBit(a.matched, b.mask, i); AndBit(b.matched, a.mask, i);
        AndBit(a.matched, a.mask, i); AndBit(b.matched, b.mask, i);
      }
      Pow2Values();
      OpBounds(a.matched, a.mask, 32); OpBounds(b.matched, b.mask, 32);
      OpBounds(a.matched, b.mask, 32); OpBounds(b.matched, a.mask, 32);
      SameBits(And(a.matched, b.mask), And(b.matched, a.mask), 32);
      SameBits(And(a.matched, a.mask), a.matched, 32);
      SameBits(And(b.matched, b.mask), b.matched, 32);
    }
    if && And(a.matched, a.mask) == a.matched && And(b.matched, b.mask) == b.matched
       && And(a.matched, b.mask) == And(b.matched, a.mask) {
      JoinMatches(a, b);
    }
  }

  lemma MatchedBits(a: Entry, w: Word)
    requires Matches(a, w)
    ensures forall i: nat :: Bit(a.matched, i) <==> Bit(w, i) && Bit(a.mask, i)
  {
    forall i: nat ensures Bit(a.matched, i) <==> Bit(w, i) && Bit(a.mask, i) {
      AndBit(w, a.mask, i);
    }
  }

  /** The union of two compatible patterns matches both. */
  lemma JoinMatches(a: Entry, b: Entry)
    requires And(a.matched, a.mask) == a.matched && And(b.matched, b.mask) == b.matched
    requires And(a.matched, b.mask) == And(b.matched, a.mask)
    ensures Overlap(a, b)
  {
    Pow2Values();
    OpBounds(a.matched, b.matched, 32);
    var w: Word := Or(a.matched, b.matched);
    forall i: nat
      ensures Bit(And(w, a.mask), i) <==> Bit(a.matched, i)
      ensures Bit(And(w, b.mask), i) <==> Bit(b.matched, i)
    {
      AndBit(w, a.mask, i); AndBit(w, b.mask, i);
      OrBit(a.matched, b.matched, i);
      AndBit(a.matched, a.mask, i); AndBit(b.matched, b.mask, i);
      AndBit(a.matched, b.mask, i); AndBit(b.matched, a.mask, i);
    }
    OpBounds(w, a.mask, 32); OpBounds(w, b.mask, 32);
    SameBits(And(w, a.mask), a.matched, 32);
    SameBits(And(w, b.mask), b.matched, 32);
    assert Matches(a, w) && Matches(b, w);
  }
}
