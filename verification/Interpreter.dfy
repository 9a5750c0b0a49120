/** The plain interpreter: fetch, decode, execute, one instruction at a time, until `complete`.

    It is written over a `Cpu`, a decoder and an instruction semantics; `SimCpu(table)` is the one of the
    simulator.  What the runs rely on is collected in `Legal`, and `SimCpuIsLegal` proves it of every table.
  */
module Interpreter {
  import opened Bits
  import opened Wrappers
  import opened FlatMemory
  import opened Instructions
  import opened DecoderTable
  import opened Machine

  datatype Cpu = Cpu(exec: (Instruction, Arch) -> Outcome, decodeAt: (Flat, Word) -> Result<Instruction, Error>)

  /** The throwing `at` of the register files appears here; no decoded instruction reaches it. */
  function ExecChecked(inst: Instruction, s: Arch): Outcome {
    if inst.InRange() then ExecuteLogged(inst, s) else Threw(OutOfRange, s)
  }

  function SimCpu(table: seq<Entry>): Cpu {
    Cpu(ExecChecked, (m: Flat, a: Word) => DecodeAt(table, m, a))
  }

  // The classes are verified against an arbitrary `cpu` that is wired to the simulator's definitions.

  ghost predicate ExecWired(cpu: Cpu) {
    forall inst, s {:trigger ExecChecked(inst, s)} :: cpu.exec(inst, s) == ExecChecked(inst, s)
  }

  ghost predicate DecodeWired(cpu: Cpu, table: seq<Entry>) {
    forall m, a {:trigger DecodeAt(table, m, a)} :: cpu.decodeAt(m, a) == DecodeAt(table, m, a)
  }

  /** Between instructions: no branch pending, x0 reads zero. */
  ghost predicate Boundary(s: Arch) { !s.branchIsTaken && s.regs[0] == 0 && s.instrCount < COUNTER_LIMIT }

  ghost predicate Decodes(cpu: Cpu, inst: Instruction) {
    exists m: Flat, a: Word :: cpu.decodeAt(m, a) == Success(inst)
  }

  /** Executing at a boundary: the state stays at a boundary, the counter counts the instructions that
      finish, an instruction without the branch flag falls through, and a callback that throws leaves
      everything but the log as it was. */
  ghost predicate ExecOk(inst: Instruction, s: Arch, r: Outcome) {
    && Boundary(r.st)
    && r.st.instrCount == (if r.Done? then (s.instrCount + 1) % COUNTER_LIMIT else s.instrCount)
    && (r.Done? && !inst.isBranch ==> r.st.pc == AddW(s.pc, XLEN_BYTES) && r.st.complete == s.complete)
    && (r.Threw? ==> r.e != OutOfRange && r.st == s.(log := s.log + [Num(s.instrCount)]))
  }

  ghost predicate Legal(cpu: Cpu) {
    && (forall inst, s {:trigger cpu.exec(inst, s)} :: Decodes(cpu, inst) && Boundary(s) ==> ExecOk(inst, s, cpu.exec(inst, s)))
    && (forall m: Flat, a: Word :: cpu.decodeAt(m, a) != Failure(OutOfRange))
  }

  lemma SimCpuIsLegal(table: seq<Entry>)
    ensures Legal(SimCpu(table))
  {
    var cpu := SimCpu(table);
    forall inst, s | Decodes(cpu, inst) && Boundary(s) ensures ExecOk(inst, s, cpu.exec(inst, s)) {
      var m: Flat, a: Word :| cpu.decodeAt(m, a) == Success(inst);
      assert DecodeAt(table, m, a) == Success(inst);
      DecodeAtIsSafe(table, m, a);
      ExecuteLoggedOk(inst, s);
    }
  }

  lemma RoundOk(inst: Instruction, s: Arch, r: Outcome)
    requires (inst.isBranch <==> inst.callback in BRANCH_MNEMONICS) && Boundary(s)
    requires Effect(inst, s.(log := s.log + [Num(s.instrCount)]), r)
    ensures ExecOk(inst, s, Finished(Advanced(r)))
  {}

  lemma ExecuteLoggedOk(inst: Instruction, s: Arch)
    requires inst.InRange() && (inst.isBranch <==> inst.callback in BRANCH_MNEMONICS) && Boundary(s)
    ensures ExecOk(inst, s, ExecuteLogged(inst, s))
  {
    var numbered := s.(log := s.log + [Num(s.instrCount)]);
    CallbackEffect(inst, numbered);
    RoundOk(inst, s, Callback(inst, numbered));
  }

  function Step(cpu: Cpu, s: Arch): Outcome {
    match cpu.decodeAt(s.mem, s.pc)
    case Failure(e) => Threw(e, s)
    case Success(inst) => cpu.exec(inst, s)
  }

  /** At most `n` steps, stopping when complete. */
  function Interpret(cpu: Cpu, s: Arch, n: nat): Outcome
    decreases n
  {
    if n == 0 || s.complete then Done(s)
    else
      match Step(cpu, s)
      case Threw(e, t) => Threw(e, t)
      case Done(t) => Interpret(cpu, t, n - 1)
  }

  /** At most `n` steps start an instruction at `a`. */
  predicate Visits(cpu: Cpu, s: Arch, n: nat, a: Word)
    decreases n
  {
    n > 0 && !s.complete && (a == s.pc || (Step(cpu, s).Done? && Visits(cpu, Step(cpu, s).st, n - 1, a)))
  }

  /** They start instructions in `code` only. */
  ghost predicate StaysIn(cpu: Cpu, s: Arch, n: nat, code: set<Word>) {
    forall a: Word :: Visits(cpu, s, n, a) ==> a in code
  }

  /** How many instructions those steps execute; one that throws is not counted. */
  function Executed(cpu: Cpu, s: Arch, n: nat): nat
    decreases n
  {
    if n == 0 || s.complete then 0
    else
      match Step(cpu, s)
      case Threw(e, t) => 0
      case Done(t) => 1 + Executed(cpu, t, n - 1)
  }

  /** `at` did not throw. */
  predicate NoRangeError(r: Outcome) { r.Threw? ==> r.e != OutOfRange }

  lemma StepOk(cpu: Cpu, s: Arch)
    requires Legal(cpu) && Boundary(s)
    ensures cpu.decodeAt(s.mem, s.pc).Success? ==> ExecOk(cpu.decodeAt(s.mem, s.pc).value, s, Step(cpu, s))
    ensures Boundary(Step(cpu, s).st) && NoRangeError(Step(cpu, s))
  {
    var d := cpu.decodeAt(s.mem, s.pc);
    if d.Success? { assert Decodes(cpu, d.value); }
  }

  /** At every instruction boundary of every run, however it ends: no branch is pending, x0 reads zero, no
      register index was out of range, and the counter has advanced by the number of instructions
      executed. */
  lemma {:induction false} RunInvariant(cpu: Cpu, s: Arch, n: nat)
    requires Legal(cpu) && Boundary(s)
    ensures Boundary(Interpret(cpu, s, n).st) && NoRangeError(Interpret(cpu, s, n))
    ensures Interpret(cpu, s, n).st.instrCount == (s.instrCount + Executed(cpu, s, n)) % COUNTER_LIMIT
    decreases n
  {
    if n > 0 && !s.complete {
      StepOk(cpu, s);
      var r := Step(cpu, s);
      if r.Done? {
        RunInvariant(cpu, r.st, n - 1);
        AddMod(s.instrCount, 1, Executed(cpu, r.st, n - 1));
      }
    }
  }

  /** Running in two parts. */
  lemma {:induction false} InterpretSplit(cpu: Cpu, s: Arch, n: nat, k: nat)
    ensures Interpret(cpu, s, n + k) ==
            match Interpret(cpu, s, n) case Threw(e, t) => Threw(e, t) case Done(t) => Interpret(cpu, t, k)
    decreases n
  {
    if n > 0 && !s.complete {
      var r := Step(cpu, s);
      if r.Done? { InterpretSplit(cpu, r.st, n - 1, k); }
    }
  }
}
