/** The three ways the interpreter drives instructions - jump table, switch, computed goto -
    as runs bounded by a number of instructions, and why they come to the same thing. */
module Dispatch {
  import opened Bytecode
  import opened Execution

  /** A run has finished with a raw result, or is about to execute instruction `instr`. */
  datatype Run = Done(result: Result, m: Machine) | Running(m: Machine, instr: U32)

  function Pred(x: U32): U32 {
    (x + 0xffff_ffff) % 0x1_0000_0000
  }

  function Succ(x: U32): U32 {
    (x + 1) % 0x1_0000_0000
  }

  /** Stepping back before a branch target and forward again undo each other, even at 0. */
  lemma SuccUndoesPred(x: U32)
    ensures Succ(Pred(x)) == x && Pred(Succ(x)) == x
    ensures x < 0xffff_ffff ==> Succ(x) == x + 1
  {
  }

  predicate Runnable(p: Program, m: Machine) {
    p.frame <= |m.stack| && |p.code| < 0x1_0000_0000
  }

  function JumpTable(f: Floats, p: Program, fuel: nat, m: Machine, instr: U32, opresult: Result): Run
    requires Runnable(p, m)
    decreases fuel
  {
    if instr >= |p.code| then Done(opresult, m.(curInstr := instr))
    else if fuel == 0 then Running(m, instr)
    else
      var (r, m') := Exec(f, p, m, p.code[instr]);
      if r != Ok || m'.interrupted then
        if r == Branching then JumpTable(f, p, fuel - 1, m', Succ(Pred(m'.curInstr)), r)
        else Done(r, m'.(curInstr := instr))
      else JumpTable(f, p, fuel - 1, m', Succ(instr), r)
  }

  function Switch(f: Floats, p: Program, fuel: nat, m: Machine, instr: U32, opresult: Result): Run
    requires Runnable(p, m)
    decreases fuel
  {
    if instr >= |p.code| then Done(opresult, m.(curInstr := instr))
    else if fuel == 0 then Running(m, instr)
    else
      var (r, m') := Exec(f, p, m, p.code[instr]);
      if r != Ok || m'.interrupted then
        if r == Branching then Switch(f, p, fuel - 1, m', Succ(Pred(m'.curInstr)), r)
        else Done(if r == Ok && m'.interrupted then Interrupted else r, m'.(curInstr := instr))
      else Switch(f, p, fuel - 1, m', Succ(instr), r)
  }

  /** How a computed-goto label goes on after its instruction: straight to the next one
      without looking at the result, by way of `dispatch`, or by way of `branchcheck`. */
  datatype Label = SkipLabel | ReturnLabel | Unchecked | Checked | BranchChecked | NoLabel

  function LabelOf(op: U16): Label {
    if op == NOOP then SkipLabel
    else if op == RETURN then ReturnLabel
    else if op in {DLOADIIS, DLOADIIV, DLOADIRS, DLOADIRV, INDEXRIS, INDEXRIR, EXTCALL} then Checked
    else if op in {BRANCH, BRANCHZ, BRANCHNZ, BRANCHPOS, BRANCHNEG, BRANCHUN,
                   BRANCHCEQ, BRANCHCNE, BRANCHCLT, BRANCHCLE, BRANCHCGT, BRANCHCGE, BRANCHCUN} then BranchChecked
    else if op < END then Unchecked
    else NoLabel
  }

  /** The label `endcheck`. */
  function EndCheck(m: Machine, instr: U32, opresult: Result): Run {
    Done(if opresult == Ok && m.interrupted then Interrupted else opresult, m.(curInstr := instr))
  }

  /** Entered with `instr` one before the next instruction, the first time by wrapping. */
  function ComputedGoto(f: Floats, p: Program, fuel: nat, m: Machine, instr: U32, opresult: Result): Run
    requires Runnable(p, m)
    decreases fuel, 1
  {
    var next := Succ(instr);
    if next >= |p.code| || m.interrupted then EndCheck(m, next, opresult)
    else if fuel == 0 then Running(m, next)
    else
      match LabelOf(p.code[next].opcode)
      case SkipLabel => ComputedGoto(f, p, fuel - 1, m, next, opresult)
      case ReturnLabel => Done(Returning, m.(curInstr := next))
      case NoLabel => Done(Fault, m)
      case Unchecked =>
        var (r, m') := Exec(f, p, m, p.code[next]);
        if r.Fault? then Done(Fault, m'.(curInstr := next)) else ComputedGoto(f, p, fuel - 1, m', next, opresult)
      case Checked =>
        var (r, m') := Exec(f, p, m, p.code[next]);
        AtDispatch(f, p, fuel - 1, m', next, r)
      case BranchChecked =>
        var (r, m') := Exec(f, p, m, p.code[next]);
        if r == Branching then AtDispatch(f, p, fuel - 1, m', Pred(m'.curInstr), Ok)
        else AtDispatch(f, p, fuel - 1, m', next, r)
  }

  /** The label `dispatch`. */
  function AtDispatch(f: Floats, p: Program, fuel: nat, m: Machine, instr: U32, opresult: Result): Run
    requires Runnable(p, m)
    decreases fuel, 2
  {
    if opresult != Ok || m.interrupted then
      if opresult == Branching then ComputedGoto(f, p, fuel, m, Pred(m.curInstr), opresult)
      else EndCheck(m, instr, opresult)
    else ComputedGoto(f, p, fuel, m, instr, opresult)
  }

  /** What `execute` makes of a raw result: leaving by RETURN or by branching to the end is fine. */
  function Finish(r: Result): Result {
    if r == Returning || r == Branching then Ok else r
  }

  // ------------------------------------------------------------------
  // The three agree
  // ------------------------------------------------------------------

  ghost predicate ExternsBehave(p: Program) {
    forall e :: e in p.externs ==> WellBehaved(e)
  }

  lemma {:induction false} SwitchIsJumpTable(f: Floats, p: Program, fuel: nat, m: Machine, instr: U32, opresult: Result)
    requires Runnable(p, m) && !m.interrupted
    ensures Switch(f, p, fuel, m, instr, opresult) == JumpTable(f, p, fuel, m, instr, opresult)
    decreases fuel
  {
    hide Exec, Succ, Pred, SafeInstr;
    if instr < |p.code| && fuel > 0 {
      var (r, m') := Exec(f, p, m, p.code[instr]);
      SuccUndoesPred(instr);
      SuccUndoesPred(m'.curInstr);
      if r == Branching {
        SwitchIsJumpTable(f, p, fuel - 1, m', Succ(Pred(m'.curInstr)), r);
      } else if r == Ok {
        SwitchIsJumpTable(f, p, fuel - 1, m', Succ(instr), r);
      }
    }
  }

  /** The unchecked labels belong to instructions that never report anything. */
  lemma UncheckedNeverReport(f: Floats, p: Program, m: Machine, i: Instruction)
    requires p.frame <= |m.stack| && LabelOf(i.opcode) == Unchecked
    requires ExternsBehave(p)
    ensures Exec(f, p, m, i).0 in {Ok, Fault}
  {
    hide Exec, Succ, Pred, SafeInstr;
    ControlOfExec(f, p, m, i);
    if Exec(f, p, m, i).0.Error? {
      OnlyTheseFail(f, p, m, i);
    }
  }

  /** What the labels that do not call an operation stand for. */
  lemma InlineLabels(f: Floats, p: Program, m: Machine, i: Instruction)
    requires p.frame <= |m.stack|
    ensures LabelOf(i.opcode) == SkipLabel ==> Exec(f, p, m, i) == (Ok, m)
    ensures LabelOf(i.opcode) == ReturnLabel ==> Exec(f, p, m, i) == (Returning, m)
    ensures LabelOf(i.opcode) == NoLabel ==> Exec(f, p, m, i) == (Fault, m)
  {
    ShapesOfOpcodes(i.opcode);
  }

  lemma LabelsOfOpcodes(op: U16)
    ensures LabelOf(op) == BranchChecked <==> IsBranchOp(op)
    ensures LabelOf(op) == NoLabel <==> op >= END
  {
  }

  /** A computed-goto run tells a branch to the end as Ok where the others say Branching. */
  predicate SameRun(goto_: Run, table: Run) {
    match table
    case Running(m, instr) => goto_ == table
    case Done(Fault, _) => goto_.Done? && goto_.result == Fault
    case Done(r, m) => goto_ == Done(if r == Branching then Ok else r, m)
  }

  lemma {:induction false} GotoIsJumpTable(f: Floats, p: Program, fuel: nat, m: Machine, instr: U32, opresult: Result)
    requires Runnable(p, m) && !m.interrupted && ExternsBehave(p)
    requires opresult in {Ok, Branching}
    ensures SameRun(ComputedGoto(f, p, fuel, m, Pred(instr), Ok), JumpTable(f, p, fuel, m, instr, opresult))
    decreases fuel
  {
    hide Exec, Succ, Pred, SafeInstr;
    SuccUndoesPred(instr);
    if instr < |p.code| && fuel > 0 {
      var i := p.code[instr];
      var (r, m') := Exec(f, p, m, i);
      SuccUndoesPred(m'.curInstr);
      ControlOfExec(f, p, m, i);
      LabelsOfOpcodes(i.opcode);
      InlineLabels(f, p, m, i);
      hide LabelOf;
      if LabelOf(i.opcode) == Unchecked {
        UncheckedNeverReport(f, p, m, i);
      }
      if r == Branching {
        GotoIsJumpTable(f, p, fuel - 1, m', Succ(Pred(m'.curInstr)), r);
      } else if r == Ok {
        GotoIsJumpTable(f, p, fuel - 1, m', Succ(instr), r);
      }
    }
  }

  /** Started on any instruction, uninterrupted, the three loops leave the same machine after
      the same number of instructions, and `execute` reports the same for all of them. */
  lemma DispatchersAgree(f: Floats, p: Program, fuel: nat, m: Machine)
    requires Runnable(p, m) && !m.interrupted && ExternsBehave(p)
    ensures var table := JumpTable(f, p, fuel, m, m.curInstr, Ok);
      var switch := Switch(f, p, fuel, m, m.curInstr, Ok);
      var goto_ := ComputedGoto(f, p, fuel, m, Pred(m.curInstr), Ok);
      && switch == table
      && (table.Running? ==> goto_ == table)
      && (table.Done? ==> goto_.Done? && Finish(goto_.result) == Finish(table.result))
      && (table.Done? && table.result != Fault ==> goto_.m == table.m)
      && (table.Done? ==> (goto_.result != table.result <==> table.result == Branching))
  {
    SwitchIsJumpTable(f, p, fuel, m, m.curInstr, Ok);
    GotoIsJumpTable(f, p, fuel, m, m.curInstr, Ok);
  }

  // ------------------------------------------------------------------
  // Runs of safe programs
  // ------------------------------------------------------------------

  /** However long it runs, a safe program never leaves its bounds, stays within its code,
      and ends as `execute` allows. */
  lemma {:induction false} SafeRunsNeverFault(f: Floats, p: Program, fuel: nat, m: Machine, instr: U32, opresult: Result)
    requires Runnable(p, m) && !m.interrupted && SafeProgram(p)
    requires instr <= |p.code| && !opresult.Fault? && opresult != Interrupted
    ensures var run := JumpTable(f, p, fuel, m, instr, opresult);
      && StaysInFrame(p, m, run.m)
      && (run.Running? ==> run.instr < |p.code|)
      && (run.Done? ==> !run.result.Fault? && run.result != Interrupted && run.m.curInstr <= |p.code|)
    decreases fuel
  {
    hide Exec, Succ, Pred, SafeInstr;
    if instr < |p.code| && fuel > 0 {
      var (r, m') := Exec(f, p, m, p.code[instr]);
      SuccUndoesPred(instr);
      SuccUndoesPred(m'.curInstr);
      ControlOfExec(f, p, m, p.code[instr]);
      SafeInstrNeverFaults(f, p, m, p.code[instr]);
      if r == Branching {
        SafeRunsNeverFault(f, p, fuel - 1, m', Succ(Pred(m'.curInstr)), r);
      } else if r == Ok {
        SafeRunsNeverFault(f, p, fuel - 1, m', Succ(instr), r);
      }
    }
  }

  predicate Without(p: Program, ops: set<U16>) {
    forall k :: 0 <= k < |p.code| ==> p.code[k].opcode !in ops
  }

  /** With none of the computed accesses and no calls, a safe program that ends, ends well. */
  lemma {:induction false} PlainRunsSucceed(f: Floats, p: Program, fuel: nat, m: Machine, instr: U32, opresult: Result)
    requires Runnable(p, m) && !m.interrupted && SafeProgram(p)
    requires Without(p, {DLOADIRS, DLOADIRV, INDEXRIS, INDEXRIR, EXTCALL})
    requires instr <= |p.code| && opresult in {Ok, Branching}
    ensures var run := JumpTable(f, p, fuel, m, instr, opresult); run.Done? ==> Finish(run.result) == Ok
    decreases fuel
  {
    hide Exec, Succ, Pred, SafeInstr;
    if instr < |p.code| && fuel > 0 {
      var (r, m') := Exec(f, p, m, p.code[instr]);
      SuccUndoesPred(instr);
      SuccUndoesPred(m'.curInstr);
      ControlOfExec(f, p, m, p.code[instr]);
      SafeInstrNeverFaults(f, p, m, p.code[instr]);
      if r.Error? {
        OnlyTheseFail(f, p, m, p.code[instr]);
      } else if r == Branching {
        PlainRunsSucceed(f, p, fuel - 1, m', Succ(Pred(m'.curInstr)), r);
      } else if r == Ok {
        PlainRunsSucceed(f, p, fuel - 1, m', Succ(instr), r);
      }
    }
  }

  /** The constants under the stack survive any run without INDEXRIR. */
  lemma {:induction false} RunsKeepConstants(f: Floats, p: Program, fuel: nat, m: Machine, instr: U32, opresult: Result)
    requires Runnable(p, m) && SafeProgram(p) && Without(p, {INDEXRIR})
    ensures var run := JumpTable(f, p, fuel, m, instr, opresult);
      |run.m.stack| == |m.stack| && run.m.stack[..p.constants] == m.stack[..p.constants]
    decreases fuel
  {
    hide Exec, Succ, Pred, SafeInstr;
    if instr < |p.code| && fuel > 0 {
      var (r, m') := Exec(f, p, m, p.code[instr]);
      SuccUndoesPred(instr);
      SuccUndoesPred(m'.curInstr);
      SafeInstrKeepsConstants(f, p, m, p.code[instr]);
      if r == Branching {
        RunsKeepConstants(f, p, fuel - 1, m', Succ(Pred(m'.curInstr)), r);
      } else if r == Ok && !m'.interrupted {
        RunsKeepConstants(f, p, fuel - 1, m', Succ(instr), r);
      }
    }
  }

  /** Where a run goes on from an instruction, and where it ends. */
  lemma OneStep(f: Floats, p: Program, fuel: nat, m: Machine, instr: U32, opresult: Result)
    requires Runnable(p, m)
    ensures instr >= |p.code| ==> JumpTable(f, p, fuel, m, instr, opresult) == Done(opresult, m.(curInstr := instr))
    ensures instr < |p.code| && fuel > 0 ==>
              var ((r, m'), run) := (Exec(f, p, m, p.code[instr]), JumpTable(f, p, fuel, m, instr, opresult));
              && (r == Ok && !m'.interrupted ==> run == JumpTable(f, p, fuel - 1, m', instr + 1, Ok))
              && (r == Branching ==> run == JumpTable(f, p, fuel - 1, m', m'.curInstr, Branching))
              && (r != Ok && r != Branching ==> run == Done(r, m'.(curInstr := instr)))
  {
    hide Exec;
    if instr < |p.code| && fuel > 0 {
      var m' := Exec(f, p, m, p.code[instr]).1;
      SuccUndoesPred(instr);
      SuccUndoesPred(m'.curInstr);
    }
  }

  // ------------------------------------------------------------------
  // Predictable running time
  // ------------------------------------------------------------------

  /** Every branch goes strictly forward. */
  predicate ForwardOnly(p: Program) {
    forall k :: 0 <= k < |p.code| && IsBranchOp(p.code[k].opcode) ==> Combine(p.code[k].arg2, p.code[k].arg3) > k
  }

  /** Without back-branches a run ends within as many instructions as are left. */
  lemma {:induction false} ForwardRunsEnd(f: Floats, p: Program, fuel: nat, m: Machine, instr: U32, opresult: Result)
    requires Runnable(p, m) && ForwardOnly(p) && ExternsBehave(p)
    requires instr + fuel >= |p.code|
    ensures JumpTable(f, p, fuel, m, instr, opresult).Done?
    decreases fuel
  {
    hide Exec, Succ, Pred, SafeInstr;
    if instr < |p.code| && fuel > 0 {
      var (r, m') := Exec(f, p, m, p.code[instr]);
      SuccUndoesPred(instr);
      SuccUndoesPred(m'.curInstr);
      ControlOfExec(f, p, m, p.code[instr]);
      if r == Branching {
        ForwardRunsEnd(f, p, fuel - 1, m', Succ(Pred(m'.curInstr)), r);
      } else if r == Ok && !m'.interrupted {
        ForwardRunsEnd(f, p, fuel - 1, m', Succ(instr), r);
      }
    }
  }

  /** More fuel does not change a finished run, so the bound does not matter once it is met. */
  lemma {:induction false} FinishedRunsStay(f: Floats, p: Program, fuel: nat, more: nat, m: Machine, instr: U32, opresult: Result)
    requires Runnable(p, m) && fuel <= more
    requires JumpTable(f, p, fuel, m, instr, opresult).Done?
    ensures JumpTable(f, p, more, m, instr, opresult) == JumpTable(f, p, fuel, m, instr, opresult)
    decreases fuel
  {
    hide Exec, Succ, Pred, SafeInstr;
    if instr < |p.code| && fuel > 0 {
      var (r, m') := Exec(f, p, m, p.code[instr]);
      SuccUndoesPred(instr);
      SuccUndoesPred(m'.curInstr);
      if r == Branching {
        FinishedRunsStay(f, p, fuel - 1, more - 1, m', Succ(Pred(m'.curInstr)), r);
      } else if r == Ok && !m'.interrupted {
        FinishedRunsStay(f, p, fuel - 1, more - 1, m', Succ(instr), r);
      }
    }
  }
}
