/** The interpreter context: one stack in memory, updated in place by unchecked instructions
    under any of the three dispatch loops, driven by the host's calls. */
module Interpreter {
  import opened Bytecode
  import opened Execution
  import opened Dispatch

  const LMNT_INTERRUPTED: int := -0x01
  const LMNT_ERROR_ARGS_MISMATCH: int := -0x20
  const LMNT_ERROR_RVALS_MISMATCH: int := -0x21

  /** Which dispatch header the library is built with. */
  datatype Dispatcher = ByJumpTable | BySwitch | ByComputedGoto

  /** What a prepared archive offers: constants, data sections, linked defs, code blocks by
      offset, externs. */
  datatype Image = Image(
    constants: nat,
    sections: seq<U32>,
    extents: seq<nat>,
    data: (nat, nat) -> Word,
    defs: map<U32, Def>,
    codes: map<U32, seq<Instruction>>,
    externs: seq<Extern>)

  predicate IsExtern(d: Def) {
    Has(d.flags, DEFFLAG_EXTERN)
  }

  function ProgramOf(image: Image, d: Def): Program
    requires d.code in image.codes
  {
    Program(image.codes[d.code], image.constants, image.constants + d.stackCount,
            image.sections, image.extents, image.data, image.defs, image.externs)
  }

  /** A def fits the stack, and what it runs is safe. */
  ghost predicate SafeDef(image: Image, d: Def, stackCount: nat) {
    && image.constants + d.stackCount <= stackCount
    && d.argsCount + d.rvalsCount <= d.stackCount
    && (IsExtern(d) && d.code < |image.externs| ==>
          && image.externs[d.code].argsCount == d.argsCount
          && image.externs[d.code].rvalsCount == d.rvalsCount)
    && (!IsExtern(d) ==> d.code in image.codes && SafeProgram(ProgramOf(image, d)))
  }

  /** Everything the host may execute is safe and fits the stack. */
  ghost predicate SafeImage(image: Image, stackCount: nat) {
    && image.constants <= stackCount
    && (forall e :: e in image.externs ==> WellBehaved(e))
    && (forall at :: at in image.defs ==> SafeDef(image, image.defs[at], stackCount))
  }

  // ------------------------------------------------------------------
  // What the host's calls do, as functions of the machine
  // ------------------------------------------------------------------

  function CodeOf(r: Result): int {
    match r
    case Ok => 0
    case Branching => LMNT_BRANCHING
    case Returning => LMNT_RETURNING
    case Interrupted => LMNT_INTERRUPTED
    case Error(code) => code
    case Fault => LMNT_ERROR_ACCESS_VIOLATION
  }

  /** Running a def from its start, for at most `fuel` instructions. */
  function RunDef(f: Floats, image: Image, d: Def, fuel: nat, m: Machine): Run
    requires image.constants + d.stackCount <= |m.stack|
    requires !IsExtern(d) ==> d.code in image.codes && |image.codes[d.code]| < 0x1_0000_0000
  {
    var m0 := m.(curInstr := 0);
    if IsExtern(d) then
      if d.code >= |image.externs| then Done(Error(LMNT_ERROR_NOT_FOUND), m0)
      else
        var e := image.externs[d.code];
        var pos := image.constants;
        if pos + e.argsCount + e.rvalsCount > |m.stack| then Done(Fault, m0)
        else
          var out := e.fn(m.stack[pos..pos + e.argsCount]);
          if |out.rvals| != e.rvalsCount then Done(Fault, m0)
          else Done(if out.code == 0 then Ok else Error(out.code), m0.(stack := Store(m.stack, pos + e.argsCount, out.rvals)))
    else JumpTable(f, ProgramOf(image, d), fuel, m0, 0, Ok)
  }

  class Ictx {
    const f: Floats
    const image: Image
    const stack: array<Word>
    var eq: bool
    var lt: bool
    var gt: bool
    var un: bool
    var interrupted: bool
    var curInstr: U32

    constructor (f: Floats, image: Image, stack: array<Word>)
      ensures this.f == f && this.image == image && this.stack == stack
      ensures !interrupted
    {
      this.f, this.image, this.stack := f, image, stack;
      eq, lt, gt, un, interrupted := false, false, false, false, false;
      curInstr := 0;
    }

    function Snapshot(): Machine
      reads this, stack
    {
      Machine(stack[..], eq, lt, gt, un, interrupted, curInstr)
    }

    ghost predicate Ready(p: Program)
    {
      p.frame <= stack.Length && SafeProgram(p)
    }

    // ---------------- instructions ----------------

    method MapOp(fn: U16, a1: nat, step: nat, a3: nat, n: nat)
      requires 0 < n && step <= 1 && a1 + Reach(step, n) <= stack.Length && a3 + n <= stack.Length
      modifies stack
      ensures stack[..] == MapLanes(f, fn, old(stack[..]), a1, step, a3, 0, n)
    {
      for k := 0 to n
        invariant MapLanes(f, fn, stack[..], a1, step, a3, k, n) == MapLanes(f, fn, old(stack[..]), a1, step, a3, 0, n)
      {
        var v := stack[a1 + Offset(step, k)];
        ghost var before := stack[..];
        stack[a3 + k] := if fn == COPY then v else f.unary(fn, v);
        assert stack[..] == before[a3 + k := stack[a3 + k]];
      }
    }

    method ZipOp(fn: U16, a1: nat, a2: nat, step2: nat, a3: nat, n: nat)
      requires 0 < n && step2 <= 1 && a1 + n <= stack.Length && a2 + Reach(step2, n) <= stack.Length && a3 + n <= stack.Length
      modifies stack
      ensures stack[..] == ZipLanes(f, fn, old(stack[..]), a1, a2, step2, a3, 0, n)
    {
      hide Apply2;
      for k := 0 to n
        invariant ZipLanes(f, fn, stack[..], a1, a2, step2, a3, k, n) == ZipLanes(f, fn, old(stack[..]), a1, a2, step2, a3, 0, n)
      {
        ghost var before := stack[..];
        stack[a3 + k] := Apply2(f, fn, stack[a1 + k], stack[a2 + Offset(step2, k)]);
        assert stack[..] == before[a3 + k := stack[a3 + k]];
      }
    }

    method StoreOp(pos: nat, vals: seq<Word>)
      requires pos + |vals| <= stack.Length
      modifies stack
      ensures stack[..] == Store(old(stack[..]), pos, vals)
    {
      for k := 0 to |vals|
        invariant forall s :: 0 <= s < stack.Length ==> stack[s] == if pos <= s < pos + k then vals[s - pos] else old(stack[s])
      {
        stack[pos + k] := vals[k];
      }
    }

    method CompareOp(v: Word, w: Word)
      modifies this`eq, this`lt, this`gt, this`un
      ensures Snapshot() == DoCompare(f, old(Snapshot()), v, w)
    {
      eq, lt, gt, un := false, false, false, false;
      eq := f.equal(v, w);
      lt := f.less(v, w);
      gt := f.less(w, v);
      un := f.isNaN(v) || f.isNaN(w);
    }

    method SumOp(p: Program, a1: nat, a3: nat)
      requires a1 + 4 <= p.frame <= stack.Length && a3 + 1 <= p.frame
      modifies stack
      ensures (Ok, Snapshot()) == DoSum(f, p, old(Snapshot()), a1, a3)
    {
      stack[a3] := f.binary(ADDSS, f.binary(ADDSS, f.binary(ADDSS, stack[a1], stack[a1 + 1]), stack[a1 + 2]), stack[a1 + 3]);
    }

    method SinCosOp(p: Program, a1: nat, a2: nat, a3: nat)
      requires a1 + 1 <= p.frame <= stack.Length && a2 + 1 <= p.frame && a3 + 1 <= p.frame
      modifies stack
      ensures (Ok, Snapshot()) == DoSinCos(f, p, old(Snapshot()), a1, a2, a3)
    {
      stack[a2] := f.unary(SIN, stack[a1]);
      stack[a3] := f.unary(COS, stack[a1]);
    }

    method LoadAtOp(p: Program, section: nat, a2: nat, a3: nat, n: nat) returns (r: Result)
      requires section < |p.sections| && Covered(p) && a2 + 1 <= p.frame <= stack.Length && a3 + n <= p.frame
      modifies stack
      ensures (r, Snapshot()) == DoLoadAt(f, p, old(Snapshot()), section, a2, a3, n)
    {
      var at := f.toSize(stack[a2]);
      if at + n <= p.sections[section] {
        StoreOp(a3, DataWords(p, section, at, n));
        return Ok;
      }
      return Error(LMNT_ERROR_ACCESS_VIOLATION);
    }

    method IndexReadOp(p: Program, a1: nat, a2: nat, a3: nat) returns (r: Result)
      requires a1 + 1 <= p.frame <= stack.Length && a3 + 1 <= p.frame
      modifies stack
      ensures (r, Snapshot()) == ReadIndexed(f, p, old(Snapshot()), a1, a2, a3)
    {
      if !Finite(f, stack[a1]) {
        return Error(LMNT_ERROR_ACCESS_VIOLATION);
      }
      var from := Indexed(f, stack[a1], a2);
      if from >= p.frame {
        return Error(LMNT_ERROR_ACCESS_VIOLATION);
      }
      stack[a3] := stack[from];
      return Ok;
    }

    method IndexWriteOp(p: Program, a1: nat, a2: nat, a3: nat) returns (r: Result)
      requires a1 + 1 <= p.frame <= stack.Length && a3 + 1 <= p.frame
      modifies stack
      ensures (r, Snapshot()) == WriteIndexed(f, p, old(Snapshot()), a1, a2, a3)
    {
      if !Finite(f, stack[a1]) {
        return Error(LMNT_ERROR_ACCESS_VIOLATION);
      }
      if !Finite(f, stack[a3]) {
        return Error(LMNT_ERROR_ACCESS_VIOLATION);
      }
      var from, to := Indexed(f, stack[a1], a2), f.toSize(stack[a3]);
      if from >= p.frame || to >= p.frame {
        return Error(LMNT_ERROR_ACCESS_VIOLATION);
      }
      stack[to] := stack[from];
      return Ok;
    }

    /** Executes a validated instruction: no access is checked, none needs to be. */
    method ExecuteInstruction(p: Program, i: Instruction) returns (r: Result)
      requires Ready(p) && SafeInstr(p, i)
      modifies this, stack
      ensures (r, Snapshot()) == Exec(f, p, old(Snapshot()), i)
    {
      ShapesOfOpcodes(i.opcode);
      var shape := ShapeOf(i.opcode);
      r := PerformInstruction(p, shape, i);
    }

    method PerformInstruction(p: Program, shape: Shape, i: Instruction) returns (r: Result)
      requires Ready(p) && InBounds(p, shape, i)
      requires shape.Map? ==> shape.lanes > 0 && shape.step <= 1
      requires shape.Zip? ==> shape.lanes > 0 && shape.step2 <= 1
      modifies this, stack
      ensures (r, Snapshot()) == Perform(f, p, old(Snapshot()), shape, i)
    {
      hide MapLanes, ZipLanes, Store, Indexed, DataWords;
      var a1, a2, a3 := i.arg1, i.arg2, i.arg3;
      match shape
      case Nothing => return Ok;
      case Return => return Returning;
      case Map(fn, step, n) =>
        MapOp(fn, a1, step, a3, n);
        return Ok;
      case Zip(fn, step2, n) =>
        ZipOp(fn, a1, a2, step2, a3, n);
        return Ok;
      case Sum =>
        SumOp(p, a1, a3);
        return Ok;
      case SinCos =>
        SinCosOp(p, a1, a2, a3);
        return Ok;
      case Immediate(n) =>
        StoreOp(a3, seq(n, _ => Combine(a1, a2)));
        return Ok;
      case Load(n) =>
        StoreOp(a3, DataWords(p, a1, a2, n));
        return Ok;
      case LoadAt(n) =>
        r := LoadAtOp(p, a1, a2, a3, n);
      case SectionLength =>
        StoreOp(a3, [f.ofCount(p.sections[a1])]);
        return Ok;
      case IndexRead =>
        r := IndexReadOp(p, a1, a2, a3);
      case IndexWrite =>
        r := IndexWriteOp(p, a1, a2, a3);
      case Compare =>
        CompareOp(stack[a1], stack[a2]);
        return Ok;
      case CompareZero =>
        CompareOp(stack[a1], f.zero);
        return Ok;
      case Branch =>
        curInstr := Combine(a2, a3);
        return Branching;
      case BranchIf(test) =>
        if Passes(f, test, stack[a1]) {
          curInstr := Combine(a2, a3);
          return Branching;
        }
        return Ok;
      case BranchOn(cond) =>
        if Met(Snapshot(), cond) {
          curInstr := Combine(a2, a3);
          return Branching;
        }
        return Ok;
      case Select(cond) =>
        stack[a3] := if Met(Snapshot(), cond) then stack[a1] else stack[a2];
        return Ok;
      case ExternCall =>
        r := CallOut(p, Combine(a1, a2), a3);
    }

    method CallOut(p: Program, target: U32, pos: nat) returns (r: Result)
      requires Ready(p) && MayCall(p, target, pos)
      modifies stack
      ensures (r, Snapshot()) == CallExtern(p, old(Snapshot()), target, pos)
    {
      var e := p.externs[p.defs[target].code];
      assert e in p.externs;
      var out := e.fn(stack[pos..pos + e.argsCount]);
      assert stack[pos..pos + e.argsCount] == stack[..][pos..pos + e.argsCount];
      StoreOp(pos + e.argsCount, out.rvals);
      return if out.code == 0 then Ok else Error(out.code);
    }

    // ---------------- dispatch loops ----------------

    method RunJumpTable(p: Program, fuel: nat) returns (done: bool, opresult: Result)
      requires Ready(p) && curInstr <= |p.code| && !interrupted
      modifies this, stack
      ensures !interrupted
      ensures var run := JumpTable(f, p, fuel, old(Snapshot()), old(curInstr), Ok);
        && done == run.Done? && Snapshot() == run.m
        && (done ==> opresult == run.result)
    {
      hide Exec, SafeInstr, Succ, Pred;
      opresult := Ok;
      var instr: U32 := curInstr;
      var left := fuel;
      while instr < |p.code| && left > 0
        invariant instr <= |p.code| && !interrupted
        invariant opresult == Ok || opresult == Branching
        invariant JumpTable(f, p, left, Snapshot(), instr, opresult) == JumpTable(f, p, fuel, old(Snapshot()), old(curInstr), Ok)
        decreases left
      {
        ghost var m := Snapshot();
        ControlOfExec(f, p, m, p.code[instr]);
        SafeInstrNeverFaults(f, p, m, p.code[instr]);
        SuccUndoesPred(instr);
        opresult := ExecuteInstruction(p, p.code[instr]);
        left := left - 1;
        if opresult != Ok || interrupted {
          if opresult == Branching {
            SuccUndoesPred(curInstr);
            instr := Pred(curInstr);
            instr := Succ(instr);
            continue;
          } else {
            curInstr := instr;
            return true, opresult;
          }
        }
        instr := Succ(instr);
      }
      if instr < |p.code| {
        return false, opresult;
      }
      curInstr := instr;
      done := true;
    }

    method RunSwitch(p: Program, fuel: nat) returns (done: bool, opresult: Result)
      requires Ready(p) && curInstr <= |p.code| && !interrupted
      modifies this, stack
      ensures !interrupted
      ensures var run := Switch(f, p, fuel, old(Snapshot()), old(curInstr), Ok);
        && done == run.Done? && Snapshot() == run.m
        && (done ==> opresult == run.result)
    {
      hide Exec, SafeInstr, Succ, Pred;
      opresult := Ok;
      var instr: U32 := curInstr;
      var left := fuel;
      while instr < |p.code| && left > 0
        invariant instr <= |p.code| && !interrupted
        invariant opresult == Ok || opresult == Branching
        invariant Switch(f, p, left, Snapshot(), instr, opresult) == Switch(f, p, fuel, old(Snapshot()), old(curInstr), Ok)
        decreases left
      {
        ghost var m := Snapshot();
        ControlOfExec(f, p, m, p.code[instr]);
        SafeInstrNeverFaults(f, p, m, p.code[instr]);
        SuccUndoesPred(instr);
        opresult := ExecuteInstruction(p, p.code[instr]);
        left := left - 1;
        if opresult != Ok || interrupted {
          if opresult == Branching {
            SuccUndoesPred(curInstr);
            instr := Pred(curInstr);
            instr := Succ(instr);
            continue;
          } else {
            if opresult == Ok && interrupted {
              opresult := Interrupted;
            }
            curInstr := instr;
            return true, opresult;
          }
        }
        instr := Succ(instr);
      }
      if instr < |p.code| {
        return false, opresult;
      }
      curInstr := instr;
      done := true;
    }

    method RunComputedGoto(p: Program, fuel: nat) returns (done: bool, opresult: Result)
      requires Ready(p) && curInstr <= |p.code| && !interrupted
      modifies this, stack
      ensures !interrupted
      ensures var run := ComputedGoto(f, p, fuel, old(Snapshot()), Pred(old(curInstr)), Ok);
        && done == run.Done? && Snapshot() == run.m
        && (done ==> opresult == run.result)
    {
      hide Exec, SafeInstr, Succ, Pred;
      opresult := Ok;
      var instr: U32 := Pred(curInstr);
      SuccUndoesPred(curInstr);
      var left := fuel;
      while true
        invariant Succ(instr) <= |p.code| && !interrupted && opresult == Ok
        invariant ComputedGoto(f, p, left, Snapshot(), instr, opresult) == ComputedGoto(f, p, fuel, old(Snapshot()), Pred(old(curInstr)), Ok)
        decreases left
      {
        instr := Succ(instr);
        if instr >= |p.code| || interrupted {
          break;
        }
        if left == 0 {
          return false, opresult;
        }
        left := left - 1;
        var op := p.code[instr];
        ghost var m := Snapshot();
        ControlOfExec(f, p, m, op);
        SafeInstrNeverFaults(f, p, m, op);
        InlineLabels(f, p, m, op);
        LabelsOfOpcodes(op.opcode);
        SuccUndoesPred(instr);
        match LabelOf(op.opcode)
        case SkipLabel =>
        case ReturnLabel =>
          curInstr := instr;
          return true, Returning;
        case Unchecked =>
          UncheckedNeverReport(f, p, m, op);
          var _ := ExecuteInstruction(p, op);
        case Checked =>
          opresult := ExecuteInstruction(p, op);
          if opresult != Ok {
            break;
          }
        case BranchChecked =>
          opresult := ExecuteInstruction(p, op);
          if opresult == Branching {
            SuccUndoesPred(curInstr);
            instr := Pred(curInstr);
            opresult := Ok;
          } else if opresult != Ok {
            break;
          }
      }
      if opresult == Ok && interrupted {
        opresult := Interrupted;
      }
      curInstr := instr;
      done := true;
    }

    // ---------------- the host's calls ----------------

    ghost predicate Prepared()
      reads this
    {
      SafeImage(image, stack.Length) && !interrupted
    }

    /** Copies arguments in, if they fit the def. */
    method UpdateArgs(at: U32, offset: U16, args: seq<Word>) returns (code: int)
      requires Prepared() && at in image.defs && |args| < 0x1_0000
      modifies stack
      ensures code == if offset + |args| > stack.Length then LMNT_ERROR_ACCESS_VIOLATION
                      else if offset + |args| > image.defs[at].argsCount then LMNT_ERROR_ARGS_MISMATCH else 0
      ensures code == 0 <==> offset + |args| <= image.defs[at].argsCount
      ensures offset + |args| <= image.defs[at].argsCount ==> image.constants + offset + |args| <= stack.Length
      ensures stack[..] == if code == 0 then Store(old(stack[..]), image.constants + offset, args) else old(stack[..])
    {
      if offset + |args| > stack.Length {
        return LMNT_ERROR_ACCESS_VIOLATION;
      }
      if offset + |args| > image.defs[at].argsCount {
        return LMNT_ERROR_ARGS_MISMATCH;
      }
      StoreOp(image.constants + offset, args);
      return 0;
    }

    /** Runs the loop the library was built with. */
    method ExecuteFunction(dispatcher: Dispatcher, p: Program, fuel: nat) returns (done: bool, opresult: Result)
      requires Ready(p) && curInstr <= |p.code| && !interrupted
      modifies this, stack
      ensures !interrupted
      ensures var run := JumpTable(f, p, fuel, old(Snapshot()), old(curInstr), Ok);
        && done == run.Done? && Snapshot() == run.m
        && (done ==> Finish(opresult) == Finish(run.result) && !run.result.Fault?)
    {
      DispatchersAgree(f, p, fuel, Snapshot());
      SafeRunsNeverFault(f, p, fuel, Snapshot(), curInstr, Ok);
      match dispatcher
      case ByJumpTable => done, opresult := RunJumpTable(p, fuel);
      case BySwitch => done, opresult := RunSwitch(p, fuel);
      case ByComputedGoto => done, opresult := RunComputedGoto(p, fuel);
    }

    /** The host runs an extern def: its function works on the writable stack. */
    method ExecuteExtern(d: Def, ghost fuel: nat) returns (opresult: Result)
      requires Prepared() && SafeDef(image, d, stack.Length) && IsExtern(d) && d.code < |image.externs|
      modifies stack
      ensures RunDef(f, image, d, fuel, old(Snapshot())) == Done(opresult, Snapshot().(curInstr := 0))
      ensures opresult.Ok? || opresult.Error?
    {
      var e := image.externs[d.code];
      assert e in image.externs;
      var out := e.fn(stack[image.constants..image.constants + e.argsCount]);
      assert stack[image.constants..image.constants + e.argsCount] == stack[..][image.constants..image.constants + e.argsCount];
      StoreOp(image.constants + e.argsCount, out.rvals);
      opresult := if out.code == 0 then Ok else Error(out.code);
    }

    /** lmnt_execute: the same outcome under every dispatcher.  `wanted` is the size of the
        caller's buffer for return values, if it passed one. */
    method Execute(dispatcher: Dispatcher, at: U32, wanted: int, fuel: nat) returns (done: bool, code: int, rvals: seq<Word>)
      requires Prepared() && at in image.defs
      modifies this, stack
      ensures Prepared()
      ensures 0 <= wanted < image.defs[at].rvalsCount ==>
                done && code == LMNT_ERROR_RVALS_MISMATCH && rvals == [] && stack[..] == old(stack[..])
      ensures wanted < 0 || image.defs[at].rvalsCount <= wanted ==>
                var d := image.defs[at];
                var run := RunDef(f, image, d, fuel, old(Snapshot()));
                && done == run.Done? && Snapshot() == run.m
                && (done ==>
                      && (run.result in {Ok, Returning, Branching} && wanted >= 0 ==>
                            code == d.rvalsCount && rvals == stack[image.constants + d.argsCount..image.constants + d.argsCount + d.rvalsCount])
                      && (run.result in {Ok, Returning, Branching} && wanted < 0 ==> code == 0 && rvals == [])
                      && (run.result.Error? ==> code == run.result.code && rvals == [])
                      && (run.result.Interrupted? ==> code == LMNT_INTERRUPTED && rvals == [])
                      && !run.result.Fault?)
    {
      hide JumpTable, SafeProgram, Exec;
      var d := image.defs[at];
      rvals := [];
      curInstr := 0;
      if 0 <= wanted < d.rvalsCount {
        return true, LMNT_ERROR_RVALS_MISMATCH, [];
      }
      var opresult;
      if !IsExtern(d) {
        done, opresult := ExecuteFunction(dispatcher, ProgramOf(image, d), fuel);
        if !done {
          return false, 0, [];
        }
      } else {
        if d.code >= |image.externs| {
          return true, LMNT_ERROR_NOT_FOUND, [];
        }
        opresult := ExecuteExtern(d, fuel);
        done := true;
      }
      if Finish(opresult) == Ok {
        if wanted >= 0 {
          return true, d.rvalsCount, stack[image.constants + d.argsCount..image.constants + d.argsCount + d.rvalsCount];
        }
        return true, 0, [];
      }
      return true, CodeOf(opresult), [];
    }

    /** Any sequence of argument updates and executions leaves every constant as loaded. */
    method Serve(dispatcher: Dispatcher, calls: seq<HostCall>)
      requires Prepared() && NoIndexedWrites(image)
      requires forall c :: c in calls ==> c.at in image.defs && (c.Update? ==> |c.args| < 0x1_0000)
      modifies this, stack
      ensures Prepared() && stack[..image.constants] == old(stack[..image.constants])
    {
      for k := 0 to |calls|
        invariant Prepared() && stack[..image.constants] == old(stack[..image.constants])
      {
        var c := calls[k];
        assert c in calls;
        ghost var before := Snapshot();
        if c.Update? {
          var _ := UpdateArgs(c.at, c.offset, c.args);
        } else {
          RunDefKeepsConstants(f, image, c.at, c.fuel, before);
          var _, _, _ := Execute(dispatcher, c.at, c.wanted, c.fuel);
        }
        assert stack[..][..image.constants] == before.stack[..image.constants];
      }
    }
  }

  datatype HostCall =
    | Update(at: U32, offset: U16, args: seq<Word>)
    | Call(at: U32, wanted: int, fuel: nat)

  predicate NoIndexedWrites(image: Image) {
    forall at :: at in image.codes ==> forall k :: 0 <= k < |image.codes[at]| ==> image.codes[at][k].opcode != INDEXRIR
  }

  lemma RunDefKeepsConstants(f: Floats, image: Image, at: U32, fuel: nat, m: Machine)
    requires SafeImage(image, |m.stack|) && NoIndexedWrites(image) && at in image.defs
    ensures var after := RunDef(f, image, image.defs[at], fuel, m).m.stack;
      |after| == |m.stack| && after[..image.constants] == m.stack[..image.constants]
  {
    var d := image.defs[at];
    if !IsExtern(d) {
      RunsKeepConstants(f, ProgramOf(image, d), fuel, m.(curInstr := 0), 0, Ok);
    }
  }
}
