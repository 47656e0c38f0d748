/** The interpreter's instructions as steps of a pure machine.  Float arithmetic is a
    parameter; an access outside the frame, a data section or the archive is a Fault. */
module Execution {
  import opened Bytecode

  /** What the host's float unit does, bit pattern to bit pattern. */
  datatype Floats = Floats(
    unary: (U16, Word) -> Word,
    binary: (U16, Word, Word) -> Word,
    isNaN: Word -> bool,
    isInf: Word -> bool,
    isZero: Word -> bool,
    signBit: Word -> bool,
    equal: (Word, Word) -> bool,
    less: (Word, Word) -> bool,
    toSize: Word -> U64,
    ofCount: U32 -> Word,
    zero: Word)

  datatype ExternOutcome = ExternOutcome(code: int, rvals: seq<Word>)

  datatype Extern = Extern(name: seq<Byte>, argsCount: U16, rvalsCount: U16, fn: seq<Word> -> ExternOutcome)

  const LMNT_BRANCHING: int := -0x10000
  const LMNT_RETURNING: int := -0x10001
  const LMNT_ERROR_NOT_FOUND: int := -0x30
  const LMNT_ERROR_ACCESS_VIOLATION: int := -0x40

  /** An extern fills exactly its return window and does not use the internal codes. */
  ghost predicate WellBehaved(e: Extern) {
    forall args: seq<Word> ::
      |e.fn(args).rvals| == e.rvalsCount && e.fn(args).code != LMNT_BRANCHING && e.fn(args).code != LMNT_RETURNING
  }

  /** One loaded function: its code, how many constants and slots its frame has, the counts of
      the data sections and how many words of each the archive has room for, the data itself,
      the defs by offset after linking, and the extern table. */
  datatype Program = Program(
    code: seq<Instruction>,
    constants: nat,
    frame: nat,
    sections: seq<U32>,
    extents: seq<nat>,
    data: (nat, nat) -> Word,
    defs: map<U32, Def>,
    externs: seq<Extern>)

  datatype Machine = Machine(stack: seq<Word>, eq: bool, lt: bool, gt: bool, un: bool, interrupted: bool, curInstr: U32)

  datatype Result = Ok | Branching | Returning | Interrupted | Error(code: int) | Fault

  // ------------------------------------------------------------------
  // What each opcode does
  // ------------------------------------------------------------------

  datatype ValueTest = IsZero | IsNonZero | IsPositive | IsNegative | IsUnordered

  datatype Cond = CEQ | CNE | CLT | CLE | CGT | CGE | CUN

  /** COPY stands for plain assignment among the unary functions. */
  const COPY: U16 := END

  datatype Shape =
    | Nothing
    | Return
    | Map(fn: U16, step: nat, lanes: nat)
    | Zip(fn: U16, step2: nat, lanes: nat)
    | Sum
    | SinCos
    | Immediate(lanes: nat)
    | Load(lanes: nat)
    | LoadAt(lanes: nat)
    | SectionLength
    | IndexRead
    | IndexWrite
    | Compare
    | CompareZero
    | Branch
    | BranchIf(test: ValueTest)
    | BranchOn(cond: Cond)
    | Select(cond: Cond)
    | ExternCall
    | Bad

  function ShapeOf(op: U16): Shape {
    if op == NOOP then Nothing
    else if op == RETURN then Return
    else if op == ASSIGNSS then Map(COPY, 1, 1)
    else if op == ASSIGNVV then Map(COPY, 1, 4)
    else if op == ASSIGNSV then Map(COPY, 0, 4)
    else if op == ASSIGNIBS then Immediate(1)
    else if op == ASSIGNIBV then Immediate(4)
    else if op == DLOADIIS then Load(1)
    else if op == DLOADIIV then Load(4)
    else if op == DLOADIRS then LoadAt(1)
    else if op == DLOADIRV then LoadAt(4)
    else if op == DSECLEN then SectionLength
    else if op == ADDSS then Zip(ADDSS, 1, 1)
    else if op == ADDVV then Zip(ADDSS, 1, 4)
    else if op == SUBSS then Zip(SUBSS, 1, 1)
    else if op == SUBVV then Zip(SUBSS, 1, 4)
    else if op == MULSS then Zip(MULSS, 1, 1)
    else if op == MULVV then Zip(MULSS, 1, 4)
    else if op == DIVSS then Zip(DIVSS, 1, 1)
    else if op == DIVVV then Zip(DIVSS, 1, 4)
    else if op == REMSS then Zip(REMSS, 1, 1)
    else if op == REMVV then Zip(REMSS, 1, 4)
    else if SIN <= op <= ATAN then Map(op, 1, 1)
    else if op == ATAN2 then Zip(ATAN2, 1, 1)
    else if op == SINCOS then SinCos
    else if op == POWSS then Zip(POWSS, 1, 1)
    else if op == POWVV then Zip(POWSS, 1, 4)
    else if op == POWVS then Zip(POWSS, 0, 4)
    else if op == SQRTS then Map(SQRTS, 1, 1)
    else if op == SQRTV then Map(SQRTS, 1, 4)
    else if LN <= op <= LOG10 then Map(op, 1, 1)
    else if op == ABSS then Map(ABSS, 1, 1)
    else if op == ABSV then Map(ABSS, 1, 4)
    else if op == SUMV then Sum
    else if op == MINSS then Zip(MINSS, 1, 1)
    else if op == MINVV then Zip(MINSS, 1, 4)
    else if op == MAXSS then Zip(MAXSS, 1, 1)
    else if op == MAXVV then Zip(MAXSS, 1, 4)
    else if op == MINVS then Zip(MINSS, 0, 4)
    else if op == MAXVS then Zip(MAXSS, 0, 4)
    else if op == FLOORS then Map(FLOORS, 1, 1)
    else if op == FLOORV then Map(FLOORS, 1, 4)
    else if op == ROUNDS then Map(ROUNDS, 1, 1)
    else if op == ROUNDV then Map(ROUNDS, 1, 4)
    else if op == CEILS then Map(CEILS, 1, 1)
    else if op == CEILV then Map(CEILS, 1, 4)
    else if op == TRUNCS then Map(TRUNCS, 1, 1)
    else if op == TRUNCV then Map(TRUNCS, 1, 4)
    else if op == INDEXRIS then IndexRead
    else if op == INDEXRIR then IndexWrite
    else if op == BRANCH then Branch
    else if op == BRANCHZ then BranchIf(IsZero)
    else if op == BRANCHNZ then BranchIf(IsNonZero)
    else if op == BRANCHPOS then BranchIf(IsPositive)
    else if op == BRANCHNEG then BranchIf(IsNegative)
    else if op == BRANCHUN then BranchIf(IsUnordered)
    else if op == CMP then Compare
    else if op == CMPZ then CompareZero
    else if op == BRANCHCEQ then BranchOn(CEQ)
    else if op == BRANCHCNE then BranchOn(CNE)
    else if op == BRANCHCLT then BranchOn(CLT)
    else if op == BRANCHCLE then BranchOn(CLE)
    else if op == BRANCHCGT then BranchOn(CGT)
    else if op == BRANCHCGE then BranchOn(CGE)
    else if op == BRANCHCUN then BranchOn(CUN)
    else if op == ASSIGNCEQ then Select(CEQ)
    else if op == ASSIGNCNE then Select(CNE)
    else if op == ASSIGNCLT then Select(CLT)
    else if op == ASSIGNCLE then Select(CLE)
    else if op == ASSIGNCGT then Select(CGT)
    else if op == ASSIGNCGE then Select(CGE)
    else if op == ASSIGNCUN then Select(CUN)
    else if op == EXTCALL then ExternCall
    else Bad
  }

  predicate Passes(f: Floats, test: ValueTest, v: Word) {
    match test
    case IsZero => f.isZero(v)
    case IsNonZero => !f.isNaN(v) && !f.isZero(v)
    case IsPositive => !f.signBit(v)
    case IsNegative => f.signBit(v)
    case IsUnordered => f.isNaN(v)
  }

  predicate Met(m: Machine, cond: Cond) {
    match cond
    case CEQ => m.eq
    case CNE => !m.eq
    case CLT => m.lt
    case CLE => m.lt || m.eq
    case CGT => m.gt
    case CGE => m.gt || m.eq
    case CUN => m.un
  }

  /** A scalar operand is read at the same slot for every lane. */
  function Offset(step: nat, k: nat): nat {
    if step == 0 then 0 else k
  }

  /** A two-operand operation on two words.  The remainder and the bounds are put together from
      the float unit's own operations; of two that are not ordered a bound is the first. */
  function Apply2(f: Floats, fn: U16, a: Word, b: Word): Word {
    if fn == REMSS then f.binary(SUBSS, a, f.binary(MULSS, f.unary(FLOORS, f.binary(DIVSS, a, b)), b))
    else if fn == MINSS then if f.less(b, a) then b else a
    else if fn == MAXSS then if f.less(a, b) then b else a
    else f.binary(fn, a, b)
  }

  /** Lane k is written before lane k+1 is read. */
  function MapLanes(f: Floats, fn: U16, stack: seq<Word>, a1: nat, step: nat, a3: nat, k: nat, n: nat): (r: seq<Word>)
    requires k <= n && a1 + n <= |stack| + (if step == 0 then n - 1 else 0) && a3 + n <= |stack| && step <= 1 && n > 0
    ensures |r| == |stack|
    ensures forall s :: 0 <= s < |stack| && !(a3 + k <= s < a3 + n) ==> r[s] == stack[s]
    decreases n - k
  {
    if k == n then stack
    else
      var v := stack[a1 + Offset(step, k)];
      MapLanes(f, fn, stack[a3 + k := if fn == COPY then v else f.unary(fn, v)], a1, step, a3, k + 1, n)
  }

  function ZipLanes(f: Floats, fn: U16, stack: seq<Word>, a1: nat, a2: nat, step2: nat, a3: nat, k: nat, n: nat): (r: seq<Word>)
    requires k <= n && n > 0 && step2 <= 1
    requires a1 + n <= |stack| && a2 + n <= |stack| + (if step2 == 0 then n - 1 else 0) && a3 + n <= |stack|
    ensures |r| == |stack|
    ensures forall s :: 0 <= s < |stack| && !(a3 + k <= s < a3 + n) ==> r[s] == stack[s]
    decreases n - k
  {
    if k == n then stack
    else ZipLanes(f, fn, stack[a3 + k := Apply2(f, fn, stack[a1 + k], stack[a2 + Offset(step2, k)])], a1, a2, step2, a3, k + 1, n)
  }

  function Store(stack: seq<Word>, pos: nat, vals: seq<Word>): (r: seq<Word>)
    requires pos + |vals| <= |stack|
    ensures |r| == |stack|
    ensures forall s :: 0 <= s < |stack| ==> r[s] == if pos <= s < pos + |vals| then vals[s - pos] else stack[s]
  {
    stack[..pos] + vals + stack[pos + |vals|..]
  }

  /** How many slots an operand read with this step touches. */
  function Reach(step: nat, lanes: nat): nat {
    if step == 0 then 1 else lanes
  }

  /** Nothing beyond the frame changes, nor does the interrupt flag. */
  ghost predicate StaysInFrame(p: Program, m: Machine, m': Machine) {
    && |m'.stack| == |m.stack| && m'.interrupted == m.interrupted
    && forall s :: p.frame <= s < |m.stack| ==> m'.stack[s] == m.stack[s]
  }

  /** The flags of the last comparison are as they were. */
  predicate SameFlags(m: Machine, m': Machine) {
    m'.eq == m.eq && m'.lt == m.lt && m'.gt == m.gt && m'.un == m.un
  }

  function Jump(p: Program, m: Machine, i: Instruction): (r: (Result, Machine))
    ensures StaysInFrame(p, m, r.1) && SameFlags(m, r.1)
  {
    (Branching, m.(curInstr := Combine(i.arg2, i.arg3)))
  }

  function DoMap(f: Floats, p: Program, m: Machine, fn: U16, a1: nat, step: nat, a3: nat, n: nat): (r: (Result, Machine))
    requires p.frame <= |m.stack|
    ensures StaysInFrame(p, m, r.1) && SameFlags(m, r.1)
  {
    if n == 0 || step > 1 || a1 + Reach(step, n) > p.frame || a3 + n > p.frame then (Fault, m)
    else (Ok, m.(stack := MapLanes(f, fn, m.stack, a1, step, a3, 0, n)))
  }

  function DoZip(f: Floats, p: Program, m: Machine, fn: U16, a1: nat, a2: nat, step2: nat, a3: nat, n: nat): (r: (Result, Machine))
    requires p.frame <= |m.stack|
    ensures StaysInFrame(p, m, r.1) && SameFlags(m, r.1)
  {
    if n == 0 || step2 > 1 || a1 + n > p.frame || a2 + Reach(step2, n) > p.frame || a3 + n > p.frame then (Fault, m)
    else (Ok, m.(stack := ZipLanes(f, fn, m.stack, a1, a2, step2, a3, 0, n)))
  }

  function DoSum(f: Floats, p: Program, m: Machine, a1: nat, a3: nat): (r: (Result, Machine))
    requires p.frame <= |m.stack|
    ensures StaysInFrame(p, m, r.1) && SameFlags(m, r.1)
  {
    if a1 + 4 > p.frame || a3 + 1 > p.frame then (Fault, m)
    else
      var s := m.stack;
      var sum := f.binary(ADDSS, f.binary(ADDSS, f.binary(ADDSS, s[a1], s[a1 + 1]), s[a1 + 2]), s[a1 + 3]);
      (Ok, m.(stack := s[a3 := sum]))
  }

  /** The sine is stored before the angle is read again for the cosine. */
  function DoSinCos(f: Floats, p: Program, m: Machine, a1: nat, a2: nat, a3: nat): (r: (Result, Machine))
    requires p.frame <= |m.stack|
    ensures StaysInFrame(p, m, r.1) && SameFlags(m, r.1)
  {
    if a1 + 1 > p.frame || a2 + 1 > p.frame || a3 + 1 > p.frame then (Fault, m)
    else
      var s := m.stack[a2 := f.unary(SIN, m.stack[a1])];
      (Ok, m.(stack := s[a3 := f.unary(COS, s[a1])]))
  }

  function DoStore(p: Program, m: Machine, pos: nat, vals: seq<Word>): (r: (Result, Machine))
    requires p.frame <= |m.stack|
    ensures StaysInFrame(p, m, r.1) && SameFlags(m, r.1)
  {
    if pos + |vals| > p.frame then (Fault, m) else (Ok, m.(stack := Store(m.stack, pos, vals)))
  }

  /** n words of a section that lie in the archive.  The interpreter never asks: it holds loads
      against the section's count alone. */
  predicate InArchive(p: Program, section: nat, at: nat, n: nat) {
    section < |p.extents| && at + n <= p.extents[section]
  }

  /** n consecutive words of a data section. */
  function DataWords(p: Program, section: nat, at: nat, n: nat): (r: seq<Word>)
    ensures |r| == n
  {
    seq<Word>(n, k requires 0 <= k < n => p.data(section, at + k))
  }

  function DoLoad(p: Program, m: Machine, section: nat, at: nat, a3: nat, n: nat): (r: (Result, Machine))
    requires p.frame <= |m.stack|
    ensures StaysInFrame(p, m, r.1) && SameFlags(m, r.1)
  {
    if section >= |p.sections| || at + n > p.sections[section] || !InArchive(p, section, at, n) then (Fault, m)
    else DoStore(p, m, a3, DataWords(p, section, at, n))
  }

  function DoLoadAt(f: Floats, p: Program, m: Machine, section: nat, a2: nat, a3: nat, n: nat): (r: (Result, Machine))
    requires p.frame <= |m.stack|
    ensures StaysInFrame(p, m, r.1) && SameFlags(m, r.1)
  {
    if section >= |p.sections| || a2 + 1 > p.frame then (Fault, m)
    else
      var at := f.toSize(m.stack[a2]);
      if at + n > p.sections[section] then (Error(LMNT_ERROR_ACCESS_VIOLATION), m)
      else if !InArchive(p, section, at, n) then (Fault, m)
      else DoStore(p, m, a3, DataWords(p, section, at, n))
  }

  function DoSelect(p: Program, m: Machine, cond: Cond, a1: nat, a2: nat, a3: nat): (r: (Result, Machine))
    requires p.frame <= |m.stack|
    ensures StaysInFrame(p, m, r.1) && SameFlags(m, r.1)
  {
    if a1 + 1 > p.frame || a2 + 1 > p.frame || a3 + 1 > p.frame then (Fault, m)
    else (Ok, m.(stack := m.stack[a3 := if Met(m, cond) then m.stack[a1] else m.stack[a2]]))
  }

  function DoCompare(f: Floats, m: Machine, v: Word, w: Word): Machine {
    m.(eq := f.equal(v, w), lt := f.less(v, w), gt := f.less(w, v), un := f.isNaN(v) || f.isNaN(w))
  }

  /** The index wraps like the host's 64-bit sizes. */
  function Indexed(f: Floats, v: Word, offset: nat): nat {
    (f.toSize(v) + offset) % 0x1_0000_0000_0000_0000
  }

  predicate Finite(f: Floats, v: Word) {
    !f.isNaN(v) && !f.isInf(v)
  }

  function ReadIndexed(f: Floats, p: Program, m: Machine, a1: nat, a2: nat, a3: nat): (r: (Result, Machine))
    requires p.frame <= |m.stack|
    ensures StaysInFrame(p, m, r.1) && SameFlags(m, r.1)
  {
    if a1 + 1 > p.frame then (Fault, m)
    else if !Finite(f, m.stack[a1]) || Indexed(f, m.stack[a1], a2) >= p.frame then (Error(LMNT_ERROR_ACCESS_VIOLATION), m)
    else if a3 + 1 > p.frame then (Fault, m)
    else (Ok, m.(stack := m.stack[a3 := m.stack[Indexed(f, m.stack[a1], a2)]]))
  }

  function WriteIndexed(f: Floats, p: Program, m: Machine, a1: nat, a2: nat, a3: nat): (r: (Result, Machine))
    requires p.frame <= |m.stack|
    ensures StaysInFrame(p, m, r.1) && SameFlags(m, r.1)
  {
    if a1 + 1 > p.frame || a3 + 1 > p.frame then (Fault, m)
    else if !Finite(f, m.stack[a1]) || !Finite(f, m.stack[a3]) then (Error(LMNT_ERROR_ACCESS_VIOLATION), m)
    else if Indexed(f, m.stack[a1], a2) >= p.frame || f.toSize(m.stack[a3]) >= p.frame then (Error(LMNT_ERROR_ACCESS_VIOLATION), m)
    else (Ok, m.(stack := m.stack[f.toSize(m.stack[a3]) := m.stack[Indexed(f, m.stack[a1], a2)]]))
  }

  /** The call goes by the table entry's own counts. */
  function CallExtern(p: Program, m: Machine, target: U32, pos: nat): (r: (Result, Machine))
    requires p.frame <= |m.stack|
    ensures StaysInFrame(p, m, r.1) && SameFlags(m, r.1)
  {
    if target !in p.defs then (Fault, m)
    else if p.defs[target].code >= |p.externs| then (Error(LMNT_ERROR_NOT_FOUND), m)
    else
      var e := p.externs[p.defs[target].code];
      if pos + e.argsCount + e.rvalsCount > p.frame then (Fault, m)
      else
        var out := e.fn(m.stack[pos..pos + e.argsCount]);
        if |out.rvals| != e.rvalsCount then (Fault, m)
        else
          (if out.code == 0 then Ok else if out.code == LMNT_BRANCHING then Branching
           else if out.code == LMNT_RETURNING then Returning else Error(out.code),
           m.(stack := Store(m.stack, pos + e.argsCount, out.rvals)))
  }

  function Exec(f: Floats, p: Program, m: Machine, i: Instruction): (r: (Result, Machine))
    requires p.frame <= |m.stack|
    ensures StaysInFrame(p, m, r.1)
  {
    Perform(f, p, m, ShapeOf(i.opcode), i)
  }

  function Perform(f: Floats, p: Program, m: Machine, shape: Shape, i: Instruction): (r: (Result, Machine))
    requires p.frame <= |m.stack|
    ensures StaysInFrame(p, m, r.1)
  {
    var a1, a2, a3 := i.arg1, i.arg2, i.arg3;
    match shape
    case Nothing => (Ok, m)
    case Return => (Returning, m)
    case Map(fn, step, n) => DoMap(f, p, m, fn, a1, step, a3, n)
    case Zip(fn, step2, n) => DoZip(f, p, m, fn, a1, a2, step2, a3, n)
    case Sum => DoSum(f, p, m, a1, a3)
    case SinCos => DoSinCos(f, p, m, a1, a2, a3)
    case Immediate(n) => DoStore(p, m, a3, seq(n, _ => Combine(a1, a2)))
    case Load(n) => DoLoad(p, m, a1, a2, a3, n)
    case LoadAt(n) => DoLoadAt(f, p, m, a1, a2, a3, n)
    case SectionLength =>
      if a1 >= |p.sections| then (Fault, m) else DoStore(p, m, a3, [f.ofCount(p.sections[a1])])
    case IndexRead => ReadIndexed(f, p, m, a1, a2, a3)
    case IndexWrite => WriteIndexed(f, p, m, a1, a2, a3)
    case Compare =>
      if a1 + 1 > p.frame || a2 + 1 > p.frame then (Fault, m) else (Ok, DoCompare(f, m, m.stack[a1], m.stack[a2]))
    case CompareZero =>
      if a1 + 1 > p.frame then (Fault, m) else (Ok, DoCompare(f, m, m.stack[a1], f.zero))
    case Branch => Jump(p, m, i)
    case BranchIf(test) =>
      if a1 + 1 > p.frame then (Fault, m)
      else if Passes(f, test, m.stack[a1]) then Jump(p, m, i) else (Ok, m)
    case BranchOn(cond) => if Met(m, cond) then Jump(p, m, i) else (Ok, m)
    case Select(cond) => DoSelect(p, m, cond, a1, a2, a3)
    case ExternCall => CallExtern(p, m, Combine(a1, a2), a3)
    case Bad => (Fault, m)
  }

  // ------------------------------------------------------------------
  // Instructions that cannot go wrong
  // ------------------------------------------------------------------

  predicate MayRead(p: Program, pos: nat, n: nat) {
    pos + n <= p.frame
  }

  /** Writable slots lie above the constants. */
  predicate MayWrite(p: Program, pos: nat, n: nat) {
    p.constants <= pos && pos + n <= p.frame
  }

  predicate MayJump(p: Program, i: Instruction) {
    Combine(i.arg2, i.arg3) <= |p.code|
  }

  /** The def is linked to a table entry like it, and both windows lie in the frame. */
  predicate MayCall(p: Program, target: U32, pos: nat) {
    && target in p.defs
    && p.defs[target].code < |p.externs|
    && p.externs[p.defs[target].code].argsCount == p.defs[target].argsCount
    && p.externs[p.defs[target].code].rvalsCount == p.defs[target].rvalsCount
    && MayRead(p, pos, p.defs[target].argsCount)
    && MayWrite(p, pos + p.defs[target].argsCount, p.defs[target].rvalsCount)
  }

  /** Static conditions under which the instruction never leaves its bounds. */
  predicate SafeInstr(p: Program, i: Instruction) {
    InBounds(p, ShapeOf(i.opcode), i)
  }

  predicate InBounds(p: Program, shape: Shape, i: Instruction) {
    var a1, a2, a3 := i.arg1, i.arg2, i.arg3;
    match shape
    case Nothing => true
    case Return => true
    case Map(_, step, n) => MayRead(p, a1, Reach(step, n)) && MayWrite(p, a3, n)
    case Zip(_, step2, n) => MayRead(p, a1, n) && MayRead(p, a2, Reach(step2, n)) && MayWrite(p, a3, n)
    case Sum => MayRead(p, a1, 4) && MayWrite(p, a3, 1)
    case SinCos => MayRead(p, a1, 1) && MayWrite(p, a2, 1) && MayWrite(p, a3, 1)
    case Immediate(n) => MayWrite(p, a3, n)
    case Load(n) => a1 < |p.sections| && a2 + n <= p.sections[a1] && MayWrite(p, a3, n)
    case LoadAt(n) => a1 < |p.sections| && MayRead(p, a2, 1) && MayWrite(p, a3, n)
    case SectionLength => a1 < |p.sections| && MayWrite(p, a3, 1)
    case IndexRead => MayRead(p, a1, 1) && MayWrite(p, a3, 1)
    case IndexWrite => MayRead(p, a1, 1) && MayRead(p, a3, 1)
    case Compare => MayRead(p, a1, 1) && MayRead(p, a2, 1)
    case CompareZero => MayRead(p, a1, 1)
    case Branch => MayJump(p, i)
    case BranchIf(_) => MayRead(p, a1, 1) && MayJump(p, i)
    case BranchOn(_) => MayJump(p, i)
    case Select(_) => MayRead(p, a1, 1) && MayRead(p, a2, 1) && MayWrite(p, a3, 1)
    case ExternCall => MayCall(p, Combine(a1, a2), a3)
    case Bad => false
  }

  /** The archive holds every word the sections' counts admit. */
  predicate Covered(p: Program) {
    && |p.extents| == |p.sections|
    && forall s :: 0 <= s < |p.sections| ==> p.sections[s] <= p.extents[s]
  }

  ghost predicate SafeProgram(p: Program) {
    && |p.code| < 0x1_0000_0000
    && p.constants <= p.frame && Covered(p)
    && (forall k :: 0 <= k < |p.code| ==> SafeInstr(p, p.code[k]))
    && (forall e :: e in p.externs ==> WellBehaved(e))
  }

  predicate Jumps(shape: Shape) {
    shape.Branch? || shape.BranchIf? || shape.BranchOn?
  }

  lemma InBoundsNeverFaults(f: Floats, p: Program, m: Machine, shape: Shape, i: Instruction)
    requires p.frame <= |m.stack| && InBounds(p, shape, i) && Covered(p)
    requires shape.Map? ==> shape.lanes > 0 && shape.step <= 1
    requires shape.Zip? ==> shape.lanes > 0 && shape.step2 <= 1
    requires forall e :: e in p.externs ==> WellBehaved(e)
    ensures !Perform(f, p, m, shape, i).0.Fault?
  {
    if shape.ExternCall? {
      var e := p.externs[p.defs[Combine(i.arg1, i.arg2)].code];
      assert e in p.externs;
    }
  }

  /** Only branches move the instruction pointer, only RETURN returns. */
  lemma ControlOfPerform(f: Floats, p: Program, m: Machine, shape: Shape, i: Instruction)
    requires p.frame <= |m.stack|
    requires forall e :: e in p.externs ==> WellBehaved(e)
    ensures var (r, m') := Perform(f, p, m, shape, i);
      && r != Interrupted
      && (r == Branching ==> Jumps(shape) && m' == m.(curInstr := Combine(i.arg2, i.arg3)))
      && (r != Branching ==> m'.curInstr == m.curInstr)
      && (r == Returning <==> shape.Return?)
  {
    if shape.ExternCall? && Combine(i.arg1, i.arg2) in p.defs && p.defs[Combine(i.arg1, i.arg2)].code < |p.externs| {
      var e := p.externs[p.defs[Combine(i.arg1, i.arg2)].code];
      assert e in p.externs;
    }
  }

  lemma ControlOfExec(f: Floats, p: Program, m: Machine, i: Instruction)
    requires p.frame <= |m.stack|
    requires forall e :: e in p.externs ==> WellBehaved(e)
    ensures var (r, m') := Exec(f, p, m, i);
      && r != Interrupted
      && (r == Branching ==> IsBranchOp(i.opcode) && m' == m.(curInstr := Combine(i.arg2, i.arg3)))
      && (r != Branching ==> m'.curInstr == m.curInstr)
      && (r == Returning <==> i.opcode == RETURN)
  {
    ShapesOfOpcodes(i.opcode);
    ControlOfPerform(f, p, m, ShapeOf(i.opcode), i);
  }

  /** A safe instruction stays in bounds, and jumps only into the code or to its end. */
  lemma SafeInstrNeverFaults(f: Floats, p: Program, m: Machine, i: Instruction)
    requires p.frame <= |m.stack| && SafeInstr(p, i) && Covered(p)
    requires forall e :: e in p.externs ==> WellBehaved(e)
    ensures var (r, m') := Exec(f, p, m, i); !r.Fault? && (r == Branching ==> m'.curInstr <= |p.code|)
  {
    ShapesOfOpcodes(i.opcode);
    InBoundsNeverFaults(f, p, m, ShapeOf(i.opcode), i);
    ControlOfPerform(f, p, m, ShapeOf(i.opcode), i);
  }

  lemma ShapesOfOpcodes(op: U16)
    ensures IsBranchOp(op) <==> Jumps(ShapeOf(op))
    ensures ShapeOf(op).Return? <==> op == RETURN
    ensures ShapeOf(op).Bad? <==> op >= END
    ensures ShapeOf(op).Map? ==> ShapeOf(op).lanes > 0 && ShapeOf(op).step <= 1
    ensures ShapeOf(op).Zip? ==> ShapeOf(op).lanes > 0 && ShapeOf(op).step2 <= 1
    ensures ShapeOf(op).LoadAt? <==> op in {DLOADIRS, DLOADIRV}
    ensures ShapeOf(op).IndexRead? <==> op == INDEXRIS
    ensures ShapeOf(op).IndexWrite? <==> op == INDEXRIR
    ensures ShapeOf(op).ExternCall? <==> op == EXTCALL
  {
  }

  /** Only the instructions that compute an index, and calls out, can report an error. */
  lemma OnlyTheseFail(f: Floats, p: Program, m: Machine, i: Instruction)
    requires p.frame <= |m.stack| && Exec(f, p, m, i).0.Error?
    ensures i.opcode in {DLOADIRS, DLOADIRV, INDEXRIS, INDEXRIR, EXTCALL}
  {
    ShapesOfOpcodes(i.opcode);
    PerformFails(f, p, m, ShapeOf(i.opcode), i);
  }

  lemma PerformFails(f: Floats, p: Program, m: Machine, shape: Shape, i: Instruction)
    requires p.frame <= |m.stack| && Perform(f, p, m, shape, i).0.Error?
    ensures shape.LoadAt? || shape.IndexRead? || shape.IndexWrite? || shape.ExternCall?
  {
  }

  /** Only INDEXRIR can touch the constants below the writable stack. */
  lemma SafeInstrKeepsConstants(f: Floats, p: Program, m: Machine, i: Instruction)
    requires p.constants <= p.frame <= |m.stack| && SafeInstr(p, i) && i.opcode != INDEXRIR
    ensures Exec(f, p, m, i).1.stack[..p.constants] == m.stack[..p.constants]
  {
    ShapesOfOpcodes(i.opcode);
    InBoundsKeepsConstants(f, p, m, ShapeOf(i.opcode), i);
  }

  /** The indices an INDEXRIR computes are not both numbers inside the frame. */
  predicate IndexRefused(f: Floats, p: Program, m: Machine, i: Instruction)
    requires i.arg1 < |m.stack| && i.arg3 < |m.stack|
  {
    || !Finite(f, m.stack[i.arg1]) || !Finite(f, m.stack[i.arg3])
    || Indexed(f, m.stack[i.arg1], i.arg2) >= p.frame || f.toSize(m.stack[i.arg3]) >= p.frame
  }

  /** Just when a safe INDEXRIR leaves the constants as they are: it is refused, it writes above
      them, or it writes what is there already. */
  lemma IndexWriteKeepsConstantsIff(f: Floats, p: Program, m: Machine, i: Instruction)
    requires p.constants <= p.frame <= |m.stack| && SafeInstr(p, i) && i.opcode == INDEXRIR
    ensures Exec(f, p, m, i).0 == Error(LMNT_ERROR_ACCESS_VIOLATION) <==> IndexRefused(f, p, m, i)
    ensures Exec(f, p, m, i).1.stack[..p.constants] == m.stack[..p.constants] <==>
            || IndexRefused(f, p, m, i)
            || f.toSize(m.stack[i.arg3]) >= p.constants
            || m.stack[f.toSize(m.stack[i.arg3])] == m.stack[Indexed(f, m.stack[i.arg1], i.arg2)]
  {
    ShapesOfOpcodes(i.opcode);
    if !IndexRefused(f, p, m, i) {
      var to, after := f.toSize(m.stack[i.arg3]), Exec(f, p, m, i).1.stack;
      if to < p.constants {
        assert after[..p.constants][to] == after[to] && m.stack[..p.constants][to] == m.stack[to];
      }
    }
  }

  lemma InBoundsKeepsConstants(f: Floats, p: Program, m: Machine, shape: Shape, i: Instruction)
    requires p.constants <= p.frame <= |m.stack| && InBounds(p, shape, i) && !shape.IndexWrite?
    ensures forall s :: 0 <= s < p.constants ==> Perform(f, p, m, shape, i).1.stack[s] == m.stack[s]
  {
    match shape
    case Nothing =>
    case Return =>
    case Map(_, _, _) =>
    case Zip(_, _, _) =>
    case Sum =>
    case SinCos =>
    case Immediate(_) =>
    case Load(_) =>
    case LoadAt(_) =>
    case SectionLength =>
    case IndexRead =>
    case IndexWrite =>
    case Compare =>
    case CompareZero =>
    case Branch =>
    case BranchIf(_) =>
    case BranchOn(_) =>
    case Select(_) =>
    case ExternCall =>
    case Bad =>
  }
}
