/** What each opcode does, stated on the interpreter's step by the words it reads and leaves. */
module Instructions {
  import opened Bytecode
  import opened Execution

  /** The step succeeds and changes nothing but n slots from pos on. */
  predicate Writes(m: Machine, r: (Result, Machine), pos: nat, n: nat) {
    && r.0 == Ok && |r.1.stack| == |m.stack| && r.1 == m.(stack := r.1.stack)
    && forall s :: 0 <= s < |m.stack| && !(pos <= s < pos + n) ==> r.1.stack[s] == m.stack[s]
  }

  /** What lane k finds in a slot: the lanes before it have been written, from `target` on. */
  function Seen(before: seq<Word>, after: seq<Word>, slot: nat, target: nat, k: nat): Word
    requires slot < |before| == |after|
  {
    if target <= slot < target + k then after[slot] else before[slot]
  }

  /** Is the range free of the target? */
  predicate Clear(pos: nat, n: nat, target: nat, k: nat) {
    pos + n <= target || target + k <= pos
  }

  // ------------------------------------------------------------------
  // Lanes, one after the other
  // ------------------------------------------------------------------

  lemma {:induction false} MapLanesAt(f: Floats, fn: U16, stack: seq<Word>, a1: nat, step: nat, a3: nat, k: nat, n: nat, j: nat)
    requires k <= j < n && a1 + n <= |stack| + (if step == 0 then n - 1 else 0) && a3 + n <= |stack| && step <= 1
    ensures var (r, slot) := (MapLanes(f, fn, stack, a1, step, a3, k, n), if step == 0 then a1 else a1 + j);
      && slot < |stack| == |r|
      && var v := if a3 + k <= slot < a3 + j then r[slot] else stack[slot];
         r[a3 + j] == if fn == COPY then v else f.unary(fn, v)
    decreases n - k
  {
    var v := stack[a1 + Offset(step, k)];
    var next := stack[a3 + k := if fn == COPY then v else f.unary(fn, v)];
    if k < j {
      MapLanesAt(f, fn, next, a1, step, a3, k + 1, n, j);
    }
  }

  lemma {:induction false} ZipLanesAt(f: Floats, fn: U16, stack: seq<Word>, a1: nat, a2: nat, step2: nat, a3: nat, k: nat, n: nat, j: nat)
    requires k <= j < n && step2 <= 1
    requires a1 + n <= |stack| && a2 + n <= |stack| + (if step2 == 0 then n - 1 else 0) && a3 + n <= |stack|
    ensures var (r, slot, slot2) := (ZipLanes(f, fn, stack, a1, a2, step2, a3, k, n), a1 + j, if step2 == 0 then a2 else a2 + j);
      && slot < |stack| == |r| && slot2 < |stack|
      && var v := if a3 + k <= slot < a3 + j then r[slot] else stack[slot];
         var w := if a3 + k <= slot2 < a3 + j then r[slot2] else stack[slot2];
         r[a3 + j] == Apply2(f, fn, v, w)
    decreases n - k
  {
    hide Apply2;
    var next := stack[a3 + k := Apply2(f, fn, stack[a1 + k], stack[a2 + Offset(step2, k)])];
    if k < j {
      ZipLanesAt(f, fn, next, a1, a2, step2, a3, k + 1, n, j);
    }
  }

  lemma MapAt(f: Floats, p: Program, m: Machine, fn: U16, a1: nat, step: nat, a3: nat, n: nat)
    requires p.frame <= |m.stack| && n > 0 && step <= 1 && a1 + Reach(step, n) <= p.frame && a3 + n <= p.frame
    ensures var r := DoMap(f, p, m, fn, a1, step, a3, n);
      && Writes(m, r, a3, n)
      && forall s :: a3 <= s < a3 + n ==>
           var v := Seen(m.stack, r.1.stack, if step == 0 then a1 else a1 + (s - a3), a3, s - a3);
           r.1.stack[s] == if fn == COPY then v else f.unary(fn, v)
  {
    hide MapLanes, Seen;
    forall s | a3 <= s < a3 + n
      ensures var after := MapLanes(f, fn, m.stack, a1, step, a3, 0, n);
        var v := Seen(m.stack, after, if step == 0 then a1 else a1 + (s - a3), a3, s - a3);
        after[s] == if fn == COPY then v else f.unary(fn, v)
    {
      MapLaneSeen(f, fn, m.stack, a1, step, a3, n, s);
    }
  }

  lemma MapLaneSeen(f: Floats, fn: U16, stack: seq<Word>, a1: nat, step: nat, a3: nat, n: nat, s: nat)
    requires n > 0 && step <= 1 && a1 + Reach(step, n) <= |stack| && a3 <= s < a3 + n <= |stack|
    ensures var after := MapLanes(f, fn, stack, a1, step, a3, 0, n);
      var v := Seen(stack, after, if step == 0 then a1 else a1 + (s - a3), a3, s - a3);
      after[s] == if fn == COPY then v else f.unary(fn, v)
  {
    hide MapLanes;
    MapLanesAt(f, fn, stack, a1, step, a3, 0, n, s - a3);
  }

  lemma ZipAt(f: Floats, p: Program, m: Machine, fn: U16, a1: nat, a2: nat, step2: nat, a3: nat, n: nat)
    requires p.frame <= |m.stack| && n > 0 && step2 <= 1
    requires a1 + n <= p.frame && a2 + Reach(step2, n) <= p.frame && a3 + n <= p.frame
    ensures var r := DoZip(f, p, m, fn, a1, a2, step2, a3, n);
      && Writes(m, r, a3, n)
      && forall s :: a3 <= s < a3 + n ==>
           r.1.stack[s] == Apply2(f, fn, Seen(m.stack, r.1.stack, a1 + (s - a3), a3, s - a3),
                                  Seen(m.stack, r.1.stack, if step2 == 0 then a2 else a2 + (s - a3), a3, s - a3))
  {
    hide Apply2, ZipLanes, Seen;
    forall s | a3 <= s < a3 + n
      ensures var after := ZipLanes(f, fn, m.stack, a1, a2, step2, a3, 0, n);
        after[s] == Apply2(f, fn, Seen(m.stack, after, a1 + (s - a3), a3, s - a3),
                           Seen(m.stack, after, if step2 == 0 then a2 else a2 + (s - a3), a3, s - a3))
    {
      ZipLaneSeen(f, fn, m.stack, a1, a2, step2, a3, n, s);
    }
  }

  lemma ZipLaneSeen(f: Floats, fn: U16, stack: seq<Word>, a1: nat, a2: nat, step2: nat, a3: nat, n: nat, s: nat)
    requires n > 0 && step2 <= 1 && a1 + n <= |stack| && a2 + Reach(step2, n) <= |stack| && a3 <= s < a3 + n <= |stack|
    ensures var after := ZipLanes(f, fn, stack, a1, a2, step2, a3, 0, n);
      after[s] == Apply2(f, fn, Seen(stack, after, a1 + (s - a3), a3, s - a3),
                         Seen(stack, after, if step2 == 0 then a2 else a2 + (s - a3), a3, s - a3))
  {
    hide Apply2, ZipLanes;
    ZipLanesAt(f, fn, stack, a1, a2, step2, a3, 0, n, s - a3);
  }

  // ------------------------------------------------------------------
  // Doing nothing, returning, assigning
  // ------------------------------------------------------------------

  lemma NothingAndReturn(f: Floats, p: Program, m: Machine, i: Instruction)
    requires p.frame <= |m.stack|
    ensures i.opcode == NOOP ==> Exec(f, p, m, i) == (Ok, m)
    ensures i.opcode == RETURN ==> Exec(f, p, m, i) == (Returning, m)
    ensures i.opcode >= END ==> Exec(f, p, m, i) == (Fault, m)
  {
  }

  lemma FirstSeesAll(before: seq<Word>, after: seq<Word>, slot: nat, target: nat)
    requires slot < |before| == |after|
    ensures Seen(before, after, slot, target, 0) == before[slot]
  {
  }

  /** Copying one slot to four gives the same word four times, also where it is one of the four. */
  lemma CopiesAreOne(s: seq<Word>, after: seq<Word>, a1: nat, a3: nat)
    requires |after| == |s| && a1 < |s| && a3 + 4 <= |s|
    requires forall k :: a3 <= k < a3 + 4 ==> after[k] == Seen(s, after, a1, a3, k - a3)
    ensures forall k :: a3 <= k < a3 + 4 ==> after[k] == s[a1]
  {
    assert after[a3] == s[a1];
    if a3 <= a1 < a3 + 4 {
      assert after[a1] == s[a1];
    }
  }

  /** Plain assignment, of a slot, of four slots and of one slot to four. */
  lemma AssignsScalar(f: Floats, p: Program, m: Machine, i: Instruction)
    requires p.frame <= |m.stack| && i.opcode == ASSIGNSS && i.arg1 < p.frame && i.arg3 < p.frame
    ensures var r := Exec(f, p, m, i); Writes(m, r, i.arg3, 1) && r.1.stack[i.arg3] == m.stack[i.arg1]
  {
    assert ShapeOf(i.opcode) == Map(COPY, 1, 1);
    hide ShapeOf, DoMap, Seen, Writes;
    MapAt(f, p, m, COPY, i.arg1, 1, i.arg3, 1);
    FirstSeesAll(m.stack, Exec(f, p, m, i).1.stack, i.arg1, i.arg3);
  }

  lemma AssignsVector(f: Floats, p: Program, m: Machine, i: Instruction)
    requires p.frame <= |m.stack| && i.opcode == ASSIGNVV && i.arg1 + 4 <= p.frame && i.arg3 + 4 <= p.frame
    ensures var r := Exec(f, p, m, i);
      && Writes(m, r, i.arg3, 4)
      && forall k :: i.arg3 <= k < i.arg3 + 4 ==> r.1.stack[k] == Seen(m.stack, r.1.stack, i.arg1 + (k - i.arg3), i.arg3, k - i.arg3)
  {
    assert ShapeOf(i.opcode) == Map(COPY, 1, 4);
    hide ShapeOf, DoMap, Seen, Writes;
    var r := DoMap(f, p, m, COPY, i.arg1, 1, i.arg3, 4);
    MapAt(f, p, m, COPY, i.arg1, 1, i.arg3, 4);
    assert Exec(f, p, m, i) == r;
    hide Exec;
  }

  lemma AssignsScalarToVector(f: Floats, p: Program, m: Machine, i: Instruction)
    requires p.frame <= |m.stack| && i.opcode == ASSIGNSV && i.arg1 < p.frame && i.arg3 + 4 <= p.frame
    ensures var r := Exec(f, p, m, i); Writes(m, r, i.arg3, 4) && forall k :: i.arg3 <= k < i.arg3 + 4 ==> r.1.stack[k] == m.stack[i.arg1]
  {
    assert ShapeOf(i.opcode) == Map(COPY, 0, 4);
    hide ShapeOf, DoMap, Seen, Writes;
    MapAt(f, p, m, COPY, i.arg1, 0, i.arg3, 4);
    CopiesAreOne(m.stack, Exec(f, p, m, i).1.stack, i.arg1, i.arg3);
  }

  /** The two halves of the immediate are the word, low half first. */
  lemma Immediates(f: Floats, p: Program, m: Machine, i: Instruction)
    requires p.frame <= |m.stack| && i.opcode in {ASSIGNIBS, ASSIGNIBV}
    requires i.arg3 + (if i.opcode == ASSIGNIBS then 1 else 4) <= p.frame
    ensures var (r, n) := (Exec(f, p, m, i), if i.opcode == ASSIGNIBS then 1 else 4);
      && Writes(m, r, i.arg3, n)
      && forall k :: i.arg3 <= k < i.arg3 + n ==> r.1.stack[k] == i.arg1 + 0x1_0000 * i.arg2
  {
  }

  // ------------------------------------------------------------------
  // Arithmetic
  // ------------------------------------------------------------------

  predicate DoesUnary(op: U16, fn: U16, n: nat) {
    || (n == 1 && op == fn
        && fn in {SIN, COS, TAN, ASIN, ACOS, ATAN, SQRTS, LN, LOG2, LOG10, ABSS, FLOORS, ROUNDS, CEILS, TRUNCS})
    || (n == 4 && (op, fn) in {(SQRTV, SQRTS), (ABSV, ABSS), (FLOORV, FLOORS), (ROUNDV, ROUNDS), (CEILV, CEILS), (TRUNCV, TRUNCS)})
  }

  lemma UnaryShapes(op: U16, fn: U16, n: nat)
    requires DoesUnary(op, fn, n)
    ensures n > 0 && ShapeOf(op) == Map(fn, 1, n) && fn != COPY
  {
  }

  /** The operations of one operand: a scalar opcode is the operation, a vector opcode does the
      scalar one on each of its lanes. */
  lemma UnaryOperations(f: Floats, p: Program, m: Machine, i: Instruction, fn: U16, n: nat)
    requires p.frame <= |m.stack| && i.arg1 + n <= p.frame && i.arg3 + n <= p.frame
    requires DoesUnary(i.opcode, fn, n)
    ensures var r := Exec(f, p, m, i);
      && Writes(m, r, i.arg3, n)
      && forall k :: i.arg3 <= k < i.arg3 + n ==>
           r.1.stack[k] == f.unary(fn, Seen(m.stack, r.1.stack, i.arg1 + (k - i.arg3), i.arg3, k - i.arg3))
  {
    hide ShapeOf, DoesUnary, DoMap, Seen, Writes;
    UnaryShapes(i.opcode, fn, n);
    MapAt(f, p, m, fn, i.arg1, 1, i.arg3, n);
  }

  /** How the second operand of a two-operand opcode is read. */
  datatype Form = SS | VV | VS

  predicate DoesBinary(op: U16, fn: U16, form: Form) {
    || (form == SS && op == fn && fn in {ADDSS, SUBSS, MULSS, DIVSS, REMSS, POWSS, MINSS, MAXSS, ATAN2})
    || (form == VV && (op, fn) in {(ADDVV, ADDSS), (SUBVV, SUBSS), (MULVV, MULSS), (DIVVV, DIVSS), (REMVV, REMSS),
                                   (POWVV, POWSS), (MINVV, MINSS), (MAXVV, MAXSS)})
    || (form == VS && (op, fn) in {(POWVS, POWSS), (MINVS, MINSS), (MAXVS, MAXSS)})
  }

  lemma BinaryShapes(op: U16, fn: U16, form: Form)
    requires DoesBinary(op, fn, form)
    ensures ShapeOf(op) == Zip(fn, if form == VS then 0 else 1, if form == SS then 1 else 4)
  {
  }

  /** The operations of two operands: of two scalars, of two vectors lane by lane, of the lanes of
      a vector with one scalar. */
  lemma BinaryOperations(f: Floats, p: Program, m: Machine, i: Instruction, fn: U16, form: Form)
    requires p.frame <= |m.stack| && DoesBinary(i.opcode, fn, form)
    requires var n := if form == SS then 1 else 4;
      i.arg1 + n <= p.frame && i.arg2 + (if form == VV then 4 else 1) <= p.frame && i.arg3 + n <= p.frame
    ensures var (r, n) := (Exec(f, p, m, i), if form == SS then 1 else 4);
      && Writes(m, r, i.arg3, n)
      && forall k :: i.arg3 <= k < i.arg3 + n ==>
           r.1.stack[k] == Apply2(f, fn, Seen(m.stack, r.1.stack, i.arg1 + (k - i.arg3), i.arg3, k - i.arg3),
                                  Seen(m.stack, r.1.stack, if form == VV then i.arg2 + (k - i.arg3) else i.arg2, i.arg3, k - i.arg3))
  {
    hide Apply2, ShapeOf, DoesBinary, DoZip, Seen, Writes;
    BinaryShapes(i.opcode, fn, form);
    var n, step := if form == SS then 1 else 4, if form == VS then 0 else 1;
    ZipAt(f, p, m, fn, i.arg1, i.arg2, step, i.arg3, n);
  }

  /** The operations themselves: the float unit's own, first operand first; a bound that prefers
      its first operand; a remainder of the sign of the divisor. */
  lemma OperationsMean(f: Floats, a: Word, b: Word)
    ensures Apply2(f, ADDSS, a, b) == f.binary(ADDSS, a, b) && Apply2(f, SUBSS, a, b) == f.binary(SUBSS, a, b)
    ensures Apply2(f, MULSS, a, b) == f.binary(MULSS, a, b) && Apply2(f, DIVSS, a, b) == f.binary(DIVSS, a, b)
    ensures Apply2(f, POWSS, a, b) == f.binary(POWSS, a, b) && Apply2(f, ATAN2, a, b) == f.binary(ATAN2, a, b)
    ensures Apply2(f, MINSS, a, b) == if f.less(b, a) then b else a
    ensures Apply2(f, MAXSS, a, b) == if f.less(a, b) then b else a
    ensures Apply2(f, REMSS, a, b) == f.binary(SUBSS, a, f.binary(MULSS, f.unary(FLOORS, f.binary(DIVSS, a, b)), b))
  {
  }

  /** With operands out of the target's way a lane finds what was there before. */
  lemma ClearIsSeenBefore(before: seq<Word>, after: seq<Word>, slot: nat, target: nat, k: nat, n: nat)
    requires slot < |before| == |after| && k <= n && Clear(slot, 1, target, n)
    ensures Seen(before, after, slot, target, k) == before[slot]
  {
  }

  lemma SumAndSinCos(f: Floats, p: Program, m: Machine, i: Instruction)
    requires p.frame <= |m.stack| && i.opcode in {SUMV, SINCOS} && i.arg3 < p.frame
    requires if i.opcode == SUMV then i.arg1 + 4 <= p.frame else i.arg1 < p.frame && i.arg2 < p.frame
    ensures var (r, s) := (Exec(f, p, m, i), m.stack);
      && (i.opcode == SUMV ==>
            && Writes(m, r, i.arg3, 1)
            && r.1.stack[i.arg3] == f.binary(ADDSS, f.binary(ADDSS, f.binary(ADDSS, s[i.arg1], s[i.arg1 + 1]), s[i.arg1 + 2]), s[i.arg1 + 3]))
      && (i.opcode == SINCOS ==>
            && r.0 == Ok && |r.1.stack| == |s| && r.1 == m.(stack := r.1.stack)
            && (forall k :: 0 <= k < |s| && k != i.arg2 && k != i.arg3 ==> r.1.stack[k] == s[k])
            && r.1.stack[i.arg3] == f.unary(COS, if i.arg1 == i.arg2 then f.unary(SIN, s[i.arg1]) else s[i.arg1])
            && (i.arg2 != i.arg3 ==> r.1.stack[i.arg2] == f.unary(SIN, s[i.arg1])))
  {
  }

  // ------------------------------------------------------------------
  // Comparing, branching, choosing
  // ------------------------------------------------------------------

  /** The four flags tell how v compares with w. */
  predicate Compared(f: Floats, m: Machine, v: Word, w: Word) {
    && (m.eq <==> f.equal(v, w)) && (m.lt <==> f.less(v, w)) && (m.gt <==> f.less(w, v))
    && (m.un <==> f.isNaN(v) || f.isNaN(w))
  }

  lemma Compares(f: Floats, p: Program, m: Machine, i: Instruction)
    requires p.frame <= |m.stack| && i.opcode in {CMP, CMPZ}
    requires i.arg1 < p.frame && (i.opcode == CMP ==> i.arg2 < p.frame)
    ensures var (r, w) := (Exec(f, p, m, i), if i.opcode == CMP then m.stack[i.arg2] else f.zero);
      && r.0 == Ok && Compared(f, r.1, m.stack[i.arg1], w)
      && r.1 == m.(eq := r.1.eq, lt := r.1.lt, gt := r.1.gt, un := r.1.un)
  {
  }

  /** Nothing but a comparison touches the flags. */
  lemma FlagsStay(f: Floats, p: Program, m: Machine, i: Instruction)
    requires p.frame <= |m.stack| && i.opcode !in {CMP, CMPZ}
    ensures SameFlags(m, Exec(f, p, m, i).1)
  {
    assert !ShapeOf(i.opcode).Compare? && !ShapeOf(i.opcode).CompareZero?;
    hide ShapeOf;
    PerformKeepsFlags(f, p, m, ShapeOf(i.opcode), i);
  }

  lemma PerformKeepsFlags(f: Floats, p: Program, m: Machine, shape: Shape, i: Instruction)
    requires p.frame <= |m.stack| && !shape.Compare? && !shape.CompareZero?
    ensures SameFlags(m, Perform(f, p, m, shape, i).1)
  {
    hide DoMap, DoZip, DoSum, DoSinCos, DoStore, DoLoad, DoLoadAt, ReadIndexed, WriteIndexed, Jump, DoSelect, CallExtern, Passes, Met, StaysInFrame;
    match shape
    case Nothing =>
    case Return =>
    case Map(_, _, _) =>
    case Zip(_, _, _) =>
    case Sum =>
    case SinCos =>
    case Immediate(_) =>
    case Load(_) =>
    case LoadAt(_) =>
    case SectionLength =>
    case IndexRead =>
    case IndexWrite =>
    case Branch =>
    case BranchIf(_) =>
    case BranchOn(_) =>
    case Select(_) =>
    case ExternCall =>
    case Bad =>
  }

  /** When a conditional opcode finds its condition met, by the words last compared. */
  predicate Holds(f: Floats, op: U16, v: Word, w: Word) {
    || (op in {BRANCHCEQ, ASSIGNCEQ} && f.equal(v, w))
    || (op in {BRANCHCNE, ASSIGNCNE} && !f.equal(v, w))
    || (op in {BRANCHCLT, ASSIGNCLT} && f.less(v, w))
    || (op in {BRANCHCLE, ASSIGNCLE} && (f.less(v, w) || f.equal(v, w)))
    || (op in {BRANCHCGT, ASSIGNCGT} && f.less(w, v))
    || (op in {BRANCHCGE, ASSIGNCGE} && (f.less(w, v) || f.equal(v, w)))
    || (op in {BRANCHCUN, ASSIGNCUN} && (f.isNaN(v) || f.isNaN(w)))
  }

  /** Jumping: on to the instruction both halves name, with nothing else changed. */
  predicate Jumped(m: Machine, r: (Result, Machine), i: Instruction) {
    r == (Branching, m.(curInstr := i.arg2 + 0x1_0000 * i.arg3))
  }

  lemma Branches(f: Floats, p: Program, m: Machine, i: Instruction, v: Word, w: Word)
    requires p.frame <= |m.stack| && Compared(f, m, v, w)
    requires i.opcode in {BRANCH, BRANCHCEQ, BRANCHCNE, BRANCHCLT, BRANCHCLE, BRANCHCGT, BRANCHCGE, BRANCHCUN}
    ensures if i.opcode == BRANCH || Holds(f, i.opcode, v, w) then Jumped(m, Exec(f, p, m, i), i) else Exec(f, p, m, i) == (Ok, m)
  {
  }

  lemma Chooses(f: Floats, p: Program, m: Machine, i: Instruction, v: Word, w: Word)
    requires p.frame <= |m.stack| && Compared(f, m, v, w) && i.arg1 < p.frame && i.arg2 < p.frame && i.arg3 < p.frame
    requires i.opcode in {ASSIGNCEQ, ASSIGNCNE, ASSIGNCLT, ASSIGNCLE, ASSIGNCGT, ASSIGNCGE, ASSIGNCUN}
    ensures var r := Exec(f, p, m, i);
      Writes(m, r, i.arg3, 1) && r.1.stack[i.arg3] == if Holds(f, i.opcode, v, w) then m.stack[i.arg1] else m.stack[i.arg2]
  {
    assert ShapeOf(i.opcode).Select? && (Met(m, ShapeOf(i.opcode).cond) <==> Holds(f, i.opcode, v, w));
    hide ShapeOf, Met, Holds;
  }

  /** Branching on a value by itself. */
  lemma BranchesOnValue(f: Floats, p: Program, m: Machine, i: Instruction)
    requires p.frame <= |m.stack| && i.arg1 < p.frame
    requires i.opcode in {BRANCHZ, BRANCHNZ, BRANCHPOS, BRANCHNEG, BRANCHUN}
    ensures var (r, v) := (Exec(f, p, m, i), m.stack[i.arg1]);
      var jumps := || (i.opcode == BRANCHZ && f.isZero(v)) || (i.opcode == BRANCHNZ && !f.isNaN(v) && !f.isZero(v))
                   || (i.opcode == BRANCHPOS && !f.signBit(v)) || (i.opcode == BRANCHNEG && f.signBit(v))
                   || (i.opcode == BRANCHUN && f.isNaN(v));
      if jumps then Jumped(m, r, i) else r == (Ok, m)
  {
  }

  // ------------------------------------------------------------------
  // Data, indices, calls
  // ------------------------------------------------------------------

  /** The section's words, from a place the instruction names or a slot holds. */
  lemma Loads(f: Floats, p: Program, m: Machine, i: Instruction)
    requires p.frame <= |m.stack| && i.opcode in {DLOADIIS, DLOADIIV, DLOADIRS, DLOADIRV} && SafeInstr(p, i) && Covered(p)
    ensures var (r, n) := (Exec(f, p, m, i), if i.opcode in {DLOADIIS, DLOADIRS} then 1 else 4);
      && (i.opcode in {DLOADIRS, DLOADIRV} ==> i.arg2 < |m.stack|) && i.arg1 < |p.sections|
      && var at := if i.opcode in {DLOADIIS, DLOADIIV} then i.arg2 else f.toSize(m.stack[i.arg2]);
         if at + n <= p.sections[i.arg1]
         then Writes(m, r, i.arg3, n) && forall k :: i.arg3 <= k < i.arg3 + n ==> r.1.stack[k] == p.data(i.arg1, at + (k - i.arg3))
         else r == (Error(LMNT_ERROR_ACCESS_VIOLATION), m)
  {
  }

  lemma SectionLengths(f: Floats, p: Program, m: Machine, i: Instruction)
    requires p.frame <= |m.stack| && i.opcode == DSECLEN && SafeInstr(p, i)
    ensures i.arg1 < |p.sections|
    ensures var r := Exec(f, p, m, i); Writes(m, r, i.arg3, 1) && r.1.stack[i.arg3] == f.ofCount(p.sections[i.arg1])
  {
  }

  /** An index is a number from a slot; the one read from is moved on by arg2, at 64 bits. */
  lemma Indexes(f: Floats, p: Program, m: Machine, i: Instruction)
    requires p.frame <= |m.stack| && i.opcode in {INDEXRIS, INDEXRIR} && i.arg1 < p.frame && i.arg3 < p.frame
    ensures var (r, s) := (Exec(f, p, m, i), m.stack);
      var from := (f.toSize(s[i.arg1]) + i.arg2) % 0x1_0000_0000_0000_0000;
      var to := if i.opcode == INDEXRIS then i.arg3 else f.toSize(s[i.arg3]);
      if || f.isNaN(s[i.arg1]) || f.isInf(s[i.arg1]) || from >= p.frame
         || (i.opcode == INDEXRIR && (f.isNaN(s[i.arg3]) || f.isInf(s[i.arg3]) || to >= p.frame))
      then r == (Error(LMNT_ERROR_ACCESS_VIOLATION), m)
      else Writes(m, r, to, 1) && r.1.stack[to] == s[from]
  {
  }

  /** A call hands over the words from arg3 on, as many as the function takes, and its results go
      into the slots after them. */
  lemma Calls(f: Floats, p: Program, m: Machine, i: Instruction)
    requires p.frame <= |m.stack| && i.opcode == EXTCALL && SafeInstr(p, i)
    requires forall e :: e in p.externs ==> WellBehaved(e)
    ensures i.arg1 + 0x1_0000 * i.arg2 in p.defs && p.defs[i.arg1 + 0x1_0000 * i.arg2].code < |p.externs|
    ensures var (r, e) := (Exec(f, p, m, i), p.externs[p.defs[i.arg1 + 0x1_0000 * i.arg2].code]);
      && i.arg3 + e.argsCount + e.rvalsCount <= p.frame
      && var out := e.fn(m.stack[i.arg3..i.arg3 + e.argsCount]);
         && r.0 == (if out.code == 0 then Ok else Error(out.code))
         && Writes(m, (Ok, r.1), i.arg3 + e.argsCount, e.rvalsCount)
         && r.1.stack[i.arg3 + e.argsCount..i.arg3 + e.argsCount + e.rvalsCount] == out.rvals
  {
    var e := p.externs[p.defs[Combine(i.arg1, i.arg2)].code];
    assert e in p.externs;
    assert Exec(f, p, m, i) == CallExtern(p, m, Combine(i.arg1, i.arg2), i.arg3);
  }
}
