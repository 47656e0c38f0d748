/** Element.NET's instruction simplifier: building an instruction from simplified operands
    keeps the value the plain instruction has over the reals, and its type. */
module Simplifier {

  datatype Option<T> = None | Some(value: T)

  datatype UnaryOp = Not | Sin | Cos | Tan | ASin | ACos | ATan | Ln | Abs | Ceil | Floor

  datatype BinaryOp =
    | And | Or | Eq | NEq | Lt | LEq | Gt | GEq
    | Add | Sub | Mul | Div | Rem | Pow | Min | Max | Log | Atan2

  predicate IsBoolOp(op: BinaryOp) {
    op in {And, Or, Eq, NEq, Lt, LEq, Gt, GEq}
  }

  /** The primitive type of an instruction. */
  datatype Type = NumStruct | BoolStruct

  /** A constant's value: a real, or one of the values that are not. */
  datatype Float = Num(r: real) | NaN | PosInf | NegInf

  datatype Instr =
    | Constant(value: Float, t: Type)
    | Input(name: nat, inputType: Type)
    | Unary(uop: UnaryOp, operand: Instr)
    | Binary(op: BinaryOp, opA: Instr, opB: Instr)
    | Switch(selector: Instr, operands: seq<Instr>, switchType: Type)

  /** What is left to the maths library.  None is a result that is not a real.  `beyond` is
      what folding makes of operands or results that are not reals. */
  datatype Maths = Maths(
    unary: (UnaryOp, real) -> Option<real>,
    pow: (real, real) -> Option<real>,
    log: (real, real) -> Option<real>,
    atan2: (real, real) -> real,
    beyondUnary: (UnaryOp, Float) -> Float,
    beyondBinary: (BinaryOp, Float, Float) -> Float)

  /** The few laws of powers and logarithms that the simplifier counts on. */
  ghost predicate Lawful(m: Maths) {
    && (forall a :: m.pow(a, 0.0) == Some(1.0))
    && (forall a :: m.pow(a, 1.0) == Some(a))
    && (forall a :: m.pow(a, 2.0) == Some(a * a))
    && (forall b :: m.pow(1.0, b) == Some(1.0))
    && (forall b :: b > 0.0 ==> m.pow(0.0, b) == Some(0.0))
    && (forall b :: b < 0.0 ==> m.pow(0.0, b) == None)
    && (forall b :: m.log(1.0, b) in {None, Some(0.0)})
  }

  // ------------------------------------------------------------------
  // Values over the reals
  // ------------------------------------------------------------------

  function Truth(b: bool): real {
    if b then 1.0 else 0.0
  }

  /** Rounding toward zero, as a cast to int does. */
  function Trunc(x: real): int {
    if x >= 0.0 then x.Floor else -((-x).Floor)
  }

  function AbsReal(x: real): real {
    if x < 0.0 then -x else x
  }

  function Value1(m: Maths, op: UnaryOp, a: real): Option<real> {
    match op
    case Not => Some(Truth(!(a > 0.0)))
    case Abs => Some(AbsReal(a))
    case Floor => Some(a.Floor as real)
    case Ceil => Some(-((-a).Floor as real))
    case _ => m.unary(op, a)
  }

  function Value2(m: Maths, op: BinaryOp, a: real, b: real): Option<real> {
    match op
    case And => Some(Truth(a * b > 0.0))
    case Or => Some(Truth((a + b) - (a * b) > 0.0))
    case Eq => Some(Truth(!(AbsReal(a - b) > 0.0)))
    case NEq => Some(Truth(AbsReal(a - b) > 0.0))
    case Lt => Some(Truth(b - a > 0.0))
    case Gt => Some(Truth(a - b > 0.0))
    case LEq => Some(Truth(!(a - b > 0.0)))
    case GEq => Some(Truth(!(b - a > 0.0)))
    case Add => Some(a + b)
    case Sub => Some(a - b)
    case Mul => Some(a * b)
    case Div => if b == 0.0 then None else Some(a / b)
    case Rem => if b == 0.0 then None else Some(a - b * (Trunc(a / b) as real))
    case Pow => m.pow(a, b)
    case Min => Some(if a <= b then a else b)
    case Max => Some(if a >= b then a else b)
    case Log => if a < 0.0 then None else m.log(a, b)
    case Atan2 => Some(m.atan2(a, b))
  }

  /** The arithmetic of comparisons and of 0/1 truth values says what it should. */
  lemma ComparisonsMean(m: Maths, a: real, b: real)
    ensures Value2(m, Eq, a, b) == Some(Truth(a == b)) && Value2(m, NEq, a, b) == Some(Truth(a != b))
    ensures Value2(m, Lt, a, b) == Some(Truth(a < b)) && Value2(m, LEq, a, b) == Some(Truth(a <= b))
    ensures Value2(m, Gt, a, b) == Some(Truth(a > b)) && Value2(m, GEq, a, b) == Some(Truth(a >= b))
  {
  }

  lemma ConnectivesMean(m: Maths, p: bool, q: bool)
    ensures Value2(m, And, Truth(p), Truth(q)) == Some(Truth(p && q))
    ensures Value2(m, Or, Truth(p), Truth(q)) == Some(Truth(p || q))
    ensures Value1(m, Not, Truth(p)) == Some(Truth(!p))
  {
  }

  /** The value of an instruction as it stands; None where it has none among the reals. */
  function Eval(m: Maths, env: nat -> real, e: Instr): Option<real>
    decreases e
  {
    match e
    case Constant(v, _) => if v.Num? then Some(v.r) else None
    case Input(name, _) => Some(env(name))
    case Unary(op, x) =>
      var a := Eval(m, env, x);
      if a.None? then None else Value1(m, op, a.value)
    case Binary(op, x, y) =>
      var (a, b) := (Eval(m, env, x), Eval(m, env, y));
      if a.None? || b.None? then None else Value2(m, op, a.value, b.value)
    case Switch(sel, options, _) =>
      var i := Eval(m, env, sel);
      if i.Some? && 0 <= Trunc(i.value) < |options| then Eval(m, env, options[Trunc(i.value)]) else None
  }

  function TypeOf(e: Instr): Type {
    match e
    case Constant(_, t) => t
    case Input(_, t) => t
    case Unary(op, _) => if op == Not then BoolStruct else NumStruct
    case Binary(op, _, _) => ResultType(op)
    case Switch(_, _, t) => t
  }

  function ResultType(op: BinaryOp): Type {
    if IsBoolOp(op) then BoolStruct else NumStruct
  }

  // ------------------------------------------------------------------
  // Equality of instructions
  // ------------------------------------------------------------------

  /** Reference equality: two references to the same instruction. */
  ghost predicate IsSharing(shared: (Instr, Instr) -> bool) {
    forall a, b :: shared(a, b) ==> a == b
  }

  /** NaN is not equal to itself, and the types of constants are not compared. */
  predicate Equals(shared: (Instr, Instr) -> bool, a: Instr, b: Instr)
    decreases a
  {
    match a
    case Constant(v, _) => b.Constant? && !v.NaN? && v == b.value
    case Input(name, _) => b.Input? && name == b.name
    case Unary(op, x) => shared(a, b) || (b.Unary? && op == b.uop && Equals(shared, x, b.operand))
    case Binary(op, x, y) => shared(a, b) || (b.Binary? && op == b.op && Equals(shared, x, b.opA) && Equals(shared, y, b.opB))
    case Switch(sel, options, _) =>
      || shared(a, b)
      || (b.Switch? && |options| == |b.operands| && Equals(shared, sel, b.selector)
          && forall k :: 0 <= k < |options| ==> Equals(shared, options[k], b.operands[k]))
  }

  lemma {:induction false} EqualsSameValue(m: Maths, env: nat -> real, shared: (Instr, Instr) -> bool, a: Instr, b: Instr)
    requires IsSharing(shared) && Equals(shared, a, b)
    ensures Eval(m, env, a) == Eval(m, env, b)
    decreases a
  {
    if a != b {
      match a
      case Constant(_, _) =>
      case Input(_, _) =>
      case Unary(_, x) => EqualsSameValue(m, env, shared, x, b.operand);
      case Binary(_, x, y) =>
        EqualsSameValue(m, env, shared, x, b.opA);
        EqualsSameValue(m, env, shared, y, b.opB);
      case Switch(sel, options, _) =>
        EqualsSameValue(m, env, shared, sel, b.selector);
        var i := Eval(m, env, sel);
        if i.Some? && 0 <= Trunc(i.value) < |options| {
          EqualsSameValue(m, env, shared, options[Trunc(i.value)], b.operands[Trunc(i.value)]);
        }
    }
  }

  predicate HasNaN(e: Instr)
    decreases e
  {
    match e
    case Constant(v, _) => v.NaN?
    case Input(_, _) => false
    case Unary(_, x) => HasNaN(x)
    case Binary(_, x, y) => HasNaN(x) || HasNaN(y)
    case Switch(sel, options, _) => HasNaN(sel) || exists k :: 0 <= k < |options| && HasNaN(options[k])
  }

  /** Without shared references, an instruction equals its own copy exactly when no NaN is in it. */
  lemma {:induction false} EqualsItselfIff(e: Instr)
    ensures Equals((_, _) => false, e, e) <==> !HasNaN(e)
    decreases e
  {
    match e
    case Constant(_, _) =>
    case Input(_, _) =>
    case Unary(_, x) => EqualsItselfIff(x);
    case Binary(_, x, y) =>
      EqualsItselfIff(x);
      EqualsItselfIff(y);
    case Switch(sel, options, _) =>
      EqualsItselfIff(sel);
      forall k | 0 <= k < |options| ensures Equals((_, _) => false, options[k], options[k]) <==> !HasNaN(options[k]) {
        EqualsItselfIff(options[k]);
      }
  }

  /** The instruction without the types of its constants, inputs and switches. */
  function Untyped(e: Instr): Instr
    decreases e
  {
    match e
    case Constant(v, _) => Constant(v, NumStruct)
    case Input(name, _) => Input(name, NumStruct)
    case Unary(op, x) => Unary(op, Untyped(x))
    case Binary(op, x, y) => Binary(op, Untyped(x), Untyped(y))
    case Switch(sel, options, _) =>
      Switch(Untyped(sel), seq(|options|, k requires 0 <= k < |options| => Untyped(options[k])), NumStruct)
  }

  /** Instructions are equal exactly when they are the same but for types and have no NaN. */
  lemma {:induction false} EqualsIff(a: Instr, b: Instr)
    ensures Equals((_, _) => false, a, b) <==> Untyped(a) == Untyped(b) && !HasNaN(a)
    decreases a
  {
    match a
    case Constant(_, _) =>
    case Input(_, _) =>
    case Unary(_, x) =>
      if b.Unary? {
        EqualsIff(x, b.operand);
      }
    case Binary(_, x, y) =>
      if b.Binary? {
        EqualsIff(x, b.opA);
        EqualsIff(y, b.opB);
      }
    case Switch(sel, options, _) =>
      if b.Switch? && |b.operands| == |options| {
        EqualsIff(sel, b.selector);
        forall k | 0 <= k < |options|
          ensures Equals((_, _) => false, options[k], b.operands[k]) <==> Untyped(options[k]) == Untyped(b.operands[k]) && !HasNaN(options[k])
        {
          EqualsIff(options[k], b.operands[k]);
        }
        UntypedOptions(options, b.operands);
      } else if b.Switch? {
        assert |Untyped(a).operands| == |options| && |Untyped(b).operands| == |b.operands|;
      }
  }

  lemma UntypedOptions(xs: seq<Instr>, ys: seq<Instr>)
    requires |xs| == |ys|
    ensures seq(|xs|, k requires 0 <= k < |xs| => Untyped(xs[k])) == seq(|ys|, k requires 0 <= k < |ys| => Untyped(ys[k])) <==>
            forall k :: 0 <= k < |xs| ==> Untyped(xs[k]) == Untyped(ys[k])
  {
    var us, vs := seq(|xs|, k requires 0 <= k < |xs| => Untyped(xs[k])), seq(|ys|, k requires 0 <= k < |ys| => Untyped(ys[k]));
    if us == vs {
      forall k | 0 <= k < |xs| ensures Untyped(xs[k]) == Untyped(ys[k]) {
        assert us[k] == vs[k];
      }
    }
  }

  // ------------------------------------------------------------------
  // Building instructions
  // ------------------------------------------------------------------

  datatype Built = Built(e: Instr) | NoOptions | MixedTypes | OutOfBounds

  function Folded(v: Option<real>, beyond: Float): Float {
    if v.Some? then Num(v.value) else beyond
  }

  function Evaluate1(m: Maths, op: UnaryOp, a: Float): Instr {
    var t := if op == Not then BoolStruct else NumStruct;
    if op == Not && a.NaN? then Constant(NaN, BoolStruct)
    else if a.Num? then Constant(Folded(Value1(m, op, a.r), m.beyondUnary(op, a)), t)
    else Constant(m.beyondUnary(op, a), t)
  }

  predicate IsNegative(c: Float) {
    c.NegInf? || (c.Num? && c.r < 0.0)
  }

  /** The logarithm of a negative is looked for before the library is asked. */
  function Evaluate2(m: Maths, op: BinaryOp, a: Float, b: Float): (r: Instr)
    ensures r.Constant?
  {
    if op == Log && IsNegative(a) then Constant(NaN, ResultType(op))
    else if a.Num? && b.Num? then Constant(Folded(Value2(m, op, a.r, b.r), m.beyondBinary(op, a, b)), ResultType(op))
    else Constant(m.beyondBinary(op, a, b), ResultType(op))
  }

  function BuildUnary(m: Maths, op: UnaryOp, x: Instr): Instr {
    if x.Constant? then Evaluate1(m, op, x.value) else Unary(op, x)
  }

  predicate IsNum(e: Instr, r: real) {
    e.Constant? && e.value == Num(r)
  }

  predicate IsNaN(e: Instr) {
    e.Constant? && e.value.NaN?
  }

  const ONE: Instr := Constant(Num(1.0), NumStruct)
  const ZERO: Instr := Constant(Num(0.0), NumStruct)

  function Reciprocal(c: Float): Float {
    match c
    case Num(r) => if r == 0.0 then PosInf else Num(1.0 / r)
    case NaN => NaN
    case _ => Num(0.0)
  }

  function BuildBinary(m: Maths, op: BinaryOp, x: Instr, y: Instr): Instr {
    if IsNaN(x) || IsNaN(y) then Constant(NaN, ResultType(op))
    else if x.Constant? && y.Constant? then Evaluate2(m, op, x.value, y.value)
    else
      match op
      case Pow =>
        if IsNum(y, 0.0) || IsNum(x, 1.0) then ONE
        else if IsNum(x, 0.0) then ZERO
        else if IsNum(y, 1.0) then x
        else if IsNum(y, 2.0) then Binary(Mul, x, x)
        else Binary(op, x, y)
      case Add =>
        if IsNum(x, 0.0) then y
        else if IsNum(y, 0.0) then x
        else Binary(op, x, y)
      case Sub => if IsNum(y, 0.0) then x else Binary(op, x, y)
      case Mul =>
        if IsNum(x, 0.0) || IsNum(y, 0.0) then ZERO
        else if IsNum(x, 1.0) then y
        else if IsNum(y, 1.0) then x
        else Binary(op, x, y)
      case Div =>
        if IsNum(y, 1.0) then x
        else if y.Constant? then Binary(Mul, x, Constant(Reciprocal(y.value), NumStruct))
        else Binary(op, x, y)
      case Rem => if IsNum(x, 0.0) then ZERO else Binary(op, x, y)
      case Log =>
        if IsNum(x, 1.0) then ZERO
        else if x.Constant? && IsNegative(x.value) then Constant(NaN, ResultType(op))
        else Binary(op, x, y)
      case _ => Binary(op, x, y)
  }

  predicate AllEqual(shared: (Instr, Instr) -> bool, options: seq<Instr>) {
    |options| > 0 ==> |options| == 1 || forall k :: 0 <= k < |options| ==> Equals(shared, options[k], options[0])
  }

  /** The compile-time index of a selector lies between 0 and the number of options, which
      itself is let through and then fails to index. */
  function BuildSwitch(shared: (Instr, Instr) -> bool, sel: Instr, options: seq<Instr>): Built {
    if |options| < 1 then NoOptions
    else if AllEqual(shared, options) then Built(options[0])
    else if exists k :: 0 <= k < |options| && TypeOf(options[k]) != TypeOf(options[0]) then MixedTypes
    else if sel.Constant? && sel.value.Num? && 0 <= Trunc(sel.value.r) <= |options| then
      if Trunc(sel.value.r) == |options| then OutOfBounds else Built(options[Trunc(sel.value.r)])
    else Built(Switch(sel, options, TypeOf(options[0])))
  }

  /** Rebuilding a whole tree bottom-up. */
  function Simplify(m: Maths, shared: (Instr, Instr) -> bool, e: Instr): Built
    decreases e
  {
    match e
    case Constant(_, _) => Built(e)
    case Input(_, _) => Built(e)
    case Unary(op, x) =>
      var a := Simplify(m, shared, x);
      if a.Built? then Built(BuildUnary(m, op, a.e)) else a
    case Binary(op, x, y) =>
      var (a, b) := (Simplify(m, shared, x), Simplify(m, shared, y));
      if !a.Built? then a else if !b.Built? then b else Built(BuildBinary(m, op, a.e, b.e))
    case Switch(sel, options, _) =>
      var s := Simplify(m, shared, sel);
      var rs := seq(|options|, k requires 0 <= k < |options| => Simplify(m, shared, options[k]));
      if !s.Built? then s
      else if exists k :: 0 <= k < |rs| && !rs[k].Built? then rs[FirstFailed(rs, 0)]
      else BuildSwitch(shared, s.e, Trees(rs))
  }

  function Trees(rs: seq<Built>): (r: seq<Instr>)
    requires forall k :: 0 <= k < |rs| ==> rs[k].Built?
    ensures |r| == |rs| && forall k :: 0 <= k < |rs| ==> r[k] == rs[k].e
  {
    seq(|rs|, k requires 0 <= k < |rs| && rs[k].Built? => rs[k].e)
  }

  function FirstFailed(rs: seq<Built>, k: nat): (r: nat)
    requires exists j :: k <= j < |rs| && !rs[j].Built?
    ensures k <= r < |rs| && !rs[r].Built? && forall j :: k <= j < r ==> rs[j].Built?
    decreases |rs| - k
  {
    if !rs[k].Built? then k else FirstFailed(rs, k + 1)
  }

  // ------------------------------------------------------------------
  // What folding gives
  // ------------------------------------------------------------------

  /** The instruction on two constants, simplified. */
  function Fold(m: Maths, op: BinaryOp, a: Float, b: Float): Built {
    Simplify(m, (_, _) => false, Binary(op, Constant(a, NumStruct), Constant(b, NumStruct)))
  }

  function FoldUnary(m: Maths, op: UnaryOp, a: Float): Built {
    Simplify(m, (_, _) => false, Unary(op, Constant(a, NumStruct)))
  }

  function Number(r: real): Built {
    Built(Constant(Num(r), NumStruct))
  }

  function TruthValue(b: bool): Built {
    Built(Constant(Num(if b then 1.0 else 0.0), BoolStruct))
  }

  lemma FoldIs(m: Maths, op: BinaryOp, a: real, b: real)
    ensures Fold(m, op, Num(a), Num(b)) ==
            if op == Log && a < 0.0 then Built(Constant(NaN, NumStruct))
            else Built(Constant(Folded(Value2(m, op, a, b), m.beyondBinary(op, Num(a), Num(b))), ResultType(op)))
  {
    hide Value2, Folded;
    ConstantStays(m, Num(a));
    ConstantStays(m, Num(b));
  }

  lemma FoldUnaryIs(m: Maths, op: UnaryOp, a: Float)
    ensures FoldUnary(m, op, a) == Built(Evaluate1(m, op, a))
  {
    hide Evaluate1;
    ConstantStays(m, a);
  }

  lemma ConstantStays(m: Maths, a: Float)
    ensures Simplify(m, (_, _) => false, Constant(a, NumStruct)) == Built(Constant(a, NumStruct))
  {
  }

  lemma FoldsArithmetic(m: Maths, a: real, b: real)
    ensures Fold(m, Add, Num(a), Num(b)) == Number(a + b)
    ensures Fold(m, Sub, Num(a), Num(b)) == Number(a - b)
    ensures Fold(m, Mul, Num(a), Num(b)) == Number(a * b)
    ensures Fold(m, Atan2, Num(a), Num(b)) == Number(m.atan2(a, b))
  {
    hide Fold, FoldUnary;
    FoldIs(m, Add, a, b);
    FoldIs(m, Sub, a, b);
    FoldIs(m, Mul, a, b);
    FoldIs(m, Atan2, a, b);
  }

  /** A quotient is the number that the divisor multiplies to the dividend. */
  lemma FoldsQuotient(m: Maths, a: real, b: real)
    requires b != 0.0
    ensures exists r :: Fold(m, Div, Num(a), Num(b)) == Number(r) && r * b == a
  {
    hide Fold, FoldUnary;
    FoldIs(m, Div, a, b);
    assert Fold(m, Div, Num(a), Num(b)) == Number(a / b);
  }

  /** A minimum and a maximum are one of the operands and bound both. */
  lemma FoldsBounds(m: Maths, a: real, b: real)
    ensures exists r :: Fold(m, Min, Num(a), Num(b)) == Number(r) && r in {a, b} && r <= a && r <= b
    ensures exists r :: Fold(m, Max, Num(a), Num(b)) == Number(r) && r in {a, b} && r >= a && r >= b
  {
    hide Fold, FoldUnary;
    FoldIs(m, Min, a, b);
    FoldIs(m, Max, a, b);
    assert Fold(m, Min, Num(a), Num(b)) == Number(if a <= b then a else b);
    assert Fold(m, Max, Num(a), Num(b)) == Number(if a >= b then a else b);
  }

  /** A whole number of divisors away, smaller than the divisor, and of the dividend's sign. */
  lemma FoldsRemainder(m: Maths, a: real, b: real) returns (q: int, r: real)
    requires b != 0.0
    ensures Fold(m, Rem, Num(a), Num(b)) == Number(r)
    ensures a == (q as real) * b + r && AbsReal(r) < AbsReal(b) && (r == 0.0 || (r > 0.0 <==> a > 0.0))
  {
    hide Trunc, Fold, AbsReal;
    q := Trunc(a / b);
    r := RemainderIs(m, a, b, q);
    TruncIs(a / b);
    RemainderBounds(a, b, a / b, q as real, r);
  }

  lemma RemainderIs(m: Maths, a: real, b: real, q: int) returns (r: real)
    requires b != 0.0 && q == Trunc(a / b)
    ensures r == a - b * (q as real) && Fold(m, Rem, Num(a), Num(b)) == Number(r)
  {
    hide Fold, Trunc;
    FoldIs(m, Rem, a, b);
    r := a - b * (q as real);
  }

  lemma RemainderBounds(a: real, b: real, ratio: real, q: real, r: real)
    requires b != 0.0 && ratio == a / b && r == a - b * q
    requires if ratio >= 0.0 then q <= ratio < q + 1.0 else q - 1.0 < ratio <= q
    requires ratio >= 0.0 ==> q >= 0.0
    requires ratio <= 0.0 ==> q <= 0.0
    ensures a == q * b + r && AbsReal(r) < AbsReal(b) && (r == 0.0 || (r > 0.0 <==> a > 0.0))
  {
    assert ratio * b == a;
    var d := ratio - q;
    assert r == d * b;
    ProductBounds(d, b);
    ProductSign(ratio, b);
    ProductSign(d, b);
  }

  lemma ProductBounds(d: real, b: real)
    requires -1.0 < d < 1.0 && b != 0.0
    ensures AbsReal(d * b) < AbsReal(b)
  {
    if b > 0.0 {
      assert (1.0 - d) * b > 0.0 && (1.0 + d) * b > 0.0;
    } else {
      assert (1.0 - d) * b < 0.0 && (1.0 + d) * b < 0.0;
    }
  }

  lemma ProductSign(d: real, b: real)
    requires b != 0.0
    ensures d * b > 0.0 <==> (d > 0.0 && b > 0.0) || (d < 0.0 && b < 0.0)
    ensures d * b == 0.0 <==> d == 0.0
  {
  }

  /** A cast to int drops the fraction: positive numbers go down, negative ones up. */
  lemma TruncIs(x: real)
    ensures if x >= 0.0 then 0.0 <= Trunc(x) as real <= x < Trunc(x) as real + 1.0 else Trunc(x) as real - 1.0 < x <= Trunc(x) as real <= 0.0
  {
  }

  lemma FoldsComparisons(m: Maths, a: real, b: real)
    ensures Fold(m, Eq, Num(a), Num(b)) == TruthValue(a == b) && Fold(m, NEq, Num(a), Num(b)) == TruthValue(a != b)
    ensures Fold(m, Lt, Num(a), Num(b)) == TruthValue(a < b) && Fold(m, LEq, Num(a), Num(b)) == TruthValue(a <= b)
    ensures Fold(m, Gt, Num(a), Num(b)) == TruthValue(a > b) && Fold(m, GEq, Num(a), Num(b)) == TruthValue(a >= b)
  {
    hide Fold, FoldUnary;
    FoldIs(m, Eq, a, b);
    FoldIs(m, NEq, a, b);
    FoldIs(m, Lt, a, b);
    FoldIs(m, LEq, a, b);
    FoldIs(m, Gt, a, b);
    FoldIs(m, GEq, a, b);
  }

  /** On any numbers: what counts is whether the product, or the sum less the product, is
      positive; on zero and one that is conjunction and disjunction. */
  lemma FoldsConnectives(m: Maths, a: real, b: real)
    ensures Fold(m, And, Num(a), Num(b)) == TruthValue(a * b > 0.0)
    ensures Fold(m, Or, Num(a), Num(b)) == TruthValue(a + b - a * b > 0.0)
    ensures a in {0.0, 1.0} && b in {0.0, 1.0} ==>
              && Fold(m, And, Num(a), Num(b)) == TruthValue(a == 1.0 && b == 1.0)
              && Fold(m, Or, Num(a), Num(b)) == TruthValue(a == 1.0 || b == 1.0)
  {
    hide Fold, FoldUnary;
    FoldIs(m, And, a, b);
    FoldIs(m, Or, a, b);
  }

  /** Powers and logarithms are the library's, first operand first; where it has no real result,
      and where a divisor is zero, the result is its own; a negative has no logarithm. */
  lemma FoldsByLibrary(m: Maths, a: real, b: real)
    ensures Fold(m, Pow, Num(a), Num(b)) ==
            Built(Constant(if m.pow(a, b).Some? then Num(m.pow(a, b).value) else m.beyondBinary(Pow, Num(a), Num(b)), NumStruct))
    ensures Fold(m, Log, Num(a), Num(b)) ==
            Built(Constant(if a < 0.0 then NaN else if m.log(a, b).Some? then Num(m.log(a, b).value) else m.beyondBinary(Log, Num(a), Num(b)),
                           NumStruct))
    ensures Fold(m, Div, Num(a), Num(0.0)) == Built(Constant(m.beyondBinary(Div, Num(a), Num(0.0)), NumStruct))
    ensures Fold(m, Rem, Num(a), Num(0.0)) == Built(Constant(m.beyondBinary(Rem, Num(a), Num(0.0)), NumStruct))
  {
    hide Fold, FoldUnary;
    FoldIs(m, Pow, a, b);
    FoldIs(m, Log, a, b);
    FoldIs(m, Div, a, 0.0);
    FoldIs(m, Rem, a, 0.0);
  }

  predicate IsWhole(r: real) {
    r.Floor as real == r
  }

  /** Absolute values, roundings by their bounds, negation, and the library's functions. */
  lemma FoldsUnary(m: Maths, op: UnaryOp, a: real)
    ensures FoldUnary(m, Not, Num(a)) == TruthValue(!(a > 0.0))
    ensures FoldUnary(m, Abs, Num(a)) == Number(if a < 0.0 then -a else a)
    ensures op !in {Not, Abs, Ceil, UnaryOp.Floor} ==>
              FoldUnary(m, op, Num(a)) == Built(Constant(if m.unary(op, a).Some? then Num(m.unary(op, a).value) else m.beyondUnary(op, Num(a)), NumStruct))
  {
    hide Fold, FoldUnary;
    FoldUnaryIs(m, op, Num(a));
    FoldUnaryIs(m, Not, Num(a));
    FoldUnaryIs(m, Abs, Num(a));
  }

  lemma FoldsRoundings(m: Maths, a: real)
    ensures exists r :: FoldUnary(m, UnaryOp.Floor, Num(a)) == Number(r) && IsWhole(r) && r <= a < r + 1.0
    ensures exists r :: FoldUnary(m, Ceil, Num(a)) == Number(r) && IsWhole(r) && r - 1.0 < a <= r
  {
    RoundingsAre(m, a);
    WholeNumbers(a.Floor);
    WholeNumbers(-((-a).Floor));
    hide FoldUnary;
  }

  lemma RoundingsAre(m: Maths, a: real)
    ensures FoldUnary(m, UnaryOp.Floor, Num(a)) == Number(a.Floor as real)
    ensures FoldUnary(m, Ceil, Num(a)) == Number((-((-a).Floor)) as real)
  {
    hide Fold, FoldUnary;
    FoldUnaryIs(m, UnaryOp.Floor, Num(a));
    FoldUnaryIs(m, Ceil, Num(a));
  }

  lemma WholeNumbers(n: int)
    ensures IsWhole(n as real)
  {
  }

  /** Not a number in, not a number out, of the type the operation has. */
  lemma NaNSpreads(m: Maths, op: BinaryOp, x: Instr, y: Instr)
    requires IsNaN(x) || IsNaN(y)
    ensures BuildBinary(m, op, x, y) == Constant(NaN, if op in {And, Or, Eq, NEq, Lt, LEq, Gt, GEq} then BoolStruct else NumStruct)
    ensures FoldUnary(m, Not, NaN) == Built(Constant(NaN, BoolStruct))
  {
  }

  /** What an instruction means on operands of these values is what folding the values gives. */
  lemma MeaningIsFolding(m: Maths, env: nat -> real, op: BinaryOp, x: Instr, y: Instr, a: real, b: real)
    requires Eval(m, env, x) == Some(a) && Eval(m, env, y) == Some(b) && Eval(m, env, Binary(op, x, y)).Some?
    ensures Fold(m, op, Num(a), Num(b)) ==
            Built(Constant(Num(Eval(m, env, Binary(op, x, y)).value), if op in {And, Or, Eq, NEq, Lt, LEq, Gt, GEq} then BoolStruct else NumStruct))
  {
    hide Value2;
    hide Fold;
    FoldIs(m, op, a, b);
    assert op == Log && a < 0.0 ==> Value2(m, op, a, b) == None by {
      NoLogOfNegative(m, a, b);
    }
  }

  lemma NoLogOfNegative(m: Maths, a: real, b: real)
    ensures a < 0.0 ==> Value2(m, Log, a, b) == None
  {
  }

  lemma UnaryMeaningIsFolding(m: Maths, env: nat -> real, op: UnaryOp, x: Instr, a: real)
    requires Eval(m, env, x) == Some(a) && Eval(m, env, Unary(op, x)).Some?
    ensures FoldUnary(m, op, Num(a)) == Built(Constant(Num(Eval(m, env, Unary(op, x)).value), if op == Not then BoolStruct else NumStruct))
  {
    FoldUnaryIs(m, op, Num(a));
    hide Fold, Value1;
  }

  /** The option a number selects: it is cut to an integer, so option 0 has two units to itself. */
  predicate Selects(v: real, k: int) {
    if k == 0 then -1.0 < v < 1.0 else if k > 0 then k as real <= v < k as real + 1.0 else k as real - 1.0 < v <= k as real
  }

  lemma SelectsIsTrunc(v: real, k: int)
    ensures Selects(v, k) <==> Trunc(v) == k
  {
    TruncIs(v);
  }

  lemma SwitchMeans(m: Maths, env: nat -> real, sel: Instr, options: seq<Instr>, t: Type, k: int)
    requires Eval(m, env, sel).Some? && Selects(Eval(m, env, sel).value, k)
    ensures Eval(m, env, Switch(sel, options, t)) == if 0 <= k < |options| then Eval(m, env, options[k]) else None
  {
    SelectsIsTrunc(Eval(m, env, sel).value, k);
  }

  /** A constant selector picks its option, runs past the end by exactly one, or leaves the switch
      as it is. */
  lemma ConstantSelector(shared: (Instr, Instr) -> bool, v: real, t: Type, options: seq<Instr>, k: int)
    requires Selects(v, k) && !AllEqual(shared, options)
    requires forall j :: 0 <= j < |options| ==> TypeOf(options[j]) == TypeOf(options[0])
    ensures BuildSwitch(shared, Constant(Num(v), t), options) ==
            if 0 <= k < |options| then Built(options[k])
            else if k == |options| then OutOfBounds
            else Built(Switch(Constant(Num(v), t), options, TypeOf(options[0])))
  {
    hide AllEqual;
    SelectsIsTrunc(v, k);
    assert |options| > 0 by {
      AllEqualIff(shared, options);
    }
  }

  lemma AllEqualIff(shared: (Instr, Instr) -> bool, options: seq<Instr>)
    ensures !AllEqual(shared, options) <==>
            |options| > 1 && exists k :: 0 <= k < |options| && !Equals(shared, options[k], options[0])
  {
  }

  /** No options and options of different types are refused; equal options are not looked at for
      their types. */
  lemma SwitchRefusals(shared: (Instr, Instr) -> bool, sel: Instr, options: seq<Instr>)
    ensures BuildSwitch(shared, sel, options) == NoOptions <==> options == []
    ensures BuildSwitch(shared, sel, options) == MixedTypes <==>
            && (exists k :: 0 <= k < |options| && TypeOf(options[k]) != TypeOf(options[0]))
            && exists k :: 0 <= k < |options| && !Equals(shared, options[k], options[0])
  {
    hide Equals, Trunc;
  }

  // ------------------------------------------------------------------
  // Nothing is left to simplify
  // ------------------------------------------------------------------

  /** Two operands on which something can be done. */
  predicate Reducible(op: BinaryOp, x: Instr, y: Instr) {
    || (x.Constant? && y.Constant?) || IsNaN(x) || IsNaN(y)
    || (op == Pow && (IsNum(x, 0.0) || IsNum(x, 1.0) || IsNum(y, 0.0) || IsNum(y, 1.0) || IsNum(y, 2.0)))
    || (op == Add && (IsNum(x, 0.0) || IsNum(y, 0.0)))
    || (op == Sub && IsNum(y, 0.0))
    || (op == Mul && (IsNum(x, 0.0) || IsNum(y, 0.0) || IsNum(x, 1.0) || IsNum(y, 1.0)))
    || (op == Div && y.Constant?)
    || (op == Rem && IsNum(x, 0.0))
    || (op == Log && (IsNum(x, 1.0) || (x.Constant? && IsNegative(x.value))))
  }

  /** What a division of something not yet known by a constant becomes. */
  lemma DivisionByConstant(m: Maths, x: Instr, c: Float, t: Type) returns (inverse: Float)
    requires !x.Constant? && !c.NaN? && c != Num(1.0)
    ensures BuildBinary(m, Div, x, Constant(c, t)) == Binary(Mul, x, Constant(inverse, NumStruct))
    ensures if c == Num(0.0) then inverse == PosInf
            else inverse.Num? && if c.Num? then inverse.r * c.r == 1.0 else inverse.r == 0.0
  {
    inverse := if c == Num(0.0) then PosInf else if c.Num? then Num(1.0 / c.r) else Num(0.0);
  }

  /** No part of the tree can be folded, rewritten, collapsed or resolved. */
  predicate Normal(shared: (Instr, Instr) -> bool, e: Instr)
    decreases e
  {
    match e
    case Constant(_, _) => true
    case Input(_, _) => true
    case Unary(_, x) => !x.Constant? && Normal(shared, x)
    case Binary(op, x, y) => !Reducible(op, x, y) && Normal(shared, x) && Normal(shared, y)
    case Switch(sel, options, t) =>
      && Normal(shared, sel) && |options| > 1 && (exists k :: 0 <= k < |options| && !Equals(shared, options[k], options[0]))
      && (forall k :: 0 <= k < |options| ==> Normal(shared, options[k]) && TypeOf(options[k]) == t)
      && !(sel.Constant? && sel.value.Num? && -1.0 < sel.value.r < |options| as real + 1.0)
  }

  /** A division of something not yet known by an infinity turns into a product with zero, and
      that is left standing. */
  predicate DividesByInfinity(op: BinaryOp, x: Instr, y: Instr) {
    op == Div && !x.Constant? && y.Constant? && (y.value.PosInf? || y.value.NegInf?)
  }

  lemma DivIsNormalIff(m: Maths, shared: (Instr, Instr) -> bool, x: Instr, y: Instr)
    requires Normal(shared, x) && Normal(shared, y)
    ensures Normal(shared, BuildBinary(m, Div, x, y)) <==> !DividesByInfinity(Div, x, y)
  {
    hide Evaluate2, Equals;
    if y.Constant? && y.value.Num? && y.value.r != 0.0 {
      InverseIsNeither(y.value.r);
    }
  }

  lemma PowIsNormal(m: Maths, shared: (Instr, Instr) -> bool, x: Instr, y: Instr)
    requires Normal(shared, x) && Normal(shared, y)
    ensures Normal(shared, BuildBinary(m, Pow, x, y))
  {
    hide Evaluate2, Equals;
  }

  lemma SumIsNormal(m: Maths, shared: (Instr, Instr) -> bool, op: BinaryOp, x: Instr, y: Instr)
    requires op in {Add, Sub, Mul} && Normal(shared, x) && Normal(shared, y)
    ensures Normal(shared, BuildBinary(m, op, x, y))
  {
    hide Evaluate2, Equals;
  }

  lemma LogIsNormal(m: Maths, shared: (Instr, Instr) -> bool, op: BinaryOp, x: Instr, y: Instr)
    requires op in {Rem, Log} && Normal(shared, x) && Normal(shared, y)
    ensures Normal(shared, BuildBinary(m, op, x, y))
  {
    hide Evaluate2, Equals;
  }

  /** All the rewrites are made, but for division by an infinity. */
  lemma BuildBinaryIsNormalIff(m: Maths, shared: (Instr, Instr) -> bool, op: BinaryOp, x: Instr, y: Instr)
    requires Normal(shared, x) && Normal(shared, y)
    ensures Normal(shared, BuildBinary(m, op, x, y)) <==> !DividesByInfinity(op, x, y)
  {
    hide Evaluate2, Equals;
    if op == Div {
      DivIsNormalIff(m, shared, x, y);
    } else if op == Pow {
      PowIsNormal(m, shared, x, y);
    } else if op in {Add, Sub, Mul} {
      SumIsNormal(m, shared, op, x, y);
    } else if op in {Rem, Log} {
      LogIsNormal(m, shared, op, x, y);
    }
  }

  lemma InverseIsNeither(r: real)
    requires r != 0.0
    ensures 1.0 / r != 0.0 && (1.0 / r == 1.0 <==> r == 1.0)
  {
    assert (1.0 / r) * r == 1.0;
  }

  /** Somewhere in the tree a rebuilt division is by an infinity. */
  predicate DividesByInfinityIn(m: Maths, shared: (Instr, Instr) -> bool, e: Instr)
    decreases e
  {
    match e
    case Constant(_, _) => false
    case Input(_, _) => false
    case Unary(_, x) => DividesByInfinityIn(m, shared, x)
    case Binary(op, x, y) =>
      || DividesByInfinityIn(m, shared, x) || DividesByInfinityIn(m, shared, y)
      || (var (a, b) := (Simplify(m, shared, x), Simplify(m, shared, y)); a.Built? && b.Built? && DividesByInfinity(op, a.e, b.e))
    case Switch(sel, options, _) =>
      DividesByInfinityIn(m, shared, sel) || exists k :: 0 <= k < |options| && DividesByInfinityIn(m, shared, options[k])
  }

  lemma BuildSwitchIsNormal(shared: (Instr, Instr) -> bool, sel: Instr, options: seq<Instr>)
    requires Normal(shared, sel) && forall k :: 0 <= k < |options| ==> Normal(shared, options[k])
    requires BuildSwitch(shared, sel, options).Built?
    ensures Normal(shared, BuildSwitch(shared, sel, options).e)
  {
    if sel.Constant? && sel.value.Num? {
      TruncIs(sel.value.r);
    }
    AllEqualIff(shared, options);
    hide AllEqual, Trunc;
  }

  /** The second theorem: simplification leaves nothing to simplify. */
  lemma {:induction false} SimplifyIsNormal(m: Maths, shared: (Instr, Instr) -> bool, e: Instr)
    requires Simplify(m, shared, e).Built? && !DividesByInfinityIn(m, shared, e)
    ensures Normal(shared, Simplify(m, shared, e).e)
    decreases e
  {
    hide BuildBinary, BuildSwitch, DividesByInfinity, AllEqual, Value1, Folded;
    match e
    case Constant(_, _) =>
    case Input(_, _) =>
    case Unary(_, x) =>
      SimplifyIsNormal(m, shared, x);
    case Binary(op, x, y) =>
      SimplifyIsNormal(m, shared, x);
      SimplifyIsNormal(m, shared, y);
      BuildBinaryIsNormalIff(m, shared, op, Simplify(m, shared, x).e, Simplify(m, shared, y).e);
    case Switch(sel, options, t) =>
      var rs := seq(|options|, k requires 0 <= k < |options| => Simplify(m, shared, options[k]));
      SimplifyIsNormal(m, shared, sel);
      forall k | 0 <= k < |options| ensures rs[k].Built? && Normal(shared, rs[k].e) {
        assert rs[k].Built?;
        SimplifyIsNormal(m, shared, options[k]);
      }
      BuildSwitchIsNormal(shared, Simplify(m, shared, sel).e, Trees(rs));
  }

  /** And a tree with nothing to simplify is left as it is, so simplifying twice is simplifying
      once. */
  lemma {:induction false} NormalStays(m: Maths, shared: (Instr, Instr) -> bool, e: Instr)
    requires Normal(shared, e)
    ensures Simplify(m, shared, e) == Built(e)
    decreases e
  {
    hide AllEqual, Value1, Value2, Folded;
    match e
    case Constant(_, _) =>
    case Input(_, _) =>
    case Unary(_, x) =>
      NormalStays(m, shared, x);
    case Binary(_, x, y) =>
      NormalStays(m, shared, x);
      NormalStays(m, shared, y);
    case Switch(sel, options, t) =>
      NormalStays(m, shared, sel);
      var rs := seq(|options|, k requires 0 <= k < |options| => Simplify(m, shared, options[k]));
      forall k | 0 <= k < |options| ensures rs[k] == Built(options[k]) {
        NormalStays(m, shared, options[k]);
      }
      assert Trees(rs) == options;
      AllEqualIff(shared, options);
      if sel.Constant? && sel.value.Num? {
        TruncIs(sel.value.r);
      }
  }

  // ------------------------------------------------------------------
  // Meaning is kept
  // ------------------------------------------------------------------

  lemma PowerLaws(m: Maths, a: real, b: real)
    requires Lawful(m)
    ensures m.pow(a, 0.0) == Some(1.0) && m.pow(a, 1.0) == Some(a) && m.pow(a, 2.0) == Some(a * a) && m.pow(1.0, b) == Some(1.0)
    ensures (b > 0.0 ==> m.pow(0.0, b) == Some(0.0)) && (b < 0.0 ==> m.pow(0.0, b) == None)
  {
  }

  /** A constant zero base under an exponent that is only known later, and then is zero: the
      power is one, and is taken to be zero. */
  predicate LosesPower(m: Maths, env: nat -> real, op: BinaryOp, x: Instr, y: Instr) {
    op == Pow && IsNum(x, 0.0) && !y.Constant? && Eval(m, env, y) == Some(0.0)
  }

  lemma PowKeepsValue(m: Maths, env: nat -> real, x: Instr, y: Instr)
    requires Lawful(m) && Eval(m, env, Binary(Pow, x, y)).Some?
    ensures Eval(m, env, BuildBinary(m, Pow, x, y)) == Eval(m, env, Binary(Pow, x, y)) <==> !LosesPower(m, env, Pow, x, y)
  {
    var a := Eval(m, env, x).value;
    PowerLaws(m, 0.0, Eval(m, env, y).value);
    PowerLaws(m, a, Eval(m, env, y).value);
    EvalBinary(m, env, Mul, x, x, a, a);
    assert Value2(m, Mul, a, a) == Some(a * a);
    hide Lawful;
  }

  lemma EvalBinary(m: Maths, env: nat -> real, op: BinaryOp, x: Instr, y: Instr, a: real, b: real)
    requires Eval(m, env, x) == Some(a) && Eval(m, env, y) == Some(b)
    ensures Eval(m, env, Binary(op, x, y)) == Value2(m, op, a, b)
  {
    hide Value2;
  }

  /** Dividing is multiplying by the inverse. */
  lemma TimesInverse(m: Maths, a: real, b: real, inverse: real)
    requires b != 0.0 && inverse == 1.0 / b
    ensures Value2(m, Mul, a, inverse) == Value2(m, Div, a, b)
  {
    InverseLaw(a, b, inverse);
  }

  lemma InverseLaw(a: real, b: real, inverse: real)
    requires b != 0.0 && inverse == 1.0 / b
    ensures a * inverse == a / b
  {
    assert inverse * b == 1.0;
    assert (a * inverse) * b == a * (inverse * b);
  }

  lemma DivKeepsValue(m: Maths, env: nat -> real, x: Instr, y: Instr)
    requires Eval(m, env, Binary(Div, x, y)).Some?
    ensures Eval(m, env, BuildBinary(m, Div, x, y)) == Eval(m, env, Binary(Div, x, y))
  {
    var a, b := Eval(m, env, x).value, Eval(m, env, y).value;
    EvalBinary(m, env, Div, x, y, a, b);
    assert b != 0.0;
    hide Value2;
    if y.Constant? && !x.Constant? {
      var c := Constant(Reciprocal(y.value), NumStruct);
      EvalBinary(m, env, Mul, x, c, a, 1.0 / b);
      TimesInverse(m, a, b, 1.0 / b);
    }
  }

  lemma RemKeepsValue(m: Maths, env: nat -> real, x: Instr, y: Instr)
    requires Eval(m, env, Binary(Rem, x, y)).Some?
    ensures Eval(m, env, BuildBinary(m, Rem, x, y)) == Eval(m, env, Binary(Rem, x, y))
  {
    var b := Eval(m, env, y).value;
    if IsNum(x, 0.0) {
      assert 0.0 / b == 0.0;
      assert Trunc(0.0 / b) == 0;
      assert Value2(m, Rem, 0.0, b) == Some(0.0);
    }
    hide Trunc;
  }

  lemma LogKeepsValue(m: Maths, env: nat -> real, x: Instr, y: Instr)
    requires Lawful(m) && Eval(m, env, Binary(Log, x, y)).Some?
    ensures Eval(m, env, BuildBinary(m, Log, x, y)) == Eval(m, env, Binary(Log, x, y))
  {
    assert m.log(1.0, Eval(m, env, y).value) in {None, Some(0.0)};
    hide Lawful;
  }

  /** Folding and every rewrite keep a defined value, with the one exception. */
  lemma BuildBinaryKeepsValueIff(m: Maths, env: nat -> real, op: BinaryOp, x: Instr, y: Instr)
    requires Lawful(m) && Eval(m, env, Binary(op, x, y)).Some?
    ensures Eval(m, env, BuildBinary(m, op, x, y)) == Eval(m, env, Binary(op, x, y)) <==> !LosesPower(m, env, op, x, y)
  {
    hide Lawful;
    match op
    case Pow => PowKeepsValue(m, env, x, y);
    case Div => DivKeepsValue(m, env, x, y);
    case Rem => RemKeepsValue(m, env, x, y);
    case Log => LogKeepsValue(m, env, x, y);
    case _ =>
  }

  /** The exception, met: zero to the power of an input that is zero. */
  lemma ZeroToZeroInput(m: Maths, env: nat -> real, name: nat)
    requires Lawful(m) && env(name) == 0.0
    ensures var e := Binary(Pow, ZERO, Input(name, NumStruct));
      && Simplify(m, (_, _) => false, e) == Built(ZERO)
      && Eval(m, env, e) == Some(1.0) && Eval(m, env, ZERO) == Some(0.0)
      && LosesPowerIn(m, env, (_, _) => false, e)
  {
    var y := Input(name, NumStruct);
    PowerLaws(m, 0.0, 0.0);
    hide Lawful;
    EvalBinary(m, env, Pow, ZERO, y, 0.0, 0.0);
    assert BuildBinary(m, Pow, ZERO, y) == ZERO;
  }

  /** The exception occurs in the part of the tree that is evaluated, judged on what the power's
      operands have been rebuilt to. */
  predicate LosesPowerIn(m: Maths, env: nat -> real, shared: (Instr, Instr) -> bool, e: Instr)
    decreases e
  {
    match e
    case Constant(_, _) => false
    case Input(_, _) => false
    case Unary(_, x) => LosesPowerIn(m, env, shared, x)
    case Binary(op, x, y) =>
      || LosesPowerIn(m, env, shared, x) || LosesPowerIn(m, env, shared, y)
      || (var (a, b) := (Simplify(m, shared, x), Simplify(m, shared, y)); a.Built? && b.Built? && LosesPower(m, env, op, a.e, b.e))
    case Switch(sel, options, _) =>
      || LosesPowerIn(m, env, shared, sel)
      || (var i := Eval(m, env, sel);
          i.Some? && 0 <= Trunc(i.value) < |options| && LosesPowerIn(m, env, shared, options[Trunc(i.value)]))
  }

  /** The tree and every part of it that is evaluated have their value after simplification. */
  predicate KeptThroughout(m: Maths, env: nat -> real, shared: (Instr, Instr) -> bool, e: Instr)
    decreases e
  {
    var r := Simplify(m, shared, e);
    && r.Built? && Eval(m, env, r.e) == Eval(m, env, e)
    && match e
       case Constant(_, _) => true
       case Input(_, _) => true
       case Unary(_, x) => KeptThroughout(m, env, shared, x)
       case Binary(_, x, y) => KeptThroughout(m, env, shared, x) && KeptThroughout(m, env, shared, y)
       case Switch(sel, options, _) =>
         && KeptThroughout(m, env, shared, sel)
         && var i := Eval(m, env, sel);
            i.Some? && 0 <= Trunc(i.value) < |options| ==> KeptThroughout(m, env, shared, options[Trunc(i.value)])
  }

  lemma BuildSwitchKeepsValue(m: Maths, env: nat -> real, shared: (Instr, Instr) -> bool, sel: Instr, options: seq<Instr>, t: Type)
    requires IsSharing(shared) && Eval(m, env, Switch(sel, options, t)).Some? && BuildSwitch(shared, sel, options).Built?
    ensures Eval(m, env, BuildSwitch(shared, sel, options).e) == Eval(m, env, Switch(sel, options, t))
  {
    var i := Trunc(Eval(m, env, sel).value);
    if |options| > 1 && forall k :: 0 <= k < |options| ==> Equals(shared, options[k], options[0]) {
      EqualsSameValue(m, env, shared, options[i], options[0]);
    }
  }

  /** The theorem: a tree that has a value over the reals has it after simplification too, and
      so has every part of it, exactly when no zero base meets an exponent that turns out zero. */
  lemma {:induction false} SimplifyKeepsValueIff(m: Maths, env: nat -> real, shared: (Instr, Instr) -> bool, e: Instr)
    requires Lawful(m) && IsSharing(shared)
    requires Simplify(m, shared, e).Built? && Eval(m, env, e).Some?
    ensures KeptThroughout(m, env, shared, e) <==> !LosesPowerIn(m, env, shared, e)
    decreases e
  {
    hide BuildBinary, BuildSwitch, Lawful, LosesPower, AllEqual;
    match e
    case Constant(_, _) =>
    case Input(_, _) =>
    case Unary(op, x) =>
      SimplifyKeepsValueIff(m, env, shared, x);
    case Binary(op, x, y) =>
      SimplifyKeepsValueIff(m, env, shared, x);
      SimplifyKeepsValueIff(m, env, shared, y);
      var (a, b) := (Simplify(m, shared, x).e, Simplify(m, shared, y).e);
      if KeptThroughout(m, env, shared, x) && KeptThroughout(m, env, shared, y) {
        BuildBinaryKeepsValueIff(m, env, op, a, b);
      }
    case Switch(sel, options, t) =>
      var i := Trunc(Eval(m, env, sel).value);
      var rs := seq(|options|, k requires 0 <= k < |options| => Simplify(m, shared, options[k]));
      assert rs[i].Built?;
      SimplifyKeepsValueIff(m, env, shared, sel);
      SimplifyKeepsValueIff(m, env, shared, options[i]);
      if KeptThroughout(m, env, shared, sel) && KeptThroughout(m, env, shared, options[i]) {
        BuildSwitchKeepsValue(m, env, shared, Simplify(m, shared, sel).e, Trees(rs), t);
      }
  }

  // ------------------------------------------------------------------
  // Types are kept
  // ------------------------------------------------------------------

  predicate WellTyped(e: Instr)
    decreases e
  {
    match e
    case Constant(_, _) => true
    case Input(_, _) => true
    case Unary(op, x) => WellTyped(x) && TypeOf(x) == (if op == Not then BoolStruct else NumStruct)
    case Binary(op, x, y) =>
      && WellTyped(x) && WellTyped(y)
      && TypeOf(x) == TypeOf(y) == (if op in {And, Or} then BoolStruct else NumStruct)
    case Switch(sel, options, t) =>
      && WellTyped(sel) && TypeOf(sel) == NumStruct && |options| > 0
      && forall k :: 0 <= k < |options| ==> WellTyped(options[k]) && TypeOf(options[k]) == t
  }

  /** Subtracting zero, multiplying by one and the like hand the left operand back as it is. */
  predicate HandsBackLeft(op: BinaryOp, x: Instr, y: Instr) {
    !x.Constant? && ((op in {Add, Sub} && IsNum(y, 0.0)) || (op in {Mul, Div, Pow} && IsNum(y, 1.0)))
  }

  predicate HandsBackRight(op: BinaryOp, x: Instr, y: Instr) {
    !y.Constant? && ((op == Add && IsNum(x, 0.0)) || (op == Mul && IsNum(x, 1.0)))
  }

  /** Whatever the operands, the type asked for comes out exactly when the operand handed back,
      if one is, has it. */
  lemma BuildBinaryKeepsTypeIff(m: Maths, op: BinaryOp, x: Instr, y: Instr)
    ensures HandsBackLeft(op, x, y) ==> BuildBinary(m, op, x, y) == x
    ensures HandsBackRight(op, x, y) ==> BuildBinary(m, op, x, y) == y
    ensures TypeOf(BuildBinary(m, op, x, y)) == ResultType(op) <==>
            && (HandsBackLeft(op, x, y) ==> TypeOf(x) == ResultType(op))
            && (HandsBackRight(op, x, y) ==> TypeOf(y) == ResultType(op))
  {
    hide Value2, Folded, Reciprocal, IsNegative;
  }

  lemma BuildBinaryKeepsType(m: Maths, op: BinaryOp, x: Instr, y: Instr)
    requires WellTyped(Binary(op, x, y))
    ensures WellTyped(BuildBinary(m, op, x, y)) && TypeOf(BuildBinary(m, op, x, y)) == ResultType(op)
  {
  }

  /** The off-by-one of the index check: a selector known at compile time that truncates to the
      number of options, where these do not collapse. */
  predicate PastEnd(shared: (Instr, Instr) -> bool, sel: Instr, options: seq<Instr>) {
    !AllEqual(shared, options) && sel.Constant? && sel.value.Num? && Trunc(sel.value.r) == |options|
  }

  lemma BuildSwitchKeepsType(shared: (Instr, Instr) -> bool, sel: Instr, options: seq<Instr>, t: Type)
    requires WellTyped(sel) && TypeOf(sel) == NumStruct && |options| > 0
    requires forall k :: 0 <= k < |options| ==> WellTyped(options[k]) && TypeOf(options[k]) == t
    ensures BuildSwitch(shared, sel, options).OutOfBounds? <==> PastEnd(shared, sel, options)
    ensures var r := BuildSwitch(shared, sel, options); !PastEnd(shared, sel, options) ==> r.Built? && WellTyped(r.e) && TypeOf(r.e) == t
  {
    hide AllEqual, Trunc;
  }

  /** Some switch of the tree is rebuilt with such a selector and such options. */
  predicate SelectsPastEnd(m: Maths, shared: (Instr, Instr) -> bool, e: Instr)
    decreases e
  {
    match e
    case Constant(_, _) => false
    case Input(_, _) => false
    case Unary(_, x) => SelectsPastEnd(m, shared, x)
    case Binary(_, x, y) => SelectsPastEnd(m, shared, x) || SelectsPastEnd(m, shared, y)
    case Switch(sel, options, _) =>
      var s := Simplify(m, shared, sel);
      var rs := seq(|options|, k requires 0 <= k < |options| => Simplify(m, shared, options[k]));
      || SelectsPastEnd(m, shared, sel)
      || (exists k :: 0 <= k < |options| && SelectsPastEnd(m, shared, options[k]))
      || (s.Built? && (forall k :: 0 <= k < |rs| ==> rs[k].Built?) && PastEnd(shared, s.e, Trees(rs)))
  }

  /** A well-typed tree simplifies to a well-typed tree of the same type, and fails exactly by
      selecting past the end of a switch. */
  lemma {:induction false} SimplifyKeepsType(m: Maths, shared: (Instr, Instr) -> bool, e: Instr)
    requires WellTyped(e)
    ensures Simplify(m, shared, e).OutOfBounds? <==> SelectsPastEnd(m, shared, e)
    ensures var r := Simplify(m, shared, e);
      !SelectsPastEnd(m, shared, e) ==> r.Built? && WellTyped(r.e) && TypeOf(r.e) == TypeOf(e)
    decreases e
  {
    hide BuildBinary, BuildSwitch, AllEqual, Trunc, PastEnd;
    match e
    case Constant(_, _) =>
    case Input(_, _) =>
    case Unary(op, x) => SimplifyKeepsType(m, shared, x);
    case Binary(op, x, y) =>
      SimplifyKeepsType(m, shared, x);
      SimplifyKeepsType(m, shared, y);
      if Simplify(m, shared, x).Built? && Simplify(m, shared, y).Built? {
        BuildBinaryKeepsType(m, op, Simplify(m, shared, x).e, Simplify(m, shared, y).e);
      }
    case Switch(sel, options, t) =>
      SimplifyKeepsType(m, shared, sel);
      forall k | 0 <= k < |options|
        ensures var r := Simplify(m, shared, options[k]);
          && (r.OutOfBounds? <==> SelectsPastEnd(m, shared, options[k]))
          && (!SelectsPastEnd(m, shared, options[k]) ==> r.Built? && WellTyped(r.e) && TypeOf(r.e) == t)
      {
        SimplifyKeepsType(m, shared, options[k]);
      }
      var s := Simplify(m, shared, sel);
      var rs := seq(|options|, k requires 0 <= k < |options| => Simplify(m, shared, options[k]));
      if k :| 0 <= k < |rs| && !rs[k].Built? {
        assert SelectsPastEnd(m, shared, options[k]) && rs[FirstFailed(rs, 0)].OutOfBounds?;
      } else if s.Built? {
        BuildSwitchKeepsType(shared, s.e, Trees(rs), t);
        forall k | 0 <= k < |options| ensures !SelectsPastEnd(m, shared, options[k]) {
          assert rs[k].Built?;
        }
      }
  }

  /** Not so for an ill-typed one: adding zero to a truth value is a number before
      simplification and a truth value after it. */
  lemma AddingZeroLosesTheType(m: Maths, name: nat)
    ensures var sum := Binary(Add, Input(name, BoolStruct), ZERO);
      TypeOf(sum) == NumStruct && Simplify(m, (_, _) => false, sum) == Built(Input(name, BoolStruct))
  {
  }

  /** The off-by-one of the index check, met: selecting option two of two. */
  lemma SelectorEqualToCountFails(m: Maths, x: nat, y: nat)
    requires x != y
    ensures Simplify(m, (_, _) => false, Switch(Constant(Num(2.0), NumStruct), [Input(x, NumStruct), Input(y, NumStruct)], NumStruct)) == OutOfBounds
  {
    var options := [Input(x, NumStruct), Input(y, NumStruct)];
    assert !Equals((_, _) => false, options[1], options[0]);
    var rs := seq(2, k requires 0 <= k < 2 => Simplify(m, (_, _) => false, options[k]));
    assert rs[0] == Built(options[0]) && rs[1] == Built(options[1]);
    assert Trees(rs) == options;
    assert Trunc(2.0) == 2;
  }
}
