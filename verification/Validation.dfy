/** The archive validator. */
module Validation {
  import opened Bytecode
  import opened Archive

  datatype VError =
    | StringHeader | StringSize | StringData | StringAlign
    | DefHeader | DefFlags | DefSize | DefCyclic | DefDefaultArgs
    | AccessViolation | BadInstruction
    | CodeHeader | CodeSize
    | HeaderMagic | SegmentsSize | SegmentsAlign
    | StackSize
    | DataHeader | DataSize
    | NegativeSize

  /** Unreadable marks a read outside the archive, which the source does not guard against:
      offsets are checked after being cut to 16 bits and then used uncut. */
  datatype Verdict = Valid(size: nat) | Invalid(error: VError) | Unreadable

  function And(first: Verdict, second: Verdict): Verdict {
    if first.Valid? then second else first
  }

  function Cut(x: int): U16 {
    x % 0x1_0000
  }

  /** A size handed back as a signed 32-bit result: one of 2^31 or more reads as negative, and
      so as an error, though none with a name. */
  function Returned(size: nat): Verdict {
    if size < 0x8000_0000 then Valid(size) else Invalid(NegativeSize)
  }

  const OK: Verdict := Valid(0)

  function ValidateString(data: seq<Byte>, strIndex: U16): Verdict
    requires WellSized(data)
  {
    var h := HeaderOf(data);
    if strIndex + STRING_HEADER_SIZE > h.strings then Invalid(StringHeader)
    else
      var size := U16At(data, StringsAt(h) + strIndex);
      var start := Cut(strIndex + STRING_HEADER_SIZE);
      if size == 0 then Invalid(StringSize)
      else if size > h.strings - start then Invalid(StringSize)
      else if (STRING_HEADER_SIZE + size) % 4 != 0 then Invalid(StringAlign)
      else if data[StringsAt(h) + start + size - 1] != 0 then Invalid(StringData)
      else Valid(STRING_HEADER_SIZE + size)
  }

  // ------------------------------------------------------------------
  // Operands
  // ------------------------------------------------------------------

  function ReadCheck(arg: U16, count: nat, constants: nat, rw: nat): Verdict {
    if arg + count <= constants + rw then OK else Invalid(AccessViolation)
  }

  /** Constants may not be written. */
  function WriteCheck(arg: U16, count: nat, constants: nat, rw: nat): Verdict {
    if arg >= constants && arg + count <= constants + rw then OK else Invalid(AccessViolation)
  }

  function SectionCheck(data: seq<Byte>, arg: U16): Verdict
    requires DataReadable(data)
  {
    if arg < SectionsCount(data) then OK else Invalid(AccessViolation)
  }

  function DataCheck(data: seq<Byte>, section: U16, at: U16, size: nat): Verdict
    requires DataReadable(data)
  {
    if section >= SectionsCount(data) then Invalid(AccessViolation)
    else if at + size <= SectionSize(data, section) then OK
    else Invalid(AccessViolation)
  }

  /** One past the last instruction is a branch to the end of the function. */
  function CodeCheck(data: seq<Byte>, def: Def, lo: U16, hi: U16): Verdict
    requires WellSized(data)
  {
    if def.code + CODE_HEADER_SIZE > HeaderOf(data).code then Unreadable
    else if Combine(lo, hi) <= InstructionsCount(data, def.code) then OK
    else Invalid(AccessViolation)
  }

  /** The target is validated at its offset cut to 16 bits, then read at the whole offset. */
  function CallCheck(data: seq<Byte>, lo: U16, hi: U16, stack: U16, constants: nat, rw: nat): Verdict
    requires DataReadable(data)
    decreases 1, 0, 0
  {
    var target := Combine(lo, hi);
    var checked := ValidateDef(data, Cut(target), constants, rw, true);
    if !checked.Valid? then checked
    else if target + DEF_SIZE > HeaderOf(data).defs then Unreadable
    else
      var callee := DefAt(data, target);
      if Has(callee.flags, DEFFLAG_INTERFACE) then Invalid(DefFlags)
      else And(ReadCheck(stack, callee.argsCount, constants, rw),
               WriteCheck(Cut(stack + callee.argsCount), callee.rvalsCount, constants, rw))
  }

  // ------------------------------------------------------------------
  // Instructions
  // ------------------------------------------------------------------

  /** The operand layouts the validator tells apart. */
  datatype Layout =
    | NoOperands
    | S_S | V_V | S_V
    | Imm_S | Imm_V
    | DataImm_S | DataImm_V | DataRef_S | DataRef_V | Section_S
    | SS_S | VV_V | VS_V
    | S_SS
    | V_S
    | RefImm_S | RefImm_Ref
    | SS_ | S_
    | S_Code | Code
    | Call
    | UnknownOpcode

  function LayoutOf(op: U16): Layout {
    if op in {NOOP, RETURN} then NoOperands
    else if op == ASSIGNSS then S_S
    else if op == ASSIGNVV then V_V
    else if op == ASSIGNSV then S_V
    else if op == ASSIGNIBS then Imm_S
    else if op == ASSIGNIBV then Imm_V
    else if op == DLOADIIS then DataImm_S
    else if op == DLOADIIV then DataImm_V
    else if op == DLOADIRS then DataRef_S
    else if op == DLOADIRV then DataRef_V
    else if op == DSECLEN then Section_S
    else if op in {ADDSS, SUBSS, MULSS, DIVSS, REMSS, POWSS, MINSS, MAXSS} then SS_S
    else if op in {ADDVV, SUBVV, MULVV, DIVVV, REMVV, POWVV, MINVV, MAXVV} then VV_V
    else if op in {POWVS, MINVS, MAXVS} then VS_V
    else if op in {SIN, COS, TAN, ASIN, ACOS, ATAN, SQRTS, LN, LOG2, LOG10, ABSS, FLOORS, ROUNDS, CEILS, TRUNCS} then S_S
    else if op == ATAN2 then SS_S
    else if op == SINCOS then S_SS
    else if op in {SQRTV, ABSV, FLOORV, ROUNDV, CEILV, TRUNCV} then V_V
    else if op == SUMV then V_S
    else if op == INDEXRIS then RefImm_S
    else if op == INDEXRIR then RefImm_Ref
    else if op == CMP then SS_
    else if op == CMPZ then S_
    else if op in {BRANCHZ, BRANCHNZ, BRANCHPOS, BRANCHNEG, BRANCHUN} then S_Code
    else if op in {BRANCH, BRANCHCEQ, BRANCHCNE, BRANCHCLT, BRANCHCLE, BRANCHCGT, BRANCHCGE, BRANCHCUN} then Code
    else if op in {ASSIGNCEQ, ASSIGNCNE, ASSIGNCLT, ASSIGNCLE, ASSIGNCGT, ASSIGNCGE, ASSIGNCUN} then SS_S
    else if op == EXTCALL then Call
    else UnknownOpcode
  }

  function ValidateInstruction(data: seq<Byte>, def: Def, i: Instruction, constants: nat, rw: nat): Verdict
    requires DataReadable(data)
    decreases 1, 0, 2
  {
    ValidateLayout(data, def, LayoutOf(i.opcode), i, constants, rw)
  }

  function ValidateLayout(data: seq<Byte>, def: Def, layout: Layout, i: Instruction, constants: nat, rw: nat): Verdict
    requires DataReadable(data)
    decreases 1, 0, 1
  {
    var a1, a2, a3 := i.arg1, i.arg2, i.arg3;
    match layout
    case NoOperands => OK
    case S_S => And(ReadCheck(a1, 1, constants, rw), WriteCheck(a3, 1, constants, rw))
    case V_V => And(ReadCheck(a1, 4, constants, rw), WriteCheck(a3, 4, constants, rw))
    case S_V => And(ReadCheck(a1, 1, constants, rw), WriteCheck(a3, 4, constants, rw))
    case Imm_S => WriteCheck(a3, 1, constants, rw)
    case Imm_V => WriteCheck(a3, 4, constants, rw)
    case DataImm_S => And(DataCheck(data, a1, a2, 1), WriteCheck(a3, 1, constants, rw))
    case DataImm_V => And(DataCheck(data, a1, a2, 4), WriteCheck(a3, 4, constants, rw))
    case DataRef_S => And(SectionCheck(data, a1), And(ReadCheck(a2, 1, constants, rw), WriteCheck(a3, 1, constants, rw)))
    case DataRef_V => And(SectionCheck(data, a1), And(ReadCheck(a2, 1, constants, rw), WriteCheck(a3, 4, constants, rw)))
    case Section_S => And(SectionCheck(data, a1), WriteCheck(a3, 1, constants, rw))
    case SS_S => And(ReadCheck(a1, 1, constants, rw), And(ReadCheck(a2, 1, constants, rw), WriteCheck(a3, 1, constants, rw)))
    case VV_V => And(ReadCheck(a1, 4, constants, rw), And(ReadCheck(a2, 4, constants, rw), WriteCheck(a3, 4, constants, rw)))
    case VS_V => And(ReadCheck(a1, 4, constants, rw), And(ReadCheck(a2, 1, constants, rw), WriteCheck(a3, 4, constants, rw)))
    case S_SS => And(ReadCheck(a1, 1, constants, rw), And(WriteCheck(a2, 1, constants, rw), WriteCheck(a3, 1, constants, rw)))
    case V_S => And(ReadCheck(a1, 4, constants, rw), WriteCheck(a3, 1, constants, rw))
    case RefImm_S => And(ReadCheck(a1, 1, constants, rw), WriteCheck(a3, a2, constants, rw))
    case RefImm_Ref => And(ReadCheck(a1, 1, constants, rw), ReadCheck(a3, 1, constants, rw))
    case SS_ => And(ReadCheck(a1, 1, constants, rw), ReadCheck(a2, 1, constants, rw))
    case S_ => ReadCheck(a1, 1, constants, rw)
    case S_Code => And(ReadCheck(a1, 1, constants, rw), CodeCheck(data, def, a2, a3))
    case Code => CodeCheck(data, def, a2, a3)
    case Call => CallCheck(data, a1, a2, a3, constants, rw)
    case UnknownOpcode => Invalid(BadInstruction)
  }

  // ------------------------------------------------------------------
  // Code blocks and defs
  // ------------------------------------------------------------------

  /** The first complaint among instructions k and after. */
  function InstructionsVerdict(data: seq<Byte>, def: Def, first: nat, count: U32, k: nat, constants: nat, rw: nat): Verdict
    requires DataReadable(data) && first + count * INSTRUCTION_SIZE <= HeaderOf(data).code && k <= count
    decreases 1, 1, count - k
  {
    if k == count then OK
    else And(ValidateInstruction(data, def, InstructionAt(data, first, k), constants, rw),
             InstructionsVerdict(data, def, first, count, k + 1, constants, rw))
  }

  predicate BranchesBefore(i: Instruction, here: nat) {
    IsBranchOp(i.opcode) && Combine(i.arg2, i.arg3) < here
  }

  predicate HasSelfBranch(data: seq<Byte>, first: nat, count: U32)
    requires WellSized(data) && first + count * INSTRUCTION_SIZE <= HeaderOf(data).code
  {
    exists k :: 0 <= k < count && BranchesTo(InstructionAt(data, first, k), k)
  }

  predicate HasBackBranch(data: seq<Byte>, first: nat, count: U32)
    requires WellSized(data) && first + count * INSTRUCTION_SIZE <= HeaderOf(data).code
  {
    exists k :: 0 <= k < count && BranchesBefore(InstructionAt(data, first, k), k)
  }

  function ValidateCode(data: seq<Byte>, def: Def, codeIndex: U16, constants: nat, rw: nat): Verdict
    requires DataReadable(data)
    decreases 1, 2, 0
  {
    if codeIndex + CODE_HEADER_SIZE > HeaderOf(data).code then Invalid(CodeHeader)
    else
      var count := InstructionsCount(data, codeIndex);
      var first := Cut(codeIndex + CODE_HEADER_SIZE);
      if first + count * INSTRUCTION_SIZE > HeaderOf(data).code then Invalid(CodeSize)
      else
        And(InstructionsVerdict(data, def, first, count, 0, constants, rw),
            if HasSelfBranch(data, first, count) then Invalid(DefCyclic)
            else if HasBackBranch(data, first, count) != Has(def.flags, DEFFLAG_HAS_BACKBRANCHES) then Invalid(DefFlags)
            else Returned(CODE_HEADER_SIZE + count * INSTRUCTION_SIZE))
  }

  /** With `externOnly` the def must be an extern, and then no code is looked at: that is
      what stops a call to itself from being validated for ever. */
  function ValidateDef(data: seq<Byte>, defIndex: U16, constants: nat, rw: nat, externOnly: bool): Verdict
    requires DataReadable(data)
    decreases if externOnly then 0 else 2, 0, 0
  {
    if defIndex + DEF_SIZE > HeaderOf(data).defs then Invalid(DefSize)
    else
      var def := DefAt(data, defIndex);
      var name := ValidateString(data, def.name);
      var inouts := Cut(def.argsCount + def.rvalsCount);
      if !name.Valid? then name
      else if def.stackCount > rw then Invalid(StackSize)
      else if def.stackCount < inouts then Invalid(DefHeader)
      else if (Has(def.flags, DEFFLAG_EXTERN) || Has(def.flags, DEFFLAG_INTERFACE)) && def.stackCount != inouts then Invalid(DefHeader)
      else if externOnly && !Has(def.flags, DEFFLAG_EXTERN) then Invalid(DefFlags)
      else if Has(def.flags, DEFFLAG_HAS_DEFAULT_ARGS) && def.defaultArgs >= SectionsCount(data) then Invalid(DefDefaultArgs)
      else if Has(def.flags, DEFFLAG_EXTERN) then Valid(DEF_SIZE)
      else And(ValidateCode(data, def, Cut(def.code), constants, def.stackCount), Valid(DEF_SIZE))
  }

  // ------------------------------------------------------------------
  // Whole archives
  // ------------------------------------------------------------------

  /** Strings and defs are walked with 16-bit offsets; the walks end because these fit. */
  predicate SegmentsFit(data: seq<Byte>) {
    |data| >= HEADER_SIZE ==> HeaderOf(data).strings < 0x1_0000 && HeaderOf(data).defs < 0x1_0000
  }

  /** Every string from `at` on. */
  function StringsVerdict(data: seq<Byte>, at: nat): Verdict
    requires WellSized(data) && SegmentsFit(data) && at <= HeaderOf(data).strings
    decreases HeaderOf(data).strings - at
  {
    if at >= HeaderOf(data).strings then OK
    else
      var v := ValidateString(data, at);
      if v.Valid? then StringsVerdict(data, at + v.size) else v
  }

  predicate SectionPlaced(data: seq<Byte>, s: nat)
    requires DataReadable(data) && s < SectionsCount(data)
  {
    && SectionOffset(data, s) >= DATA_HEADER_SIZE + DATA_SECTION_SIZE * SectionsCount(data)
    && SectionOffset(data, s) + SectionSize(data, s) < HeaderOf(data).data
  }

  function SectionsVerdict(data: seq<Byte>): Verdict
    requires DataReadable(data)
  {
    if forall s :: 0 <= s < SectionsCount(data) ==> SectionPlaced(data, s) then OK else Invalid(DataSize)
  }

  /** Every def from `at` on. */
  function DefsVerdict(data: seq<Byte>, at: nat, constants: nat, rw: nat): Verdict
    requires DataReadable(data) && SegmentsFit(data) && at <= HeaderOf(data).defs
    decreases HeaderOf(data).defs - at
  {
    if at >= HeaderOf(data).defs then OK
    else
      var v := ValidateDef(data, at, constants, rw, false);
      if v.Valid? then DefsVerdict(data, at + v.size, constants, rw) else v
  }

  const MAGIC: seq<Byte> := [0x4C, 0x4D, 0x4E, 0x54, 0]

  predicate Aligned(h: Header) {
    h.strings % 4 == 0 && h.defs % 4 == 0 && h.code % 4 == 0 && h.data % 4 == 0 && h.constants % 4 == 0
  }

  /** Sizes are 64 bits wide on the host and wrap. */
  function Size64(x: int): nat {
    x % 0x1_0000_0000_0000_0000
  }

  /** Slots available from the constants to the end of the memory area. */
  function StackSlots(data: seq<Byte>, memorySize: nat): nat
    requires WellSized(data)
  {
    Size64(memorySize - ConstantsAt(HeaderOf(data))) / VALUE_SIZE
  }

  /** Valid carries the stack count. */
  function ArchiveVerdict(data: seq<Byte>, memorySize: nat): Verdict
    requires SegmentsFit(data)
  {
    if |data| < HEADER_SIZE then Invalid(HeaderMagic)
    else if data[..5] != MAGIC then Invalid(HeaderMagic)
    else if !WellSized(data) then Invalid(SegmentsSize)
    else if !Aligned(HeaderOf(data)) then Invalid(SegmentsAlign)
    else
      var h := HeaderOf(data);
      var slots := StackSlots(data, memorySize);
      var constants := h.constants / VALUE_SIZE;
      And(StringsVerdict(data, 0),
          if h.data < DATA_HEADER_SIZE then Invalid(DataHeader)
          else if DATA_HEADER_SIZE + SectionsCount(data) * DATA_SECTION_SIZE > h.data then Invalid(DataHeader)
          else And(SectionsVerdict(data),
                   And(DefsVerdict(data, 0, constants, Size64(slots - constants)), Valid(slots))))
  }
}
