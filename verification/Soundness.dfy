/** Why an accepted archive may run unchecked: the validator's verdict, together with the
    offsets fitting the 16 bits it looks at, makes every def a safe program. */
module Soundness {
  import opened Bytecode
  import opened Archive
  import opened Validation
  import opened Execution
  import opened Instructions
  import opened Dispatch
  import opened Interpreter
  import opened Loading

  // ------------------------------------------------------------------
  // One instruction
  // ------------------------------------------------------------------

  /** Does the validator read this opcode's operands the way the interpreter uses them? */
  predicate Describes(layout: Layout, shape: Shape) {
    match layout
    case NoOperands => shape.Nothing? || shape.Return?
    case S_S => shape.Map? && shape.step == 1 && shape.lanes == 1
    case V_V => shape.Map? && shape.step == 1 && shape.lanes == 4
    case S_V => shape.Map? && shape.step == 0 && shape.lanes == 4
    case Imm_S => shape == Immediate(1)
    case Imm_V => shape == Immediate(4)
    case DataImm_S => shape == Load(1)
    case DataImm_V => shape == Load(4)
    case DataRef_S => shape == LoadAt(1)
    case DataRef_V => shape == LoadAt(4)
    case Section_S => shape.SectionLength?
    case SS_S => (shape.Zip? && shape.step2 == 1 && shape.lanes == 1) || shape.Select?
    case VV_V => shape.Zip? && shape.step2 == 1 && shape.lanes == 4
    case VS_V => shape.Zip? && shape.step2 == 0 && shape.lanes == 4
    case S_SS => shape.SinCos?
    case V_S => shape.Sum?
    case RefImm_S => shape.IndexRead?
    case RefImm_Ref => shape.IndexWrite?
    case SS_ => shape.Compare?
    case S_ => shape.CompareZero?
    case S_Code => shape.BranchIf?
    case Code => shape.Branch? || shape.BranchOn?
    case Call => shape.ExternCall?
    case UnknownOpcode => shape.Bad?
  }

  lemma ValidatorDescribesInterpreter(op: U16)
    ensures Describes(LayoutOf(op), ShapeOf(op))
  {
  }

  lemma LayoutsOfOpcodes(op: U16)
    ensures LayoutOf(op) == RefImm_S <==> op == INDEXRIS
    ensures LayoutOf(op) == Layout.Call <==> op == EXTCALL
  {
  }

  /** The program a def of an archive runs as, seen from its code, frame and data sections. */
  predicate RunsAs(data: seq<Byte>, def: Def, constants: nat, rw: nat, p: Program)
    requires DataReadable(data)
  {
    && p.constants == constants && p.frame == constants + rw
    && |p.sections| == SectionsCount(data)
    && (forall s :: 0 <= s < |p.sections| ==> p.sections[s] == SectionSize(data, s))
    && def.code + CODE_HEADER_SIZE <= HeaderOf(data).code
    && |p.code| == InstructionsCount(data, def.code)
  }

  /** Accepted is the same as in bounds, for every instruction but two. */
  lemma AcceptedIffInBounds(data: seq<Byte>, def: Def, layout: Layout, shape: Shape, i: Instruction, constants: nat, rw: nat, p: Program)
    requires DataReadable(data) && RunsAs(data, def, constants, rw, p)
    requires Describes(layout, shape) && layout != Layout.Call && layout != RefImm_S
    ensures ValidateLayout(data, def, layout, i, constants, rw).Valid? <==> InBounds(p, shape, i)
  {
    hide HeaderOf, SectionsCount, SectionSize, InstructionsCount, WellSized;
  }

  /** INDEXRIS is checked to write `arg2` slots although it writes one; with arg2 at least 1
      that is enough, and with arg2 zero it is enough unless arg3 is just past the frame. */
  lemma IndexReadAccepted(data: seq<Byte>, def: Def, i: Instruction, constants: nat, rw: nat, p: Program)
    requires DataReadable(data) && RunsAs(data, def, constants, rw, p)
    requires ValidateLayout(data, def, RefImm_S, i, constants, rw).Valid?
    ensures InBounds(p, IndexRead, i) <==> i.arg2 >= 1 || i.arg3 != p.frame
  {
    hide HeaderOf, SectionsCount, SectionSize, InstructionsCount, WellSized;
  }

  /** An accepted INDEXRIS that writes past a frame of one slot. */
  lemma IndexReadPastFrame(data: seq<Byte>, def: Def, p: Program)
    requires DataReadable(data) && RunsAs(data, def, 0, 1, p)
    ensures var i := Instruction(INDEXRIS, 0, 0, 1);
      ValidateInstruction(data, def, i, 0, 1).Valid? && !SafeInstr(p, i)
  {
  }

  /** INDEXRIR may legally name a constant as its destination, and then overwrites it. */
  lemma IndexedWriteReachesConstants(data: seq<Byte>, def: Def, f: Floats, p: Program, m: Machine)
    requires DataReadable(data) && RunsAs(data, def, 1, 1, p) && p.frame <= |m.stack|
    requires Finite(f, m.stack[0]) && Finite(f, m.stack[1]) && f.toSize(m.stack[1]) == 0 && f.toSize(m.stack[0]) == 0
    requires m.stack[0] != m.stack[1]
    ensures var i := Instruction(INDEXRIR, 0, 1, 1);
      && ValidateInstruction(data, def, i, 1, 1).Valid?
      && Exec(f, p, m, i).0 == Ok && Exec(f, p, m, i).1.stack[0] == m.stack[1] != m.stack[0]
  {
  }

  // ------------------------------------------------------------------
  // What the 16-bit offsets of the source leave unchecked
  // ------------------------------------------------------------------

  predicate CallFits(data: seq<Byte>, i: Instruction)
    requires WellSized(data)
  {
    i.opcode == EXTCALL ==>
      var target := Combine(i.arg1, i.arg2);
      && target < 0x1_0000 && target % DEF_SIZE == 0
      && (target + DEF_SIZE <= HeaderOf(data).defs ==> i.arg3 + DefAt(data, target).argsCount < 0x1_0000)
  }

  /** An INDEXRIS with no slots to check must not name the slot just past the frame. */
  predicate InstrFits(data: seq<Byte>, i: Instruction, frame: nat)
    requires WellSized(data)
  {
    CallFits(data, i) && (i.opcode == INDEXRIS ==> i.arg2 >= 1 || i.arg3 != frame)
  }

  /** A code block lies wholly in the code segment. */
  predicate CodeWhole(data: seq<Byte>, code: U32)
    requires WellSized(data)
  {
    && code + CODE_HEADER_SIZE <= HeaderOf(data).code
    && code + CODE_HEADER_SIZE + InstructionsCount(data, code) * INSTRUCTION_SIZE <= HeaderOf(data).code
  }

  function CodeOfBlock(data: seq<Byte>, code: U32): (r: seq<Instruction>)
    requires WellSized(data) && CodeWhole(data, code)
    ensures |r| == InstructionsCount(data, code)
    ensures forall k :: 0 <= k < |r| ==> r[k] == InstructionAt(data, code + CODE_HEADER_SIZE, k)
  {
    seq(InstructionsCount(data, code), k requires 0 <= k < InstructionsCount(data, code) => InstructionAt(data, code + CODE_HEADER_SIZE, k))
  }

  predicate DefFits(data: seq<Byte>, d: Def)
    requires WellSized(data)
  {
    && d.argsCount + d.rvalsCount < 0x1_0000
    && (!IsExtern(d) ==>
          && d.code + CODE_HEADER_SIZE < 0x1_0000
          && (CodeWhole(data, d.code) ==> forall i :: i in CodeOfBlock(data, d.code) ==>
                InstrFits(data, i, ConstantsCount(data) + d.stackCount)))
  }

  /** The archive stays within the offsets the library's 16-bit parameters can carry. */
  ghost predicate Fits(data: seq<Byte>)
    requires WellSized(data)
  {
    && SegmentsFit(data) && ConstantsCount(data) < 0x1_0000
    && forall at :: DefBoundary(HeaderOf(data), at) ==> DefFits(data, DefAt(data, at))
  }

  /** Word k is one that the section's count admits. */
  predicate Admits(data: seq<Byte>, s: nat, k: nat)
    requires DataReadable(data)
  {
    s < SectionsCount(data) && k < SectionSize(data, s)
  }

  /** Word k of the section, four bytes wide, lies in the archive. */
  predicate Holds(data: seq<Byte>, s: nat, k: nat)
    requires DataReadable(data) && s < SectionsCount(data)
  {
    DataAt(HeaderOf(data)) + SectionOffset(data, s) + (k + 1) * VALUE_SIZE <= |data|
  }

  /** Every section ends inside the archive.  The validator adds a section's count to its
      offset without the four bytes a word takes, and so does not see to this. */
  predicate SectionsInside(data: seq<Byte>)
    requires DataReadable(data)
  {
    forall s :: 0 <= s < SectionsCount(data) && SectionSize(data, s) > 0 ==>
      DataAt(HeaderOf(data)) + SectionOffset(data, s) + VALUE_SIZE * SectionSize(data, s) <= |data|
  }

  /** How many words of a section the archive has room for. */
  function Extent(data: seq<Byte>, s: nat): (r: nat)
    requires DataReadable(data) && s < SectionsCount(data)
    ensures forall k: nat :: k < r <==> Holds(data, s, k)
  {
    hide HeaderOf, SectionOffset;
    var from := DataAt(HeaderOf(data)) + SectionOffset(data, s);
    if from >= |data| then 0 else (|data| - from) / VALUE_SIZE
  }

  /** The archive holds every word its sections admit exactly when the sections end inside it;
      and that is when no load the counts let through can leave it. */
  lemma SectionsInsideIff(data: seq<Byte>)
    requires DataReadable(data)
    ensures SectionsInside(data) <==> forall s: nat, k: nat :: Admits(data, s, k) ==> Holds(data, s, k)
    ensures SectionsInside(data) <==> forall s :: 0 <= s < SectionsCount(data) ==> SectionSize(data, s) <= Extent(data, s)
  {
    hide HeaderOf, SectionsCount, SectionOffset, SectionSize;
    forall s | 0 <= s < SectionsCount(data) && SectionSize(data, s) > 0
      ensures var last := SectionSize(data, s) - 1;
        && (Holds(data, s, last) <==> DataAt(HeaderOf(data)) + SectionOffset(data, s) + VALUE_SIZE * SectionSize(data, s) <= |data|)
        && Admits(data, s, last)
        && (Holds(data, s, last) <==> SectionSize(data, s) <= Extent(data, s))
    {
      assert SectionSize(data, s) - 1 < Extent(data, s) <==> Holds(data, s, SectionSize(data, s) - 1);
    }
    forall s: nat, k: nat | SectionsInside(data) && Admits(data, s, k) ensures Holds(data, s, k) {
    }
  }

  // ------------------------------------------------------------------
  // What acceptance says of names, defs and code
  // ------------------------------------------------------------------

  lemma {:induction false} CStringStopsBy(data: seq<Byte>, at: nat, nul: nat)
    requires at <= nul < |data| && data[nul] == 0
    ensures at + |CString(data, at)| <= nul
    decreases nul - at
  {
    if data[at] != 0 {
      CStringStopsBy(data, at + 1, nul);
    }
  }

  lemma AcceptedNameEnds(data: seq<Byte>, name: U16)
    requires WellSized(data) && SegmentsFit(data) && ValidateString(data, name).Valid?
    ensures NameEnds(data, name)
  {
    hide HeaderOf, U16At, CString;
    var h := HeaderOf(data);
    var size := U16At(data, StringsAt(h) + name);
    CStringStopsBy(data, StringsAt(h) + name + STRING_HEADER_SIZE, StringsAt(h) + name + STRING_HEADER_SIZE + size - 1);
  }

  /** Acceptance of the defs from `at` on covers every def that starts there, and leaves no
      odd bytes at the end. */
  lemma {:induction false} EveryDefAccepted(data: seq<Byte>, at: nat, constants: nat, rw: nat)
    requires DataReadable(data) && SegmentsFit(data) && at <= HeaderOf(data).defs && at % DEF_SIZE == 0
    requires DefsVerdict(data, at, constants, rw).Valid?
    ensures HeaderOf(data).defs % DEF_SIZE == 0
    ensures forall k :: DefBoundary(HeaderOf(data), k) && k >= at ==> ValidateDef(data, k, constants, rw, false).Valid?
    decreases HeaderOf(data).defs - at
  {
    if at < HeaderOf(data).defs {
      hide HeaderOf, ValidateString, ValidateCode, SectionsCount, DefAt, Has;
      var v := ValidateDef(data, at, constants, rw, false);
      assert v == Valid(DEF_SIZE);
      hide ValidateDef;
      NextBoundary(HeaderOf(data), at);
      EveryDefAccepted(data, at + DEF_SIZE, constants, rw);
      assert forall k :: DefBoundary(HeaderOf(data), k) && k >= at && k != at ==> k >= at + DEF_SIZE;
    }
  }

  lemma {:induction false} InstructionsAcceptedIff(data: seq<Byte>, def: Def, first: nat, count: U32, k: nat, constants: nat, rw: nat)
    requires DataReadable(data) && first + count * INSTRUCTION_SIZE <= HeaderOf(data).code && k <= count
    ensures InstructionsVerdict(data, def, first, count, k, constants, rw).Valid? <==>
            forall j :: k <= j < count ==> ValidateInstruction(data, def, InstructionAt(data, first, j), constants, rw).Valid?
    decreases count - k
  {
    hide ValidateInstruction, HeaderOf;
    if k < count {
      InstructionsAcceptedIff(data, def, first, count, k + 1, constants, rw);
    }
  }

  /** A def the validator has accepted, as the archive is loaded. */
  predicate Accepted(data: seq<Byte>, at: int, slots: nat)
    requires DataReadable(data)
  {
    && DefBoundary(HeaderOf(data), at) && at < 0x1_0000
    && ConstantsCount(data) <= slots
    && ValidateDef(data, at, ConstantsCount(data), slots - ConstantsCount(data), false).Valid?
  }

  /** What an accepted archive amounts to. */
  lemma AcceptedArchive(data: seq<Byte>, memorySize: nat)
    requires SegmentsFit(data) && ArchiveVerdict(data, memorySize).Valid?
    requires |data| <= memorySize < 0x1_0000_0000_0000_0000
    ensures DataReadable(data) && Walkable(data)
    ensures ArchiveVerdict(data, memorySize).size == (memorySize - ConstantsAt(HeaderOf(data))) / VALUE_SIZE
    ensures forall at :: DefBoundary(HeaderOf(data), at) ==> Accepted(data, at, ArchiveVerdict(data, memorySize).size)
  {
    hide HeaderOf, SectionsCount, StringsVerdict, SectionsVerdict, DefsVerdict, ValidateDef, NameEnds;
    var h := HeaderOf(data);
    var slots := StackSlots(data, memorySize);
    var constants := h.constants / VALUE_SIZE;
    assert slots == (memorySize - ConstantsAt(h)) / VALUE_SIZE;
    assert constants <= slots;
    assert Size64(slots - constants) == slots - constants;
    EveryDefAccepted(data, 0, constants, slots - constants);
    forall at | DefBoundary(h, at) ensures NameEnds(data, DefAt(data, at).name) {
      AcceptedDefHasName(data, at, constants, slots - constants);
    }
  }

  lemma AcceptedDefHasName(data: seq<Byte>, at: U16, constants: nat, rw: nat)
    requires DataReadable(data) && SegmentsFit(data) && DefBoundary(HeaderOf(data), at)
    requires ValidateDef(data, at, constants, rw, false).Valid?
    ensures NameEnds(data, DefAt(data, at).name)
  {
    hide HeaderOf, ValidateString, ValidateCode, SectionsCount, DefOf, Has;
    AcceptedNameEnds(data, DefAt(data, at).name);
  }

  // ------------------------------------------------------------------
  // The loaded image
  // ------------------------------------------------------------------

  /** Word k of a section.  Loads never get as far as a word outside the archive. */
  function DataWord(data: seq<Byte>, section: nat, k: nat): Word
    requires DataReadable(data)
  {
    if section < SectionsCount(data) && Holds(data, section, k) then
      U32At(data, DataAt(HeaderOf(data)) + SectionOffset(data, section) + k * VALUE_SIZE)
    else 0
  }

  /** A def the host or an EXTCALL may run; an extern interface has nothing to run. */
  predicate Runs(d: Def) {
    IsExtern(d) ==> Linkable(d)
  }

  function SectionsOf(data: seq<Byte>): (r: seq<U32>)
    requires DataReadable(data)
    ensures |r| == SectionsCount(data)
    ensures forall s :: 0 <= s < |r| ==> r[s] == SectionSize(data, s)
  {
    seq(SectionsCount(data), s requires 0 <= s < SectionsCount(data) => SectionSize(data, s))
  }

  function ExtentsOf(data: seq<Byte>): (r: seq<nat>)
    requires DataReadable(data)
    ensures |r| == SectionsCount(data)
    ensures forall s :: 0 <= s < |r| ==> r[s] == Extent(data, s)
  {
    seq(SectionsCount(data), s requires 0 <= s < SectionsCount(data) => Extent(data, s))
  }

  function DefsOf(data: seq<Byte>): (r: map<U32, Def>)
    requires WellSized(data)
    ensures forall at: U32 :: at in r <==> DefBoundary(HeaderOf(data), at) && Runs(DefAt(data, at))
    ensures forall at: U32 :: at in r ==> DefBoundary(HeaderOf(data), at) && r[at] == DefAt(data, at)
  {
    map at: U32 | 0 <= at < HeaderOf(data).defs && DefBoundary(HeaderOf(data), at) && Runs(DefAt(data, at)) :: DefAt(data, at)
  }

  function CodesOf(data: seq<Byte>): (r: map<U32, seq<Instruction>>)
    requires WellSized(data)
    ensures forall c: U32 :: c in r <==> CodeWhole(data, c)
    ensures forall c: U32 :: c in r ==> r[c] == CodeOfBlock(data, c)
  {
    map c: U32 | 0 <= c < HeaderOf(data).code && CodeWhole(data, c) :: CodeOfBlock(data, c)
  }

  /** What the interpreter sees of a linked archive. */
  function ImageOf(data: seq<Byte>, externs: seq<Extern>): Image
    requires DataReadable(data)
  {
    Image(ConstantsCount(data), SectionsOf(data), ExtentsOf(data), (s, k) => DataWord(data, s, k), DefsOf(data), CodesOf(data), externs)
  }

  /** Linking touches nothing but the code fields of defs. */
  lemma LinkingKeepsSegments(data: seq<Byte>, data': seq<Byte>)
    requires DataReadable(data) && SameOutsideDefs(data, data')
    ensures DataReadable(data') && HeaderOf(data') == HeaderOf(data)
    ensures SectionsCount(data') == SectionsCount(data)
    ensures forall s :: 0 <= s < SectionsCount(data) ==>
              SectionSize(data', s) == SectionSize(data, s) && SectionOffset(data', s) == SectionOffset(data, s)
    ensures forall c: U32 :: c + CODE_HEADER_SIZE <= HeaderOf(data).code ==> InstructionsCount(data', c) == InstructionsCount(data, c)
  {
    SameHeader(data, data');
    hide HeaderOf;
  }

  lemma LinkingKeepsView(data: seq<Byte>, data': seq<Byte>)
    requires DataReadable(data) && SameOutsideDefs(data, data')
    ensures DataReadable(data') && SectionsOf(data') == SectionsOf(data) && ConstantsCount(data') == ConstantsCount(data)
    ensures ExtentsOf(data') == ExtentsOf(data)
  {
    LinkingKeepsSegments(data, data');
    hide HeaderOf, SectionsCount, SectionSize, SectionOffset;
  }

  lemma LinkingKeepsCode(data: seq<Byte>, data': seq<Byte>, code: U32)
    requires DataReadable(data) && SameOutsideDefs(data, data') && CodeWhole(data, code)
    ensures WellSized(data') && CodeWhole(data', code) && CodeOfBlock(data', code) == CodeOfBlock(data, code)
  {
    LinkingKeepsSegments(data, data');
    hide HeaderOf, InstructionsCount;
    var c, c' := CodeOfBlock(data, code), CodeOfBlock(data', code);
    forall k | 0 <= k < |c| ensures c'[k] == c[k] {
      assert code + CODE_HEADER_SIZE + (k + 1) * INSTRUCTION_SIZE <= HeaderOf(data).code;
    }
  }

  // ------------------------------------------------------------------
  // What the image offers
  // ------------------------------------------------------------------

  /** By its bytes: at this offset of the code segment lie a count and that many instructions. */
  predicate BlockHolds(data: seq<Byte>, code: U32, instrs: seq<Instruction>)
    requires WellSized(data)
  {
    var at := CodeAt(HeaderOf(data)) + code;
    && |instrs| < 0x1_0000_0000 && code + 4 + 8 * |instrs| <= HeaderOf(data).code
    && data[at..at + 4] == Bytes32(|instrs|) && data[at + 4..at + 4 + 8 * |instrs|] == CodeBytes(instrs)
  }

  lemma BlockReadsBack(data: seq<Byte>, code: U32, instrs: seq<Instruction>)
    requires WellSized(data) && BlockHolds(data, code, instrs)
    ensures CodeWhole(data, code) && CodeOfBlock(data, code) == instrs
  {
    hide HeaderOf, U32At, Bytes32, CodeBytes, InstructionOf;
    var at := CodeAt(HeaderOf(data)) + code;
    Bytes32RoundTrip(data, at, |instrs|);
    forall k | 0 <= k < |instrs| ensures CodeOfBlock(data, code)[k] == instrs[k] {
      CodeBytesReadBack(data, at + 4, instrs, k);
    }
  }

  /** The image runs what lies in the archive, instruction for instruction. */
  lemma ImageOffersBlock(data: seq<Byte>, data': seq<Byte>, externs: seq<Extern>, code: U32, instrs: seq<Instruction>)
    requires DataReadable(data) && SameOutsideDefs(data, data') && BlockHolds(data, code, instrs)
    ensures DataReadable(data') && code in ImageOf(data', externs).codes && ImageOf(data', externs).codes[code] == instrs
  {
    BlockReadsBack(data, code, instrs);
    LinkingKeepsSegments(data, data');
    LinkingKeepsCode(data, data', code);
    hide HeaderOf, SectionsCount, BlockHolds, CodeOfBlock, CodeWhole, SameOutsideDefs;
  }

  /** And every def that has something to run, field by field; linking may have changed the code
      of an extern. */
  lemma ImageOffersDef(data: seq<Byte>, data': seq<Byte>, externs: seq<Extern>, at: U32, d: Def)
    requires DataReadable(data) && DataReadable(data') && Walkable(data) && Linked(data, data', externs)
    requires DefBoundary(HeaderOf(data), at) && Runs(d)
    requires data[DefsAt(HeaderOf(data)) + at..DefsAt(HeaderOf(data)) + at + DEF_SIZE] == BytesOfDef(d)
    ensures var image := ImageOf(data', externs);
      at in image.defs && image.defs[at] == d.(code := image.defs[at].code) && (!IsExtern(d) ==> image.defs[at] == d)
  {
    hide HeaderOf, SectionsCount, BytesOfDef, DefOf, CString, SectionSize, SectionOffset;
    DefReadsAnywhere(data, DefsAt(HeaderOf(data)) + at, d);
    assert LinkedDef(data, DefAt(data, at), DefAt(data', at), externs);
  }

  // ------------------------------------------------------------------
  // What a data load delivers
  // ------------------------------------------------------------------

  /** By its bytes: entry s of the section table names an offset and a count, and from that offset
      of the data segment on lie these words. */
  predicate SectionHolds(data: seq<Byte>, s: nat, offset: U32, words: seq<Word>)
    requires DataReadable(data)
  {
    var base := DataAt(HeaderOf(data));
    && s < SectionsCount(data) && |words| < 0x1_0000_0000
    && base + 4 + 8 * s + 8 <= |data|
    && data[base + 4 + 8 * s..base + 4 + 8 * s + 4] == Bytes32(offset)
    && data[base + 4 + 8 * s + 4..base + 4 + 8 * s + 8] == Bytes32(|words|)
    && base + offset + 4 * |words| <= |data|
    && data[base + offset..base + offset + 4 * |words|] == WordBytes(words)
  }

  lemma SectionReadsBack(data: seq<Byte>, s: nat, offset: U32, words: seq<Word>)
    requires DataReadable(data) && SectionHolds(data, s, offset, words)
    ensures SectionOffset(data, s) == offset && SectionSize(data, s) == |words|
    ensures forall k :: 0 <= k < |words| ==> DataWord(data, s, k) == words[k]
  {
    hide HeaderOf, SectionsCount, U32At, Bytes32, WordBytes;
    var base := DataAt(HeaderOf(data));
    Bytes32RoundTrip(data, base + 4 + 8 * s, offset);
    Bytes32RoundTrip(data, base + 4 + 8 * s + 4, |words|);
    forall k | 0 <= k < |words| ensures DataWord(data, s, k) == words[k] {
      WordsReadAt(data, base + offset, words, k);
    }
  }

  lemma WordsReadAt(data: seq<Byte>, at: nat, words: seq<Word>, k: nat)
    requires k < |words| && at + 4 * |words| <= |data| && data[at..at + 4 * |words|] == WordBytes(words)
    ensures U32At(data, at + 4 * k) == words[k]
  {
    hide U32At, Bytes32, WordBytes;
    WordBytesAt(words, k);
    SliceOfSlice(data, at, at + 4 * |words|, 4 * k, 4 * k + 4);
    Bytes32RoundTrip(data, at + 4 * k, words[k]);
  }

  /** The image's section is these words. */
  predicate SectionIs(image: Image, s: nat, words: seq<Word>) {
    s < |image.sections| && image.sections[s] == |words| && forall k :: 0 <= k < |words| ==> image.data(s, k) == words[k]
  }

  /** What lies in the archive is what the linked image offers, word for word. */
  lemma ImageOffersSection(data: seq<Byte>, data': seq<Byte>, externs: seq<Extern>, s: nat, offset: U32, words: seq<Word>)
    requires DataReadable(data) && SameOutsideDefs(data, data') && SectionHolds(data, s, offset, words)
    ensures DataReadable(data') && SectionIs(ImageOf(data', externs), s, words)
  {
    LinkingKeepsSegments(data, data');
    hide HeaderOf, SectionsCount, DefsOf, CodesOf, ExtentsOf;
    var base := DataAt(HeaderOf(data));
    assert base >= CodeAt(HeaderOf(data));
    forall from: nat, to: nat | base <= from <= to <= |data| ensures data'[from..to] == data[from..to] {
    }
    assert SectionHolds(data', s, offset, words);
    SectionReadsBack(data', s, offset, words);
  }

  /** So a load leaves just the words asked for, or reports that the section does not have them. */
  lemma LoadDelivers(image: Image, s: nat, words: seq<Word>, f: Floats, p: Program, m: Machine, i: Instruction)
    requires SectionIs(image, s, words) && p.sections == image.sections && p.data == image.data && Covered(p)
    requires p.frame <= |m.stack| && SafeInstr(p, i) && i.arg1 == s
    requires i.opcode in {DLOADIIS, DLOADIIV, DLOADIRS, DLOADIRV}
    ensures i.opcode in {DLOADIRS, DLOADIRV} ==> i.arg2 < |m.stack|
    ensures var (r, n) := (Exec(f, p, m, i), if i.opcode in {DLOADIIS, DLOADIRS} then 1 else 4);
      var at := if i.opcode in {DLOADIIS, DLOADIIV} then i.arg2 else f.toSize(m.stack[i.arg2]);
      if at + n <= |words|
      then Writes(m, r, i.arg3, n) && i.arg3 + n <= |m.stack| && r.1.stack[i.arg3..i.arg3 + n] == words[at..at + n]
      else r == (Error(LMNT_ERROR_ACCESS_VIOLATION), m)
  {
    hide Exec, SafeInstr, Covered;
    LoadTarget(p, i);
    Loads(f, p, m, i);
  }

  lemma LoadTarget(p: Program, i: Instruction)
    requires SafeInstr(p, i) && i.opcode in {DLOADIIS, DLOADIIV, DLOADIRS, DLOADIRV}
    ensures i.arg3 + (if i.opcode in {DLOADIIS, DLOADIRS} then 1 else 4) <= p.frame
  {
  }

  lemma LengthDelivered(image: Image, s: nat, words: seq<Word>, f: Floats, p: Program, m: Machine, i: Instruction)
    requires SectionIs(image, s, words) && p.sections == image.sections
    requires p.frame <= |m.stack| && SafeInstr(p, i) && i.opcode == DSECLEN && i.arg1 == s
    ensures |words| < 0x1_0000_0000
    ensures var r := Exec(f, p, m, i); Writes(m, r, i.arg3, 1) && r.1.stack[i.arg3] == f.ofCount(|words|)
  {
    SectionLengths(f, p, m, i);
  }

  // ------------------------------------------------------------------
  // Accepted, fitting and linked: safe
  // ------------------------------------------------------------------

  /** A linked archive next to the accepted one it came from. */
  ghost predicate AcceptedAndLinked(data: seq<Byte>, data': seq<Byte>, externs: seq<Extern>, slots: nat) {
    && DataReadable(data) && Walkable(data) && Fits(data) && SectionsInside(data)
    && (forall at :: DefBoundary(HeaderOf(data), at) ==> Accepted(data, at, slots))
    && Linked(data, data', externs)
    && (forall e :: e in externs ==> WellBehaved(e))
  }

  lemma AcceptedCode(data: seq<Byte>, at: int, slots: nat, k: nat)
    requires DataReadable(data) && Accepted(data, at, slots) && DefFits(data, DefAt(data, at)) && !IsExtern(DefAt(data, at))
    ensures var d := DefAt(data, at);
      && CodeWhole(data, d.code)
      && (k < InstructionsCount(data, d.code) ==>
            ValidateInstruction(data, d, CodeOfBlock(data, d.code)[k], ConstantsCount(data), d.stackCount).Valid?)
  {
    hide HeaderOf, ValidateString, SectionsCount, DefOf, ValidateInstruction, InstructionsCount;
    var d := DefAt(data, at);
    var count := InstructionsCount(data, d.code);
    if k < count {
      InstructionsAcceptedIff(data, d, d.code + CODE_HEADER_SIZE, count, 0, ConstantsCount(data), d.stackCount);
    }
  }

  lemma AcceptedCall(data: seq<Byte>, target: U32, pos: U16, constants: nat, rw: nat)
    requires DataReadable(data) && target < 0x1_0000 && target % DEF_SIZE == 0
    requires target + DEF_SIZE <= HeaderOf(data).defs ==> pos + DefAt(data, target).argsCount < 0x1_0000
    requires CallCheck(data, target % 0x1_0000, target / 0x1_0000, pos, constants, rw).Valid?
    ensures DefBoundary(HeaderOf(data), target) && Linkable(DefAt(data, target))
    ensures var d := DefAt(data, target);
      pos + d.argsCount + d.rvalsCount <= constants + rw && constants <= pos + d.argsCount
  {
    hide HeaderOf, ValidateString, ValidateCode, SectionsCount, DefOf, DataReadable;
  }

  /** A call the validator accepts reaches, once linked, the first table entry of the callee's
      name and counts, with both windows in the caller's frame and results above the constants. */
  lemma AcceptedCallsReachTheirExtern(data: seq<Byte>, data': seq<Byte>, externs: seq<Extern>, slots: nat, rw: nat, target: U32, pos: U16)
    requires AcceptedAndLinked(data, data', externs, slots)
    requires target < 0x1_0000 && target % DEF_SIZE == 0
    requires target + DEF_SIZE <= HeaderOf(data).defs ==> pos + DefAt(data, target).argsCount < 0x1_0000
    requires CallCheck(data, target % 0x1_0000, target / 0x1_0000, pos, ConstantsCount(data), rw).Valid?
    ensures DataReadable(data') && DefBoundary(HeaderOf(data'), target) && target in DefsOf(data')
    ensures var d := DefsOf(data')[target];
      && FirstMatch(externs, DefName(data, target), d.argsCount, d.rvalsCount, d.code)
      && pos + d.argsCount + d.rvalsCount <= ConstantsCount(data) + rw
      && ConstantsCount(data) <= pos + d.argsCount
  {
    LinkingKeepsSegments(data, data');
    AcceptedCall(data, target, pos, ConstantsCount(data), rw);
    hide HeaderOf, CallCheck, SectionsCount, DefOf, CString, NameEnds, Fits, Accepted, FirstMatch, WellBehaved, SameOutsideDefs;
    assert LinkedDef(data, DefAt(data, target), DefAt(data', target), externs);
  }

  lemma AcceptedCallIsSafe(data: seq<Byte>, data': seq<Byte>, externs: seq<Extern>, slots: nat, def: Def, rw: nat, i: Instruction, p: Program)
    requires AcceptedAndLinked(data, data', externs, slots) && DataReadable(data')
    requires i.opcode == EXTCALL && CallFits(data, i)
    requires ValidateLayout(data, def, Layout.Call, i, ConstantsCount(data), rw).Valid?
    requires p.constants == ConstantsCount(data) && p.frame == p.constants + rw && p.defs == DefsOf(data') && p.externs == externs
    ensures InBounds(p, ExternCall, i)
  {
    hide HeaderOf, CallCheck, DefOf, DefsOf, DefName, AcceptedAndLinked, ConstantsCount, DataReadable;
    var target := Combine(i.arg1, i.arg2);
    assert i.arg2 == 0 && target == i.arg1;
    AcceptedCallsReachTheirExtern(data, data', externs, slots, rw, target, i.arg3);
  }

  lemma AcceptedInstructionIsSafe(data: seq<Byte>, data': seq<Byte>, externs: seq<Extern>, slots: nat, def: Def, i: Instruction, p: Program)
    requires AcceptedAndLinked(data, data', externs, slots) && DataReadable(data') && InstrFits(data, i, ConstantsCount(data) + def.stackCount)
    requires RunsAs(data, def, ConstantsCount(data), def.stackCount, p)
    requires p.defs == DefsOf(data') && p.externs == externs
    requires ValidateInstruction(data, def, i, ConstantsCount(data), def.stackCount).Valid?
    ensures SafeInstr(p, i)
  {
    ValidatorDescribesInterpreter(i.opcode);
    LayoutsOfOpcodes(i.opcode);
    assert DataReadable(data);
    hide LayoutOf, ShapeOf, HeaderOf, DefOf, CallCheck, AcceptedAndLinked, SectionsCount, DataReadable, InBounds, ValidateLayout;
    var layout, shape := LayoutOf(i.opcode), ShapeOf(i.opcode);
    if layout == RefImm_S {
      IndexReadAccepted(data, def, i, ConstantsCount(data), def.stackCount, p);
    } else if layout == Layout.Call {
      AcceptedCallIsSafe(data, data', externs, slots, def, def.stackCount, i, p);
    } else {
      AcceptedIffInBounds(data, def, layout, shape, i, ConstantsCount(data), def.stackCount, p);
    }
  }

  /** An accepted load leaves its bounds exactly when its section admits the words it asks for
      and the last of them is not in the archive. */
  lemma AcceptedLoadFaultsIff(data: seq<Byte>, def: Def, i: Instruction, constants: nat, rw: nat, p: Program, f: Floats, m: Machine)
    requires DataReadable(data) && RunsAs(data, def, constants, rw, p) && p.extents == ExtentsOf(data) && p.frame <= |m.stack|
    requires i.opcode in {DLOADIIS, DLOADIIV, DLOADIRS, DLOADIRV}
    requires ValidateInstruction(data, def, i, constants, rw).Valid?
    ensures i.arg1 < SectionsCount(data) && (i.opcode in {DLOADIRS, DLOADIRV} ==> i.arg2 < |m.stack|)
    ensures var n := if i.opcode in {DLOADIIS, DLOADIRS} then 1 else 4;
      var at := if i.opcode in {DLOADIIS, DLOADIIV} then i.arg2 else f.toSize(m.stack[i.arg2]);
      Exec(f, p, m, i).0 == Fault <==> Admits(data, i.arg1, at + n - 1) && !Holds(data, i.arg1, at + n - 1)
  {
    hide HeaderOf, SectionsCount, SectionSize, InstructionsCount, WellSized, Extent, Holds;
    LoadShapes(i.opcode);
    var n := if i.opcode in {DLOADIIS, DLOADIRS} then 1 else 4;
    var at := if i.opcode in {DLOADIIS, DLOADIIV} then i.arg2 else f.toSize(m.stack[i.arg2]);
    assert at + n - 1 < Extent(data, i.arg1) <==> Holds(data, i.arg1, at + n - 1);
  }

  lemma LoadShapes(op: U16)
    ensures op == DLOADIIS ==> ShapeOf(op) == Load(1) && LayoutOf(op) == DataImm_S
    ensures op == DLOADIIV ==> ShapeOf(op) == Load(4) && LayoutOf(op) == DataImm_V
    ensures op == DLOADIRS ==> ShapeOf(op) == LoadAt(1) && LayoutOf(op) == DataRef_S
    ensures op == DLOADIRV ==> ShapeOf(op) == LoadAt(4) && LayoutOf(op) == DataRef_V
  {
  }

  /** What linking makes of one accepted def. */
  lemma PreparedDef(data: seq<Byte>, data': seq<Byte>, externs: seq<Extern>, slots: nat, at: U32)
    requires AcceptedAndLinked(data, data', externs, slots) && DataReadable(data') && at in DefsOf(data')
    ensures DefBoundary(HeaderOf(data), at) && Accepted(data, at, slots)
    ensures var (d, d') := (DefAt(data, at), DefAt(data', at));
      && d' == d.(code := d'.code)
      && (!IsExtern(d) ==> d' == d)
      && (IsExtern(d) ==> d'.code < |externs| && externs[d'.code].argsCount == d.argsCount && externs[d'.code].rvalsCount == d.rvalsCount)
      && ConstantsCount(data) + d.stackCount <= slots && d.argsCount + d.rvalsCount <= d.stackCount
  {
    LinkingKeepsSegments(data, data');
    hide HeaderOf, SectionsCount, DefOf, NameEnds, CString, NameAt, WellBehaved, SameOutsideDefs, WellSized;
    var d, d' := DefAt(data, at), DefAt(data', at);
    assert LinkedDef(data, d, d', externs) && DefFits(data, d);
    AcceptedFrame(data, at, slots);
  }

  lemma PreparedView(data: seq<Byte>, data': seq<Byte>, externs: seq<Extern>, slots: nat)
    requires AcceptedAndLinked(data, data', externs, slots)
    ensures DataReadable(data) && DataReadable(data') && HeaderOf(data') == HeaderOf(data)
    ensures SectionsOf(data') == SectionsOf(data) && ExtentsOf(data') == ExtentsOf(data) && ConstantsCount(data') == ConstantsCount(data)
  {
    hide Fits, SectionsInside, Accepted, NameEnds, WellBehaved, SectionSize, SectionOffset, Extent;
    LinkingKeepsView(data, data');
    LinkingKeepsSegments(data, data');
  }

  lemma PreparedDefIsSafe(data: seq<Byte>, data': seq<Byte>, externs: seq<Extern>, slots: nat, at: U32)
    requires AcceptedAndLinked(data, data', externs, slots) && DataReadable(data') && at in DefsOf(data')
    ensures SafeDef(ImageOf(data', externs), DefAt(data', at), slots)
  {
    hide AcceptedAndLinked, HeaderOf, SectionsCount, SectionSize, SectionOffset, DefAt, CodeWhole, Accepted, SafeProgram;
    PreparedView(data, data', externs, slots);
    PreparedDef(data, data', externs, slots, at);
    var image, d := ImageOf(data', externs), DefAt(data, at);
    if !IsExtern(d) {
      PreparedCode(data, data', externs, slots, at);
      PreparedCodeIsSafe(data, data', externs, slots, at, ProgramOf(image, d));
    }
  }

  lemma PreparedCode(data: seq<Byte>, data': seq<Byte>, externs: seq<Extern>, slots: nat, at: U32)
    requires AcceptedAndLinked(data, data', externs, slots) && DefBoundary(HeaderOf(data), at) && !IsExtern(DefAt(data, at))
    ensures var code := DefAt(data, at).code;
      && CodeWhole(data, code) && DataReadable(data')
      && code in CodesOf(data') && CodesOf(data')[code] == CodeOfBlock(data, code)
  {
    hide HeaderOf, SectionsCount, DefOf, InstrFits;
    AcceptedCode(data, at, slots, 0);
    LinkingKeepsSegments(data, data');
    LinkingKeepsCode(data, data', DefAt(data, at).code);
  }

  /** One instruction of a def as it runs. */
  lemma PreparedInstructionIsSafe(data: seq<Byte>, data': seq<Byte>, externs: seq<Extern>, slots: nat, at: U32, k: nat, p: Program)
    requires AcceptedAndLinked(data, data', externs, slots) && DataReadable(data') && Accepted(data, at, slots)
    requires !IsExtern(DefAt(data, at)) && CodeWhole(data, DefAt(data, at).code)
    requires k < |CodeOfBlock(data, DefAt(data, at).code)|
    requires RunsAs(data, DefAt(data, at), ConstantsCount(data), DefAt(data, at).stackCount, p)
    requires p.defs == DefsOf(data') && p.externs == externs
    ensures SafeInstr(p, CodeOfBlock(data, DefAt(data, at).code)[k])
  {
    var d := DefAt(data, at);
    assert DefFits(data, d);
    hide HeaderOf, SectionsCount, DefOf, DefFits, ValidateInstruction, AcceptedAndLinked, Accepted, IsExtern, RunsAs;
    AcceptedCode(data, at, slots, k);
    FittingInstruction(data, d, CodeOfBlock(data, d.code)[k]);
    AcceptedInstructionIsSafe(data, data', externs, slots, d, CodeOfBlock(data, d.code)[k], p);
  }

  lemma InsideMeansCovered(data: seq<Byte>, p: Program)
    requires DataReadable(data) && SectionsInside(data) && p.sections == SectionsOf(data) && p.extents == ExtentsOf(data)
    ensures Covered(p)
  {
    hide SectionsInside, HeaderOf, SectionsCount, SectionSize, Extent;
    SectionsInsideIff(data);
  }

  lemma PreparedCodeIsSafe(data: seq<Byte>, data': seq<Byte>, externs: seq<Extern>, slots: nat, at: U32, p: Program)
    requires AcceptedAndLinked(data, data', externs, slots) && DataReadable(data') && Accepted(data, at, slots)
    requires !IsExtern(DefAt(data, at)) && CodeWhole(data, DefAt(data, at).code)
    requires p.code == CodeOfBlock(data, DefAt(data, at).code)
    requires p.defs == DefsOf(data') && p.externs == externs && p.sections == SectionsOf(data) && p.extents == ExtentsOf(data)
    requires p.constants == ConstantsCount(data) && p.frame == p.constants + DefAt(data, at).stackCount
    ensures SafeProgram(p)
  {
    hide SectionsInside, Covered, HeaderOf, SectionsCount, DefOf, SafeInstr, Accepted, WellBehaved, IsExtern, Walkable, Fits, Linked;
    InsideMeansCovered(data, p);
    forall k | 0 <= k < |p.code| ensures SafeInstr(p, p.code[k]) {
      PreparedInstructionIsSafe(data, data', externs, slots, at, k, p);
    }
  }

  lemma FittingInstruction(data: seq<Byte>, d: Def, i: Instruction)
    requires WellSized(data) && DefFits(data, d) && !IsExtern(d) && CodeWhole(data, d.code) && i in CodeOfBlock(data, d.code)
    ensures InstrFits(data, i, ConstantsCount(data) + d.stackCount)
  {
  }

  lemma AcceptedFrame(data: seq<Byte>, at: int, slots: nat)
    requires DataReadable(data) && Accepted(data, at, slots) && DefFits(data, DefAt(data, at))
    ensures var d := DefAt(data, at);
      ConstantsCount(data) + d.stackCount <= slots && d.argsCount + d.rvalsCount <= d.stackCount
  {
    hide HeaderOf, ValidateString, ValidateCode, SectionsCount, DefOf;
  }

  /** The theorem: everything the host can execute in a prepared archive is a safe program. */
  lemma PreparedImageIsSafe(data: seq<Byte>, data': seq<Byte>, externs: seq<Extern>, slots: nat)
    requires AcceptedAndLinked(data, data', externs, slots)
    ensures DataReadable(data') && (ConstantsCount(data) <= slots ==> SafeImage(ImageOf(data', externs), slots))
  {
    LinkingKeepsSegments(data, data');
    var image := ImageOf(data', externs);
    hide HeaderOf, SectionsCount, ImageOf;
    forall at | at in image.defs && ConstantsCount(data) <= slots
      ensures SafeDef(image, image.defs[at], slots)
    {
      PreparedDefIsSafe(data, data', externs, slots, at);
    }
  }

  // ------------------------------------------------------------------
  // Predictable running time
  // ------------------------------------------------------------------

  /** A def accepted without HAS_BACKBRANCHES only ever branches forward. */
  lemma AcceptedBranchesGoForward(data: seq<Byte>, at: int, slots: nat, p: Program)
    requires DataReadable(data) && Accepted(data, at, slots) && DefFits(data, DefAt(data, at)) && !IsExtern(DefAt(data, at))
    requires !Has(DefAt(data, at).flags, DEFFLAG_HAS_BACKBRANCHES)
    requires CodeWhole(data, DefAt(data, at).code) && p.code == CodeOfBlock(data, DefAt(data, at).code)
    ensures ForwardOnly(p)
  {
    hide HeaderOf, ValidateString, SectionsCount, DefOf, InstructionsVerdict, InstructionsCount, InstructionAt, IsBranchOp;
    var d := DefAt(data, at);
    var first, count := d.code + CODE_HEADER_SIZE, InstructionsCount(data, d.code);
    assert ValidateCode(data, d, d.code, ConstantsCount(data), d.stackCount).Valid?;
    assert !HasSelfBranch(data, first, count) && !HasBackBranch(data, first, count);
    forall k | 0 <= k < |p.code| && IsBranchOp(p.code[k].opcode) ensures Combine(p.code[k].arg2, p.code[k].arg3) > k {
      assert !BranchesTo(InstructionAt(data, first, k), k) && !BranchesBefore(InstructionAt(data, first, k), k);
    }
  }

  lemma PreparedGoesForward(data: seq<Byte>, data': seq<Byte>, externs: seq<Extern>, slots: nat, at: U32, p: Program)
    requires AcceptedAndLinked(data, data', externs, slots) && DataReadable(data') && at in DefsOf(data')
    requires !IsExtern(DefAt(data', at)) && !Has(DefAt(data', at).flags, DEFFLAG_HAS_BACKBRANCHES)
    requires CodeWhole(data', DefAt(data', at).code) && p.code == CodeOfBlock(data', DefAt(data', at).code)
    ensures ForwardOnly(p)
  {
    PreparedDef(data, data', externs, slots, at);
    PreparedCode(data, data', externs, slots, at);
    hide HeaderOf, SectionsCount, DefOf, Accepted, CodeWhole, Linked, Walkable;
    assert DefFits(data, DefAt(data, at));
    AcceptedBranchesGoForward(data, at, slots, p);
  }

  /** So it ends within as many instructions as it has, whatever the stack holds. */
  lemma PredictableExecution(data: seq<Byte>, data': seq<Byte>, externs: seq<Extern>, slots: nat, at: U32, f: Floats, fuel: nat, m: Machine)
    requires AcceptedAndLinked(data, data', externs, slots) && ConstantsCount(data) <= slots == |m.stack|
    requires DataReadable(data') && at in DefsOf(data') && !IsExtern(DefAt(data', at))
    requires !Has(DefAt(data', at).flags, DEFFLAG_HAS_BACKBRANCHES)
    requires CodeWhole(data', DefAt(data', at).code) && fuel >= InstructionsCount(data', DefAt(data', at).code)
    ensures SafeImage(ImageOf(data', externs), slots)
    ensures RunDef(f, ImageOf(data', externs), DefAt(data', at), fuel, m).Done?
  {
    PreparedImageIsSafe(data, data', externs, slots);
    hide AcceptedAndLinked, HeaderOf, SectionsCount, DefOf, CodeWhole, SafeInstr, JumpTable;
    var d := DefAt(data', at);
    var image := ImageOf(data', externs);
    assert SafeDef(image, d, slots);
    PreparedGoesForward(data, data', externs, slots, at, ProgramOf(image, d));
    ForwardRunsEnd(f, ProgramOf(image, d), fuel, m.(curInstr := 0), 0, Ok);
  }

  // ------------------------------------------------------------------
  // The validator itself reads only the archive
  // ------------------------------------------------------------------

  lemma InstructionStaysInside(data: seq<Byte>, def: Def, i: Instruction, constants: nat, rw: nat)
    requires DataReadable(data) && CallFits(data, i) && def.code + CODE_HEADER_SIZE <= HeaderOf(data).code
    ensures ValidateInstruction(data, def, i, constants, rw) != Unreadable
  {
    LayoutsOfOpcodes(i.opcode);
    hide HeaderOf, SectionsCount, DefOf, CallCheck, LayoutOf;
    if i.opcode == EXTCALL {
      CallStaysInside(data, i, constants, rw);
    }
  }

  lemma CallStaysInside(data: seq<Byte>, i: Instruction, constants: nat, rw: nat)
    requires DataReadable(data) && CallFits(data, i) && i.opcode == EXTCALL
    ensures CallCheck(data, i.arg1, i.arg2, i.arg3, constants, rw) != Unreadable
  {
    hide HeaderOf, SectionsCount, DefAt, ValidateDef, Has, Combine, WellSized;
    var target := Combine(i.arg1, i.arg2);
    assert target < 0x1_0000 && Cut(target) == target;
    hide Cut;
    ExternStaysInside(data, Cut(target), constants, rw);
  }

  /** Validating a call's target looks at no code. */
  lemma ExternStaysInside(data: seq<Byte>, at: U16, constants: nat, rw: nat)
    requires DataReadable(data)
    ensures var v := ValidateDef(data, at, constants, rw, true);
      v != Unreadable && (v.Valid? ==> at + DEF_SIZE <= HeaderOf(data).defs)
  {
    hide HeaderOf, SectionsCount, DefOf, ValidateString, ValidateCode, Has;
    StringsStayInside(data);
  }

  lemma {:induction false} InstructionsStayInside(data: seq<Byte>, def: Def, k: nat, constants: nat, rw: nat)
    requires DataReadable(data) && CodeWhole(data, def.code) && k <= InstructionsCount(data, def.code)
    requires forall i :: i in CodeOfBlock(data, def.code) ==> CallFits(data, i)
    ensures InstructionsVerdict(data, def, def.code + CODE_HEADER_SIZE, InstructionsCount(data, def.code), k, constants, rw) != Unreadable
    decreases InstructionsCount(data, def.code) - k
  {
    hide HeaderOf, SectionsCount, DefOf, CallFits, ValidateInstruction, InstructionsCount, InstructionAt;
    if k < InstructionsCount(data, def.code) {
      assert CodeOfBlock(data, def.code)[k] in CodeOfBlock(data, def.code);
      InstructionStaysInside(data, def, InstructionAt(data, def.code + CODE_HEADER_SIZE, k), constants, rw);
      InstructionsStayInside(data, def, k + 1, constants, rw);
    }
  }

  lemma DefStaysInside(data: seq<Byte>, at: U16, constants: nat, rw: nat)
    requires DataReadable(data) && (DefBoundary(HeaderOf(data), at) ==> DefFits(data, DefAt(data, at))) && at % DEF_SIZE == 0
    ensures ValidateDef(data, at, constants, rw, false) != Unreadable
  {
    hide HeaderOf, SectionsCount, DefOf, CallFits, ValidateString, InstructionsCount;
    StringsStayInside(data);
    if DefBoundary(HeaderOf(data), at) && !IsExtern(DefAt(data, at)) && CodeWhole(data, DefAt(data, at).code) {
      var d := DefAt(data, at);
      forall i | i in CodeOfBlock(data, d.code) ensures CallFits(data, i) {
        FittingInstruction(data, d, i);
      }
      InstructionsStayInside(data, DefAt(data, at), 0, constants, DefAt(data, at).stackCount);
    }
  }

  lemma StringsStayInside(data: seq<Byte>)
    requires WellSized(data)
    ensures forall at: U16 :: ValidateString(data, at) != Unreadable
  {
  }

  lemma {:induction false} DefsStayInside(data: seq<Byte>, at: nat, constants: nat, rw: nat)
    requires DataReadable(data) && Fits(data) && at <= HeaderOf(data).defs && at % DEF_SIZE == 0
    ensures DefsVerdict(data, at, constants, rw) != Unreadable
    decreases HeaderOf(data).defs - at
  {
    hide HeaderOf, SectionsCount, DefOf, DefFits, ValidateString, ValidateCode;
    if at < HeaderOf(data).defs {
      DefStaysInside(data, at, constants, rw);
      NextBoundary(HeaderOf(data), at);
      if ValidateDef(data, at, constants, rw, false).Valid? {
        DefsStayInside(data, at + DEF_SIZE, constants, rw);
      }
    }
  }

  lemma {:induction false} StringsVerdictReadable(data: seq<Byte>, at: nat)
    requires WellSized(data) && SegmentsFit(data) && at <= HeaderOf(data).strings
    ensures StringsVerdict(data, at) != Unreadable
    decreases HeaderOf(data).strings - at
  {
    StringsStayInside(data);
    hide HeaderOf, U16At;
    if at < HeaderOf(data).strings && ValidateString(data, at).Valid? {
      StringsVerdictReadable(data, at + ValidateString(data, at).size);
    }
  }

  /** While offsets fit 16 bits, validation reads nothing outside the archive, whatever it holds. */
  lemma ValidationStaysInside(data: seq<Byte>, memorySize: nat)
    requires SegmentsFit(data) && (WellSized(data) ==> Fits(data))
    ensures ArchiveVerdict(data, memorySize) != Unreadable
  {
    hide HeaderOf, SectionsCount, StringsVerdict, DefsVerdict, StackSlots, Size64;
    if WellSized(data) {
      StringsVerdictReadable(data, 0);
      if DataReadable(data) {
        DefsStayInside(data, 0, HeaderOf(data).constants / VALUE_SIZE,
                       Size64(StackSlots(data, memorySize) - HeaderOf(data).constants / VALUE_SIZE));
      }
    }
  }

  /** Forty-four bytes with one section of three words in the last four of them.  The first word
      is the magic. */
  const OVERLONG_WORDS: seq<Word> := [0x544E_4D4C, 0, 0, 0, 0, 16, 0, 1, 12, 3, 0]
  const OVERLONG_SECTION: seq<Byte> := WordBytes(OVERLONG_WORDS)

  lemma OverlongSectionRead()
    ensures var data := OVERLONG_SECTION;
      && |data| == 44 && HeaderOf(data) == Header(0, 0, 0, 16, 0) && data[..5] == MAGIC
      && U32At(data, 28) == 1 && U32At(data, 32) == 12 && U32At(data, 36) == 3
  {
    hide U32At, WordBytes, Bytes32;
    var words := OVERLONG_WORDS;
    forall k | 0 <= k < 11 ensures U32At(WordBytes(words), k * VALUE_SIZE) == words[k] {
      WordReadsBack(words, k);
    }
    assert U32At(WordBytes(words), 2 * VALUE_SIZE) == 0;
    assert U32At(WordBytes(words), 3 * VALUE_SIZE) == 0;
    assert U32At(WordBytes(words), 4 * VALUE_SIZE) == 0;
    assert U32At(WordBytes(words), 5 * VALUE_SIZE) == 16;
    assert U32At(WordBytes(words), 6 * VALUE_SIZE) == 0;
    assert U32At(WordBytes(words), 7 * VALUE_SIZE) == 1;
    assert U32At(WordBytes(words), 8 * VALUE_SIZE) == 12;
    assert U32At(WordBytes(words), 9 * VALUE_SIZE) == 3;
    WordBytesAt(words, 0);
    WordBytesAt(words, 1);
    MagicWords(WordBytes(words));
  }

  lemma MagicWords(data: seq<Byte>)
    requires |data| >= 8 && data[0..4] == Bytes32(0x544E_4D4C) && data[4..8] == Bytes32(0)
    ensures data[..5] == MAGIC
  {
    var first, second := data[0..4], data[4..8];
    assert data[0] == first[0] && data[1] == first[1] && data[2] == first[2] && data[3] == first[3] && data[4] == second[0];
  }

  /** A section's word count is added to its byte offset as it is, so an accepted section may
      run past the archive: the validator alone does not see to SectionsInside. */
  lemma SectionMayPassTheArchive()
    ensures var data := OVERLONG_SECTION;
      && SegmentsFit(data) && ArchiveVerdict(data, 64).Valid? && DataReadable(data) && SectionsCount(data) == 1
      && !SectionsInside(data) && Admits(data, 0, 2) && !Holds(data, 0, 2)
  {
    OverlongSectionRead();
    hide HeaderOf, U32At;
    var data := OVERLONG_SECTION;
    assert ArchiveVerdict(data, 64).Valid?;
    assert SectionSize(data, 0) == 3 && SectionOffset(data, 0) == 12;
  }

  // ------------------------------------------------------------------
  // Preparing an archive
  // ------------------------------------------------------------------

  const LMNT_ERROR_INVALID_ARCHIVE: int := -0x04
  const LMNT_ERROR_MISSING_EXTCALL: int := -0x50
  const LMNT_ERROR_MEMORY_SIZE: int := -0x41

  const MIN_STACK_COUNT: nat := 16

  /** The memory area is large enough to start with, and larger than the archive. */
  predicate Loadable(size: nat, memorySize: nat) {
    memorySize >= MIN_STACK_COUNT * VALUE_SIZE && size < memorySize
  }

  /** lmnt_init and lmnt_load_archive: the archive is copied to the start of the memory area. */
  method LoadArchive(data: seq<Byte>, memorySize: nat) returns (code: int, archive: LmntArchive?)
    ensures code in {0, LMNT_ERROR_MEMORY_SIZE}
    ensures code == 0 <==> Loadable(|data|, memorySize)
    ensures code == 0 <==> archive != null
    ensures archive != null ==>
              fresh(archive) && fresh(archive.data) && archive.data[..] == data && !archive.inplace && !archive.validated
  {
    if memorySize < MIN_STACK_COUNT * VALUE_SIZE {
      return LMNT_ERROR_MEMORY_SIZE, null;
    }
    if |data| >= memorySize {
      return LMNT_ERROR_MEMORY_SIZE, null;
    }
    var copy := new Byte[|data|](k requires 0 <= k < |data| => data[k]);
    archive := new LmntArchive(copy, false);
    assert copy[..] == data;
    code := 0;
  }

  /** lmnt_prepare_archive: validate, place the stack on the constants, link.  A context it
      yields may run: every def it offers is safe. */
  method Prepare(archive: LmntArchive, memorySize: nat, f: Floats, externs: seq<Extern>) returns (code: int, ctx: Ictx?)
    requires SegmentsFit(archive.data[..]) && (WellSized(archive.data[..]) ==> Fits(archive.data[..]))
    requires DataReadable(archive.data[..]) ==> SectionsInside(archive.data[..])
    requires archive.data.Length <= memorySize < 0x1_0000_0000_0000_0000
    requires |externs| < 0x1_0000_0000 && forall e :: e in externs ==> WellBehaved(e)
    modifies archive, archive.data
    ensures code == 0 <==> ctx != null
    ensures code in {0, LMNT_ERROR_INVALID_ARCHIVE, LMNT_ERROR_ACCESS_VIOLATION, LMNT_ERROR_MISSING_EXTCALL}
    ensures code == LMNT_ERROR_INVALID_ARCHIVE <==> !ArchiveVerdict(old(archive.data[..]), memorySize).Valid?
    ensures code == LMNT_ERROR_ACCESS_VIOLATION <==> ArchiveVerdict(old(archive.data[..]), memorySize).Valid? && archive.inplace
    ensures code == LMNT_ERROR_MISSING_EXTCALL <==>
            ArchiveVerdict(old(archive.data[..]), memorySize).Valid? && !archive.inplace && old(MissesExtern(archive.data[..], externs))
    ensures ctx != null ==> ctx.stack.Length == ArchiveVerdict(old(archive.data[..]), memorySize).size
    ensures ctx != null ==>
              && fresh(ctx) && fresh(ctx.stack) && ctx.f == f && ctx.Prepared()
              && DataReadable(archive.data[..]) && ctx.image == ImageOf(archive.data[..], externs)
              && AcceptedAndLinked(old(archive.data[..]), archive.data[..], externs, ctx.stack.Length)
              && (forall k :: 0 <= k < ctx.image.constants ==> ctx.stack[k] == ConstantAt(archive.data[..], k))
              && DataReadable(old(archive.data[..]))
              && (forall s: nat, offset: U32, words: seq<Word> :: SectionHolds(old(archive.data[..]), s, offset, words) ==>
                    SectionIs(ctx.image, s, words))
  {
    ctx := null;
    ghost var was := archive.data[..];
    var v := archive.Validate(memorySize);
    if !v.Valid? {
      return LMNT_ERROR_INVALID_ARCHIVE, null;
    }
    AcceptedArchive(was, memorySize);
    var linked := archive.UpdateDefExtcalls(externs);
    if linked == AccessDenied {
      return LMNT_ERROR_ACCESS_VIOLATION, null;
    }
    if linked == MissingExtcall {
      return LMNT_ERROR_MISSING_EXTCALL, null;
    }
    hide HeaderOf, ArchiveVerdict, Fits, Linked, SafeDef, Accepted, WellBehaved, NamesReadable;
    ghost var data := archive.data[..];
    assert AcceptedAndLinked(was, data, externs, v.size);
    PreparedImageIsSafe(was, data, externs, v.size);
    LinkingKeepsView(was, data);
    var d := archive.data[..];
    var constants := ConstantsCount(d);
    var stack := new Word[v.size](k => if 0 <= k < constants then ConstantAt(d, k) else 0);
    ctx := new Ictx(f, ImageOf(d, externs), stack);
    forall s: nat, offset: U32, words: seq<Word> | SectionHolds(was, s, offset, words) ensures SectionIs(ctx.image, s, words) {
      ImageOffersSection(was, data, externs, s, offset, words);
    }
    code := 0;
  }
}
