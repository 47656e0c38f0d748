/** What the validator accepts, said without its walks: an archive of any number of strings,
    sections and defs is accepted if and only if it is acceptable. */
module Acceptance {
  import opened Bytecode
  import opened Archive
  import opened Validation
  import opened Execution
  import opened Interpreter
  import opened Loading
  import opened Soundness

  // ------------------------------------------------------------------
  // Strings
  // ------------------------------------------------------------------

  /** The size a string's own header gives it. */
  function StringSize(data: seq<Byte>, at: nat): U16
    requires WellSized(data) && at + STRING_HEADER_SIZE <= HeaderOf(data).strings
  {
    U16At(data, StringsAt(HeaderOf(data)) + at)
  }

  /** A string starts here: not empty, inside the segment, a multiple of four bytes with its
      header, and its last byte is a NUL. */
  predicate StringOk(data: seq<Byte>, at: nat)
    requires WellSized(data)
  {
    && at + STRING_HEADER_SIZE <= HeaderOf(data).strings
    && var size := StringSize(data, at);
       && 0 < size && at + STRING_HEADER_SIZE + size <= HeaderOf(data).strings
       && (STRING_HEADER_SIZE + size) % 4 == 0
       && data[StringsAt(HeaderOf(data)) + at + STRING_HEADER_SIZE + size - 1] == 0
  }

  /** From `at` on the segment is strings, one behind the other, and nothing else. */
  predicate Tiles(data: seq<Byte>, at: nat, starts: seq<nat>)
    requires WellSized(data)
  {
    && |starts| > 0 && starts[0] == at && starts[|starts| - 1] == HeaderOf(data).strings
    && forall k :: 0 <= k < |starts| - 1 ==>
         StringOk(data, starts[k]) && starts[k + 1] == starts[k] + STRING_HEADER_SIZE + StringSize(data, starts[k])
  }

  ghost predicate StringsTile(data: seq<Byte>, at: nat)
    requires WellSized(data)
  {
    exists starts :: Tiles(data, at, starts)
  }

  lemma StringAcceptedIff(data: seq<Byte>, at: U16)
    requires WellSized(data) && SegmentsFit(data)
    ensures ValidateString(data, at).Valid? <==> StringOk(data, at)
    ensures StringOk(data, at) ==> ValidateString(data, at).size == STRING_HEADER_SIZE + StringSize(data, at)
  {
    hide HeaderOf, U16At;
  }

  lemma {:induction false} StringsAcceptedIff(data: seq<Byte>, at: nat)
    requires WellSized(data) && SegmentsFit(data) && at <= HeaderOf(data).strings
    ensures StringsVerdict(data, at).Valid? <==> StringsTile(data, at)
    decreases HeaderOf(data).strings - at
  {
    hide HeaderOf, ValidateString, StringOk, StringSize, StringsVerdict;
    if at == HeaderOf(data).strings {
      assert StringsVerdict(data, at) == OK by {
        StringsEnd(data, at);
      }
      assert Tiles(data, at, [at]);
    } else {
      StringStep(data, at);
      StringAcceptedIff(data, at);
      var v := ValidateString(data, at);
      if v.Valid? {
        StringsAcceptedIff(data, at + v.size);
        if StringsTile(data, at + v.size) {
          var rest :| Tiles(data, at + v.size, rest);
          TilesPrepend(data, at, rest);
        }
      }
      if starts :| Tiles(data, at, starts) {
        TilesDrop(data, at, starts);
      }
    }
  }

  lemma StringsEnd(data: seq<Byte>, at: nat)
    requires WellSized(data) && SegmentsFit(data) && at == HeaderOf(data).strings
    ensures StringsVerdict(data, at) == OK
  {
  }

  lemma TilesPrepend(data: seq<Byte>, at: nat, rest: seq<nat>)
    requires WellSized(data) && StringOk(data, at)
    requires Tiles(data, at + STRING_HEADER_SIZE + StringSize(data, at), rest)
    ensures Tiles(data, at, [at] + rest)
  {
    hide HeaderOf, StringSize;
    var starts := [at] + rest;
    forall k | 0 <= k < |starts| - 1
      ensures StringOk(data, starts[k]) && starts[k + 1] == starts[k] + STRING_HEADER_SIZE + StringSize(data, starts[k])
    {
      assert k > 0 ==> starts[k] == rest[k - 1] && starts[k + 1] == rest[k];
    }
  }

  lemma TilesDrop(data: seq<Byte>, at: nat, starts: seq<nat>)
    requires WellSized(data) && Tiles(data, at, starts) && at < HeaderOf(data).strings
    ensures StringOk(data, at) && Tiles(data, at + STRING_HEADER_SIZE + StringSize(data, at), starts[1..])
  {
    hide HeaderOf, StringSize;
    assert |starts| > 1;
    assert StringOk(data, starts[0]) && starts[1] == starts[0] + STRING_HEADER_SIZE + StringSize(data, starts[0]);
    var rest := starts[1..];
    forall k | 0 <= k < |rest| - 1
      ensures StringOk(data, rest[k]) && rest[k + 1] == rest[k] + STRING_HEADER_SIZE + StringSize(data, rest[k])
    {
      assert rest[k] == starts[k + 1] && rest[k + 1] == starts[k + 2];
    }
  }

  // ------------------------------------------------------------------
  // Calls
  // ------------------------------------------------------------------

  /** What a call to this def asks of it, seen from a function of `rw` writable slots. */
  predicate CallableFrom(data: seq<Byte>, d: Def, rw: nat)
    requires DataReadable(data)
  {
    && Has(d.flags, DEFFLAG_EXTERN) && !Has(d.flags, DEFFLAG_INTERFACE)
    && StringOk(data, d.name) && d.stackCount <= rw && d.stackCount == d.argsCount + d.rvalsCount
    && (Has(d.flags, DEFFLAG_HAS_DEFAULT_ARGS) ==> d.defaultArgs < SectionsCount(data))
  }

  /** The target is such a def, its arguments lie in the frame, and its results in the writable
      part of it. */
  predicate CallOk(data: seq<Byte>, target: U32, pos: U16, constants: nat, rw: nat)
    requires DataReadable(data)
  {
    && DefBoundary(HeaderOf(data), target)
    && var d := DefAt(data, target);
       && CallableFrom(data, d, rw)
       && pos + d.argsCount <= constants + rw
       && constants <= pos + d.argsCount && pos + d.argsCount + d.rvalsCount <= constants + rw
  }

  lemma ExternAcceptedIff(data: seq<Byte>, at: U16, constants: nat, rw: nat)
    requires DataReadable(data) && SegmentsFit(data) && at % DEF_SIZE == 0
    requires DefBoundary(HeaderOf(data), at) ==> DefAt(data, at).argsCount + DefAt(data, at).rvalsCount < 0x1_0000
    ensures var v := ValidateDef(data, at, constants, rw, true);
      (v.Valid? <==> DefBoundary(HeaderOf(data), at)
                     && var d := DefAt(data, at);
                        && Has(d.flags, DEFFLAG_EXTERN) && StringOk(data, d.name)
                        && d.stackCount <= rw && d.stackCount == d.argsCount + d.rvalsCount
                        && (Has(d.flags, DEFFLAG_HAS_DEFAULT_ARGS) ==> d.defaultArgs < SectionsCount(data)))
  {
    hide HeaderOf, DefAt, SectionsCount, ValidateString, ValidateCode, StringOk, Has;
    if DefBoundary(HeaderOf(data), at) {
      StringAcceptedIff(data, DefAt(data, at).name);
    }
  }

  lemma CutIs(x: nat)
    requires x < 0x1_0000
    ensures Cut(x) == x
  {
  }

  /** The parts of a fitting call, without the arithmetic. */
  lemma CallParts(data: seq<Byte>, i: Instruction, target: U32)
    requires DataReadable(data) && Fits(data) && CallFits(data, i) && i.opcode == EXTCALL && target == i.arg1 + 0x1_0000 * i.arg2
    ensures SegmentsFit(data) && target == Combine(i.arg1, i.arg2) && target % DEF_SIZE == 0 && target < 0x1_0000 && Cut(target) == target
    ensures DefBoundary(HeaderOf(data), target) <==> target + DEF_SIZE <= HeaderOf(data).defs
    ensures DefBoundary(HeaderOf(data), target) ==>
              var d := DefAt(data, target);
              && d.argsCount + d.rvalsCount < 0x1_0000 && Cut(i.arg3 + d.argsCount) == i.arg3 + d.argsCount
  {
    hide HeaderOf, DefAt, SectionsCount, Cut;
    CutIs(target);
    if DefBoundary(HeaderOf(data), target) {
      assert DefFits(data, DefAt(data, target));
      CutIs(i.arg3 + DefAt(data, target).argsCount);
    }
  }

  /** A call is accepted if and only if it is in order. */
  lemma CallAcceptedIff(data: seq<Byte>, i: Instruction, constants: nat, rw: nat)
    requires DataReadable(data) && Fits(data) && CallFits(data, i) && i.opcode == EXTCALL
    ensures CallCheck(data, i.arg1, i.arg2, i.arg3, constants, rw).Valid? <==>
            CallOk(data, i.arg1 + 0x1_0000 * i.arg2, i.arg3, constants, rw)
  {
    hide HeaderOf, DefAt, SectionsCount, ValidateDef, StringOk, Has, ConstantsCount, Cut, Fits, CallFits, DefBoundary, SegmentsFit;
    var target: U32 := i.arg1 + 0x1_0000 * i.arg2;
    CallParts(data, i, target);
    hide Combine;
    ExternAcceptedIff(data, target, constants, rw);
  }

  // ------------------------------------------------------------------
  // Instructions, code and defs
  // ------------------------------------------------------------------

  /** The def's code next to its frame and the archive's sections, with nothing to call. */
  function DefProgram(data: seq<Byte>, d: Def, constants: nat): Program
    requires DataReadable(data) && CodeWhole(data, d.code)
  {
    Program(CodeOfBlock(data, d.code), constants, constants + d.stackCount, SectionsOf(data), ExtentsOf(data), (_, _) => 0, map[], [])
  }

  /** The instruction keeps to its bounds; a call is in order; INDEXRIS is held to arg2 slots. */
  predicate InstrOk(data: seq<Byte>, d: Def, i: Instruction, constants: nat)
    requires DataReadable(data) && CodeWhole(data, d.code)
  {
    if i.opcode == EXTCALL then CallOk(data, i.arg1 + 0x1_0000 * i.arg2, i.arg3, constants, d.stackCount)
    else if i.opcode == INDEXRIS then
      i.arg1 < constants + d.stackCount && constants <= i.arg3 && i.arg3 + i.arg2 <= constants + d.stackCount
    else SafeInstr(DefProgram(data, d, constants), i)
  }

  /** The code lies in its segment and is no longer than a signed 32-bit size, every instruction is
      in order, none branches to itself, and the flag says whether any branches back. */
  predicate CodeOk(data: seq<Byte>, d: Def, constants: nat)
    requires DataReadable(data)
  {
    && CodeWhole(data, d.code)
    && var code := CodeOfBlock(data, d.code);
       && CODE_HEADER_SIZE + |code| * INSTRUCTION_SIZE < 0x8000_0000
       && (forall k :: 0 <= k < |code| ==> InstrOk(data, d, code[k], constants) && !BranchesTo(code[k], k))
       && (Has(d.flags, DEFFLAG_HAS_BACKBRANCHES) <==> exists k :: 0 <= k < |code| && BranchesBefore(code[k], k))
  }

  predicate DefOk(data: seq<Byte>, d: Def, constants: nat, rw: nat)
    requires DataReadable(data)
  {
    && StringOk(data, d.name) && d.argsCount + d.rvalsCount <= d.stackCount <= rw
    && (Has(d.flags, DEFFLAG_EXTERN) || Has(d.flags, DEFFLAG_INTERFACE) ==> d.stackCount == d.argsCount + d.rvalsCount)
    && (Has(d.flags, DEFFLAG_HAS_DEFAULT_ARGS) ==> d.defaultArgs < SectionsCount(data))
    && (!Has(d.flags, DEFFLAG_EXTERN) ==> CodeOk(data, d, constants))
  }

  lemma RunsAsItsDef(data: seq<Byte>, d: Def, constants: nat)
    requires DataReadable(data) && CodeWhole(data, d.code)
    ensures RunsAs(data, d, constants, d.stackCount, DefProgram(data, d, constants))
  {
    hide HeaderOf, SectionsCount, InstructionsCount;
  }

  lemma PlainAcceptedIff(data: seq<Byte>, d: Def, i: Instruction, constants: nat)
    requires DataReadable(data) && CodeWhole(data, d.code) && i.opcode !in {EXTCALL, INDEXRIS}
    ensures ValidateInstruction(data, d, i, constants, d.stackCount).Valid? <==> SafeInstr(DefProgram(data, d, constants), i)
  {
    hide HeaderOf, SectionsCount, LayoutOf, ShapeOf, RunsAs, InBounds, DataReadable, DefProgram, CodeWhole, ValidateLayout, Describes;
    ValidatorDescribesInterpreter(i.opcode);
    LayoutsOfOpcodes(i.opcode);
    RunsAsItsDef(data, d, constants);
    AcceptedIffInBounds(data, d, LayoutOf(i.opcode), ShapeOf(i.opcode), i, constants, d.stackCount, DefProgram(data, d, constants));
  }

  lemma IndexReadAcceptedIff(data: seq<Byte>, d: Def, i: Instruction, constants: nat)
    requires DataReadable(data) && i.opcode == INDEXRIS
    ensures ValidateInstruction(data, d, i, constants, d.stackCount).Valid? <==>
            i.arg1 < constants + d.stackCount && constants <= i.arg3 && i.arg3 + i.arg2 <= constants + d.stackCount
  {
    hide HeaderOf, SectionsCount;
    assert LayoutOf(i.opcode) == RefImm_S;
    hide LayoutOf;
  }

  lemma CallInstructionAcceptedIff(data: seq<Byte>, d: Def, i: Instruction, constants: nat)
    requires DataReadable(data) && Fits(data) && CallFits(data, i) && i.opcode == EXTCALL
    ensures ValidateInstruction(data, d, i, constants, d.stackCount).Valid? <==>
            CallOk(data, i.arg1 + 0x1_0000 * i.arg2, i.arg3, constants, d.stackCount)
  {
    hide HeaderOf, SectionsCount, CallCheck, CallOk, Fits, CallFits, DataReadable;
    assert LayoutOf(i.opcode) == Layout.Call;
    hide LayoutOf;
    CallAcceptedIff(data, i, constants, d.stackCount);
  }

  lemma InstructionAcceptedIff(data: seq<Byte>, d: Def, i: Instruction, constants: nat)
    requires DataReadable(data) && Fits(data) && CallFits(data, i) && CodeWhole(data, d.code)
    ensures ValidateInstruction(data, d, i, constants, d.stackCount).Valid? <==> InstrOk(data, d, i, constants)
  {
    hide HeaderOf, SectionsCount, ValidateInstruction, SafeInstr, DataReadable, DefProgram, CallOk, Fits, CallFits, CodeWhole;
    if i.opcode == EXTCALL {
      CallInstructionAcceptedIff(data, d, i, constants);
    } else if i.opcode == INDEXRIS {
      IndexReadAcceptedIff(data, d, i, constants);
    } else {
      PlainAcceptedIff(data, d, i, constants);
    }
  }

  lemma CodeAcceptedIff(data: seq<Byte>, d: Def, constants: nat)
    requires DataReadable(data) && Fits(data) && DefFits(data, d) && !Has(d.flags, DEFFLAG_EXTERN)
    ensures ValidateCode(data, d, Cut(d.code), constants, d.stackCount).Valid? <==> CodeOk(data, d, constants)
  {
    hide HeaderOf, InstructionsCount, InstructionAt, ValidateInstruction, InstrOk, InstructionsVerdict, BranchesTo, BranchesBefore, Fits, CallFits, Has;
    if CodeWhole(data, d.code) {
      var code := CodeOfBlock(data, d.code);
      InstructionsAcceptedIff(data, d, d.code + CODE_HEADER_SIZE, |code|, 0, constants, d.stackCount);
      forall k | 0 <= k < |code|
        ensures code[k] == InstructionAt(data, d.code + CODE_HEADER_SIZE, k)
        ensures ValidateInstruction(data, d, code[k], constants, d.stackCount).Valid? <==> InstrOk(data, d, code[k], constants)
      {
        FittingInstruction(data, d, code[k]);
        InstructionAcceptedIff(data, d, code[k], constants);
      }
      BranchesAlike(data, d.code + CODE_HEADER_SIZE, code);
    }
  }

  lemma BranchesAlike(data: seq<Byte>, first: nat, code: seq<Instruction>)
    requires WellSized(data) && |code| < 0x1_0000_0000 && first + |code| * INSTRUCTION_SIZE <= HeaderOf(data).code
    requires forall k :: 0 <= k < |code| ==> first + (k + 1) * INSTRUCTION_SIZE <= HeaderOf(data).code && code[k] == InstructionAt(data, first, k)
    ensures HasSelfBranch(data, first, |code|) <==> exists k :: 0 <= k < |code| && BranchesTo(code[k], k)
    ensures HasBackBranch(data, first, |code|) <==> exists k :: 0 <= k < |code| && BranchesBefore(code[k], k)
  {
    hide InstructionAt, HeaderOf, BranchesTo, BranchesBefore;
    if k :| 0 <= k < |code| && BranchesTo(code[k], k) {
      assert BranchesTo(InstructionAt(data, first, k), k);
    }
    if k :| 0 <= k < |code| && BranchesBefore(code[k], k) {
      assert BranchesBefore(InstructionAt(data, first, k), k);
    }
  }

  lemma DefAcceptedIff(data: seq<Byte>, at: U16, constants: nat, rw: nat)
    requires DataReadable(data) && Fits(data) && DefBoundary(HeaderOf(data), at)
    ensures ValidateDef(data, at, constants, rw, false).Valid? <==> DefOk(data, DefAt(data, at), constants, rw)
  {
    hide HeaderOf, DefAt, SectionsCount, ValidateString, ValidateCode, StringOk, CodeOk, Has, DefFits, Fits;
    var d := DefAt(data, at);
    InoutsFit(data, at);
    StringAcceptedIff(data, d.name);
    if !Has(d.flags, DEFFLAG_EXTERN) {
      CodeAcceptedIff(data, d, constants);
    }
  }

  lemma InoutsFit(data: seq<Byte>, at: U16)
    requires WellSized(data) && Fits(data) && DefBoundary(HeaderOf(data), at)
    ensures SegmentsFit(data) && DefFits(data, DefAt(data, at)) && DefAt(data, at).argsCount + DefAt(data, at).rvalsCount < 0x1_0000
  {
  }

  lemma {:induction false} DefsAcceptedIff(data: seq<Byte>, at: nat, constants: nat, rw: nat)
    requires DataReadable(data) && Fits(data) && at <= HeaderOf(data).defs && at % DEF_SIZE == 0
    ensures DefsVerdict(data, at, constants, rw).Valid? <==>
            && HeaderOf(data).defs % DEF_SIZE == 0
            && forall k :: DefBoundary(HeaderOf(data), k) && k >= at ==> DefOk(data, DefAt(data, k), constants, rw)
    decreases HeaderOf(data).defs - at
  {
    hide HeaderOf, SectionsCount, DefAt, ValidateDef, DefOk;
    if at < HeaderOf(data).defs {
      DefStep(data, at, constants, rw);
      NextBoundary(HeaderOf(data), at);
      if DefBoundary(HeaderOf(data), at) {
        DefAcceptedIff(data, at, constants, rw);
        DefsAcceptedIff(data, at + DEF_SIZE, constants, rw);
        assert forall k :: DefBoundary(HeaderOf(data), k) && k >= at && k != at ==> k >= at + DEF_SIZE;
      }
    }
  }

  // ------------------------------------------------------------------
  // Whole archives
  // ------------------------------------------------------------------

  /** The section table and the sections lie in the data segment, by the validator's measure of a
      section: its offset and its count of words. */
  predicate SectionsOk(data: seq<Byte>)
    requires WellSized(data)
  {
    && DataReadable(data)
    && forall s :: 0 <= s < SectionsCount(data) ==>
         && DATA_HEADER_SIZE + DATA_SECTION_SIZE * SectionsCount(data) <= SectionOffset(data, s)
         && SectionOffset(data, s) + SectionSize(data, s) < HeaderOf(data).data
  }

  lemma SectionsAcceptedIff(data: seq<Byte>)
    requires DataReadable(data)
    ensures SectionsVerdict(data) == if SectionsOk(data) then OK else Invalid(DataSize)
  {
    hide HeaderOf, SectionsCount, SectionOffset, SectionSize;
    forall s | 0 <= s < SectionsCount(data)
      ensures SectionPlaced(data, s) <==>
              && DATA_HEADER_SIZE + DATA_SECTION_SIZE * SectionsCount(data) <= SectionOffset(data, s)
              && SectionOffset(data, s) + SectionSize(data, s) < HeaderOf(data).data
    {
    }
  }

  /** An archive in order, for a memory area of this size. */
  ghost predicate Acceptable(data: seq<Byte>, memorySize: nat)
    requires |data| <= memorySize
  {
    && |data| >= HEADER_SIZE && data[..5] == [0x4C, 0x4D, 0x4E, 0x54, 0] && WellSized(data)
    && var h := HeaderOf(data);
       && h.strings % 4 == 0 && h.defs % 16 == 0 && h.code % 4 == 0 && h.data % 4 == 0 && h.constants % 4 == 0
       && StringsTile(data, 0) && SectionsOk(data)
       && var (constants, slots) := (h.constants / 4, (memorySize - ConstantsAt(h)) / 4);
          constants <= slots && forall at :: DefBoundary(h, at) ==> DefOk(data, DefAt(data, at), constants, slots - constants)
  }

  /** The theorem: fitting archives are accepted if and only if they are in order, and what they
      leave of the memory area is reported in slots. */
  lemma AcceptedIff(data: seq<Byte>, memorySize: nat)
    requires SegmentsFit(data) && (WellSized(data) ==> Fits(data))
    requires |data| <= memorySize < 0x1_0000_0000_0000_0000
    ensures ArchiveVerdict(data, memorySize).Valid? <==> Acceptable(data, memorySize)
    ensures Acceptable(data, memorySize) ==> ArchiveVerdict(data, memorySize).size == (memorySize - ConstantsAt(HeaderOf(data))) / 4
  {
    hide HeaderOf, SectionsCount, StringsVerdict, DefsVerdict, StringsTile, DefOk, DefAt, SectionOffset, SectionSize, Fits, StackSlots, Size64,
      ConstantsAt, SectionsVerdict, SegmentsFit, DefBoundary;
    assert MAGIC == [0x4C, 0x4D, 0x4E, 0x54, 0];
    if WellSized(data) {
      StringsAcceptedIff(data, 0);
      SlotsOf(data, memorySize);
      if DataReadable(data) {
        SectionsAcceptedIff(data);
        AllDefsAcceptedIff(data, HeaderOf(data).constants / VALUE_SIZE,
                           Size64(StackSlots(data, memorySize) - HeaderOf(data).constants / VALUE_SIZE));
      }
    }
  }

  lemma AllDefsAcceptedIff(data: seq<Byte>, constants: nat, rw: nat)
    requires DataReadable(data) && Fits(data)
    ensures SegmentsFit(data)
    ensures DefsVerdict(data, 0, constants, rw).Valid? <==>
            HeaderOf(data).defs % 16 == 0 && forall at :: DefBoundary(HeaderOf(data), at) ==> DefOk(data, DefAt(data, at), constants, rw)
    ensures HeaderOf(data).defs % 16 == 0 ==> HeaderOf(data).defs % 4 == 0
  {
    hide HeaderOf, SectionsCount, DefsVerdict, DefOk, DefAt;
    DefsAcceptedIff(data, 0, constants, rw);
  }

  lemma SlotsOf(data: seq<Byte>, memorySize: nat)
    requires WellSized(data) && |data| <= memorySize < 0x1_0000_0000_0000_0000
    ensures var (constants, slots) := (HeaderOf(data).constants / 4, (memorySize - ConstantsAt(HeaderOf(data))) / 4);
      constants <= slots && StackSlots(data, memorySize) == slots && Size64(slots - constants) == slots - constants
  {
    hide HeaderOf;
  }

  // ------------------------------------------------------------------
  // What is said of the ones refused
  // ------------------------------------------------------------------

  /** The complaints about the archive as a whole come in this order. */
  lemma FirstComplaint(data: seq<Byte>, memorySize: nat)
    requires SegmentsFit(data)
    ensures var v := ArchiveVerdict(data, memorySize);
      if |data| < HEADER_SIZE || data[..5] != [0x4C, 0x4D, 0x4E, 0x54, 0] then v == Invalid(HeaderMagic)
      else if !WellSized(data) then v == Invalid(SegmentsSize)
      else if || HeaderOf(data).strings % 4 != 0 || HeaderOf(data).defs % 4 != 0 || HeaderOf(data).code % 4 != 0
              || HeaderOf(data).data % 4 != 0 || HeaderOf(data).constants % 4 != 0 then v == Invalid(SegmentsAlign)
      else if !StringsTile(data, 0) then !v.Valid? && v == StringsVerdict(data, 0)
      else if !DataReadable(data) then v == Invalid(DataHeader)
      else if !SectionsOk(data) then v == Invalid(DataSize)
      else true
  {
    hide HeaderOf, SectionsCount, StringsVerdict, DefsVerdict, StringsTile, SectionsOk, SectionOffset, SectionSize;
    assert MAGIC == [0x4C, 0x4D, 0x4E, 0x54, 0];
    if WellSized(data) {
      StringsAcceptedIff(data, 0);
      if DataReadable(data) {
        SectionsAcceptedIff(data);
      }
    }
  }

  /** A string's: its header, its size, its alignment and its last byte, in this order. */
  lemma StringErrors(data: seq<Byte>, at: U16)
    requires WellSized(data) && SegmentsFit(data)
    ensures ValidateString(data, at) ==
            if at + STRING_HEADER_SIZE > HeaderOf(data).strings then Invalid(StringHeader)
            else
              var size := StringSize(data, at);
              if size == 0 || at + STRING_HEADER_SIZE + size > HeaderOf(data).strings then Invalid(VError.StringSize)
              else if (STRING_HEADER_SIZE + size) % 4 != 0 then Invalid(StringAlign)
              else if data[StringsAt(HeaderOf(data)) + at + STRING_HEADER_SIZE + size - 1] != 0 then Invalid(StringData)
              else Valid(STRING_HEADER_SIZE + size)
  {
    hide HeaderOf, U16At;
  }

  /** A callee is judged as a def is, and besides refused for its flags if it is no extern. */
  lemma ExternErrors(data: seq<Byte>, at: U16, constants: nat, rw: nat)
    requires DataReadable(data)
    ensures var (v, w) := (ValidateDef(data, at, constants, rw, true), ValidateDef(data, at, constants, rw, false));
      if at + DEF_SIZE <= HeaderOf(data).defs && !Has(DefAt(data, at).flags, DEFFLAG_EXTERN)
      then v == Invalid(DefFlags) || (!v.Valid? && v == w)
      else v == w
  {
    hide HeaderOf, DefAt, SectionsCount, ValidateString, ValidateCode, Has;
  }

  /** A call's: its callee's, with the low half of the target alone; its being out of reach at the
      whole target; its being an interface; its windows. */
  lemma CallErrors(data: seq<Byte>, i: Instruction, constants: nat, rw: nat)
    requires DataReadable(data)
    ensures var (v, callee) := (CallCheck(data, i.arg1, i.arg2, i.arg3, constants, rw), ValidateDef(data, i.arg1, constants, rw, true));
      var target: U32 := i.arg1 + 0x1_0000 * i.arg2;
      if !callee.Valid? then v == callee
      else if target + DEF_SIZE > HeaderOf(data).defs then v == Unreadable
      else if DefAt(data, target).flags % 2 == 1 then v == Invalid(DefFlags)
      else v in {OK, Invalid(AccessViolation)}
  {
    hide HeaderOf, DefAt, SectionsCount, ValidateDef;
    assert Cut(Combine(i.arg1, i.arg2)) == i.arg1;
  }

  /** An instruction other than a call is refused as unknown if it is, and as a violation
      otherwise. */
  lemma InstructionErrors(data: seq<Byte>, d: Def, i: Instruction, constants: nat, rw: nat)
    requires DataReadable(data) && d.code + CODE_HEADER_SIZE <= HeaderOf(data).code && i.opcode != EXTCALL
    ensures var v := ValidateInstruction(data, d, i, constants, rw);
      v == OK || v == Invalid(if i.opcode >= END then BadInstruction else AccessViolation)
  {
    hide HeaderOf, SectionsCount, SectionSize, InstructionsCount;
    LayoutsOfOpcodes(i.opcode);
    assert LayoutOf(i.opcode) == UnknownOpcode <==> i.opcode >= END;
    hide LayoutOf;
  }
}
