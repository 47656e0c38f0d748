/** The compile command's archive writer against the reader: the bytes it writes read back
    as exactly what went in, and the validator accepts them just when the code is in bounds. */
module CompileCommand {
  import opened Bytecode
  import opened Archive
  import opened Validation
  import opened Execution
  import opened Instructions
  import opened Dispatch
  import opened Interpreter
  import opened Loading
  import opened Soundness

  /** What a compiled function consists of.  The name is a C string. */
  datatype Compiled = Compiled(
    name: seq<Byte>, argsCount: U16, rvalsCount: U16, stackCount: U16,
    constants: seq<Word>, code: seq<Instruction>, flags: U16)

  function RoundUp(n: nat, d: nat): nat
    requires d > 0
  {
    n + (d - n % d)
  }

  function PaddedName(c: Compiled): (r: nat)
    ensures |c.name| + 2 <= r <= |c.name| + 5 && (STRING_HEADER_SIZE + r) % 4 == 0
  {
    RoundUp(0x02 + |c.name| + 1, 4) - 2
  }

  /** The source's assertions, and that the name is a C string. */
  predicate Writable(c: Compiled) {
    && 0 !in c.name
    && PaddedName(c) <= 0xFD
    && |c.code| <= 0x3FFF_FFF0
    && |c.constants| <= 0x3FFF_FFFF
  }

  // ------------------------------------------------------------------
  // The archive as a sequence of bytes
  // ------------------------------------------------------------------

  function Zeros(n: nat): (r: seq<Byte>)
    ensures |r| == n && forall k :: 0 <= k < n ==> r[k] == 0
  {
    seq<Byte>(n, _ => 0)
  }

  function StringsLength(c: Compiled): nat { STRING_HEADER_SIZE + PaddedName(c) }
  function CodeLength(c: Compiled): nat { CODE_HEADER_SIZE + |c.code| * INSTRUCTION_SIZE }
  function ConstantsLength(c: Compiled): nat { |c.constants| * VALUE_SIZE }

  /** Only the low four bytes of a length are written. */
  function Low32(n: nat): U32 {
    n % 0x1_0000_0000
  }

  function HeaderBytes(c: Compiled): (r: seq<Byte>)
    ensures |r| == HEADER_SIZE
  {
    [0x4C, 0x4D, 0x4E, 0x54] + Zeros(4) + Bytes32(Low32(StringsLength(c))) + Bytes32(DEF_SIZE) + Bytes32(Low32(CodeLength(c)))
      + Bytes32(DATA_HEADER_SIZE) + Bytes32(Low32(ConstantsLength(c)))
  }

  /** Only the low byte of the padded length is written; its high byte is left zero. */
  function StringBytes(c: Compiled): (r: seq<Byte>)
    ensures |r| == StringsLength(c)
  {
    [PaddedName(c) % 0x100, 0] + c.name + Zeros(PaddedName(c) - |c.name|)
  }

  function DefBytes(c: Compiled): (r: seq<Byte>)
    ensures |r| == DEF_SIZE
  {
    Zeros(2) + Bytes16(c.flags) + Zeros(4) + Bytes16(c.stackCount) + Bytes16(c.argsCount) + Bytes16(c.rvalsCount) + Zeros(2)
  }

  function BlockBytes(c: Compiled): (r: seq<Byte>)
    requires Writable(c)
    ensures |r| == CodeLength(c)
  {
    Bytes32(|c.code|) + CodeBytes(c.code)
  }

  function ArchiveBytes(c: Compiled): (r: seq<Byte>)
    requires Writable(c)
    ensures |r| == HEADER_SIZE + StringsLength(c) + DEF_SIZE + CodeLength(c) + DATA_HEADER_SIZE + ConstantsLength(c)
  {
    HeaderBytes(c) + StringBytes(c) + DefBytes(c) + BlockBytes(c) + Zeros(DATA_HEADER_SIZE) + WordBytes(c.constants)
  }

  // ------------------------------------------------------------------
  // Writing it
  // ------------------------------------------------------------------

  /** The first `idx` bytes are done and the rest are as `resize` left them. */
  ghost predicate Written(buf: array<Byte>, idx: nat, done: seq<Byte>)
    reads buf
  {
    && idx == |done| <= buf.Length && buf[..idx] == done
    && forall k :: idx <= k < buf.Length ==> buf[k] == 0
  }

  method Memcpy(buf: array<Byte>, idx: nat, src: seq<Byte>)
    requires idx + |src| <= buf.Length
    modifies buf
    ensures forall k :: 0 <= k < buf.Length ==> buf[k] == if idx <= k < idx + |src| then src[k - idx] else old(buf[k])
  {
    for k := 0 to |src|
      invariant forall j :: 0 <= j < buf.Length ==> buf[j] == if idx <= j < idx + k then src[j - idx] else old(buf[j])
    {
      buf[idx + k] := src[k];
    }
  }

  /** Copying at the running index appends to what is written. */
  method Append(buf: array<Byte>, idx: nat, src: seq<Byte>, ghost done: seq<Byte>) returns (next: nat)
    requires Written(buf, idx, done) && idx + |src| <= buf.Length
    modifies buf
    ensures next == idx + |src| && Written(buf, next, done + src)
  {
    Memcpy(buf, idx, src);
    next := idx + |src|;
    assert buf[..next] == done + src;
  }

  /** The size byte, one byte left alone, the name and its padding. */
  method AppendName(buf: array<Byte>, start: nat, c: Compiled, ghost done: seq<Byte>) returns (idx: nat)
    requires Written(buf, start, done) && start + StringsLength(c) <= buf.Length
    modifies buf
    ensures idx == start + StringsLength(c) && Written(buf, idx, done + StringBytes(c))
  {
    idx := start;
    buf[idx] := PaddedName(c) % 0x100;
    idx := idx + 2;
    ghost var sized := done + [PaddedName(c) % 0x100, 0];
    assert buf[..idx] == sized;
    idx := Append(buf, idx, c.name, sized);
    ghost var named := sized + c.name;
    var i := |c.name|;
    while i < PaddedName(c)
      invariant |c.name| <= i <= PaddedName(c) && idx == start + 2 + i
      invariant Written(buf, idx, named + Zeros(i - |c.name|))
    {
      buf[idx] := 0;
      idx := idx + 1;
      i := i + 1;
      assert buf[..idx] == named + Zeros(i - |c.name|);
    }
    assert named + Zeros(PaddedName(c) - |c.name|) == done + StringBytes(c);
  }

  method CreateArchive(c: Compiled) returns (buf: array<Byte>)
    requires Writable(c)
    ensures fresh(buf) && buf[..] == ArchiveBytes(c)
  {
    hide HeaderBytes, DefBytes, StringBytes, CodeBytes, WordBytes, PaddedName, ArchiveBytes, Written;
    var total := HEADER_SIZE + StringsLength(c) + DEF_SIZE + CodeLength(c) + DATA_HEADER_SIZE + ConstantsLength(c);
    buf := NewBuffer(total);
    var idx := Append(buf, 0, HeaderBytes(c), []);
    ghost var done := [] + HeaderBytes(c);
    idx := AppendName(buf, idx, c, done);
    done := done + StringBytes(c);
    idx := Append(buf, idx, DefBytes(c), done);
    done := done + DefBytes(c);
    idx := Append(buf, idx, Bytes32(|c.code|), done);
    done := done + Bytes32(|c.code|);
    idx := Append(buf, idx, CodeBytes(c.code), done);
    done := done + CodeBytes(c.code);
    idx := Append(buf, idx, Zeros(DATA_HEADER_SIZE), done);
    done := done + Zeros(DATA_HEADER_SIZE);
    idx := Append(buf, idx, WordBytes(c.constants), done);
    AllWritten(buf, done + WordBytes(c.constants));
    InOrder(c);
  }

  method NewBuffer(total: nat) returns (buf: array<Byte>)
    ensures fresh(buf) && buf.Length == total && Written(buf, 0, [])
  {
    buf := new Byte[total](_ => 0);
  }

  lemma AllWritten(buf: array<Byte>, done: seq<Byte>)
    requires Written(buf, buf.Length, done)
    ensures buf[..] == done
  {
    assert buf[..] == buf[..buf.Length];
  }

  lemma InOrder(c: Compiled)
    requires Writable(c)
    ensures [] + HeaderBytes(c) + StringBytes(c) + DefBytes(c) + Bytes32(|c.code|) + CodeBytes(c.code) + Zeros(DATA_HEADER_SIZE)
              + WordBytes(c.constants) == ArchiveBytes(c)
  {
    hide HeaderBytes, DefBytes, StringBytes, CodeBytes, WordBytes, PaddedName, Bytes32;
    assert [] + HeaderBytes(c) == HeaderBytes(c);
    var before := HeaderBytes(c) + StringBytes(c) + DefBytes(c);
    assert before + Bytes32(|c.code|) + CodeBytes(c.code) == before + BlockBytes(c);
  }

  // ------------------------------------------------------------------
  // Reading it back
  // ------------------------------------------------------------------

  /** Where the reader finds the segments. */
  function DefStart(c: Compiled): nat { HEADER_SIZE + StringsLength(c) }
  function CodeStart(c: Compiled): nat { DefStart(c) + DEF_SIZE }
  function DataStart(c: Compiled): nat { CodeStart(c) + CodeLength(c) }
  function ConstantsStart(c: Compiled): nat { DataStart(c) + DATA_HEADER_SIZE }

  lemma Segments(c: Compiled)
    requires Writable(c)
    ensures var b := ArchiveBytes(c);
      && b[..HEADER_SIZE] == HeaderBytes(c)
      && b[HEADER_SIZE..DefStart(c)] == StringBytes(c)
      && b[DefStart(c)..CodeStart(c)] == DefBytes(c)
      && b[CodeStart(c)..DataStart(c)] == BlockBytes(c)
      && b[DataStart(c)..ConstantsStart(c)] == Zeros(DATA_HEADER_SIZE)
      && b[ConstantsStart(c)..] == WordBytes(c.constants)
  {
    hide HeaderBytes, DefBytes, StringBytes, BlockBytes, WordBytes, PaddedName;
  }

  lemma HeaderPieces(c: Compiled)
    ensures var h := HeaderBytes(c);
      && h[..5] == MAGIC
      && h[8..12] == Bytes32(Low32(StringsLength(c))) && h[12..16] == Bytes32(DEF_SIZE)
      && h[16..20] == Bytes32(Low32(CodeLength(c))) && h[20..24] == Bytes32(DATA_HEADER_SIZE)
      && h[24..28] == Bytes32(Low32(ConstantsLength(c)))
  {
    hide Bytes32, PaddedName;
  }

  lemma LengthsFit(c: Compiled)
    requires Writable(c)
    ensures Low32(StringsLength(c)) == StringsLength(c) <= 0xFF && Low32(ConstantsLength(c)) == ConstantsLength(c)
    ensures Low32(CodeLength(c)) == CodeLength(c) <==> CodeLength(c) < 0x1_0000_0000
  {
    hide PaddedName;
  }

  lemma HeaderReadsBack(c: Compiled)
    requires Writable(c)
    ensures HeaderOf(ArchiveBytes(c)) == Header(StringsLength(c), DEF_SIZE, Low32(CodeLength(c)), DATA_HEADER_SIZE, ConstantsLength(c))
    ensures ArchiveBytes(c)[..5] == MAGIC
  {
    var b := ArchiveBytes(c);
    Segments(c);
    HeaderPieces(c);
    LengthsFit(c);
    hide ArchiveBytes, HeaderBytes, Bytes32, Low32, StringsLength, CodeLength, ConstantsLength, Writable, U32At;
    SliceOfSlice(b, 0, HEADER_SIZE, 0, 5);
    SliceOfSlice(b, 0, HEADER_SIZE, 8, 12);
    SliceOfSlice(b, 0, HEADER_SIZE, 12, 16);
    SliceOfSlice(b, 0, HEADER_SIZE, 16, 20);
    SliceOfSlice(b, 0, HEADER_SIZE, 20, 24);
    SliceOfSlice(b, 0, HEADER_SIZE, 24, 28);
    Bytes32RoundTrip(b, 8, StringsLength(c));
    Bytes32RoundTrip(b, 12, DEF_SIZE);
    Bytes32RoundTrip(b, 16, Low32(CodeLength(c)));
    Bytes32RoundTrip(b, 20, DATA_HEADER_SIZE);
    Bytes32RoundTrip(b, 24, ConstantsLength(c));
  }

  /** The assertions let through more instructions than a 32-bit length can count: what is
      written is well sized exactly when the code segment's length fits. */
  lemma WellSizedIff(c: Compiled)
    requires Writable(c)
    ensures WellSized(ArchiveBytes(c)) <==> CodeLength(c) < 0x1_0000_0000
  {
    HeaderReadsBack(c);
    LengthsFit(c);
    hide ArchiveBytes, HeaderOf, PaddedName, Low32, CodeLength, Writable, ConstantsLength;
  }

  predicate Sized(c: Compiled) {
    Writable(c) && CodeLength(c) < 0x1_0000_0000
  }

  lemma SegmentsReadBack(c: Compiled)
    requires Sized(c)
    ensures var (b, h) := (ArchiveBytes(c), HeaderOf(ArchiveBytes(c)));
      && WellSized(b) && SegmentsFit(b)
      && h.strings == StringsLength(c) && h.defs == DEF_SIZE && h.code == CodeLength(c)
      && h.data == DATA_HEADER_SIZE && h.constants == ConstantsLength(c)
      && DefsAt(h) == DefStart(c) && CodeAt(h) == CodeStart(c) && DataAt(h) == DataStart(c) && ConstantsAt(h) == ConstantsStart(c)
  {
    HeaderReadsBack(c);
    WellSizedIff(c);
    LengthsFit(c);
    hide ArchiveBytes, HeaderOf, PaddedName;
  }

  lemma NamePieces(c: Compiled)
    requires Writable(c)
    ensures var s := StringBytes(c);
      && s[0] == PaddedName(c) && s[1] == 0
      && s[2..2 + |c.name|] == c.name && s[2 + |c.name|] == 0 && s[|s| - 1] == 0
  {
    hide RoundUp;
  }

  lemma NameReadsBack(c: Compiled)
    requires Sized(c)
    ensures var b := ArchiveBytes(c);
      WellSized(b) && NameEnds(b, 0) && NameAt(b, 0) == c.name
  {
    SegmentsReadBack(c);
    Segments(c);
    NamePieces(c);
    var b, s := ArchiveBytes(c), StringBytes(c);
    var at := HEADER_SIZE + STRING_HEADER_SIZE;
    hide ArchiveBytes, HeaderOf, CString, RoundUp, StringBytes, PaddedName, CodeLength;
    assert b[at..at + |c.name|] == c.name by {
      SliceOfSlice(b, HEADER_SIZE, DefStart(c), 2, 2 + |c.name|);
    }
    assert b[at + |c.name|] == b[HEADER_SIZE..DefStart(c)][2 + |c.name|];
    CStringIs(b, at, c.name);
  }

  lemma NameAccepted(c: Compiled)
    requires Sized(c)
    ensures WellSized(ArchiveBytes(c)) && ValidateString(ArchiveBytes(c), 0) == Valid(StringsLength(c))
  {
    SegmentsReadBack(c);
    Segments(c);
    NamePieces(c);
    LengthsFit(c);
    var b, s := ArchiveBytes(c), StringBytes(c);
    hide ArchiveBytes, HeaderOf, RoundUp, StringBytes, CodeLength;
    var t := b[HEADER_SIZE..DefStart(c)];
    assert b[HEADER_SIZE] == t[0] && b[HEADER_SIZE + 1] == t[1] && b[DefStart(c) - 1] == t[|t| - 1];
    assert U16At(b, HEADER_SIZE) == PaddedName(c);
    hide U16At, PaddedName;
  }

  function WrittenDef(c: Compiled): Def {
    Def(0, c.flags, 0, c.stackCount, c.argsCount, c.rvalsCount, 0)
  }

  lemma DefBytesAreWritten(c: Compiled)
    ensures DefBytes(c) == BytesOfDef(WrittenDef(c))
  {
    assert Zeros(2) == Bytes16(0) && Zeros(4) == Bytes32(0);
  }

  lemma DefReadsBack(c: Compiled)
    requires Sized(c)
    ensures WellSized(ArchiveBytes(c)) && DEF_SIZE <= HeaderOf(ArchiveBytes(c)).defs
    ensures DefAt(ArchiveBytes(c), 0) == WrittenDef(c)
  {
    SegmentsReadBack(c);
    Segments(c);
    hide ArchiveBytes, HeaderOf, DefBytes, BytesOfDef, DefOf, StringsLength;
    DefBytesAreWritten(c);
    DefReadsAnywhere(ArchiveBytes(c), DefStart(c), WrittenDef(c));
  }

  lemma CountReadsBack(c: Compiled)
    requires Sized(c)
    ensures WellSized(ArchiveBytes(c)) && CODE_HEADER_SIZE <= HeaderOf(ArchiveBytes(c)).code
    ensures InstructionsCount(ArchiveBytes(c), 0) == |c.code|
  {
    SegmentsReadBack(c);
    Segments(c);
    var b, at := ArchiveBytes(c), CodeStart(c);
    assert BlockBytes(c)[..4] == Bytes32(|c.code|);
    hide ArchiveBytes, HeaderOf, BlockBytes, Bytes32, U32At, StringsLength;
    SliceOfSlice(b, at, DataStart(c), 0, 4);
    Bytes32RoundTrip(b, at, |c.code|);
  }

  lemma CodeReadsBack(c: Compiled)
    requires Sized(c)
    ensures WellSized(ArchiveBytes(c)) && CodeWhole(ArchiveBytes(c), 0) && CodeOfBlock(ArchiveBytes(c), 0) == c.code
  {
    SegmentsReadBack(c);
    CountReadsBack(c);
    Segments(c);
    var b, at := ArchiveBytes(c), CodeStart(c);
    assert BlockBytes(c)[4..] == CodeBytes(c.code);
    hide ArchiveBytes, HeaderOf, BlockBytes, StringsLength, InstructionsCount, InstructionOf, CodeBytes, InstructionBytes, Writable;
    SliceOfSlice(b, at, DataStart(c), 4, CodeLength(c));
    forall k | 0 <= k < |c.code| ensures CodeOfBlock(b, 0)[k] == c.code[k] {
      CodeBytesReadBack(b, at + 4, c.code, k);
    }
  }

  lemma ConstantsReadBack(c: Compiled)
    requires Sized(c)
    ensures WellSized(ArchiveBytes(c)) && ConstantsCount(ArchiveBytes(c)) == |c.constants|
    ensures forall k :: 0 <= k < |c.constants| ==> ConstantAt(ArchiveBytes(c), k) == c.constants[k]
    ensures DataReadable(ArchiveBytes(c)) && SectionsCount(ArchiveBytes(c)) == 0
  {
    SegmentsReadBack(c);
    Segments(c);
    var b, at := ArchiveBytes(c), ConstantsStart(c);
    hide ArchiveBytes, HeaderOf, StringsLength, CodeLength, WordBytes, U32At, Writable, Bytes32;
    forall k | 0 <= k < |c.constants| ensures ConstantAt(b, k) == c.constants[k] {
      WordBytesAt(c.constants, k);
      SliceOfSlice(b, at, |b|, k * VALUE_SIZE, k * VALUE_SIZE + VALUE_SIZE);
      Bytes32RoundTrip(b, at + k * VALUE_SIZE, c.constants[k]);
    }
    NoSections(b, DataStart(c));
  }

  lemma NoSections(b: seq<Byte>, at: nat)
    requires at + 4 <= |b| && b[at..at + 4] == Zeros(4)
    ensures U32At(b, at) == 0
  {
    assert Zeros(4) == Bytes32(0);
    Bytes32RoundTrip(b, at, 0);
  }

  /** The round trip: name, counts, flags, code and constants all come back. */
  function ReadBack(b: seq<Byte>): Compiled
    requires WellSized(b) && DEF_SIZE <= HeaderOf(b).defs
    requires StringsAt(HeaderOf(b)) + DefAt(b, 0).name + STRING_HEADER_SIZE <= |b| && CodeWhole(b, DefAt(b, 0).code)
  {
    var d := DefAt(b, 0);
    Compiled(NameAt(b, d.name), d.argsCount, d.rvalsCount, d.stackCount,
             seq(ConstantsCount(b), k requires 0 <= k < ConstantsCount(b) => ConstantAt(b, k)), CodeOfBlock(b, d.code), d.flags)
  }

  lemma RoundTrip(c: Compiled)
    requires Sized(c)
    ensures var b := ArchiveBytes(c);
      && WellSized(b) && DEF_SIZE <= HeaderOf(b).defs
      && StringsAt(HeaderOf(b)) + DefAt(b, 0).name + STRING_HEADER_SIZE <= |b| && CodeWhole(b, DefAt(b, 0).code)
      && ReadBack(b) == c
  {
    SegmentsReadBack(c);
    DefReadsBack(c);
    NameReadsBack(c);
    CodeReadsBack(c);
    ConstantsReadBack(c);
    hide ArchiveBytes, HeaderOf, DefAt, CodeWhole, ConstantAt, NameAt, Writable, CodeLength, StringsLength;
    var r := ReadBack(ArchiveBytes(c));
    assert r.constants == c.constants;
  }

  /** The one def is found by its name and by no other. */
  lemma FoundByName(c: Compiled, name: seq<Byte>, at: int)
    requires Sized(c)
    ensures Walkable(ArchiveBytes(c))
    ensures FirstNamed(ArchiveBytes(c), name, at) <==> at == 0 && name == c.name
  {
    SegmentsReadBack(c);
    DefReadsBack(c);
    NameReadsBack(c);
    hide ArchiveBytes, HeaderOf, DefAt, NameAt, Writable, StringsLength, CodeLength, NameEnds;
    var b := ArchiveBytes(c);
    assert forall k :: DefBoundary(HeaderOf(b), k) <==> k == 0;
  }

  // ------------------------------------------------------------------
  // Accepted exactly when
  // ------------------------------------------------------------------

  /** The written function as a program: no data, nothing to call. */
  function CompiledProgram(c: Compiled): Program {
    Program(c.code, |c.constants|, |c.constants| + c.stackCount, [], [], (_, _) => 0, map[], [])
  }

  /** In bounds; calls have no extern to reach, and INDEXRIS is held to `arg2` slots. */
  predicate AcceptableInstr(p: Program, i: Instruction) {
    if i.opcode == EXTCALL then false
    else if i.opcode == INDEXRIS then MayRead(p, i.arg1, 1) && MayWrite(p, i.arg3, i.arg2)
    else SafeInstr(p, i)
  }

  predicate BranchesBack(code: seq<Instruction>) {
    exists k :: 0 <= k < |code| && BranchesBefore(code[k], k)
  }

  /** The last condition is the width of the validator's result: it hands the block's size back
      as a signed 32-bit number. */
  predicate AcceptableCode(c: Compiled) {
    && (forall k :: 0 <= k < |c.code| ==> AcceptableInstr(CompiledProgram(c), c.code[k]))
    && (forall k :: 0 <= k < |c.code| ==> !BranchesTo(c.code[k], k))
    && (Has(c.flags, DEFFLAG_HAS_BACKBRANCHES) <==> BranchesBack(c.code))
    && CodeLength(c) < 0x8000_0000
  }

  predicate AcceptableDef(c: Compiled, slots: nat) {
    && |c.constants| + c.stackCount <= slots
    && Cut(c.argsCount + c.rvalsCount) <= c.stackCount
    && (Has(c.flags, DEFFLAG_EXTERN) || Has(c.flags, DEFFLAG_INTERFACE) ==> c.stackCount == Cut(c.argsCount + c.rvalsCount))
    && !Has(c.flags, DEFFLAG_HAS_DEFAULT_ARGS)
    && (!Has(c.flags, DEFFLAG_EXTERN) ==> AcceptableCode(c))
  }

  lemma NoCallIsAccepted(c: Compiled, lo: U16, hi: U16, stack: U16, rw: nat)
    requires Sized(c) && !Has(c.flags, DEFFLAG_EXTERN) && DataReadable(ArchiveBytes(c))
    ensures !CallCheck(ArchiveBytes(c), lo, hi, stack, |c.constants|, rw).Valid?
  {
    SegmentsReadBack(c);
    DefReadsBack(c);
    hide ArchiveBytes, HeaderOf, DefOf, DefAt, ValidateString, ValidateCode, SectionsCount, Has, StringsLength, Writable, CodeLength;
    var target := Cut(Combine(lo, hi));
    assert target == 0 || target + DEF_SIZE > DEF_SIZE;
  }

  lemma InstructionAcceptedIff(c: Compiled, i: Instruction)
    requires Sized(c) && !Has(c.flags, DEFFLAG_EXTERN) && DataReadable(ArchiveBytes(c))
    ensures ValidateInstruction(ArchiveBytes(c), WrittenDef(c), i, |c.constants|, c.stackCount).Valid? <==> AcceptableInstr(CompiledProgram(c), i)
  {
    var b, p := ArchiveBytes(c), CompiledProgram(c);
    SegmentsReadBack(c);
    ConstantsReadBack(c);
    CountReadsBack(c);
    assert RunsAs(b, WrittenDef(c), |c.constants|, c.stackCount, p);
    ValidatorDescribesInterpreter(i.opcode);
    LayoutsOfOpcodes(i.opcode);
    hide ArchiveBytes, HeaderOf, SectionsCount, LayoutOf, ShapeOf, RunsAs, CallCheck, InBounds, Writable, Has, DataReadable;
    if i.opcode == EXTCALL {
      NoCallIsAccepted(c, i.arg1, i.arg2, i.arg3, c.stackCount);
    } else if i.opcode != INDEXRIS {
      AcceptedIffInBounds(b, WrittenDef(c), LayoutOf(i.opcode), ShapeOf(i.opcode), i, |c.constants|, c.stackCount, p);
    }
  }

  lemma CodeAcceptedIff(c: Compiled)
    requires Sized(c) && !Has(c.flags, DEFFLAG_EXTERN) && DataReadable(ArchiveBytes(c))
    ensures ValidateCode(ArchiveBytes(c), WrittenDef(c), 0, |c.constants|, c.stackCount).Valid? <==> AcceptableCode(c)
  {
    hide ArchiveBytes, HeaderOf, AcceptableInstr, InstructionsVerdict, Has, Writable, BranchesTo, BranchesBefore, ValidateInstruction;
    SegmentsReadBack(c);
    CountReadsBack(c);
    CodeReadsBack(c);
    var b, d, n := ArchiveBytes(c), WrittenDef(c), |c.code|;
    InstructionsAcceptedIff(b, d, CODE_HEADER_SIZE, n, 0, |c.constants|, c.stackCount);
    forall k | 0 <= k < n ensures InstructionAt(b, CODE_HEADER_SIZE, k) == CodeOfBlock(b, 0)[k] == c.code[k] {
    }
    forall k | 0 <= k < n
      ensures ValidateInstruction(b, d, InstructionAt(b, CODE_HEADER_SIZE, k), |c.constants|, c.stackCount).Valid?
              <==> AcceptableInstr(CompiledProgram(c), c.code[k])
    {
      InstructionAcceptedIff(c, c.code[k]);
    }
    hide InstructionsCount, InstructionAt, CodeOfBlock, CodeWhole;
  }

  lemma DataReadsBack(c: Compiled)
    requires Sized(c)
    ensures DataReadable(ArchiveBytes(c)) && SectionsCount(ArchiveBytes(c)) == 0 && SectionsVerdict(ArchiveBytes(c)) == OK
  {
    ConstantsReadBack(c);
    hide ArchiveBytes, HeaderOf, SectionsCount;
  }

  lemma DefAcceptedIff(c: Compiled, slots: nat)
    requires Sized(c) && DataReadable(ArchiveBytes(c)) && |c.constants| <= slots
    ensures ValidateDef(ArchiveBytes(c), 0, |c.constants|, slots - |c.constants|, false).Valid? <==> AcceptableDef(c, slots)
  {
    hide ArchiveBytes, HeaderOf, DefAt, ValidateString, ValidateCode, SectionsCount, Has, Sized, StringsLength, AcceptableCode,
      DefStart, CodeStart, DataStart, ConstantsStart, ConstantsLength, CodeLength, SectionsVerdict;
    SegmentsReadBack(c);
    DefReadsBack(c);
    NameAccepted(c);
    DataReadsBack(c);
    if !Has(c.flags, DEFFLAG_EXTERN) {
      CodeAcceptedIff(c);
    }
  }

  lemma StringsAccepted(c: Compiled)
    requires Sized(c)
    ensures WellSized(ArchiveBytes(c)) && SegmentsFit(ArchiveBytes(c)) && StringsVerdict(ArchiveBytes(c), 0) == OK
  {
    SegmentsReadBack(c);
    NameAccepted(c);
    hide ArchiveBytes, HeaderOf, StringsLength, CodeLength, ValidateString;
    StringStep(ArchiveBytes(c), 0);
  }

  lemma DefsAcceptedIff(c: Compiled, slots: nat)
    requires Sized(c) && DataReadable(ArchiveBytes(c)) && SegmentsFit(ArchiveBytes(c)) && |c.constants| <= slots
    ensures DefsVerdict(ArchiveBytes(c), 0, |c.constants|, slots - |c.constants|).Valid? <==> AcceptableDef(c, slots)
  {
    SegmentsReadBack(c);
    DefAcceptedIff(c, slots);
    hide ArchiveBytes, HeaderOf, StringsLength, CodeLength, ValidateDef, AcceptableDef;
    DefStep(ArchiveBytes(c), 0, |c.constants|, slots - |c.constants|);
  }

  lemma Fours(k: nat, n: nat)
    ensures (k * VALUE_SIZE) % 4 == 0 && (k * VALUE_SIZE) / VALUE_SIZE == k
    ensures (CODE_HEADER_SIZE + k * INSTRUCTION_SIZE) % 4 == 0
    ensures n >= k * VALUE_SIZE ==> n / VALUE_SIZE >= k
  {
  }

  lemma SlotsLeft(c: Compiled, memorySize: nat)
    requires Sized(c) && |ArchiveBytes(c)| <= memorySize < 0x1_0000_0000_0000_0000
    ensures WellSized(ArchiveBytes(c))
    ensures var slots := (memorySize - ConstantsStart(c)) / VALUE_SIZE;
      && |c.constants| <= slots && StackSlots(ArchiveBytes(c), memorySize) == slots
      && Size64(slots - |c.constants|) == slots - |c.constants|
  {
    hide HeaderOf, StringsLength, CodeLength, ArchiveBytes, Sized;
    SegmentsReadBack(c);
    Fours(|c.constants|, memorySize - ConstantsStart(c));
  }

  lemma MagicReadsBack(c: Compiled)
    requires Sized(c)
    ensures |ArchiveBytes(c)| >= HEADER_SIZE && ArchiveBytes(c)[..5] == MAGIC
  {
    HeaderReadsBack(c);
    hide ArchiveBytes, HeaderOf;
  }

  lemma LengthsAligned(c: Compiled)
    requires Sized(c)
    ensures Aligned(HeaderOf(ArchiveBytes(c))) && HeaderOf(ArchiveBytes(c)).constants / VALUE_SIZE == |c.constants|
  {
    SegmentsReadBack(c);
    Fours(|c.constants|, 0);
    Fours(|c.code|, 0);
    assert StringsLength(c) % 4 == 0;
    assert ConstantsLength(c) % 4 == 0 && CodeLength(c) % 4 == 0;
    hide ArchiveBytes, HeaderOf, PaddedName, StringsLength, CodeLength, Sized, WellSized;
  }

  /** The validator accepts what the compile command writes exactly when the function fits the
      stack, its flags are honest, its instructions are in bounds and its code block is shorter
      than 2^31 bytes. */
  lemma AcceptedIff(c: Compiled, memorySize: nat)
    requires Sized(c) && |ArchiveBytes(c)| <= memorySize < 0x1_0000_0000_0000_0000
    ensures SegmentsFit(ArchiveBytes(c))
    ensures ArchiveVerdict(ArchiveBytes(c), memorySize).Valid? <==> AcceptableDef(c, (memorySize - ConstantsStart(c)) / VALUE_SIZE)
  {
    hide ArchiveBytes, HeaderOf, SectionsCount, StringsVerdict, DefsVerdict, SectionsVerdict, AcceptableDef, StackSlots, Size64, Aligned,
      Sized, SegmentsFit, ConstantsStart;
    SegmentsReadBack(c);
    MagicReadsBack(c);
    StringsAccepted(c);
    DataReadsBack(c);
    SlotsLeft(c, memorySize);
    LengthsAligned(c);
    DefsAcceptedIff(c, (memorySize - ConstantsStart(c)) / VALUE_SIZE);
  }

  /** In the source's own words: a plain function whose flags hold at most HAS_BACKBRANCHES. */
  lemma PlainFunctionsAreAccepted(c: Compiled, memorySize: nat)
    requires Sized(c) && |ArchiveBytes(c)| <= memorySize < 0x1_0000_0000_0000_0000
    requires c.flags == if BranchesBack(c.code) then DEFFLAG_HAS_BACKBRANCHES else 0
    requires c.argsCount + c.rvalsCount <= c.stackCount && CodeLength(c) < 0x8000_0000
    requires |c.constants| + c.stackCount <= (memorySize - ConstantsStart(c)) / VALUE_SIZE
    requires forall k :: 0 <= k < |c.code| ==> AcceptableInstr(CompiledProgram(c), c.code[k]) && !BranchesTo(c.code[k], k)
    ensures SegmentsFit(ArchiveBytes(c)) && ArchiveVerdict(ArchiveBytes(c), memorySize).Valid?
  {
    hide ArchiveVerdict, SegmentsFit, ArchiveBytes, AcceptableInstr, BranchesBack, BranchesTo, Sized, ConstantsStart, Has;
    AcceptedIff(c, memorySize);
    PlainFlags(c.flags, BranchesBack(c.code));
    assert Cut(c.argsCount + c.rvalsCount) == c.argsCount + c.rvalsCount;
  }

  lemma PlainFlags(flags: U16, back: bool)
    requires flags == if back then DEFFLAG_HAS_BACKBRANCHES else 0
    ensures Has(flags, DEFFLAG_HAS_BACKBRANCHES) <==> back
    ensures !Has(flags, DEFFLAG_EXTERN) && !Has(flags, DEFFLAG_INTERFACE) && !Has(flags, DEFFLAG_HAS_DEFAULT_ARGS)
  {
  }

  /** A code block of 2^31 bytes or more is refused, whatever is in it. */
  lemma LongFunctionIsRefused(c: Compiled, memorySize: nat)
    requires Sized(c) && !Has(c.flags, DEFFLAG_EXTERN) && CodeLength(c) >= 0x8000_0000
    requires |ArchiveBytes(c)| <= memorySize < 0x1_0000_0000_0000_0000
    ensures SegmentsFit(ArchiveBytes(c)) && !ArchiveVerdict(ArchiveBytes(c), memorySize).Valid?
  {
    hide ArchiveVerdict, SegmentsFit, ArchiveBytes, AcceptableInstr, BranchesBack, BranchesTo, Sized, ConstantsStart, Has;
    AcceptedIff(c, memorySize);
  }

  /** A function of n instructions that do nothing. */
  function Noops(n: nat): Compiled {
    Compiled([0x66], 0, 0, 0, [], seq(n, _ => Instruction(NOOP, 0, 0, 0)), 0)
  }

  lemma NoopsAreSized(n: nat)
    ensures Writable(Noops(n)) <==> n <= 0x3FFF_FFF0
    ensures Sized(Noops(n)) <==> n < 0x2000_0000
  {
    assert RoundUp(0x02 + 1 + 1, 4) == 8;
  }

  /** The writer's own bound lets through a count whose length it then writes cut to 32 bits: of
      2^29 instructions the archive says that they take four bytes. */
  lemma TooManyToMeasure()
    ensures var c := Noops(0x2000_0000);
      Writable(c) && !WellSized(ArchiveBytes(c)) && HeaderOf(ArchiveBytes(c)).code == 4
  {
    hide ArchiveBytes, Noops, Writable, HeaderOf;
    NoopsAreSized(0x2000_0000);
    var c := Noops(0x2000_0000);
    assert |c.code| == 0x2000_0000 by {
      NoopsCount(0x2000_0000);
    }
    WellSizedIff(c);
    HeaderReadsBack(c);
  }

  lemma NoopsCount(n: nat)
    ensures |Noops(n).code| == n && Noops(n).flags == 0
  {
  }

  /** Of the functions that do nothing, the ones of fewer than 2^28 instructions are accepted. */
  lemma NoopsAcceptedIff(n: nat, memorySize: nat)
    requires Sized(Noops(n)) && |ArchiveBytes(Noops(n))| <= memorySize < 0x1_0000_0000_0000_0000
    ensures SegmentsFit(ArchiveBytes(Noops(n)))
    ensures ArchiveVerdict(ArchiveBytes(Noops(n)), memorySize).Valid? <==> n < 0x1000_0000
  {
    hide ArchiveVerdict, SegmentsFit, ArchiveBytes, Sized, ConstantsStart, Has, AcceptableInstr, BranchesTo, BranchesBefore;
    var c := Noops(n);
    AcceptedIff(c, memorySize);
    PlainFlags(0, false);
    SlotsLeft(c, memorySize);
    forall k | 0 <= k < n
      ensures AcceptableInstr(CompiledProgram(c), c.code[k]) && !BranchesTo(c.code[k], k) && !BranchesBefore(c.code[k], k)
    {
      NoopIsHarmless(CompiledProgram(c), k);
    }
  }

  lemma NoopIsHarmless(p: Program, k: nat)
    ensures var i := Instruction(NOOP, 0, 0, 0); AcceptableInstr(p, i) && !BranchesTo(i, k) && !BranchesBefore(i, k)
  {
  }

  // ------------------------------------------------------------------
  // From the compiler to the interpreter
  // ------------------------------------------------------------------

  /** The function stays within what the library's 16-bit parameters can carry. */
  predicate CompiledFits(c: Compiled) {
    && c.argsCount + c.rvalsCount < 0x1_0000 && |c.constants| < 0x1_0000
    && forall i :: i in c.code ==> (i.opcode == INDEXRIS ==> i.arg2 >= 1 || i.arg3 != |c.constants| + c.stackCount)
  }

  lemma CompiledArchiveFits(c: Compiled, slots: nat)
    requires Sized(c) && CompiledFits(c) && !Has(c.flags, DEFFLAG_EXTERN) && AcceptableDef(c, slots)
    ensures WellSized(ArchiveBytes(c)) && Fits(ArchiveBytes(c))
    ensures DataReadable(ArchiveBytes(c)) && SectionsInside(ArchiveBytes(c))
  {
    var b := ArchiveBytes(c);
    hide ArchiveBytes, HeaderOf, DefAt, Has, Sized, StringsLength, CodeLength, CodeOfBlock, CodeWhole, SafeInstr, BranchesTo, BranchesBack;
    SegmentsReadBack(c);
    DefReadsBack(c);
    CodeReadsBack(c);
    ConstantsReadBack(c);
    forall i | i in c.code ensures InstrFits(b, i, |c.constants| + c.stackCount) {
      var k :| 0 <= k < |c.code| && c.code[k] == i;
      assert AcceptableInstr(CompiledProgram(c), c.code[k]);
    }
    assert forall at :: DefBoundary(HeaderOf(b), at) ==> at == 0;
  }

  /** However it is linked, the image offers just the compiled function: its counts, its
      constants and its very instructions. */
  lemma CompiledImage(c: Compiled, data': seq<Byte>, externs: seq<Extern>)
    requires Sized(c) && !Has(c.flags, DEFFLAG_EXTERN)
    requires Walkable(ArchiveBytes(c)) && Linked(ArchiveBytes(c), data', externs)
    ensures DataReadable(data')
    ensures var image := ImageOf(data', externs);
      && image.constants == |c.constants| && image.sections == []
      && image.defs == map[0 := WrittenDef(c)]
      && 0 in image.codes && image.codes[0] == c.code
  {
    var b := ArchiveBytes(c);
    hide ArchiveBytes, HeaderOf, DefAt, Has, Sized, StringsLength, CodeLength, CodeOfBlock, CodeWhole, NameEnds, CString;
    SegmentsReadBack(c);
    DefReadsBack(c);
    CodeReadsBack(c);
    ConstantsReadBack(c);
    LinkingKeepsView(b, data');
    LinkingKeepsSegments(b, data');
    LinkingKeepsCode(b, data', 0);
    assert DefBoundary(HeaderOf(b), 0) && LinkedDef(b, DefAt(b, 0), DefAt(data', 0), externs);
    assert forall at :: DefBoundary(HeaderOf(data'), at) ==> at == 0;
  }

  /** An acceptable compiled function, written, validated and linked, runs safely. */
  lemma CompiledRunsSafely(c: Compiled, memorySize: nat, data': seq<Byte>, externs: seq<Extern>)
    requires Sized(c) && CompiledFits(c) && !Has(c.flags, DEFFLAG_EXTERN)
    requires |ArchiveBytes(c)| <= memorySize < 0x1_0000_0000_0000_0000
    requires AcceptableDef(c, (memorySize - ConstantsStart(c)) / VALUE_SIZE)
    requires forall e :: e in externs ==> WellBehaved(e)
    requires Walkable(ArchiveBytes(c)) && Linked(ArchiveBytes(c), data', externs)
    ensures DataReadable(data') && SafeImage(ImageOf(data', externs), (memorySize - ConstantsStart(c)) / VALUE_SIZE)
  {
    var b, slots := ArchiveBytes(c), (memorySize - ConstantsStart(c)) / VALUE_SIZE;
    hide ArchiveBytes, HeaderOf, Has, Sized, StringsLength, CodeLength, AcceptableDef, Linked, Fits, SectionsInside, Accepted, ArchiveVerdict,
      SafeImage;
    SegmentsReadBack(c);
    SlotsLeft(c, memorySize);
    ConstantsReadBack(c);
    CompiledArchiveFits(c, slots);
    AcceptedIff(c, memorySize);
    AcceptedArchive(b, memorySize);
    PreparedImageIsSafe(b, data', externs, slots);
  }

  /** Compile, load, prepare: a context that may run, offering this very function, exactly when
      the memory area has room for the archive. */
  method LoadCompiled(c: Compiled, memorySize: nat, f: Floats) returns (code: int, ctx: Ictx?)
    requires Sized(c) && CompiledFits(c) && !Has(c.flags, DEFFLAG_EXTERN)
    requires memorySize < 0x1_0000_0000_0000_0000
    requires Loadable(|ArchiveBytes(c)|, memorySize) ==> AcceptableDef(c, (memorySize - ConstantsStart(c)) / VALUE_SIZE)
    ensures code == if Loadable(|ArchiveBytes(c)|, memorySize) then 0 else LMNT_ERROR_MEMORY_SIZE
    ensures code == 0 <==> ctx != null
    ensures ctx != null ==>
              && fresh(ctx) && fresh(ctx.stack) && ctx.f == f && ctx.Prepared()
              && ctx.image.constants == |c.constants| && ctx.image.defs == map[0 := WrittenDef(c)]
              && 0 in ctx.image.codes && ctx.image.codes[0] == c.code
              && ctx.stack.Length == (memorySize - ConstantsStart(c)) / VALUE_SIZE
  {
    hide ArchiveBytes, HeaderOf, Has, Sized, StringsLength, CodeLength, AcceptableDef, Linked, Fits, SectionsInside, ArchiveVerdict, SafeImage,
      DefAt, Accepted, WellSized;
    var buf := CreateArchiveSized(c);
    var archive;
    code, archive := LoadArchive(buf[..], memorySize);
    if code != 0 {
      return code, null;
    }
    var slots := (memorySize - ConstantsStart(c)) / VALUE_SIZE;
    CompiledArchiveFits(c, slots);
    SegmentsReadBack(c);
    AcceptedIff(c, memorySize);
    DefReadsBack(c);
    AcceptedSlots(c, memorySize);
    OnlyDefAt0(c);
    code, ctx := Prepare(archive, memorySize, f, []);
    CompiledImage(c, archive.data[..], []);
  }

  method CreateArchiveSized(c: Compiled) returns (buf: array<Byte>)
    requires Sized(c)
    ensures fresh(buf) && buf[..] == ArchiveBytes(c)
  {
    buf := CreateArchive(c);
  }

  lemma AcceptedSlots(c: Compiled, memorySize: nat)
    requires Sized(c) && |ArchiveBytes(c)| <= memorySize < 0x1_0000_0000_0000_0000 && SegmentsFit(ArchiveBytes(c))
    requires ArchiveVerdict(ArchiveBytes(c), memorySize).Valid?
    ensures ArchiveVerdict(ArchiveBytes(c), memorySize).size == (memorySize - ConstantsStart(c)) / VALUE_SIZE
  {
    var b := ArchiveBytes(c);
    hide ArchiveBytes, HeaderOf, Sized, ArchiveVerdict;
    SegmentsReadBack(c);
    AcceptedArchive(b, memorySize);
  }

  lemma OnlyDefAt0(c: Compiled)
    requires Sized(c) && !Has(c.flags, DEFFLAG_EXTERN)
    ensures WellSized(ArchiveBytes(c))
    ensures forall at :: DefBoundary(HeaderOf(ArchiveBytes(c)), at) ==> !Linkable(DefAt(ArchiveBytes(c), at))
  {
    var b := ArchiveBytes(c);
    hide ArchiveBytes, HeaderOf, Sized, DefAt, Has, StringsLength, CodeLength;
    SegmentsReadBack(c);
    DefReadsBack(c);
    assert forall at :: DefBoundary(HeaderOf(b), at) ==> at == 0;
  }

  // ------------------------------------------------------------------
  // All of it on one function
  // ------------------------------------------------------------------

  /** identity(x) = x, one argument, one result, one assignment. */
  const IDENTITY: Compiled := Compiled([0x69, 0x64], 1, 1, 2, [], [Instruction(ASSIGNSS, 0, 0, 1)], 0)

  lemma IdentityIsAcceptable(slots: nat)
    requires slots >= 2
    ensures Sized(IDENTITY) && CompiledFits(IDENTITY) && !Has(IDENTITY.flags, DEFFLAG_EXTERN)
    ensures AcceptableDef(IDENTITY, slots)
  {
    PlainFlags(0, false);
    hide Has;
    var p := CompiledProgram(IDENTITY);
    assert AcceptableInstr(p, IDENTITY.code[0]);
  }

  lemma IdentityLoads(memorySize: nat)
    requires memorySize >= 69
    ensures Loadable(|ArchiveBytes(IDENTITY)|, memorySize) && (memorySize - ConstantsStart(IDENTITY)) / VALUE_SIZE == (memorySize - 68) / 4
  {
    assert RoundUp(0x02 + 2 + 1, 4) == 8;
    assert |IDENTITY.name| == 2;
  }

  /** Compiled, loaded, given an argument and executed under any dispatcher, it returns it. */
  method IdentityRuns(f: Floats, dispatcher: Dispatcher, x: Word) returns (rvals: seq<Word>)
    ensures rvals == [x]
  {
    hide ArchiveBytes, AcceptableDef, Sized, CompiledFits, SafeImage;
    IdentityIsAcceptable((128 - ConstantsStart(IDENTITY)) / VALUE_SIZE);
    IdentityLoads(128);
    var _, ctx := LoadCompiled(IDENTITY, 128, f);
    var updated := ctx.UpdateArgs(0, 0, [x]);
    ghost var before := ctx.Snapshot();
    IdentityStep(f, ctx.image, before, x);
    var done, code;
    done, code, rvals := ctx.Execute(dispatcher, 0, 1, 1);
  }

  lemma IdentityStep(f: Floats, image: Image, m: Machine, x: Word)
    requires 0 in image.codes && image.codes[0] == IDENTITY.code && image.constants == 0
    requires |m.stack| >= 2 && m.stack[0] == x && !m.interrupted
    ensures var run := RunDef(f, image, WrittenDef(IDENTITY), 1, m);
      run.Done? && run.result == Ok && run.m.stack == m.stack[1 := x]
  {
    PlainFlags(0, false);
    hide Has;
    var p := ProgramOf(image, WrittenDef(IDENTITY));
    var m0 := m.(curInstr := 0);
    var i := p.code[0];
    assert ShapeOf(ASSIGNSS) == Map(COPY, 1, 1);
    assert MapLanes(f, COPY, m.stack, 0, 1, 1, 0, 1) == m.stack[1 := x];
    assert Exec(f, p, m0, i) == (Ok, m0.(stack := m.stack[1 := x]));
    hide Exec;
    assert JumpTable(f, p, 1, m0, 0, Ok) == JumpTable(f, p, 0, m0.(stack := m.stack[1 := x]), 1, Ok);
  }

  // ------------------------------------------------------------------
  // And on one that branches
  // ------------------------------------------------------------------

  /** max(x, y): compare, and if x is less go on at the fifth instruction. */
  const MAXIMUM: Compiled := Compiled([0x6D, 0x61, 0x78], 2, 1, 3, [], MAXIMUM_CODE, 0)

  const MAXIMUM_CODE: seq<Instruction> := [
    Instruction(CMP, 0, 1, 0), Instruction(BRANCHCLT, 0, 4, 0), Instruction(ASSIGNSS, 0, 0, 2), Instruction(RETURN, 0, 0, 0),
    Instruction(ASSIGNSS, 1, 0, 2)]

  lemma MaximumIsAcceptable(slots: nat)
    requires slots >= 3
    ensures Sized(MAXIMUM) && CompiledFits(MAXIMUM) && !Has(MAXIMUM.flags, DEFFLAG_EXTERN)
    ensures AcceptableDef(MAXIMUM, slots)
  {
    PlainFlags(0, false);
    hide Has;
    assert |MAXIMUM.code| == 5;
    forall k | 0 <= k < |MAXIMUM.code|
      ensures AcceptableInstr(CompiledProgram(MAXIMUM), MAXIMUM.code[k]) && !BranchesTo(MAXIMUM.code[k], k) && !BranchesBefore(MAXIMUM.code[k], k)
    {
      MaximumIsInBounds(k);
    }
  }

  lemma MaximumIsInBounds(k: nat)
    requires k < |MAXIMUM_CODE|
    ensures AcceptableInstr(CompiledProgram(MAXIMUM), MAXIMUM_CODE[k])
    ensures !BranchesTo(MAXIMUM_CODE[k], k) && !BranchesBefore(MAXIMUM_CODE[k], k)
  {
    ShapesOfOpcodes(MAXIMUM_CODE[k].opcode);
  }

  lemma MaximumLoads()
    ensures Loadable(|ArchiveBytes(MAXIMUM)|, 256) && (256 - ConstantsStart(MAXIMUM)) / VALUE_SIZE == 39
  {
    assert RoundUp(0x02 + 3 + 1, 4) == 8;
    assert |MAXIMUM.name| == 3;
  }

  /** Compiled, loaded and executed under any dispatcher, it returns the larger; the first if
      they are not ordered. */
  method MaximumRuns(f: Floats, dispatcher: Dispatcher, x: Word, y: Word) returns (rvals: seq<Word>)
    ensures rvals == [if f.less(x, y) then y else x]
  {
    hide ArchiveBytes, AcceptableDef, Sized, CompiledFits, SafeImage, RunDef, Loadable, ConstantsStart, Has;
    MaximumIsAcceptable(39);
    MaximumLoads();
    var _, ctx := LoadCompiled(MAXIMUM, 256, f);
    var updated := ctx.UpdateArgs(0, 0, [x, y]);
    ghost var before := ctx.Snapshot();
    MaximumSteps(f, ctx.image, before, x, y);
    var done, code;
    done, code, rvals := ctx.Execute(dispatcher, 0, 1, 4);
  }

  lemma MaximumSteps(f: Floats, image: Image, m: Machine, x: Word, y: Word)
    requires 0 in image.codes && image.codes[0] == MAXIMUM.code && image.constants == 0
    requires |m.stack| >= 3 && m.stack[0] == x && m.stack[1] == y && !m.interrupted
    ensures var run := RunDef(f, image, WrittenDef(MAXIMUM), 4, m);
      && run.Done? && run.result in {Ok, Returning} && |run.m.stack| == |m.stack|
      && run.m.stack[2] == if f.less(x, y) then y else x
  {
    hide Exec, JumpTable, Seen;
    PlainFlags(0, false);
    var p, m0 := ProgramOf(image, WrittenDef(MAXIMUM)), m.(curInstr := 0);
    OneStep(f, p, 4, m0, 0, Ok);
    Compares(f, p, m0, MAXIMUM_CODE[0]);
    var m1 := Exec(f, p, m0, MAXIMUM_CODE[0]).1;
    OneStep(f, p, 3, m1, 1, Ok);
    Branches(f, p, m1, MAXIMUM_CODE[1], x, y);
    var m2 := Exec(f, p, m1, MAXIMUM_CODE[1]).1;
    if f.less(x, y) {
      OneStep(f, p, 2, m2, 4, Branching);
      AssignsScalar(f, p, m2, MAXIMUM_CODE[4]);
      OneStep(f, p, 1, Exec(f, p, m2, MAXIMUM_CODE[4]).1, 5, Ok);
    } else {
      OneStep(f, p, 2, m2, 2, Ok);
      AssignsScalar(f, p, m2, MAXIMUM_CODE[2]);
      var m3 := Exec(f, p, m2, MAXIMUM_CODE[2]).1;
      OneStep(f, p, 1, m3, 3, Ok);
      NothingAndReturn(f, p, m3, MAXIMUM_CODE[3]);
    }
  }
}
