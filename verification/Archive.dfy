/** LMNT archives as bytes: the segments of an archive and the accessors that read them. */
module Archive {
  import opened Bytecode

  const HEADER_SIZE: nat := 0x1C
  const STRING_HEADER_SIZE: nat := 2
  const DEF_SIZE: nat := 16
  const CODE_HEADER_SIZE: nat := 4
  const INSTRUCTION_SIZE: nat := 8
  const DATA_HEADER_SIZE: nat := 4
  const DATA_SECTION_SIZE: nat := 8
  const VALUE_SIZE: nat := 4

  /** Little-endian reads. */
  function U16At(data: seq<Byte>, at: nat): U16
    requires at + 2 <= |data|
  {
    data[at] as int + 0x100 * data[at + 1] as int
  }

  function U32At(data: seq<Byte>, at: nat): U32
    requires at + 4 <= |data|
  {
    data[at] as int + 0x100 * data[at + 1] as int + 0x1_0000 * data[at + 2] as int + 0x100_0000 * data[at + 3] as int
  }

  /** Little-endian writes. */
  function Bytes16(v: U16): (r: seq<Byte>)
    ensures |r| == 2
  {
    [v % 0x100, v / 0x100]
  }

  function Bytes32(v: U32): (r: seq<Byte>)
    ensures |r| == 4
  {
    var (q1, q2) := (v / 0x100, v / 0x100 / 0x100);
    [v % 0x100, q1 % 0x100, q2 % 0x100, q2 / 0x100]
  }

  lemma Bytes16RoundTrip(data: seq<Byte>, at: nat, v: U16)
    requires at + 2 <= |data| && data[at..at + 2] == Bytes16(v)
    ensures U16At(data, at) == v
  {
    var b := data[at..at + 2];
    assert data[at] == b[0] && data[at + 1] == b[1];
  }

  lemma Bytes32RoundTrip(data: seq<Byte>, at: nat, v: U32)
    requires at + 4 <= |data| && data[at..at + 4] == Bytes32(v)
    ensures U32At(data, at) == v
  {
    var b := data[at..at + 4];
    assert data[at] == b[0] && data[at + 1] == b[1] && data[at + 2] == b[2] && data[at + 3] == b[3];
  }

  /** A slice of a slice. */
  lemma SliceOfSlice(b: seq<Byte>, from: nat, to: nat, lo: nat, hi: nat)
    requires from <= to <= |b| && lo <= hi <= to - from
    ensures b[from..to][lo..hi] == b[from + lo..from + hi]
  {
    var (s, t) := (b[from..to][lo..hi], b[from + lo..from + hi]);
    assert |s| == |t| && forall k :: 0 <= k < |s| ==> s[k] == t[k];
  }

  /** Words written one after the other. */
  function WordBytes(words: seq<Word>): (r: seq<Byte>)
    ensures |r| == |words| * VALUE_SIZE
  {
    if words == [] then [] else WordBytes(words[..|words| - 1]) + Bytes32(words[|words| - 1])
  }

  lemma {:induction false} WordBytesAt(words: seq<Word>, k: nat)
    requires k < |words|
    ensures WordBytes(words)[k * VALUE_SIZE..k * VALUE_SIZE + VALUE_SIZE] == Bytes32(words[k])
  {
    hide Bytes32;
    if k < |words| - 1 {
      WordBytesAt(words[..|words| - 1], k);
    }
  }

  lemma WordReadsBack(words: seq<Word>, k: nat)
    requires k < |words|
    ensures U32At(WordBytes(words), k * VALUE_SIZE) == words[k]
  {
    hide U32At, Bytes32;
    WordBytesAt(words, k);
    Bytes32RoundTrip(WordBytes(words), k * VALUE_SIZE, words[k]);
  }

  datatype Header = Header(strings: U32, defs: U32, code: U32, data: U32, constants: U32)

  function HeaderOf(data: seq<Byte>): Header
    requires |data| >= HEADER_SIZE
  {
    Header(U32At(data, 8), U32At(data, 12), U32At(data, 16), U32At(data, 20), U32At(data, 24))
  }

  function StringsAt(h: Header): nat { HEADER_SIZE }
  function DefsAt(h: Header): nat { StringsAt(h) + h.strings }
  function CodeAt(h: Header): nat { DefsAt(h) + h.defs }
  function DataAt(h: Header): nat { CodeAt(h) + h.code }
  function ConstantsAt(h: Header): nat { DataAt(h) + h.data }

  /** The header's segment lengths account for the whole archive. */
  predicate WellSized(data: seq<Byte>) {
    |data| >= HEADER_SIZE && |data| == ConstantsAt(HeaderOf(data)) + HeaderOf(data).constants
  }

  function DefOf(data: seq<Byte>, at: nat): Def
    requires at + DEF_SIZE <= |data|
  {
    Def(U16At(data, at), U16At(data, at + 2), U32At(data, at + 4),
        U16At(data, at + 8), U16At(data, at + 10), U16At(data, at + 12), U16At(data, at + 14))
  }

  /** The def at an offset of the defs segment. */
  function DefAt(data: seq<Byte>, offset: nat): Def
    requires WellSized(data) && offset + DEF_SIZE <= HeaderOf(data).defs
  {
    DefOf(data, DefsAt(HeaderOf(data)) + offset)
  }

  function InstructionsCount(data: seq<Byte>, offset: nat): U32
    requires WellSized(data) && offset + CODE_HEADER_SIZE <= HeaderOf(data).code
  {
    U32At(data, CodeAt(HeaderOf(data)) + offset)
  }

  function InstructionOf(data: seq<Byte>, at: nat): Instruction
    requires at + INSTRUCTION_SIZE <= |data|
  {
    Instruction(U16At(data, at), U16At(data, at + 2), U16At(data, at + 4), U16At(data, at + 6))
  }

  /** Instruction k of a code block whose first instruction is at an offset of the code segment. */
  function InstructionAt(data: seq<Byte>, first: nat, k: nat): Instruction
    requires WellSized(data) && first + (k + 1) * INSTRUCTION_SIZE <= HeaderOf(data).code
  {
    InstructionOf(data, CodeAt(HeaderOf(data)) + first + k * INSTRUCTION_SIZE)
  }

  /** The count is read through a 16-bit result. */
  function SectionsCount(data: seq<Byte>): U16
    requires WellSized(data) && DATA_HEADER_SIZE <= HeaderOf(data).data
  {
    U32At(data, DataAt(HeaderOf(data))) % 0x1_0000
  }

  lemma SectionsCountIsLowHalf(data: seq<Byte>)
    requires WellSized(data) && DATA_HEADER_SIZE <= HeaderOf(data).data
    ensures SectionsCount(data) == U16At(data, DataAt(HeaderOf(data)))
  {
    hide HeaderOf;
  }

  predicate DataReadable(data: seq<Byte>) {
    && WellSized(data)
    && DATA_HEADER_SIZE <= HeaderOf(data).data
    && DATA_HEADER_SIZE + SectionsCount(data) * DATA_SECTION_SIZE <= HeaderOf(data).data
  }

  function SectionOffset(data: seq<Byte>, s: nat): U32
    requires DataReadable(data) && s < SectionsCount(data)
  {
    U32At(data, DataAt(HeaderOf(data)) + DATA_HEADER_SIZE + s * DATA_SECTION_SIZE)
  }

  function SectionSize(data: seq<Byte>, s: nat): U32
    requires DataReadable(data) && s < SectionsCount(data)
  {
    U32At(data, DataAt(HeaderOf(data)) + DATA_HEADER_SIZE + s * DATA_SECTION_SIZE + 4)
  }

  function ConstantsCount(data: seq<Byte>): nat
    requires WellSized(data)
  {
    HeaderOf(data).constants / VALUE_SIZE
  }

  function ConstantAt(data: seq<Byte>, k: nat): Word
    requires WellSized(data) && (k + 1) * VALUE_SIZE <= HeaderOf(data).constants
  {
    U32At(data, ConstantsAt(HeaderOf(data)) + k * VALUE_SIZE)
  }

  // ------------------------------------------------------------------
  // Defs and code written anywhere read back
  // ------------------------------------------------------------------

  function BytesOfDef(d: Def): (r: seq<Byte>)
    ensures |r| == DEF_SIZE
  {
    Bytes16(d.name) + Bytes16(d.flags) + Bytes32(d.code) + Bytes16(d.stackCount) + Bytes16(d.argsCount) + Bytes16(d.rvalsCount)
      + Bytes16(d.defaultArgs)
  }

  lemma DefPieces(d: Def)
    ensures var b := BytesOfDef(d);
      && b[..2] == Bytes16(d.name) && b[2..4] == Bytes16(d.flags) && b[4..8] == Bytes32(d.code) && b[8..10] == Bytes16(d.stackCount)
      && b[10..12] == Bytes16(d.argsCount) && b[12..14] == Bytes16(d.rvalsCount) && b[14..16] == Bytes16(d.defaultArgs)
  {
    hide Bytes16, Bytes32;
  }

  lemma DefReadsAnywhere(b: seq<Byte>, at: nat, d: Def)
    requires at + DEF_SIZE <= |b| && b[at..at + DEF_SIZE] == BytesOfDef(d)
    ensures DefOf(b, at) == d
  {
    DefPieces(d);
    hide BytesOfDef, Bytes16, Bytes32, U16At, U32At;
    SliceOfSlice(b, at, at + 16, 0, 2);
    SliceOfSlice(b, at, at + 16, 2, 4);
    SliceOfSlice(b, at, at + 16, 4, 8);
    SliceOfSlice(b, at, at + 16, 8, 10);
    SliceOfSlice(b, at, at + 16, 10, 12);
    SliceOfSlice(b, at, at + 16, 12, 14);
    SliceOfSlice(b, at, at + 16, 14, 16);
    Bytes16RoundTrip(b, at, d.name);
    Bytes16RoundTrip(b, at + 2, d.flags);
    Bytes32RoundTrip(b, at + 4, d.code);
    Bytes16RoundTrip(b, at + 8, d.stackCount);
    Bytes16RoundTrip(b, at + 10, d.argsCount);
    Bytes16RoundTrip(b, at + 12, d.rvalsCount);
    Bytes16RoundTrip(b, at + 14, d.defaultArgs);
  }

  function InstructionBytes(i: Instruction): (r: seq<Byte>)
    ensures |r| == INSTRUCTION_SIZE
  {
    Bytes16(i.opcode) + Bytes16(i.arg1) + Bytes16(i.arg2) + Bytes16(i.arg3)
  }

  function CodeBytes(code: seq<Instruction>): (r: seq<Byte>)
    ensures |r| == |code| * INSTRUCTION_SIZE
  {
    if code == [] then [] else CodeBytes(code[..|code| - 1]) + InstructionBytes(code[|code| - 1])
  }

  lemma {:induction false} CodeBytesAt(code: seq<Instruction>, k: nat)
    requires k < |code|
    ensures CodeBytes(code)[k * INSTRUCTION_SIZE..k * INSTRUCTION_SIZE + INSTRUCTION_SIZE] == InstructionBytes(code[k])
  {
    hide InstructionBytes;
    if k < |code| - 1 {
      CodeBytesAt(code[..|code| - 1], k);
    }
  }

  lemma InstructionReadsBack(b: seq<Byte>, at: nat, i: Instruction)
    requires at + INSTRUCTION_SIZE <= |b| && b[at..at + INSTRUCTION_SIZE] == InstructionBytes(i)
    ensures InstructionOf(b, at) == i
  {
    var s := InstructionBytes(i);
    assert s[..2] == Bytes16(i.opcode) && s[2..4] == Bytes16(i.arg1) && s[4..6] == Bytes16(i.arg2) && s[6..8] == Bytes16(i.arg3);
    hide InstructionBytes, Bytes16, U16At;
    SliceOfSlice(b, at, at + 8, 0, 2);
    SliceOfSlice(b, at, at + 8, 2, 4);
    SliceOfSlice(b, at, at + 8, 4, 6);
    SliceOfSlice(b, at, at + 8, 6, 8);
    Bytes16RoundTrip(b, at, i.opcode);
    Bytes16RoundTrip(b, at + 2, i.arg1);
    Bytes16RoundTrip(b, at + 4, i.arg2);
    Bytes16RoundTrip(b, at + 6, i.arg3);
  }

  lemma CodeBytesReadBack(b: seq<Byte>, at: nat, code: seq<Instruction>, k: nat)
    requires k < |code| && at + |code| * INSTRUCTION_SIZE <= |b|
    requires b[at..at + |code| * INSTRUCTION_SIZE] == CodeBytes(code)
    ensures InstructionOf(b, at + k * INSTRUCTION_SIZE) == code[k]
  {
    hide CodeBytes, InstructionBytes, InstructionOf;
    CodeBytesAt(code, k);
    var lo := k * INSTRUCTION_SIZE;
    SliceOfSlice(b, at, at + |code| * INSTRUCTION_SIZE, lo, lo + INSTRUCTION_SIZE);
    InstructionReadsBack(b, at + lo, code[k]);
  }

  // ------------------------------------------------------------------
  // C strings
  // ------------------------------------------------------------------

  /** The characters from `at` up to the first NUL, or to the end if there is none. */
  function CString(data: seq<Byte>, at: nat): (r: seq<Byte>)
    requires at <= |data|
    ensures at + |r| <= |data| && r == data[at..at + |r|]
    ensures 0 !in r
    ensures at + |r| < |data| ==> data[at + |r|] == 0
    decreases |data| - at
  {
    if at == |data| || data[at] == 0 then []
    else [data[at]] + CString(data, at + 1)
  }

  /** A NUL-free text followed by a NUL is the C string at its start. */
  lemma {:induction false} CStringIs(data: seq<Byte>, at: nat, text: seq<Byte>)
    requires at + |text| < |data| && data[at..at + |text|] == text && 0 !in text && data[at + |text|] == 0
    ensures CString(data, at) == text
    decreases |text|
  {
    if text != [] {
      assert data[at] == text[0];
      assert text[0] in text;
      assert data[at + 1..at + 1 + |text[1..]|] == text[1..];
      CStringIs(data, at + 1, text[1..]);
    }
  }

  /** The text of the name a def refers to. */
  function NameAt(data: seq<Byte>, name: U16): seq<Byte>
    requires WellSized(data) && StringsAt(HeaderOf(data)) + name + STRING_HEADER_SIZE <= |data|
  {
    CString(data, StringsAt(HeaderOf(data)) + name + STRING_HEADER_SIZE)
  }
}
