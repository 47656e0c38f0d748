/** An archive in memory: validated by walking its segments, linked to the host's externs by
    rewriting its defs in place, and searched by name. */
module Loading {
  import opened Bytecode
  import opened Archive
  import opened Validation
  import opened Execution

  /** Defs sit side by side; these are the offsets the source walks. */
  predicate DefBoundary(h: Header, at: int) {
    0 <= at && at % DEF_SIZE == 0 && at + DEF_SIZE <= h.defs
  }

  /** No def starts between two neighbours. */
  lemma NextBoundary(h: Header, at: nat)
    requires at % DEF_SIZE == 0
    ensures (at + DEF_SIZE) % DEF_SIZE == 0
    ensures forall k :: DefBoundary(h, k) && k < at + DEF_SIZE ==> k <= at
    ensures h.defs % DEF_SIZE == 0 && at < h.defs ==> DefBoundary(h, at)
  {
  }

  /** An extern that stands for a host function rather than an interface. */
  predicate Linkable(d: Def) {
    Has(d.flags, DEFFLAG_EXTERN) && !Has(d.flags, DEFFLAG_INTERFACE)
  }

  /** Table entry k is the first with this name and these counts. */
  predicate FirstMatch(table: seq<Extern>, name: seq<Byte>, argsCount: U16, rvalsCount: U16, k: nat) {
    && k < |table| && Matches(table[k], name, argsCount, rvalsCount)
    && forall j :: 0 <= j < k ==> !Matches(table[j], name, argsCount, rvalsCount)
  }

  predicate Matches(e: Extern, name: seq<Byte>, argsCount: U16, rvalsCount: U16) {
    e.name == name && e.argsCount == argsCount && e.rvalsCount == rvalsCount
  }

  method FindIndex(table: seq<Extern>, name: seq<Byte>, argsCount: U16, rvalsCount: U16) returns (found: bool, index: nat)
    ensures found ==> FirstMatch(table, name, argsCount, rvalsCount, index)
    ensures !found ==> forall j :: 0 <= j < |table| ==> !Matches(table[j], name, argsCount, rvalsCount)
  {
    var i := 0;
    while i < |table|
      invariant i <= |table|
      invariant forall j :: 0 <= j < i ==> !Matches(table[j], name, argsCount, rvalsCount)
    {
      if name == table[i].name && argsCount == table[i].argsCount && rvalsCount == table[i].rvalsCount {
        return true, i;
      }
      i := i + 1;
    }
    return false, 0;
  }

  /** One def of a linked archive against the same def before. */
  predicate LinkedDef(data: seq<Byte>, was: Def, now: Def, table: seq<Extern>)
    requires WellSized(data) && NameEnds(data, was.name)
  {
    if Linkable(was) then
      now == was.(code := now.code) && FirstMatch(table, NameAt(data, was.name), was.argsCount, was.rvalsCount, now.code)
    else now == was
  }

  /** Everything outside the defs segment is as it was. */
  predicate SameOutsideDefs(data: seq<Byte>, data': seq<Byte>)
    requires WellSized(data)
  {
    && |data'| == |data|
    && forall k :: 0 <= k < |data| && !(DefsAt(HeaderOf(data)) <= k < CodeAt(HeaderOf(data))) ==> data'[k] == data[k]
  }

  /** The name is a C string that ends among the strings. */
  predicate NameEnds(data: seq<Byte>, name: U16)
    requires WellSized(data)
  {
    && name + STRING_HEADER_SIZE <= HeaderOf(data).strings
    && name + STRING_HEADER_SIZE + |NameAt(data, name)| < HeaderOf(data).strings
  }

  ghost predicate NamesReadable(data: seq<Byte>)
    requires WellSized(data)
  {
    forall at :: DefBoundary(HeaderOf(data), at) ==> NameEnds(data, DefAt(data, at).name)
  }

  /** What the walks after validation rely on. */
  ghost predicate Walkable(data: seq<Byte>) {
    WellSized(data) && NamesReadable(data) && HeaderOf(data).defs % DEF_SIZE == 0
  }

  ghost function DefName(data: seq<Byte>, at: int): seq<Byte>
    requires Walkable(data) && DefBoundary(HeaderOf(data), at)
  {
    assert NameEnds(data, DefAt(data, at).name);
    NameAt(data, DefAt(data, at).name)
  }

  /** The def at `at` is the first of this name. */
  ghost predicate FirstNamed(data: seq<Byte>, name: seq<Byte>, at: int)
    requires Walkable(data)
  {
    && DefBoundary(HeaderOf(data), at) && DefName(data, at) == name
    && forall k :: DefBoundary(HeaderOf(data), k) && k < at ==> DefName(data, k) != name
  }

  /** What linking to an extern table makes of an archive. */
  ghost predicate Linked(data: seq<Byte>, data': seq<Byte>, table: seq<Extern>)
    requires WellSized(data) && NamesReadable(data)
  {
    && SameOutsideDefs(data, data')
    && HeaderOf(data') == HeaderOf(data) && WellSized(data')
    && forall at :: DefBoundary(HeaderOf(data), at) ==> LinkedDef(data, DefAt(data, at), DefAt(data', at), table)
  }

  /** The same flag by flag and field by field: of the defs whose EXTERN bit is set and whose
      INTERFACE bit is clear each has got the index of the first table entry with its name and its
      counts as its code, and nothing else in any def has changed. */
  lemma LinkingMeans(data: seq<Byte>, data': seq<Byte>, table: seq<Extern>, at: int)
    requires Walkable(data) && Linked(data, data', table) && DefBoundary(HeaderOf(data), at)
    ensures var (was, now, name) := (DefAt(data, at), DefAt(data', at), DefName(data, at));
      if (was.flags / 2) % 2 == 1 && was.flags % 2 == 0 then
        && now == was.(code := now.code) && now.code < |table|
        && table[now.code].name == name && table[now.code].argsCount == was.argsCount && table[now.code].rvalsCount == was.rvalsCount
        && forall j :: 0 <= j < now.code ==>
             !(table[j].name == name && table[j].argsCount == was.argsCount && table[j].rvalsCount == was.rvalsCount)
      else now == was
  {
    hide HeaderOf, DefOf, CString, NameAt;
    assert NameEnds(data, DefAt(data, at).name);
    assert LinkedDef(data, DefAt(data, at), DefAt(data', at), table);
  }

  lemma StringStep(data: seq<Byte>, at: nat)
    requires WellSized(data) && SegmentsFit(data) && at < HeaderOf(data).strings
    ensures var v := ValidateString(data, at);
      StringsVerdict(data, at) == if v.Valid? then StringsVerdict(data, at + v.size) else v
    ensures var v := ValidateString(data, at); v.Valid? ==> v.size > 0 && at + v.size <= HeaderOf(data).strings
  {
  }

  lemma DefStep(data: seq<Byte>, at: nat, constants: nat, rw: nat)
    requires DataReadable(data) && SegmentsFit(data) && at < HeaderOf(data).defs
    ensures var v := ValidateDef(data, at, constants, rw, false);
      DefsVerdict(data, at, constants, rw) == if v.Valid? then DefsVerdict(data, at + v.size, constants, rw) else v
    ensures var v := ValidateDef(data, at, constants, rw, false);
      v.Valid? ==> v.size == DEF_SIZE && at + DEF_SIZE <= HeaderOf(data).defs
  {
    hide HeaderOf, ValidateString, ValidateCode, DefAt, SectionsCount, Has;
  }

  class LmntArchive {
    const data: array<Byte>
    const inplace: bool
    var validated: bool
    var usesExtcalls: bool

    constructor (data: array<Byte>, inplace: bool)
      ensures this.data == data && this.inplace == inplace && !validated && !usesExtcalls
    {
      this.data, this.inplace := data, inplace;
      validated, usesExtcalls := false, false;
    }

    method CheckStrings(h: Header) returns (v: Verdict)
      requires WellSized(data[..]) && SegmentsFit(data[..]) && h == HeaderOf(data[..])
      ensures v == StringsVerdict(data[..], 0)
    {
      var d := data[..];
      var strIndex := 0;
      while strIndex < h.strings
        invariant 0 <= strIndex <= h.strings
        invariant StringsVerdict(d, strIndex) == StringsVerdict(d, 0)
      {
        hide ValidateString, StringsVerdict, HeaderOf;
        StringStep(d, strIndex);
        var sv := ValidateString(d, strIndex);
        if !sv.Valid? {
          return sv;
        }
        strIndex := strIndex + sv.size;
      }
      v := OK;
    }

    method CheckSections(h: Header) returns (v: Verdict)
      requires DataReadable(data[..]) && h == HeaderOf(data[..])
      ensures v == SectionsVerdict(data[..])
    {
      var count := SectionsCount(data[..]);
      var s := 0;
      while s < count
        invariant 0 <= s <= count
        invariant forall k :: 0 <= k < s ==> SectionPlaced(data[..], k)
      {
        if SectionOffset(data[..], s) < DATA_HEADER_SIZE + DATA_SECTION_SIZE * count {
          assert !SectionPlaced(data[..], s);
          return Invalid(DataSize);
        }
        if SectionOffset(data[..], s) + SectionSize(data[..], s) >= h.data {
          assert !SectionPlaced(data[..], s);
          return Invalid(DataSize);
        }
        s := s + 1;
      }
      v := OK;
    }

    /** validate_code: every instruction, then every branch. */
    method CheckCode(def: Def, codeIndex: U16, constants: nat, rw: nat) returns (v: Verdict)
      requires DataReadable(data[..])
      ensures v == ValidateCode(data[..], def, codeIndex, constants, rw)
    {
      hide HeaderOf, InstructionAt, InstructionsCount, ValidateInstruction, IsBranchOp;
      var d := data[..];
      var h := HeaderOf(d);
      if codeIndex + CODE_HEADER_SIZE > h.code {
        return Invalid(CodeHeader);
      }
      var count := InstructionsCount(d, codeIndex);
      var first := Cut(codeIndex + CODE_HEADER_SIZE);
      if first + count * INSTRUCTION_SIZE > h.code {
        return Invalid(CodeSize);
      }
      var i := 0;
      while i < count
        invariant 0 <= i <= count
        invariant InstructionsVerdict(d, def, first, count, i, constants, rw) == InstructionsVerdict(d, def, first, count, 0, constants, rw)
      {
        var iv := ValidateInstruction(d, def, InstructionAt(d, first, i), constants, rw);
        if !iv.Valid? {
          return iv;
        }
        i := i + 1;
      }
      var hasBackBranches := false;
      i := 0;
      while i < count
        invariant 0 <= i <= count
        invariant forall k :: 0 <= k < i ==> !BranchesTo(InstructionAt(d, first, k), k)
        invariant hasBackBranches <==> exists k :: 0 <= k < i && BranchesBefore(InstructionAt(d, first, k), k)
      {
        var instr := InstructionAt(d, first, i);
        if IsBranchOp(instr.opcode) {
          var target := Combine(instr.arg2, instr.arg3);
          if target == i {
            assert BranchesTo(instr, i);
            return Invalid(DefCyclic);
          } else if target < i {
            hasBackBranches := true;
          }
        }
        i := i + 1;
      }
      if hasBackBranches != Has(def.flags, DEFFLAG_HAS_BACKBRANCHES) {
        return Invalid(DefFlags);
      }
      v := Returned(CODE_HEADER_SIZE + count * INSTRUCTION_SIZE);
    }

    /** validate_def, for a def the host may run. */
    method CheckDef(defIndex: U16, constants: nat, rw: nat) returns (v: Verdict)
      requires DataReadable(data[..])
      ensures v == ValidateDef(data[..], defIndex, constants, rw, false)
    {
      hide HeaderOf, DefOf, DefsAt, SectionsCount, ValidateString, ValidateCode, Has;
      var d := data[..];
      if defIndex + DEF_SIZE > HeaderOf(d).defs {
        return Invalid(DefSize);
      }
      var def := DefAt(d, defIndex);
      var name := ValidateString(d, def.name);
      if !name.Valid? {
        return name;
      }
      if def.stackCount > rw {
        return Invalid(StackSize);
      }
      var inouts := Cut(def.argsCount + def.rvalsCount);
      if def.stackCount < inouts {
        return Invalid(DefHeader);
      }
      if (Has(def.flags, DEFFLAG_EXTERN) || Has(def.flags, DEFFLAG_INTERFACE)) && def.stackCount != inouts {
        return Invalid(DefHeader);
      }
      if Has(def.flags, DEFFLAG_HAS_DEFAULT_ARGS) && def.defaultArgs >= SectionsCount(d) {
        return Invalid(DefDefaultArgs);
      }
      if !Has(def.flags, DEFFLAG_EXTERN) {
        var cv := CheckCode(def, Cut(def.code), constants, def.stackCount);
        if !cv.Valid? {
          return cv;
        }
      }
      v := Valid(DEF_SIZE);
    }

    method CheckDefs(h: Header, constants: nat, rw: nat) returns (v: Verdict)
      requires DataReadable(data[..]) && SegmentsFit(data[..]) && h == HeaderOf(data[..])
      ensures v == DefsVerdict(data[..], 0, constants, rw)
    {
      var d := data[..];
      var defIndex := 0;
      while defIndex < h.defs
        invariant 0 <= defIndex <= h.defs
        invariant DefsVerdict(d, defIndex, constants, rw) == DefsVerdict(d, 0, constants, rw)
      {
        hide ValidateDef, DefsVerdict, HeaderOf;
        DefStep(d, defIndex, constants, rw);
        var dv := CheckDef(defIndex, constants, rw);
        if !dv.Valid? {
          return dv;
        }
        defIndex := defIndex + dv.size;
      }
      v := OK;
    }

    /** lmnt_archive_validate: decides by the verdict, and only an accepted archive is marked. */
    method Validate(memorySize: nat) returns (v: Verdict)
      requires SegmentsFit(data[..])
      modifies this`validated
      ensures v == ArchiveVerdict(data[..], memorySize)
      ensures validated == (old(validated) || v.Valid?)
    {
      hide WellSized, HeaderOf, SectionsCount, Aligned, StackSlots, Size64, StringsVerdict, DefsVerdict, SectionsVerdict, SegmentsFit;
      if data.Length < HEADER_SIZE {
        return Invalid(HeaderMagic);
      }
      if data[..5] != MAGIC {
        return Invalid(HeaderMagic);
      }
      var d := data[..];
      assert d[..5] == data[..5];
      if !WellSized(d) {
        return Invalid(SegmentsSize);
      }
      var h := HeaderOf(d);
      if !Aligned(h) {
        return Invalid(SegmentsAlign);
      }
      var slots := StackSlots(d, memorySize);
      var constants := h.constants / VALUE_SIZE;
      v := CheckStrings(h);
      if !v.Valid? {
        return;
      }
      if h.data < DATA_HEADER_SIZE {
        return Invalid(DataHeader);
      }
      if DATA_HEADER_SIZE + SectionsCount(d) * DATA_SECTION_SIZE > h.data {
        return Invalid(DataHeader);
      }
      v := CheckSections(h);
      if !v.Valid? {
        return;
      }
      v := CheckDefs(h, constants, Size64(slots - constants));
      if !v.Valid? {
        return;
      }
      validated := true;
      v := Valid(slots);
    }

    /** lmnt_archive_find_def: the first def with this name. */
    method FindDef(name: seq<Byte>) returns (r: FindResult)
      requires validated ==> Walkable(data[..])
      ensures r == Unprepared <==> !validated
      ensures r.Found? ==> FirstNamed(data[..], name, r.at)
      ensures r == NotFound ==> forall k :: DefBoundary(HeaderOf(data[..]), k) ==> DefName(data[..], k) != name
    {
      if !validated {
        return Unprepared;
      }
      assert WellSized(data[..]);
      hide HeaderOf, DefOf, CString, NameAt, U32At, U16At, NameEnds, NamesReadable, DefName, WellSized, DefAt, DefsAt, Walkable;
      var d := data[..];
      var h := HeaderOf(d);
      var at := 0;
      while at < h.defs
        invariant at % DEF_SIZE == 0 && at <= h.defs
        invariant forall k :: DefBoundary(h, k) && k < at ==> DefName(d, k) != name
      {
        NextBoundary(h, at);
        NameComesFirst(d, at);
        if NameAt(d, U16At(d, DefsAt(h) + at)) == name {
          return Found(at);
        }
        at := at + DEF_SIZE;
      }
      return NotFound;
    }

    /** lmnt_archive_update_def_extcalls: each host function's def gets its table index as code. */
    method UpdateDefExtcalls(table: seq<Extern>) returns (r: LinkResult)
      requires validated ==> Walkable(data[..])
      requires |table| < 0x1_0000_0000
      modifies this`usesExtcalls, data
      ensures r == UnpreparedArchive <==> !validated
      ensures r == AccessDenied <==> validated && inplace
      ensures r == LinkedAll ==> Walkable(data[..]) && Linked(old(data[..]), data[..], table)
      ensures r == MissingExtcall <==> validated && !inplace && old(MissesExtern(data[..], table))
    {
      if !validated {
        return UnpreparedArchive;
      }
      if inplace {
        return AccessDenied;
      }
      hide HeaderOf, DefOf, CString, U32At, U16At;
      ghost var was := data[..];
      var h := HeaderOf(data[..]);
      usesExtcalls := false;
      var defIndex := 0;
      while defIndex < h.defs
        invariant defIndex % DEF_SIZE == 0 && defIndex <= h.defs
        invariant LinkedUpTo(was, data[..], table, defIndex)
        modifies this`usesExtcalls, data
      {
        NextBoundary(h, defIndex);
        var found := LinkDef(table, was, defIndex);
        if !found {
          return MissingExtcall;
        }
        defIndex := defIndex + DEF_SIZE;
      }
      SameHeader(was, data[..]);
      AllNamesKept(was, data[..], table);
      LinkedMissesNone(was, data[..], table);
      return LinkedAll;
    }

    /** def->code = v */
    method WriteCode(at: nat, v: U32)
      requires at + DEF_SIZE <= data.Length
      modifies data
      ensures DefOf(data[..], at) == DefOf(old(data[..]), at).(code := v)
      ensures forall k :: 0 <= k < data.Length && !(at <= k < at + DEF_SIZE) ==> data[k] == old(data[k])
    {
      ghost var before := data[..];
      var b := Bytes32(v);
      hide Bytes32, DefOf;
      data[at + 4], data[at + 5], data[at + 6], data[at + 7] := b[0], b[1], b[2], b[3];
      WritingCode(before, data[..], at, v);
    }

    /** One turn of the linking walk. */
    method LinkDef(table: seq<Extern>, ghost was: seq<Byte>, defIndex: nat) returns (found: bool)
      requires WellSized(was) && NamesReadable(was) && DefBoundary(HeaderOf(was), defIndex)
      requires |table| < 0x1_0000_0000 && LinkedUpTo(was, data[..], table, defIndex)
      modifies this`usesExtcalls, data
      ensures found ==> LinkedUpTo(was, data[..], table, defIndex + DEF_SIZE)
      ensures !found ==> Linkable(DefAt(was, defIndex)) && NoMatch(table, was, DefAt(was, defIndex))
    {
      hide HeaderOf, DefOf, CString, U32At, U16At;
      SameHeader(was, data[..]);
      ghost var before := data[..];
      var d := data[..];
      var at := DefsAt(HeaderOf(d)) + defIndex;
      SameBytesSameDef(was, d, at);
      var def := DefOf(d, at);
      if Linkable(def) {
        SameOutsideSameName(was, d, def.name);
        var index;
        found, index := FindIndex(table, NameAt(d, def.name), def.argsCount, def.rvalsCount);
        if !found {
          return;
        }
        WriteCode(at, index);
        usesExtcalls := true;
      }
      found := true;
      OthersStayLinked(was, before, data[..], table, defIndex);
    }
  }

  predicate NoMatch(table: seq<Extern>, data: seq<Byte>, d: Def)
    requires WellSized(data) && NameEnds(data, d.name)
  {
    forall j :: 0 <= j < |table| ==> !Matches(table[j], NameAt(data, d.name), d.argsCount, d.rvalsCount)
  }

  /** The linking walk has reached `to`: defs before it are linked, bytes from it on are untouched. */
  ghost predicate LinkedUpTo(was: seq<Byte>, data: seq<Byte>, table: seq<Extern>, to: nat)
    requires WellSized(was) && NamesReadable(was)
  {
    var h := HeaderOf(was);
    && SameOutsideDefs(was, data)
    && (forall k :: DefsAt(h) + to <= k < CodeAt(h) ==> data[k] == was[k])
    && (forall at :: DefBoundary(h, at) && at < to ==> LinkedDef(was, DefAt(was, at), DefOf(data, DefsAt(h) + at), table))
  }

  /** Some def stands for a host function that the table does not have. */
  ghost predicate MissesExtern(data: seq<Byte>, table: seq<Extern>) {
    && Walkable(data)
    && exists at :: DefBoundary(HeaderOf(data), at) && Misses(data, table, at)
  }

  ghost predicate Misses(data: seq<Byte>, table: seq<Extern>, at: int)
    requires Walkable(data) && DefBoundary(HeaderOf(data), at)
  {
    assert NameEnds(data, DefAt(data, at).name);
    Linkable(DefAt(data, at)) && NoMatch(table, data, DefAt(data, at))
  }

  /** One is missing if and only if some such def has no entry of its name and counts. */
  lemma MissingMeans(data: seq<Byte>, table: seq<Extern>)
    requires Walkable(data)
    ensures MissesExtern(data, table) <==>
            exists at :: DefBoundary(HeaderOf(data), at) &&
              var (d, name) := (DefAt(data, at), DefName(data, at));
              && (d.flags / 2) % 2 == 1 && d.flags % 2 == 0
              && forall j :: 0 <= j < |table| ==>
                   !(table[j].name == name && table[j].argsCount == d.argsCount && table[j].rvalsCount == d.rvalsCount)
  {
    hide HeaderOf, DefOf, CString, NameAt;
    forall at | DefBoundary(HeaderOf(data), at)
      ensures Misses(data, table, at) <==>
              var (d, name) := (DefAt(data, at), DefName(data, at));
              && (d.flags / 2) % 2 == 1 && d.flags % 2 == 0
              && forall j :: 0 <= j < |table| ==>
                   !(table[j].name == name && table[j].argsCount == d.argsCount && table[j].rvalsCount == d.rvalsCount)
    {
      assert NameEnds(data, DefAt(data, at).name);
    }
  }

  lemma LinkedMissesNone(was: seq<Byte>, data: seq<Byte>, table: seq<Extern>)
    requires Walkable(was) && Linked(was, data, table)
    ensures !MissesExtern(was, table)
  {
    hide HeaderOf, DefOf, CString, NameEnds, Matches;
    forall at | DefBoundary(HeaderOf(was), at) ensures !Misses(was, table, at) {
      assert LinkedDef(was, DefAt(was, at), DefAt(data, at), table);
    }
  }

  lemma OthersStayLinked(was: seq<Byte>, before: seq<Byte>, data: seq<Byte>, table: seq<Extern>, at: nat)
    requires WellSized(was) && NamesReadable(was) && DefBoundary(HeaderOf(was), at)
    requires LinkedUpTo(was, before, table, at) && |data| == |before|
    requires forall k :: 0 <= k < |data| && !(DefsAt(HeaderOf(was)) + at <= k < DefsAt(HeaderOf(was)) + at + DEF_SIZE) ==> data[k] == before[k]
    requires LinkedDef(was, DefAt(was, at), DefOf(data, DefsAt(HeaderOf(was)) + at), table)
    ensures LinkedUpTo(was, data, table, at + DEF_SIZE)
  {
    hide DefOf, HeaderOf, CString;
    var h := HeaderOf(was);
    forall k | DefBoundary(h, k) && k < at + DEF_SIZE
      ensures LinkedDef(was, DefAt(was, k), DefOf(data, DefsAt(h) + k), table)
    {
      NextBoundary(h, at);
      if k != at {
        assert k + DEF_SIZE <= at;
        SameBytesSameDef(before, data, DefsAt(h) + k);
      }
    }
  }

  lemma AllNamesKept(was: seq<Byte>, data: seq<Byte>, table: seq<Extern>)
    requires WellSized(was) && NamesReadable(was) && HeaderOf(was).defs % DEF_SIZE == 0
    requires WellSized(data) && HeaderOf(data) == HeaderOf(was) && LinkedUpTo(was, data, table, HeaderOf(was).defs)
    ensures NamesReadable(data) && Linked(was, data, table)
  {
    hide HeaderOf, DefOf, CString;
    forall at | DefBoundary(HeaderOf(data), at) ensures NameEnds(data, DefAt(data, at).name) {
      assert LinkedDef(was, DefAt(was, at), DefAt(data, at), table);
      SameOutsideSameName(was, data, DefAt(was, at).name);
    }
  }

  datatype FindResult = Unprepared | NotFound | Found(at: nat)

  datatype LinkResult = UnpreparedArchive | AccessDenied | MissingExtcall | LinkedAll

  /** A def starts with the offset of its name. */
  lemma NameComesFirst(data: seq<Byte>, at: nat)
    requires Walkable(data) && DefBoundary(HeaderOf(data), at)
    ensures DefsAt(HeaderOf(data)) + at + 2 <= |data|
    ensures DefAt(data, at).name == U16At(data, DefsAt(HeaderOf(data)) + at)
    ensures StringsAt(HeaderOf(data)) + DefAt(data, at).name + STRING_HEADER_SIZE <= |data|
    ensures DefName(data, at) == NameAt(data, U16At(data, DefsAt(HeaderOf(data)) + at))
  {
    hide CString;
    var _ := NameEnds(data, DefAt(data, at).name);
  }

  lemma SameBytesSameDef(data: seq<Byte>, data': seq<Byte>, at: nat)
    requires |data'| == |data| && at + DEF_SIZE <= |data|
    requires forall k :: at <= k < at + DEF_SIZE ==> data'[k] == data[k]
    ensures DefOf(data', at) == DefOf(data, at)
  {
  }

  lemma WritingCode(data: seq<Byte>, data': seq<Byte>, at: nat, v: U32)
    requires |data'| == |data| && at + DEF_SIZE <= |data|
    requires forall k :: 0 <= k < |data| ==> data'[k] == if at + 4 <= k < at + 8 then Bytes32(v)[k - at - 4] else data[k]
    ensures DefOf(data', at) == DefOf(data, at).(code := v)
  {
    assert data'[at + 4..at + 8] == Bytes32(v);
    Bytes32RoundTrip(data', at + 4, v);
  }

  lemma SameHeader(data: seq<Byte>, data': seq<Byte>)
    requires WellSized(data) && SameOutsideDefs(data, data')
    ensures HeaderOf(data') == HeaderOf(data) && WellSized(data')
  {
  }

  lemma SameOutsideSameName(data: seq<Byte>, data': seq<Byte>, name: U16)
    requires WellSized(data) && SameOutsideDefs(data, data') && NameEnds(data, name)
    ensures WellSized(data') && HeaderOf(data') == HeaderOf(data)
    ensures NameEnds(data', name) && NameAt(data', name) == NameAt(data, name)
  {
    SameHeader(data, data');
    var at := StringsAt(HeaderOf(data)) + name + STRING_HEADER_SIZE;
    var text := NameAt(data, name);
    assert at + |text| < DefsAt(HeaderOf(data));
    forall k | 0 <= k < |text| ensures data'[at..at + |text|][k] == text[k] {
      assert text[k] == data[at..at + |text|][k];
    }
    CStringIs(data', at, text);
  }
}
