/** The JIT's register cache on x86-64: sixteen four-lane registers, each mapped to
    nothing, to one stack slot (lane 0) or to four consecutive slots. */
module RegCacheX86 {
  import opened CacheModel
  import opened JitHelpers

  const FPREG_MAX: nat := 16

  /** REGST_MODIFIED and REGST_INITIALISED are the two flag bits. */
  datatype RegStatus = RegStatus(stackpos: nat, count: nat, modified: bool, initialised: bool, importance: CInt)

  predicate Overlaps(s: RegStatus, spos: nat, scount: nat) {
    s.count > 0 && ((s.stackpos >= spos && s.stackpos < spos + scount) || (spos >= s.stackpos && spos < s.stackpos + s.count))
  }

  // ------------------------------------------------------------------
  // What becomes of a request, judged from the registers' status alone
  // ------------------------------------------------------------------

  /** Some register on the vector's slots is worth at least as much as the request. */
  predicate GivesWay(st: seq<RegStatus>, spos: nat, importance: CInt) {
    exists d :: 0 <= d < |st| && Overlaps(st[d], spos, 4) && importance <= st[d].importance
  }

  /** A register stands for exactly the vector's slots. */
  predicate Exact(st: seq<RegStatus>, spos: nat) {
    exists i :: 0 <= i < |st| && IsExact(st[i], spos)
  }

  predicate IsExact(s: RegStatus, spos: nat) {
    s.count == 4 && s.stackpos == spos
  }

  /** The request gives way to a register, and another one behind that is still modified. */
  predicate LeavesStale(st: seq<RegStatus>, spos: nat, importance: CInt) {
    exists d, j :: 0 <= d < j < |st|
      && Overlaps(st[d], spos, 4) && Overlaps(st[j], spos, 4)
      && importance <= st[d].importance && st[j].modified
  }

  /** Some register on the vector's slots owes memory a value. */
  predicate StillModified(st: seq<RegStatus>, spos: nat) {
    exists i :: 0 <= i < |st| && Overlaps(st[i], spos, 4) && st[i].modified
  }

  /** When an access cannot be served by a register nor go around the cache. */
  predicate Refused<V>(st: seq<RegStatus>, a: Access<V>, importance: CInt) {
    match a
    case ReadScalar(_) => false
    case ReadVector(pos) => LeavesStale(st, pos, importance)
    case WriteScalar(pos, _) =>
      && (exists i :: 0 <= i < |st| && Overlaps(st[i], pos, 1))
      && (forall i :: 0 <= i < |st| && st[i].count > 0 ==> st[i].stackpos != pos)
    case WriteVector(pos, _) => !Exact(st, pos) && GivesWay(st, pos, importance)
  }

  /** The accesses keep to steady shapes, and so do the registers already mapped. */
  predicate Uniform<V>(st: seq<RegStatus>, accesses: seq<Access<V>>) {
    && (forall i, k :: 0 <= i < |st| && 0 <= k < |accesses| && st[i].count > 0 ==>
          SameOrApart(st[i].stackpos, st[i].count, accesses[k].pos, Size(accesses[k])))
    && SteadyShapes(accesses)
  }

  /** Each register maps nothing, what it did before, or the slots asked for. */
  predicate MapsOnly(before: seq<RegStatus>, after: seq<RegStatus>, spos: nat, scount: nat) {
    && |after| == |before|
    && forall i :: 0 <= i < |after| && after[i].count > 0 ==>
         || (after[i].stackpos == before[i].stackpos && after[i].count == before[i].count)
         || (after[i].stackpos == spos && after[i].count == scount)
  }

  /** No register is free, and none is worth less than `importance`. */
  ghost predicate FullIn(st: seq<RegStatus>, start: nat, end: nat, preferred: RegSet, fallback: RegSet, importance: CInt)
    requires end <= |st|
    requires preferred.start < preferred.end ==> preferred.end <= |st|
    requires fallback.start < fallback.end ==> fallback.end <= |st|
  {
    && (forall i :: preferred.start <= i < preferred.end || fallback.start <= i < fallback.end ==> st[i].count > 0)
    && (forall i :: start <= i < end ==> importance <= st[i].importance)
  }

  predicate AloneWhenExact(st: seq<RegStatus>, spos: nat) {
    forall e, i :: 0 <= e < |st| && 0 <= i < |st| && IsExact(st[e], spos) && Overlaps(st[i], spos, 4) ==> i == e
  }

  lemma GrantedOutright(was: seq<RegStatus>, spos: nat, importance: CInt, reg: nat)
    requires AloneWhenExact(was, spos) && reg < |was| && IsExact(was[reg], spos)
    ensures Exact(was, spos) && !LeavesStale(was, spos, importance)
  {
  }

  lemma GivenWay(was: seq<RegStatus>, now: seq<RegStatus>, spos: nat, importance: CInt, reg: nat)
    requires AloneWhenExact(was, spos) && |now| == |was| && reg < |was|
    requires Overlaps(was[reg], spos, 4) && importance <= was[reg].importance && !IsExact(was[reg], spos)
    requires now[reg] == was[reg].(modified := false)
    requires forall i :: reg < i < |was| ==> now[i] == was[i]
    requires forall i :: 0 <= i < reg ==> KeptOrEvicted(was[i], now[i], spos, importance) && !Overlaps(now[i], spos, 4)
    ensures !Exact(was, spos) && GivesWay(was, spos, importance)
    ensures LeavesStale(was, spos, importance) <==> StillModified(now, spos)
    ensures StillModified(now, spos) ==> LeavesStale(now, spos, importance)
    ensures !Exact(now, spos) && GivesWay(now, spos, importance)
  {
    assert Overlaps(now[reg], spos, 4) && now[reg].importance == was[reg].importance && !IsExact(now[reg], spos);
  }

  lemma AllCleared(was: seq<RegStatus>, now: seq<RegStatus>, spos: nat, importance: CInt)
    requires |now| == |was|
    requires forall i :: 0 <= i < |was| ==> KeptOrEvicted(was[i], now[i], spos, importance) && !Overlaps(now[i], spos, 4)
    requires forall i :: 0 <= i < |was| && IsExact(was[i], spos) ==> now[i] == was[i]
    ensures !Exact(was, spos) && !GivesWay(was, spos, importance) && !LeavesStale(was, spos, importance)
    ensures !StillModified(now, spos)
  {
  }

  lemma OneRegisterMapped(was: seq<RegStatus>, now: seq<RegStatus>, spos: nat, importance: CInt, reg: int)
    requires |now| == |was|
    requires forall i :: 0 <= i < |was| && i != reg ==> KeptOrEvicted(was[i], now[i], spos, importance)
    requires 0 <= reg < |was| && now[reg].count > 0 ==>
               || (now[reg].stackpos == was[reg].stackpos && now[reg].count == was[reg].count)
               || (now[reg].stackpos == spos && now[reg].count == 4)
    ensures MapsOnly(was, now, spos, 4)
  {
  }

  lemma MappingStaysUniform<V>(before: seq<RegStatus>, after: seq<RegStatus>, accesses: seq<Access<V>>, k: nat)
    requires k < |accesses| && MapsOnly(before, after, accesses[k].pos, Size(accesses[k])) && Uniform(before, accesses)
    ensures Uniform(after, accesses)
  {
  }

  /** A register is as it was, or made way for a more important vector on its slots. */
  predicate KeptOrEvicted(before: RegStatus, after: RegStatus, spos: nat, importance: CInt) {
    || after == before
    || (Overlaps(before, spos, 4) && importance > before.importance
        && after == before.(count := 0, modified := false, initialised := false))
  }

  class RegCache<V(!new)> {
    const start: nat
    const end: nat
    const preferred: RegSet
    const fallback: RegSet
    const zero: V
    const mem: array<V>
    const xmm: array<RegStatus>
    const lanes: array<seq<V>>
    ghost var view: seq<V>

    ghost predicate Configured()
      reads {}
    {
      && start <= end <= FPREG_MAX
      && (preferred.start < preferred.end ==> start <= preferred.start && preferred.end <= end)
      && (fallback.start < fallback.end ==> start <= fallback.start && fallback.end <= end)
      && xmm.Length == FPREG_MAX && lanes.Length == FPREG_MAX
      && mem as object != xmm && mem as object != lanes && xmm as object != lanes
    }

    function EntryOf(i: nat): Entry<V>
      requires i < xmm.Length && i < lanes.Length
      reads xmm, lanes
    {
      var s := xmm[i];
      Entry(s.stackpos, s.count, s.initialised, s.modified, lanes[i])
    }

    ghost function Entries(): (r: seq<Entry<V>>)
      requires Configured()
      reads xmm, lanes
      ensures |r| == FPREG_MAX
      ensures forall i :: 0 <= i < FPREG_MAX ==> r[i] == EntryOf(i)
    {
      seq(FPREG_MAX, i requires 0 <= i < FPREG_MAX reads xmm, lanes => EntryOf(i))
    }

    ghost predicate Valid()
      reads this, xmm, lanes, mem
    {
      && Configured() && |view| == mem.Length
      && (forall i :: 0 <= i < FPREG_MAX ==> |lanes[i]| == 4)
      && (forall i :: 0 <= i < FPREG_MAX ==> xmm[i].count in {0, 1, 4})
      && (forall i :: 0 <= i < FPREG_MAX && xmm[i].count > 0 ==> start <= i < end)
      && (forall i :: 0 <= i < FPREG_MAX && xmm[i].count == 0 ==> !xmm[i].modified && !xmm[i].initialised)
      && Represents(view, mem[..], Entries())
    }

    /** No register is marked modified without holding its value. */
    ghost predicate Quiescent()
      requires Configured()
      reads xmm
    {
      forall i :: 0 <= i < FPREG_MAX && xmm[i].modified ==> xmm[i].initialised
    }

    /** Registers still owing their first write may exist, but not on these slots. */
    ghost predicate SettledOn(spos: nat, scount: nat)
      requires Configured()
      reads xmm
    {
      forall i :: 0 <= i < FPREG_MAX && Overlaps(xmm[i], spos, scount) && xmm[i].modified ==> xmm[i].initialised
    }

    /** Memory changes only by catching up with the view. */
    twostate predicate MemoryCatchesUp()
      reads this, mem
    {
      |view| == mem.Length && forall slot :: 0 <= slot < mem.Length ==> mem[slot] == old(mem[slot]) || mem[slot] == view[slot]
    }

    constructor (mem: array<V>, zero: V, start: nat, end: nat, preferred: RegSet, fallback: RegSet)
      requires start <= end <= FPREG_MAX
      requires preferred.start < preferred.end ==> start <= preferred.start && preferred.end <= end
      requires fallback.start < fallback.end ==> start <= fallback.start && fallback.end <= end
      ensures Valid() && Quiescent() && view == mem[..] && this.mem == mem
      ensures this.start == start && this.end == end && this.preferred == preferred && this.fallback == fallback
      ensures this.zero == zero
      ensures forall i :: 0 <= i < FPREG_MAX ==> xmm[i].count == 0
      ensures fresh(xmm) && fresh(lanes)
    {
      this.mem, this.zero := mem, zero;
      this.start, this.end := start, end;
      this.preferred, this.fallback := preferred, fallback;
      xmm := new RegStatus[FPREG_MAX](_ => RegStatus(0, 0, false, false, 0));
      lanes := new seq<V>[FPREG_MAX](_ => [zero, zero, zero, zero]);
      view := mem[..];
    }

    // ---------------- platform loads and stores ----------------

    method PlatformReadScalarToRegister(reg: nat, stackpos: nat)
      requires reg < lanes.Length && stackpos < mem.Length && mem as object != lanes
      modifies lanes
      ensures lanes[..] == old(lanes[..])[reg := [mem[stackpos], zero, zero, zero]]
    {
      lanes[reg] := [mem[stackpos], zero, zero, zero];
    }

    method PlatformWriteScalarFromRegister(stackpos: nat, reg: nat)
      requires reg < lanes.Length && stackpos < mem.Length && |lanes[reg]| == 4 && mem as object != lanes
      modifies mem
      ensures mem[..] == Overwrite(old(mem[..]), stackpos, lanes[reg][..1])
    {
      mem[stackpos] := lanes[reg][0];
    }

    method PlatformReadVectorToRegister(reg: nat, stackpos: nat)
      requires reg < lanes.Length && stackpos + 4 <= mem.Length && mem as object != lanes
      modifies lanes
      ensures lanes[..] == old(lanes[..])[reg := mem[stackpos..stackpos + 4]]
    {
      lanes[reg] := mem[stackpos..stackpos + 4];
    }

    method PlatformWriteVectorFromRegister(stackpos: nat, reg: nat)
      requires reg < lanes.Length && stackpos + 4 <= mem.Length && |lanes[reg]| == 4 && mem as object != lanes
      modifies mem
      ensures mem[..] == Overwrite(old(mem[..]), stackpos, lanes[reg][..4])
    {
      var v := lanes[reg];
      mem[stackpos], mem[stackpos + 1], mem[stackpos + 2], mem[stackpos + 3] := v[0], v[1], v[2], v[3];
    }

    /** The store of a whole mapped register. */
    method WriteBack(reg: nat, stackpos: nat, sz: nat)
      requires reg < lanes.Length && sz in {1, 4} && stackpos + sz <= mem.Length && |lanes[reg]| == 4 && mem as object != lanes
      modifies mem
      ensures forall slot :: 0 <= slot < mem.Length ==>
                mem[slot] == if stackpos <= slot < stackpos + sz then lanes[reg][slot - stackpos] else old(mem[slot])
    {
      if sz == 4 {
        PlatformWriteVectorFromRegister(stackpos, reg);
      } else {
        PlatformWriteScalarFromRegister(stackpos, reg);
      }
    }

    // ---------------- choosing a register ----------------

    predicate NoneFree(set_: RegSet)
      requires Configured() && set_ in {preferred, fallback}
      reads xmm
    {
      forall i :: set_.start <= i < set_.end ==> xmm[i].count > 0
    }

    predicate IsFirstFree(set_: RegSet, reg: nat)
      requires Configured() && set_ in {preferred, fallback}
      reads xmm
    {
      set_.start <= reg < set_.end && xmm[reg].count == 0 && forall i :: set_.start <= i < reg ==> xmm[i].count > 0
    }

    /** The first free register of the preferred ones, or else of the others, or else the first
        of the least important. */
    method ChooseExistingRegister(importance: CInt) returns (ok: bool, reg: nat)
      requires Configured()
      ensures ok ==> start <= reg < end
      ensures ok ==> xmm[reg].count == 0 || importance > xmm[reg].importance
      ensures !ok ==> Full(importance)
      ensures ok ==> !Full(importance)
      ensures ok && xmm[reg].count > 0 ==> forall i :: start <= i < end ==> xmm[reg].importance <= xmm[i].importance
      ensures !NoneFree(preferred) ==> ok && IsFirstFree(preferred, reg)
      ensures NoneFree(preferred) && !NoneFree(fallback) ==> ok && IsFirstFree(fallback, reg)
      ensures NoneFree(preferred) && NoneFree(fallback) && ok ==>
                forall i :: start <= i < end ==> xmm[reg].importance <= xmm[i].importance && (i < reg ==> xmm[reg].importance < xmm[i].importance)
    {
      var lowprio: CInt := INT_MAX;
      var lowreg: nat := 0;
      var i := preferred.start;
      while i < preferred.end
        invariant preferred.start <= i
        invariant forall k :: preferred.start <= k < i ==> k < preferred.end && xmm[k].count > 0
      {
        if xmm[i].count == 0 {
          return true, i;
        }
        i := i + 1;
      }
      i := fallback.start;
      while i < fallback.end
        invariant fallback.start <= i
        invariant forall k :: fallback.start <= k < i ==> k < fallback.end && xmm[k].count > 0
      {
        if xmm[i].count == 0 {
          return true, i;
        }
        i := i + 1;
      }
      i := start;
      while i < end
        invariant start <= i <= end
        invariant forall k :: start <= k < i ==> lowprio <= xmm[k].importance
        invariant lowprio < INT_MAX ==> start <= lowreg < i && xmm[lowreg].importance == lowprio
        invariant lowprio < INT_MAX ==> forall k :: start <= k < lowreg ==> lowprio < xmm[k].importance
      {
        if xmm[i].importance < lowprio {
          lowprio := xmm[i].importance;
          lowreg := i;
        }
        i := i + 1;
      }
      if importance > lowprio {
        return true, lowreg;
      } else {
        return false, 0;
      }
    }

    // ---------------- bookkeeping ----------------

    method UpdateRegisterState(reg: nat, importance: CInt, access: AccessType)
      requires reg < xmm.Length
      modifies xmm
      ensures xmm[..] == old(xmm[..])[reg := old(xmm[reg]).(importance := importance, modified := old(xmm[reg]).modified || access.write)]
    {
      xmm[reg] := xmm[reg].(importance := importance);
      xmm[reg] := xmm[reg].(modified := xmm[reg].modified || access.write);
    }

    method UpdateRegister(reg: nat, spos: nat, scount: nat, importance: CInt, access: AccessType)
      requires reg < xmm.Length && xmm[reg].count == 0
      modifies xmm
      ensures xmm[..] == old(xmm[..])[reg := old(xmm[reg]).(stackpos := spos, count := scount, importance := importance,
                                                            modified := old(xmm[reg]).modified || access.write)]
    {
      xmm[reg] := xmm[reg].(stackpos := spos);
      xmm[reg] := xmm[reg].(count := scount);
      UpdateRegisterState(reg, importance, access);
    }

    /** A mapped register's slots are slots of memory, and hold the view once initialised. */
    lemma RegisterHoldsView(reg: nat)
      requires Valid() && reg < FPREG_MAX && xmm[reg].count > 0
      ensures xmm[reg].stackpos + xmm[reg].count <= mem.Length
      ensures xmm[reg].initialised ==> forall k :: 0 <= k < xmm[reg].count ==> lanes[reg][k] == view[xmm[reg].stackpos + k]
      ensures !xmm[reg].initialised ==> forall k :: xmm[reg].stackpos <= k < xmm[reg].stackpos + xmm[reg].count ==> mem[k] == view[k]
    {
      hide Represents;
      EntryHoldsView(view, mem[..], Entries(), reg);
    }

    /** A change to one register is harmless if its lanes hold the view wherever it counts as
        initialised, and memory has the view wherever a modified mark was cleared. */
    twostate lemma ChangeKeepsValid(reg: nat)
      requires old(Valid()) && Configured() && view == old(view) && MemoryCatchesUp()
      requires reg < FPREG_MAX && old(xmm[reg]).count > 0 && |lanes[reg]| == 4
      requires forall i :: 0 <= i < FPREG_MAX && i != reg ==> xmm[i] == old(xmm[i]) && lanes[i] == old(lanes[i])
      requires xmm[reg].stackpos == old(xmm[reg]).stackpos
      requires (xmm[reg].count == 0 && !xmm[reg].modified && !xmm[reg].initialised) || xmm[reg].count == old(xmm[reg]).count
      requires xmm[reg].count > 0 && xmm[reg].initialised ==>
                 && xmm[reg].stackpos + xmm[reg].count <= mem.Length
                 && forall k :: 0 <= k < xmm[reg].count ==> lanes[reg][k] == view[xmm[reg].stackpos + k]
      requires old(xmm[reg]).modified && old(xmm[reg]).initialised && !(xmm[reg].count > 0 && xmm[reg].modified && xmm[reg].initialised) ==>
                 && xmm[reg].stackpos + old(xmm[reg]).count <= mem.Length
                 && forall k :: xmm[reg].stackpos <= k < xmm[reg].stackpos + old(xmm[reg]).count ==> mem[k] == view[k]
      ensures Valid()
    {
      var before, after := old(Entries()), Entries();
      assert Shaped(before[reg], mem.Length);
      assert EntryStep(view, mem[..], before[reg], after[reg]);
      StepKeepsView(view, old(mem[..]), mem[..], before, after);
    }

    method InitialiseRegister(reg: nat)
      requires Valid() && reg < FPREG_MAX && xmm[reg].count > 0 && !xmm[reg].initialised
      modifies xmm, lanes
      ensures Valid()
      ensures xmm[..] == old(xmm[..])[reg := old(xmm[reg]).(initialised := true)]
    {
      hide Represents;
      RegisterHoldsView(reg);
      var spos := xmm[reg].stackpos;
      var sz := xmm[reg].count;
      if sz == 4 {
        PlatformReadVectorToRegister(reg, spos);
      } else {
        PlatformReadScalarToRegister(reg, spos);
      }
      xmm[reg] := xmm[reg].(initialised := true);
      ChangeKeepsValid(reg);
    }

    /** Writes a modified register back and keeps it mapped. */
    method FlushRegister(reg: nat) returns (written: bool)
      requires Valid() && reg < FPREG_MAX
      requires xmm[reg].modified ==> xmm[reg].initialised
      modifies xmm, mem
      ensures Valid()
      ensures written == old(xmm[reg]).modified
      ensures xmm[..] == old(xmm[..])[reg := old(xmm[reg]).(modified := false)]
      ensures forall slot :: 0 <= slot < mem.Length ==>
                mem[slot] == if old(xmm[reg]).modified && Covers(old(EntryOf(reg)), slot) then view[slot] else old(mem[slot])
    {
      hide Represents;
      var spos := xmm[reg].stackpos;
      var sz := xmm[reg].count;
      if sz == 0 {
        return false;
      }
      if xmm[reg].modified {
        RegisterHoldsView(reg);
        WriteBack(reg, spos, sz);
        forall slot | spos <= slot < spos + sz ensures mem[slot] == view[slot] {
          assert lanes[reg][slot - spos] == view[spos + (slot - spos)];
        }
        xmm[reg] := xmm[reg].(modified := false);
        ChangeKeepsValid(reg);
        return true;
      }
      return false;
    }

    method FlushAllRegisters()
      requires Valid() && Quiescent()
      modifies xmm, mem
      ensures Valid() && Quiescent()
      ensures forall i :: 0 <= i < FPREG_MAX ==> xmm[i] == old(xmm[i]).(modified := false)
      ensures mem[..] == view
    {
      var i := start;
      while i != end
        invariant start <= i <= end
        invariant Valid() && Quiescent()
        invariant forall k :: 0 <= k < FPREG_MAX ==>
                    xmm[k] == if start <= k < i then old(xmm[k]).(modified := false) else old(xmm[k])
      {
        var _ := FlushRegister(i);
        i := i + 1;
      }
      NothingOwed(view, mem[..], Entries());
    }

    /** The compiled instruction has just written the register. */
    method NotifyRegisterWritten(reg: nat, writeSize: nat)
      requires reg < xmm.Length
      modifies xmm
      ensures xmm[..] == old(xmm[..])[reg := old(xmm[reg]).(initialised := true, modified := true)]
    {
      xmm[reg] := xmm[reg].(initialised := true, modified := true);
    }

    method EvictRegister(reg: nat)
      requires reg < xmm.Length
      modifies xmm
      ensures xmm[..] == old(xmm[..])[reg := old(xmm[reg]).(count := 0, modified := false, initialised := false)]
    {
      xmm[reg] := xmm[reg].(count := 0);
      xmm[reg] := xmm[reg].(modified := false, initialised := false);
    }

    method WriteAndEvictRegister(reg: nat)
      requires Valid() && reg < FPREG_MAX
      modifies xmm, mem
      ensures Valid() && MemoryCatchesUp()
      ensures old(xmm[reg]).count == 0 ==> mem[..] == old(mem[..])
      ensures xmm[..] == old(xmm[..])[reg := old(xmm[reg]).(count := 0, modified := false, initialised := false)]
    {
      hide Represents;
      var s := xmm[reg];
      var sz := s.count;
      if sz == 0 {
        return;
      }
      RegisterHoldsView(reg);
      if s.initialised && s.modified {
        WriteBack(reg, s.stackpos, sz);
      }
      EvictRegister(reg);
      ChangeKeepsValid(reg);
    }

    // ---------------- overlap ----------------

    ghost predicate Untouched(spos: nat, scount: nat)
      requires Configured()
      reads xmm
    {
      forall i :: start <= i < end ==> !Overlaps(xmm[i], spos, scount)
    }

    ghost predicate StartsAt(spos: nat)
      requires Configured()
      reads xmm
    {
      exists i :: start <= i < end && xmm[i].count > 0 && xmm[i].stackpos == spos
    }

    ghost predicate Full(importance: CInt)
      requires Configured()
      reads xmm
    {
      FullIn(xmm[..], start, end, preferred, fallback, importance)
    }

    method CheckForOverlap(spos: nat, scount: nat) returns (overlap: Overlap, reg: nat, importance: CInt)
      requires Configured() && scount > 0
      ensures overlap == None <==> Untouched(spos, scount)
      ensures overlap != None ==>
                && start <= reg < end && Overlaps(xmm[reg], spos, scount) && importance == xmm[reg].importance
                && (forall i :: start <= i < reg ==> !Overlaps(xmm[i], spos, scount))
                && (overlap in {Aligned, AlignedSubset, AlignedSuperset} <==> xmm[reg].stackpos == spos)
                && (overlap in {Aligned, AlignedSubset, Subset} <==> Within(spos, scount, xmm[reg].stackpos, xmm[reg].count))
                && (overlap in {Aligned, AlignedSuperset, Superset} <==> Within(xmm[reg].stackpos, xmm[reg].count, spos, scount))
    {
      reg, importance := 0, 0;
      var i := start;
      while i < end
        invariant start <= i <= end
        invariant forall k :: start <= k < i ==> !Overlaps(xmm[k], spos, scount)
      {
        var s := xmm[i];
        if s.count > 0 && ((s.stackpos >= spos && s.stackpos < spos + scount) || (spos >= s.stackpos && spos < s.stackpos + s.count)) {
          reg := i;
          importance := s.importance;
          if s.stackpos == spos {
            if scount == s.count {
              return Aligned, reg, importance;
            } else if scount < s.count {
              return AlignedSubset, reg, importance;
            } else {
              return AlignedSuperset, reg, importance;
            }
          } else if spos > s.stackpos && spos + scount <= s.stackpos + s.count {
            return Subset, reg, importance;
          } else if spos < s.stackpos && spos + scount >= s.stackpos + s.count {
            return Superset, reg, importance;
          } else {
            return Unaligned, reg, importance;
          }
        }
        i := i + 1;
      }
      overlap := None;
    }

    method IsLocationInRegisterCache(spos: nat, scount: nat) returns (cached: bool)
      requires Configured() && scount > 0
      ensures cached <==> !Untouched(spos, scount)
    {
      var overlap, _, _ := CheckForOverlap(spos, scount);
      cached := overlap != None;
    }

    // ---------------- acquiring ----------------

    /** Register `reg` stands for the slots, ready for the access. */
    ghost predicate Granted(reg: nat, spos: nat, scount: nat, access: AccessType, importance: CInt)
      requires Valid() && spos + scount <= mem.Length
      reads this, xmm, lanes, mem
    {
      && start <= reg < end
      && xmm[reg].stackpos == spos && scount <= xmm[reg].count && xmm[reg].importance == importance
      && (access.read ==> xmm[reg].initialised)
      && (access.write ==> xmm[reg].modified)
      && (xmm[reg].initialised ==> lanes[reg][..scount] == view[spos..spos + scount])
    }

    /** updateRegisterState on a register in use. */
    method Touch(reg: nat, importance: CInt, access: AccessType)
      requires Valid() && reg < FPREG_MAX && xmm[reg].count > 0
      modifies xmm
      ensures Valid()
      ensures xmm[..] == old(xmm[..])[reg := old(xmm[reg]).(importance := importance, modified := old(xmm[reg]).modified || access.write)]
    {
      hide Represents;
      RegisterHoldsView(reg);
      UpdateRegisterState(reg, importance, access);
      ChangeKeepsValid(reg);
    }

    /** updateRegister on a register just emptied. */
    method Map(reg: nat, spos: nat, scount: nat, importance: CInt, access: AccessType)
      requires Valid() && start <= reg < end && xmm[reg].count == 0
      requires scount in {1, 4} && spos + scount <= mem.Length && Untouched(spos, scount)
      modifies xmm
      ensures Valid()
      ensures xmm[..] == old(xmm[..])[reg := RegStatus(spos, scount, access.write, false, importance)]
    {
      ghost var before := Entries();
      ghost var e := Entry(spos, scount, false, access.write, lanes[reg]);
      forall j | 0 <= j < FPREG_MAX ensures Apart(before[j], e) {
        assert before[j] == EntryOf(j);
        assert xmm[j].count > 0 ==> !Overlaps(xmm[j], spos, scount);
      }
      UpdateRegister(reg, spos, scount, importance, access);
      assert Entries() == before[reg := e];
      MapKeepsView(view, mem[..], before, Entries());
    }

    /** Hands out a register that already stands for the slots. */
    method Reuse(reg: nat, spos: nat, scount: nat, importance: CInt, access: AccessType)
      requires Valid() && start <= reg < end && scount > 0 && spos + scount <= mem.Length
      requires xmm[reg].stackpos == spos && scount <= xmm[reg].count
      modifies xmm, lanes
      ensures Valid() && Granted(reg, spos, scount, access, importance)
      ensures xmm[reg].initialised && xmm[reg].stackpos == old(xmm[reg]).stackpos && xmm[reg].count == old(xmm[reg]).count
      ensures forall i :: 0 <= i < FPREG_MAX && i != reg ==> xmm[i] == old(xmm[i])
    {
      hide Represents;
      if !xmm[reg].initialised {
        InitialiseRegister(reg);
      }
      Touch(reg, importance, access);
      RegisterHoldsView(reg);
    }

    /** Takes a register over for slots no register maps. */
    method Claim(reg: nat, spos: nat, scount: nat, importance: CInt, access: AccessType)
      requires Valid() && start <= reg < end && scount in {1, 4} && spos + scount <= mem.Length
      requires Untouched(spos, scount)
      modifies xmm, lanes, mem
      ensures Valid() && Granted(reg, spos, scount, access, importance) && MemoryCatchesUp()
      ensures xmm[reg].count == scount
      ensures old(xmm[reg]).count == 0 ==> mem[..] == old(mem[..])
      ensures forall i :: 0 <= i < FPREG_MAX && i != reg ==> xmm[i] == old(xmm[i])
    {
      hide Represents;
      WriteAndEvictRegister(reg);
      Map(reg, spos, scount, importance, access);
      if access.read {
        InitialiseRegister(reg);
        RegisterHoldsView(reg);
      }
    }

    /** Takes a free or less important register over, if there is one. */
    method ClaimAny(spos: nat, scount: nat, importance: CInt, access: AccessType) returns (ok: bool, reg: nat)
      requires Valid() && scount in {1, 4} && spos + scount <= mem.Length && Untouched(spos, scount)
      modifies xmm, lanes, mem
      ensures Valid() && MemoryCatchesUp()
      ensures ok <==> !old(Full(importance))
      ensures ok ==> Granted(reg, spos, scount, access, importance) && start <= reg < end && xmm[reg].stackpos == spos && xmm[reg].count == scount
      ensures ok ==> old(xmm[reg]).count == 0 || importance > old(xmm[reg]).importance
      ensures ok && old(xmm[reg]).count == 0 ==> mem[..] == old(mem[..])
      ensures forall i :: 0 <= i < FPREG_MAX && !(ok && i == reg) ==> xmm[i] == old(xmm[i])
      ensures !ok ==> mem[..] == old(mem[..]) && xmm[..] == old(xmm[..])
    {
      hide Represents, FullIn;
      ok, reg := ChooseExistingRegister(importance);
      if ok {
        Claim(reg, spos, scount, importance, access);
      }
    }

    /** With no register on them, or only clean ones, the slots can be read from memory. */
    lemma CleanSlotsInMemory(spos: nat, scount: nat)
      requires Valid() && spos + scount <= mem.Length
      requires forall i :: 0 <= i < FPREG_MAX && Overlaps(xmm[i], spos, scount) ==> !(xmm[i].modified && xmm[i].initialised)
      ensures mem[spos..spos + scount] == view[spos..spos + scount]
    {
      forall slot | spos <= slot < spos + scount ensures mem[slot] == view[slot] {
        if Owed(Entries(), slot) {
          var i :| 0 <= i < FPREG_MAX && Covers(Entries()[i], slot) && Entries()[i].init && Entries()[i].dirty;
          assert Overlaps(xmm[i], spos, scount);
        }
      }
    }

    /** Two registers never map the same slot. */
    lemma OnlyOneOverlaps(spos: nat, i: nat, j: nat)
      requires Valid() && i < FPREG_MAX && j < FPREG_MAX
      requires Overlaps(xmm[i], spos, 1) && Overlaps(xmm[j], spos, 1)
      ensures i == j
    {
      var ents := Entries();
      assert i < j ==> Apart(ents[i], ents[j]);
      assert j < i ==> Apart(ents[j], ents[i]);
    }

    /** A register is on the slot at a different lane: write it back and let memory serve. */
    method DeferScalar(spos: nat, other: nat)
      requires Valid() && spos < mem.Length && SettledOn(spos, 1)
      requires other < FPREG_MAX && Overlaps(xmm[other], spos, 1)
      modifies xmm, mem
      ensures Valid() && MemoryCatchesUp() && mem[spos] == view[spos]
      ensures forall i :: 0 <= i < FPREG_MAX ==>
                xmm[i] == if Overlaps(old(xmm[i]), spos, 1) then old(xmm[i]).(modified := false) else old(xmm[i])
    {
      forall i | 0 <= i < FPREG_MAX && Overlaps(xmm[i], spos, 1) ensures i == other {
        OnlyOneOverlaps(spos, i, other);
      }
      var _ := FlushRegister(other);
      CleanSlotsInMemory(spos, 1);
      assert mem[spos..spos + 1][0] == view[spos..spos + 1][0];
    }

    method AcquireScalarRegister(spos: nat, access: AccessType, importance: CInt) returns (ok: bool, reg: nat)
      requires Valid() && spos < mem.Length && SettledOn(spos, 1)
      modifies xmm, lanes, mem
      ensures Valid() && MemoryCatchesUp()
      ensures ok <==> old(StartsAt(spos)) || (old(Untouched(spos, 1)) && !old(Full(importance)))
      ensures ok ==> Granted(reg, spos, 1, access, importance) && (xmm[reg].count > 1 ==> xmm[reg].initialised)
      ensures ok ==> forall i :: 0 <= i < FPREG_MAX && i != reg ==> xmm[i] == old(xmm[i])
      ensures ok && !old(StartsAt(spos)) ==>
                xmm[reg].count == 1 && (old(xmm[reg]).count == 0 || importance > old(xmm[reg]).importance)
      ensures ok && old(StartsAt(spos)) ==> xmm[reg].count == old(xmm[reg]).count
      ensures ok && old(xmm[reg]).count == 0 ==> mem[..] == old(mem[..])
      ensures MapsOnly(old(xmm[..]), xmm[..], spos, 1)
      ensures !ok ==> mem[spos] == view[spos]
      ensures !ok ==> forall i :: 0 <= i < FPREG_MAX ==>
                xmm[i] == if Overlaps(old(xmm[i]), spos, 1) then old(xmm[i]).(modified := false) else old(xmm[i])
    {
      hide Represents, FullIn;
      var overlap, overlapReg, _ := CheckForOverlap(spos, 1);
      if overlap == Aligned || overlap == AlignedSubset {
        Reuse(overlapReg, spos, 1, importance, access);
        return true, overlapReg;
      } else if overlap != None {
        OthersDoNotStart(spos, overlapReg);
        DeferScalar(spos, overlapReg);
        return false, 0;
      }
      ok, reg := ClaimAny(spos, 1, importance, access);
      if !ok {
        CleanSlotsInMemory(spos, 1);
        assert mem[spos..spos + 1][0] == view[spos..spos + 1][0];
      }
    }

    lemma OthersDoNotStart(spos: nat, other: nat)
      requires Valid() && start <= other < end
      requires Overlaps(xmm[other], spos, 1) && xmm[other].stackpos != spos
      ensures !StartsAt(spos)
    {
      forall i | start <= i < end && xmm[i].count > 0 ensures xmm[i].stackpos != spos {
        if Overlaps(xmm[i], spos, 1) {
          OnlyOneOverlaps(spos, i, other);
        }
      }
    }

    ghost function Occupied(): set<nat>
      requires Configured()
      reads xmm
    {
      set i: nat | i < FPREG_MAX && xmm[i].count > 0
    }

    /** Slots 'spos' to 'spos+4' mapped exactly are mapped by that register alone. */
    lemma ExactOverlapsAlone(spos: nat, e: nat, i: nat)
      requires Valid() && e < FPREG_MAX && i < FPREG_MAX
      requires IsExact(xmm[e], spos) && Overlaps(xmm[i], spos, 4)
      ensures i == e
    {
      var ents := Entries();
      assert i < e ==> Apart(ents[i], ents[e]);
      assert e < i ==> Apart(ents[e], ents[i]);
    }

    /** The retry loop of a vector acquire: evict less important overlapping registers until
        none is left, one stands for exactly these slots, or one must be given way to.  It
        works through the registers in order and leaves those behind the last one alone. */
    method ClearWay(spos: nat, importance: CInt) returns (overlap: Overlap, reg: nat)
      requires Valid() && spos + 4 <= mem.Length
      modifies xmm, mem
      ensures Valid() && MemoryCatchesUp()
      ensures forall i :: 0 <= i < FPREG_MAX ==> KeptOrEvicted(old(xmm[i]), xmm[i], spos, importance)
      ensures (forall i :: 0 <= i < FPREG_MAX ==> xmm[i] == old(xmm[i])) ==> mem[..] == old(mem[..])
      ensures forall i :: 0 <= i < FPREG_MAX && IsExact(old(xmm[i]), spos) ==> xmm[i] == old(xmm[i])
      ensures overlap == None ==> Untouched(spos, 4) && forall i :: 0 <= i < FPREG_MAX ==> !Overlaps(xmm[i], spos, 4)
      ensures overlap != None ==> start <= reg < end && Overlaps(xmm[reg], spos, 4)
      ensures overlap != None ==> forall i :: reg <= i < FPREG_MAX ==> xmm[i] == old(xmm[i])
      ensures overlap != None ==> forall i :: 0 <= i < reg ==> !Overlaps(xmm[i], spos, 4)
      ensures overlap in {Aligned, AlignedSubset} ==> xmm[reg].stackpos == spos && xmm[reg].count == 4
      ensures overlap !in {None, Aligned, AlignedSubset} ==> importance <= xmm[reg].importance && !IsExact(xmm[reg], spos)
    {
      hide Represents;
      ghost var reached: nat := 0;
      while true
        invariant Valid() && MemoryCatchesUp()
        invariant forall i :: 0 <= i < FPREG_MAX ==> KeptOrEvicted(old(xmm[i]), xmm[i], spos, importance)
        invariant (forall i :: 0 <= i < FPREG_MAX ==> xmm[i] == old(xmm[i])) ==> mem[..] == old(mem[..])
        invariant forall i :: 0 <= i < FPREG_MAX && IsExact(old(xmm[i]), spos) ==> xmm[i] == old(xmm[i])
        invariant forall i :: 0 <= i < FPREG_MAX && i < reached ==> !Overlaps(xmm[i], spos, 4)
        invariant forall i :: reached <= i < FPREG_MAX ==> xmm[i] == old(xmm[i])
        decreases Occupied()
      {
        var overlapImportance;
        overlap, reg, overlapImportance := CheckForOverlap(spos, 4);
        assert overlap != None ==> reached <= reg;
        if overlap !in {None, Aligned, AlignedSubset} && importance > overlapImportance {
          ghost var occupied := Occupied();
          WriteAndEvictRegister(reg);
          assert reg in occupied && reg !in Occupied();
          assert Occupied() < occupied;
          reached := reg + 1;
        } else {
          return;
        }
      }
    }

    lemma ExactAlone(spos: nat)
      requires Valid()
      ensures AloneWhenExact(xmm[..], spos)
    {
      forall e, i | 0 <= e < FPREG_MAX && 0 <= i < FPREG_MAX && IsExact(xmm[e], spos) && Overlaps(xmm[i], spos, 4) ensures i == e {
        ExactOverlapsAlone(spos, e, i);
      }
    }

    /** Evicting only registers worth less than the request does not change whether one can be
        had: an evicted register is worth less itself. */
    lemma FullAsBefore(was: seq<RegStatus>, importance: CInt, spos: nat)
      requires Valid() && |was| == FPREG_MAX
      requires forall i :: 0 <= i < FPREG_MAX ==> KeptOrEvicted(was[i], xmm[i], spos, importance)
      requires forall i :: 0 <= i < FPREG_MAX && was[i].count > 0 ==> start <= i < end
      ensures Full(importance) <==> FullIn(was, start, end, preferred, fallback, importance)
    {
    }

    /** Unless other registers were evicted as well, only slots of register d were written back. */
    twostate predicate OnlyItsOwn(d: nat)
      requires Configured() && d < FPREG_MAX
      reads this, xmm, lanes, mem
    {
      (forall i :: 0 <= i < FPREG_MAX && i != d ==> xmm[i] == old(xmm[i])) ==>
        forall slot :: 0 <= slot < mem.Length && !Covers(EntryOf(d), slot) ==> mem[slot] == old(mem[slot])
    }

    /** Gives way to a register at least as important: writes it back and keeps it. */
    method DeferVector(ghost was: seq<RegStatus>, spos: nat, importance: CInt, reg: nat)
      requires Valid() && reg < FPREG_MAX && (xmm[reg].modified ==> xmm[reg].initialised)
      requires |was| == FPREG_MAX && AloneWhenExact(was, spos)
      requires Overlaps(was[reg], spos, 4) && importance <= was[reg].importance && !IsExact(was[reg], spos)
      requires forall i :: reg <= i < FPREG_MAX ==> xmm[i] == was[i]
      requires forall i :: 0 <= i < reg ==> KeptOrEvicted(was[i], xmm[i], spos, importance) && !Overlaps(xmm[i], spos, 4)
      modifies xmm, mem
      ensures Valid() && MemoryCatchesUp() && OnlyItsOwn(reg)
      ensures xmm[..] == old(xmm[..])[reg := was[reg].(modified := false)]
      ensures !Exact(was, spos) && GivesWay(was, spos, importance)
      ensures LeavesStale(was, spos, importance) <==> StillModified(xmm[..], spos)
      ensures StillModified(xmm[..], spos) ==> LeavesStale(xmm[..], spos, importance)
      ensures !Exact(xmm[..], spos) && GivesWay(xmm[..], spos, importance)
    {
      hide Represents, LeavesStale, GivesWay, Exact, StillModified, AloneWhenExact;
      var _ := FlushRegister(reg);
      GivenWay(was, xmm[..], spos, importance, reg);
    }

    /** When refused, `deferredTo` names the register given way to, or -1 if none was free. */
    method AcquireVectorRegister(spos: nat, access: AccessType, importance: CInt) returns (ok: bool, reg: nat, ghost deferredTo: int)
      requires Valid() && spos + 4 <= mem.Length && SettledOn(spos, 4)
      modifies xmm, lanes, mem
      ensures Valid() && MemoryCatchesUp()
      ensures ok <==> old(Exact(xmm[..], spos)) || (!old(GivesWay(xmm[..], spos, importance)) && !old(Full(importance)))
      ensures !ok ==> (deferredTo == -1 <==> !old(GivesWay(xmm[..], spos, importance)))
      ensures !ok && StillModified(xmm[..], spos) <==> old(LeavesStale(xmm[..], spos, importance))
      ensures !ok && StillModified(xmm[..], spos) ==> LeavesStale(xmm[..], spos, importance)
      ensures !ok && deferredTo != -1 ==> !Exact(xmm[..], spos) && GivesWay(xmm[..], spos, importance)
      ensures MapsOnly(old(xmm[..]), xmm[..], spos, 4)
      ensures ok ==> Granted(reg, spos, 4, access, importance)
      ensures ok ==> forall i :: 0 <= i < FPREG_MAX && i != reg ==> KeptOrEvicted(old(xmm[i]), xmm[i], spos, importance)
      ensures !ok && deferredTo == -1 ==>
                && Untouched(spos, 4) && Full(importance)
                && forall i :: 0 <= i < FPREG_MAX ==> KeptOrEvicted(old(xmm[i]), xmm[i], spos, importance)
      ensures !ok && deferredTo != -1 ==>
                && start <= deferredTo < end && Overlaps(old(xmm[deferredTo]), spos, 4)
                && importance <= old(xmm[deferredTo]).importance
                && xmm[deferredTo] == old(xmm[deferredTo]).(modified := false)
                && (forall i :: 0 <= i < deferredTo ==> KeptOrEvicted(old(xmm[i]), xmm[i], spos, importance) && !Overlaps(xmm[i], spos, 4))
                && (forall i :: deferredTo < i < FPREG_MAX ==> xmm[i] == old(xmm[i]))
                && OnlyItsOwn(deferredTo)
    {
      hide Represents, LeavesStale, GivesWay, Exact, StillModified, FullIn, AloneWhenExact, MapsOnly, KeptOrEvicted, Overlaps, Granted;
      ExactAlone(spos);
      ghost var was := xmm[..];
      var overlap;
      overlap, reg := ClearWay(spos, importance);
      if overlap == Aligned || overlap == AlignedSubset {
        GrantedOutright(was, spos, importance, reg);
        Reuse(reg, spos, 4, importance, access);
        OneRegisterMapped(was, xmm[..], spos, importance, reg);
        return true, reg, -1;
      } else if overlap != None {
        DeferVector(was, spos, importance, reg);
        OneRegisterMapped(was, xmm[..], spos, importance, reg);
        return false, 0, reg;
      }
      AllCleared(was, xmm[..], spos, importance);
      FullAsBefore(was, importance, spos);
      ok, reg := ClaimAny(spos, 4, importance, access);
      deferredTo := -1;
      OneRegisterMapped(was, xmm[..], spos, importance, if ok then reg else -1);
    }

    /** A register mapped to nothing may hold anything. */
    lemma UnmappedLanesAreFree(before: seq<Entry<V>>, reg: nat)
      requires Configured() && reg < FPREG_MAX && xmm[reg].count == 0
      requires |before| == FPREG_MAX && Represents(view, mem[..], before)
      requires Entries() == before[reg := EntryOf(reg)] && before[reg].len == 0
      ensures Represents(view, mem[..], Entries())
    {
      StepKeepsView(view, mem[..], mem[..], before, Entries());
    }

    /** Loads memory into a register outside the cache. */
    method LoadTemporary(reg: nat, spos: nat, scount: nat)
      requires Valid() && reg < FPREG_MAX && xmm[reg].count == 0 && scount in {1, 4} && spos + scount <= mem.Length
      modifies lanes
      ensures Valid() && lanes[reg][..scount] == mem[spos..spos + scount]
      ensures forall i :: 0 <= i < FPREG_MAX && i != reg ==> lanes[i] == old(lanes[i])
    {
      ghost var before := Entries();
      if scount == 4 {
        PlatformReadVectorToRegister(reg, spos);
      } else {
        PlatformReadScalarToRegister(reg, spos);
      }
      UnmappedLanesAreFree(before, reg);
    }

    /** Always leaves the viewed value in the register handed back. */
    method AcquireScalarRegisterOrLoad(spos: nat, access: AccessType, importance: CInt, regToLoad: nat) returns (ok: bool, reg: nat)
      requires Valid() && spos < mem.Length && SettledOn(spos, 1)
      requires regToLoad < FPREG_MAX && !(start <= regToLoad < end) && access.read
      modifies xmm, lanes, mem
      ensures Valid() && MemoryCatchesUp() && (old(Quiescent()) ==> Quiescent())
      ensures ok ==> Granted(reg, spos, 1, access, importance)
      ensures MapsOnly(old(xmm[..]), xmm[..], spos, 1)
      ensures !ok ==> reg == regToLoad
      ensures reg < FPREG_MAX && lanes[reg][0] == view[spos]
    {
      hide Represents;
      ok, reg := AcquireScalarRegister(spos, access, importance);
      if ok {
        assert lanes[reg][..1][0] == view[spos..spos + 1][0];
      } else {
        LoadTemporary(regToLoad, spos, 1);
        reg := regToLoad;
      }
    }

    /** The register handed back holds the viewed vector unless, as the registers stood before
        the call, the request gives way to one and leaves another one behind it modified. */
    method AcquireVectorRegisterOrLoad(spos: nat, access: AccessType, importance: CInt, regToLoad: nat)
      returns (ok: bool, reg: nat, ghost deferredTo: int)
      requires Valid() && spos + 4 <= mem.Length && SettledOn(spos, 4)
      requires regToLoad < FPREG_MAX && !(start <= regToLoad < end) && access.read
      modifies xmm, lanes, mem
      ensures Valid() && MemoryCatchesUp() && (old(Quiescent()) ==> Quiescent())
      ensures ok <==> old(Exact(xmm[..], spos)) || (!old(GivesWay(xmm[..], spos, importance)) && !old(Full(importance)))
      ensures MapsOnly(old(xmm[..]), xmm[..], spos, 4)
      ensures ok ==> Granted(reg, spos, 4, access, importance)
      ensures !ok ==> reg == regToLoad && lanes[reg] == mem[spos..spos + 4]
      ensures reg < FPREG_MAX && |lanes[reg]| == 4
      ensures !ok && deferredTo != -1 ==>
                && start <= deferredTo < end && Overlaps(old(xmm[deferredTo]), spos, 4) && OnlyItsOwn(deferredTo)
                && xmm[deferredTo] == old(xmm[deferredTo]).(modified := false)
                && (forall i :: 0 <= i < deferredTo ==> KeptOrEvicted(old(xmm[i]), xmm[i], spos, importance))
                && (forall i :: deferredTo < i < FPREG_MAX ==> xmm[i] == old(xmm[i]))
      ensures !ok && deferredTo == -1 ==> !StillModified(xmm[..], spos)
      ensures old(LeavesStale(xmm[..], spos, importance)) <==> !ok && StillModified(xmm[..], spos)
      ensures old(LeavesStale(xmm[..], spos, importance)) ==> LeavesStale(xmm[..], spos, importance)
      ensures !old(LeavesStale(xmm[..], spos, importance)) ==> lanes[reg] == view[spos..spos + 4]
    {
      hide Represents, GivesWay, Exact, FullIn, LeavesStale;
      ok, reg, deferredTo := AcquireVectorRegister(spos, access, importance);
      if ok {
        assert xmm[reg].count == 4;
        assert lanes[reg][..4] == lanes[reg];
      } else {
        if !StillModified(xmm[..], spos) {
          CleanSlotsInMemory(spos, 4);
        }
        LoadTemporary(regToLoad, spos, 4);
        reg := regToLoad;
      }
    }

    /** A load straight after a refusal is right, whatever memory holds, exactly when no register
        on the slots is still modified. */
    lemma StillModifiedMeansUnsafe(spos: nat, a: V, b: V)
      requires Valid() && Quiescent() && spos + 4 <= mem.Length && a != b
      ensures DirectLoadIsSafe(view, Entries(), spos, 4) <==> !StillModified(xmm[..], spos)
    {
      hide Represents, DirectLoadIsSafe;
      LoadIff(spos, 4, a, b);
      assert StillModified(xmm[..], spos) <==>
             exists i :: start <= i < end && Overlaps(xmm[i], spos, 4) && xmm[i].modified && xmm[i].initialised;
    }

    /** When the load after a refusal can be trusted, judged from the flags alone. */
    lemma LoadIff(spos: nat, scount: nat, a: V, b: V)
      requires Valid() && spos + scount <= mem.Length && scount > 0 && a != b
      ensures DirectLoadIsSafe(view, Entries(), spos, scount) <==>
              forall i :: start <= i < end && Overlaps(xmm[i], spos, scount) ==> !(xmm[i].modified && xmm[i].initialised)
    {
      DirectLoadIff(view, mem[..], Entries(), spos, scount, a, b);
      forall i | start <= i < end && Overlaps(xmm[i], spos, scount) && xmm[i].modified && xmm[i].initialised
        ensures exists slot :: spos <= slot < spos + scount && Owed(Entries(), slot)
      {
        var slot := if xmm[i].stackpos >= spos then xmm[i].stackpos else spos;
        assert Covers(Entries()[i], slot);
        assert Owed(Entries(), slot);
      }
      forall slot | spos <= slot < spos + scount && Owed(Entries(), slot)
        ensures exists i :: start <= i < end && Overlaps(xmm[i], spos, scount) && xmm[i].modified && xmm[i].initialised
      {
        var i :| 0 <= i < FPREG_MAX && Covers(Entries()[i], slot) && Entries()[i].init && Entries()[i].dirty;
        assert Overlaps(xmm[i], spos, scount);
      }
    }

    /** When a store straight to memory keeps the cache truthful, judged from the flags alone. */
    lemma StoreIff(spos: nat, scount: nat, a: V, b: V)
      requires Valid() && spos + scount <= mem.Length && scount > 0 && a != b
      ensures DirectStoreIsSafe(view, mem[..], Entries(), spos, scount) <==>
              forall i :: start <= i < end && Overlaps(xmm[i], spos, scount) ==> !xmm[i].initialised
    {
      DirectStoreIff(view, mem[..], Entries(), spos, scount, a, b);
      forall i | start <= i < end && Overlaps(xmm[i], spos, scount) && xmm[i].initialised
        ensures exists slot :: spos <= slot < spos + scount && Cached(Entries(), slot)
      {
        var slot := if xmm[i].stackpos >= spos then xmm[i].stackpos else spos;
        assert Covers(Entries()[i], slot);
        assert Cached(Entries(), slot);
      }
      forall slot | spos <= slot < spos + scount && Cached(Entries(), slot)
        ensures exists i :: start <= i < end && Overlaps(xmm[i], spos, scount) && xmm[i].initialised
      {
        var i :| 0 <= i < FPREG_MAX && Covers(Entries()[i], slot) && Entries()[i].init;
        assert Overlaps(xmm[i], spos, scount);
      }
    }

    // ---------------- giving slots back ----------------

    /** At a branch target the cache starts again from memory. */
    method PlatformWriteAndEvictAll()
      requires Valid()
      modifies xmm, mem
      ensures Valid() && mem[..] == view
      ensures forall i :: 0 <= i < FPREG_MAX ==> xmm[i].count == 0
    {
      for i := start to end
        invariant Valid()
        invariant forall k :: 0 <= k < FPREG_MAX && !(i <= k < end) ==> xmm[k].count == 0
      {
        WriteAndEvictRegister(i);
      }
      NothingOwed(view, mem[..], Entries());
    }

    /** Before outside code looks at slots from .. to. */
    method PlatformWriteAndEvictByStack(from: nat, to: nat)
      requires Valid() && from <= to <= mem.Length
      modifies xmm, mem
      ensures Valid() && MemoryCatchesUp()
      ensures mem[from..to] == view[from..to]
      ensures forall i, slot :: 0 <= i < FPREG_MAX && from <= slot < to ==> !Covers(EntryOf(i), slot)
    {
      for i := start to end
        invariant Valid() && MemoryCatchesUp()
        invariant forall k :: start <= k < i && xmm[k].count > 0 ==> xmm[k].stackpos >= to || xmm[k].stackpos + xmm[k].count <= from
      {
        if xmm[i].stackpos < to && xmm[i].stackpos + xmm[i].count > from {
          WriteAndEvictRegister(i);
        }
      }
      if from < to {
        CleanSlotsInMemory(from, to - from);
      }
    }

    // ---------------- the cache's own checker ----------------

    /** True exactly when empty registers carry no flags and no slot is mapped twice. */
    method ValidateRegCache() returns (ok: bool)
      requires Configured()
      ensures ok <==>
              && (forall i :: start <= i < end && xmm[i].count == 0 ==> !xmm[i].modified && !xmm[i].initialised)
              && (forall i, j :: start <= i < j < end ==> Apart(EntryOf(i), EntryOf(j)))
    {
      var i := start;
      while i < end
        invariant start <= i <= end
        invariant forall k :: start <= k < i && xmm[k].count == 0 ==> !xmm[k].modified && !xmm[k].initialised
        invariant forall k, j :: start <= k < i && start <= j < end && k != j ==> Apart(EntryOf(k), EntryOf(j))
      {
        var s1 := xmm[i];
        if s1.count == 0 {
          if s1.modified || s1.initialised {
            return false;
          }
          i := i + 1;
          continue;
        }
        var j := start;
        while j < end
          invariant start <= j <= end
          invariant forall k :: start <= k < j && k != i ==> Apart(EntryOf(i), EntryOf(k))
        {
          var s2 := xmm[j];
          if i != j && s2.count != 0 {
            if s1.stackpos >= s2.stackpos && s1.stackpos < s2.stackpos + s2.count {
              assert !Apart(EntryOf(i), EntryOf(j)) && !Apart(EntryOf(j), EntryOf(i));
              return false;
            }
            if s2.stackpos >= s1.stackpos && s2.stackpos < s1.stackpos + s1.count {
              assert !Apart(EntryOf(i), EntryOf(j)) && !Apart(EntryOf(j), EntryOf(i));
              return false;
            }
          }
          j := j + 1;
        }
        i := i + 1;
      }
      return true;
    }

    /** The checker never complains about a reachable cache. */
    method ValidateReachable() returns (ok: bool)
      requires Valid()
      ensures ok
    {
      ok := ValidateRegCache();
      assert forall i, j :: start <= i < j < end ==> Apart(Entries()[i], Entries()[j]);
    }

    // ---------------- runs ----------------

    /** The compiled instruction's own writes: its lanes, then the notification. A scalar
        write of this kind leaves the upper lanes of a wider register alone. */
    method WriteLanes(reg: nat, vals: seq<V>, writeSize: nat)
      requires Valid() && reg < FPREG_MAX && |vals| == 4
      requires writeSize in {1, 4} && writeSize <= xmm[reg].count
      requires xmm[reg].count > writeSize ==> xmm[reg].initialised && forall k :: writeSize <= k < 4 ==> vals[k] == lanes[reg][k]
      modifies xmm, lanes, this`view
      ensures Valid() && xmm[reg].stackpos + writeSize <= mem.Length
      ensures view == Overwrite(old(view), xmm[reg].stackpos, vals[..writeSize])
      ensures xmm[..] == old(xmm[..])[reg := old(xmm[reg]).(initialised := true, modified := true)]
    {
      hide Represents;
      ghost var before := Entries();
      ghost var e := before[reg];
      EntryHoldsView(view, mem[..], before, reg);
      if e.len > writeSize {
        RegisterHoldsView(reg);
        OverwriteWithSame(view, e.pos, vals[..e.len], writeSize);
        assert vals[..e.len][..writeSize] == vals[..writeSize];
      }
      lanes[reg] := vals;
      NotifyRegisterWritten(reg, writeSize);
      view := Overwrite(view, e.pos, vals[..e.len]);
      assert Entries() == before[reg := e.(init := true, dirty := true, vals := vals)];
      WrittenEntryIsView(old(view), mem[..], before, reg, vals);
    }

    lemma WrittenEntryIsView(was: seq<V>, mem: seq<V>, ents: seq<Entry<V>>, reg: nat, vals: seq<V>)
      requires Represents(was, mem, ents)
      requires reg < |ents| && 0 < ents[reg].len <= |vals|
      ensures ents[reg].pos + ents[reg].len <= |was|
      ensures Represents(Overwrite(was, ents[reg].pos, vals[..ents[reg].len]), mem,
                         ents[reg := ents[reg].(init := true, dirty := true, vals := vals)])
    {
      var e := ents[reg];
      assert Shaped(e, |mem|);
      var now := Overwrite(was, e.pos, vals[..e.len]);
      var after := ents[reg := e.(init := true, dirty := true, vals := vals)];
      forall i | 0 <= i < |ents| ensures EntryStored(was, now, ents[i], after[i]) {
        assert i < reg ==> Apart(ents[i], e);
        assert i > reg ==> Apart(e, ents[i]);
      }
      forall slot | 0 <= slot < |mem| ensures now[slot] == was[slot] || Owed(after, slot) {
        assert Covers(e, slot) ==> Covers(after[reg], slot);
      }
      StoreChangesView(was, now, mem, ents, after);
    }

    /** The other kind of scalar write, a move from memory, clears the upper lanes: the cache
        stays truthful exactly when there are none, or the slots they stand for are zero. */
    method WriteScalarZeroing(reg: nat, val: V)
      requires Valid() && reg < FPREG_MAX && xmm[reg].count > 0
      modifies xmm, lanes, this`view
      ensures xmm[..] == old(xmm[..])[reg := old(xmm[reg]).(initialised := true, modified := true)]
      ensures lanes[..] == old(lanes[..])[reg := [val, zero, zero, zero]]
      ensures xmm[reg].stackpos + xmm[reg].count <= mem.Length == |old(view)|
      ensures view == old(view)[xmm[reg].stackpos := val]
      ensures Valid() <==> forall k :: xmm[reg].stackpos < k < xmm[reg].stackpos + xmm[reg].count ==> old(view)[k] == zero
    {
      hide Represents, Overwrite;
      ghost var before := Entries();
      ghost var e := before[reg];
      RegisterHoldsView(reg);
      ghost var vals := [val, zero, zero, zero];
      WrittenEntryIsView(view, mem[..], before, reg, vals);
      lanes[reg] := [val, zero, zero, zero];
      NotifyRegisterWritten(reg, 1);
      view := view[e.pos := val];
      ghost var after := before[reg := e.(init := true, dirty := true, vals := vals)];
      assert Entries() == after;
      if forall k :: e.pos < k < e.pos + e.len ==> old(view)[k] == zero {
        assert Overwrite(old(view), e.pos, vals[..e.len]) == view;
      } else {
        assert after[reg].len == 4;
        HeldLanesAreView(view, mem[..], after, reg);
      }
    }

    /** No two registers map slots from the same one on. */
    lemma OneRegisterPerSlot(a: nat, b: nat)
      requires Valid() && a < FPREG_MAX && b < FPREG_MAX && xmm[a].count > 0 && xmm[b].count > 0
      requires xmm[a].stackpos == xmm[b].stackpos
      ensures a == b
    {
      SameStartSameEntry(Entries(), a, b);
    }

    /** A truthful cache's initialised vector holds the view lane by lane. */
    lemma HeldLanesAreView(was: seq<V>, mem: seq<V>, ents: seq<Entry<V>>, reg: nat)
      requires reg < |ents| && ents[reg].init && ents[reg].len == 4 && |ents[reg].vals| == 4
      requires ents[reg].pos + 4 <= |was|
      ensures Represents(was, mem, ents) ==> forall k :: 0 <= k < 4 ==> was[ents[reg].pos + k] == ents[reg].vals[k]
    {
      var e := ents[reg];
      if Represents(was, mem, ents) {
        forall k | 0 <= k < 4 ensures was[e.pos + k] == e.vals[k] {
          assert Covers(e, e.pos + k);
          assert ValueAt(e, e.pos + k) == was[e.pos + k];
        }
      }
    }

    /** The store used when no register was granted and none maps the slots. */
    method WriteAround(pos: nat, vals: seq<V>)
      requires Valid() && |vals| in {1, 4} && pos + |vals| <= mem.Length && Untouched(pos, |vals|)
      modifies mem, this`view
      ensures Valid() && view == Overwrite(old(view), pos, vals)
    {
      hide Represents;
      forall slot | pos <= slot < pos + |vals| ensures !Cached(Entries(), slot) {
        forall i | 0 <= i < FPREG_MAX ensures !Covers(Entries()[i], slot) {
          assert !Overlaps(xmm[i], pos, |vals|);
        }
      }
      DirectStoreKeepsPace(view, mem[..], Entries(), pos, vals);
      ghost var view' := Overwrite(view, pos, vals);
      ghost var mem' := Overwrite(mem[..], pos, vals);
      var i := 0;
      while i < |vals|
        invariant 0 <= i <= |vals|
        invariant forall k :: 0 <= k < mem.Length ==> mem[k] == if pos <= k < pos + i then vals[k - pos] else old(mem[k])
        modifies mem
      {
        mem[pos + i] := vals[i];
        i := i + 1;
      }
      assert mem[..] == mem';
      view := view';
    }

    method PerformReadScalar(pos: nat, importance: CInt, temp: nat) returns (result: V)
      requires Valid() && Quiescent() && pos < mem.Length
      requires temp < FPREG_MAX && !(start <= temp < end)
      modifies xmm, lanes, mem
      ensures Valid() && Quiescent() && MapsOnly(old(xmm[..]), xmm[..], pos, 1)
      ensures result == view[pos]
    {
      var _, reg := AcquireScalarRegisterOrLoad(pos, AccessType(true, false), importance, temp);
      result := lanes[reg][0];
    }

    method PerformReadVector(pos: nat, importance: CInt, temp: nat) returns (accepted: bool, result: seq<V>)
      requires Valid() && Quiescent() && pos + 4 <= mem.Length
      requires temp < FPREG_MAX && !(start <= temp < end)
      modifies xmm, lanes, mem
      ensures Valid() && Quiescent() && MapsOnly(old(xmm[..]), xmm[..], pos, 4)
      ensures accepted <==> !old(LeavesStale(xmm[..], pos, importance))
      ensures !accepted ==> LeavesStale(xmm[..], pos, importance)
      ensures accepted ==> result == view[pos..pos + 4]
    {
      hide Represents, LeavesStale;
      var ok, reg, deferredTo := AcquireVectorRegisterOrLoad(pos, AccessType(true, false), importance, temp);
      accepted := ok || !StillModified(xmm[..], pos);
      result := lanes[reg];
    }

    method PerformWriteScalar(pos: nat, val: V, importance: CInt) returns (accepted: bool)
      requires Valid() && Quiescent() && pos < mem.Length
      modifies xmm, lanes, mem, this`view
      ensures Valid() && Quiescent() && MapsOnly(old(xmm[..]), xmm[..], pos, 1)
      ensures view == if accepted then old(view)[pos := val] else old(view)
      ensures accepted <==> old(StartsAt(pos)) || old(Untouched(pos, 1))
      ensures !accepted ==> !StartsAt(pos) && !Untouched(pos, 1)
    {
      hide Represents, FullIn;
      var ok, reg := AcquireScalarRegister(pos, AccessType(false, true), importance);
      if ok {
        WriteLanes(reg, [val] + lanes[reg][1..], 1);
      } else {
        var cached := IsLocationInRegisterCache(pos, 1);
        if cached {
          return false;
        }
        WriteAround(pos, [val]);
      }
      return true;
    }

    method PerformWriteVector(pos: nat, vals: seq<V>, importance: CInt) returns (accepted: bool)
      requires Valid() && Quiescent() && |vals| == 4 && pos + 4 <= mem.Length
      modifies xmm, lanes, mem, this`view
      ensures Valid() && Quiescent() && MapsOnly(old(xmm[..]), xmm[..], pos, 4)
      ensures view == if accepted then Overwrite(old(view), pos, vals) else old(view)
      ensures accepted <==> old(Exact(xmm[..], pos)) || !old(GivesWay(xmm[..], pos, importance))
      ensures !accepted ==> !Exact(xmm[..], pos) && GivesWay(xmm[..], pos, importance)
    {
      hide Represents, FullIn, Exact, GivesWay, LeavesStale;
      var ok, reg, deferredTo := AcquireVectorRegister(pos, AccessType(false, true), importance);
      if ok {
        WriteLanes(reg, vals, 4);
        assert vals[..4] == vals;
      } else {
        var cached := IsLocationInRegisterCache(pos, 4);
        if cached {
          return false;
        }
        WriteAround(pos, vals);
      }
      return true;
    }

    /** One access of the compiled program: through a register when one is granted, otherwise
        on memory.  It is not accepted exactly when its load would miss a value still owed to
        memory, or its store would go around a register mapped to the slots. */
    method Perform(a: Access<V>, importance: CInt, temp: nat) returns (accepted: bool, result: seq<V>)
      requires Valid() && Quiescent() && InRange(a, mem.Length)
      requires temp < FPREG_MAX && !(start <= temp < end)
      modifies xmm, lanes, mem, this`view
      ensures Valid() && Quiescent() && MapsOnly(old(xmm[..]), xmm[..], a.pos, Size(a))
      ensures accepted <==> !old(Refused(xmm[..], a, importance))
      ensures accepted ==> view == PlainMemory(old(view), a) && result == PlainResult(old(view), a)
      ensures !accepted ==> view == old(view) && Refused(xmm[..], a, importance)
    {
      hide Represents, Exact, GivesWay, LeavesStale;
      match a
      case ReadScalar(pos) =>
        var v := PerformReadScalar(pos, importance, temp);
        return true, [v];
      case ReadVector(pos) =>
        accepted, result := PerformReadVector(pos, importance, temp);
      case WriteScalar(pos, val) =>
        accepted := PerformWriteScalar(pos, val, importance);
        result := [];
      case WriteVector(pos, vals) =>
        accepted := PerformWriteVector(pos, vals, importance);
        result := [];
    }

    /** Uniform accesses are never refused. */
    lemma UniformIsServed(accesses: seq<Access<V>>, k: nat, importance: CInt)
      requires Valid() && k < |accesses| && Uniform(xmm[..], accesses)
      ensures !Refused(xmm[..], accesses[k], importance)
    {
      ExactAlone(accesses[k].pos);
      var st, a := xmm[..], accesses[k];
      forall i | 0 <= i < FPREG_MAX && Overlaps(st[i], a.pos, Size(a)) ensures st[i].stackpos == a.pos && st[i].count == Size(a) {
        assert SameOrApart(st[i].stackpos, st[i].count, a.pos, Size(a));
      }
    }

    /** A run of accesses, stopped at the first one not accepted, then flushed: memory and
        every value read are those of the same accesses on a plain array.  `atStop` is the
        registers' status just before the flush; it tells why the run stopped, and a run of
        uniform accesses goes to its end. */
    method Run(accesses: seq<Access<V>>, importances: seq<CInt>, temp: nat)
      returns (done: nat, results: seq<seq<V>>, ghost atStop: seq<RegStatus>)
      requires Valid() && Quiescent()
      requires |importances| == |accesses| && forall a :: a in accesses ==> InRange(a, mem.Length)
      requires temp < FPREG_MAX && !(start <= temp < end)
      modifies xmm, lanes, mem, this`view
      ensures Valid() && |atStop| == FPREG_MAX
      ensures forall i :: 0 <= i < FPREG_MAX ==> xmm[i] == atStop[i].(modified := false)
      ensures done <= |accesses|
      ensures done < |accesses| ==> Refused(atStop, accesses[done], importances[done])
      ensures old(Uniform(xmm[..], accesses)) ==> done == |accesses|
      ensures (mem[..], results) == PlainRun(old(view), accesses[..done])
    {
      hide Represents, Refused, Uniform, MapsOnly;
      done, results := 0, [];
      while done < |accesses|
        invariant Valid() && Quiescent() && done <= |accesses|
        invariant old(Uniform(xmm[..], accesses)) ==> Uniform(xmm[..], accesses)
        invariant (view, results) == PlainRun(old(view), accesses[..done])
      {
        ghost var before := xmm[..];
        if Uniform(before, accesses) {
          UniformIsServed(accesses, done, importances[done]);
        }
        var accepted, result := Perform(accesses[done], importances[done], temp);
        if Uniform(before, accesses) {
          MappingStaysUniform(before, xmm[..], accesses, done);
        }
        if !accepted {
          atStop := xmm[..];
          FlushAllRegisters();
          return;
        }
        assert accesses[..done + 1][..done] == accesses[..done];
        results := results + [result];
        done := done + 1;
      }
      atStop := xmm[..];
      FlushAllRegisters();
    }
  }

  /** Writes a scalar no register maps through a free register. */
  method WriteThroughFree(cache: RegCache<int>, pos: nat, val: int, importance: CInt, ghost free: nat) returns (reg: nat)
    requires cache.Valid() && cache.Quiescent() && pos < cache.mem.Length && cache.Untouched(pos, 1)
    requires cache.preferred.start <= free < cache.preferred.end && cache.xmm[free].count == 0
    requires forall i :: 0 <= i < FPREG_MAX && cache.xmm[i].count > 0 ==> importance <= cache.xmm[i].importance
    modifies cache.xmm, cache.lanes, cache.mem, cache`view
    ensures cache.Valid() && cache.Quiescent() && cache.start <= reg < cache.end
    ensures cache.view == old(cache.view)[pos := val] && cache.mem[..] == old(cache.mem[..])
    ensures old(cache.xmm[reg]).count == 0
    ensures cache.xmm[reg] == RegStatus(pos, 1, true, true, importance)
    ensures forall i :: 0 <= i < FPREG_MAX && i != reg ==> cache.xmm[i] == old(cache.xmm[i])
  {
    hide Represents;
    assert !cache.Full(importance);
    var ok;
    ok, reg := cache.AcquireScalarRegister(pos, AccessType(false, true), importance);
    assert cache.xmm[reg].count == 1;
    cache.WriteLanes(reg, [val] + cache.lanes[reg][1..], 1);
  }

  ghost predicate TwoModifiedScalars(cache: RegCache<int>, reg0: nat, reg1: nat)
    reads cache, cache.xmm, cache.lanes, cache.mem
  {
    && cache.Valid() && cache.Quiescent() && cache.start == 2
    && cache.view == [1, 1, 0, 0] && cache.mem[..] == [0, 0, 0, 0]
    && reg0 < FPREG_MAX && reg1 < FPREG_MAX && reg0 != reg1
    && cache.xmm[reg0] == RegStatus(0, 1, true, true, 4)
    && cache.xmm[reg1] == RegStatus(1, 1, true, true, 4)
    && (forall i :: 0 <= i < FPREG_MAX && i != reg0 && i != reg1 ==> cache.xmm[i].count == 0)
  }

  /** Two neighbouring scalars written through registers; memory has neither value yet. */
  method WriteTwoScalars() returns (cache: RegCache<int>, ghost reg0: nat, ghost reg1: nat)
    ensures TwoModifiedScalars(cache, reg0, reg1)
    ensures fresh(cache.xmm) && fresh(cache.lanes) && fresh(cache.mem)
  {
    hide Represents;
    var mem := new int[4](_ => 0);
    cache := new RegCache<int>(mem, 0, 2, 16, RegSet(2, 16), RegSet(0, 0));
    var first := WriteThroughFree(cache, 0, 1, 4, 2);
    var second := WriteThroughFree(cache, 1, 1, 4, if first == 2 then 3 else 2);
    reg0, reg1 := first, second;
  }

  lemma TwoModifiedLeaveStale(st: seq<RegStatus>, reg0: nat, reg1: nat)
    requires |st| == FPREG_MAX && reg0 < FPREG_MAX && reg1 < FPREG_MAX && reg0 != reg1
    requires st[reg0] == RegStatus(0, 1, true, true, 4) && st[reg1] == RegStatus(1, 1, true, true, 4)
    requires forall i :: 0 <= i < FPREG_MAX && i != reg0 && i != reg1 ==> st[i].count == 0
    ensures LeavesStale(st, 0, 0)
    ensures forall i :: 0 <= i < FPREG_MAX && Overlaps(st[i], 0, 4) ==> i == reg0 || i == reg1
  {
    assert Overlaps(st[reg0], 0, 4) && Overlaps(st[reg1], 0, 4);
  }

  /** The refused load going wrong: a vector over two scalars still in registers defers to
      one of them, and only that one's value reaches memory before the load. */
  method StaleVectorLoad() returns (loaded: seq<int>, ghost viewed: seq<int>)
    ensures viewed == [1, 1, 0, 0] && loaded != viewed
  {
    hide Represents, Exact, GivesWay, LeavesStale, StillModified, MapsOnly, FullIn;
    var cache, reg0, reg1 := WriteTwoScalars();
    ghost var st := cache.xmm[..];
    TwoModifiedLeaveStale(st, reg0, reg1);
    var ok, reg, deferredTo := cache.AcquireVectorRegisterOrLoad(0, AccessType(true, false), 0, 0);
    loaded, viewed := cache.lanes[reg], cache.view;
    assert Overlaps(st[deferredTo], 0, 4);
    var slot := if deferredTo == reg0 then 1 else 0;
    assert !Covers(cache.EntryOf(deferredTo), slot);
    assert cache.mem[slot] == 0;
    assert loaded[slot] == 0 && viewed[slot] == 1;
  }

  /** A vector of ones, loaded into a register of an otherwise empty cache. */
  method LoadOnes() returns (cache: RegCache<int>, reg: nat)
    ensures cache.Valid() && cache.view == [1, 1, 1, 1] && cache.zero == 0
    ensures reg < FPREG_MAX && cache.xmm[reg].stackpos == 0 && cache.xmm[reg].count == 4 && cache.xmm[reg].initialised
    ensures forall i :: 0 <= i < FPREG_MAX && i != reg ==> cache.xmm[i].count == 0
    ensures fresh(cache) && fresh(cache.xmm) && fresh(cache.lanes) && fresh(cache.mem)
  {
    hide Represents;
    var mem := new int[4](_ => 1);
    cache := new RegCache<int>(mem, 0, 2, 16, RegSet(2, 16), RegSet(0, 0));
    assert mem[..] == [1, 1, 1, 1];
    cache.Claim(2, 0, 4, 1, AccessType(true, false));
    reg := 2;
  }

  /** A scalar write to the first slot of a loaded vector is handed the vector's register.  When
      the write is a move from memory, the register goes on counting as four slots and is wrong
      on three. */
  method ZeroingBreaksVector() returns (cache: RegCache<int>, ok: bool, reg: nat)
    ensures ok && reg < cache.xmm.Length == cache.lanes.Length && !cache.Valid()
    ensures cache.xmm[reg].stackpos == 0 && cache.xmm[reg].count == 4 && cache.xmm[reg].initialised && cache.xmm[reg].modified
    ensures cache.view == [5, 1, 1, 1] && cache.lanes[reg] == [5, 0, 0, 0]
  {
    hide Represents, MapsOnly, FullIn;
    var loaded;
    cache, loaded := LoadOnes();
    ok, reg := cache.AcquireScalarRegister(0, AccessType(false, true), 1);
    cache.OneRegisterPerSlot(reg, loaded);
    cache.WriteScalarZeroing(reg, 5);
    assert [1, 1, 1, 1][0 := 5] == [5, 1, 1, 1];
    assert [1, 1, 1, 1][1] == 1;
  }
}
