/** The JIT's register cache on ARM VFP: thirty-two single-lane registers in banks of four.
    A scalar takes one register; a vector takes a whole bank, one lane per register. */
module RegCacheArm {
  import opened CacheModel
  import opened JitHelpers

  const FPREG_MAX: nat := 32
  const BANK: nat := 4

  function NextBank(r: nat): (b: nat)
    ensures r <= b < r + BANK && b % BANK == 0
  {
    if r % BANK == 0 then r else r + (BANK - r % BANK)
  }

  function ThisBank(r: nat): (b: nat)
    ensures b <= r < b + BANK && b % BANK == 0
  {
    r - r % BANK
  }

  /** `index` is the lane's place in its vector; it means nothing in an empty register. */
  datatype RegStatus = RegStatus(count: nat, index: nat, stackpos: nat, modified: bool, initialised: bool, importance: CInt)

  /** The register holds one of the slots. */
  predicate On(s: RegStatus, spos: nat, scount: nat) {
    s.count > 0 && spos <= s.stackpos < spos + scount
  }

  /** The whole entry of which s is the first lane shares a slot with the request. */
  predicate Overlaps(s: RegStatus, spos: nat, scount: nat) {
    (s.stackpos >= spos && s.stackpos < spos + scount) || (spos >= s.stackpos && spos < s.stackpos + s.count)
  }

  function Emptied(s: RegStatus): RegStatus {
    s.(count := 0, modified := false, initialised := false)
  }

  /** Register r is empty, a scalar, or lane r mod 4 of the vector that fills its bank. */
  predicate WellBanked(st: seq<RegStatus>, r: nat, start: nat, end: nat)
    requires r < |st|
  {
    var b := ThisBank(r);
    && st[r].count in {0, 1, BANK}
    && (st[r].count == 0 ==> !st[r].modified && !st[r].initialised)
    && (st[r].count == 1 ==> st[r].index == 0)
    && (st[r].count > 0 ==> start <= r < end)
    && (st[r].count == BANK <==> st[b].count == BANK)
    && (st[r].count == BANK ==>
          && st[r].index == r - b && st[r].stackpos == st[b].stackpos + (r - b)
          && st[r].initialised == st[b].initialised && st[r].importance == st[b].importance)
  }

  predicate BanksOk(st: seq<RegStatus>, start: nat, end: nat) {
    forall r :: 0 <= r < |st| ==> WellBanked(st, r, start, end)
  }

  /** The registers that share one entry with reg: its bank if it is a vector, else itself. */
  predicate SameEntry(st: seq<RegStatus>, r: nat, reg: nat)
    requires reg < |st|
  {
    r == reg || (st[reg].count == BANK && ThisBank(r) == ThisBank(reg))
  }

  /** Changing one entry's flags alike in every lane, or emptying it, keeps the banks. */
  lemma EntryChangeKeepsBanks(st: seq<RegStatus>, st': seq<RegStatus>, reg: nat, start: nat, end: nat)
    requires BanksOk(st, start, end) && |st'| == |st| && reg < |st| && st[reg].count > 0
    requires forall r :: 0 <= r < |st| && !SameEntry(st, r, reg) ==> st'[r] == st[r]
    requires
      || (forall r :: 0 <= r < |st| && SameEntry(st, r, reg) ==> st'[r] == Emptied(st[r]))
      || (forall r :: 0 <= r < |st| && SameEntry(st, r, reg) ==>
            && st'[r] == st[r].(modified := st'[r].modified, initialised := st'[r].initialised, importance := st'[r].importance)
            && st'[r].initialised == st'[reg].initialised && st'[r].importance == st'[reg].importance)
    ensures BanksOk(st', start, end)
  {
    forall r | 0 <= r < |st| ensures WellBanked(st', r, start, end) {
      var b := ThisBank(r);
      assert WellBanked(st, r, start, end) && WellBanked(st, b, start, end) && WellBanked(st, reg, start, end);
      assert WellBanked(st, ThisBank(reg), start, end);
    }
  }

  /** The entry that starts at reg, spelt out. */
  lemma EntryFrom(st: seq<RegStatus>, reg: nat, n: nat)
    requires reg < |st| && n in {1, BANK} && st[reg].count == n && (n == BANK ==> reg % BANK == 0)
    ensures forall r :: 0 <= r < |st| ==> (SameEntry(st, r, reg) <==> reg <= r < reg + n)
  {
  }

  /** The same for a register that may be empty. */
  lemma EntryAt(st: seq<RegStatus>, reg: nat, n: nat)
    requires reg < |st| && st[reg].count in {0, 1, BANK} && n == (if st[reg].count > 0 then st[reg].count else 1)
    requires n == BANK ==> reg % BANK == 0
    ensures forall r :: 0 <= r < |st| ==> (SameEntry(st, r, reg) <==> reg <= r < reg + n)
  {
  }

  /** A vector's entry is its bank. */
  lemma BankIsEntry(st: seq<RegStatus>, reg: nat)
    requires reg < |st| && st[reg].count == BANK
    ensures forall r: nat :: SameEntry(st, r, reg) <==> ThisBank(reg) <= r < ThisBank(reg) + BANK
  {
  }

  lemma StoreKeepsBanks(st: seq<RegStatus>, st': seq<RegStatus>, reg: nat, n: nat, start: nat, end: nat)
    requires BanksOk(st, start, end) && |st'| == |st| && n in {1, BANK} && reg + n <= |st|
    requires forall r :: reg <= r < reg + n ==> st[r].count >= n
    requires n == BANK ==> reg % BANK == 0
    requires n == 1 && st[reg].count == BANK ==> st[reg].initialised
    requires forall r :: 0 <= r < |st| ==>
               st'[r] == if reg <= r < reg + n then st[r].(initialised := true, modified := true) else st[r]
    ensures BanksOk(st', start, end)
  {
    forall r | 0 <= r < |st| ensures WellBanked(st', r, start, end) {
      assert WellBanked(st, r, start, end) && WellBanked(st, ThisBank(r), start, end) && WellBanked(st, reg, start, end);
      assert WellBanked(st, ThisBank(reg), start, end);
    }
  }

  /** Filling empty registers with one new entry keeps the banks. */
  lemma MapKeepsBanks(st: seq<RegStatus>, st': seq<RegStatus>, reg: nat, spos: nat, n: nat, start: nat, end: nat)
    requires BanksOk(st, start, end) && |st'| == |st| && n in {1, BANK} && reg + n <= |st|
    requires start <= reg && reg + n <= end && (n == BANK ==> reg % BANK == 0)
    requires forall r :: 0 <= r < |st| && ThisBank(reg) <= r < ThisBank(reg) + BANK ==> st[r].count != BANK
    requires forall r :: reg <= r < reg + n ==> st[r].count == 0
    requires forall r :: reg <= r < reg + n ==>
               && st'[r].count == n && st'[r].index == r - reg && st'[r].stackpos == spos + (r - reg)
               && !st'[r].initialised && st'[r].importance == st'[reg].importance
    requires forall r :: 0 <= r < |st| && !(reg <= r < reg + n) ==> st'[r] == st[r]
    ensures BanksOk(st', start, end)
  {
    forall r | 0 <= r < |st| ensures WellBanked(st', r, start, end) {
      assert WellBanked(st, r, start, end) && WellBanked(st, ThisBank(r), start, end);
    }
  }

  /** The entry the lane belongs to shares a slot with the request. */
  predicate EntryOverlaps(s: RegStatus, spos: nat, scount: nat) {
    s.count > 0 && s.stackpos - s.index < spos + scount && spos < s.stackpos - s.index + s.count
  }

  /** A register is as it was, or made way for a more important vector on its entry's slots. */
  predicate KeptOrEvicted(before: RegStatus, after: RegStatus, spos: nat, importance: CInt) {
    || after == before
    || (EntryOverlaps(before, spos, BANK) && importance > before.importance && after == Emptied(before))
  }

  // ------------------------------------------------------------------
  // What becomes of a request, judged from the registers' status alone
  // ------------------------------------------------------------------

  /** The lane stands in a vector on exactly these slots. */
  predicate IsExact(s: RegStatus, spos: nat) {
    s.count == BANK && s.stackpos - s.index == spos
  }

  predicate Exact(st: seq<RegStatus>, spos: nat) {
    exists r :: 0 <= r < |st| && IsExact(st[r], spos)
  }

  /** Some entry on the vector's slots is worth at least as much as the request. */
  predicate GivesWay(st: seq<RegStatus>, spos: nat, importance: CInt) {
    exists d :: 0 <= d < |st| && EntryOverlaps(st[d], spos, BANK) && importance <= st[d].importance
  }

  /** The register an entry starts at, seen from lane r of it. */
  function FirstLane(st: seq<RegStatus>, r: nat): int
    requires r < |st|
  {
    r - st[r].index
  }

  /** The request gives way to an entry, and one behind it has a modified lane on the slots. */
  predicate LeavesStale(st: seq<RegStatus>, spos: nat, importance: CInt) {
    exists d, j :: 0 <= d < |st| && 0 <= j < |st|
      && EntryOverlaps(st[d], spos, BANK) && importance <= st[d].importance
      && On(st[j], spos, BANK) && st[j].modified && FirstLane(st, d) < FirstLane(st, j)
  }

  /** Some lane on the vector's slots owes memory a value. */
  predicate StillModified(st: seq<RegStatus>, spos: nat) {
    exists r :: 0 <= r < |st| && On(st[r], spos, BANK) && st[r].modified
  }

  /** When an access cannot be served by registers nor go around the cache. */
  predicate Refused<V>(st: seq<RegStatus>, a: Access<V>, importance: CInt) {
    match a
    case ReadScalar(_) => false
    case ReadVector(pos) => LeavesStale(st, pos, importance)
    case WriteScalar(_, _) => false
    case WriteVector(pos, _) => !Exact(st, pos) && GivesWay(st, pos, importance)
  }

  /** The accesses keep to steady shapes, and so do the entries already mapped. */
  predicate Uniform<V>(st: seq<RegStatus>, accesses: seq<Access<V>>) {
    && (forall r, k :: 0 <= r < |st| && 0 <= k < |accesses| && st[r].count > 0 ==>
          SameOrApart(st[r].stackpos - st[r].index, st[r].count, accesses[k].pos, Size(accesses[k])))
    && SteadyShapes(accesses)
  }

  /** Each lane maps nothing, what it did before, or its part of the slots asked for. */
  predicate MapsOnly(before: seq<RegStatus>, after: seq<RegStatus>, spos: nat, scount: nat) {
    && |after| == |before|
    && forall r :: 0 <= r < |after| && after[r].count > 0 ==>
         || (after[r].stackpos == before[r].stackpos && after[r].count == before[r].count && after[r].index == before[r].index)
         || (after[r].stackpos - after[r].index == spos && after[r].count == scount)
  }

  lemma MappingStaysUniform<V>(before: seq<RegStatus>, after: seq<RegStatus>, accesses: seq<Access<V>>, k: nat)
    requires k < |accesses| && MapsOnly(before, after, accesses[k].pos, Size(accesses[k])) && Uniform(before, accesses)
    ensures Uniform(after, accesses)
  {
  }

  /** The status once every entry on the vector's slots has been evicted. */
  function Cleared(st: seq<RegStatus>, spos: nat): (r: seq<RegStatus>)
    ensures |r| == |st|
    ensures forall k :: 0 <= k < |r| ==> r[k] == if EntryOverlaps(st[k], spos, BANK) then Emptied(st[k]) else st[k]
  {
    seq(|st|, k requires 0 <= k < |st| => if EntryOverlaps(st[k], spos, BANK) then Emptied(st[k]) else st[k])
  }

  // ------------------------------------------------------------------
  // What the cache's own checker looks for
  // ------------------------------------------------------------------

  /** Where the lane's entry starts on the stack, by the lane's own account. */
  function EntryStart(s: RegStatus): int {
    s.stackpos - s.index
  }

  predicate StartsWithin(a: RegStatus, b: RegStatus) {
    EntryStart(b) <= EntryStart(a) < EntryStart(b) + b.count
  }

  /** The checker does not compare a lane with these. */
  predicate Exempt(st: seq<RegStatus>, i: nat, j: int)
    requires i < |st|
  {
    if st[i].count > 1 then ThisBank(i) <= j < NextBank(i + 1) else j == i
  }

  predicate OverlapsNone(st: seq<RegStatus>, i: nat, start: nat, end: nat)
    requires i < |st| && end <= |st|
  {
    forall j :: start <= j < end && !Exempt(st, i, j) && st[j].count > 0 ==>
      !StartsWithin(st[i], st[j]) && !StartsWithin(st[j], st[i])
  }

  /** The lanes around a vector's lane are its other lanes, in order. */
  predicate InLine(st: seq<RegStatus>, i: nat)
    requires i < |st| && (st[i].count > 1 ==> i - st[i].index + st[i].count <= |st|)
  {
    && st[i].index <= i
    && (st[i].count > 1 ==>
          && (forall k :: i - st[i].index <= k < i ==> st[k].count == st[i].count && st[k].index + (i - k) == st[i].index)
          && (forall k :: i < k < i - st[i].index + st[i].count ==> st[k].count == st[i].count && st[i].index + (k - i) == st[k].index))
  }

  predicate PassesCheck(st: seq<RegStatus>, i: nat, start: nat, end: nat)
    requires i < |st| && end <= |st| && (st[i].count > 1 ==> i - st[i].index + st[i].count <= |st|)
  {
    if st[i].count == 0 then !st[i].modified && !st[i].initialised && st[i].index == 0
    else OverlapsNone(st, i, start, end) && InLine(st, i)
  }

  // ------------------------------------------------------------------
  // Which bank a vector gets
  // ------------------------------------------------------------------

  predicate BankIn(st: seq<RegStatus>, b: int, from: nat, to: nat) {
    from <= b && b % BANK == 0 && b + BANK <= to && b + BANK <= |st|
  }

  predicate FreeBank(st: seq<RegStatus>, b: nat)
    requires b + BANK <= |st|
  {
    forall k :: b <= k < b + BANK ==> st[k].count == 0
  }

  ghost predicate NoFreeBank(st: seq<RegStatus>, set_: RegSet) {
    forall b :: BankIn(st, b, set_.start, set_.end) ==> !FreeBank(st, b)
  }

  function Larger(a: CInt, b: CInt): CInt {
    if a > b then a else b
  }

  /** What a bank counts as worth: its vector's importance; the highest among its lanes, used
      or not, if its first lane is used; and nothing at all if the first lane is empty. */
  function BankWorth(st: seq<RegStatus>, b: nat): CInt
    requires b + BANK <= |st|
  {
    if st[b].count == BANK then st[b].importance
    else if st[b].count != 0 then
      Larger(Larger(st[b].importance, st[b + 1].importance), Larger(st[b + 2].importance, st[b + 3].importance))
    else INT_MIN
  }

  /** No bank of the two sets is free, and every bank of the range counts at least as much as
      the request. */
  ghost predicate VectorFull(st: seq<RegStatus>, start: nat, end: nat, preferred: RegSet, fallback: RegSet, importance: CInt) {
    && NoFreeBank(st, preferred) && NoFreeBank(st, fallback)
    && forall b :: BankIn(st, b, start, end) ==> importance <= BankWorth(st, b)
  }

  ghost predicate IsFirstFreeBank(st: seq<RegStatus>, set_: RegSet, b: nat) {
    BankIn(st, b, set_.start, set_.end) && FreeBank(st, b) && forall c :: BankIn(st, c, set_.start, set_.end) && c < b ==> !FreeBank(st, c)
  }

  /** For want of a free bank: the first least important vector if one is worth less than the
      request, and otherwise the first bank of scalars that counts least. */
  ghost predicate IsLeastBank(st: seq<RegStatus>, start: nat, end: nat, importance: CInt, b: nat)
    requires b + BANK <= |st|
  {
    if exists c :: BankIn(st, c, start, end) && st[c].count == BANK && st[c].importance < importance then
      && st[b].count == BANK
      && forall c :: BankIn(st, c, start, end) && st[c].count == BANK ==>
           st[b].importance <= st[c].importance && (c < b ==> st[b].importance < st[c].importance)
    else
      && st[b].count != BANK
      && forall c :: BankIn(st, c, start, end) && st[c].count != BANK ==>
           BankWorth(st, b) <= BankWorth(st, c) && (c < b ==> BankWorth(st, b) < BankWorth(st, c))
  }

  /** Are all lanes that a vector would displace from this bank less important than it? */
  predicate DisplacesOnlyLess(st: seq<RegStatus>, b: nat, importance: CInt)
    requires b + BANK <= |st|
  {
    forall k :: b <= k < b + BANK && st[k].count > 0 ==> importance > st[k].importance
  }

  /** The choice falls on bank b, whose first lane is empty, for want of a free bank and of a
      less important vector. */
  ghost predicate FallsOnHollow(st: seq<RegStatus>, start: nat, end: nat, preferred: RegSet, fallback: RegSet, importance: CInt, b: int) {
    && NoFreeBank(st, preferred) && NoFreeBank(st, fallback)
    && (forall c :: BankIn(st, c, start, end) && st[c].count == BANK ==> importance <= st[c].importance)
    && importance > INT_MIN
    && BankIn(st, b, start, end) && st[b].count == 0
    && (forall c :: BankIn(st, c, start, end) && c < b && st[c].count != BANK ==> BankWorth(st, c) > INT_MIN)
  }

  /** The bank so chosen has a used lane that is worth at least as much as the request. */
  ghost predicate LosesMoreImportant(st: seq<RegStatus>, start: nat, end: nat, preferred: RegSet, fallback: RegSet, importance: CInt, b: int) {
    && FallsOnHollow(st, start, end, preferred, fallback, importance, b)
    && exists k :: b < k < b + BANK && st[k].count > 0 && importance <= st[k].importance
  }

  lemma LastResort(st: seq<RegStatus>, start: nat, end: nat, preferred: RegSet, fallback: RegSet, importance: CInt, b: int)
    requires NoFreeBank(st, preferred) && NoFreeBank(st, fallback)
    requires forall c :: BankIn(st, c, start, end) && st[c].count == BANK ==> importance <= st[c].importance
    requires BankIn(st, b, start, end) && st[b].count != BANK && BankWorth(st, b) < importance
    requires forall c :: BankIn(st, c, start, end) && c < b && st[c].count != BANK ==> BankWorth(st, c) > BankWorth(st, b)
    ensures !DisplacesOnlyLess(st, b, importance) <==> LosesMoreImportant(st, start, end, preferred, fallback, importance, b)
  {
    if st[b].count > 0 {
      forall k | b <= k < b + BANK ensures importance > st[k].importance {
        assert k in {b, b + 1, b + 2, b + 3};
      }
    }
  }

  function HighestOf(st: seq<RegStatus>): CInt
    requires |st| > 0
  {
    var n := |st| - 1;
    if n == 0 then st[0].importance else Larger(HighestOf(st[..n]), st[n].importance)
  }

  lemma FourHighest(st: seq<RegStatus>)
    requires |st| == 4
    ensures HighestOf(st) == Larger(Larger(st[0].importance, st[1].importance), Larger(st[2].importance, st[3].importance))
  {
    assert st[..3][..2] == st[..2] && st[..2][..1] == st[..1];
    assert HighestOf(st[..1]) == st[0].importance;
    assert HighestOf(st[..2]) == Larger(st[0].importance, st[1].importance);
    assert HighestOf(st[..3]) == Larger(HighestOf(st[..2]), st[2].importance);
  }

  /** A vector's lanes are all as important as its first. */
  lemma LanesAlike(st: seq<RegStatus>, b: nat, start: nat, end: nat)
    requires BanksOk(st, start, end) && BankIn(st, b, start, end) && st[b].count == BANK
    ensures forall k :: b <= k < b + BANK ==> st[k].importance == st[b].importance
  {
    forall k | b <= k < b + BANK ensures st[k].importance == st[b].importance {
      assert WellBanked(st, k, start, end) && ThisBank(k) == b;
    }
  }

  // ------------------------------------------------------------------
  // Consequences of the retry loop
  // ------------------------------------------------------------------

  predicate AloneWhenExact(st: seq<RegStatus>, spos: nat) {
    forall e, i :: 0 <= e < |st| && 0 <= i < |st| && IsExact(st[e], spos) && EntryOverlaps(st[i], spos, BANK) ==>
      FirstLane(st, i) == FirstLane(st, e)
  }

  /** A lane on the slots belongs to an entry on the slots. */
  lemma OnMeansOverlaps(st: seq<RegStatus>, r: nat, spos: nat, start: nat, end: nat)
    requires BanksOk(st, start, end) && r < |st| && On(st[r], spos, BANK)
    ensures EntryOverlaps(st[r], spos, BANK)
  {
    assert WellBanked(st, r, start, end);
  }

  lemma GrantedOutright(was: seq<RegStatus>, spos: nat, importance: CInt, reg: nat, start: nat, end: nat)
    requires BanksOk(was, start, end) && AloneWhenExact(was, spos) && reg < |was| && IsExact(was[reg], spos)
    ensures Exact(was, spos) && !LeavesStale(was, spos, importance)
  {
    forall j | 0 <= j < |was| && On(was[j], spos, BANK) ensures EntryOverlaps(was[j], spos, BANK) {
      OnMeansOverlaps(was, j, spos, start, end);
    }
  }

  /** The lanes of one entry are told by where they start. */
  lemma FirstLaneTellsEntry(st: seq<RegStatus>, r: nat, reg: nat, start: nat, end: nat)
    requires BanksOk(st, start, end) && r < |st| && reg < |st| && st[r].count > 0 && st[reg].count > 0
    ensures SameEntry(st, r, reg) <==> FirstLane(st, r) == FirstLane(st, reg)
    ensures 0 <= FirstLane(st, r) <= r && st[FirstLane(st, r)].count == st[r].count
    ensures FirstLane(st, FirstLane(st, r)) == FirstLane(st, r)
    ensures st[FirstLane(st, r)].stackpos == st[r].stackpos - st[r].index && st[FirstLane(st, r)].importance == st[r].importance
  {
    assert WellBanked(st, r, start, end) && WellBanked(st, reg, start, end);
    assert WellBanked(st, ThisBank(r), start, end) && WellBanked(st, ThisBank(reg), start, end);
  }

  /** What is left once an entry at `reg` has been given way to. */
  ghost predicate GaveWayAt(was: seq<RegStatus>, now: seq<RegStatus>, spos: nat, importance: CInt, reg: nat) {
    && |now| == |was| && reg < |was| && was[reg].index == 0
    && EntryOverlaps(was[reg], spos, BANK) && importance <= was[reg].importance && !IsExact(was[reg], spos)
    && (forall r :: 0 <= r < reg ==> KeptOrEvicted(was[r], now[r], spos, importance) && !EntryOverlaps(now[r], spos, BANK))
    && (forall r :: reg <= r < |was| ==>
          now[r] == if SameEntry(was, r, reg) then was[r].(modified := false) else was[r])
  }

  lemma GivenWayIsNotExact(was: seq<RegStatus>, now: seq<RegStatus>, spos: nat, importance: CInt, reg: nat, start: nat, end: nat)
    requires BanksOk(was, start, end) && AloneWhenExact(was, spos) && GaveWayAt(was, now, spos, importance, reg)
    ensures !Exact(was, spos) && !Exact(now, spos)
    ensures GivesWay(was, spos, importance) && GivesWay(now, spos, importance)
  {
    forall e | 0 <= e < |was| && EntryOverlaps(was[e], spos, BANK) && FirstLane(was, e) == reg
      ensures IsExact(was[e], spos) <==> IsExact(was[reg], spos)
    {
      FirstLaneTellsEntry(was, e, reg, start, end);
    }
    assert EntryOverlaps(now[reg], spos, BANK) && now[reg].importance == was[reg].importance;
  }

  /** Entries on the slots that come after reg are untouched. */
  lemma BehindIsUntouched(was: seq<RegStatus>, now: seq<RegStatus>, spos: nat, importance: CInt, reg: nat, j: nat, start: nat, end: nat)
    requires BanksOk(was, start, end) && GaveWayAt(was, now, spos, importance, reg) && j < |was| && was[j].count > 0
    ensures reg < FirstLane(was, j) ==> now[j] == was[j]
    ensures FirstLane(was, j) == reg ==> !now[j].modified
    ensures On(now[j], spos, BANK) ==> now[j].stackpos == was[j].stackpos && FirstLane(was, j) >= reg
  {
    FirstLaneTellsEntry(was, j, reg, start, end);
    if On(now[j], spos, BANK) {
      OnMeansOverlaps(was, j, spos, start, end);
      assert j >= reg;
      assert WellBanked(was, j, start, end) && WellBanked(was, reg, start, end);
    }
  }

  lemma GivenWay(was: seq<RegStatus>, now: seq<RegStatus>, spos: nat, importance: CInt, reg: nat, start: nat, end: nat)
    requires BanksOk(was, start, end) && AloneWhenExact(was, spos) && GaveWayAt(was, now, spos, importance, reg)
    ensures LeavesStale(was, spos, importance) <==> StillModified(now, spos)
    ensures StillModified(now, spos) ==> LeavesStale(now, spos, importance)
  {
    if d, j :| 0 <= d < |was| && 0 <= j < |was| && EntryOverlaps(was[d], spos, BANK) && importance <= was[d].importance
               && On(was[j], spos, BANK) && was[j].modified && FirstLane(was, d) < FirstLane(was, j) {
      FirstLaneTellsEntry(was, d, reg, start, end);
      assert EntryOverlaps(was[FirstLane(was, d)], spos, BANK);
      assert FirstLane(was, d) >= reg;
      BehindIsUntouched(was, now, spos, importance, reg, j, start, end);
      assert On(now[j], spos, BANK) && now[j].modified;
    }
    if j :| 0 <= j < |now| && On(now[j], spos, BANK) && now[j].modified {
      assert was[j].count > 0;
      BehindIsUntouched(was, now, spos, importance, reg, j, start, end);
      assert FirstLane(was, reg) < FirstLane(was, j);
      assert On(was[j], spos, BANK) && was[j].modified;
      assert EntryOverlaps(now[reg], spos, BANK) && FirstLane(now, reg) < FirstLane(now, j);
    }
  }

  lemma AllCleared(was: seq<RegStatus>, now: seq<RegStatus>, spos: nat, importance: CInt, start: nat, end: nat)
    requires BanksOk(was, start, end) && |now| == |was|
    requires forall r :: 0 <= r < |was| ==> KeptOrEvicted(was[r], now[r], spos, importance) && !EntryOverlaps(now[r], spos, BANK)
    requires forall r :: 0 <= r < |was| && IsExact(was[r], spos) ==> now[r] == was[r]
    ensures !Exact(was, spos) && !GivesWay(was, spos, importance) && !LeavesStale(was, spos, importance)
    ensures now == Cleared(was, spos) && !StillModified(now, spos)
  {
    forall r | 0 <= r < |now| ensures !On(now[r], spos, BANK) {
      assert WellBanked(was, r, start, end);
    }
  }

  lemma SamePlaces(was: seq<RegStatus>, now: seq<RegStatus>, spos: nat, scount: nat)
    requires |now| == |was|
    requires forall r :: 0 <= r < |was| ==>
               now[r].stackpos == was[r].stackpos && now[r].count == was[r].count && now[r].index == was[r].index
    ensures MapsOnly(was, now, spos, scount)
  {
  }

  lemma OneLaneMapped(was: seq<RegStatus>, now: seq<RegStatus>, spos: nat, reg: nat)
    requires |now| == |was| && reg < |was| && now[reg].count == 1 && now[reg].index == 0 && now[reg].stackpos == spos
    requires forall r :: 0 <= r < |was| && r != reg ==> now[r] == was[r]
    ensures MapsOnly(was, now, spos, 1)
  {
  }

  lemma GivenWayMapsNothing(was: seq<RegStatus>, now: seq<RegStatus>, spos: nat, importance: CInt, reg: nat)
    requires GaveWayAt(was, now, spos, importance, reg)
    ensures MapsOnly(was, now, spos, BANK)
  {
    OneBankMapped(was, now, spos, importance, reg, |was|);
  }

  lemma OneBankMapped(was: seq<RegStatus>, now: seq<RegStatus>, spos: nat, importance: CInt, lo: int, hi: int)
    requires |now| == |was|
    requires forall r :: 0 <= r < |was| && !(lo <= r < hi) ==> KeptOrEvicted(was[r], now[r], spos, importance)
    requires forall r :: 0 <= r < |was| && lo <= r < hi && now[r].count > 0 ==>
               || (now[r].stackpos == was[r].stackpos && now[r].count == was[r].count && now[r].index == was[r].index)
               || (now[r].stackpos - now[r].index == spos && now[r].count == BANK)
    ensures MapsOnly(was, now, spos, BANK)
  {
  }

  class RegCache<V(!new)> {
    const start: nat
    const end: nat
    const preferred: RegSet
    const fallback: RegSet
    const mem: array<V>
    const s: array<RegStatus>
    const f: array<V>
    ghost var view: seq<V>

    ghost predicate Configured()
    {
      && start <= end <= FPREG_MAX && start % BANK == 0 && end % BANK == 0
      && (preferred.start < preferred.end ==> start <= preferred.start && preferred.end <= end)
      && (fallback.start < fallback.end ==> start <= fallback.start && fallback.end <= end)
      && s.Length == FPREG_MAX && f.Length == FPREG_MAX
      && mem as object != s && mem as object != f && s as object != f
    }

    function EntryOf(i: nat): Entry<V>
      requires i < s.Length && i < f.Length
      reads s, f
    {
      Entry(s[i].stackpos, if s[i].count == 0 then 0 else 1, s[i].initialised, s[i].modified, [f[i]])
    }

    ghost function Entries(): (r: seq<Entry<V>>)
      requires Configured()
      reads s, f
      ensures |r| == FPREG_MAX
      ensures forall i :: 0 <= i < FPREG_MAX ==> r[i] == EntryOf(i)
    {
      seq(FPREG_MAX, i requires 0 <= i < FPREG_MAX reads s, f => EntryOf(i))
    }

    /** Each bank is one vector or four registers that are empty or scalars. */
    ghost predicate Banked()
      requires Configured()
      reads s
    {
      BanksOk(s[..], start, end)
    }

    ghost predicate Valid()
      reads this, s, f, mem
    {
      && Configured() && |view| == mem.Length
      && Banked()
      && Represents(view, mem[..], Entries())
    }

    /** No register is marked modified without holding its value. */
    ghost predicate Quiescent()
      requires Configured()
      reads s
    {
      forall i :: 0 <= i < FPREG_MAX && s[i].modified ==> s[i].initialised
    }

    /** Memory changes only by catching up with the view. */
    twostate predicate MemoryCatchesUp()
      reads this, mem
    {
      |view| == mem.Length && forall slot :: 0 <= slot < mem.Length ==> mem[slot] == old(mem[slot]) || mem[slot] == view[slot]
    }

    constructor (mem: array<V>, any: V, start: nat, end: nat, preferred: RegSet, fallback: RegSet)
      requires start <= end <= FPREG_MAX && start % BANK == 0 && end % BANK == 0
      requires preferred.start < preferred.end ==> start <= preferred.start && preferred.end <= end
      requires fallback.start < fallback.end ==> start <= fallback.start && fallback.end <= end
      ensures Valid() && Quiescent() && view == mem[..] && this.mem == mem
      ensures this.start == start && this.end == end && this.preferred == preferred && this.fallback == fallback
      ensures forall i :: 0 <= i < FPREG_MAX ==> s[i].count == 0
      ensures fresh(s) && fresh(f)
    {
      this.mem := mem;
      this.start, this.end := start, end;
      this.preferred, this.fallback := preferred, fallback;
      s := new RegStatus[FPREG_MAX](_ => RegStatus(0, 0, 0, false, false, 0));
      f := new V[FPREG_MAX](_ => any);
      view := mem[..];
    }

    // ---------------- platform loads and stores ----------------

    method PlatformReadScalarToRegister(reg: nat, stackpos: nat)
      requires reg < f.Length && stackpos < mem.Length && mem as object != f
      modifies f
      ensures forall r :: 0 <= r < f.Length ==> f[r] == if r == reg then mem[stackpos] else old(f[r])
    {
      f[reg] := mem[stackpos];
    }

    method PlatformWriteScalarFromRegister(stackpos: nat, reg: nat)
      requires reg < f.Length && stackpos < mem.Length && mem as object != f
      modifies mem
      ensures forall k :: 0 <= k < mem.Length ==> mem[k] == if k == stackpos then f[reg] else old(mem[k])
    {
      mem[stackpos] := f[reg];
    }

    method PlatformReadVectorToRegister(reg: nat, stackpos: nat)
      requires reg + BANK <= f.Length && stackpos + BANK <= mem.Length && mem as object != f
      modifies f
      ensures forall r :: 0 <= r < f.Length ==> f[r] == if reg <= r < reg + BANK then mem[stackpos + (r - reg)] else old(f[r])
    {
      f[reg], f[reg + 1], f[reg + 2], f[reg + 3] := mem[stackpos], mem[stackpos + 1], mem[stackpos + 2], mem[stackpos + 3];
    }

    method PlatformWriteVectorFromRegister(stackpos: nat, reg: nat)
      requires reg + BANK <= f.Length && stackpos + BANK <= mem.Length && mem as object != f
      modifies mem
      ensures forall k :: 0 <= k < mem.Length ==>
                mem[k] == if stackpos <= k < stackpos + BANK then f[reg + (k - stackpos)] else old(mem[k])
    {
      mem[stackpos], mem[stackpos + 1], mem[stackpos + 2], mem[stackpos + 3] := f[reg], f[reg + 1], f[reg + 2], f[reg + 3];
    }

    // ---------------- choosing registers ----------------

    /** No register of the two sets is free, and no scalar is worth less than `importance`. */
    ghost predicate ScalarFull(importance: CInt)
      requires Configured()
      reads s
    {
      && (forall i :: preferred.start <= i < preferred.end || fallback.start <= i < fallback.end ==> s[i].count > 0)
      && (forall i :: start <= i < end && s[i].count == 1 ==> importance <= s[i].importance)
    }

    /** The source ends with a scan for vectors from nextbank(start) to thisbank(start).
        That range is empty, so a scalar never takes a vector's bank and the scan is not
        written here. */
    lemma VectorScanIsEmpty()
      ensures ThisBank(start) <= NextBank(start)
    {
    }

    predicate NoneFree(set_: RegSet)
      requires Configured() && set_ in {preferred, fallback}
      reads s
    {
      forall i :: set_.start <= i < set_.end ==> s[i].count > 0
    }

    predicate IsFirstFree(set_: RegSet, reg: nat)
      requires Configured() && set_ in {preferred, fallback}
      reads s
    {
      set_.start <= reg < set_.end && s[reg].count == 0 && forall i :: set_.start <= i < reg ==> s[i].count > 0
    }

    /** The first free lane of the preferred ones, or else of the others, or else the first of
        the least important scalars. */
    method ChooseExistingScalarRegister(importance: CInt) returns (ok: bool, reg: nat)
      requires Configured()
      ensures ok ==> start <= reg < end && (s[reg].count == 0 || (s[reg].count == 1 && importance > s[reg].importance))
      ensures ok <==> !ScalarFull(importance)
      ensures !NoneFree(preferred) ==> IsFirstFree(preferred, reg)
      ensures NoneFree(preferred) && !NoneFree(fallback) ==> IsFirstFree(fallback, reg)
      ensures NoneFree(preferred) && NoneFree(fallback) && ok ==>
                && s[reg].count == 1
                && forall i :: start <= i < end && s[i].count == 1 ==>
                     s[reg].importance <= s[i].importance && (i < reg ==> s[reg].importance < s[i].importance)
    {
      var lowprio: CInt := INT_MAX;
      var lowreg: nat := 0;
      var i := preferred.start;
      while i < preferred.end
        invariant preferred.start <= i
        invariant forall k :: preferred.start <= k < i ==> k < preferred.end && s[k].count > 0
      {
        if s[i].count == 0 {
          return true, i;
        }
        i := i + 1;
      }
      i := fallback.start;
      while i < fallback.end
        invariant fallback.start <= i
        invariant forall k :: fallback.start <= k < i ==> k < fallback.end && s[k].count > 0
      {
        if s[i].count == 0 {
          return true, i;
        }
        i := i + 1;
      }
      i := start;
      while i < end
        invariant start <= i <= end
        invariant forall k :: start <= k < i && s[k].count == 1 ==> lowprio <= s[k].importance
        invariant lowprio < INT_MAX ==> start <= lowreg < i && s[lowreg].count == 1 && s[lowreg].importance == lowprio
        invariant lowprio < INT_MAX ==> forall k :: start <= k < lowreg && s[k].count == 1 ==> lowprio < s[k].importance
      {
        if s[i].importance < lowprio && s[i].count == 1 {
          lowprio := s[i].importance;
          lowreg := i;
        }
        i := i + 1;
      }
      if importance > lowprio {
        return true, lowreg;
      }
      return false, 0;
    }

    method BankIsFree(b: nat) returns (free: bool)
      requires Configured() && b + BANK <= FPREG_MAX
      ensures free <==> forall k :: b <= k < b + BANK ==> s[k].count == 0
    {
      var count := 0;
      for j := 0 to BANK
        invariant 0 <= count
        invariant count == 0 <==> forall k :: b <= k < b + j ==> s[k].count == 0
      {
        count := count + (if s[b + j].count != 0 then 1 else 0);
      }
      free := count == 0;
    }

    method FindFreeBank(set_: RegSet) returns (ok: bool, reg: nat)
      requires Configured() && (set_.start < set_.end ==> start <= set_.start && set_.end <= end)
      ensures ok <==> !NoFreeBank(s[..], set_)
      ensures ok ==> BankIn(s[..], reg, start, end) && FreeBank(s[..], reg)
      ensures ok ==> IsFirstFreeBank(s[..], set_, reg)
    {
      var i := NextBank(set_.start);
      while i < ThisBank(set_.end)
        invariant set_.start <= i && i % BANK == 0
        invariant forall b :: BankIn(s[..], b, set_.start, set_.end) && b < i ==> !FreeBank(s[..], b)
      {
        var free := BankIsFree(i);
        if free {
          assert BankIn(s[..], i, set_.start, set_.end);
          return true, i;
        }
        assert !FreeBank(s[..], i);
        NoBankBetween(s[..], i, set_.start, set_.end);
        i := i + BANK;
      }
      return false, 0;
    }

    /** Banks follow each other in steps of four. */
    lemma NoBankBetween(st: seq<RegStatus>, i: nat, from: nat, to: nat)
      requires i % BANK == 0
      ensures (i + BANK) % BANK == 0
      ensures forall b :: BankIn(st, b, from, to) && b < i + BANK ==> b <= i
    {
    }

    /** The most important lane of a bank in use. */
    method HighestInBank(i: nat) returns (high: CInt)
      requires Configured() && i + BANK <= FPREG_MAX && s[i].count != BANK
      ensures high == BankWorth(s[..], i)
    {
      high := INT_MIN;
      for j := 0 to BANK
        invariant s[i].count == 0 ==> high == INT_MIN
        invariant s[i].count != 0 && j > 0 ==> high == HighestOf(s[i..i + j])
        invariant j == 0 ==> high == INT_MIN
      {
        high := if s[i].count != 0 && s[i + j].importance > high then s[i + j].importance else high;
        assert s[i..i + j + 1][..j] == s[i..i + j];
      }
      FourHighest(s[i..i + BANK]);
    }

    /** The least important vector of the range, if one is less important than INT_MAX. */
    method LeastVector() returns (lowprio: CInt, lowreg: nat)
      requires Configured()
      ensures forall b :: BankIn(s[..], b, start, end) && s[b].count == BANK ==> lowprio <= s[b].importance
      ensures lowprio < INT_MAX ==> BankIn(s[..], lowreg, start, end) && s[lowreg].count == BANK && s[lowreg].importance == lowprio
      ensures lowprio < INT_MAX ==> forall b :: BankIn(s[..], b, start, end) && b < lowreg && s[b].count == BANK ==> s[b].importance > lowprio
    {
      lowprio, lowreg := INT_MAX, 0;
      var i := NextBank(start);
      while i < ThisBank(end)
        invariant start <= i && i % BANK == 0
        invariant forall b :: BankIn(s[..], b, start, end) && b < i && s[b].count == BANK ==> lowprio <= s[b].importance
        invariant lowprio < INT_MAX ==> BankIn(s[..], lowreg, start, end) && s[lowreg].count == BANK && s[lowreg].importance == lowprio
        invariant lowprio < INT_MAX ==> forall b :: BankIn(s[..], b, start, end) && b < lowreg && s[b].count == BANK ==> s[b].importance > lowprio
      {
        assert BankIn(s[..], i, start, end);
        if s[i].importance < lowprio && s[i].count == BANK {
          lowprio := s[i].importance;
          lowreg := i;
        }
        NoBankBetween(s[..], i, start, end);
        i := i + BANK;
      }
    }

    /** The first bank that is no vector's and counts least, if it counts less than `least`. */
    method LeastScalars(least: CInt) returns (lowprio: CInt, lowreg: nat)
      requires Configured()
      ensures lowprio <= least
      ensures forall b :: BankIn(s[..], b, start, end) && s[b].count != BANK ==> lowprio <= BankWorth(s[..], b)
      ensures lowprio < least ==>
                && BankIn(s[..], lowreg, start, end) && s[lowreg].count != BANK && BankWorth(s[..], lowreg) == lowprio
                && forall b :: BankIn(s[..], b, start, end) && b < lowreg && s[b].count != BANK ==> BankWorth(s[..], b) > lowprio
    {
      lowprio, lowreg := least, 0;
      var i := NextBank(start);
      while i < ThisBank(end)
        invariant start <= i && i % BANK == 0 && lowprio <= least
        invariant forall b :: BankIn(s[..], b, start, end) && b < i && s[b].count != BANK ==> lowprio <= BankWorth(s[..], b)
        invariant lowprio < least ==>
                    && BankIn(s[..], lowreg, start, end) && s[lowreg].count != BANK && BankWorth(s[..], lowreg) == lowprio
                    && forall b :: BankIn(s[..], b, start, end) && b < lowreg && s[b].count != BANK ==> BankWorth(s[..], b) > lowprio
      {
        assert BankIn(s[..], i, start, end);
        if s[i].count != BANK {
          var chighprio := HighestInBank(i);
          if chighprio < lowprio {
            lowprio := chighprio;
            lowreg := i;
          }
        }
        NoBankBetween(s[..], i, start, end);
        i := i + BANK;
      }
    }

    /** A bank is chosen if it is free, if its vector is worth less than the request, or if the
        bank counts as worth less.  Every lane displaced is less important, except exactly when
        the choice falls on a bank whose first lane is empty and another is not less important:
        the lanes after an empty first one are not looked at. */
    method ChooseExistingVectorRegister(importance: CInt) returns (ok: bool, reg: nat)
      requires Configured()
      ensures ok <==> !VectorFull(s[..], start, end, preferred, fallback, importance)
      ensures ok ==> BankIn(s[..], reg, start, end)
      ensures ok && s[reg].count == BANK ==> importance > s[reg].importance
      ensures !NoFreeBank(s[..], preferred) ==> IsFirstFreeBank(s[..], preferred, reg)
      ensures NoFreeBank(s[..], preferred) && !NoFreeBank(s[..], fallback) ==> IsFirstFreeBank(s[..], fallback, reg)
      ensures NoFreeBank(s[..], preferred) && NoFreeBank(s[..], fallback) && ok ==> IsLeastBank(s[..], start, end, importance, reg)
      ensures forall b :: FallsOnHollow(s[..], start, end, preferred, fallback, importance, b) ==> ok && reg == b
      ensures Banked() ==> (ok && !DisplacesOnlyLess(s[..], reg, importance) <==>
                            exists b :: LosesMoreImportant(s[..], start, end, preferred, fallback, importance, b))
    {
      hide NoFreeBank, BanksOk;
      ok, reg := FindFreeBank(preferred);
      if ok {
        return;
      }
      ok, reg := FindFreeBank(fallback);
      if ok {
        return;
      }
      var lowprio, lowreg := LeastVector();
      if importance > lowprio {
        if Banked() {
          LanesAlike(s[..], lowreg, start, end);
        }
        return true, lowreg;
      }
      lowprio, lowreg := LeastScalars(lowprio);
      if importance > lowprio {
        LastResort(s[..], start, end, preferred, fallback, importance, lowreg);
        return true, lowreg;
      }
      return false, 0;
    }

    // ---------------- bookkeeping ----------------

    method UpdateRegisterState(reg: nat, importance: CInt, access: AccessType)
      requires Configured() && reg < FPREG_MAX
      modifies s
      ensures forall r :: 0 <= r < FPREG_MAX ==>
                s[r] == if SameEntry(old(s[..]), r, reg) then old(s[r]).(importance := importance, modified := old(s[r]).modified || access.write)
                        else old(s[r])
    {
      if s[reg].count == BANK {
        for i := 0 to BANK
          invariant forall r :: 0 <= r < FPREG_MAX ==>
                      s[r] == if ThisBank(reg) <= r < ThisBank(reg) + i
                              then old(s[r]).(importance := importance, modified := old(s[r]).modified || access.write)
                              else old(s[r])
        {
          var creg := ThisBank(reg) + i;
          s[creg] := s[creg].(importance := importance, modified := s[creg].modified || access.write);
        }
      } else {
        s[reg] := s[reg].(importance := importance, modified := s[reg].modified || access.write);
      }
    }

    /** Any change of one entry's flags is harmless if its lanes hold the view wherever they
        count as initialised, and memory has the view wherever a modified mark was cleared. */
    twostate lemma FlagChangeKeepsValid(reg: nat)
      requires old(Valid()) && Configured() && view == old(view)
      requires reg < FPREG_MAX && old(s[reg]).count > 0
      requires MemoryCatchesUp()
      requires forall r :: 0 <= r < FPREG_MAX && !SameEntry(old(s[..]), r, reg) ==> s[r] == old(s[r]) && f[r] == old(f[r])
      requires
        || (forall r :: 0 <= r < FPREG_MAX && SameEntry(old(s[..]), r, reg) ==> s[r] == Emptied(old(s[r])))
        || (forall r :: 0 <= r < FPREG_MAX && SameEntry(old(s[..]), r, reg) ==>
              && s[r] == old(s[r]).(modified := s[r].modified, initialised := s[r].initialised, importance := s[r].importance)
              && s[r].initialised == s[reg].initialised && s[r].importance == s[reg].importance)
      requires forall r :: 0 <= r < FPREG_MAX && SameEntry(old(s[..]), r, reg) && s[r].count > 0 && s[r].initialised ==>
                 s[r].stackpos < mem.Length && f[r] == view[s[r].stackpos]
      requires forall r :: 0 <= r < FPREG_MAX && SameEntry(old(s[..]), r, reg) ==>
                 !(old(s[r]).modified && old(s[r]).initialised) || (s[r].count > 0 && s[r].modified && s[r].initialised) ||
                 (old(s[r]).stackpos < mem.Length && mem[old(s[r]).stackpos] == view[old(s[r]).stackpos])
      ensures Valid()
    {
      EntryChangeKeepsBanks(old(s[..]), s[..], reg, start, end);
      var before, after := old(Entries()), Entries();
      forall r | 0 <= r < FPREG_MAX ensures after[r] == before[r] || EntryStep(view, mem[..], before[r], after[r]) {
        assert Shaped(before[r], mem.Length);
      }
      StepKeepsView(view, old(mem[..]), mem[..], before, after);
    }

    method LoadBank(breg: nat)
      requires Valid() && breg + BANK <= FPREG_MAX && breg % BANK == 0 && s[breg].count == BANK
      requires s[breg].stackpos + BANK <= mem.Length
      modifies s, f
      ensures forall r :: 0 <= r < FPREG_MAX ==> s[r] == if breg <= r < breg + BANK then old(s[r]).(initialised := true) else old(s[r])
      ensures forall r :: 0 <= r < FPREG_MAX ==> f[r] == if breg <= r < breg + BANK then mem[old(s[breg]).stackpos + (r - breg)] else old(f[r])
    {
      hide Represents, BanksOk;
      PlatformReadVectorToRegister(breg, s[breg].stackpos);
      for i := breg to breg + BANK
        invariant forall r :: 0 <= r < FPREG_MAX ==>
                    s[r] == if breg <= r < i then old(s[r]).(initialised := true) else old(s[r])
        modifies s
      {
        s[i] := s[i].(initialised := true);
      }
    }

    method InitialiseRegister(reg: nat)
      requires Valid() && reg < FPREG_MAX && s[reg].count > 0 && !s[reg].initialised
      modifies s, f
      ensures Valid()
      ensures forall r :: 0 <= r < FPREG_MAX ==>
                s[r] == if SameEntry(old(s[..]), r, reg) then old(s[r]).(initialised := true) else old(s[r])
    {
      hide Represents, BanksOk;
      UninitialisedInMemory(reg);
      EntryLanesMapped(reg);
      var sz := s[reg].count;
      if sz == BANK {
        var breg := ThisBank(reg);
        BankInRange(reg);
        LoadBank(breg);
      } else {
        PlatformReadScalarToRegister(reg, s[reg].stackpos);
        s[reg] := s[reg].(initialised := true);
      }
      FlagChangeKeepsValid(reg);
    }

    /** An entry with nothing in it yet: memory still has its slots. */
    lemma UninitialisedInMemory(reg: nat)
      requires Valid() && reg < FPREG_MAX && s[reg].count > 0 && !s[reg].initialised
      ensures forall r :: 0 <= r < FPREG_MAX && SameEntry(s[..], r, reg) ==>
                s[r].stackpos < mem.Length && mem[s[r].stackpos] == view[s[r].stackpos]
    {
      forall r | 0 <= r < FPREG_MAX && SameEntry(s[..], r, reg)
        ensures s[r].stackpos < mem.Length && mem[s[r].stackpos] == view[s[r].stackpos]
      {
        assert WellBanked(s[..], reg, start, end) && WellBanked(s[..], r, start, end);
        var ents := Entries();
        assert Shaped(ents[r], mem.Length) && Covers(ents[r], s[r].stackpos);
        UninitialisedIsCaughtUp(view, mem[..], ents, r);
      }
    }

    /** A vector's four slots are all slots of memory. */
    lemma BankInRange(reg: nat)
      requires Valid() && reg < FPREG_MAX && s[reg].count == BANK
      ensures var breg := ThisBank(reg);
        && breg + BANK <= FPREG_MAX && s[breg].stackpos + BANK <= mem.Length
        && (forall r :: breg <= r < breg + BANK ==> SameEntry(s[..], r, reg) && s[r].count == BANK && s[r].stackpos == s[breg].stackpos + (r - breg))
        && (forall r :: breg <= r < breg + BANK ==> s[r].initialised == s[reg].initialised)
    {
      var breg := ThisBank(reg);
      assert WellBanked(s[..], reg, start, end);
      forall r | breg <= r < breg + BANK
        ensures s[r].count == BANK && s[r].stackpos == s[breg].stackpos + (r - breg) && s[r].initialised == s[breg].initialised
      {
        assert WellBanked(s[..], r, start, end) && ThisBank(r) == breg;
      }
      assert Shaped(Entries()[breg + 3], mem.Length);
    }

    /** Every lane of an initialised entry holds the view of its slot. */
    lemma LanesHoldView()
      requires Valid()
      ensures forall r :: 0 <= r < FPREG_MAX && s[r].count > 0 ==> s[r].stackpos < mem.Length
      ensures forall r :: 0 <= r < FPREG_MAX && s[r].count > 0 && s[r].initialised ==> f[r] == view[s[r].stackpos]
    {
      forall r | 0 <= r < FPREG_MAX && s[r].count > 0
        ensures s[r].stackpos < mem.Length && (s[r].initialised ==> f[r] == view[s[r].stackpos])
      {
        var e := Entries()[r];
        assert Shaped(e, mem.Length) && Covers(e, e.pos);
        assert e.init ==> ValueAt(e, e.pos) == view[e.pos];
      }
    }

    method FlushBank(breg: nat) returns (written: bool)
      requires Configured() && breg + BANK <= FPREG_MAX && s[breg].stackpos + BANK <= mem.Length
      modifies s, mem
      ensures written <==> exists r :: breg <= r < breg + BANK && old(s[r]).modified
      ensures forall r :: 0 <= r < FPREG_MAX ==> s[r] == if breg <= r < breg + BANK then old(s[r]).(modified := false) else old(s[r])
      ensures forall k :: 0 <= k < mem.Length ==>
                mem[k] == if written && s[breg].stackpos <= k < s[breg].stackpos + BANK then f[breg + (k - s[breg].stackpos)] else old(mem[k])
    {
      var modified := 0;
      for i := breg to breg + BANK
        invariant 0 <= modified
        invariant modified > 0 <==> exists r :: breg <= r < i && s[r].modified
      {
        modified := modified + (if s[i].modified then 1 else 0);
      }
      if modified > 0 {
        PlatformWriteVectorFromRegister(s[breg].stackpos, breg);
        for i := breg to breg + BANK
          invariant forall r :: 0 <= r < FPREG_MAX ==>
                      s[r] == if breg <= r < i then old(s[r]).(modified := false) else old(s[r])
          modifies s
        {
          s[i] := s[i].(modified := false);
        }
        written := true;
      } else {
        written := false;
      }
    }

    method FlushVector(reg: nat) returns (written: bool)
      requires Valid() && reg < FPREG_MAX && s[reg].count == BANK
      requires forall r :: 0 <= r < FPREG_MAX && SameEntry(s[..], r, reg) && s[r].modified ==> s[r].initialised
      modifies s, mem
      ensures Valid() && MemoryCatchesUp()
      ensures written <==> exists r :: 0 <= r < FPREG_MAX && SameEntry(old(s[..]), r, reg) && old(s[r]).modified
      ensures forall r :: 0 <= r < FPREG_MAX ==>
                s[r] == if SameEntry(old(s[..]), r, reg) then old(s[r]).(modified := false) else old(s[r])
    {
      hide Represents, BanksOk, SameEntry, ThisBank;
      LanesHoldView();
      EntryLanesMapped(reg);
      BankInRange(reg);
      BankIsEntry(s[..], reg);
      assert SameEntry(s[..], reg, reg);
      var breg := ThisBank(reg);
      ghost var pos := s[breg].stackpos;
      written := FlushBank(breg);
      forall slot | 0 <= slot < mem.Length ensures mem[slot] == old(mem[slot]) || mem[slot] == view[slot] {
        if written && pos <= slot < pos + BANK {
          var r := breg + (slot - pos);
          assert old(s[r]).stackpos == slot && SameEntry(old(s[..]), r, reg);
        }
      }
      FlagChangeKeepsValid(reg);
    }

    /** Writes a modified entry back, a vector as a whole, and keeps it mapped. */
    method FlushRegister(reg: nat) returns (written: bool)
      requires Valid() && reg < FPREG_MAX
      requires forall r :: 0 <= r < FPREG_MAX && SameEntry(s[..], r, reg) && s[r].modified ==> s[r].initialised
      modifies s, mem
      ensures Valid() && MemoryCatchesUp()
      ensures written <==> exists r :: 0 <= r < FPREG_MAX && SameEntry(old(s[..]), r, reg) && old(s[r]).modified
      ensures forall r :: 0 <= r < FPREG_MAX ==>
                s[r] == if SameEntry(old(s[..]), r, reg) then old(s[r]).(modified := false) else old(s[r])
    {
      hide Represents, BanksOk;
      EmptyIsUnmarked(reg);
      var sz := s[reg].count;
      if sz == BANK {
        written := FlushVector(reg);
      } else if sz == 1 && s[reg].modified {
        LanesHoldView();
        PlatformWriteScalarFromRegister(s[reg].stackpos, reg);
        s[reg] := s[reg].(modified := false);
        FlagChangeKeepsValid(reg);
        return true;
      } else {
        return false;
      }
    }

    lemma VectorsFillBanks(r: nat)
      requires Valid() && r < FPREG_MAX
      ensures s[r].count == BANK <==> s[ThisBank(r)].count == BANK
    {
      assert WellBanked(s[..], r, start, end);
    }

    lemma EmptyIsUnmarked(reg: nat)
      requires Valid() && reg < FPREG_MAX
      ensures s[reg].count in {0, 1, BANK}
      ensures s[reg].count == 0 ==> !s[reg].modified && !s[reg].initialised
      ensures s[reg].count > 0 ==> start <= reg < end
    {
      assert WellBanked(s[..], reg, start, end);
    }

    method FlushAllRegisters()
      requires Valid() && Quiescent()
      modifies s, mem
      ensures Valid() && Quiescent()
      ensures forall r :: 0 <= r < FPREG_MAX ==> s[r] == old(s[r]).(modified := false)
      ensures mem[..] == view
    {
      hide Represents, BanksOk;
      var i := start;
      while i != end
        invariant start <= i <= end
        invariant Valid() && Quiescent()
        invariant forall r :: 0 <= r < FPREG_MAX ==> s[r] == old(s[r]) || s[r] == old(s[r]).(modified := false)
        invariant forall r :: start <= r < i ==> !s[r].modified
      {
        var _ := FlushRegister(i);
        i := i + 1;
      }
      forall r | 0 <= r < FPREG_MAX ensures !s[r].modified {
        EmptyIsUnmarked(r);
      }
      NothingOwed(view, mem[..], Entries());
    }

    /** The compiled instruction has just written writeSize registers from reg. */
    method NotifyRegisterWritten(reg: nat, writeSize: nat)
      requires s.Length == FPREG_MAX && reg + writeSize <= FPREG_MAX
      modifies s
      ensures forall r :: 0 <= r < FPREG_MAX ==>
                s[r] == if reg <= r < reg + writeSize then old(s[r]).(initialised := true, modified := true) else old(s[r])
    {
      for i := 0 to writeSize
        invariant forall r :: 0 <= r < FPREG_MAX ==>
                    s[r] == if reg <= r < reg + i then old(s[r]).(initialised := true, modified := true) else old(s[r])
      {
        s[reg + i] := s[reg + i].(initialised := true, modified := true);
      }
    }

    method EvictRegister(reg: nat)
      requires Configured() && reg < FPREG_MAX
      requires s[reg].count == BANK ==> !s[ThisBank(reg)].modified
      requires s[reg].count == 1 ==> !s[reg].modified
      modifies s
      ensures forall r :: 0 <= r < FPREG_MAX ==>
                s[r] == if old(s[reg]).count in {1, BANK} && SameEntry(old(s[..]), r, reg) then Emptied(old(s[r])) else old(s[r])
    {
      if s[reg].count == BANK {
        var breg := ThisBank(reg);
        for i := 0 to BANK
          invariant forall r :: 0 <= r < FPREG_MAX ==> s[r] == if breg <= r < breg + i then Emptied(old(s[r])) else old(s[r])
        {
          s[breg + i] := Emptied(s[breg + i]);
        }
      } else if s[reg].count == 1 {
        s[reg] := Emptied(s[reg]);
      }
    }

    method WriteAndEvictRegister(reg: nat)
      requires Valid() && reg < FPREG_MAX
      requires forall r :: 0 <= r < FPREG_MAX && SameEntry(s[..], r, reg) && s[r].modified ==> s[r].initialised
      modifies s, mem
      ensures Valid() && MemoryCatchesUp()
      ensures forall r :: 0 <= r < FPREG_MAX ==>
                s[r] == if SameEntry(old(s[..]), r, reg) then Emptied(old(s[r])) else old(s[r])
    {
      hide Represents, BanksOk;
      EmptyIsUnmarked(reg);
      var _ := FlushRegister(reg);
      label Flushed:
      if s[reg].count > 0 {
        EvictRegister(reg);
        FlagChangeKeepsValid@Flushed(reg);
      }
    }

    method WriteAndEvictRegisters(reg: nat, scount: nat)
      requires Valid() && Quiescent()
      requires (scount == 1 && reg < FPREG_MAX && s[reg].count <= 1) || (scount == BANK && reg % BANK == 0 && reg + BANK <= FPREG_MAX)
      modifies s, mem
      ensures Valid() && Quiescent() && MemoryCatchesUp()
      ensures forall r :: 0 <= r < FPREG_MAX ==> s[r] == if reg <= r < reg + scount then Emptied(old(s[r])) else old(s[r])
    {
      hide Represents, BanksOk, SameEntry;
      var evicted: nat := 0;
      while evicted < scount
        invariant evicted <= scount
        invariant Valid() && Quiescent() && MemoryCatchesUp()
        invariant forall r :: 0 <= r < FPREG_MAX ==> s[r] == if reg <= r < reg + evicted then Emptied(old(s[r])) else old(s[r])
      {
        EmptyIsUnmarked(reg + evicted);
        VectorsFillBanks(reg + evicted);
        var sz := if s[reg + evicted].count > 0 then s[reg + evicted].count else 1;
        if s[reg + evicted].count == BANK {
          assert evicted == 0;
        }
        EntryAt(s[..], reg + evicted, sz);
        WriteAndEvictRegister(reg + evicted);
        evicted := evicted + sz;
      }
    }

    // ---------------- overlap ----------------

    /** No register is on the slots. */
    ghost predicate Untouched(spos: nat, scount: nat)
      requires Configured()
      reads s
    {
      forall r :: 0 <= r < FPREG_MAX ==> !On(s[r], spos, scount)
    }

    ghost predicate StartsEntry(r: nat)
      requires Configured() && r < FPREG_MAX
      reads s
    {
      s[r].count > 0 && s[r].index == 0
    }

    /** The first lane of the entry register r belongs to. */
    ghost function Base(r: nat): (b: nat)
      requires Configured() && r < FPREG_MAX
      reads s
      ensures b < FPREG_MAX
    {
      if s[r].count == BANK then ThisBank(r) else r
    }

    /** Lanes of one entry follow each other, from its first lane. */
    lemma BaseStartsEntry(r: nat)
      requires Valid() && r < FPREG_MAX && s[r].count > 0
      ensures start <= Base(r) <= r && StartsEntry(Base(r)) && s[Base(r)].count == s[r].count
      ensures s[r].stackpos == s[Base(r)].stackpos + (r - Base(r)) && r - Base(r) < s[r].count
      ensures StartsEntry(r) <==> Base(r) == r
    {
      assert WellBanked(s[..], r, start, end) && WellBanked(s[..], ThisBank(r), start, end);
    }

    /** The lanes of an entry, counted from its first. */
    lemma LanesOfEntry(b: nat, k: nat)
      requires Valid() && b < FPREG_MAX && StartsEntry(b) && k < s[b].count
      ensures b + k < end && s[b + k].count == s[b].count && s[b + k].stackpos == s[b].stackpos + k && Base(b + k) == b
    {
      assert WellBanked(s[..], b, start, end);
      if s[b].count == BANK {
        assert WellBanked(s[..], b + k, start, end);
      }
    }

    /** A slot of an entry's range is on one of its lanes. */
    lemma OverlapMeansOn(b: nat, spos: nat, scount: nat)
      requires Valid() && b < FPREG_MAX && StartsEntry(b) && scount > 0
      ensures Overlaps(s[b], spos, scount) <==> exists r :: 0 <= r < FPREG_MAX && On(s[r], spos, scount) && Base(r) == b
    {
      if Overlaps(s[b], spos, scount) {
        var k := if s[b].stackpos >= spos then 0 else spos - s[b].stackpos;
        LanesOfEntry(b, k);
        assert On(s[b + k], spos, scount);
      }
      if r :| 0 <= r < FPREG_MAX && On(s[r], spos, scount) && Base(r) == b {
        BaseStartsEntry(r);
      }
    }

    /** If no entry that starts before register i is on the slots, no lane before it is. */
    lemma NoneBefore(i: nat, spos: nat, scount: nat)
      requires Valid() && i <= FPREG_MAX && scount > 0
      requires forall k :: start <= k < i && StartsEntry(k) ==> !Overlaps(s[k], spos, scount)
      ensures forall r :: 0 <= r < i ==> !EntryOverlaps(s[r], spos, scount)
    {
      forall r | 0 <= r < i && s[r].count > 0 ensures !EntryOverlaps(s[r], spos, scount) {
        BaseStartsEntry(r);
        assert WellBanked(s[..], r, start, end);
      }
    }

    /** Slots mapped exactly by one vector are mapped by no other entry. */
    lemma ExactAlone(spos: nat)
      requires Valid()
      ensures AloneWhenExact(s[..], spos)
    {
      hide Represents;
      forall e, i | 0 <= e < FPREG_MAX && 0 <= i < FPREG_MAX && IsExact(s[e], spos) && EntryOverlaps(s[i], spos, BANK)
        ensures FirstLane(s[..], i) == FirstLane(s[..], e)
      {
        FirstLaneTellsEntry(s[..], e, i, start, end);
        FirstLaneTellsEntry(s[..], i, e, start, end);
        ShareLane(FirstLane(s[..], e), FirstLane(s[..], i), spos);
      }
    }

    lemma ShareLane(e: nat, i: nat, spos: nat)
      requires Valid() && e < FPREG_MAX && i < FPREG_MAX && StartsEntry(e) && StartsEntry(i)
      requires s[e].count == BANK && s[e].stackpos == spos && Overlaps(s[i], spos, BANK)
      ensures e == i
    {
      var slot := if s[i].stackpos >= spos then s[i].stackpos else spos;
      LanesOfEntry(e, slot - spos);
      LanesOfEntry(i, slot - s[i].stackpos);
      var l, m := e + (slot - spos), i + (slot - s[i].stackpos);
      SameStartSameEntry(Entries(), l, m);
    }

    /** With a lane on the slots, `reg` is the lane at spos when the entry holds them all. */
    method CheckForOverlap(spos: nat, scount: nat) returns (overlap: Overlap, reg: nat, importance: CInt)
      requires Valid() && scount > 0
      ensures overlap == None <==> Untouched(spos, scount)
      ensures overlap != None ==>
                && start <= reg < end && s[reg].count > 0 && importance == s[Base(reg)].importance
                && Overlaps(s[Base(reg)], spos, scount)
                && (overlap in {Aligned, AlignedSubset, AlignedSuperset} <==> s[Base(reg)].stackpos == spos)
                && (overlap in {Aligned, AlignedSubset, Subset} <==> Within(spos, scount, s[Base(reg)].stackpos, s[reg].count))
                && (overlap in {Aligned, AlignedSuperset, Superset} <==> Within(s[Base(reg)].stackpos, s[reg].count, spos, scount))
                && (overlap == Subset ==> s[reg].stackpos == spos)
                && (overlap != Subset ==> Base(reg) == reg)
      ensures overlap != None ==> forall r :: 0 <= r < Base(reg) ==> !EntryOverlaps(s[r], spos, scount)
    {
      hide Represents, BanksOk;
      reg, importance := 0, 0;
      var i := start;
      while i < end
        invariant start <= i <= end
        invariant forall k :: start <= k < i && StartsEntry(k) ==> !Overlaps(s[k], spos, scount)
      {
        var c := s[i];
        if c.count != 0 && c.index == 0 {
          BaseStartsEntry(i);
          if (c.stackpos >= spos && c.stackpos < spos + scount) || (spos >= c.stackpos && spos < c.stackpos + c.count) {
            OverlapMeansOn(i, spos, scount);
            NoneBefore(i, spos, scount);
            reg := i;
            importance := c.importance;
            if c.stackpos == spos {
              if scount == c.count {
                return Aligned, reg, importance;
              } else if scount < c.count {
                return AlignedSubset, reg, importance;
              } else {
                return AlignedSuperset, reg, importance;
              }
            } else if spos > c.stackpos && spos + scount <= c.stackpos + c.count {
              LanesOfEntry(i, spos - c.stackpos);
              reg := reg + (spos - c.stackpos);
              return Subset, reg, importance;
            } else if spos < c.stackpos && spos + scount >= c.stackpos + c.count {
              return Superset, reg, importance;
            } else {
              return Unaligned, reg, importance;
            }
          }
        }
        i := i + 1;
      }
      overlap := None;
      forall r | 0 <= r < FPREG_MAX ensures !On(s[r], spos, scount) {
        if On(s[r], spos, scount) {
          EmptyIsUnmarked(r);
          BaseStartsEntry(r);
        }
      }
    }

    method IsLocationInRegisterCache(spos: nat, scount: nat) returns (cached: bool)
      requires Valid() && scount > 0
      ensures cached <==> !Untouched(spos, scount)
    {
      var overlap, _, _ := CheckForOverlap(spos, scount);
      cached := overlap != None;
    }

    // ---------------- acquiring ----------------

    /** Registers reg .. reg+scount stand for the slots, ready for the access. */
    ghost predicate Granted(reg: nat, spos: nat, scount: nat, access: AccessType, importance: CInt)
      requires Valid() && spos + scount <= mem.Length
      reads this, s, f, mem
    {
      && start <= reg && reg + scount <= end
      && forall r :: reg <= r < reg + scount ==>
           && s[r].count >= scount && s[r].stackpos == spos + (r - reg) && s[r].importance == importance
           && (access.read ==> s[r].initialised)
           && (access.write ==> s[r].modified)
           && (s[r].initialised ==> f[r] == view[spos + (r - reg)])
    }

    /** The lanes of a vector's bank, set one by one. */
    method MapBank(reg: nat, spos: nat)
      requires s.Length == FPREG_MAX && reg % BANK == 0 && reg + BANK <= FPREG_MAX
      modifies s
      ensures forall r :: 0 <= r < FPREG_MAX ==>
                s[r] == if reg <= r < reg + BANK then old(s[r]).(stackpos := spos + (r - reg), count := BANK, index := r - reg) else old(s[r])
    {
      var roff := reg - ThisBank(reg);
      for i := 0 to BANK
        invariant forall r :: 0 <= r < FPREG_MAX ==>
                    s[r] == if reg <= r < reg + i then old(s[r]).(stackpos := spos + (r - reg), count := BANK, index := r - reg) else old(s[r])
      {
        var creg := ThisBank(reg) + i;
        s[creg] := s[creg].(stackpos := spos - roff + i, count := BANK, index := i);
      }
    }

    /** updateRegister on registers just emptied: reg alone, or reg's whole bank. */
    method UpdateRegister(reg: nat, spos: nat, scount: nat, importance: CInt, access: AccessType)
      requires Valid() && scount in {1, BANK} && spos + scount <= mem.Length
      requires start <= reg && reg + scount <= end && (scount == BANK ==> reg % BANK == 0)
      requires forall r :: ThisBank(reg) <= r < ThisBank(reg) + BANK ==> s[r].count != BANK
      requires forall r :: reg <= r < reg + scount ==> s[r].count == 0
      requires Untouched(spos, scount)
      modifies s
      ensures Valid()
      ensures forall r :: 0 <= r < FPREG_MAX ==>
                s[r] == if reg <= r < reg + scount
                        then RegStatus(scount, r - reg, spos + (r - reg), access.write, false, importance) else old(s[r])
    {
      hide Represents, BanksOk;
      forall r | 0 <= r < FPREG_MAX ensures s[r].count == 0 ==> !s[r].modified && !s[r].initialised {
        EmptyIsUnmarked(r);
      }
      if scount == BANK {
        MapBank(reg, spos);
      } else {
        s[reg] := s[reg].(stackpos := spos, count := scount, index := 0);
      }
      UpdateRegisterState(reg, importance, access);
      MappingKeepsValid(old(s[..]), old(Entries()), reg, spos, scount);
    }

    lemma MappingKeepsValid(st: seq<RegStatus>, ents: seq<Entry<V>>, reg: nat, spos: nat, scount: nat)
      requires Configured() && |view| == mem.Length && |st| == |ents| == FPREG_MAX
      requires BanksOk(st, start, end) && Represents(view, mem[..], ents)
      requires scount in {1, BANK} && spos + scount <= mem.Length
      requires start <= reg && reg + scount <= end && (scount == BANK ==> reg % BANK == 0)
      requires forall r :: ThisBank(reg) <= r < ThisBank(reg) + BANK ==> st[r].count != BANK
      requires forall r :: reg <= r < reg + scount ==> st[r].count == 0 && ents[r].len == 0
      requires forall r :: 0 <= r < FPREG_MAX ==> !On(st[r], spos, scount)
      requires forall r :: reg <= r < reg + scount ==>
                 && s[r].count == scount && s[r].index == r - reg && s[r].stackpos == spos + (r - reg)
                 && !s[r].initialised && s[r].importance == s[reg].importance
      requires forall r :: 0 <= r < FPREG_MAX && !(reg <= r < reg + scount) ==> s[r] == st[r] && EntryOf(r) == ents[r]
      ensures Valid()
    {
      MapKeepsBanks(st, s[..], reg, spos, scount, start, end);
      hide BanksOk;
      var ents' := Entries();
      forall i, j | 0 <= i < j < FPREG_MAX ensures Apart(ents'[i], ents'[j]) {
        assert Apart(ents[i], ents[j]);
        assert !On(st[i], spos, scount) && !On(st[j], spos, scount);
      }
      MapKeepsView(view, mem[..], ents, ents');
    }

    /** updateRegisterState on a register in use. */
    method Touch(reg: nat, importance: CInt, access: AccessType)
      requires Valid() && reg < FPREG_MAX && s[reg].count > 0
      modifies s
      ensures Valid()
      ensures forall r :: 0 <= r < FPREG_MAX ==>
                s[r] == if SameEntry(old(s[..]), r, reg) then old(s[r]).(importance := importance, modified := old(s[r]).modified || access.write)
                        else old(s[r])
    {
      hide Represents, BanksOk;
      LanesHoldView();
      EntryLanesMapped(reg);
      UpdateRegisterState(reg, importance, access);
      FlagChangeKeepsValid(reg);
    }

    lemma EntryLanesMapped(reg: nat)
      requires Valid() && reg < FPREG_MAX && s[reg].count > 0
      ensures forall r :: 0 <= r < FPREG_MAX && SameEntry(s[..], r, reg) ==>
                s[r].count == s[reg].count && s[r].initialised == s[reg].initialised && s[r].importance == s[reg].importance
    {
      forall r | 0 <= r < FPREG_MAX && SameEntry(s[..], r, reg)
        ensures s[r].count == s[reg].count && s[r].initialised == s[reg].initialised && s[r].importance == s[reg].importance
      {
        assert WellBanked(s[..], r, start, end) && WellBanked(s[..], reg, start, end);
      }
    }

    /** Initialises an entry if need be and marks it for the access. */
    method Refresh(reg: nat, importance: CInt, access: AccessType)
      requires Valid() && reg < FPREG_MAX && s[reg].count > 0
      modifies s, f
      ensures Valid()
      ensures forall r :: 0 <= r < FPREG_MAX && !SameEntry(old(s[..]), r, reg) ==> s[r] == old(s[r])
      ensures forall r :: 0 <= r < FPREG_MAX && SameEntry(old(s[..]), r, reg) ==>
                s[r] == old(s[r]).(importance := importance, initialised := true, modified := old(s[r]).modified || access.write)
    {
      hide Represents, BanksOk;
      EntryLanesMapped(reg);
      if !s[reg].initialised {
        InitialiseRegister(reg);
      }
      Touch(reg, importance, access);
    }

    /** Hands out registers that already stand for the slots. */
    method Reuse(reg: nat, spos: nat, scount: nat, importance: CInt, access: AccessType)
      requires Valid() && reg < FPREG_MAX && scount in {1, BANK} && spos + scount <= mem.Length
      requires s[reg].count >= scount && s[reg].stackpos == spos && (scount == BANK ==> Base(reg) == reg)
      modifies s, f
      ensures Valid() && Granted(reg, spos, scount, access, importance) && s[reg].initialised
      ensures forall r :: 0 <= r < FPREG_MAX && !SameEntry(old(s[..]), r, reg) ==> s[r] == old(s[r])
      ensures forall r :: 0 <= r < FPREG_MAX && SameEntry(old(s[..]), r, reg) ==>
                s[r] == old(s[r]).(importance := importance, initialised := true, modified := old(s[r]).modified || access.write)
    {
      hide Represents, BanksOk;
      EmptyIsUnmarked(reg);
      BaseStartsEntry(reg);
      if scount == BANK {
        BankInRange(reg);
      }
      Refresh(reg, importance, access);
      LanesHoldView();
    }

    /** Takes registers over for slots no register maps. */
    method Claim(reg: nat, spos: nat, scount: nat, importance: CInt, access: AccessType)
      requires Valid() && Quiescent() && scount in {1, BANK} && spos + scount <= mem.Length
      requires start <= reg && reg + scount <= end
      requires if scount == BANK then reg % BANK == 0 else s[reg].count <= 1
      requires Untouched(spos, scount)
      modifies s, f, mem
      ensures Valid() && Granted(reg, spos, scount, access, importance) && MemoryCatchesUp()
      ensures forall r :: reg <= r < reg + scount ==>
                s[r] == RegStatus(scount, r - reg, spos + (r - reg), access.write, access.read, importance)
      ensures forall r :: 0 <= r < FPREG_MAX && !(reg <= r < reg + scount) ==> s[r] == old(s[r])
    {
      hide Represents, BanksOk, NextBank, ThisBank;
      WriteAndEvictRegisters(reg, scount);
      forall r | ThisBank(reg) <= r < ThisBank(reg) + BANK ensures s[r].count != BANK {
        VectorsFillBanks(r);
        VectorsFillBanks(reg);
      }
      UpdateRegister(reg, spos, scount, importance, access);
      EntryFrom(s[..], reg, scount);
      if access.read {
        InitialiseRegister(reg);
      }
      LanesHoldView();
    }

    /** Slots on which no register owes a write can be read from memory. */
    lemma CleanSlotsInMemory(spos: nat, scount: nat)
      requires Valid() && spos + scount <= mem.Length
      requires forall r :: 0 <= r < FPREG_MAX && On(s[r], spos, scount) ==> !(s[r].modified && s[r].initialised)
      ensures forall slot :: spos <= slot < spos + scount ==> mem[slot] == view[slot]
    {
      forall slot | spos <= slot < spos + scount ensures mem[slot] == view[slot] {
        assert !Owed(Entries(), slot);
      }
    }

    /** A slot some register holds is always granted, whatever entry it belongs to. */
    method AcquireScalarRegister(spos: nat, access: AccessType, importance: CInt) returns (ok: bool, reg: nat)
      requires Valid() && Quiescent() && spos < mem.Length
      modifies s, f, mem
      ensures Valid() && MemoryCatchesUp()
      ensures ok <==> old(!Untouched(spos, 1)) || old(!ScalarFull(importance))
      ensures ok ==> Granted(reg, spos, 1, access, importance)
      ensures ok ==> forall r :: 0 <= r < FPREG_MAX && r != reg && s[r].modified ==> s[r].initialised
      ensures ok ==> forall r :: 0 <= r < FPREG_MAX && !SameEntry(old(s[..]), r, reg) ==> s[r] == old(s[r])
      ensures ok && s[reg].count == BANK ==> s[reg].initialised
      ensures MapsOnly(old(s[..]), s[..], spos, 1)
      ensures !ok ==> mem[..] == old(mem[..]) && s[..] == old(s[..]) && mem[spos] == view[spos]
    {
      hide Represents, BanksOk, WellBanked, ScalarFull, MapsOnly;
      var overlap, overlapReg, _ := CheckForOverlap(spos, 1);
      if overlap != None {
        BaseStartsEntry(overlapReg);
        assert overlap in {Aligned, AlignedSubset, Subset};
        ghost var was := s[..];
        Reuse(overlapReg, spos, 1, importance, access);
        SamePlaces(was, s[..], spos, 1);
        return true, overlapReg;
      }
      ok, reg := ChooseExistingScalarRegister(importance);
      ghost var was := s[..];
      if ok {
        Claim(reg, spos, 1, importance, access);
        OneLaneMapped(was, s[..], spos, reg);
      } else {
        CleanSlotsInMemory(spos, 1);
        SamePlaces(was, s[..], spos, 1);
      }
    }

    ghost function Occupied(): set<nat>
      requires Configured()
      reads s
    {
      set r: nat | r < FPREG_MAX && s[r].count > 0
    }

    /** The retry loop of a vector acquire: evict less important overlapping entries until
        none is left, one stands for exactly these slots, or one must be given way to.  It
        works through the registers in order and leaves those behind the last one alone. */
    method ClearWay(spos: nat, importance: CInt) returns (overlap: Overlap, reg: nat)
      requires Valid() && Quiescent() && spos + BANK <= mem.Length
      modifies s, mem
      ensures Valid() && Quiescent() && MemoryCatchesUp()
      ensures forall r :: 0 <= r < FPREG_MAX ==> KeptOrEvicted(old(s[r]), s[r], spos, importance)
      ensures forall r :: 0 <= r < FPREG_MAX && IsExact(old(s[r]), spos) ==> s[r] == old(s[r])
      ensures overlap == None ==> Untouched(spos, BANK) && forall r :: 0 <= r < FPREG_MAX ==> !EntryOverlaps(s[r], spos, BANK)
      ensures overlap != None ==> start <= reg < end && s[reg].count > 0 && Base(reg) == reg && EntryOverlaps(s[reg], spos, BANK)
      ensures overlap != None ==> forall r :: reg <= r < FPREG_MAX ==> s[r] == old(s[r])
      ensures overlap != None ==> forall r :: 0 <= r < reg ==> !EntryOverlaps(s[r], spos, BANK)
      ensures overlap in {Aligned, AlignedSubset} ==> s[reg].stackpos == spos && s[reg].count == BANK && IsExact(s[reg], spos)
      ensures overlap !in {None, Aligned, AlignedSubset} ==> importance <= s[reg].importance && !IsExact(s[reg], spos)
    {
      hide Represents, BanksOk;
      ghost var reached: nat := 0;
      while true
        invariant Valid() && Quiescent() && MemoryCatchesUp()
        invariant forall r :: 0 <= r < FPREG_MAX ==> KeptOrEvicted(old(s[r]), s[r], spos, importance)
        invariant forall r :: 0 <= r < FPREG_MAX && IsExact(old(s[r]), spos) ==> s[r] == old(s[r])
        invariant forall r :: 0 <= r < FPREG_MAX && r < reached ==> !EntryOverlaps(s[r], spos, BANK)
        invariant forall r :: reached <= r < FPREG_MAX ==> s[r] == old(s[r])
        decreases Occupied()
      {
        var overlapImportance;
        overlap, reg, overlapImportance := CheckForOverlap(spos, BANK);
        if overlap == None {
          NothingOn(spos);
          return;
        }
        OverlapAtBase(overlap, reg, spos);
        if overlap !in {Aligned, AlignedSubset} && importance > overlapImportance {
          ghost var occupied := Occupied();
          EntryFrom(s[..], reg, s[reg].count);
          reached := reg + s[reg].count;
          WriteAndEvictRegister(reg);
          assert reg in occupied && reg !in Occupied();
          assert Occupied() < occupied;
        } else {
          return;
        }
      }
    }

    lemma NothingOn(spos: nat)
      requires Valid() && Untouched(spos, BANK)
      ensures forall r :: 0 <= r < FPREG_MAX ==> !EntryOverlaps(s[r], spos, BANK)
    {
      hide Represents;
      forall k | start <= k < FPREG_MAX && StartsEntry(k) ensures !Overlaps(s[k], spos, BANK) {
        OverlapMeansOn(k, spos, BANK);
      }
      NoneBefore(FPREG_MAX, spos, BANK);
    }

    /** A vector request meets an entry at its first lane. */
    lemma OverlapAtBase(overlap: Overlap, reg: nat, spos: nat)
      requires Valid() && reg < FPREG_MAX && s[reg].count > 0 && Overlaps(s[Base(reg)], spos, BANK)
      requires overlap in {Aligned, AlignedSubset, AlignedSuperset} <==> s[Base(reg)].stackpos == spos
      requires overlap in {Aligned, AlignedSubset, Subset} <==> Within(spos, BANK, s[Base(reg)].stackpos, s[reg].count)
      requires overlap == Subset ==> s[reg].stackpos == spos
      requires overlap != Subset ==> Base(reg) == reg
      ensures Base(reg) == reg && StartsEntry(reg) && s[reg].count in {1, BANK} && (s[reg].count == BANK ==> reg % BANK == 0)
      ensures forall r :: 0 <= r < FPREG_MAX && SameEntry(s[..], r, reg) ==>
                && EntryOverlaps(s[r], spos, BANK) && s[r].importance == s[reg].importance
                && (IsExact(s[r], spos) <==> overlap in {Aligned, AlignedSubset})
    {
      hide Represents;
      BaseStartsEntry(reg);
      EntryLanesMapped(reg);
      EntryOverlapsAlike(reg, spos);
      assert WellBanked(s[..], reg, start, end);
      forall r | 0 <= r < FPREG_MAX && SameEntry(s[..], r, reg) ensures s[r].stackpos - s[r].index == s[Base(reg)].stackpos {
        assert WellBanked(s[..], r, start, end);
      }
    }

    lemma EntryOverlapsAlike(reg: nat, spos: nat)
      requires Valid() && reg < FPREG_MAX && s[reg].count > 0 && Overlaps(s[Base(reg)], spos, BANK)
      ensures forall r :: 0 <= r < FPREG_MAX && SameEntry(s[..], r, reg) ==> EntryOverlaps(s[r], spos, BANK)
    {
      forall r | 0 <= r < FPREG_MAX && SameEntry(s[..], r, reg) ensures EntryOverlaps(s[r], spos, BANK) {
        assert WellBanked(s[..], r, start, end) && WellBanked(s[..], reg, start, end);
      }
    }

    /** Gives way to an entry at least as important: writes it back and keeps it. */
    method DeferVector(ghost was: seq<RegStatus>, spos: nat, importance: CInt, reg: nat)
      requires Valid() && Quiescent() && reg < FPREG_MAX && StartsEntry(reg)
      requires |was| == FPREG_MAX && BanksOk(was, start, end) && AloneWhenExact(was, spos)
      requires EntryOverlaps(was[reg], spos, BANK) && importance <= was[reg].importance && !IsExact(was[reg], spos)
      requires forall r :: reg <= r < FPREG_MAX ==> s[r] == was[r]
      requires forall r :: 0 <= r < reg ==> KeptOrEvicted(was[r], s[r], spos, importance) && !EntryOverlaps(s[r], spos, BANK)
      requires forall r :: 0 <= r < FPREG_MAX ==> (SameEntry(s[..], r, reg) <==> SameEntry(was, r, reg)) && (SameEntry(was, r, reg) ==> reg <= r)
      modifies s, mem
      ensures Valid() && Quiescent() && MemoryCatchesUp() && GaveWayAt(was, s[..], spos, importance, reg)
      ensures !Exact(was, spos) && GivesWay(was, spos, importance)
      ensures LeavesStale(was, spos, importance) <==> StillModified(s[..], spos)
      ensures StillModified(s[..], spos) ==> LeavesStale(s[..], spos, importance)
      ensures !Exact(s[..], spos) && GivesWay(s[..], spos, importance)
    {
      hide Represents, BanksOk, LeavesStale, GivesWay, Exact, StillModified, AloneWhenExact;
      var _ := FlushRegister(reg);
      GivenWayIsNotExact(was, s[..], spos, importance, reg, start, end);
      GivenWay(was, s[..], spos, importance, reg, start, end);
    }

    /** When refused, `deferredTo` names the register given way to, or -1 if no bank was to be had. */
    method AcquireVectorRegister(spos: nat, access: AccessType, importance: CInt) returns (ok: bool, reg: nat, ghost deferredTo: int)
      requires Valid() && Quiescent() && spos + BANK <= mem.Length
      modifies s, f, mem
      ensures Valid() && MemoryCatchesUp()
      ensures ok <==> old(Exact(s[..], spos)) ||
                      (!old(GivesWay(s[..], spos, importance))
                       && !VectorFull(Cleared(old(s[..]), spos), start, end, preferred, fallback, importance))
      ensures !ok ==> (deferredTo == -1 <==> !old(GivesWay(s[..], spos, importance)))
      ensures !ok && StillModified(s[..], spos) <==> old(LeavesStale(s[..], spos, importance))
      ensures !ok && StillModified(s[..], spos) ==> LeavesStale(s[..], spos, importance)
      ensures !ok && deferredTo != -1 ==> !Exact(s[..], spos) && GivesWay(s[..], spos, importance)
      ensures MapsOnly(old(s[..]), s[..], spos, BANK)
      ensures ok ==> Granted(reg, spos, BANK, access, importance) && reg % BANK == 0
      ensures ok ==> forall r :: 0 <= r < FPREG_MAX && !(reg <= r < reg + BANK) ==> KeptOrEvicted(old(s[r]), s[r], spos, importance)
      ensures !ok ==> Quiescent()
      ensures !ok && deferredTo == -1 ==> Untouched(spos, BANK) && s[..] == Cleared(old(s[..]), spos)
      ensures !ok && deferredTo != -1 ==> start <= deferredTo < end && GaveWayAt(old(s[..]), s[..], spos, importance, deferredTo)
    {
      hide Represents, BanksOk, LeavesStale, GivesWay, Exact, StillModified, VectorFull, MapsOnly, AloneWhenExact, KeptOrEvicted,
        GaveWayAt, EntryOverlaps, Cleared, On;
      ExactAlone(spos);
      ghost var was := s[..];
      var overlap;
      overlap, reg := ClearWay(spos, importance);
      if overlap == Aligned || overlap == AlignedSubset {
        GrantedOutright(was, spos, importance, reg, start, end);
        BaseStartsEntry(reg);
        EntryFrom(s[..], reg, BANK);
        EntryFrom(was, reg, BANK);
        Reuse(reg, spos, BANK, importance, access);
        OneBankMapped(was, s[..], spos, importance, reg, reg + BANK);
        return true, reg, -1;
      } else if overlap != None {
        BaseStartsEntry(reg);
        LaneCounts(reg);
        EntryFrom(s[..], reg, s[reg].count);
        EntryFrom(was, reg, s[reg].count);
        DeferVector(was, spos, importance, reg);
        GivenWayMapsNothing(was, s[..], spos, importance, reg);
        return false, 0, reg;
      }
      AllCleared(was, s[..], spos, importance, start, end);
      ok, reg := ChooseExistingVectorRegister(importance);
      deferredTo := -1;
      if ok {
        Claim(reg, spos, BANK, importance, access);
        OneBankMapped(was, s[..], spos, importance, reg, reg + BANK);
      } else {
        OneBankMapped(was, s[..], spos, importance, 0, 0);
      }
    }

    lemma LaneCounts(reg: nat)
      requires Valid() && reg < FPREG_MAX && StartsEntry(reg)
      ensures s[reg].count in {1, BANK} && (s[reg].count == BANK ==> reg % BANK == 0)
    {
      assert WellBanked(s[..], reg, start, end);
    }

    /** Loads memory into a scalar register outside the cache. */
    method LoadTemporary(reg: nat, spos: nat)
      requires Valid() && reg < FPREG_MAX && !(start <= reg < end) && spos < mem.Length
      modifies f
      ensures Valid() && f[reg] == mem[spos]
    {
      hide Represents, BanksOk;
      EmptyIsUnmarked(reg);
      ghost var before := Entries();
      PlatformReadScalarToRegister(reg, spos);
      UnmappedLanesAreFree(before);
    }

    /** Loads memory into a bank outside the cache. */
    method LoadTemporaryBank(reg: nat, spos: nat)
      requires Valid() && spos + BANK <= mem.Length
      requires reg + BANK <= start || end <= reg <= FPREG_MAX - BANK
      modifies f
      ensures Valid() && f[reg..reg + BANK] == mem[spos..spos + BANK]
    {
      hide Represents, BanksOk;
      forall r | reg <= r < reg + BANK ensures s[r].count == 0 && !s[r].initialised {
        EmptyIsUnmarked(r);
      }
      ghost var before := Entries();
      PlatformReadVectorToRegister(reg, spos);
      UnmappedLanesAreFree(before);
    }

    /** Always leaves the viewed value in the register handed back. */
    method AcquireScalarRegisterOrLoad(spos: nat, access: AccessType, importance: CInt, regToLoad: nat) returns (ok: bool, reg: nat)
      requires Valid() && Quiescent() && spos < mem.Length
      requires regToLoad < FPREG_MAX && !(start <= regToLoad < end) && access.read
      modifies s, f, mem
      ensures Valid() && MemoryCatchesUp() && Quiescent()
      ensures ok <==> old(!Untouched(spos, 1)) || old(!ScalarFull(importance))
      ensures ok ==> Granted(reg, spos, 1, access, importance)
      ensures MapsOnly(old(s[..]), s[..], spos, 1)
      ensures !ok ==> reg == regToLoad
      ensures reg < FPREG_MAX && f[reg] == view[spos]
    {
      hide Represents, BanksOk, MapsOnly;
      ok, reg := AcquireScalarRegister(spos, access, importance);
      if !ok {
        LoadTemporary(regToLoad, spos);
        reg := regToLoad;
      }
    }

    /** The registers handed back hold the viewed vector unless, as the registers stood before
        the call, the request gives way to one entry and leaves a lane of another one behind it
        modified. */
    method AcquireVectorRegisterOrLoad(spos: nat, access: AccessType, importance: CInt, regToLoad: nat)
      returns (ok: bool, reg: nat, ghost deferredTo: int)
      requires Valid() && Quiescent() && spos + BANK <= mem.Length
      requires regToLoad + BANK <= start || end <= regToLoad <= FPREG_MAX - BANK
      requires access.read
      modifies s, f, mem
      ensures Valid() && MemoryCatchesUp() && Quiescent()
      ensures ok <==> old(Exact(s[..], spos)) ||
                      (!old(GivesWay(s[..], spos, importance))
                       && !VectorFull(Cleared(old(s[..]), spos), start, end, preferred, fallback, importance))
      ensures MapsOnly(old(s[..]), s[..], spos, BANK)
      ensures ok ==> Granted(reg, spos, BANK, access, importance)
      ensures reg + BANK <= FPREG_MAX
      ensures !ok ==> reg == regToLoad && f[reg..reg + BANK] == mem[spos..spos + BANK]
      ensures old(LeavesStale(s[..], spos, importance)) <==> !ok && StillModified(s[..], spos)
      ensures old(LeavesStale(s[..], spos, importance)) ==> LeavesStale(s[..], spos, importance)
      ensures !old(LeavesStale(s[..], spos, importance)) ==> f[reg..reg + BANK] == view[spos..spos + BANK]
    {
      hide Represents, BanksOk, LeavesStale, GivesWay, Exact, VectorFull, MapsOnly, KeptOrEvicted, GaveWayAt, EntryOverlaps, Cleared;
      ghost var was := s[..];
      ok, reg, deferredTo := AcquireVectorRegister(spos, access, importance);
      if ok {
        BankHoldsView(was, reg, spos, access, importance);
      } else {
        if !StillModified(s[..], spos) {
          CleanSlotsInMemory(spos, BANK);
        }
        LoadTemporaryBank(regToLoad, spos);
        reg := regToLoad;
      }
    }

    /** A bank granted for reading holds the viewed vector, and nothing else was marked. */
    lemma BankHoldsView(was: seq<RegStatus>, reg: nat, spos: nat, access: AccessType, importance: CInt)
      requires Valid() && spos + BANK <= mem.Length && access.read && Granted(reg, spos, BANK, access, importance)
      requires |was| == FPREG_MAX && forall r :: 0 <= r < FPREG_MAX && was[r].modified ==> was[r].initialised
      requires forall r :: 0 <= r < FPREG_MAX && !(reg <= r < reg + BANK) ==> KeptOrEvicted(was[r], s[r], spos, importance)
      ensures Quiescent() && f[reg..reg + BANK] == view[spos..spos + BANK]
    {
    }

    /** Registers mapped to nothing may hold anything. */
    lemma UnmappedLanesAreFree(before: seq<Entry<V>>)
      requires Configured() && |view| == mem.Length && |before| == FPREG_MAX && Represents(view, mem[..], before)
      requires forall r :: 0 <= r < FPREG_MAX ==> EntryOf(r) == before[r] || (s[r].count == 0 && before[r].len == 0 && !before[r].init)
      ensures Represents(view, mem[..], Entries())
    {
      StepKeepsView(view, mem[..], mem[..], before, Entries());
    }

    /** A load straight after a refusal is right, whatever memory holds, exactly when no lane
        on the slots is still modified. */
    lemma StillModifiedMeansUnsafe(spos: nat, a: V, b: V)
      requires Valid() && Quiescent() && spos + BANK <= mem.Length && a != b
      ensures DirectLoadIsSafe(view, Entries(), spos, BANK) <==> !StillModified(s[..], spos)
    {
      hide Represents, DirectLoadIsSafe, BanksOk;
      LoadIff(spos, BANK, a, b);
      assert StillModified(s[..], spos) <==>
             exists r :: 0 <= r < FPREG_MAX && On(s[r], spos, BANK) && s[r].modified && s[r].initialised;
    }

    /** When the load after a refusal can be trusted, judged from the flags alone. */
    lemma LoadIff(spos: nat, scount: nat, a: V, b: V)
      requires Valid() && spos + scount <= mem.Length && a != b
      ensures DirectLoadIsSafe(view, Entries(), spos, scount) <==>
              forall r :: 0 <= r < FPREG_MAX && On(s[r], spos, scount) ==> !(s[r].modified && s[r].initialised)
    {
      DirectLoadIff(view, mem[..], Entries(), spos, scount, a, b);
      forall r | 0 <= r < FPREG_MAX && On(s[r], spos, scount) && s[r].modified && s[r].initialised
        ensures exists slot :: spos <= slot < spos + scount && Owed(Entries(), slot)
      {
        assert Covers(Entries()[r], s[r].stackpos);
        assert Owed(Entries(), s[r].stackpos);
      }
    }

    /** When a store straight to memory keeps the cache truthful, judged from the flags alone. */
    lemma StoreIff(spos: nat, scount: nat, a: V, b: V)
      requires Valid() && spos + scount <= mem.Length && a != b
      ensures DirectStoreIsSafe(view, mem[..], Entries(), spos, scount) <==>
              forall r :: 0 <= r < FPREG_MAX && On(s[r], spos, scount) ==> !s[r].initialised
    {
      DirectStoreIff(view, mem[..], Entries(), spos, scount, a, b);
      forall r | 0 <= r < FPREG_MAX && On(s[r], spos, scount) && s[r].initialised
        ensures exists slot :: spos <= slot < spos + scount && Cached(Entries(), slot)
      {
        assert Covers(Entries()[r], s[r].stackpos);
        assert Cached(Entries(), s[r].stackpos);
      }
    }

    // ---------------- giving slots back ----------------

    /** At a branch target the cache starts again from memory. */
    method PlatformWriteAndEvictAll()
      requires Valid() && Quiescent()
      modifies s, mem
      ensures Valid() && mem[..] == view
      ensures forall r :: 0 <= r < FPREG_MAX ==> s[r].count == 0
    {
      hide Represents, BanksOk;
      for i := start to end
        invariant Valid() && Quiescent()
        invariant forall k :: start <= k < i ==> s[k].count == 0
      {
        WriteAndEvictRegister(i);
      }
      forall r | 0 <= r < FPREG_MAX ensures s[r].count == 0 {
        EmptyIsUnmarked(r);
      }
      NothingOwed(view, mem[..], Entries());
    }

    /** Before outside code looks at slots from .. to. */
    method PlatformWriteAndEvictByStack(from: nat, to: nat)
      requires Valid() && Quiescent() && from <= to <= mem.Length
      modifies s, mem
      ensures Valid() && Quiescent() && MemoryCatchesUp()
      ensures Untouched(from, to - from) && forall slot :: from <= slot < to ==> mem[slot] == view[slot]
    {
      hide Represents, BanksOk;
      for i := start to end
        invariant Valid() && Quiescent() && MemoryCatchesUp()
        invariant forall k :: start <= k < i ==> !On(s[k], from, to - from)
      {
        if s[i].stackpos < to && s[i].stackpos + s[i].count > from {
          WriteAndEvictRegister(i);
        }
      }
      forall r | 0 <= r < FPREG_MAX ensures !On(s[r], from, to - from) {
        EmptyIsUnmarked(r);
      }
      CleanSlotsInMemory(from, to - from);
    }

    // ---------------- the cache's own checker ----------------

    /** No lane claims a vector that goes past the last register; the checker would read on. */
    ghost predicate InReach()
      requires Configured()
      reads s
    {
      forall r :: start <= r < end && s[r].count > 1 ==> r - s[r].index + s[r].count <= FPREG_MAX
    }

    method FindsNoOverlap(i: nat) returns (ok: bool)
      requires Configured() && start <= i < end
      ensures ok <==> OverlapsNone(s[..], i, start, end)
    {
      var s1 := s[i];
      var bstart := if s1.count > 1 then ThisBank(i) else i;
      var bend := if s1.count > 1 then NextBank(i + 1) else i + 1;
      for j := start to end
        invariant forall k :: start <= k < j && !Exempt(s[..], i, k) && s[k].count > 0 ==>
                    !StartsWithin(s1, s[k]) && !StartsWithin(s[k], s1)
      {
        if j >= bstart && j < bend {
          continue;
        }
        var s2 := s[j];
        if s2.count == 0 {
          continue;
        }
        if StartsWithin(s1, s2) {
          return false;
        }
        if StartsWithin(s2, s1) {
          return false;
        }
      }
      ok := true;
    }

    method FindsInLine(i: nat) returns (ok: bool)
      requires Configured() && start <= i < end && InReach()
      ensures ok <==> InLine(s[..], i)
    {
      var s1 := s[i];
      if s1.index > i {
        return false;
      }
      if s1.count > 1 {
        for j := 1 to s1.index + 1
          invariant forall k :: i - j < k < i ==> s[k].count == s1.count && s[k].index + (i - k) == s1.index
        {
          var s2 := s[i - j];
          if s2.count != s1.count || s2.index + j != s1.index {
            return false;
          }
        }
        var j := 1;
        while s1.index + j < s1.count
          invariant 1 <= j && (j == 1 || s1.index + j <= s1.count)
          invariant forall k :: i < k < i + j ==> s[k].count == s1.count && s1.index + (k - i) == s[k].index
          decreases s1.count - j
        {
          var s2 := s[i + j];
          if s2.count != s1.count || s1.index + j != s2.index {
            return false;
          }
          j := j + 1;
        }
      }
      ok := true;
    }

    /** The checker passes exactly the caches whose every register passes. */
    method ValidateRegCache() returns (ok: bool)
      requires Configured() && InReach()
      ensures ok <==> forall i :: start <= i < end ==> PassesCheck(s[..], i, start, end)
    {
      hide OverlapsNone, InLine;
      for i := start to end
        invariant forall k :: start <= k < i ==> PassesCheck(s[..], k, start, end)
      {
        if s[i].count == 0 {
          if s[i].modified || s[i].initialised || s[i].index != 0 {
            assert !PassesCheck(s[..], i, start, end);
            return false;
          }
          continue;
        }
        ok := FindsNoOverlap(i);
        if !ok {
          assert !PassesCheck(s[..], i, start, end);
          return;
        }
        ok := FindsInLine(i);
        if !ok {
          assert !PassesCheck(s[..], i, start, end);
          return;
        }
      }
      ok := true;
    }

    /** Of a valid cache it complains exactly about an empty register that has kept the index of
        the vector it stood in, as eviction leaves it. */
    method ValidateReachable() returns (ok: bool)
      requires Valid()
      ensures ok <==> forall i :: start <= i < end && s[i].count == 0 ==> s[i].index == 0
    {
      hide Represents, BanksOk, PassesCheck;
      ValidIsInReach();
      ok := ValidateRegCache();
      forall i | start <= i < end ensures PassesCheck(s[..], i, start, end) <==> (s[i].count == 0 ==> s[i].index == 0) {
        ValidPassesIff(i);
      }
    }

    lemma ValidIsInReach()
      requires Valid()
      ensures InReach()
    {
      forall r | start <= r < end && s[r].count > 1 ensures r - s[r].index + s[r].count <= FPREG_MAX {
        assert WellBanked(s[..], r, start, end);
      }
    }

    lemma ValidPassesIff(i: nat)
      requires Valid() && start <= i < end
      ensures s[i].count > 1 ==> i - s[i].index + s[i].count <= FPREG_MAX
      ensures PassesCheck(s[..], i, start, end) <==> (s[i].count == 0 ==> s[i].index == 0)
    {
      hide Represents;
      ValidIsInReach();
      assert WellBanked(s[..], i, start, end);
      if s[i].count > 0 {
        ValidInLine(i);
        forall j | start <= j < end && s[j].count > 0 && (StartsWithin(s[i], s[j]) || StartsWithin(s[j], s[i]))
          ensures Exempt(s[..], i, j)
        {
          OverlapIsExempt(i, j);
        }
      }
    }

    lemma ValidInLine(i: nat)
      requires Valid() && start <= i < end && s[i].count > 0
      ensures (s[i].count > 1 ==> i - s[i].index + s[i].count <= FPREG_MAX) && InLine(s[..], i)
    {
      assert WellBanked(s[..], i, start, end);
      if s[i].count == BANK {
        forall k | ThisBank(i) <= k < ThisBank(i) + BANK ensures s[k].count == BANK && s[k].index == k - ThisBank(i) {
          assert WellBanked(s[..], k, start, end) && ThisBank(k) == ThisBank(i);
        }
      }
    }

    /** Lanes whose entries share a slot are lanes of one entry. */
    lemma OverlapIsExempt(i: nat, j: nat)
      requires Valid() && i < FPREG_MAX && j < FPREG_MAX && s[i].count > 0 && s[j].count > 0
      requires StartsWithin(s[i], s[j]) || StartsWithin(s[j], s[i])
      ensures Exempt(s[..], i, j)
    {
      hide Represents;
      if StartsWithin(s[i], s[j]) {
        OneEntry(i, j);
      } else {
        OneEntry(j, i);
      }
      assert WellBanked(s[..], i, start, end) && WellBanked(s[..], j, start, end);
    }

    lemma OneEntry(i: nat, j: nat)
      requires Valid() && i < FPREG_MAX && j < FPREG_MAX && s[i].count > 0 && s[j].count > 0
      requires StartsWithin(s[i], s[j])
      ensures Base(i) == Base(j)
    {
      BaseStartsEntry(i);
      BaseStartsEntry(j);
      assert WellBanked(s[..], i, start, end) && WellBanked(s[..], j, start, end);
      assert EntryStart(s[i]) == s[Base(i)].stackpos && EntryStart(s[j]) == s[Base(j)].stackpos;
      var k := s[Base(i)].stackpos - s[Base(j)].stackpos;
      LanesOfEntry(Base(j), k);
      LanesOfEntry(Base(i), 0);
      SameStartSameEntry(Entries(), Base(i), Base(j) + k);
    }

    // ---------------- runs ----------------

    /** The compiled instruction's own writes: its registers, then the notification. */
    method WriteLanes(reg: nat, spos: nat, vals: seq<V>, importance: CInt)
      requires Valid() && |vals| in {1, BANK} && spos + |vals| <= mem.Length
      requires Granted(reg, spos, |vals|, AccessType(false, true), importance)
      requires |vals| == BANK ==> reg % BANK == 0
      requires |vals| == 1 && s[reg].count == BANK ==> s[reg].initialised
      requires forall r :: 0 <= r < FPREG_MAX && !(reg <= r < reg + |vals|) && s[r].modified ==> s[r].initialised
      modifies s, f, this`view
      ensures Valid() && Quiescent() && view == Overwrite(old(view), spos, vals)
      ensures forall r :: 0 <= r < FPREG_MAX ==>
                s[r] == if reg <= r < reg + |vals| then old(s[r]).(initialised := true, modified := true) else old(s[r])
    {
      hide Represents, BanksOk, Overwrite;
      ghost var before := Entries();
      ghost var st := s[..];
      ghost var view' := Overwrite(view, spos, vals);
      var k := 0;
      while k < |vals|
        invariant 0 <= k <= |vals|
        invariant forall r :: 0 <= r < FPREG_MAX ==> f[r] == if reg <= r < reg + k then vals[r - reg] else old(f[r])
        modifies f
      {
        f[reg + k] := vals[k];
        k := k + 1;
      }
      NotifyRegisterWritten(reg, |vals|);
      view := view';
      WrittenLanesAreView(st, before, old(view), reg, spos, vals);
    }

    /** Two lanes are never on the same slot. */
    lemma LanesOnDifferentSlots(ents: seq<Entry<V>>, i: nat, j: nat)
      requires i < |ents| && j < |ents| && i != j && ents[i].len == 1 && ents[j].len == 1
      requires forall i, j :: 0 <= i < j < |ents| ==> Apart(ents[i], ents[j])
      ensures ents[i].pos != ents[j].pos
    {
      if i < j {
        assert Apart(ents[i], ents[j]);
      } else {
        assert Apart(ents[j], ents[i]);
      }
    }

    lemma WrittenLanesAreView(st: seq<RegStatus>, before: seq<Entry<V>>, was: seq<V>, reg: nat, spos: nat, vals: seq<V>)
      requires Configured() && |vals| in {1, BANK} && spos + |vals| <= mem.Length == |was| == |view|
      requires |st| == |before| == FPREG_MAX && reg + |vals| <= FPREG_MAX && (|vals| == BANK ==> reg % BANK == 0)
      requires BanksOk(st, start, end) && Represents(was, mem[..], before)
      requires forall r :: 0 <= r < FPREG_MAX ==> before[r].len <= 1
      requires forall r :: reg <= r < reg + |vals| ==>
                 && st[r].count >= |vals| && st[r].stackpos == spos + (r - reg)
                 && before[r].pos == st[r].stackpos && before[r].len == 1
      requires |vals| == 1 && st[reg].count == BANK ==> st[reg].initialised
      requires forall r :: 0 <= r < FPREG_MAX && !(reg <= r < reg + |vals|) ==> EntryOf(r) == before[r] && s[r] == st[r]
      requires forall r :: reg <= r < reg + |vals| ==> f[r] == vals[r - reg] && s[r] == st[r].(initialised := true, modified := true)
      requires view == Overwrite(was, spos, vals)
      ensures Valid()
    {
      var after := Entries();
      StoreKeepsBanks(st, s[..], reg, |vals|, start, end);
      hide BanksOk;
      forall r | 0 <= r < FPREG_MAX ensures EntryStored(was, view, before[r], after[r]) {
        if !(reg <= r < reg + |vals|) {
          var slot := before[r].pos;
          if before[r].len > 0 && spos <= slot < spos + |vals| {
            LanesOnDifferentSlots(before, r, reg + (slot - spos));
          }
        }
      }
      forall slot | 0 <= slot < mem.Length ensures view[slot] == was[slot] || Owed(after, slot) {
        if spos <= slot < spos + |vals| {
          assert Covers(after[reg + (slot - spos)], slot);
        }
      }
      StoreChangesView(was, view, mem[..], before, after);
    }

    /** The store used when no register was granted and none is on the slots. */
    method WriteAround(pos: nat, vals: seq<V>)
      requires Valid() && |vals| in {1, BANK} && pos + |vals| <= mem.Length && Untouched(pos, |vals|)
      modifies mem, this`view
      ensures Valid() && view == Overwrite(old(view), pos, vals)
    {
      hide Represents, BanksOk;
      forall slot | pos <= slot < pos + |vals| ensures !Cached(Entries(), slot) {
        forall i | 0 <= i < FPREG_MAX ensures !Covers(Entries()[i], slot) {
          assert !On(s[i], pos, |vals|);
        }
      }
      DirectStoreKeepsPace(view, mem[..], Entries(), pos, vals);
      ghost var view' := Overwrite(view, pos, vals);
      ghost var mem' := Overwrite(mem[..], pos, vals);
      var i := 0;
      while i < |vals|
        invariant 0 <= i <= |vals|
        invariant forall k :: 0 <= k < mem.Length ==> mem[k] == if pos <= k < pos + i then vals[k - pos] else old(mem[k])
        modifies mem
      {
        mem[pos + i] := vals[i];
        i := i + 1;
      }
      assert mem[..] == mem';
      view := view';
    }

    method PerformReadScalar(pos: nat, importance: CInt, temp: nat) returns (result: V)
      requires Valid() && Quiescent() && pos < mem.Length
      requires temp < FPREG_MAX && !(start <= temp < end)
      modifies s, f, mem
      ensures Valid() && Quiescent() && MapsOnly(old(s[..]), s[..], pos, 1)
      ensures result == view[pos]
    {
      hide Represents, BanksOk, MapsOnly;
      var _, reg := AcquireScalarRegisterOrLoad(pos, AccessType(true, false), importance, temp);
      result := f[reg];
    }

    method PerformReadVector(pos: nat, importance: CInt, temp: nat) returns (accepted: bool, result: seq<V>)
      requires Valid() && Quiescent() && pos + BANK <= mem.Length
      requires temp + BANK <= start || end <= temp <= FPREG_MAX - BANK
      modifies s, f, mem
      ensures Valid() && Quiescent() && MapsOnly(old(s[..]), s[..], pos, BANK)
      ensures accepted <==> !old(LeavesStale(s[..], pos, importance))
      ensures !accepted ==> LeavesStale(s[..], pos, importance)
      ensures accepted ==> result == view[pos..pos + BANK]
    {
      hide Represents, BanksOk, MapsOnly, LeavesStale, Exact, GivesWay, VectorFull;
      var ok, reg, deferredTo := AcquireVectorRegisterOrLoad(pos, AccessType(true, false), importance, temp);
      accepted := ok || !StillModified(s[..], pos);
      result := f[reg..reg + BANK];
    }

    /** On ARM every scalar write is accepted: a cached slot is always granted. */
    method PerformWriteScalar(pos: nat, val: V, importance: CInt)
      requires Valid() && Quiescent() && pos < mem.Length
      modifies s, f, mem, this`view
      ensures Valid() && Quiescent() && MapsOnly(old(s[..]), s[..], pos, 1)
      ensures view == old(view)[pos := val]
    {
      hide Represents, BanksOk;
      var ok, reg := AcquireScalarRegister(pos, AccessType(false, true), importance);
      if ok {
        WriteLanes(reg, pos, [val], importance);
      } else {
        WriteAround(pos, [val]);
      }
    }

    method PerformWriteVector(pos: nat, vals: seq<V>, importance: CInt) returns (accepted: bool)
      requires Valid() && Quiescent() && |vals| == BANK && pos + BANK <= mem.Length
      modifies s, f, mem, this`view
      ensures Valid() && Quiescent() && MapsOnly(old(s[..]), s[..], pos, BANK)
      ensures view == if accepted then Overwrite(old(view), pos, vals) else old(view)
      ensures accepted <==> old(Exact(s[..], pos)) || !old(GivesWay(s[..], pos, importance))
      ensures !accepted ==> !Exact(s[..], pos) && GivesWay(s[..], pos, importance)
    {
      hide Represents, BanksOk, LeavesStale, GivesWay, Exact, VectorFull, MapsOnly, KeptOrEvicted, Cleared;
      ghost var was := s[..];
      var ok, reg, deferredTo := AcquireVectorRegister(pos, AccessType(false, true), importance);
      if ok {
        KeptLanesSettled(was, s[..], reg, pos, importance);
        ghost var mapped := s[..];
        WriteLanes(reg, pos, vals, importance);
        MarkingKeepsMapping(was, mapped, s[..], pos, BANK);
      } else {
        var cached := IsLocationInRegisterCache(pos, BANK);
        if deferredTo != -1 {
          DeferredIsCached(was, deferredTo, pos, importance);
        }
        if cached {
          return false;
        }
        WriteAround(pos, vals);
      }
      return true;
    }

    /** Outside the bank granted, what is modified is initialised still. */
    lemma KeptLanesSettled(was: seq<RegStatus>, now: seq<RegStatus>, reg: nat, spos: nat, importance: CInt)
      requires |was| == |now| && forall r :: 0 <= r < |was| && was[r].modified ==> was[r].initialised
      requires forall r :: 0 <= r < |was| && !(reg <= r < reg + BANK) ==> KeptOrEvicted(was[r], now[r], spos, importance)
      ensures forall r :: 0 <= r < |now| && !(reg <= r < reg + BANK) && now[r].modified ==> now[r].initialised
    {
    }

    /** Marking registers maps nothing new. */
    lemma MarkingKeepsMapping(was: seq<RegStatus>, mapped: seq<RegStatus>, now: seq<RegStatus>, spos: nat, scount: nat)
      requires MapsOnly(was, mapped, spos, scount) && |now| == |mapped|
      requires forall r :: 0 <= r < |now| ==>
                 now[r] == mapped[r].(modified := now[r].modified, initialised := now[r].initialised, importance := now[r].importance)
      ensures MapsOnly(was, now, spos, scount)
    {
    }

    /** The entry given way to keeps the slots cached. */
    lemma DeferredIsCached(was: seq<RegStatus>, reg: nat, spos: nat, importance: CInt)
      requires Valid() && GaveWayAt(was, s[..], spos, importance, reg)
      ensures !Untouched(spos, BANK)
    {
      hide Represents, BanksOk;
      assert StartsEntry(reg) && Overlaps(s[reg], spos, BANK);
      OverlapMeansOn(reg, spos, BANK);
    }

    /** One access of the compiled program: through registers when they are granted, otherwise
        on memory.  It is not accepted exactly when its load would miss a value still owed to
        memory, or its vector store would go around registers mapped to the slots. */
    method Perform(a: Access<V>, importance: CInt, temp: nat) returns (accepted: bool, result: seq<V>)
      requires Valid() && Quiescent() && InRange(a, mem.Length)
      requires temp + BANK <= start || end <= temp <= FPREG_MAX - BANK
      modifies s, f, mem, this`view
      ensures Valid() && Quiescent() && MapsOnly(old(s[..]), s[..], a.pos, Size(a))
      ensures accepted <==> !old(Refused(s[..], a, importance))
      ensures accepted ==> view == PlainMemory(old(view), a) && result == PlainResult(old(view), a)
      ensures !accepted ==> view == old(view) && Refused(s[..], a, importance)
    {
      hide Represents, BanksOk, Exact, GivesWay, LeavesStale, MapsOnly;
      match a
      case ReadScalar(pos) =>
        var v := PerformReadScalar(pos, importance, temp);
        return true, [v];
      case ReadVector(pos) =>
        accepted, result := PerformReadVector(pos, importance, temp);
      case WriteScalar(pos, val) =>
        PerformWriteScalar(pos, val, importance);
        return true, [];
      case WriteVector(pos, vals) =>
        accepted := PerformWriteVector(pos, vals, importance);
        result := [];
    }

    /** Uniform accesses are never refused. */
    lemma UniformIsServed(accesses: seq<Access<V>>, k: nat, importance: CInt)
      requires Valid() && k < |accesses| && Uniform(s[..], accesses)
      ensures !Refused(s[..], accesses[k], importance)
    {
      hide Represents, BanksOk;
      ExactAlone(accesses[k].pos);
      var st, a := s[..], accesses[k];
      if a.ReadVector? || a.WriteVector? {
        forall r | 0 <= r < FPREG_MAX && EntryOverlaps(st[r], a.pos, BANK) ensures IsExact(st[r], a.pos) {
          assert SameOrApart(st[r].stackpos - st[r].index, st[r].count, a.pos, Size(a));
        }
        forall r | 0 <= r < FPREG_MAX && On(st[r], a.pos, BANK) ensures EntryOverlaps(st[r], a.pos, BANK) {
          OnMeansOverlaps(st, r, a.pos, start, end);
        }
      }
    }

    /** A run of accesses, stopped at the first one not accepted, then flushed: memory and
        every value read are those of the same accesses on a plain array.  `atStop` is the
        registers' status just before the flush; it tells why the run stopped, and a run of
        uniform accesses goes to its end. */
    method Run(accesses: seq<Access<V>>, importances: seq<CInt>, temp: nat)
      returns (done: nat, results: seq<seq<V>>, ghost atStop: seq<RegStatus>)
      requires Valid() && Quiescent()
      requires |importances| == |accesses| && forall a :: a in accesses ==> InRange(a, mem.Length)
      requires temp + BANK <= start || end <= temp <= FPREG_MAX - BANK
      modifies s, f, mem, this`view
      ensures Valid() && |atStop| == FPREG_MAX
      ensures forall r :: 0 <= r < FPREG_MAX ==> s[r] == atStop[r].(modified := false)
      ensures done <= |accesses|
      ensures done < |accesses| ==> Refused(atStop, accesses[done], importances[done])
      ensures old(Uniform(s[..], accesses)) ==> done == |accesses|
      ensures (mem[..], results) == PlainRun(old(view), accesses[..done])
    {
      hide Represents, BanksOk, Refused, Uniform, MapsOnly;
      done, results := 0, [];
      while done < |accesses|
        invariant Valid() && Quiescent() && done <= |accesses|
        invariant old(Uniform(s[..], accesses)) ==> Uniform(s[..], accesses)
        invariant (view, results) == PlainRun(old(view), accesses[..done])
      {
        ghost var before := s[..];
        if Uniform(before, accesses) {
          UniformIsServed(accesses, done, importances[done]);
        }
        var accepted, result := Perform(accesses[done], importances[done], temp);
        if Uniform(before, accesses) {
          MappingStaysUniform(before, s[..], accesses, done);
        }
        if !accepted {
          atStop := s[..];
          FlushAllRegisters();
          return;
        }
        assert accesses[..done + 1][..done] == accesses[..done];
        results := results + [result];
        done := done + 1;
      }
      atStop := s[..];
      FlushAllRegisters();
    }
  }

  /** A vector loaded and evicted again: the cache is valid and the checker complains. */
  method EvictedVectorFailsCheck() returns (cache: RegCache<int>, ok: bool)
    ensures cache.Valid() && (forall r :: 0 <= r < FPREG_MAX ==> cache.s[r].count == 0) && !ok
  {
    hide Represents, BanksOk;
    var mem := new int[4](_ => 0);
    cache := new RegCache<int>(mem, 0, 8, 12, RegSet(8, 12), RegSet(0, 0));
    cache.Claim(8, 0, BANK, 1, AccessType(true, false));
    cache.WriteAndEvictRegisters(8, BANK);
    assert cache.s[9].index == 1;
    ok := cache.ValidateReachable();
  }

  /** Three scalars of importance 4 in all but the first lane of the cache's one bank. */
  predicate ThreeScalars(st: seq<RegStatus>) {
    && |st| == FPREG_MAX
    && forall k :: 0 <= k < FPREG_MAX ==>
         if 9 <= k < 12 then st[k] == RegStatus(1, 0, k - 8, false, true, 4) else st[k].count == 0
  }

  method LoadThreeScalars() returns (cache: RegCache<int>)
    ensures cache.Valid() && cache.Quiescent() && cache.mem.Length == 8 && ThreeScalars(cache.s[..])
    ensures cache.start == 8 && cache.end == 12 && cache.preferred == RegSet(8, 12) && cache.fallback == RegSet(0, 0)
    ensures fresh(cache.s) && fresh(cache.f) && fresh(cache.mem)
  {
    hide Represents, BanksOk;
    var mem := new int[8](_ => 0);
    cache := new RegCache<int>(mem, 0, 8, 12, RegSet(8, 12), RegSet(0, 0));
    cache.Claim(9, 1, 1, 4, AccessType(true, false));
    cache.Claim(10, 2, 1, 4, AccessType(true, false));
    cache.Claim(11, 3, 1, 4, AccessType(true, false));
  }

  /** The choice going against importance: a vector of importance 1 is given the bank of three
      scalars of importance 4, and these are no longer held. */
  method HollowBankIsTaken() returns (cache: RegCache<int>, ghost before: seq<RegStatus>, ok: bool, reg: nat)
    ensures ok && cache.Valid() && cache.mem.Length == 8 && ThreeScalars(before)
    ensures LosesMoreImportant(before, cache.start, cache.end, cache.preferred, cache.fallback, 1, reg)
    ensures cache.Granted(reg, 4, BANK, AccessType(true, false), 1) && cache.Untouched(0, 4)
  {
    hide Represents, BanksOk, LosesMoreImportant, VectorFull, Cleared, GivesWay, Exact, LeavesStale, StillModified, MapsOnly;
    cache := LoadThreeScalars();
    before := cache.s[..];
    OneHollowBank(before);
    ghost var deferredTo;
    ok, reg, deferredTo := cache.AcquireVectorRegister(4, AccessType(true, false), 1);
  }

  lemma OneHollowBank(st: seq<RegStatus>)
    requires ThreeScalars(st)
    ensures LosesMoreImportant(st, 8, 12, RegSet(8, 12), RegSet(0, 0), 1, 8)
    ensures Cleared(st, 4) == st && !GivesWay(st, 4, 1) && !Exact(st, 4)
    ensures !VectorFull(st, 8, 12, RegSet(8, 12), RegSet(0, 0), 1)
  {
    assert st[9].count == 1 && !FreeBank(st, 8);
    assert FallsOnHollow(st, 8, 12, RegSet(8, 12), RegSet(0, 0), 1, 8);
    assert BankIn(st, 8, 8, 12) && BankWorth(st, 8) == INT_MIN;
    assert 1 <= st[9].importance;
  }
}
