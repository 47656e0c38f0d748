/** What a write-back cache of stack slots means, whatever its registers look like.
    A cache is a memory plus a sequence of entries; each entry maps a run of
    consecutive slots to the lanes of one register.  Both JIT back ends are proved
    against this one definition. */
module CacheModel {

  datatype Entry<V> = Entry(pos: nat, len: nat, init: bool, dirty: bool, vals: seq<V>)

  predicate Covers<V>(e: Entry<V>, slot: int) {
    e.pos <= slot < e.pos + e.len
  }

  predicate Shaped<V>(e: Entry<V>, size: nat) {
    e.len <= |e.vals| && (e.len > 0 ==> e.pos + e.len <= size)
  }

  /** Two entries map no slot in common. */
  predicate Apart<V>(a: Entry<V>, b: Entry<V>) {
    a.len == 0 || b.len == 0 || a.pos + a.len <= b.pos || b.pos + b.len <= a.pos
  }

  function ValueAt<V>(e: Entry<V>, slot: int): V
    requires Covers(e, slot) && e.len <= |e.vals|
  {
    e.vals[slot - e.pos]
  }

  /** Some register holds a newer value for `slot` than memory does. */
  ghost predicate Owed<V>(ents: seq<Entry<V>>, slot: int) {
    exists i :: 0 <= i < |ents| && Covers(ents[i], slot) && ents[i].init && ents[i].dirty
  }

  /** `view` is the stack the compiled program believes in: initialised entries hold
      its values, memory holds the rest, and where memory differs an entry owes the write. */
  ghost predicate Represents<V>(view: seq<V>, mem: seq<V>, ents: seq<Entry<V>>) {
    && |view| == |mem|
    && (forall i :: 0 <= i < |ents| ==> Shaped(ents[i], |mem|))
    && (forall i, j :: 0 <= i < j < |ents| ==> Apart(ents[i], ents[j]))
    && (forall i, slot :: 0 <= i < |ents| && Covers(ents[i], slot) && ents[i].init ==>
          ValueAt(ents[i], slot) == view[slot])
    && (forall slot :: 0 <= slot < |mem| ==> mem[slot] == view[slot] || Owed(ents, slot))
  }

  /** The entry of an initialised register covering `slot`, if there is one. */
  ghost predicate Cached<V>(ents: seq<Entry<V>>, slot: int) {
    exists i :: 0 <= i < |ents| && Covers(ents[i], slot) && ents[i].init
  }

  /** The view computed: the lane of the initialised entry on the slot, otherwise memory. */
  ghost function LogicalValue<V>(mem: seq<V>, ents: seq<Entry<V>>, slot: nat): V
    requires slot < |mem|
    requires forall i :: 0 <= i < |ents| ==> Shaped(ents[i], |mem|)
  {
    if Cached(ents, slot) then
      var i :| 0 <= i < |ents| && Shaped(ents[i], |mem|) && Covers(ents[i], slot) && ents[i].init;
      ValueAt(ents[i], slot)
    else mem[slot]
  }

  lemma ViewIsDetermined<V>(view: seq<V>, mem: seq<V>, ents: seq<Entry<V>>, slot: nat)
    requires Represents(view, mem, ents)
    requires slot < |mem|
    ensures view[slot] == LogicalValue(mem, ents, slot)
  {
  }

  /** Nothing owed: memory has caught up with the view. */
  lemma NothingOwed<V>(view: seq<V>, mem: seq<V>, ents: seq<Entry<V>>)
    requires Represents(view, mem, ents)
    requires forall i :: 0 <= i < |ents| && ents[i].len > 0 ==> !ents[i].dirty
    ensures mem == view
  {
    forall slot | 0 <= slot < |mem| ensures mem[slot] == view[slot] {
      assert !Owed(ents, slot);
    }
  }

  /** Entries that map no slot in common do not start at the same one. */
  lemma SameStartSameEntry<V>(ents: seq<Entry<V>>, a: nat, b: nat)
    requires forall i, j :: 0 <= i < j < |ents| ==> Apart(ents[i], ents[j])
    requires a < |ents| && b < |ents| && ents[a].len > 0 && ents[b].len > 0 && ents[a].pos == ents[b].pos
    ensures a == b
  {
  }

  function Overwrite<V>(mem: seq<V>, pos: nat, vals: seq<V>): (r: seq<V>)
    requires pos + |vals| <= |mem|
    ensures |r| == |mem|
    ensures forall k :: 0 <= k < |mem| ==> r[k] == if pos <= k < pos + |vals| then vals[k - pos] else mem[k]
  {
    mem[..pos] + vals + mem[pos + |vals|..]
  }

  lemma OverwriteWithSame<V>(view: seq<V>, pos: nat, vals: seq<V>, n: nat)
    requires n <= |vals| && pos + |vals| <= |view|
    requires forall k :: n <= k < |vals| ==> vals[k] == view[pos..pos + |vals|][k]
    ensures Overwrite(view, pos, vals) == Overwrite(view, pos, vals[..n])
  {
  }

  // ------------------------------------------------------------------
  // The steps a cache may take
  // ------------------------------------------------------------------

  /** Memory has caught up with the view on the slots of e. */
  ghost predicate CaughtUp<V>(view: seq<V>, mem: seq<V>, e: Entry<V>)
    requires |view| == |mem| && Shaped(e, |mem|)
  {
    forall slot :: Covers(e, slot) ==> mem[slot] == view[slot]
  }

  ghost predicate HoldsView<V>(view: seq<V>, e: Entry<V>)
    requires Shaped(e, |view|)
  {
    forall slot :: Covers(e, slot) ==> ValueAt(e, slot) == view[slot]
  }

  /** What may happen to one entry while the view stays: it is forgotten, or it keeps its
      slots and any lanes it counts as initialised hold the view; and a write it owed
      either stays owed or has reached memory. */
  ghost predicate EntryStep<V>(view: seq<V>, mem: seq<V>, before: Entry<V>, after: Entry<V>)
    requires |view| == |mem| && Shaped(before, |mem|)
  {
    && Shaped(after, |mem|)
    && (after.len == 0 || (after.pos == before.pos && after.len == before.len))
    && (after.len > 0 && after.init ==> HoldsView(view, after))
    && (before.init && before.dirty && !(after.len > 0 && after.init && after.dirty) ==> CaughtUp(view, mem, before))
  }

  /** Flushing, evicting, loading and marking, on any number of entries at once. */
  lemma StepKeepsView<V>(view: seq<V>, mem: seq<V>, mem': seq<V>, ents: seq<Entry<V>>, ents': seq<Entry<V>>)
    requires Represents(view, mem, ents)
    requires |ents'| == |ents| && |mem'| == |mem|
    requires forall slot :: 0 <= slot < |mem| ==> mem'[slot] == mem[slot] || mem'[slot] == view[slot]
    requires forall i :: 0 <= i < |ents| ==> ents'[i] == ents[i] || EntryStep(view, mem', ents[i], ents'[i])
    ensures Represents(view, mem', ents')
  {
    forall i, slot | 0 <= i < |ents'| && Covers(ents'[i], slot) && ents'[i].init
      ensures ValueAt(ents'[i], slot) == view[slot]
    {
      assert ents'[i] == ents[i] || EntryStep(view, mem', ents[i], ents'[i]);
    }
    forall i, j | 0 <= i < j < |ents'| ensures Apart(ents'[i], ents'[j]) {
      assert Apart(ents[i], ents[j]);
      assert ents'[i] == ents[i] || EntryStep(view, mem', ents[i], ents'[i]);
      assert ents'[j] == ents[j] || EntryStep(view, mem', ents[j], ents'[j]);
    }
    forall slot | 0 <= slot < |mem| ensures mem'[slot] == view[slot] || Owed(ents', slot) {
      if mem'[slot] != view[slot] {
        var i :| 0 <= i < |ents| && Covers(ents[i], slot) && ents[i].init && ents[i].dirty;
        assert ents'[i] == ents[i] || EntryStep(view, mem', ents[i], ents'[i]);
        assert Covers(ents'[i], slot);
      }
    }
  }

  /** An entry with nothing in it yet may be loaded from memory. */
  lemma UninitialisedIsCaughtUp<V>(view: seq<V>, mem: seq<V>, ents: seq<Entry<V>>, i: nat)
    requires Represents(view, mem, ents)
    requires i < |ents| && !ents[i].init
    ensures CaughtUp(view, mem, ents[i])
  {
    forall slot | Covers(ents[i], slot) ensures mem[slot] == view[slot] {
      forall j | 0 <= j < |ents| && j != i ensures !Covers(ents[j], slot) {
        assert if j < i then Apart(ents[j], ents[i]) else Apart(ents[i], ents[j]);
      }
    }
  }

  /** A mapped entry's slots are slots of memory; its lanes hold the view once it is
      initialised, and memory does before. */
  lemma EntryHoldsView<V>(view: seq<V>, mem: seq<V>, ents: seq<Entry<V>>, i: nat)
    requires Represents(view, mem, ents) && i < |ents| && ents[i].len > 0
    ensures var e := ents[i];
      && e.pos + e.len <= |mem| && e.len <= |e.vals|
      && (e.init ==> forall k :: 0 <= k < e.len ==> e.vals[k] == view[e.pos + k])
      && (!e.init ==> forall slot :: e.pos <= slot < e.pos + e.len ==> mem[slot] == view[slot])
  {
    var e := ents[i];
    assert Shaped(e, |mem|);
    if e.init {
      forall k | 0 <= k < e.len ensures e.vals[k] == view[e.pos + k] {
        assert Covers(e, e.pos + k);
        assert ValueAt(e, e.pos + k) == view[e.pos + k];
      }
    } else {
      UninitialisedIsCaughtUp(view, mem, ents, i);
      assert forall slot :: e.pos <= slot < e.pos + e.len ==> Covers(e, slot);
    }
  }

  /** Mapping empty entries to slots nobody else maps; nothing is read or written yet. */
  lemma MapKeepsView<V>(view: seq<V>, mem: seq<V>, ents: seq<Entry<V>>, ents': seq<Entry<V>>)
    requires Represents(view, mem, ents)
    requires |ents'| == |ents|
    requires forall i :: 0 <= i < |ents| ==> ents'[i] == ents[i] || (ents[i].len == 0 && !ents'[i].init && Shaped(ents'[i], |mem|))
    requires forall i, j :: 0 <= i < j < |ents| ==> Apart(ents'[i], ents'[j])
    ensures Represents(view, mem, ents')
  {
    forall slot | 0 <= slot < |mem| ensures mem[slot] == view[slot] || Owed(ents', slot) {
      if mem[slot] != view[slot] {
        var j :| 0 <= j < |ents| && Covers(ents[j], slot) && ents[j].init && ents[j].dirty;
        assert ents'[j] == ents[j];
      }
    }
  }

  /** What may happen to one entry when the program writes: it is not on the written slots,
      or it holds the new values and owes them to memory. */
  ghost predicate EntryStored<V>(view: seq<V>, view': seq<V>, before: Entry<V>, after: Entry<V>)
    requires |view| == |view'| && Shaped(before, |view|)
  {
    || (after == before && forall slot :: Covers(before, slot) ==> view'[slot] == view[slot])
    || (after.pos == before.pos && after.len == before.len && after.init && after.dirty
        && Shaped(after, |view'|) && HoldsView(view', after))
  }

  /** Writing registers and noting them modified turns the view into the one written. */
  lemma StoreChangesView<V>(view: seq<V>, view': seq<V>, mem: seq<V>, ents: seq<Entry<V>>, ents': seq<Entry<V>>)
    requires Represents(view, mem, ents)
    requires |ents'| == |ents| && |view'| == |view|
    requires forall i :: 0 <= i < |ents| ==> EntryStored(view, view', ents[i], ents'[i])
    requires forall slot :: 0 <= slot < |view| ==> view'[slot] == view[slot] || Owed(ents', slot)
    ensures Represents(view', mem, ents')
  {
    forall i, slot | 0 <= i < |ents'| && Covers(ents'[i], slot) && ents'[i].init
      ensures ValueAt(ents'[i], slot) == view'[slot]
    {
      assert EntryStored(view, view', ents[i], ents'[i]);
    }
    forall i, j | 0 <= i < j < |ents'| ensures Apart(ents'[i], ents'[j]) {
      assert Apart(ents[i], ents[j]);
      assert EntryStored(view, view', ents[i], ents'[i]) && EntryStored(view, view', ents[j], ents'[j]);
    }
    forall slot | 0 <= slot < |mem| ensures mem[slot] == view'[slot] || Owed(ents', slot) {
      if view'[slot] == view[slot] && mem[slot] != view[slot] {
        var i :| 0 <= i < |ents| && Covers(ents[i], slot) && ents[i].init && ents[i].dirty;
        assert EntryStored(view, view', ents[i], ents'[i]);
        assert Covers(ents'[i], slot);
      }
    }
  }

  // ------------------------------------------------------------------
  // Going round the cache
  // ------------------------------------------------------------------

  ghost predicate DirectLoadIsSafe<V(!new)>(view: seq<V>, ents: seq<Entry<V>>, pos: nat, n: nat)
    requires pos + n <= |view|
  {
    forall mem: seq<V> :: Represents(view, mem, ents) ==> mem[pos..pos + n] == view[pos..pos + n]
  }

  /** Loading straight from memory yields the view, whatever memory holds, exactly when no
      entry owes a write to those slots. */
  lemma DirectLoadIff<V(!new)>(view: seq<V>, mem0: seq<V>, ents: seq<Entry<V>>, pos: nat, n: nat, a: V, b: V)
    requires Represents(view, mem0, ents) && pos + n <= |view| && a != b
    ensures DirectLoadIsSafe(view, ents, pos, n) <==> forall slot :: pos <= slot < pos + n ==> !Owed(ents, slot)
  {
    if slot :| pos <= slot < pos + n && Owed(ents, slot) {
      var mem := view[slot := if view[slot] == a then b else a];
      assert Represents(view, mem, ents);
      assert mem[pos..pos + n][slot - pos] != view[pos..pos + n][slot - pos];
    }
  }

  ghost predicate DirectStoreIsSafe<V(!new)>(view: seq<V>, mem: seq<V>, ents: seq<Entry<V>>, pos: nat, n: nat)
    requires pos + n <= |view| == |mem|
  {
    forall vals: seq<V> :: |vals| == n ==> Represents(Overwrite(view, pos, vals), Overwrite(mem, pos, vals), ents)
  }

  /** Storing straight to memory updates the view, whatever is stored, exactly when no
      initialised entry covers those slots. */
  lemma DirectStoreIff<V(!new)>(view: seq<V>, mem: seq<V>, ents: seq<Entry<V>>, pos: nat, n: nat, a: V, b: V)
    requires Represents(view, mem, ents) && pos + n <= |view| && a != b
    ensures DirectStoreIsSafe(view, mem, ents, pos, n) <==> forall slot :: pos <= slot < pos + n ==> !Cached(ents, slot)
  {
    if slot :| pos <= slot < pos + n && Cached(ents, slot) {
      var i :| 0 <= i < |ents| && Shaped(ents[i], |mem|) && Covers(ents[i], slot) && ents[i].init;
      var c := if ValueAt(ents[i], slot) == a then b else a;
      var vals := seq(n, _ => c);
      assert Overwrite(view, pos, vals)[slot] == c;
      assert !Represents(Overwrite(view, pos, vals), Overwrite(mem, pos, vals), ents);
    } else {
      forall vals: seq<V> | |vals| == n
        ensures Represents(Overwrite(view, pos, vals), Overwrite(mem, pos, vals), ents)
      {
        DirectStoreKeepsPace(view, mem, ents, pos, vals);
      }
    }
  }

  lemma DirectStoreKeepsPace<V>(view: seq<V>, mem: seq<V>, ents: seq<Entry<V>>, pos: nat, vals: seq<V>)
    requires Represents(view, mem, ents) && pos + |vals| <= |view|
    requires forall slot :: pos <= slot < pos + |vals| ==> !Cached(ents, slot)
    ensures Represents(Overwrite(view, pos, vals), Overwrite(mem, pos, vals), ents)
  {
    var view', mem' := Overwrite(view, pos, vals), Overwrite(mem, pos, vals);
    forall slot | 0 <= slot < |mem| ensures mem'[slot] == view'[slot] || Owed(ents, slot) {
      if !(pos <= slot < pos + |vals|) {
        assert mem'[slot] == mem[slot] && view'[slot] == view[slot];
      }
    }
    forall i, slot | 0 <= i < |ents| && Covers(ents[i], slot) && ents[i].init
      ensures ValueAt(ents[i], slot) == view'[slot]
    {
      assert Cached(ents, slot);
    }
  }

  // ------------------------------------------------------------------
  // The plain array the cache stands for
  // ------------------------------------------------------------------

  datatype Access<V> =
    | ReadScalar(pos: nat)
    | ReadVector(pos: nat)
    | WriteScalar(pos: nat, val: V)
    | WriteVector(pos: nat, vals: seq<V>)

  predicate InRange<V>(a: Access<V>, size: nat) {
    match a
    case ReadScalar(pos) => pos < size
    case ReadVector(pos) => pos + 4 <= size
    case WriteScalar(pos, _) => pos < size
    case WriteVector(pos, vals) => |vals| == 4 && pos + 4 <= size
  }

  /** The same run of slots, or no slot in common. */
  predicate SameOrApart(pos: int, len: int, pos': int, len': int) {
    (pos == pos' && len == len') || pos + len <= pos' || pos' + len' <= pos
  }

  /** No slot is accessed both as a scalar and as part of a vector, or by two askew vectors. */
  predicate SteadyShapes<V>(accesses: seq<Access<V>>) {
    forall j, k :: 0 <= j < |accesses| && 0 <= k < |accesses| ==>
      SameOrApart(accesses[j].pos, Size(accesses[j]), accesses[k].pos, Size(accesses[k]))
  }

  /** How many slots an access touches. */
  function Size<V>(a: Access<V>): nat {
    if a.ReadScalar? || a.WriteScalar? then 1 else 4
  }

  /** Memory after one access on a plain array. */
  function PlainMemory<V>(mem: seq<V>, a: Access<V>): (r: seq<V>)
    requires InRange(a, |mem|)
    ensures |r| == |mem|
  {
    match a
    case ReadScalar(_) => mem
    case ReadVector(_) => mem
    case WriteScalar(pos, val) => mem[pos := val]
    case WriteVector(pos, vals) => Overwrite(mem, pos, vals)
  }

  /** What one access on a plain array returns; writes return nothing. */
  function PlainResult<V>(mem: seq<V>, a: Access<V>): seq<V>
    requires InRange(a, |mem|)
  {
    match a
    case ReadScalar(pos) => [mem[pos]]
    case ReadVector(pos) => mem[pos..pos + 4]
    case WriteScalar(_, _) => []
    case WriteVector(_, _) => []
  }

  function PlainRun<V>(mem: seq<V>, accesses: seq<Access<V>>): (r: (seq<V>, seq<seq<V>>))
    requires forall a :: a in accesses ==> InRange(a, |mem|)
    ensures |r.0| == |mem| && |r.1| == |accesses|
  {
    if accesses == [] then (mem, [])
    else
      var n := |accesses| - 1;
      var before := PlainRun(mem, accesses[..n]);
      (PlainMemory(before.0, accesses[n]), before.1 + [PlainResult(before.0, accesses[n])])
  }
}
