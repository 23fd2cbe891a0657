/**
 The collector's state as a value, and what `malloc` does to it.

 `GcState` is the abstract view of a `Gc` object. `MallocSpec` is the
 allocation policy: bump allocation, else first-fit reuse of a `Deallocated`
 slot, else one collection and one more attempt at reuse. The lemmas below
 state what that policy keeps and what its result means.
 */
module Allocator {
  import opened Wrappers
  import opened Records
  import opened Resolver
  import opened Collector

  datatype GcState = GcState(
    heapBegin: nat,
    heapFree: nat,
    heapEnd: nat,
    stackBegin: Option<nat>,
    stackEnd: Option<nat>,
    table: seq<Record>)

  /** The state `new` sets up over the arena `[base, base + size)`. */
  function Initial(base: nat, size: nat): GcState {
    GcState(base, base, base + size, None, None, [])
  }

  /** The bump cursor stays inside the arena, the record table below its end
      does not reach the cursor, and the records tile `[heapBegin, heapFree)`. */
  ghost predicate ValidState(s: GcState) {
    && s.heapBegin <= s.heapFree
    && s.heapFree + RECORD_SIZE * |s.table| <= s.heapEnd
    && Tiled(s.heapBegin, s.table, s.heapFree)
  }

  /** Between calls, every record is either in use or free. */
  ghost predicate Settled(s: GcState) {
    forall k :: 0 <= k < |s.table| ==> s.table[k].status == Referred || s.table[k].status == Deallocated
  }

  /** The capacity test of the bump path: room for the block and one more
      record between the cursor and the record table. */
  predicate CanBump(s: GcState, size: nat) {
    size + RECORD_SIZE <= s.heapEnd - s.heapFree - RECORD_SIZE * |s.table|
  }

  predicate Fits(r: Record, size: nat) {
    r.status == Deallocated && r.size >= size
  }

  /** The first slot above slot `i` whose block is free and large enough. */
  function FirstFitFrom(t: seq<Record>, size: nat, i: nat): (r: Option<nat>)
    requires i <= |t|
    ensures r.Some? ==> i < r.value <= |t| && Fits(t[r.value - 1], size)
    ensures r.Some? ==> forall k :: i <= k < r.value - 1 ==> !Fits(t[k], size)
    ensures r.None? ==> forall k :: i <= k < |t| ==> !Fits(t[k], size)
    decreases |t| - i
  {
    if i == |t| then None
    else if Fits(t[i], size) then Some(i + 1)
    else FirstFitFrom(t, size, i + 1)
  }

  /** The lowest slot whose block is free and large enough. */
  function FirstFit(t: seq<Record>, size: nat): Option<nat> {
    FirstFitFrom(t, size, 0)
  }

  /** The bump path: the block starts at the cursor, the cursor moves past
      it, and a new `Referred` record is appended. */
  function BumpStep(s: GcState, size: nat): (r: (Option<nat>, GcState))
    ensures r.0 == Some(s.heapFree) && r.1 == s.(heapFree := r.1.heapFree, table := r.1.table)
    ensures |r.1.table| == |s.table| + 1 && r.1.table[..|s.table|] == s.table
    ensures var b := r.1.table[|s.table|];
      b.addr == s.heapFree && Limit(b) == r.1.heapFree && b.size == size && b.status == Referred
  {
    (Some(s.heapFree),
     s.(heapFree := s.heapFree + size, table := s.table + [Record(s.heapFree, size, Referred)]))
  }

  /** `malloc_from_deallocated`: the first fitting slot becomes `Referred`
      and keeps its address and size. */
  function ReuseStep(s: GcState, size: nat): (r: (Option<nat>, GcState))
    ensures r.0.None? <==> FirstFit(s.table, size).None?
    ensures r.0.None? ==> r.1 == s
    ensures r.1 == s.(table := r.1.table) && SameLayout(s.table, r.1.table)
    ensures r.0.Some? ==> var k := FirstFit(s.table, size).value - 1;
      && Fits(s.table[k], size) && r.0.value == s.table[k].addr && r.1.table[k].status == Referred
      && forall m :: 0 <= m < |s.table| && m != k ==> r.1.table[m] == s.table[m]
  {
    match FirstFit(s.table, size)
    case None => (None, s)
    case Some(k) => (Some(s.table[k - 1].addr), s.(table := s.table[k - 1 := s.table[k - 1].(status := Referred)]))
  }

  predicate RootsSet(s: GcState) {
    s.stackBegin.Some? && s.stackEnd.Some?
  }

  /** The pass a collection of `s` runs. */
  function PassOf(s: GcState): Pass
    requires RootsSet(s)
  {
    Pass(AsWritten(s.heapBegin, s.heapEnd), s.table, s.stackBegin.value, s.stackEnd.value)
  }

  /** `cleanup`: only the statuses of the table change. */
  ghost function CollectState(s: GcState, readWord: nat -> nat): (r: GcState)
    requires RootsSet(s)
    ensures r == s.(table := r.table) && SameLayout(s.table, r.table) && Settled(r)
    ensures forall k :: 0 <= k < |s.table| && s.table[k].status == Deallocated ==> r.table[k].status == Deallocated
  {
    s.(table := Collected(PassOf(s), readWord))
  }

  /** Neither bump allocation nor reuse can satisfy the request. */
  predicate NeedsCollection(s: GcState, size: nat) {
    !CanBump(s, size) && FirstFit(s.table, size).None?
  }

  /** `malloc`: bump allocation, else reuse, else one collection and one
      more attempt at reuse. Only the bump path moves the cursor or adds a
      record, and only a request that neither bump nor reuse can meet may
      fail. */
  ghost function MallocSpec(s: GcState, size: nat, readWord: nat -> nat): (r: (Option<nat>, GcState))
    requires NeedsCollection(s, size) ==> RootsSet(s)
    ensures r.0.None? ==> NeedsCollection(s, size)
    ensures CanBump(s, size) ==> r.0 == Some(s.heapFree)
    ensures !CanBump(s, size) ==> r.1.heapFree == s.heapFree && SameLayout(s.table, r.1.table)
  {
    if CanBump(s, size) then BumpStep(s, size)
    else if ReuseStep(s, size).0.Some? then ReuseStep(s, size)
    else ReuseStep(CollectState(s, readWord), size)
  }

  // ---- What the steps keep ----

  lemma InitialValid(base: nat, size: nat)
    ensures ValidState(Initial(base, size)) && Settled(Initial(base, size))
  {
  }

  /** Reuse changes one status in place, so the table stays tiled. */
  lemma ReuseKeepsValid(s: GcState, size: nat)
    requires ValidState(s)
    ensures ValidState(ReuseStep(s, size).1)
    ensures SameLayout(s.table, ReuseStep(s, size).1.table)
  {
    var s' := ReuseStep(s, size).1;
    TiledSameLayout(s.heapBegin, s.table, s'.table, s.heapFree);
  }

  lemma CollectKeepsValid(s: GcState, readWord: nat -> nat)
    requires ValidState(s) && RootsSet(s)
    ensures ValidState(CollectState(s, readWord)) && Settled(CollectState(s, readWord))
  {
    TiledSameLayout(s.heapBegin, s.table, CollectState(s, readWord).table, s.heapFree);
  }

  /** `cleanup` frees the newest record whatever refers to it: the search it
      scans with never names the last slot. */
  lemma CleanupFreesNewest(s: GcState, readWord: nat -> nat)
    requires RootsSet(s) && |s.table| > 0
    ensures CollectState(s, readWord).table[|s.table| - 1].status == Deallocated
  {
    NewestSlotFreed(s.heapBegin, s.heapEnd, s.table, s.stackBegin.value, s.stackEnd.value, readWord);
  }

  /** A second `cleanup` right after a first, with memory unchanged, changes
      nothing. */
  lemma CleanupIdempotent(s: GcState, readWord: nat -> nat)
    requires RootsSet(s)
    ensures CollectState(CollectState(s, readWord), readWord) == CollectState(s, readWord)
  {
    assert PassOf(CollectState(s, readWord)) == Again(PassOf(s), readWord);
    CollectedIdempotent(PassOf(s), readWord);
  }

  /** Every path of `malloc` keeps the layout invariant and the tiling, moves
      the cursor and the record count only upward, leaves the arena bounds
      and the roots alone, and never moves or resizes an existing record. */
  lemma MallocKeepsValid(s: GcState, size: nat, readWord: nat -> nat)
    requires ValidState(s)
    requires NeedsCollection(s, size) ==> RootsSet(s)
    ensures var s' := MallocSpec(s, size, readWord).1;
      && ValidState(s')
      && s'.heapBegin == s.heapBegin && s'.heapEnd == s.heapEnd
      && s'.stackBegin == s.stackBegin && s'.stackEnd == s.stackEnd
      && s.heapFree <= s'.heapFree && |s.table| <= |s'.table|
      && (forall k :: 0 <= k < |s.table| ==> s'.table[k].addr == s.table[k].addr && s'.table[k].size == s.table[k].size)
      && (Settled(s) ==> Settled(s'))
  {
    if CanBump(s, size) {
      TiledAppend(s.heapBegin, s.table, s.heapFree, size, Referred);
    } else if ReuseStep(s, size).0.Some? {
      ReuseKeepsValid(s, size);
    } else {
      var c := CollectState(s, readWord);
      CollectKeepsValid(s, readWord);
      ReuseKeepsValid(c, size);
    }
  }

  /** A successful `malloc` hands out the address of a slot that is now
      `Referred` and large enough. Before the call that slot was new, or
      `Deallocated`, or it was freed by the collection this call ran because
      no chain from the roots reached it. For a request of at least one byte,
      no other block holds that address. */
  lemma MallocResult(s: GcState, size: nat, readWord: nat -> nat)
    requires ValidState(s)
    requires NeedsCollection(s, size) ==> RootsSet(s)
    ensures var (r, s') := MallocSpec(s, size, readWord);
      r.Some? ==> exists k :: SlotHandedOut(s, s', size, readWord, r.value, k)
  {
    var (r, s') := MallocSpec(s, size, readWord);
    MallocKeepsValid(s, size, readWord);
    if r.Some? {
      var k: nat;
      if CanBump(s, size) {
        k := |s.table|;
      } else if ReuseStep(s, size).0.Some? {
        k := FirstFit(s.table, size).value - 1;
      } else {
        k := FirstFit(CollectState(s, readWord).table, size).value - 1;
      }
      forall m | 0 <= m < |s'.table| && m != k && size > 0
        ensures !Contains(s'.table[m], r.value)
      {
        if m < k {
          TiledOrder(s'.heapBegin, s'.table, s'.heapFree, m, k);
        } else {
          TiledOrder(s'.heapBegin, s'.table, s'.heapFree, k, m);
        }
      }
      assert SlotHandedOut(s, s', size, readWord, r.value, k);
    }
  }

  /** Slot `k` (counting from 0) of `s'` is the one `malloc` handed out at
      address `a` when called on `s`. */
  ghost predicate SlotHandedOut(s: GcState, s': GcState, size: nat, readWord: nat -> nat, a: nat, k: nat) {
    && k < |s'.table|
    && s'.table[k].addr == a
    && s'.table[k].status == Referred
    && s'.table[k].size >= size
    && (|| k == |s.table|
        || (k < |s.table| && s.table[k].status == Deallocated)
        || (k < |s.table| && NeedsCollection(s, size) && RootsSet(s) && !Reachable(PassOf(s), readWord, k + 1)))
    && (size > 0 ==> forall m :: 0 <= m < |s'.table| && m != k ==> !Contains(s'.table[m], a))
  }

  /** `malloc` fails only after exactly one collection, and only when after
      that collection no free slot is large enough; the failed call leaves
      the state the collection produced. */
  lemma MallocFailure(s: GcState, size: nat, readWord: nat -> nat)
    requires NeedsCollection(s, size) ==> RootsSet(s)
    ensures var (r, s') := MallocSpec(s, size, readWord);
      r.None? <==> NeedsCollection(s, size) && FirstFit(CollectState(s, readWord).table, size).None?
    ensures var (r, s') := MallocSpec(s, size, readWord);
      r.None? ==> s' == CollectState(s, readWord)
  {
  }

  /** Unless both bump allocation and reuse fail, no collection runs: every
      slot that was in use keeps its record unchanged. */
  lemma MallocSparesLive(s: GcState, size: nat, readWord: nat -> nat)
    requires !NeedsCollection(s, size)
    ensures var (r, s') := MallocSpec(s, size, readWord);
      && r.Some?
      && forall k :: 0 <= k < |s.table| && s.table[k].status != Deallocated ==> s'.table[k] == s.table[k]
  {
  }
}
