/**
 What one mark-sweep pass is meant to compute, stated without its loops.

 A pass starts from the table as it is when the pass begins. Every word read
 at a byte address in the root range is resolved to a slot. So is every word
 read at a byte address inside the block of a slot already reached. The
 collector resolves with `find_record` as written (`Resolve`); the same pass
 over the intended search (`Locate`) is the corrected collector of module
 Findings. The slots reached this way that were not `Deallocated` end
 `Referred`; all the others end `Deallocated`. `Collected` states that outcome. The imperative pass in
 module Scgc is proved to produce it, and `MarkInv` is the invariant that
 proof carries.
 */
module Collector {
  import opened Wrappers
  import opened Records
  import opened Resolver

  /** How a pass resolves a word: with `find_record` as written over the arena
      `[heapBegin, heapEnd]`, or with the intended search. */
  datatype Search = AsWritten(heapBegin: nat, heapEnd: nat) | Intended

  /** What a pass sees: its search, the table when the pass begins, and the
      root range `[rootBegin, rootEnd)` (empty when `rootEnd <= rootBegin`). */
  datatype Pass = Pass(search: Search, table: seq<Record>, rootBegin: nat, rootEnd: nat)

  /** The slot named by the word that `readWord` yields at byte address `p`.
      Slot 0, which the search as written can name, is no slot of the table. */
  function Target(ps: Pass, readWord: nat -> nat, p: nat): Option<nat> {
    match ps.search
    case AsWritten(heapBegin, heapEnd) => Resolve(heapBegin, heapEnd, ps.table, readWord(p))
    case Intended => Locate(ps.table, readWord(p))
  }

  /** Some word read at a byte address in `[lo, hi)` names slot `j`. */
  ghost predicate Refers(ps: Pass, readWord: nat -> nat, lo: nat, hi: nat, j: nat) {
    exists p :: lo <= p < hi && Target(ps, readWord, p) == Some(j)
  }

  /** Scanning one more byte address adds exactly the slot its word names. */
  lemma RefersExtend(ps: Pass, readWord: nat -> nat, lo: nat, hi: nat, j: nat)
    requires lo <= hi
    ensures Refers(ps, readWord, lo, hi + 1, j) <==> Refers(ps, readWord, lo, hi, j) || Target(ps, readWord, hi) == Some(j)
  {
    if Refers(ps, readWord, lo, hi + 1, j) {
      var p :| lo <= p < hi + 1 && Target(ps, readWord, p) == Some(j);
      if p < hi {
        assert Refers(ps, readWord, lo, hi, j);
      }
    }
  }

  /** Slot `j` exists and is in use when the pass begins. */
  ghost predicate Live(ps: Pass, j: nat) {
    1 <= j <= |ps.table| && ps.table[j - 1].status != Deallocated
  }

  /** Some word inside the block of slot `k` names slot `j`. */
  ghost predicate RefersFrom(ps: Pass, readWord: nat -> nat, k: nat, j: nat) {
    1 <= k <= |ps.table| && Refers(ps, readWord, ps.table[k - 1].addr, Limit(ps.table[k - 1]), j)
  }

  /** A chain of live slots: the first is named from the root range, and each
      next one from inside the block of the one before. */
  ghost predicate IsChain(ps: Pass, readWord: nat -> nat, path: seq<nat>) {
    && |path| > 0
    && (forall i :: 0 <= i < |path| ==> Live(ps, path[i]))
    && Refers(ps, readWord, ps.rootBegin, ps.rootEnd, path[0])
    && (forall i :: 0 <= i < |path| - 1 ==> RefersFrom(ps, readWord, path[i], path[i + 1]))
  }

  ghost predicate Reachable(ps: Pass, readWord: nat -> nat, j: nat) {
    exists path :: IsChain(ps, readWord, path) && path[|path| - 1] == j
  }

  /** The table a full pass leaves behind. */
  ghost function Collected(ps: Pass, readWord: nat -> nat): (r: seq<Record>)
    ensures SameLayout(ps.table, r)
    ensures forall k :: 0 <= k < |r| ==> r[k].status == Referred || r[k].status == Deallocated
    ensures forall k :: 0 <= k < |r| && ps.table[k].status == Deallocated ==> r[k].status == Deallocated
    ensures forall k :: 0 <= k < |r| ==> (r[k].status == Referred <==> Live(ps, k + 1) && Reachable(ps, readWord, k + 1))
  {
    seq(|ps.table|, k requires 0 <= k < |ps.table| =>
      ps.table[k].(status := if Live(ps, k + 1) && Reachable(ps, readWord, k + 1) then Referred else Deallocated))
  }

  lemma ReachableFromRoot(ps: Pass, readWord: nat -> nat, j: nat)
    requires Live(ps, j)
    requires Refers(ps, readWord, ps.rootBegin, ps.rootEnd, j)
    ensures Reachable(ps, readWord, j)
  {
    assert IsChain(ps, readWord, [j]);
  }

  lemma ReachableStep(ps: Pass, readWord: nat -> nat, k: nat, j: nat)
    requires Reachable(ps, readWord, k)
    requires Live(ps, j)
    requires RefersFrom(ps, readWord, k, j)
    ensures Reachable(ps, readWord, j)
  {
    var path :| IsChain(ps, readWord, path) && path[|path| - 1] == k;
    var longer := path + [j];
    forall i | 0 <= i < |longer| - 1
      ensures RefersFrom(ps, readWord, longer[i], longer[i + 1])
    {
      if i < |path| - 1 {
        assert longer[i] == path[i] && longer[i + 1] == path[i + 1];
      }
    }
    assert IsChain(ps, readWord, longer);
  }

  /** Closure of the outcome, at the roots: a live slot named by a word in
      the root range ends `Referred`. */
  lemma CollectedKeepsRooted(ps: Pass, readWord: nat -> nat, p: nat, j: nat)
    requires ps.rootBegin <= p < ps.rootEnd
    requires Target(ps, readWord, p) == Some(j) && Live(ps, j)
    ensures Collected(ps, readWord)[j - 1].status == Referred
  {
    ReachableFromRoot(ps, readWord, j);
  }

  /** Closure of the outcome, through blocks: a live slot named by a word
      inside the block of a slot that ends `Referred` ends `Referred` too. */
  lemma CollectedKeepsReferenced(ps: Pass, readWord: nat -> nat, k: nat, p: nat, j: nat)
    requires 1 <= k <= |ps.table|
    requires ps.table[k - 1].addr <= p < Limit(ps.table[k - 1])
    requires Target(ps, readWord, p) == Some(j) && Live(ps, j)
    ensures Collected(ps, readWord)[k - 1].status == Referred ==> Collected(ps, readWord)[j - 1].status == Referred
  {
    if Collected(ps, readWord)[k - 1].status == Referred {
      assert RefersFrom(ps, readWord, k, j);
      ReachableStep(ps, readWord, k, j);
    }
  }

  /** The collector as written never keeps the newest record: `find_record`
      never names the last slot, so no chain reaches it, and the sweep frees
      it whatever refers to it. */
  lemma NewestSlotFreed(heapBegin: nat, heapEnd: nat, table: seq<Record>, rootBegin: nat, rootEnd: nat, readWord: nat -> nat)
    requires |table| > 0
    ensures Collected(Pass(AsWritten(heapBegin, heapEnd), table, rootBegin, rootEnd), readWord)[|table| - 1].status == Deallocated
  {
    var ps := Pass(AsWritten(heapBegin, heapEnd), table, rootBegin, rootEnd);
    forall path | IsChain(ps, readWord, path)
      ensures path[|path| - 1] != |table|
    {
      if |path| == 1 {
        NeverRefersLast(ps, readWord, rootBegin, rootEnd);
      } else {
        var k := path[|path| - 2];
        assert RefersFrom(ps, readWord, k, path[|path| - 1]);
        NeverRefersLast(ps, readWord, table[k - 1].addr, Limit(table[k - 1]));
      }
    }
  }

  /** No word resolved by the search as written names the last slot. */
  lemma NeverRefersLast(ps: Pass, readWord: nat -> nat, lo: nat, hi: nat)
    requires ps.search.AsWritten? && |ps.table| > 0
    ensures !Refers(ps, readWord, lo, hi, |ps.table|)
  {
  }

  /** The corrected collector keeps every record in use whose block holds
      the address in a root word. */
  lemma IntendedKeepsRooted(begin: nat, free: nat, ps: Pass, readWord: nat -> nat, p: nat, j: nat)
    requires ps.search == Intended && Tiled(begin, ps.table, free)
    requires ps.rootBegin <= p < ps.rootEnd
    requires Live(ps, j) && Contains(ps.table[j - 1], readWord(p))
    ensures Collected(ps, readWord)[j - 1].status == Referred
  {
    LocateUnique(begin, ps.table, free, readWord(p), j);
    CollectedKeepsRooted(ps, readWord, p, j);
  }

  // ---- The invariant of the mark phase ----

  predicate Marked(s: RecordStatus) {
    s == Touched || s == Referred
  }

  /** Every word at `p` either names no slot of the table or names one that
      is no longer `Unknown`. */
  ghost predicate Closed(ps: Pass, readWord: nat -> nat, t: seq<Record>, p: nat) {
    var r := Target(ps, readWord, p);
    r.Some? && 1 <= r.value <= |t| ==> t[r.value - 1].status != Unknown
  }

  ghost predicate RangeClosed(ps: Pass, readWord: nat -> nat, t: seq<Record>, k: nat)
    requires k < |ps.table|
  {
    forall p :: ps.table[k].addr <= p < Limit(ps.table[k]) ==> Closed(ps, readWord, t, p)
  }

  /** The closure half of the mark invariant: `t` keeps the layout and the
      `Deallocated` slots of the pass, the root range is closed, and so is
      the block of every `Referred` slot. */
  ghost predicate MarkClosed(ps: Pass, readWord: nat -> nat, t: seq<Record>) {
    && SameLayout(ps.table, t)
    && (forall k :: 0 <= k < |t| ==> (t[k].status == Deallocated <==> ps.table[k].status == Deallocated))
    && (forall p :: ps.rootBegin <= p < ps.rootEnd ==> Closed(ps, readWord, t, p))
    && (forall k :: 0 <= k < |t| && t[k].status == Referred ==> RangeClosed(ps, readWord, t, k))
  }

  /** `t` is the table during the mark phase of pass `ps`: closed as above,
      and every marked slot is reachable. */
  ghost predicate MarkInv(ps: Pass, readWord: nat -> nat, t: seq<Record>) {
    && MarkClosed(ps, readWord, t)
    && (forall k :: 0 <= k < |t| && Marked(t[k].status) ==> Reachable(ps, readWord, k + 1))
  }

  ghost predicate NoTouched(t: seq<Record>) {
    forall k :: 0 <= k < |t| ==> t[k].status != Touched
  }

  /** The status a slot gets when the reset loop visits it. */
  function Reset(r: Record): Record {
    if r.status != Deallocated then r.(status := Unknown) else r
  }

  /** The status a slot gets from a scan: `Unknown` becomes `Touched` when
      the scan named the slot. */
  function Touch(r: Record, hit: bool): Record {
    if hit && r.status == Unknown then r.(status := Touched) else r
  }

  /** The status a slot gets from the sweep. */
  function Sweep(r: Record): Record {
    if r.status == Unknown then r.(status := Deallocated) else r
  }

  /** What a scan does with one word that names `found`: an `Unknown` slot
      of the table becomes `Touched`. */
  function TouchSlot(t: seq<Record>, found: Option<nat>): seq<Record> {
    if found.Some? && 1 <= found.value <= |t| && t[found.value - 1].status == Unknown then
      t[found.value - 1 := t[found.value - 1].(status := Touched)]
    else
      t
  }

  /** One more byte address scanned: the table still records exactly the
      slots named from the scanned range. */
  lemma ScanStep(ps: Pass, readWord: nat -> nat, t0: seq<Record>, t: seq<Record>, begin: nat, ptr: nat)
    requires begin <= ptr && |t| == |t0|
    requires forall k :: 0 <= k < |t| ==> t[k] == Touch(t0[k], Refers(ps, readWord, begin, ptr, k + 1))
    ensures var u := TouchSlot(t, Target(ps, readWord, ptr));
      && |u| == |t0|
      && forall k :: 0 <= k < |u| ==> u[k] == Touch(t0[k], Refers(ps, readWord, begin, ptr + 1, k + 1))
  {
    var u := TouchSlot(t, Target(ps, readWord, ptr));
    forall k | 0 <= k < |u|
      ensures u[k] == Touch(t0[k], Refers(ps, readWord, begin, ptr + 1, k + 1))
    {
      RefersExtend(ps, readWord, begin, ptr, k + 1);
    }
  }

  /** Resetting the table and scanning the root range starts the mark phase. */
  lemma RootScanStartsMark(ps: Pass, readWord: nat -> nat, t: seq<Record>)
    requires |t| == |ps.table|
    requires forall k :: 0 <= k < |t| ==>
      t[k] == Touch(Reset(ps.table[k]), Refers(ps, readWord, ps.rootBegin, ps.rootEnd, k + 1))
    ensures MarkInv(ps, readWord, t)
  {
    forall k | 0 <= k < |t| && Marked(t[k].status)
      ensures Reachable(ps, readWord, k + 1)
    {
      ReachableFromRoot(ps, readWord, k + 1);
    }
    forall p | ps.rootBegin <= p < ps.rootEnd
      ensures Closed(ps, readWord, t, p)
    {
      var r := Target(ps, readWord, p);
      if r.Some? && 1 <= r.value <= |t| {
        assert Refers(ps, readWord, ps.rootBegin, ps.rootEnd, r.value);
      }
    }
  }

  /** `u` is `t` after `Touched` slot `k` became `Referred` and its block was
      scanned. */
  ghost predicate Promoted(ps: Pass, readWord: nat -> nat, t: seq<Record>, k: nat, u: seq<Record>) {
    && k < |t| && t[k].status == Touched && |u| == |t|
    && forall m :: 0 <= m < |u| ==>
      u[m] == Touch(t[k := t[k].(status := Referred)][m], Refers(ps, readWord, t[k].addr, Limit(t[k]), m + 1))
  }

  /** Promoting `Touched` slot `k` to `Referred` and then scanning its block
      lowers the measure: the mark loop terminates. */
  lemma PromoteLowersMeasure(ps: Pass, readWord: nat -> nat, t: seq<Record>, k: nat, u: seq<Record>)
    requires Promoted(ps, readWord, t, k, u)
    ensures Measure(u) < Measure(t)
  {
    MeasureUpdate(t, k, Referred);
    MeasureMonotone(t[k := t[k].(status := Referred)], u);
  }

  /** Promoting `Touched` slot `k` to `Referred` and then scanning its block
      keeps the invariant. */
  lemma PromoteKeepsMarkInv(ps: Pass, readWord: nat -> nat, t: seq<Record>, k: nat, u: seq<Record>)
    requires MarkInv(ps, readWord, t)
    requires Promoted(ps, readWord, t, k, u)
    ensures MarkInv(ps, readWord, u)
  {
    PromoteKeepsReachable(ps, readWord, t, k, u);
    PromoteKeepsClosed(ps, readWord, t, k, u);
  }

  /** Every slot a promotion marks is reachable through slot `k`. */
  lemma PromoteKeepsReachable(ps: Pass, readWord: nat -> nat, t: seq<Record>, k: nat, u: seq<Record>)
    requires MarkInv(ps, readWord, t) && Promoted(ps, readWord, t, k, u)
    ensures forall m :: 0 <= m < |u| && Marked(u[m].status) ==> Reachable(ps, readWord, m + 1)
  {
    var t1 := t[k := t[k].(status := Referred)];
    assert t[k].addr == ps.table[k].addr && Limit(t[k]) == Limit(ps.table[k]);
    forall m | 0 <= m < |u| && Marked(u[m].status)
      ensures Reachable(ps, readWord, m + 1)
    {
      if u[m] != t1[m] {
        assert t[m].status == Unknown && RefersFrom(ps, readWord, k + 1, m + 1);
        ReachableStep(ps, readWord, k + 1, m + 1);
      }
    }
  }

  /** A promotion keeps the roots and the blocks of `Referred` slots closed,
      the newly `Referred` block `k` included. */
  lemma PromoteKeepsClosed(ps: Pass, readWord: nat -> nat, t: seq<Record>, k: nat, u: seq<Record>)
    requires MarkClosed(ps, readWord, t) && Promoted(ps, readWord, t, k, u)
    ensures MarkClosed(ps, readWord, u)
  {
    assert t[k].addr == ps.table[k].addr && Limit(t[k]) == Limit(ps.table[k]);
    forall p | ps.rootBegin <= p < ps.rootEnd
      ensures Closed(ps, readWord, u, p)
    {
      assert Closed(ps, readWord, t, p);
    }
    forall m | 0 <= m < |u| && u[m].status == Referred
      ensures RangeClosed(ps, readWord, u, m)
    {
      if m == k {
        forall p | ps.table[k].addr <= p < Limit(ps.table[k])
          ensures Closed(ps, readWord, u, p)
        {
          var r := Target(ps, readWord, p);
          if r.Some? && 1 <= r.value <= |u| {
            assert RefersFrom(ps, readWord, k + 1, r.value);
          }
        }
      } else {
        assert RangeClosed(ps, readWord, t, m);
        forall p | ps.table[m].addr <= p < Limit(ps.table[m])
          ensures Closed(ps, readWord, u, p)
        {
          assert Closed(ps, readWord, t, p);
        }
      }
    }
  }

  lemma ChainPrefix(ps: Pass, readWord: nat -> nat, path: seq<nat>)
    requires IsChain(ps, readWord, path) && |path| > 1
    ensures IsChain(ps, readWord, path[..|path| - 1])
  {
    var prefix := path[..|path| - 1];
    forall i | 0 <= i < |prefix| - 1
      ensures RefersFrom(ps, readWord, prefix[i], prefix[i + 1])
    {
      assert prefix[i] == path[i] && prefix[i + 1] == path[i + 1];
    }
  }

  /** At the fixed point, every slot on a chain is `Referred`. */
  lemma {:induction false} ChainRetained(ps: Pass, readWord: nat -> nat, t: seq<Record>, path: seq<nat>)
    requires MarkClosed(ps, readWord, t) && NoTouched(t)
    requires IsChain(ps, readWord, path)
    ensures t[path[|path| - 1] - 1].status == Referred
    decreases |path|
  {
    if |path| == 1 {
      RetainedRoot(ps, readWord, t, path[0]);
    } else {
      ChainPrefix(ps, readWord, path);
      ChainRetained(ps, readWord, t, path[..|path| - 1]);
      RetainedStep(ps, readWord, t, path[|path| - 2], path[|path| - 1]);
    }
  }

  /** At the fixed point, a slot in use named from the roots is `Referred`. */
  lemma RetainedRoot(ps: Pass, readWord: nat -> nat, t: seq<Record>, j: nat)
    requires MarkClosed(ps, readWord, t) && NoTouched(t)
    requires Live(ps, j) && Refers(ps, readWord, ps.rootBegin, ps.rootEnd, j)
    ensures t[j - 1].status == Referred
  {
    var p :| ps.rootBegin <= p < ps.rootEnd && Target(ps, readWord, p) == Some(j);
    assert Closed(ps, readWord, t, p);
  }

  /** At the fixed point, a slot in use named from the block of a `Referred`
      slot is `Referred`. */
  lemma RetainedStep(ps: Pass, readWord: nat -> nat, t: seq<Record>, k: nat, j: nat)
    requires MarkClosed(ps, readWord, t) && NoTouched(t)
    requires 1 <= k <= |t| && t[k - 1].status == Referred
    requires Live(ps, j) && RefersFrom(ps, readWord, k, j)
    ensures t[j - 1].status == Referred
  {
    var p :| ps.table[k - 1].addr <= p < Limit(ps.table[k - 1]) && Target(ps, readWord, p) == Some(j);
    assert RangeClosed(ps, readWord, t, k - 1);
    assert Closed(ps, readWord, t, p);
  }

  /** Sweeping slot `k` at the fixed point of the mark phase yields the
      record `Collected` holds for it. */
  lemma SweepSlot(ps: Pass, readWord: nat -> nat, t: seq<Record>, k: nat)
    requires MarkInv(ps, readWord, t) && NoTouched(t)
    requires k < |t|
    ensures Sweep(t[k]) == Collected(ps, readWord)[k]
  {
    var c := Collected(ps, readWord);
    assert t[k].addr == ps.table[k].addr && t[k].size == ps.table[k].size;
    if Live(ps, k + 1) && Reachable(ps, readWord, k + 1) {
      var path :| IsChain(ps, readWord, path) && path[|path| - 1] == k + 1;
      ChainRetained(ps, readWord, t, path);
      assert c[k].status == Referred;
    } else if Live(ps, k + 1) {
      assert t[k].status == Unknown;
      assert c[k].status == Deallocated;
    } else {
      assert t[k].status == Deallocated;
      assert c[k].status == Deallocated;
    }
  }

  /** Sweeping the fixed point of the mark phase yields exactly `Collected`. */
  lemma SweepYieldsCollected(ps: Pass, readWord: nat -> nat, t: seq<Record>)
    requires MarkInv(ps, readWord, t) && NoTouched(t)
    ensures forall k :: 0 <= k < |t| ==> Sweep(t[k]) == Collected(ps, readWord)[k]
  {
    forall k | 0 <= k < |t|
      ensures Sweep(t[k]) == Collected(ps, readWord)[k]
    {
      SweepSlot(ps, readWord, t, k);
    }
  }

  // ---- A second pass frees nothing more ----

  /** Every non-empty prefix of a chain is a chain. */
  lemma ChainPrefixAt(ps: Pass, readWord: nat -> nat, path: seq<nat>, n: nat)
    requires IsChain(ps, readWord, path) && 0 < n <= |path|
    ensures IsChain(ps, readWord, path[..n])
  {
    var prefix := path[..n];
    forall i | 0 <= i < |prefix| - 1
      ensures RefersFrom(ps, readWord, prefix[i], prefix[i + 1])
    {
      assert prefix[i] == path[i] && prefix[i + 1] == path[i + 1];
    }
    assert prefix[0] == path[0];
  }

  /** The pass that runs on the table a first pass left, over the same roots. */
  ghost function Again(ps: Pass, readWord: nat -> nat): Pass {
    Pass(ps.search, Collected(ps, readWord), ps.rootBegin, ps.rootEnd)
  }

  /** A word names the same slot in the second pass as in the first. */
  lemma TargetAgain(ps: Pass, readWord: nat -> nat, p: nat)
    ensures Target(Again(ps, readWord), readWord, p) == Target(ps, readWord, p)
  {
    match ps.search
    case AsWritten(heapBegin, heapEnd) =>
      ResolveSameLayout(heapBegin, heapEnd, Again(ps, readWord).table, ps.table, readWord(p));
    case Intended =>
      LocateSameLayout(Again(ps, readWord).table, ps.table, readWord(p));
  }

  lemma RefersFromAgain(ps: Pass, readWord: nat -> nat, k: nat, j: nat)
    requires RefersFrom(ps, readWord, k, j)
    ensures RefersFrom(Again(ps, readWord), readWord, k, j)
  {
    var p :| ps.table[k - 1].addr <= p < Limit(ps.table[k - 1]) && Target(ps, readWord, p) == Some(j);
    TargetAgain(ps, readWord, p);
    var t2 := Again(ps, readWord).table;
    assert t2[k - 1].addr == ps.table[k - 1].addr && t2[k - 1].size == ps.table[k - 1].size;
  }

  lemma RootedAgain(ps: Pass, readWord: nat -> nat, j: nat)
    requires Refers(ps, readWord, ps.rootBegin, ps.rootEnd, j)
    ensures Refers(Again(ps, readWord), readWord, ps.rootBegin, ps.rootEnd, j)
  {
    var p :| ps.rootBegin <= p < ps.rootEnd && Target(ps, readWord, p) == Some(j);
    TargetAgain(ps, readWord, p);
  }

  /** A slot on a chain of the first pass is still in use in the second. */
  lemma LiveAgain(ps: Pass, readWord: nat -> nat, path: seq<nat>, i: nat)
    requires IsChain(ps, readWord, path) && i < |path|
    ensures Live(Again(ps, readWord), path[i])
  {
    ChainPrefixAt(ps, readWord, path, i + 1);
    assert path[..i + 1][i] == path[i];
    assert Reachable(ps, readWord, path[i]);
    assert Collected(ps, readWord)[path[i] - 1].status == Referred;
  }

  /** A chain of the first pass is a chain of the second one: all its slots
      stayed in use, and every word names the same slot as before. */
  lemma ChainSurvives(ps: Pass, readWord: nat -> nat, path: seq<nat>)
    requires IsChain(ps, readWord, path)
    ensures IsChain(Again(ps, readWord), readWord, path)
  {
    forall i | 0 <= i < |path|
      ensures Live(Again(ps, readWord), path[i])
    {
      LiveAgain(ps, readWord, path, i);
    }
    forall i | 0 <= i < |path| - 1
      ensures RefersFrom(Again(ps, readWord), readWord, path[i], path[i + 1])
    {
      RefersFromAgain(ps, readWord, path[i], path[i + 1]);
    }
    RootedAgain(ps, readWord, path[0]);
  }

  /** Collection is idempotent: a second pass over the same memory, right
      after a first, keeps every record it finds in use. */
  lemma CollectedIdempotent(ps: Pass, readWord: nat -> nat)
    ensures Collected(Again(ps, readWord), readWord) == Collected(ps, readWord)
  {
    var c := Collected(ps, readWord);
    var c2 := Collected(Again(ps, readWord), readWord);
    forall k | 0 <= k < |c|
      ensures c2[k] == c[k]
    {
      if c[k].status == Referred {
        var path :| IsChain(ps, readWord, path) && path[|path| - 1] == k + 1;
        ChainSurvives(ps, readWord, path);
      }
    }
  }
}
