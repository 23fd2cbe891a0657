/**
 The collector object `Gc` of `src/lib.rs`, with its fields updated in place.

 Addresses are natural numbers. The record table, which in the arena sits at
 the top and grows downward, is the field `table`; slot `i` is `table[i - 1]`.
 The contents of stack and heap memory are the function `readWord`: its value
 at `p` is the machine word read at byte address `p`.
 */
module Scgc {
  import opened Wrappers
  import opened Records
  import opened Resolver
  import opened Collector
  import opened Allocator

  class Gc {
    const heapBegin: nat
    const heapEnd: nat
    var heapFree: nat
    var recordCount: nat
    var table: seq<Record>
    var stackBegin: Option<nat>
    var stackEnd: Option<nat>

    ghost function State(): GcState
      reads this
    {
      GcState(heapBegin, heapFree, heapEnd, stackBegin, stackEnd, table)
    }

    ghost predicate Valid()
      reads this
    {
      recordCount == |table| && ValidState(State())
    }

    /** `Gc::new`: an empty collector over the arena `[base, base + size)`. */
    constructor (base: nat, size: nat)
      ensures Valid() && Settled(State())
      ensures State() == Initial(base, size)
    {
      heapBegin := base;
      heapFree := base;
      heapEnd := base + size;
      stackBegin := None;
      stackEnd := None;
      recordCount := 0;
      table := [];
    }

    method SetStackBegin(addr: nat)
      requires Valid()
      modifies this`stackBegin
      ensures Valid() && stackBegin == Some(addr)
    {
      stackBegin := Some(addr);
    }

    method SetStackEnd(addr: nat)
      requires Valid()
      modifies this`stackEnd
      ensures Valid() && stackEnd == Some(addr)
    {
      stackEnd := Some(addr);
    }

    /** `find_record` as written: the slot the bisection names for `addr`
        (module Findings shows where it differs from `Locate`). */
    method FindRecord(addr: nat) returns (r: Option<nat>)
      requires recordCount == |table|
      ensures r == Resolve(heapBegin, heapEnd, table, addr)
    {
      if !(heapBegin <= addr && addr <= heapEnd) {
        return None;
      }
      var start: nat := 0;
      var end: nat := recordCount;
      while end - start > 1
        invariant start <= end <= |table|
        invariant Bisect(table, addr, start, end) == Bisect(table, addr, 0, |table|)
        decreases end - start
      {
        var mid := (start + end) / 2;
        var record := table[mid - 1];
        if addr >= record.addr {
          if record.addr + record.size > addr {
            return Some(mid);
          } else {
            start := mid;
          }
        } else {
          end := mid;
        }
      }
      return Some(start);
    }

    /** `free_record`: slot `slot` becomes `Deallocated`. */
    method FreeRecord(slot: nat)
      requires Valid() && 1 <= slot <= |table|
      modifies this`table
      ensures Valid()
      ensures table == old(table)[slot - 1 := old(table)[slot - 1].(status := Deallocated)]
    {
      table := table[slot - 1 := table[slot - 1].(status := Deallocated)];
      TiledSameLayout(heapBegin, old(table), table, heapFree);
    }

    /** `scan_touch`: every `Unknown` slot that `find_record` names for a
        word read at a byte address in `[begin, end)` becomes `Touched`;
        nothing else changes. Slot 0, which `find_record` can name, is the
        memory at `heapEnd`, not a record of the table, and is passed over. */
    method ScanTouch(begin: nat, end: nat, readWord: nat -> nat, ghost ps: Pass)
      requires Valid()
      requires ps.search == AsWritten(heapBegin, heapEnd) && SameLayout(ps.table, table)
      modifies this`table
      ensures Valid() && SameLayout(ps.table, table) && |table| == |old(table)|
      ensures forall k :: 0 <= k < |table| ==> table[k] == Touch(old(table)[k], Refers(ps, readWord, begin, end, k + 1))
    {
      ghost var t0 := table;
      var ptr := begin;
      while ptr < end
        invariant begin <= ptr && (ptr <= end || ptr == begin)
        invariant Valid() && SameLayout(ps.table, table) && |table| == |t0|
        invariant forall k :: 0 <= k < |table| ==> table[k] == Touch(t0[k], Refers(ps, readWord, begin, ptr, k + 1))
        decreases end - ptr
      {
        ghost var before := table;
        ScanWord(ptr, readWord, ps);
        ScanStep(ps, readWord, t0, before, begin, ptr);
        ptr := ptr + 1;
      }
    }

    /** One step of `scan_touch`: the word read at `ptr` names a slot through
        `find_record`, which becomes `Touched` if it was `Unknown`. */
    method ScanWord(ptr: nat, readWord: nat -> nat, ghost ps: Pass)
      requires Valid()
      requires ps.search == AsWritten(heapBegin, heapEnd) && SameLayout(ps.table, table)
      modifies this`table
      ensures Valid() && SameLayout(ps.table, table)
      ensures table == TouchSlot(old(table), Target(ps, readWord, ptr))
    {
      var found := FindRecord(readWord(ptr));
      ResolveSameLayout(heapBegin, heapEnd, table, ps.table, readWord(ptr));
      if found.Some? && found.value >= 1 && table[found.value - 1].status == Unknown {
        table := table[found.value - 1 := table[found.value - 1].(status := Touched)];
        TiledSameLayout(heapBegin, old(table), table, heapFree);
      }
    }

    /** The reset loop of `inner_cleanup`: every slot in use becomes `Unknown`. */
    method ResetStatuses()
      requires Valid()
      modifies this`table
      ensures Valid() && |table| == |old(table)|
      ensures forall k :: 0 <= k < |table| ==> table[k] == Reset(old(table)[k])
    {
      for index := 1 to recordCount + 1
        invariant Valid() && |table| == |old(table)|
        invariant forall k :: 0 <= k < |table| ==> table[k] == if k < index - 1 then Reset(old(table)[k]) else old(table)[k]
      {
        if table[index - 1].status != Deallocated {
          ghost var before := table;
          table := table[index - 1 := table[index - 1].(status := Unknown)];
          TiledSameLayout(heapBegin, before, table, heapFree);
        }
      }
    }

    /** Slot `slot` becomes `Referred`. */
    method MarkReferred(slot: nat)
      requires Valid() && 1 <= slot <= |table|
      modifies this`table
      ensures Valid()
      ensures table == old(table)[slot - 1 := old(table)[slot - 1].(status := Referred)]
    {
      table := table[slot - 1 := table[slot - 1].(status := Referred)];
      TiledSameLayout(heapBegin, old(table), table, heapFree);
    }

    /** The body of the fixed-point loop of `inner_cleanup` for a slot found
        `Touched`: the slot becomes `Referred` and its block is scanned. */
    method PromoteSlot(slot: nat, readWord: nat -> nat, ghost ps: Pass)
      requires Valid() && ps.search == AsWritten(heapBegin, heapEnd)
      requires MarkInv(ps, readWord, table)
      requires 1 <= slot <= |table| && table[slot - 1].status == Touched
      modifies this`table
      ensures Valid() && MarkInv(ps, readWord, table)
      ensures Measure(table) < Measure(old(table))
      ensures forall m :: 0 <= m < |table| ==>
        table[m] == Touch(old(table)[slot - 1 := old(table)[slot - 1].(status := Referred)][m],
                          Refers(ps, readWord, old(table)[slot - 1].addr, Limit(old(table)[slot - 1]), m + 1))
    {
      ghost var before := table;
      var record := table[slot - 1];
      MarkReferred(slot);
      ScanTouch(record.addr, record.addr + record.size, readWord, ps);
      assert Promoted(ps, readWord, before, slot - 1, table);
      PromoteKeepsMarkInv(ps, readWord, before, slot - 1, table);
      PromoteLowersMeasure(ps, readWord, before, slot - 1, table);
    }

    /** One round of the fixed-point loop of `inner_cleanup`: in slot order,
        every slot found `Touched` becomes `Referred` and its block is
        scanned. Reports whether any slot was found `Touched`. */
    method PromoteTouched(readWord: nat -> nat, ghost ps: Pass) returns (hasTouched: bool)
      requires Valid() && ps.search == AsWritten(heapBegin, heapEnd)
      requires MarkInv(ps, readWord, table)
      modifies this`table
      ensures Valid() && MarkInv(ps, readWord, table)
      ensures hasTouched ==> Measure(table) < Measure(old(table))
      ensures !hasTouched ==> table == old(table) && NoTouched(table)
    {
      hasTouched := false;
      for i := 1 to recordCount + 1
        invariant Valid() && MarkInv(ps, readWord, table)
        invariant hasTouched ==> Measure(table) < Measure(old(table))
        invariant !hasTouched ==> table == old(table)
        invariant !hasTouched ==> forall k :: 0 <= k < i - 1 ==> table[k].status != Touched
      {
        if table[i - 1].status == Touched {
          PromoteSlot(i, readWord, ps);
          hasTouched := true;
        }
      }
    }

    /** The sweep loop of `inner_cleanup`: every slot still `Unknown` is freed. */
    method SweepUnknown()
      requires Valid()
      modifies this`table
      ensures Valid() && |table| == |old(table)|
      ensures forall k :: 0 <= k < |table| ==> table[k] == Sweep(old(table)[k])
    {
      for index := 1 to recordCount + 1
        invariant Valid() && |table| == |old(table)|
        invariant forall k :: 0 <= k < |table| ==> table[k] == if k < index - 1 then Sweep(old(table)[k]) else old(table)[k]
      {
        if table[index - 1].status == Unknown {
          FreeRecord(index);
        }
      }
    }

    /** `cleanup` (`inner_cleanup`): a full mark-sweep pass. The table it
        leaves is `Collected`: a slot in use stays `Referred` exactly when a
        chain of words from the root range, each resolved by `find_record` as
        written, reaches it. */
    method Cleanup(readWord: nat -> nat)
      requires Valid() && stackBegin.Some? && stackEnd.Some?
      modifies this`table
      ensures Valid()
      ensures State() == CollectState(old(State()), readWord)
    {
      ghost var ps := PassOf(State());
      ResetStatuses();
      ScanTouch(stackBegin.value, stackEnd.value, readWord, ps);
      RootScanStartsMark(ps, readWord, table);

      var hasTouchedRecord := true;
      while hasTouchedRecord
        invariant Valid() && MarkInv(ps, readWord, table)
        invariant !hasTouchedRecord ==> NoTouched(table)
        decreases Measure(table) + (if hasTouchedRecord then 1 else 0)
      {
        hasTouchedRecord := PromoteTouched(readWord, ps);
      }

      SweepYieldsCollected(ps, readWord, table);
      SweepUnknown();
      assert table == Collected(ps, readWord);
    }

    /** `malloc_from_deallocated`: first-fit reuse of a freed slot. */
    method MallocFromDeallocated(size: nat) returns (result: Option<nat>)
      requires Valid()
      modifies this`table
      ensures Valid()
      ensures (result, State()) == ReuseStep(old(State()), size)
    {
      for i := 1 to recordCount + 1
        invariant table == old(table)
        invariant forall k :: 0 <= k < i - 1 ==> !Fits(table[k], size)
      {
        if table[i - 1].status == Deallocated && table[i - 1].size >= size {
          var record := table[i - 1];
          table := table[i - 1 := record.(status := Referred)];
          TiledSameLayout(heapBegin, old(table), table, heapFree);
          return Some(record.addr);
        }
      }
      return None;
    }

    /** `malloc`: bump allocation, else reuse, else one cleanup and one more
        attempt at reuse. */
    method Malloc(size: nat, readWord: nat -> nat) returns (result: Option<nat>)
      requires Valid()
      requires NeedsCollection(State(), size) ==> RootsSet(State())
      modifies this`heapFree, this`recordCount, this`table
      ensures Valid()
      ensures (result, State()) == MallocSpec(old(State()), size, readWord)
    {
      if size + RECORD_SIZE <= heapEnd - heapFree - RECORD_SIZE * recordCount {
        result := Some(heapFree);
        heapFree := heapFree + size;
        recordCount := recordCount + 1;
        table := table + [Record(result.value, size, Referred)];
        TiledAppend(heapBegin, old(table), old(heapFree), size, Referred);
        return;
      }

      result := MallocFromDeallocated(size);
      if result.Some? {
        return;
      }

      Cleanup(readWord);
      result := MallocFromDeallocated(size);
    }

    /** The bisection `find_record` evidently intends: over the real slots
        `1..record_count`, and with no answer when no block holds the address.
        The corrected collector (`Search.Intended`) resolves words with it. */
    method FindRecordExact(addr: nat) returns (r: Option<nat>)
      requires Valid()
      ensures r == Locate(table, addr)
    {
      if !(heapBegin <= addr && addr <= heapEnd) {
        forall k | 0 <= k < |table|
          ensures !Contains(table[k], addr)
        {
          TiledBounds(heapBegin, table, heapFree, k);
        }
        return None;
      }
      var lo, hi := 1, recordCount + 1;
      while lo < hi
        invariant 1 <= lo <= hi <= |table| + 1
        invariant forall k :: 0 <= k < lo - 1 ==> !Contains(table[k], addr)
        invariant forall k :: hi - 1 <= k < |table| ==> !Contains(table[k], addr)
      {
        var mid := (lo + hi) / 2;
        var record := table[mid - 1];
        if addr < record.addr {
          forall k | mid - 1 <= k < |table|
            ensures !Contains(table[k], addr)
          {
            TiledMonotone(heapBegin, table, heapFree, mid - 1, k);
          }
          hi := mid;
        } else if addr < record.addr + record.size {
          LocateUnique(heapBegin, table, heapFree, addr, mid);
          return Some(mid);
        } else {
          forall k | 0 <= k <= mid - 1
            ensures !Contains(table[k], addr)
          {
            TiledMonotone(heapBegin, table, heapFree, k, mid - 1);
          }
          lo := mid + 1;
        }
      }
      return None;
    }
  }
}
