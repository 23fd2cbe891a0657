/**
 Two discrepancies in the bisection of `find_record` (src/lib.rs:195-214),
 each shown on a concrete arena. `Resolve` is the search as written;
 `Locate` is the search it evidently intends. The collector as written
 (`Search.AsWritten`) and the corrected collector (`Search.Intended`) are
 compared on the same arenas.
 */
module Findings {
  import opened Wrappers
  import opened Records
  import opened Resolver
  import opened Collector

  /** The bisection starts from `[0, record_count)` and probes only slots
      strictly inside the interval, so it never reaches the last slot: an
      address inside the newest block resolves to some other slot. */
  lemma ResolveMissesLast(heapBegin: nat, heapEnd: nat, t: seq<Record>, heapFree: nat, addr: nat)
    requires Tiled(heapBegin, t, heapFree)
    requires |t| > 0 && Contains(t[|t| - 1], addr)
    ensures Locate(t, addr) == Some(|t|)
    ensures Resolve(heapBegin, heapEnd, t, addr) != Locate(t, addr)
  {
    LocateUnique(heapBegin, t, heapFree, addr, |t|);
  }

  /** One 8-byte block at 4096 in a 64-byte arena: the address of the block
      itself resolves to slot 0, which is not a record of the table. */
  lemma FindRecordMissesLastSlot()
    ensures Tiled(4096, [Record(4096, 8, Referred)], 4104)
    ensures Resolve(4096, 4160, [Record(4096, 8, Referred)], 4096) == Some(0)
    ensures Locate([Record(4096, 8, Referred)], 4096) == Some(1)
  {
    ResolveMissesLast(4096, 4160, [Record(4096, 8, Referred)], 4104, 4096);
  }

  /** As written, a root word holding the block's address keeps nothing:
      the collection frees the one block while it is still in use. */
  lemma SingleBlockFreed()
    ensures Collected(Pass(AsWritten(4096, 4160), [Record(4096, 8, Referred)], 0, 1), p => 4096)[0].status == Deallocated
  {
    NewestSlotFreed(4096, 4160, [Record(4096, 8, Referred)], 0, 1, p => 4096);
  }

  /** With the intended search, the same root word keeps the block. */
  lemma SingleBlockKept()
    ensures Collected(Pass(Intended, [Record(4096, 8, Referred)], 0, 1), p => 4096)[0].status == Referred
  {
    var ps := Pass(Intended, [Record(4096, 8, Referred)], 0, 1);
    FindRecordMissesLastSlot();
    CollectedKeepsRooted(ps, p => 4096, 0, 1);
  }

  /** Three 8-byte blocks from 4096: an address in the free space above them
      makes no probe hit, and the bisection returns slot 2 unchecked,
      although its block does not hold the address. */
  lemma FindRecordFallbackUnchecked()
    ensures Tiled(4096, [Record(4096, 8, Referred), Record(4104, 8, Referred), Record(4112, 8, Referred)], 4120)
    ensures Resolve(4096, 4296, [Record(4096, 8, Referred), Record(4104, 8, Referred), Record(4112, 8, Referred)], 4150) == Some(2)
    ensures !Contains(Record(4104, 8, Referred), 4150)
    ensures Locate([Record(4096, 8, Referred), Record(4104, 8, Referred), Record(4112, 8, Referred)], 4150) == None
  {
    var t := [Record(4096, 8, Referred), Record(4104, 8, Referred), Record(4112, 8, Referred)];
    assert Abuts(t, 1) && Abuts(t, 2);
    assert Bisect(t, 4150, 2, 3) == Fallback(2);
    assert Bisect(t, 4150, 1, 3) == Bisect(t, 4150, 2, 3);
    assert Bisect(t, 4150, 0, 3) == Bisect(t, 4150, 1, 3);
  }

  /** As written, a root word holding that free-space address keeps the
      block of slot 2 through the unchecked fallback. */
  lemma FallbackKeepsBlock()
    ensures Collected(Pass(AsWritten(4096, 4296), [Record(4096, 8, Referred), Record(4104, 8, Referred), Record(4112, 8, Referred)], 0, 1), p => 4150)[1].status == Referred
  {
    var ps := Pass(AsWritten(4096, 4296), [Record(4096, 8, Referred), Record(4104, 8, Referred), Record(4112, 8, Referred)], 0, 1);
    FindRecordFallbackUnchecked();
    CollectedKeepsRooted(ps, p => 4150, 0, 2);
  }

  /** With the intended search, no block holds the address and the same root
      word keeps nothing: slot 2 is freed. */
  lemma FallbackFreedWhenIntended()
    ensures Collected(Pass(Intended, [Record(4096, 8, Referred), Record(4104, 8, Referred), Record(4112, 8, Referred)], 0, 1), p => 4150)[1].status == Deallocated
  {
    var ps := Pass(Intended, [Record(4096, 8, Referred), Record(4104, 8, Referred), Record(4112, 8, Referred)], 0, 1);
    FindRecordFallbackUnchecked();
    assert Target(ps, p => 4150, 0) == None;
    UnrootedFreed(ps, p => 4150);
  }

  /** When no root word names a slot, nothing is reachable. */
  lemma UnrootedFreed(ps: Pass, readWord: nat -> nat)
    requires forall p :: ps.rootBegin <= p < ps.rootEnd ==> Target(ps, readWord, p) == None
    ensures forall j :: !Reachable(ps, readWord, j)
  {
  }
}
