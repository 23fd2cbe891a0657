/**
 Address resolution: which record a raw address belongs to.

 This is the search `find_record` performs. After checking that the address
 lies between the ends of the arena (both ends included), it bisects over the
 slot interval `[start, end)`, starting from `[0, record_count)`. It probes
 slot `mid` each round and returns it when the block there holds the address.
 When no probe hits, it returns slot `start` and does not check it.
 */
module Resolver {
  import opened Wrappers
  import opened Records

  /** How the bisection ended: a probed slot that holds the address, or the
      slot left at the bottom of the interval when the interval ran out. */
  datatype Probe = Hit(slot: nat) | Fallback(slot: nat)

  /** The bisection loop of `find_record` on the interval `[start, end)`. */
  function Bisect(t: seq<Record>, addr: nat, start: nat, end: nat): (r: Probe)
    requires start <= end <= |t|
    ensures r.Hit? ==> start < r.slot < end && Contains(t[r.slot - 1], addr)
    ensures r.Fallback? ==> start <= r.slot && (r.slot < end || r.slot == start)
    decreases end - start
  {
    if end - start > 1 then
      var mid := (start + end) / 2;
      var record := t[mid - 1];
      if addr >= record.addr then
        if record.addr + record.size > addr then Hit(mid) else Bisect(t, addr, mid, end)
      else
        Bisect(t, addr, start, mid)
    else
      Fallback(start)
  }

  /** The slot `find_record` names for `addr`, if any. Slot 0 stands for the
      word at `heapEnd` itself, which is not a slot of the table. */
  function Resolve(heapBegin: nat, heapEnd: nat, t: seq<Record>, addr: nat): (r: Option<nat>)
    ensures r.None? <==> !(heapBegin <= addr <= heapEnd)
    ensures r.Some? ==> r.value == 0 || r.value < |t|
  {
    if !(heapBegin <= addr && addr <= heapEnd) then None
    else Some(Bisect(t, addr, 0, |t|).slot)
  }

  /** The search reads only addresses and sizes, never statuses. */
  lemma {:induction false} BisectSameLayout(t: seq<Record>, u: seq<Record>, addr: nat, start: nat, end: nat)
    requires SameLayout(t, u)
    requires start <= end <= |t|
    ensures Bisect(t, addr, start, end) == Bisect(u, addr, start, end)
    decreases end - start
  {
    if end - start > 1 {
      var mid := (start + end) / 2;
      BisectSameLayout(t, u, addr, mid, end);
      BisectSameLayout(t, u, addr, start, mid);
    }
  }

  lemma ResolveSameLayout(heapBegin: nat, heapEnd: nat, t: seq<Record>, u: seq<Record>, addr: nat)
    requires SameLayout(t, u)
    ensures Resolve(heapBegin, heapEnd, t, addr) == Resolve(heapBegin, heapEnd, u, addr)
  {
    BisectSameLayout(t, u, addr, 0, |t|);
  }

  /** On a tiled table, an address inside slot `j` is found when `j` lies
      strictly inside the interval being searched. */
  lemma {:induction false} BisectFinds(begin: nat, t: seq<Record>, free: nat, addr: nat, start: nat, end: nat, j: nat)
    requires Tiled(begin, t, free)
    requires start < j < end <= |t|
    requires Contains(t[j - 1], addr)
    ensures Bisect(t, addr, start, end) == Hit(j)
    decreases end - start
  {
    var mid := (start + end) / 2;
    assert start < mid < end;
    var record := t[mid - 1];
    if mid < j {
      TiledOrder(begin, t, free, mid - 1, j - 1);
      assert addr >= record.addr && !(record.addr + record.size > addr);
      BisectFinds(begin, t, free, addr, mid, end, j);
    } else if j < mid {
      TiledOrder(begin, t, free, j - 1, mid - 1);
      assert addr < record.addr;
      BisectFinds(begin, t, free, addr, start, mid, j);
    } else {
      assert addr >= record.addr && record.addr + record.size > addr;
    }
  }

  /** On a tiled table inside the arena, every address inside a slot other
      than the last one resolves to that slot. */
  lemma ResolveFindsSlot(heapBegin: nat, heapEnd: nat, t: seq<Record>, heapFree: nat, addr: nat, j: nat)
    requires Tiled(heapBegin, t, heapFree) && heapFree <= heapEnd
    requires 1 <= j < |t|
    requires Contains(t[j - 1], addr)
    ensures Resolve(heapBegin, heapEnd, t, addr) == Some(j)
  {
    TiledBounds(heapBegin, t, heapFree, j - 1);
    BisectFinds(heapBegin, t, heapFree, addr, 0, |t|, j);
  }

  // ---- The search `find_record` evidently intends ----

  /** The lowest slot above slot `i` whose block holds `addr`. */
  function LocateFrom(t: seq<Record>, addr: nat, i: nat): (r: Option<nat>)
    requires i <= |t|
    ensures r.Some? ==> i < r.value <= |t| && Contains(t[r.value - 1], addr)
    decreases |t| - i
  {
    if i == |t| then None
    else if Contains(t[i], addr) then Some(i + 1)
    else LocateFrom(t, addr, i + 1)
  }

  /** The slot whose block holds `addr`, or none when no block does. */
  function Locate(t: seq<Record>, addr: nat): Option<nat> {
    LocateFrom(t, addr, 0)
  }

  /** The search above slot `i` fails only when no block above slot `i`
      holds the address. */
  lemma {:induction false} LocateFromNone(t: seq<Record>, addr: nat, i: nat)
    requires i <= |t|
    ensures LocateFrom(t, addr, i).None? <==> forall k :: i <= k < |t| ==> !Contains(t[k], addr)
    decreases |t| - i
  {
    if i < |t| {
      LocateFromNone(t, addr, i + 1);
    }
  }

  /** `Locate` fails exactly when no block holds the address. */
  lemma LocateNone(t: seq<Record>, addr: nat)
    ensures Locate(t, addr).None? <==> forall k :: 0 <= k < |t| ==> !Contains(t[k], addr)
  {
    LocateFromNone(t, addr, 0);
  }

  lemma {:induction false} LocateFromSameLayout(t: seq<Record>, u: seq<Record>, addr: nat, i: nat)
    requires SameLayout(t, u) && i <= |t|
    ensures LocateFrom(t, addr, i) == LocateFrom(u, addr, i)
    decreases |t| - i
  {
    if i < |t| {
      assert Contains(t[i], addr) == Contains(u[i], addr);
      LocateFromSameLayout(t, u, addr, i + 1);
    }
  }

  /** Like the as-written search, the intended one reads only the layout. */
  lemma LocateSameLayout(t: seq<Record>, u: seq<Record>, addr: nat)
    requires SameLayout(t, u)
    ensures Locate(t, addr) == Locate(u, addr)
  {
    LocateFromSameLayout(t, u, addr, 0);
  }

  /** On a tiled table the block holding an address is unique, so `Locate`
      names it whatever the order of the search. */
  lemma LocateUnique(begin: nat, t: seq<Record>, free: nat, addr: nat, j: nat)
    requires Tiled(begin, t, free)
    requires 1 <= j <= |t| && Contains(t[j - 1], addr)
    ensures Locate(t, addr) == Some(j)
  {
    var r := Locate(t, addr);
    LocateNone(t, addr);
    if r != Some(j) {
      TiledDisjoint(begin, t, free, j - 1, r.value - 1, addr);
    }
  }

  /** The as-written search agrees with the intended one on every address
      inside a block other than the last one. */
  lemma ResolveAgreesBelowLast(heapBegin: nat, heapEnd: nat, t: seq<Record>, heapFree: nat, addr: nat, j: nat)
    requires Tiled(heapBegin, t, heapFree) && heapFree <= heapEnd
    requires 1 <= j < |t| && Contains(t[j - 1], addr)
    ensures Resolve(heapBegin, heapEnd, t, addr) == Locate(t, addr) == Some(j)
  {
    ResolveFindsSlot(heapBegin, heapEnd, t, heapFree, addr, j);
    LocateUnique(heapBegin, t, heapFree, addr, j);
  }
}
