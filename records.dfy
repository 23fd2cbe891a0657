/**
 The allocation records of the collector and the shape of the record table.

 The table holds one record per allocation; slot `i` (counting from 1) lives
 `i * RECORD_SIZE` bytes below the end of the arena. Here the table is the
 sequence `t`, and slot `i` is `t[i - 1]`.
 */
module Records {

  /** Size in bytes of one record in the table: a pointer, a `usize` and a
      C-sized enum, padded to 24 bytes on a 64-bit target. */
  const RECORD_SIZE: nat := 24

  datatype RecordStatus = Unknown | Touched | Referred | Deallocated

  datatype Record = Record(addr: nat, size: nat, status: RecordStatus)

  /** One past the last byte of the block the record describes. */
  function Limit(r: Record): nat {
    r.addr + r.size
  }

  /** The block of `r` holds the byte at `a`. */
  predicate Contains(r: Record, a: nat) {
    r.addr <= a < Limit(r)
  }

  /** The block of slot `i + 1` starts where the block of slot `i` ends. */
  ghost predicate Abuts(t: seq<Record>, i: nat)
    requires 0 < i < |t|
  {
    t[i].addr == Limit(t[i - 1])
  }

  /** The records tile `[begin, free)`: slot 1 starts at `begin`, every
      slot starts where the previous one ends, and the last one ends at `free`. */
  ghost predicate Tiled(begin: nat, t: seq<Record>, free: nat) {
    && (|t| == 0 ==> free == begin)
    && (|t| > 0 ==> t[0].addr == begin && Limit(t[|t| - 1]) == free)
    && (forall i :: 0 < i < |t| ==> Abuts(t, i))
  }

  /** Two tables that differ at most in their statuses. */
  ghost predicate SameLayout(t: seq<Record>, u: seq<Record>) {
    && |t| == |u|
    && forall i :: 0 <= i < |t| ==> t[i].addr == u[i].addr && t[i].size == u[i].size
  }

  lemma TiledSameLayout(begin: nat, t: seq<Record>, u: seq<Record>, free: nat)
    requires Tiled(begin, t, free) && SameLayout(t, u)
    ensures Tiled(begin, u, free)
  {
    forall i | 0 < i < |u|
      ensures Abuts(u, i)
    {
      assert Abuts(t, i);
    }
  }

  /** In a tiled table a lower slot ends no later than a higher slot begins:
      the table is sorted by address, and no two blocks overlap. */
  lemma {:induction false} TiledOrder(begin: nat, t: seq<Record>, free: nat, i: nat, k: nat)
    requires Tiled(begin, t, free)
    requires i < k < |t|
    ensures Limit(t[i]) <= t[k].addr
    decreases k - i
  {
    assert Abuts(t, k);
    if i + 1 < k {
      TiledOrder(begin, t, free, i, k - 1);
    }
  }

  /** Every block of a tiled table lies inside `[begin, free)`. */
  lemma TiledBounds(begin: nat, t: seq<Record>, free: nat, i: nat)
    requires Tiled(begin, t, free)
    requires i < |t|
    ensures begin <= t[i].addr && Limit(t[i]) <= free
  {
    if 0 < i {
      TiledOrder(begin, t, free, 0, i);
    }
    if i < |t| - 1 {
      TiledOrder(begin, t, free, i, |t| - 1);
    }
  }

  /** Slot addresses and block ends both grow with the slot index. */
  lemma TiledMonotone(begin: nat, t: seq<Record>, free: nat, i: nat, k: nat)
    requires Tiled(begin, t, free)
    requires i <= k < |t|
    ensures t[i].addr <= t[k].addr && Limit(t[i]) <= Limit(t[k])
  {
    if i < k {
      TiledOrder(begin, t, free, i, k);
    }
  }

  /** Two different slots of a tiled table never hold the same byte. */
  lemma TiledDisjoint(begin: nat, t: seq<Record>, free: nat, i: nat, k: nat, a: nat)
    requires Tiled(begin, t, free)
    requires i < |t| && k < |t| && i != k
    requires Contains(t[i], a)
    ensures !Contains(t[k], a)
  {
    if i < k {
      TiledOrder(begin, t, free, i, k);
    } else {
      TiledOrder(begin, t, free, k, i);
    }
  }

  /** A fresh block appended at `free` keeps the table tiled. */
  lemma TiledAppend(begin: nat, t: seq<Record>, free: nat, size: nat, s: RecordStatus)
    requires Tiled(begin, t, free)
    ensures Tiled(begin, t + [Record(free, size, s)], free + size)
  {
    var u := t + [Record(free, size, s)];
    forall i | 0 < i < |u|
      ensures Abuts(u, i)
    {
      if i < |t| {
        assert Abuts(t, i) && u[i] == t[i] && u[i - 1] == t[i - 1];
      }
    }
  }

  /** Weight of a status in the mark loop's termination measure. */
  function Weight(s: RecordStatus): nat {
    match s
    case Unknown => 2
    case Touched => 1
    case _ => 0
  }

  /** `2 * #Unknown + #Touched` over the table. */
  function Measure(t: seq<Record>): nat {
    if |t| == 0 then 0 else Weight(t[0].status) + Measure(t[1..])
  }

  /** Changing the status of one slot changes the measure by the difference
      of the two weights. */
  lemma {:induction false} MeasureUpdate(t: seq<Record>, i: nat, s: RecordStatus)
    requires i < |t|
    ensures Measure(t[i := t[i].(status := s)]) + Weight(t[i].status) == Measure(t) + Weight(s)
  {
    var u := t[i := t[i].(status := s)];
    if i > 0 {
      assert u[1..] == t[1..][i - 1 := t[i].(status := s)];
      MeasureUpdate(t[1..], i - 1, s);
    } else {
      assert u[1..] == t[1..];
    }
  }

  /** A table whose every status weighs no more than before has no larger measure. */
  lemma {:induction false} MeasureMonotone(t: seq<Record>, u: seq<Record>)
    requires |t| == |u|
    requires forall k :: 0 <= k < |u| ==> Weight(u[k].status) <= Weight(t[k].status)
    ensures Measure(u) <= Measure(t)
  {
    if |t| > 0 {
      assert forall k :: 0 <= k < |u| - 1 ==> u[1..][k] == u[k + 1] && t[1..][k] == t[k + 1];
      MeasureMonotone(t[1..], u[1..]);
    }
  }
}
