/** The in-memory table: rows in key order, a footprint estimate that must never read
    low, and a bounded sweep that turns expired rows into tombstones. */
module Memtable {
  import opened ByteStrings
  import opened Rows

  // ---------------------------------------------------------------- footprint

  const ENTRY_OVERHEAD: nat := 128
  const SSO_CAPACITY: nat := 15

  function HeapCost(length: nat): nat {
    if length <= SSO_CAPACITY then 0 else (length + 1 + 15) / 16 * 16 + 16
  }

  function CostOf(key: Bytes, value: Bytes): nat {
    ENTRY_OVERHEAD + HeapCost(|key|) + HeapCost(|value|)
  }

  function EntryCost(r: Row): nat {
    CostOf(r.key, r.value)
  }

  ghost function TotalCost(rows: Table): nat {
    if rows == [] then 0 else EntryCost(rows[0]) + TotalCost(rows[1..])
  }

  ghost function LiveCount(rows: Table): nat {
    if rows == [] then 0 else (if rows[0].tombstone then 0 else 1) + LiveCount(rows[1..])
  }

  lemma {:induction false} CountsConcat(a: Table, b: Table)
    ensures TotalCost(a + b) == TotalCost(a) + TotalCost(b)
    ensures LiveCount(a + b) == LiveCount(a) + LiveCount(b)
  {
    hide EntryCost;
    if a == [] {
      assert a + b == b;
    } else {
      assert (a + b)[1..] == a[1..] + b;
      CountsConcat(a[1..], b);
    }
  }

  lemma CountsOne(r: Row)
    ensures TotalCost([r]) == EntryCost(r)
    ensures LiveCount([r]) == if r.tombstone then 0 else 1
  {
    hide EntryCost;
    assert [r][1..] == [];
  }

  lemma CountsReplace(rows: Table, i: nat, r: Row)
    requires i < |rows|
    ensures TotalCost(rows[i := r]) == TotalCost(rows) - EntryCost(rows[i]) + EntryCost(r)
    ensures LiveCount(rows[i := r]) ==
      LiveCount(rows) - (if rows[i].tombstone then 0 else 1) + (if r.tombstone then 0 else 1)
  {
    hide EntryCost, TotalCost, LiveCount;
    var head, tail := rows[..i], rows[i + 1..];
    assert rows == head + ([rows[i]] + tail);
    assert rows[i := r] == head + ([r] + tail);
    CountsConcat(head, [rows[i]] + tail);
    CountsConcat(head, [r] + tail);
    CountsConcat([rows[i]], tail);
    CountsConcat([r], tail);
    CountsOne(rows[i]);
    CountsOne(r);
  }

  lemma CountsInsert(rows: Table, i: nat, r: Row)
    requires i <= |rows|
    ensures TotalCost(rows[..i] + [r] + rows[i..]) == TotalCost(rows) + EntryCost(r)
    ensures LiveCount(rows[..i] + [r] + rows[i..]) == LiveCount(rows) + (if r.tombstone then 0 else 1)
  {
    hide EntryCost, TotalCost, LiveCount;
    assert rows == rows[..i] + rows[i..];
    CountsConcat(rows[..i], rows[i..]);
    CountsConcat(rows[..i] + [r], rows[i..]);
    CountsConcat(rows[..i], [r]);
    CountsOne(r);
  }

  // ---------------------------------------------------------------- the sweep

  function SweptRow(r: Row, now: int): Row {
    if !r.tombstone && Expired(r.stamp, now) then Tombstone(r.key) else r
  }

  function SweepWindow(rows: Table, lo: nat, hi: nat, now: int): (out: Table)
    ensures |out| == |rows|
    ensures forall i :: 0 <= i < |rows| ==> out[i] == if lo <= i < hi then SweptRow(rows[i], now) else rows[i]
  {
    seq(|rows|, i requires 0 <= i < |rows| => if lo <= i < hi then SweptRow(rows[i], now) else rows[i])
  }

  lemma SweepWindowKeeps(rows: Table, lo: nat, hi: nat, now: int)
    requires Ascending(rows)
    ensures Ascending(SweepWindow(rows, lo, hi, now))
    ensures Bare(rows) ==> Bare(SweepWindow(rows, lo, hi, now))
  {
  }

  /** Sweeping is invisible to every read at or after the sweep's own time. */
  lemma SweepInvisible(rows: Table, lo: nat, hi: nat, now: int, key: Bytes)
    requires Ascending(rows)
    ensures Search(SweepWindow(rows, lo, hi, now), key).Some? == Search(rows, key).Some?
    ensures Visible(Search(SweepWindow(rows, lo, hi, now), key), now) == Visible(Search(rows, key), now)
  {
    hide Less;
    var out := SweepWindow(rows, lo, hi, now);
    SweepWindowKeeps(rows, lo, hi, now);
    SearchMiss(rows, key);
    SearchMiss(out, key);
    if Search(rows, key).Some? {
      var i :| 0 <= i < |rows| && rows[i].key == key;
      assert out[i].key == key;
      SearchHit(rows, i);
      SearchHit(out, i);
    }
  }

  /** One call of the sweep, on the rows and the place where the last one stopped. */
  datatype Sweeper = Sweeper(rows: Table, cursor: Bytes)

  function Sweep(s: Sweeper, now: int, budget: nat): Sweeper {
    var lo := LowerBound(s.rows, s.cursor);
    var hi := lo + budget;
    Sweeper(SweepWindow(s.rows, lo, hi, now), if hi >= |s.rows| then [] else s.rows[hi].key)
  }

  function Sweeps(s: Sweeper, nows: seq<int>, budget: nat): Sweeper
    decreases |nows|
  {
    if nows == [] then s else Sweeps(Sweep(s, nows[0], budget), nows[1..], budget)
  }

  lemma NextPosition(s: Sweeper, now: int, budget: nat)
    requires Ascending(s.rows)
    ensures var t, hi := Sweep(s, now, budget), LowerBound(s.rows, s.cursor) + budget;
      && Ascending(t.rows)
      && LowerBound(t.rows, t.cursor) == if hi >= |s.rows| then 0 else hi
  {
    var lo := LowerBound(s.rows, s.cursor);
    var hi := lo + budget;
    var t := Sweep(s, now, budget);
    SweepWindowKeeps(s.rows, lo, hi, now);
    if hi < |s.rows| { LowerBoundOfRow(t.rows, hi); }
  }

  /** Expired at `since`, or already swept. */
  predicate Doomed(r: Row, since: int) {
    r.tombstone || Expired(r.stamp, since)
  }

  lemma {:induction false} TombstonesStay(s: Sweeper, nows: seq<int>, budget: nat, i: nat)
    requires i < |s.rows| && s.rows[i].tombstone
    ensures |Sweeps(s, nows, budget).rows| == |s.rows| && Sweeps(s, nows, budget).rows[i].tombstone
    decreases |nows|
  {
    hide LowerBound;
    if nows != [] { TombstonesStay(Sweep(s, nows[0], budget), nows[1..], budget, i); }
  }

  /** A doomed row ahead of the cursor is reached within `d` sweeps if it lies within `d`
      budgets. */
  lemma {:induction false} ReachedAhead(s: Sweeper, nows: seq<int>, budget: nat, i: nat, d: nat, since: int)
    requires Ascending(s.rows) && i < |s.rows| && Doomed(s.rows[i], since)
    requires forall n :: 0 <= n < |nows| ==> since <= nows[n]
    requires LowerBound(s.rows, s.cursor) <= i < LowerBound(s.rows, s.cursor) + d * budget
    requires d <= |nows|
    ensures |Sweeps(s, nows, budget).rows| == |s.rows| && Sweeps(s, nows, budget).rows[i].tombstone
    decreases d
  {
    hide LowerBound, Less;
    assert d > 0;
    var t := Sweep(s, nows[0], budget);
    NextPosition(s, nows[0], budget);
    var lo := LowerBound(s.rows, s.cursor);
    if i < lo + budget {
      assert t.rows[i] == SweptRow(s.rows[i], nows[0]);
      TombstonesStay(t, nows[1..], budget, i);
    } else {
      assert (d - 1) * budget == d * budget - budget;
      ReachedAhead(t, nows[1..], budget, i, d - 1, since);
    }
  }

  /** A doomed row behind the cursor is reached after the sweep has wrapped around. */
  lemma {:induction false} ReachedAfterWrap(s: Sweeper, nows: seq<int>, budget: nat, i: nat, d: nat, m: nat, since: int)
    requires Ascending(s.rows) && i < |s.rows| && Doomed(s.rows[i], since)
    requires forall n :: 0 <= n < |nows| ==> since <= nows[n]
    requires |s.rows| <= LowerBound(s.rows, s.cursor) + d * budget && |s.rows| <= m * budget
    requires 0 < d && d + m <= |nows|
    ensures |Sweeps(s, nows, budget).rows| == |s.rows| && Sweeps(s, nows, budget).rows[i].tombstone
    decreases d
  {
    hide LowerBound, Less;
    var t := Sweep(s, nows[0], budget);
    NextPosition(s, nows[0], budget);
    assert Doomed(t.rows[i], since);
    var lo := LowerBound(s.rows, s.cursor);
    if lo + budget >= |s.rows| {
      ReachedAhead(t, nows[1..], budget, i, m, since);
    } else {
      assert (d - 1) * budget == d * budget - budget;
      assert d > 1;
      ReachedAfterWrap(t, nows[1..], budget, i, d - 1, m, since);
    }
  }

  /** Twice around is enough: wherever the cursor stands, 2 * ceil(n / budget) sweeps turn
      every row that was expired at the first of them into a tombstone. */
  lemma EverythingIsSwept(s: Sweeper, nows: seq<int>, budget: nat)
    requires Ascending(s.rows) && budget > 0
    requires forall n :: 0 <= n < |nows| ==> nows[0] <= nows[n]
    requires |nows| == 2 * ((|s.rows| + budget - 1) / budget)
    ensures var t := Sweeps(s, nows, budget);
      |t.rows| == |s.rows| &&
      forall i :: 0 <= i < |s.rows| && Expired(s.rows[i].stamp, nows[0]) ==> t.rows[i].tombstone
  {
    hide LowerBound, Less, Sweeps;
    var n := |s.rows|;
    var m := (n + budget - 1) / budget;
    CeilingCovers(n, budget);
    var t := Sweeps(s, nows, budget);
    SweepsKeepLength(s, nows, budget);
    forall i | 0 <= i < n && Expired(s.rows[i].stamp, nows[0]) ensures t.rows[i].tombstone {
      var lo := LowerBound(s.rows, s.cursor);
      if lo <= i {
        ReachedAhead(s, nows, budget, i, m, nows[0]);
      } else {
        ReachedAfterWrap(s, nows, budget, i, m, m, nows[0]);
      }
    }
  }

  lemma {:induction false} SweepsKeepLength(s: Sweeper, nows: seq<int>, budget: nat)
    ensures |Sweeps(s, nows, budget).rows| == |s.rows|
    decreases |nows|
  {
    if nows != [] { SweepsKeepLength(Sweep(s, nows[0], budget), nows[1..], budget); }
  }

  lemma CeilingCovers(n: nat, b: nat)
    requires b > 0
    ensures n <= (n + b - 1) / b * b
    ensures n > 0 ==> (n + b - 1) / b > 0
  {
    var q, r := (n + b - 1) / b, (n + b - 1) % b;
    assert n + b - 1 == q * b + r;
  }

  // ---------------------------------------------------------------- the object

  class MemTable {
    var rows: Table
    var sweepCursor: Bytes
    var liveCount: nat
    var bytes: nat

    ghost predicate Valid()
      reads this
    {
      && Ascending(rows) && Bare(rows)
      && liveCount == LiveCount(rows)
      && bytes >= TotalCost(rows)
    }

    constructor ()
      ensures Valid() && rows == [] && sweepCursor == [] && liveCount == 0 && bytes == 0
    {
      rows, sweepCursor, liveCount, bytes := [], [], 0, 0;
    }

    method Find(key: Bytes) returns (entry: Option<Row>)
      requires Valid()
      ensures entry == Search(rows, key)
    {
      SearchByBound(rows, key);
      var i := LowerBound(rows, key);
      if i < |rows| && rows[i].key == key { return Some(rows[i]); }
      return None;
    }

    /** Insert, overwrite or revive. The estimate only ever grows. */
    method Set(key: Bytes, value: Bytes, stamp: int)
      requires Valid() && Short(key) && Short(value) && IsInt64(stamp)
      modifies this
      ensures Valid()
      ensures rows == Put(old(rows), Row(key, value, false, stamp))
      ensures sweepCursor == old(sweepCursor) && old(bytes) <= bytes <= old(bytes) + CostOf(key, value)
    {
      hide Less, LowerBound, TotalCost, LiveCount, HeapCost;
      var r: Row := Row(key, value, false, stamp);
      PutAscending(rows, r);
      var i := LowerBound(rows, key);
      if !(i < |rows| && rows[i].key == key) {
        CountsInsert(rows, i, r);
        rows := rows[..i] + [r] + rows[i..];
        liveCount := liveCount + 1;
        bytes := bytes + EntryCost(r);
        return;
      }
      CountsReplace(rows, i, r);
      if rows[i].tombstone { liveCount := liveCount + 1; }
      var oldCost := HeapCost(|rows[i].value|);
      rows := rows[i := r];
      var newCost := HeapCost(|value|);
      if newCost > oldCost { bytes := bytes + (newCost - oldCost); }
    }

    /** A tombstone goes in whether or not the key was here. */
    method Del(key: Bytes) returns (wasLive: bool)
      requires Valid() && Short(key)
      modifies this
      ensures Valid()
      ensures rows == Put(old(rows), Tombstone(key))
      ensures wasLive == (Search(old(rows), key).Some? && !Search(old(rows), key).value.tombstone)
      ensures sweepCursor == old(sweepCursor) && bytes >= old(bytes)
    {
      hide Less, LowerBound, TotalCost, LiveCount, HeapCost;
      var r := Tombstone(key);
      PutAscending(rows, r);
      SearchByBound(rows, key);
      var i := LowerBound(rows, key);
      var here := i < |rows| && rows[i].key == key;
      wasLive := here && !rows[i].tombstone;
      if !here {
        CountsInsert(rows, i, r);
        rows := rows[..i] + [r] + rows[i..];
        bytes := bytes + EntryCost(r);
        return;
      }
      CountsReplace(rows, i, r);
      SmallerValue(rows[i]);
      if wasLive { liveCount := liveCount - 1; }
      rows := rows[i := r];
    }

    method SweepExpired(now: int, budget: nat) returns (swept: nat)
      requires Valid()
      modifies this
      ensures Valid()
      ensures Sweeper(rows, sweepCursor) == Sweep(Sweeper(old(rows), old(sweepCursor)), now, budget)
      ensures swept == old(liveCount) - liveCount && bytes == old(bytes)
    {
      hide Less, LowerBound, TotalCost, LiveCount, HeapCost, EntryCost, Ascending, Bare;
      swept := 0;
      ghost var before := rows;
      var lo := LowerBound(rows, sweepCursor);
      if rows == [] {
        sweepCursor := [];
        assert rows == SweepWindow(before, lo, lo + budget, now);
        return;
      }
      var it := lo;
      var examined := 0;
      assert rows == SweepWindow(before, lo, it, now);
      while examined < budget && it < |rows|
        invariant examined <= budget && it == lo + examined && it <= |rows| == |before|
        invariant liveCount == LiveCount(rows) && bytes >= TotalCost(rows) && bytes == old(bytes)
        invariant rows == SweepWindow(before, lo, it, now)
        invariant swept == old(liveCount) - liveCount
      {
        var r := rows[it];
        if !r.tombstone && r.stamp != 0 && r.stamp <= now {
          CountsReplace(rows, it, Tombstone(r.key));
          SmallerValue(r);
          LivePositive(rows, it);
          rows := rows[it := Tombstone(r.key)];
          liveCount := liveCount - 1;
          swept := swept + 1;
        }
        assert rows == SweepWindow(before, lo, it + 1, now);
        it := it + 1;
        examined := examined + 1;
      }
      assert rows == SweepWindow(before, lo, lo + budget, now);
      SweepWindowKeeps(before, lo, lo + budget, now);
      sweepCursor := if it == |rows| then [] else rows[it].key;
    }

    method Clear()
      modifies this
      ensures Valid() && rows == [] && sweepCursor == [] && bytes == 0 && liveCount == 0
    {
      rows, sweepCursor, liveCount, bytes := [], [], 0, 0;
    }
  }

  lemma SmallerValue(r: Row)
    ensures EntryCost(Tombstone(r.key)) <= EntryCost(r)
  {
  }

  lemma LivePositive(rows: Table, i: nat)
    requires i < |rows| && !rows[i].tombstone
    ensures LiveCount(rows) > 0
  {
    hide LiveCount;
    assert rows == rows[..i] + ([rows[i]] + rows[i + 1..]);
    CountsConcat(rows[..i], [rows[i]] + rows[i + 1..]);
    CountsConcat([rows[i]], rows[i + 1..]);
    CountsOne(rows[i]);
  }
}
