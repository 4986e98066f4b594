/** A table as a reader sees it: rows in strictly ascending key order. The memtable
    (a `std::map`) and every SSTable are such lists, and the store is a list of
    them, newest first, in which the first list that knows a key settles it. */
module Rows {
  import opened ByteStrings

  /** `stamp` is the expiry in wall-clock milliseconds, 0 for never. */
  datatype AnyRow = Row(key: Bytes, value: Bytes, tombstone: bool, stamp: int)

  /** What the fixed-width fields of the file formats can carry. */
  predicate Storable(r: AnyRow) {
    Short(r.key) && Short(r.value) && IsInt64(r.stamp)
  }

  type Row = r: AnyRow | Storable(r) witness Row([], [], true, 0)

  type Table = seq<Row>

  function Tombstone(key: Bytes): Row
    requires Short(key)
  {
    Row(key, [], true, 0)
  }

  /** A tombstone holds no bytes and never expires. */
  ghost predicate Bare(rows: Table) {
    forall i :: 0 <= i < |rows| && rows[i].tombstone ==> rows[i] == Tombstone(rows[i].key)
  }

  ghost predicate Ascending(rows: Table) {
    forall i, j :: 0 <= i < j < |rows| ==> Less(rows[i].key, rows[j].key)
  }

  /** Linear search: the reference for every lookup in the program. */
  function Search(rows: Table, key: Bytes): (hit: Option<Row>)
    ensures hit.Some? ==> hit.value in rows && hit.value.key == key
  {
    if rows == [] then None
    else if rows[0].key == key then Some(rows[0])
    else Search(rows[1..], key)
  }

  lemma {:induction false} SearchConcat(a: Table, b: Table, key: Bytes)
    ensures Search(a + b, key) == if Search(a, key).Some? then Search(a, key) else Search(b, key)
  {
    if a == [] {
      assert a + b == b;
    } else {
      assert (a + b)[1..] == a[1..] + b;
      SearchConcat(a[1..], b, key);
    }
  }

  lemma {:induction false} SearchMiss(rows: Table, key: Bytes)
    ensures Search(rows, key).None? <==> forall i :: 0 <= i < |rows| ==> rows[i].key != key
  {
    if rows != [] {
      SearchMiss(rows[1..], key);
      if forall i :: 0 <= i < |rows| ==> rows[i].key != key {
        forall i | 0 <= i < |rows[1..]| ensures rows[1..][i].key != key { assert rows[1..][i] == rows[i + 1]; }
      } else if rows[0].key != key {
        var i :| 0 <= i < |rows| && rows[i].key == key;
        assert rows[1..][i - 1] == rows[i];
      }
    }
  }

  lemma SearchHit(rows: Table, i: nat)
    requires Ascending(rows) && i < |rows|
    ensures Search(rows, rows[i].key) == Some(rows[i])
  {
    var key := rows[i].key;
    SearchMiss(rows, key);
    var r := Search(rows, key).value;
    var j :| 0 <= j < |rows| && rows[j] == r;
    LessIrreflexive(key);
  }

  lemma AscendingSlice(rows: Table, lo: nat, hi: nat)
    requires Ascending(rows) && lo <= hi <= |rows|
    ensures Ascending(rows[lo..hi])
  {
  }

  lemma AscendingSnoc(rows: Table, r: Row)
    requires Ascending(rows)
    requires rows != [] ==> Less(rows[|rows| - 1].key, r.key)
    ensures Ascending(rows + [r])
  {
    forall i | 0 <= i < |rows| ensures Less(rows[i].key, r.key) {
      if i < |rows| - 1 { LessTransitive(rows[i].key, rows[|rows| - 1].key, r.key); }
    }
  }

  // ---------------------------------------------------------------- ordered map operations

  /** `std::map::lower_bound`: the first row whose key is not below `key`. */
  function LowerBound(rows: Table, key: Bytes): (i: nat)
    ensures i <= |rows|
    ensures i < |rows| ==> !Less(rows[i].key, key)
    ensures forall j :: 0 <= j < i ==> Less(rows[j].key, key)
  {
    if rows == [] || !Less(rows[0].key, key) then 0 else 1 + LowerBound(rows[1..], key)
  }

  lemma LowerBoundAbove(rows: Table, key: Bytes)
    requires Ascending(rows)
    ensures forall j :: LowerBound(rows, key) <= j < |rows| ==> LessEq(key, rows[j].key)
    ensures forall j :: LowerBound(rows, key) < j < |rows| ==> Less(key, rows[j].key)
  {
    var i := LowerBound(rows, key);
    forall j | i <= j < |rows|
      ensures LessEq(key, rows[j].key) && (i < j ==> Less(key, rows[j].key))
    {
      LessTotal(key, rows[i].key);
      if i < j { LessEqTransitive(key, rows[i].key, rows[j].key); }
    }
  }

  lemma LowerBoundOfRow(rows: Table, i: nat)
    requires Ascending(rows) && i < |rows|
    ensures LowerBound(rows, rows[i].key) == i
  {
    hide LowerBound, Less;
    LessIrreflexive(rows[i].key);
  }

  predicate Has(rows: Table, key: Bytes) {
    var i := LowerBound(rows, key);
    i < |rows| && rows[i].key == key
  }

  lemma SearchByBound(rows: Table, key: Bytes)
    requires Ascending(rows)
    ensures Search(rows, key) == if Has(rows, key) then Some(rows[LowerBound(rows, key)]) else None
  {
    var i := LowerBound(rows, key);
    if Has(rows, key) {
      SearchHit(rows, i);
    } else {
      LowerBoundAbove(rows, key);
      SearchMiss(rows, key);
      LessIrreflexive(key);
    }
  }

  /** Insert or overwrite, as `std::map` does. */
  function Put(rows: Table, r: Row): Table {
    var i := LowerBound(rows, r.key);
    if Has(rows, r.key) then rows[i := r] else rows[..i] + [r] + rows[i..]
  }

  lemma PutAscending(rows: Table, r: Row)
    requires Ascending(rows)
    ensures Ascending(Put(rows, r))
  {
    hide LowerBound, Less;
    LowerBoundAbove(rows, r.key);
  }

  lemma SearchOne(r: Row, key: Bytes)
    ensures Search([r], key) == if r.key == key then Some(r) else None
    ensures Search([], key) == None
  {
  }

  lemma PutSearch(rows: Table, r: Row, key: Bytes)
    requires Ascending(rows)
    ensures Search(Put(rows, r), key) == if key == r.key then Some(r) else Search(rows, key)
  {
    hide LowerBound, Less, Search, Ascending;
    var i := LowerBound(rows, r.key);
    var head := rows[..i];
    SearchOne(r, key);
    if key == r.key {
      LessIrreflexive(key);
      SearchMiss(head, key);
    }
    if Has(rows, r.key) {
      var tail := rows[i + 1..];
      assert Put(rows, r) == head + ([r] + tail);
      assert rows == head + ([rows[i]] + tail);
      SearchOne(rows[i], key);
      SearchConcat(head, [r] + tail, key);
      SearchConcat([r], tail, key);
      SearchConcat(head, [rows[i]] + tail, key);
      SearchConcat([rows[i]], tail, key);
    } else {
      var tail := rows[i..];
      assert Put(rows, r) == head + ([r] + tail);
      assert rows == head + tail;
      SearchConcat(head, [r] + tail, key);
      SearchConcat([r], tail, key);
      SearchConcat(head, tail, key);
    }
  }

  // ---------------------------------------------------------------- layers

  /** The read path: newest table first, the first that has the key answers. */
  function FirstHit(tables: seq<Table>, key: Bytes): (hit: Option<Row>)
    ensures hit.Some? ==> hit.value.key == key
  {
    if tables == [] then None
    else if Search(tables[0], key).Some? then Search(tables[0], key)
    else FirstHit(tables[1..], key)
  }

  lemma {:induction false} FirstHitConcat(a: seq<Table>, b: seq<Table>, key: Bytes)
    ensures FirstHit(a + b, key) == if FirstHit(a, key).Some? then FirstHit(a, key) else FirstHit(b, key)
  {
    if a == [] {
      assert a + b == b;
    } else {
      assert (a + b)[1..] == a[1..] + b;
      FirstHitConcat(a[1..], b, key);
    }
  }

  lemma {:induction false} FirstHitMiss(tables: seq<Table>, key: Bytes)
    ensures FirstHit(tables, key).None? <==> forall i :: 0 <= i < |tables| ==> Search(tables[i], key).None?
  {
    if tables != [] {
      FirstHitMiss(tables[1..], key);
      if forall i :: 0 <= i < |tables| ==> Search(tables[i], key).None? {
        forall i | 0 <= i < |tables[1..]| ensures Search(tables[1..][i], key).None? {
          assert tables[1..][i] == tables[i + 1];
        }
      } else if Search(tables[0], key).None? {
        var i :| 0 <= i < |tables| && Search(tables[i], key).Some?;
        assert tables[1..][i - 1] == tables[i];
      }
    }
  }

  /** The first table that has the key, named by its position. */
  lemma FirstHitAt(tables: seq<Table>, n: nat, key: Bytes)
    requires n < |tables|
    requires forall i :: 0 <= i < n ==> Search(tables[i], key).None?
    requires Search(tables[n], key).Some?
    ensures FirstHit(tables, key) == Search(tables[n], key)
  {
    assert tables == tables[..n] + tables[n..];
    FirstHitConcat(tables[..n], tables[n..], key);
    FirstHitMiss(tables[..n], key);
  }

  // ---------------------------------------------------------------- visibility

  predicate Expired(stamp: int, now: int) {
    stamp != 0 && stamp <= now
  }

  /** Absent, deleted or run out: the three ways a client is told nothing. */
  predicate Dead(hit: Option<Row>, now: int) {
    hit.None? || hit.value.tombstone || Expired(hit.value.stamp, now)
  }

  datatype AnyStamped = Stamped(value: Bytes, stamp: int)

  type Stamped = s: AnyStamped | Short(s.value) && IsInt64(s.stamp) witness Stamped([], 0)

  function Visible(hit: Option<Row>, now: int): Option<Stamped> {
    if Dead(hit, now) then None else Some(Stamped(hit.value.value, hit.value.stamp))
  }

  /** Two layers that show the same thing at one moment show the same thing at every
      later one: what has run out stays out, and what is shown carries its stamp. */
  lemma VisibleLater(a: Option<Row>, b: Option<Row>, clock: int, now: int)
    requires clock <= now
    requires Visible(a, clock) == Visible(b, clock)
    ensures Visible(a, now) == Visible(b, now)
  {
  }
}
