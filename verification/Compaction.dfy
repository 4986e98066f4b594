/** The k-way merge, newest input first, against "the first table with anything to say
    settles it". */
module Compaction {
  import opened ByteStrings
  import opened Rows
  import opened SstableFormat
  import opened SstableReader
  import opened SstableCursor
  import opened SstableWriter
  import opened FileSystem

  // ---------------------------------------------------------------- what a merge is

  /** What survives of a key's newest version. */
  function Kept(hit: Option<Row>, dropObsolete: bool, now: int): Option<Row> {
    if dropObsolete && Dead(hit, now) then None else hit
  }

  ghost predicate IsMerge(tables: seq<Table>, out: Table, dropObsolete: bool, now: int) {
    Ascending(out) && forall key: Bytes :: Search(out, key) == Kept(FirstHit(tables, key), dropObsolete, now)
  }

  // ---------------------------------------------------------------- progress of a merge

  /** How many rows of each input have been taken. */
  type Positions = seq<nat>

  ghost predicate InRange(tables: seq<Table>, p: Positions) {
    |p| == |tables| && forall i :: 0 <= i < |p| ==> p[i] <= |tables[i]|
  }

  ghost function TakenBy(p: Positions): nat {
    if p == [] then 0 else p[0] + TakenBy(p[1..])
  }

  ghost function TotalRows(tables: seq<Table>): nat {
    if tables == [] then 0 else |tables[0]| + TotalRows(tables[1..])
  }

  ghost predicate AllAscending(tables: seq<Table>) {
    forall i :: 0 <= i < |tables| ==> Ascending(tables[i])
  }

  /** Everything taken is at or below `previous`, everything left is at or above it. */
  ghost predicate Split(tables: seq<Table>, p: Positions, previous: Option<Bytes>)
    requires InRange(tables, p)
  {
    && (forall i, j :: 0 <= i < |p| && 0 <= j < p[i] ==>
          previous.Some? && LessEq(tables[i][j].key, previous.value))
    && (forall i, j :: 0 <= i < |p| && p[i] <= j < |tables[i]| ==>
          previous.Some? ==> LessEq(previous.value, tables[i][j].key))
  }

  /** The output is the merge of all keys up to `previous`. */
  ghost predicate MergedUpTo(tables: seq<Table>, previous: Option<Bytes>, out: Table, drop: bool, now: int) {
    && Ascending(out) && Bare(out)
    && (forall i :: 0 <= i < |out| ==> previous.Some? && LessEq(out[i].key, previous.value))
    && (forall key: Bytes :: previous.Some? && LessEq(key, previous.value) ==>
          Search(out, key) == Kept(FirstHit(tables, key), drop, now))
  }

  /** Input `i` holds the least key left, and no newer input holds the same one. */
  ghost predicate IsNext(tables: seq<Table>, p: Positions, i: nat)
    requires InRange(tables, p)
  {
    && i < |p| && p[i] < |tables[i]|
    && forall n :: 0 <= n < |p| && p[n] < |tables[n]| && n != i ==>
         Less(tables[i][p[i]].key, tables[n][p[n]].key)
         || (tables[i][p[i]].key == tables[n][p[n]].key && i < n)
  }

  lemma LeftIsAtLeast(tables: seq<Table>, p: Positions, i: nat, n: nat, j: nat)
    requires InRange(tables, p) && AllAscending(tables) && IsNext(tables, p, i)
    requires n < |p| && p[n] <= j < |tables[n]|
    ensures LessEq(tables[i][p[i]].key, tables[n][j].key)
    ensures n < i ==> Less(tables[i][p[i]].key, tables[n][j].key)
  {
    hide Less;
    if p[n] < j {
      assert Less(tables[n][p[n]].key, tables[n][j].key);
      LessEqTransitive(tables[i][p[i]].key, tables[n][p[n]].key, tables[n][j].key);
    }
  }

  lemma TakeOne(tables: seq<Table>, p: Positions, previous: Option<Bytes>, i: nat)
    requires InRange(tables, p) && AllAscending(tables) && Split(tables, p, previous) && IsNext(tables, p, i)
    ensures var p' := p[i := p[i] + 1];
      InRange(tables, p') && Split(tables, p', Some(tables[i][p[i]].key))
  {
    hide Less;
    var key := tables[i][p[i]].key;
    var p' := p[i := p[i] + 1];
    forall n, j | 0 <= n < |p'| && 0 <= j < p'[n] ensures LessEq(tables[n][j].key, key) {
      if j < p[n] { LessEqTransitive(tables[n][j].key, previous.value, key); }
    }
    forall n, j | 0 <= n < |p'| && p'[n] <= j < |tables[n]| ensures LessEq(key, tables[n][j].key) {
      LeftIsAtLeast(tables, p, i, n, j);
    }
  }

  /** A key strictly between `previous` and the next one is in no input; the next one's
      newest version is the one about to be taken. */
  lemma NextIsFirstHit(tables: seq<Table>, p: Positions, previous: Option<Bytes>, i: nat, key: Bytes)
    requires InRange(tables, p) && AllAscending(tables) && Split(tables, p, previous) && IsNext(tables, p, i)
    requires LessEq(key, tables[i][p[i]].key) && (previous.Some? ==> Less(previous.value, key))
    ensures FirstHit(tables, key) == if key == tables[i][p[i]].key then Some(tables[i][p[i]]) else None
  {
    hide Less, FirstHit, Search;
    var r := tables[i][p[i]];
    forall n | 0 <= n < |tables| && (n < i || key != r.key) ensures Search(tables[n], key).None? {
      forall j | 0 <= j < |tables[n]| ensures tables[n][j].key != key {
        LessIrreflexive(key);
        if j < p[n] {
          LessEqTransitive(tables[n][j].key, previous.value, key);
        } else {
          LeftIsAtLeast(tables, p, i, n, j);
          LessEqTransitive(key, r.key, tables[n][j].key);
        }
      }
      SearchMiss(tables[n], key);
    }
    if key == r.key {
      SearchHit(tables[i], p[i]);
      FirstHitAt(tables, i, key);
    } else {
      FirstHitMiss(tables, key);
    }
  }

  ghost function Written(out: Table, r: Row, drop: bool, now: int): Table {
    if drop && Dead(Some(r), now) then out else out + [r]
  }

  lemma TakeFresh(tables: seq<Table>, p: Positions, previous: Option<Bytes>, out: Table,
                  i: nat, drop: bool, now: int)
    requires InRange(tables, p) && AllAscending(tables) && Split(tables, p, previous) && IsNext(tables, p, i)
    requires MergedUpTo(tables, previous, out, drop, now) && Bare(tables[i])
    requires previous != Some(tables[i][p[i]].key)
    ensures MergedUpTo(tables, Some(tables[i][p[i]].key), Written(out, tables[i][p[i]], drop, now), drop, now)
  {
    hide Less, FirstHit, Search, Split;
    var r := tables[i][p[i]];
    var more := Written(out, r, drop, now);
    if previous.Some? { StrictlyAbove(tables, p, previous, i); }
    forall n | 0 <= n < |out| ensures Less(out[n].key, r.key) {
      LessEqTransitive(out[n].key, previous.value, r.key);
    }
    if out != [] { AscendingSnoc(out, r); } else { assert [] + [r] == [r]; }
    forall key: Bytes | LessEq(key, r.key) ensures Search(more, key) == Kept(FirstHit(tables, key), drop, now) {
      WrittenSearch(out, r, drop, now, key);
      LessIrreflexive(key);
      if previous.Some? { LessTotal(key, previous.value); }
      if previous.Some? && LessEq(key, previous.value) {
        LessEqTransitive(key, previous.value, r.key);
      } else {
        NextIsFirstHit(tables, p, previous, i, key);
        forall n | 0 <= n < |out| ensures out[n].key != key {
          LessEqTransitive(out[n].key, previous.value, key);
        }
        SearchMiss(out, key);
      }
    }
  }

  lemma StrictlyAbove(tables: seq<Table>, p: Positions, previous: Option<Bytes>, i: nat)
    requires InRange(tables, p) && Split(tables, p, previous) && IsNext(tables, p, i)
    requires previous != Some(tables[i][p[i]].key) && previous.Some?
    ensures Less(previous.value, tables[i][p[i]].key)
  {
    assert LessEq(previous.value, tables[i][p[i]].key);
  }

  lemma WrittenSearch(out: Table, r: Row, drop: bool, now: int, key: Bytes)
    ensures Search(Written(out, r, drop, now), key) ==
      if Search(out, key).Some? then Search(out, key)
      else if drop && Dead(Some(r), now) then None
      else if r.key == key then Some(r) else None
  {
    SearchConcat(out, [r], key);
    SearchOne(r, key);
  }

  lemma TakenAll(tables: seq<Table>, p: Positions, previous: Option<Bytes>, out: Table, drop: bool, now: int)
    requires InRange(tables, p) && Split(tables, p, previous)
    requires forall i :: 0 <= i < |p| ==> p[i] == |tables[i]|
    requires MergedUpTo(tables, previous, out, drop, now)
    ensures IsMerge(tables, out, drop, now)
  {
    hide Less, FirstHit, Search;
    forall key: Bytes ensures Search(out, key) == Kept(FirstHit(tables, key), drop, now) {
      if !(previous.Some? && LessEq(key, previous.value)) {
        forall n | 0 <= n < |tables| ensures Search(tables[n], key).None? { SearchMiss(tables[n], key); }
        FirstHitMiss(tables, key);
        SearchMiss(out, key);
      }
    }
  }

  lemma {:induction false} TakenStep(p: Positions, i: nat)
    requires i < |p|
    ensures TakenBy(p[i := p[i] + 1]) == TakenBy(p) + 1
  {
    if i > 0 {
      assert p[i := p[i] + 1][1..] == p[1..][i - 1 := p[1..][i - 1] + 1];
      TakenStep(p[1..], i - 1);
    }
  }

  lemma {:induction false} TakenEnds(tables: seq<Table>, p: Positions)
    requires InRange(tables, p)
    ensures (forall i :: 0 <= i < |p| ==> p[i] == |tables[i]|) ==> TakenBy(p) == TotalRows(tables)
    ensures (forall i :: 0 <= i < |p| ==> p[i] == 0) ==> TakenBy(p) == 0
  {
    if p != [] { TakenEnds(tables[1..], p[1..]); }
  }

  // ---------------------------------------------------------------- the heap

  datatype Head = Head(input: nat, key: Bytes)

  /** Smallest key first; equal keys newest input first. */
  predicate Before(a: Head, b: Head) {
    if a.key != b.key then Less(a.key, b.key) else a.input < b.input
  }

  /** The priority queue: at most one head per input, under that input's number. */
  type Heap = map<nat, Bytes>

  /** One head per input that has rows left, holding that input's next key. */
  ghost predicate IsHeap(heap: Heap, tables: seq<Table>, p: Positions)
    requires InRange(tables, p)
  {
    && (forall i :: i in heap ==> i < |p| && p[i] < |tables[i]| && heap[i] == tables[i][p[i]].key)
    && (forall i :: 0 <= i < |p| && p[i] < |tables[i]| ==> i in heap)
  }

  /** `priority_queue::top`: the head that comes before all others. */
  method Top(heap: Heap, inputs: nat) returns (top: Head)
    requires heap != map[] && forall i :: i in heap ==> i < inputs
    ensures top.input in heap && heap[top.input] == top.key
    ensures forall i :: i in heap && i != top.input ==> Before(top, Head(i, heap[i]))
  {
    hide Less;
    var best: Option<Head> := None;
    for i := 0 to inputs
      invariant best.None? ==> forall n :: n in heap ==> n >= i
      invariant best.Some? ==> best.value.input in heap && heap[best.value.input] == best.value.key
      invariant best.Some? ==> best.value.input < i
      invariant best.Some? ==> forall n :: n in heap && n < i && n != best.value.input ==>
        Before(best.value, Head(n, heap[n]))
    {
      if i in heap {
        var head := Head(i, heap[i]);
        if best.None? {
          best := Some(head);
        } else {
          LessTotal(head.key, best.value.key);
          if Before(head, best.value) {
            forall n | n in heap && n < i && n != best.value.input ensures Before(head, Head(n, heap[n])) {
              BeforeTransitive(head, best.value, Head(n, heap[n]));
            }
            best := Some(head);
          }
        }
      }
    }
    top := best.value;
  }

  lemma BeforeTransitive(a: Head, b: Head, c: Head)
    requires Before(a, b) && Before(b, c)
    ensures Before(a, c)
  {
    hide Less;
    if a.key != b.key && b.key != c.key {
      LessTransitive(a.key, b.key, c.key);
      LessIrreflexive(a.key);
      LessAsymmetric(a.key, b.key);
    }
  }

  lemma TopIsNext(heap: Heap, tables: seq<Table>, p: Positions, top: Head)
    requires InRange(tables, p) && IsHeap(heap, tables, p)
    requires top.input in heap && heap[top.input] == top.key
    requires forall i :: i in heap && i != top.input ==> Before(top, Head(i, heap[i]))
    ensures IsNext(tables, p, top.input)
  {
    hide Less;
    forall n | 0 <= n < |p| && p[n] < |tables[n]| && n != top.input
      ensures Before(top, Head(n, tables[n][p[n]].key))
    {
      assert n in heap;
    }
  }

  /** Pop a head and push its input's next row, if there is one. */
  ghost function Advanced(heap: Heap, tables: seq<Table>, p: Positions, i: nat): Heap
    requires InRange(tables, p) && i < |p| && p[i] < |tables[i]|
  {
    if p[i] + 1 < |tables[i]| then (heap - {i})[i := tables[i][p[i] + 1].key] else heap - {i}
  }

  lemma HeapAdvances(heap: Heap, tables: seq<Table>, p: Positions, i: nat)
    requires InRange(tables, p) && IsHeap(heap, tables, p) && i in heap
    ensures InRange(tables, p[i := p[i] + 1])
    ensures IsHeap(Advanced(heap, tables, p, i), tables, p[i := p[i] + 1])
  {
  }

  // ---------------------------------------------------------------- the merge loop

  ghost predicate AllRead(inputs: seq<Sstable>, tables: seq<Table>) {
    |inputs| == |tables| && forall i :: 0 <= i < |inputs| ==> Reads(inputs[i], tables[i]) && Bare(tables[i])
  }

  /** Each cursor stands on its input's next row. */
  ghost predicate CursorsAt(cursors: seq<Cursor>, tables: seq<Table>, p: Positions)
    reads cursors
    requires InRange(tables, p)
  {
    && |cursors| == |tables|
    && (forall i, j :: 0 <= i < j < |cursors| ==> cursors[i] != cursors[j])
    && (forall i :: 0 <= i < |cursors| ==> CursorAt(cursors[i], tables[i], p[i]))
  }

  ghost predicate CursorAt(c: Cursor, rows: Table, p: nat)
    reads c
  {
    && c.Valid() && c.rows == rows && p <= |rows|
    && c.valid == (p < |rows|)
    && (c.valid ==> c.taken == p + 1 && (Bare(rows) ==> c.current == rows[p]))
  }

  lemma BareStored(rows: Table, i: nat)
    requires Bare(rows) && i < |rows|
    ensures Stored(rows[i]) == rows[i]
  {
  }

  method OpenCursor(input: Sstable, ghost rows: Table) returns (c: Cursor)
    requires Reads(input, rows)
    ensures fresh(c) && CursorAt(c, rows, 0)
  {
    hide DataBlock, Index, IsWindow, OffsetOf, Reads;
    c := new Cursor(input, rows);
    if Bare(rows) && rows != [] { BareStored(rows, 0); }
  }

  method OpenCursors(inputs: seq<Sstable>, ghost tables: seq<Table>)
    returns (cursors: seq<Cursor>, heap: Heap, ghost p: Positions)
    requires AllRead(inputs, tables)
    ensures InRange(tables, p) && CursorsAt(cursors, tables, p) && IsHeap(heap, tables, p)
    ensures forall i :: 0 <= i < |p| ==> p[i] == 0
    ensures forall i :: 0 <= i < |cursors| ==> fresh(cursors[i])
  {
    hide CursorAt, Reads, Bare, IsHeap;
    cursors, heap, p := [], map[], [];
    NoHeads();
    for n := 0 to |inputs|
      invariant |cursors| == n && |p| == n && InRange(tables[..n], p)
      invariant forall i :: 0 <= i < n ==> p[i] == 0
      invariant forall i :: 0 <= i < n ==> fresh(cursors[i]) && CursorAt(cursors[i], tables[i], 0)
      invariant forall i, j :: 0 <= i < j < n ==> cursors[i] != cursors[j]
      invariant IsHeap(heap, tables[..n], p)
    {
      var c := OpenCursor(inputs[n], tables[n]);
      assert tables[..n + 1] == tables[..n] + [tables[n]];
      CursorKey(c, tables[n], 0);
      HeapPush(heap, tables[..n], p, tables[n]);
      if c.valid { heap := heap[n := c.current.key]; }
      cursors, p := cursors + [c], p + [0];
    }
    assert tables[..|inputs|] == tables;
  }

  lemma NoHeads()
    ensures IsHeap(map[], [], [])
  {
  }

  lemma CursorKey(c: Cursor, rows: Table, p: nat)
    requires CursorAt(c, rows, p) && Bare(rows)
    ensures c.valid == (p < |rows|)
    ensures p < |rows| ==> c.current == rows[p]
  {
  }

  lemma HeapPush(heap: Heap, tables: seq<Table>, p: Positions, rows: Table)
    requires InRange(tables, p) && IsHeap(heap, tables, p)
    ensures InRange(tables + [rows], p + [0])
    ensures IsHeap(if rows == [] then heap else heap[|p| := rows[0].key], tables + [rows], p + [0])
  {
  }

  /** Advance the cursor the head came from and push its next key. */
  method AdvanceInput(cursors: seq<Cursor>, heap: Heap, i: nat, ghost tables: seq<Table>, ghost p: Positions)
    returns (next: Heap, failed: bool)
    requires InRange(tables, p) && CursorsAt(cursors, tables, p) && IsHeap(heap, tables, p) && i in heap
    requires forall n :: 0 <= n < |tables| ==> Bare(tables[n])
    modifies cursors[i]
    ensures !failed && InRange(tables, p[i := p[i] + 1])
    ensures CursorsAt(cursors, tables, p[i := p[i] + 1])
    ensures IsHeap(next, tables, p[i := p[i] + 1])
  {
    hide IsWindow, OffsetOf, Stored, Bare;
    next := heap - {i};
    HeapAdvances(heap, tables, p, i);
    cursors[i].Next();
    failed := cursors[i].failed;
    if cursors[i].valid {
      BareStored(tables[i], p[i] + 1);
      next := next[i := cursors[i].current.key];
    }
  }

  /** Every row after the first with its key is superseded; an obsolete row may go only
      when nothing older is left; everything else is written. */
  method Emit(writer: Writer, row: Row, previous: Option<Bytes>, dropObsolete: bool, now: int, ghost out: Table,
              ghost a: State)
    returns (wrote: bool, ghost more: Table)
    requires writer.Valid() && !writer.finished && (!writer.failed ==> writer.rows == out)
    requires OnlyTouched(a, writer.dir.Now(), writer.name) && (writer.failed ==> writer.dir.refused > a.refused)
    modifies writer, writer.dir
    ensures writer.Valid() && !writer.finished && (!writer.failed ==> writer.rows == more)
    ensures OnlyTouched(a, writer.dir.Now(), writer.name) && (writer.failed ==> writer.dir.refused > a.refused)
    ensures more == Emitted(out, row, previous, dropObsolete, now)
    ensures |more| == |out| + if wrote then 1 else 0
  {
    hide Fits, DataBlock, ProgressAfter, OnlyTouched;
    wrote, more := false, out;
    if previous != Some(row.key) {
      var expired := row.stamp != 0 && row.stamp <= now;
      if !(dropObsolete && (row.tombstone || expired)) {
        ghost var b := writer.dir.Now();
        writer.Add(row);
        OnlyTouchedCounts(a, b, writer.name);
        OnlyTouchedCounts(b, writer.dir.Now(), writer.name);
        OnlyTouchedTransitive(a, b, writer.dir.Now(), writer.name);
        wrote, more := true, out + [row];
      }
    }
  }

  ghost function Emitted(out: Table, row: Row, previous: Option<Bytes>, drop: bool, now: int): Table {
    if previous == Some(row.key) then out else Written(out, row, drop, now)
  }

  lemma MergeStep(tables: seq<Table>, p: Positions, previous: Option<Bytes>, out: Table,
                  i: nat, drop: bool, now: int)
    requires InRange(tables, p) && AllAscending(tables) && Split(tables, p, previous) && IsNext(tables, p, i)
    requires MergedUpTo(tables, previous, out, drop, now) && Bare(tables[i])
    ensures var p', r := p[i := p[i] + 1], tables[i][p[i]];
      && InRange(tables, p')
      && Split(tables, p', Some(r.key))
      && MergedUpTo(tables, Some(r.key), Emitted(out, r, previous, drop, now), drop, now)
      && TakenBy(p') == TakenBy(p) + 1 <= TotalRows(tables)
  {
    hide Split, MergedUpTo, Less, TakenBy, TotalRows;
    TakeOne(tables, p, previous, i);
    TakenStep(p, i);
    TakenBounded(tables, p[i := p[i] + 1]);
    if previous != Some(tables[i][p[i]].key) {
      TakeFresh(tables, p, previous, out, i, drop, now);
    }
  }

  /** The merge loop: the least head, newest input first, is emitted or superseded, and its
      input moves on. */
  method MergeAll(cursors: seq<Cursor>, heads: Heap, writer: Writer, dropObsolete: bool, now: int,
                  ghost tables: seq<Table>, ghost start: Positions, ghost a: State)
    returns (done: bool, written: nat, dropped: nat, ghost out: Table)
    requires InRange(tables, start) && CursorsAt(cursors, tables, start) && IsHeap(heads, tables, start)
    requires AllAscending(tables) && forall n :: 0 <= n < |tables| ==> Bare(tables[n])
    requires Split(tables, start, None) && MergedUpTo(tables, None, [], dropObsolete, now) && TakenBy(start) == 0
    requires writer.Valid() && !writer.finished && (!writer.failed ==> writer.rows == [])
    requires OnlyTouched(a, writer.dir.Now(), writer.name) && (writer.failed ==> writer.dir.refused > a.refused)
    modifies cursors, writer, writer.dir
    ensures writer.Valid() && !writer.finished && (!writer.failed ==> writer.rows == out)
    ensures OnlyTouched(a, writer.dir.Now(), writer.name) && (writer.failed ==> writer.dir.refused > a.refused)
    ensures done && Bare(out) && IsMerge(tables, out, dropObsolete, now)
    ensures written == |out| && written + dropped == TotalRows(tables)
  {
    hide OnlyTouched, IsHeap, Split, MergedUpTo, Less, DataBlock, Index, IsMerge, FirstHit, Search, Bare, Reads;
    hide TakenBy, TotalRows, CursorAt, AllAscending, Fits, Emitted, Before, ProgressAfter;
    done, written, dropped, out := false, 0, 0, [];
    var heap := heads;
    ghost var p := start;
    var previous: Option<Bytes> := None;
    while heap != map[]
      invariant InRange(tables, p) && CursorsAt(cursors, tables, p) && IsHeap(heap, tables, p)
      invariant writer.Valid() && !writer.finished && (!writer.failed ==> writer.rows == out)
      invariant OnlyTouched(a, writer.dir.Now(), writer.name) && (writer.failed ==> writer.dir.refused > a.refused)
      invariant Split(tables, p, previous) && MergedUpTo(tables, previous, out, dropObsolete, now)
      invariant written == |out| && written + dropped == TakenBy(p)
      decreases TotalRows(tables) - TakenBy(p)
    {
      HeapInRange(heap, tables, p);
      var head := Top(heap, |cursors|);
      var i := head.input;
      TopIsNext(heap, tables, p, head);
      CursorKey(cursors[i], tables[i], p[i]);
      MergeStep(tables, p, previous, out, i, dropObsolete, now);
      var wrote;
      wrote, out := Emit(writer, cursors[i].current, previous, dropObsolete, now, out, a);
      if wrote { written := written + 1; } else { dropped := dropped + 1; }
      previous := Some(head.key);
      var failed;
      heap, failed := AdvanceInput(cursors, heap, i, tables, p);
      p := p[i := p[i] + 1];
      if failed { return; }
    }
    done := true;
    HeapEmpty(heap, tables, p);
    TakenAll(tables, p, previous, out, dropObsolete, now);
    TakenEnds(tables, p);
    MergedIsBare(tables, previous, out, dropObsolete, now);
  }

  method Compact(inputs: seq<Sstable>, dir: Directory, temp: string, bitsPerKey: int,
                 dropObsolete: bool, now: int, ghost tables: seq<Table>)
    returns (ok: bool, written: nat, dropped: nat, ghost out: Table)
    requires AllRead(inputs, tables)
    modifies dir
    ensures OnlyTouched(old(dir.Now()), dir.Now(), temp)
    ensures ok ==> temp in dir.files && dir.files[temp] == File(out, bitsPerKey) && temp !in dir.dirtyData
    ensures ok ==> Fits(out) && Bare(out) && IsMerge(tables, out, dropObsolete, now)
    ensures ok ==> written == |out| && written + dropped == TotalRows(tables)
    ensures !ok ==> dir.refused > old(dir.refused)
  {
    hide OnlyTouched, IsHeap, Split, MergedUpTo, DataBlock, Index, IsMerge, FirstHit, Bare, Reads;
    hide TakenBy, TotalRows, File, CursorAt, AllAscending, Fits, ProgressAfter;
    var cursors, heap;
    ghost var p;
    cursors, heap, p := OpenCursors(inputs, tables);
    StartOfMerge(tables, p, dropObsolete, now);
    ReadAscending(inputs, tables);
    var writer := new Writer(dir, temp, bitsPerKey);
    ok, written, dropped, out := MergeAll(cursors, heap, writer, dropObsolete, now, tables, p, old(dir.Now()));
    if !ok { return; }
    label Finishing:
    OnlyTouchedCounts(old(dir.Now()), dir.Now(), temp);
    ok := writer.Finish();
    OnlyTouchedCounts(old@Finishing(dir.Now()), dir.Now(), temp);
    OnlyTouchedTransitive(old(dir.Now()), old@Finishing(dir.Now()), dir.Now(), temp);
  }

  lemma ReadAscending(inputs: seq<Sstable>, tables: seq<Table>)
    requires AllRead(inputs, tables)
    ensures AllAscending(tables)
  {
    hide Ascending;
  }

  lemma StartOfMerge(tables: seq<Table>, p: Positions, drop: bool, now: int)
    requires InRange(tables, p) && forall i :: 0 <= i < |p| ==> p[i] == 0
    ensures Split(tables, p, None) && MergedUpTo(tables, None, [], drop, now)
    ensures TakenBy(p) == 0
  {
    TakenEnds(tables, p);
  }

  lemma HeapInRange(heap: Heap, tables: seq<Table>, p: Positions)
    requires InRange(tables, p) && IsHeap(heap, tables, p)
    ensures forall i :: i in heap ==> i < |p| && p[i] < |tables[i]| && heap[i] == tables[i][p[i]].key
  {
  }

  lemma HeapEmpty(heap: Heap, tables: seq<Table>, p: Positions)
    requires InRange(tables, p) && IsHeap(heap, tables, p) && heap == map[]
    ensures forall i :: 0 <= i < |p| ==> p[i] == |tables[i]|
  {
  }

  lemma MergedIsBare(tables: seq<Table>, previous: Option<Bytes>, out: Table, drop: bool, now: int)
    requires MergedUpTo(tables, previous, out, drop, now)
    ensures Bare(out)
  {
  }

  lemma {:induction false} TakenBounded(tables: seq<Table>, p: Positions)
    requires InRange(tables, p)
    ensures TakenBy(p) <= TotalRows(tables)
  {
    if p != [] { TakenBounded(tables[1..], p[1..]); }
  }
}
