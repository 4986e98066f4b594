/** The two stretches in which a crash does not leave the map as it was: a merge that drops
    dead rows, between its rename and its last unlink, and the unlinks of a clear. What a
    restart reads from such a disk, in terms of the disk the operation started on. */
module Exposure {
  import opened ByteStrings
  import opened Rows
  import opened WalCodec
  import opened FileNames
  import opened FileSystem
  import opened StoreModel
  import opened DiskSteps
  import opened Engine
  import opened Compaction
  import opened MergeLaws
  import opened TierWalk
  import opened StoreSteps
  import Bloom
  import SstableFormat

  // ---------------------------------------------------------------- a dropping merge

  /** `d` is `start` with the chosen run, which reaches the oldest table, renamed over by its
      merge and all but the `n` newest of its other inputs still there. All of these are
      determined by the two disks. */
  ghost predicate MergeCut(start: Disk, d: Disk, ts: seq<Numbered>, log: seq<Record>, out: Table, begin: nat, n: nat,
                           now: int) {
    && Holds(start, ts) && LogHolds(start, log) && LogHolds(d, log)
    && begin + TRIGGER <= |ts| && FirstTier(SizesOf(start, ts), |ts|) == Choice(begin, |ts| - begin)
    && IsMerge(RowsOf(ts[begin..]), out, true, now)
    && 0 < n < |ts| - begin && Holds(d, MidMerge(ts, begin, |ts| - begin, out, n))
  }

  /** Reads are as before, except that a dropped key that nothing newer answers is read from
      the inputs that are left. */
  ghost predicate ReadsLeftovers(newer: seq<Table>, run: seq<Table>, left: seq<Table>, before: Model, after: Model,
                                 now: int) {
    forall key: Bytes ::
      Read(after, key, now) ==
        if FirstHit(newer, key).None? && Dead(FirstHit(run, key), now) then Visible(FirstHit(left, key), now)
        else Read(before, key, now)
  }

  ghost predicate CutReads(d: Disk, ts: seq<Numbered>, log: seq<Record>, begin: nat, n: nat, before: Model,
                           after: Model, now: int)
    requires begin + n <= |ts|
  {
    var newer := [Replayed([], log)] + RowsOf(ts[..begin]);
    var run, left := RowsOf(ts[begin..]), RowsOf(ts[begin + n..]);
    && ReadsLeftovers(newer, run, left, before, after, now)
    && (Recovers(d, before, now) <==> NothingResurfaces(newer, run, left, now))
  }

  /** What a restart reads from a disk inside a dropping merge that began on `start`. */
  ghost predicate MergeLeaves(start: Disk, d: Disk, before: Model, after: Model, now: int) {
    exists ts, log, out, begin, n ::
      MergeCut(start, d, ts, log, out, begin, n, now) && CutReads(d, ts, log, begin, n, before, after, now)
  }

  lemma DropMergeReads(e: Engine, g: Merge, n: nat, d: Disk)
    requires Consistent(e) && IsMergeOf(e, g) && g.drop && n < g.len && MidFiles(e, g, n, d)
    ensures var mid := MidMerge(e.ts, g.begin, g.len, g.out, n);
      ReadsLeftovers([Replayed([], e.log)] + RowsOf(e.ts[..g.begin]), RunOf(e, g),
                     RowsOf(e.ts[g.begin + n..g.begin + g.len]), e.model, ViewOf(Restored(d, mid), e.clock), e.clock)
  {
    hide FirstHit, Search, IsMerge, Holds, Scan, Replayed, Visible, Dead, MidMerge, DrawnFrom, Consistent, RowsOf,
      ViewOf, Restored, Read;
    var mid := MidMerge(e.ts, g.begin, g.len, g.out, n);
    var newer, run := [Replayed([], e.log)] + RowsOf(e.ts[..g.begin]), RunOf(e, g);
    var left := RowsOf(e.ts[g.begin + n..g.begin + g.len]);
    MidRestored(e, g, n, d);
    MidMergeRows(e.ts, g.begin, g.len, g.out, n);
    assert e.ts[g.begin + g.len..] == [];
    Regroup(Replayed([], e.log), RowsOf(e.ts[..g.begin]), g.out, left, run);
    assert Restored(d, mid) == newer + [g.out] + left;
    ViewAgrees(Restored(d, mid), e.clock);
    forall key: Bytes
      ensures Read(ViewOf(Restored(d, mid), e.clock), key, e.clock) ==
        if FirstHit(newer, key).None? && Dead(FirstHit(run, key), e.clock) then Visible(FirstHit(left, key), e.clock)
        else Read(e.model, key, e.clock)
    {
      LeftoversRead(newer, run, left, g.out, e.clock, key);
      assert Visible(FirstHit(newer + [g.out] + left, key), e.clock) ==
        Read(ViewOf(Restored(d, mid), e.clock), key, e.clock);
      assert Visible(FirstHit(newer + run, key), e.clock) == Read(e.model, key, e.clock);
    }
  }

  /** Every exposed disk of a merge recovers to such a map. */
  lemma ExposedLeaves(e: Engine, g: Merge, d: Disk) returns (after: Model)
    requires Consistent(e) && IsMergeOf(e, g) && g.drop && Chosen(e, g) && ExactDisk(e, g, d)
    ensures Recovers(d, after, e.clock) && MergeLeaves(e.files, d, e.model, after, e.clock)
  {
    hide FirstHit, IsMerge, Holds, Scan, Replayed, NothingResurfaces, ReadsLeftovers, MidMerge, RowsOf, ViewOf,
      Restored, FirstTier;
    hide Agrees, SameView, Recovers, RecoversWith;
    var n: nat :| ExactAt(e, g, d, n);
    var mid := MidMerge(e.ts, g.begin, g.len, g.out, n);
    after := ViewOf(Restored(d, mid), e.clock);
    DropMergeReads(e, g, n, d);
    HeldRecovers(d, mid, e.clock);
    RecoversIntro(d, mid, after, e.clock);
    assert e.ts[g.begin..] == e.ts[g.begin..g.begin + g.len];
    assert e.ts[g.begin + n..] == e.ts[g.begin + n..g.begin + g.len];
    assert MergeCut(e.files, d, e.ts, e.log, g.out, g.begin, n, e.clock);
    assert CutReads(d, e.ts, e.log, g.begin, n, e.model, after, e.clock);
  }

  lemma RecoversIntro(d: Disk, ts: seq<Numbered>, m: Model, clock: int)
    requires RecoversWith(d, ts, m, clock)
    ensures Recovers(d, m, clock)
  {
  }

  // ---------------------------------------------------------------- a clear

  /** `d` is `start` without its `n` newest tables. */
  ghost predicate ClearCut(start: Disk, d: Disk, ts: seq<Numbered>, log: seq<Record>, n: nat) {
    && Holds(start, ts) && LogHolds(start, log) && LogHolds(d, log)
    && 0 < n <= |ts| && Holds(d, ts[n..])
  }

  /** What a restart reads from a disk inside a clear that began on `start`: the log over the
      oldest tables. */
  ghost predicate ClearLeaves(start: Disk, d: Disk, after: Model, now: int) {
    exists ts, log, n ::
      ClearCut(start, d, ts, log, n) && Agrees([Replayed([], log)] + RowsOf(ts[n..]), after, now)
  }

  lemma ClearedLeaves(e: Engine, d: Disk, now: int) returns (after: Model)
    requires Consistent(e) && PartlyCleared(e, d)
    ensures Recovers(d, after, now) && ClearLeaves(e.files, d, after, now)
  {
    hide Holds, Scan, Replayed, RowsOf, ViewOf, Agrees, SameView, Recovers;
    var n: nat :| ClearedAt(e, d, n);
    after := ViewOf(Restored(d, e.ts[n..]), now);
    HeldRecovers(d, e.ts[n..], now);
    RecoversIntro(d, e.ts[n..], after, now);
    assert ClearCut(e.files, d, e.ts, e.log, n);
    assert Agrees([Replayed([], e.log)] + RowsOf(e.ts[n..]), after, now);
  }

  // ---------------------------------------------------------------- a deleted key comes back

  function TableFile(rows: Table): Bytes {
    SstableFormat.File(rows, 10)
  }

  lemma SmallTable(r: Row)
    requires Bare([r])
    ensures IsTableFile(TableFile([r]), [r]) && IsTableFile(TableFile([]), [])
  {
    SstableFormat.DataSnoc([], r);
    assert [] + [r] == [r];
    assert |SstableFormat.EncodeRow(r)| <= 17 + |r.key| + |r.value|;
    hide SstableFormat.File, SstableFormat.DataBlock, SstableFormat.EncodeRow;
    assert Ascending([r]) && Ascending([]) && Bare([]);
  }

  /** Four tables, as a store leaves them that wrote a key three times and then deleted it,
      flushing each time. */
  ghost function Flushed(live: Row): seq<Numbered> {
    [Numbered(4, [Tombstone(live.key)]), Numbered(3, [live]), Numbered(2, [live]), Numbered(1, [live])]
  }

  ghost predicate FileIs(d: Disk, n: nat, file: Bytes)
    requires n < TWO_64
  {
    TableName(n) in d && d[TableName(n)] == file
  }

  ghost predicate FlushedOn(d: Disk, live: Row) {
    && FileIs(d, 4, TableFile([Tombstone(live.key)])) && FileIs(d, 3, TableFile([live]))
    && FileIs(d, 2, TableFile([live])) && FileIs(d, 1, TableFile([live]))
  }

  lemma SmallFile(r: Row)
    requires Bare([r]) && r.stamp == 0
    ensures |TableFile([r])| == 66 + 2 * |r.key| + |r.value|
  {
    OneRow(r);
    OneEntry(r);
    hide Bloom.Block, SstableFormat.Footer, SstableFormat.IndexBlock, SstableFormat.DataBlock, SstableFormat.Index;
    assert Bloom.BitsFor(1, 10) == 64;
  }

  lemma OneRow(r: Row)
    requires r.stamp == 0
    ensures |SstableFormat.DataBlock([r])| == 9 + |r.key| + |r.value|
  {
    SstableFormat.DataSnoc([], r);
    assert [] + [r] == [r];
  }

  lemma OneEntry(r: Row)
    ensures |SstableFormat.IndexBlock(SstableFormat.Index([r]))| == 16 + |r.key|
  {
    assert [r][..0] == [] && SstableFormat.ProgressAfter([]) == SstableFormat.Progress([], 0, 0);
    assert SstableFormat.ProgressAfter([r]) == SstableFormat.Advance(SstableFormat.ProgressAfter([]), r);
    var entry := SstableFormat.IndexEntry(r.key, 0);
    assert SstableFormat.Index([r]) == [entry];
    assert SstableFormat.EncodeEntries([entry]) == SstableFormat.EncodeEntry(entry) + SstableFormat.EncodeEntries([]);
  }

  /** The tier walk takes these four exactly when the value is not too long. */
  lemma FlushedTier(live: Row, files: Disk)
    requires !live.tombstone && live.stamp == 0 && FlushedOn(files, live)
    ensures FirstTier(SizesOf(files, Flushed(live)), 4) ==
      if |live.value| <= 66 + 2 * |live.key| then Choice(0, 4) else Choice(0, 0)
  {
    hide TableName, TableFile;
    SmallFile(live);
    SmallFile(Tombstone(live.key));
    var sizes := SizesOf(files, Flushed(live));
    assert sizes[1] == sizes[2] == sizes[3] == 66 + 2 * |live.key| + |live.value|;
    assert sizes[0] == 66 + 2 * |live.key|;
    FourSizes(sizes);
  }

  lemma FourSizes(sizes: seq<nat>)
    requires |sizes| == 4 && 0 < sizes[0] <= sizes[1] == sizes[2] == sizes[3]
    ensures FirstTier(sizes, 4) == if sizes[1] <= RATIO * sizes[0] then Choice(0, 4) else Choice(0, 0)
  {
    assert Smallest(sizes, 3, 4) == sizes[3] && Smallest(sizes, 2, 4) == sizes[3] && Smallest(sizes, 1, 4) == sizes[3];
    assert TierBegin(sizes, 3, 4) == TierBegin(sizes, 2, 4) == TierBegin(sizes, 1, 4);
    assert TierBegin(sizes, 1, 1) == TierBegin(sizes, 0, 1);
  }

  lemma FlushedDisk(live: Row) returns (d: Disk)
    requires !live.tombstone && live.stamp == 0
    ensures Holds(d, Flushed(live)) && LogHolds(d, []) && FlushedOn(d, live)
  {
    hide TableName, SequenceOf, TableFile, Scan, IsTableFile, Holds, FileIs;
    SmallTable(live);
    SmallTable(Tombstone(live.key));
    EmptyLog();
    var empty: Disk := map[WAL := []];
    NoFlushes(empty);
    var ts: seq<Numbered> := [Numbered(3, [live]), Numbered(2, [live]), Numbered(1, [live])];
    assert ts == [ts[0]] + ts[1..] && ts[1..] == [ts[1]] + ts[2..] && ts[2..] == [ts[2]] + [];
    var one := Newest(empty, [], ts[2]);
    var two := Newest(one, ts[2..], ts[1]);
    var three := Newest(two, ts[1..], ts[0]);
    d := Newest(three, ts, Numbered(4, [Tombstone(live.key)]));
    assert Flushed(live) == [Numbered(4, [Tombstone(live.key)])] + ts;
    assert FileIs(d, 3, TableFile([live]));
    assert FileIs(three, 2, TableFile([live]));
    assert FileIs(two, 1, TableFile([live])) && FileIs(three, 1, TableFile([live]));
  }

  lemma NoFlushes(d: Disk)
    requires d.Keys == {WAL}
    ensures Holds(d, [])
  {
    hide TableName, SequenceOf, IsTableFile;
    OtherNames();
  }

  /** One more flush. */
  lemma Newest(disk: Disk, ts: seq<Numbered>, t: Numbered) returns (d: Disk)
    requires Holds(disk, ts) && t.sequence < TWO_64 && IsTableFile(TableFile(t.rows), t.rows) && WAL in disk
    requires forall i :: 0 <= i < |ts| ==> ts[i].sequence < t.sequence
    ensures Holds(d, [t] + ts) && WAL in d && LogOf(d) == LogOf(disk) && FileIs(d, t.sequence, TableFile(t.rows))
    ensures forall n: nat, file :: n < t.sequence && FileIs(disk, n, file) ==> FileIs(d, n, file)
  {
    hide TableName, SequenceOf, TableFile, IsTableFile, Holds;
    HoldsNewest(disk, ts, t, TableFile(t.rows));
    d := disk[TableName(t.sequence) := TableFile(t.rows)];
    forall n: nat, file | n < t.sequence && FileIs(disk, n, file) ensures FileIs(d, n, file) {
      TableNamesDiffer(n, t.sequence);
    }
  }

  lemma FlushedRows(live: Row)
    ensures |Flushed(live)| == 4 && Flushed(live)[0].sequence == 4
    ensures RowsOf(Flushed(live)) == Overwritten(live) && Flushed(live)[0..4] == Flushed(live)
    ensures RowsOf(Flushed(live)[1..4]) == Overwritten(live)[1..] && RowsOf(Flushed(live)[..0]) == []
    ensures forall i :: 0 <= i < 4 ==> Flushed(live)[i].sequence < 5
  {
  }

  lemma FlushedEngine(live: Row, files: Disk, now: int)
    requires !live.tombstone && live.stamp == 0 && Holds(files, Flushed(live)) && LogHolds(files, [])
    ensures Consistent(Engine([], Flushed(live), 5, [], files, map[], now))
    ensures Replayed([], []) == []
  {
    FlushedRows(live);
    DeletedKeyResurfaces(live, now);
    hide FirstHit, Search, IsMerge, Holds, LogHolds, NothingResurfaces, Flushed, Overwritten, RowsOf;
    var run := Overwritten(live);
    assert Replayed([], []) == [] && Ascending([]) && Bare([]) && SameView([], [], now);
    forall k: Bytes ensures Visible(FirstHit([[]] + run, k), now) == Read(map[], k, now) {
      TopFirst([], run, k);
      SearchMiss([], k);
    }
    assert Agrees([[]] + run, map[], now);
  }

  lemma FlushedMerge(live: Row, files: Disk, now: int) returns (g: Merge, d: Disk)
    requires !live.tombstone && live.stamp == 0 && Holds(files, Flushed(live)) && LogHolds(files, [])
    ensures var e := Engine([], Flushed(live), 5, [], files, map[], now);
      IsMergeOf(e, g) && g == Merge(0, 4, [], true) && MidFiles(e, g, 1, d)
  {
    FlushedRows(live);
    DeletedKeyResurfaces(live, now);
    hide FirstHit, Search, IsMerge, Holds, Scan, NothingResurfaces, TableName, TableFile, IsTableFile, MidMerge;
    hide Flushed, Overwritten, RowsOf, Visible, Dead;
    g := Merge(0, 4, [], true);
    SmallTable(live);
    HoldsMidMerge(files, Flushed(live), 0, 4, TableFile([]), []);
    TableNameIsNoOther(4);
    d := files[TableName(4) := TableFile([])];
  }

  /** A store whose key was deleted, the merge of all its tables that the tier walk chooses,
      the disk right after the rename: a restart from it does not read as the store did, but
      has the key again. The tables are close enough in size to be chosen exactly when the
      value is no longer than this. */
  lemma DeletedKeyComesBack(key: Bytes, value: Bytes, now: int) returns (e: Engine, g: Merge, d: Disk, after: Model)
    requires Short(key) && Short(value)
    ensures Consistent(e) && e.clock == now && Read(e.model, key, now).None?
    ensures IsMergeOf(e, g) && g.drop && g.begin + g.len == |e.ts| && MidFiles(e, g, 1, d)
    ensures Chosen(e, g) <==> |value| <= 66 + 2 * |key|
    ensures !Recovers(d, e.model, now)
    ensures Recovers(d, after, now) && Read(after, key, now) == Some(Stamped(value, 0))
    ensures Chosen(e, g) ==> MergeLeaves(e.files, d, e.model, after, now)
  {
    hide Consistent, IsMergeOf, MidFiles, FlushedOn, FirstTier, MergeLeaves, Recovers, Holds, LogHolds, SizesOf;
    var live: Row := Row(key, value, false, 0);
    var files := FlushedDisk(live);
    FlushedEngine(live, files, now);
    g, d := FlushedMerge(live, files, now);
    e := Engine([], Flushed(live), 5, [], files, map[], now);
    FlushedTier(live, files);
    after := KeyBack(e, g, d, live);
    if Chosen(e, g) {
      var other := CutLeaves(e, g, d);
      SameReads(d, after, other, key, now);
      after := other;
    }
  }

  lemma CutLeaves(e: Engine, g: Merge, d: Disk) returns (after: Model)
    requires Consistent(e) && IsMergeOf(e, g) && g.drop && Chosen(e, g) && 1 < g.len && MidFiles(e, g, 1, d)
    ensures Recovers(d, after, e.clock) && MergeLeaves(e.files, d, e.model, after, e.clock)
  {
    hide Consistent, MidFiles, Recovers, NothingResurfaces, MergeLeaves, Replayed, RowsOf, FirstTier, IsMerge;
    MidDropExact(e, g, 1, d);
    assert ExactAt(e, g, d, 1);
    after := ExposedLeaves(e, g, d);
  }

  /** A disk recovers to one map. */
  lemma SameReads(d: Disk, a: Model, b: Model, key: Bytes, now: int)
    requires Recovers(d, a, now) && Recovers(d, b, now)
    ensures Read(a, key, now) == Read(b, key, now)
  {
    hide Holds, Restored, FirstHit, Read, Visible;
    var ts :| RecoversWith(d, ts, a, now);
    var us :| RecoversWith(d, us, b, now);
    HoldsUnique(d, ts, us);
    assert Visible(FirstHit(Restored(d, ts), key), now) == Read(a, key, now);
    assert Visible(FirstHit(Restored(d, us), key), now) == Read(b, key, now);
  }

  lemma FlushedParts(e: Engine, g: Merge, live: Row)
    requires g == Merge(0, 4, [], true) && e.ts == Flushed(live) && e.log == []
    ensures g.begin + g.len <= |e.ts|
    ensures [Replayed([], e.log)] + RowsOf(e.ts[..g.begin]) == [[]] && RunOf(e, g) == Overwritten(live)
    ensures RowsOf(e.ts[g.begin + 1..g.begin + g.len]) == Overwritten(live)[1..]
  {
    FlushedRows(live);
    hide Flushed, Overwritten, RowsOf;
  }

  lemma KeyBack(e: Engine, g: Merge, d: Disk, live: Row) returns (after: Model)
    requires Consistent(e) && IsMergeOf(e, g) && MidFiles(e, g, 1, d) && g == Merge(0, 4, [], true)
    requires e.ts == Flushed(live) && e.log == [] && !live.tombstone && live.stamp == 0
    ensures !Recovers(d, e.model, e.clock)
    ensures Recovers(d, after, e.clock) && Read(after, live.key, e.clock) == Some(Stamped(live.value, 0))
  {
    FlushedParts(e, g, live);
    DeletedKeyResurfaces(live, e.clock);
    hide FirstHit, Search, IsMerge, IsMergeOf, Holds, Scan, NothingResurfaces, ViewOf, Restored, MidMerge, Consistent,
      MidFiles;
    hide Flushed, Overwritten, RowsOf, RunOf, Visible, Dead, Recovers, RecoversWith, Replayed, Read;
    MidDropExact(e, g, 1, d);
    MidHolds(e, g, 1, d);
    var mid := MidMerge(e.ts, g.begin, g.len, g.out, 1);
    after := ViewOf(Restored(d, mid), e.clock);
    HeldRecovers(d, mid, e.clock);
    RecoversIntro(d, mid, after, e.clock);
    DropMergeReads(e, g, 1, d);
  }

  lemma MidHolds(e: Engine, g: Merge, n: nat, d: Disk)
    requires g.begin + g.len <= |e.ts| && MidFiles(e, g, n, d)
    ensures 0 < n <= g.len && Holds(d, MidMerge(e.ts, g.begin, g.len, g.out, n))
  {
  }
}
