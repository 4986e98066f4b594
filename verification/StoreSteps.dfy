/** What the steps of each operation do to the engine, one lemma per step: the Store class
    performs the steps and calls these. */
module StoreSteps {
  import opened ByteStrings
  import opened Rows
  import opened WalCodec
  import opened FileNames
  import opened FileSystem
  import opened StoreModel
  import opened DiskSteps
  import opened Engine
  import opened Memtable
  import opened SstableReader
  import opened StoreRecovery
  import opened Compaction
  import opened MergeLaws
  import opened TierWalk
  import SstableFormat

  /** Names a restart looks at: tables and the log. */
  ghost predicate Recoverable(name: string) {
    !Scratch(name)
  }

  ghost predicate SameFile(a: Disk, b: Disk, name: string) {
    (name in a <==> name in b) && (name in a ==> a[name] == b[name])
  }

  /** Whatever is unsynced among the tables was so before and has not been touched. */
  ghost predicate DirtKept(a: State, b: State) {
    forall name :: Recoverable(name) && name != WAL && name in b.dirtyData ==>
      name in a.dirtyData && SameFile(a.files, b.files, name)
  }

  ghost predicate NamesSettled(b: State) {
    forall name :: Recoverable(name) ==> name !in b.dirtyNames
  }

  /** What every operation keeps of a directory: nothing a restart looks at has become
      unsynced, the log's bytes aside; a directory sync leaves no name unsynced, and nothing
      else does; and history and trace end with what there is. */
  ghost predicate Follows(a: State, b: State) {
    && Recorded(a, b) && DirtKept(a, b)
    && (forall name :: Recoverable(name) && name in b.dirtyNames ==> name in a.dirtyNames)
    && (forall name :: Recoverable(name) && name in a.dirtyNames && a.dirSyncs == b.dirSyncs ==> name in b.dirtyNames)
    && a.dirSyncs <= b.dirSyncs && (a.dirSyncs < b.dirSyncs ==> NamesSettled(b))
  }

  lemma Elsewhere(a: Disk, b: Disk, scratch: string, name: string)
    requires SameExcept(b, a, scratch) && name != scratch
    ensures SameFile(a, b, name)
  {
    assert name in a - {scratch} <==> name in a;
    assert name in b - {scratch} <==> name in b;
    assert name in a ==> (a - {scratch})[name] == (b - {scratch})[name];
  }

  lemma FollowsScratch(a: State, b: State, scratch: string)
    requires OnlyTouched(a, b, scratch) && Scratch(scratch)
    ensures Follows(a, b)
  {
    hide SequenceOf, AllExcept, SameExcept;
    forall name | Recoverable(name)
      ensures name in b.dirtyNames <==> name in a.dirtyNames
      ensures name in b.dirtyData ==> name in a.dirtyData && SameFile(a.files, b.files, name)
    {
      assert name in b.dirtyNames - {scratch} <==> name in b.dirtyNames;
      assert name in a.dirtyNames - {scratch} <==> name in a.dirtyNames;
      assert name in b.dirtyData - {scratch} <==> name in b.dirtyData;
      assert name in a.dirtyData - {scratch} <==> name in a.dirtyData;
      Elsewhere(a.files, b.files, scratch, name);
    }
  }

  lemma FollowsAppend(a: State, b: State, data: Bytes)
    requires Appended(a, b, WAL, data)
    ensures Follows(a, b)
  {
    hide SequenceOf, IsAppend;
    forall name | name in b.dirtyData && name != WAL ensures name in a.dirtyData {
      assert name in b.dirtyData - {WAL};
      assert name in a.dirtyData - {WAL};
    }
  }

  lemma FollowsTransitive(a: State, b: State, c: State)
    requires Follows(a, b) && Follows(b, c)
    ensures Follows(a, c)
  {
    hide SequenceOf;
  }

  lemma Still(a: State)
    ensures Follows(a, a)
  {
  }

  /** Syncing the log. */
  lemma FollowsSync(a: State, b: State)
    requires b.files == a.files && b.history == a.history && b.dirtyNames == a.dirtyNames && b.dirSyncs == a.dirSyncs
    requires Traces(a, b)
    requires b.dirtyData == a.dirtyData || b.dirtyData == a.dirtyData - {WAL}
    ensures Follows(a, b)
  {
  }

  lemma OneRecord(rows: Table, m: Model, r: Record)
    ensures EncodeAll([r]) == Encode(r)
    ensures Replayed(rows, [r]) == Put(rows, RowOf(r))
    ensures ApplyAll(m, [r]) == Apply(m, r)
  {
    hide Encode, Apply;
    ReplayedOne(rows, r);
    assert [r][1..] == [];
    assert EncodeAll([r]) == Encode(r) + EncodeAll([]);
    assert ApplyAll(Apply(m, r), []) == Apply(m, r);
  }

  lemma WriteDone(a: State, b: State, c: State, m: Model, batch: seq<Record>, now: int)
    requires a.history <= b.history <= c.history
    requires Follows(a, b) && Follows(b, c)
    requires Safe(Since(a, b), m, batch, now) && Safe(Since(b, c), ApplyAll(m, batch), [], now)
    ensures Follows(a, c) && Safe(Since(a, c), m, batch, now)
  {
    hide Follows, Safe;
    FollowsTransitive(a, b, c);
    SafeWithin(Since(b, c), m, batch, now);
    SafeChain(a, b, c, m, batch, now);
  }

  lemma ConsistentAgrees(e: Engine, now: int)
    requires Consistent(e) && e.clock <= now
    ensures Agrees([e.mem] + RowsOf(e.ts), e.model, now)
  {
    hide Agrees;
    AgreesLater([e.mem] + RowsOf(e.ts), e.model, e.clock, now);
  }

  function Deletions(keys: seq<Bytes>, now: int): (rs: seq<Record>)
    requires IsInt64(now) && forall i :: 0 <= i < |keys| ==> Short(keys[i])
    ensures |rs| == |keys| && forall i :: 0 <= i < |keys| ==> rs[i] == Mutation(DeleteOp, now, 0, keys[i], [])
    ensures Normal(rs)
  {
    seq(|keys|, i requires 0 <= i < |keys| => Mutation(DeleteOp, now, 0, keys[i], []))
  }

  /** The distinct keys among these that can be seen. */
  ghost function LiveKeys(m: Model, keys: seq<Bytes>, now: int): set<Bytes> {
    set key | key in keys && Read(m, key, now).Some?
  }

  lemma LiveKeysStep(m: Model, keys: seq<Bytes>, now: int, i: nat)
    requires i < |keys|
    ensures |LiveKeys(m, keys[..i + 1], now)| ==
      |LiveKeys(m, keys[..i], now)| + if keys[i] !in keys[..i] && Read(m, keys[i], now).Some? then 1 else 0
  {
    hide Read;
    var before, after := LiveKeys(m, keys[..i], now), LiveKeys(m, keys[..i + 1], now);
    assert keys[..i + 1] == keys[..i] + [keys[i]];
    if keys[i] !in keys[..i] && Read(m, keys[i], now).Some? {
      assert after == before + {keys[i]};
    } else {
      assert after == before;
    }
  }

  lemma {:induction false} DeletedRead(m: Model, keys: seq<Bytes>, now: int, i: nat, key: Bytes)
    requires IsInt64(now) && (forall n :: 0 <= n < |keys| ==> Short(keys[n])) && i <= |keys|
    ensures Read(ApplyAll(m, Deletions(keys, now)[..i]), key, now) ==
      if key in keys[..i] then None else Read(m, key, now)
  {
    var batch := Deletions(keys, now);
    if i > 0 {
      DeletedRead(m, keys, now, i - 1, key);
      assert batch[..i] == batch[..i - 1] + [batch[i - 1]];
      assert keys[..i] == keys[..i - 1] + [keys[i - 1]];
      ApplyAllConcat(m, batch[..i - 1], [batch[i - 1]]);
      OneRecord([], ApplyAll(m, batch[..i - 1]), batch[i - 1]);
    } else {
      assert batch[..0] == [];
    }
  }

  lemma NothingDeleted(m: Model, mem: Table, batch: seq<Record>)
    ensures Replayed(mem, batch[..0]) == mem && ApplyAll(m, batch[..0]) == m
  {
    assert batch[..0] == [];
  }

  lemma ReplayStep(m: Model, mem: Table, batch: seq<Record>, i: nat)
    requires i < |batch|
    ensures Replayed(mem, batch[..i + 1]) == Put(Replayed(mem, batch[..i]), RowOf(batch[i]))
    ensures ApplyAll(m, batch[..i + 1]) == Apply(ApplyAll(m, batch[..i]), batch[i])
  {
    hide Put, Apply;
    assert batch[..i + 1] == batch[..i] + [batch[i]];
    ReplayedConcat(mem, batch[..i], [batch[i]]);
    ApplyAllConcat(m, batch[..i], [batch[i]]);
    OneRecord(Replayed(mem, batch[..i]), ApplyAll(m, batch[..i]), batch[i]);
  }

  lemma SweepSameView(rows: Table, cursor: Bytes, now: int, budget: nat)
    requires Ascending(rows)
    ensures SameView(rows, Sweep(Sweeper(rows, cursor), now, budget).rows, now)
  {
    hide Search, Less, LowerBound;
    var lo := LowerBound(rows, cursor);
    forall key: Bytes
      ensures Search(rows, key).Some? == Search(SweepWindow(rows, lo, lo + budget, now), key).Some?
      ensures Visible(Search(rows, key), now) == Visible(Search(SweepWindow(rows, lo, lo + budget, now), key), now)
    {
      SweepInvisible(rows, lo, lo + budget, now, key);
    }
  }

  /** One state inside the exposed stretch, and the exact condition for it to be harmless. */
  ghost predicate ExactDisk(e: Engine, g: Merge, d: Disk) {
    exists left :: ExactAt(e, g, d, left)
  }

  ghost predicate ExactAt(e: Engine, g: Merge, d: Disk, left: nat) {
    && 0 < left < g.len && g.begin + g.len <= |e.ts| && MidFiles(e, g, left, d)
    && (Recovers(d, e.model, e.clock) <==>
        NothingResurfaces([Replayed([], e.log)] + RowsOf(e.ts[..g.begin]), RunOf(e, g),
                          RowsOf(e.ts[g.begin + left..g.begin + g.len]), e.clock))
  }

  /** Only a merge that drops obsolete rows is ever exposed, and then exactly so far. */
  ghost predicate MergeExact(e: Engine, g: Merge, moments: seq<Moment>) {
    forall i :: 0 <= i < |moments| && moments[i].exposed ==>
      g.drop && IsMergeOf(e, g) && ExactDisk(e, g, moments[i].disk)
  }

  lemma NothingExposed(e: Engine, g: Merge, moments: seq<Moment>)
    requires forall i :: 0 <= i < |moments| ==> !moments[i].exposed
    ensures MergeExact(e, g, moments)
  {
  }

  lemma MergeExactChain(e: Engine, g: Merge, a: State, b: State, c: State)
    requires a.history <= b.history <= c.history
    requires MergeExact(e, g, Since(a, b)) && MergeExact(e, g, Since(b, c))
    ensures MergeExact(e, g, Since(a, c))
  {
    hide IsMergeOf, ExactDisk;
    var all := Since(a, c);
    forall i | 0 <= i < |all| && all[i].exposed ensures g.drop && IsMergeOf(e, g) && ExactDisk(e, g, all[i].disk) {
      if |a.history| + i < |b.history| {
        assert all[i] == Since(a, b)[i];
      } else {
        assert all[i] == Since(b, c)[|a.history| + i - |b.history|];
      }
    }
  }

  /** The condition does not look at scratch files. */
  lemma MergeExactFiles(e: Engine, files: Disk, g: Merge, moments: seq<Moment>)
    requires MergeExact(e.(files := files), g, moments)
    ensures MergeExact(e, g, moments)
  {
    hide IsMerge, NothingResurfaces, Recovers, Holds, LogHolds;
    forall i | 0 <= i < |moments| && moments[i].exposed ensures ExactDisk(e, g, moments[i].disk) {
      var left :| ExactAt(e.(files := files), g, moments[i].disk, left);
      assert ExactAt(e, g, moments[i].disk, left);
    }
  }

  /** Every state between the rename and the last unlink: safe outside the exposed stretch,
      exact inside it. */
  lemma MidMoment(e: Engine, g: Merge, left: nat, files: Disk, exposed: bool)
    requires Consistent(e) && IsMergeOf(e, g) && MidFiles(e, g, left, files)
    requires exposed == (g.drop && left < g.len)
    ensures !exposed ==> SafeDisk(files, e.model, [], e.clock)
    ensures exposed ==> g.drop && IsMergeOf(e, g) && ExactDisk(e, g, files)
  {
    hide Consistent, MidFiles, SafeDisk, NothingResurfaces, Recovers, IsMerge;
    MidLeft(e, g, left, files);
    if exposed {
      MidDropExact(e, g, left, files);
      assert ExactAt(e, g, files, left);
    } else if g.drop {
      MergedConsistent(e, g, files);
    } else {
      MidMergeSafe(e, g, left, files);
    }
  }

  lemma MidLeft(e: Engine, g: Merge, left: nat, files: Disk)
    requires g.begin + g.len <= |e.ts| && MidFiles(e, g, left, files)
    ensures 0 < left <= g.len
  {
    hide Holds;
  }

  /** What the steps of a merge between two states promise. */
  ghost predicate SwapSafe(e: Engine, g: Merge, a: State, b: State) {
    && a.history <= b.history
    && SafeOutside(Since(a, b), e.model, e.clock)
    && MergeExact(e, g, Since(a, b))
  }

  lemma NoSteps(e: Engine, g: Merge, a: State)
    ensures SwapSafe(e, g, a, a)
  {
    NoMoments(a, e.model, e.clock);
    SafeIsOutside(Since(a, a), e.model, e.clock);
    NothingExposed(e, g, Since(a, a));
  }

  lemma SameHistory(e: Engine, g: Merge, a: State, b: State, c: State)
    requires SwapSafe(e, g, a, b) && b.history == c.history
    ensures SwapSafe(e, g, a, c)
  {
  }

  lemma OneMoment(e: Engine, g: Merge, a: State, b: State, c: State)
    requires SwapSafe(e, g, a, b) && c.history == b.history + [Moment(c.files, c.exposed)]
    requires !c.exposed ==> SafeDisk(c.files, e.model, [], e.clock)
    requires c.exposed ==> g.drop && IsMergeOf(e, g) && ExactDisk(e, g, c.files)
    ensures SwapSafe(e, g, a, c)
  {
    hide IsMergeOf, ExactDisk, SafeDisk;
    assert Since(b, c) == [Moment(c.files, c.exposed)];
    OutsideChain(a, b, c, e.model, e.clock);
    MergeExactChain(e, g, a, b, c);
  }

  /** A directory sync at the end of it all. */
  lemma CleanNames(a: State, c: State)
    requires Recorded(a, c) && DirtKept(a, c) && c.dirtyNames == {} && a.dirSyncs < c.dirSyncs
    ensures Follows(a, c)
  {
  }

  lemma UnlinkKeeps(a: State, b: State, c: State, name: string)
    requires Recorded(a, b) && DirtKept(a, b) && Traces(b, c)
    requires c.files == b.files - {name} && c.dirtyData == b.dirtyData - {name}
    requires c.history == b.history + [Moment(c.files, c.exposed)]
    ensures Recorded(a, c) && DirtKept(a, c)
  {
    hide SequenceOf;
  }

  /** Nothing but what is synced, or what is exposed, has changed. */
  lemma SyncKeeps(a: State, b: State, c: State)
    requires Recorded(a, b) && DirtKept(a, b) && Traces(b, c)
    requires c.files == b.files && c.history == b.history && c.dirtyData == b.dirtyData
    ensures Recorded(a, c) && DirtKept(a, c)
  {
    hide SequenceOf;
  }

  lemma TruncateKeeps(a: State, b: State, c: State)
    requires Recorded(a, b) && DirtKept(a, b) && Traces(b, c)
    requires c.files == b.files[WAL := []] && c.dirtyData == b.dirtyData - {WAL}
    requires c.history == b.history + [Moment(c.files, c.exposed)]
    ensures Recorded(a, c) && DirtKept(a, c)
  {
    hide SequenceOf;
  }

  lemma RenameKeeps(a: State, c: State, source: string, target: string)
    requires source in a.files && source !in a.dirtyData && source != target && Traces(a, c)
    requires c.files == (a.files - {source})[target := a.files[source]] && c.dirtyData == a.dirtyData - {source, target}
    requires c.history == a.history + [Moment(c.files, c.exposed)]
    ensures Recorded(a, c) && DirtKept(a, c)
  {
    hide SequenceOf;
  }

  /** The files a merge renames over and unlinks are those of its inputs. */
  lemma RunNames(sstables: seq<Sstable>, e: Engine, g: Merge)
    requires OpenTables(sstables, e.ts) && Consistent(e) && IsMergeOf(e, g)
    ensures |sstables| == |e.ts| && 0 < g.len && g.begin + g.len <= |e.ts|
    ensures forall i :: 0 <= i < |e.ts| ==>
      sstables[i].name == TableName(e.ts[i].sequence) && sstables[i].name !in {WAL, COMPACT_TEMP}
  {
    hide TableName, Reads, IsMerge, Agrees, SameView, LogHolds, IsTableFile;
    forall i | 0 <= i < |e.ts|
      ensures sstables[i].name == TableName(e.ts[i].sequence) && sstables[i].name !in {WAL, COMPACT_TEMP}
    {
      assert IsOpen(sstables[i], e.ts[i]);
      assert HoldsTable(e.files, e.ts[i]);
      TableNameIsNoOther(e.ts[i].sequence);
    }
  }

  /** Both ways a merge can end leave the open tables in step with the list. */
  lemma MidTables(sstables: seq<Sstable>, e: Engine, g: Merge, files: Disk, useBloom: bool)
    requires OpenTables(sstables, e.ts) && IsMergeOf(e, g) && Consistent(Merged(e, g, files))
    ensures |sstables| == |e.ts| && 0 < g.len && g.begin + g.len <= |e.ts|
    ensures var mid, target := Merged(e, g, files).ts, sstables[g.begin].name;
      && g.begin < |mid| && mid[g.begin].rows == g.out && target == TableName(mid[g.begin].sequence)
      && target in files && target != WAL
      && OpenFile(target, files[target], useBloom).Some?
      && OpenTables(sstables[..g.begin] + [OpenFile(target, files[target], useBloom).value]
                    + sstables[g.begin + g.len..], mid)
      && OpenTables(sstables[..g.begin] + sstables[g.begin + g.len..], Without(mid, g.begin))
  {
    hide TableName, Reads, OpenFile, IsMerge, IsTableFile, OpenTables, MidMerge, Consistent, Without;
    var mid := Merged(e, g, files).ts;
    var n := g.begin;
    MidMergeEnd(e.ts, n, g.len, g.out);
    OpenAt(sstables, e.ts, n);
    HeldAt(Merged(e, g, files), n);
    var target := sstables[n].name;
    TableNameIsNoOther(mid[n].sequence);
    TableOpens(target, files[target], g.out, useBloom);
    var t := OpenFile(target, files[target], useBloom).value;
    OpenParts(sstables, e.ts, n, g.len);
    OpenJoin(sstables[..n], e.ts[..n], sstables[n + g.len..], e.ts[n + g.len..]);
    OpenNewest(t, mid[n], sstables[n + g.len..], e.ts[n + g.len..]);
    OpenJoin(sstables[..n], e.ts[..n], [t] + sstables[n + g.len..], [mid[n]] + e.ts[n + g.len..]);
    assert sstables[..n] + [t] + sstables[n + g.len..] == sstables[..n] + ([t] + sstables[n + g.len..]);
  }

  lemma MidMergeEnd(ts: seq<Numbered>, begin: nat, len: nat, out: Table)
    requires 0 < len && begin + len <= |ts|
    ensures var mid, t := MidMerge(ts, begin, len, out, len), Numbered(ts[begin].sequence, out);
      && mid == ts[..begin] + ([t] + ts[begin + len..])
      && begin < |mid| && mid[begin] == t && Without(mid, begin) == ts[..begin] + ts[begin + len..]
  {
    var mid, t := MidMerge(ts, begin, len, out, len), Numbered(ts[begin].sequence, out);
    assert mid == ts[..begin] + ([t] + ts[begin + len..]);
    assert mid[begin] == t;
    assert mid[..begin] == ts[..begin] && mid[begin + 1..] == ts[begin + len..];
  }

  lemma OpenAt(sstables: seq<Sstable>, ts: seq<Numbered>, i: nat)
    requires OpenTables(sstables, ts) && i < |ts|
    ensures |sstables| == |ts| && sstables[i].name == TableName(ts[i].sequence)
  {
    assert IsOpen(sstables[i], ts[i]);
  }

  lemma HeldAt(e: Engine, i: nat)
    requires Consistent(e) && i < |e.ts|
    ensures HoldsTable(e.files, e.ts[i])
  {
  }

  lemma OpenParts(sstables: seq<Sstable>, ts: seq<Numbered>, n: nat, len: nat)
    requires OpenTables(sstables, ts) && n + len <= |ts|
    ensures |sstables| == |ts|
    ensures OpenTables(sstables[..n], ts[..n]) && OpenTables(sstables[n + len..], ts[n + len..])
  {
    hide IsOpen;
  }

  lemma OpenJoin(s1: seq<Sstable>, t1: seq<Numbered>, s2: seq<Sstable>, t2: seq<Numbered>)
    requires OpenTables(s1, t1) && OpenTables(s2, t2)
    ensures OpenTables(s1 + s2, t1 + t2)
  {
    hide IsOpen;
  }

  lemma NeverExposed(e: Engine, g: Merge, a: State, b: State, scratch: string)
    requires OnlyTouched(a, b, scratch) && !a.exposed
    ensures MergeExact(e, g, Since(a, b))
  {
    NothingExposed(e, g, Since(a, b));
  }

  lemma OneMoreHidden(e: Engine, g: Merge, a: State, b: State, c: State)
    requires a.history <= b.history && MergeExact(e, g, Since(a, b))
    requires c.history == b.history + [Moment(c.files, c.exposed)] && !c.exposed
    ensures MergeExact(e, g, Since(a, c))
  {
    hide IsMergeOf;
    assert Since(b, c) == [Moment(c.files, c.exposed)];
    NothingExposed(e, g, Since(b, c));
    MergeExactChain(e, g, a, b, c);
  }

  lemma RunIsRead(sstables: seq<Sstable>, ts: seq<Numbered>, begin: nat, len: nat, e: Engine)
    requires OpenTables(sstables, ts) && begin + len <= |sstables| && Consistent(e) && e.ts == ts
    ensures |sstables| == |ts|
    ensures AllRead(sstables[begin..begin + len], RowsOf(ts[begin..begin + len]))
  {
    hide Reads, TableName, IsMerge, Agrees, SameView, LogHolds;
    forall n | begin <= n < begin + len ensures Reads(sstables[n], ts[n].rows) && Bare(ts[n].rows) {
      assert IsOpen(sstables[n], ts[n]);
      assert HoldsTable(e.files, ts[n]);
    }
  }

  lemma WrittenTable(file: Bytes, out: Table, bits: int, tables: seq<Table>, drop: bool, now: int)
    requires file == SstableFormat.File(out, bits) && SstableFormat.Fits(out) && Bare(out)
    requires IsMerge(tables, out, drop, now)
    ensures IsTableFile(file, out)
  {
    hide SstableFormat.File, SstableFormat.Fits;
  }

  lemma MergeOfRun(e: Engine, g: Merge)
    requires 0 < g.len && g.begin + g.len <= |e.ts| && (g.drop ==> g.begin + g.len == |e.ts|)
    requires IsMerge(RowsOf(e.ts[g.begin..g.begin + g.len]), g.out, g.drop, e.clock)
    ensures IsMergeOf(e, g)
  {
  }

  function FileSize(files: Disk, name: string): nat {
    if name in files then |files[name]| else 0
  }

  /** The sizes of the files of a list of tables, in its order. */
  function SizesOf(files: Disk, ts: seq<Numbered>): (sizes: seq<nat>)
    ensures |sizes| == |ts|
  {
    seq(|ts|, i requires 0 <= i < |ts| => FileSize(files, TableName(ts[i].sequence)))
  }

  /** The run is the one the tier walk chooses, if any. */
  ghost predicate Chosen(e: Engine, g: Merge) {
    g.len > 0 ==>
      && Choice(g.begin, g.len) == FirstTier(SizesOf(e.files, e.ts), |e.ts|)
      && g.len >= TRIGGER && g.begin + g.len <= |e.ts|
      && g.drop == (g.begin + g.len == |e.ts|)
  }

  lemma OpenLength(sstables: seq<Sstable>, ts: seq<Numbered>)
    requires OpenTables(sstables, ts)
    ensures |sstables| == |ts|
  {
  }

  ghost predicate Hidden(moments: seq<Moment>) {
    forall i :: 0 <= i < |moments| ==> moments[i].exposed
  }

  /** Part way through clearing: the newest `n` tables are gone and the log is not cut. */
  ghost predicate ClearedAt(e: Engine, d: Disk, n: nat) {
    0 < n <= |e.ts| && Holds(d, e.ts[n..]) && LogHolds(d, e.log)
  }

  ghost predicate PartlyCleared(e: Engine, d: Disk) {
    exists n :: ClearedAt(e, d, n)
  }

  ghost predicate ClearExact(e: Engine, moments: seq<Moment>) {
    forall i :: 0 <= i < |moments| && moments[i].exposed ==> PartlyCleared(e, moments[i].disk)
  }

  lemma ClearStarts(e: Engine, a: State, b: State)
    requires b == a.(exposed := b.exposed)
    ensures Recorded(a, b) && DirtKept(a, b) && Hidden(Since(a, b)) && ClearExact(e, Since(a, b))
  {
  }

  lemma ClearStep(e: Engine, a: State, b: State, c: State, n: nat)
    requires n < |e.ts| && Holds(b.files, e.ts[n..]) && LogHolds(b.files, e.log)
    requires c.files == b.files - {TableName(e.ts[n].sequence)} && TableName(e.ts[n].sequence) != WAL
    requires c.history == b.history + [Moment(c.files, c.exposed)] && c.exposed && a.history <= b.history
    requires Hidden(Since(a, b)) && ClearExact(e, Since(a, b))
    ensures Holds(c.files, e.ts[n + 1..]) && LogHolds(c.files, e.log)
    ensures Hidden(Since(a, c)) && ClearExact(e, Since(a, c))
  {
    hide Holds, TableName, SequenceOf, Scan;
    HoldsUnlink(b.files, e.ts[n..], 0);
    assert Without(e.ts[n..], 0) == e.ts[n + 1..];
    assert ClearedAt(e, c.files, n + 1);
    assert Since(a, c) == Since(a, b) + [Moment(c.files, c.exposed)];
    hide ClearedAt;
  }

  lemma ClearDone(e: Engine, a: State, b: State, c: State)
    requires a.history <= b.history && ClearExact(e, Since(a, b))
    requires c.history == b.history + [Moment(c.files, c.exposed)] && !c.exposed
    ensures ClearExact(e, Since(a, c))
  {
    hide PartlyCleared;
    assert Since(a, c) == Since(a, b) + [Moment(c.files, c.exposed)];
  }

  lemma AllNames(sstables: seq<Sstable>, e: Engine)
    requires OpenTables(sstables, e.ts) && Consistent(e)
    ensures |sstables| == |e.ts| && Holds(e.files, e.ts) && LogHolds(e.files, e.log)
    ensures forall i :: 0 <= i < |e.ts| ==> sstables[i].name == TableName(e.ts[i].sequence) && sstables[i].name != WAL
  {
    hide TableName, Reads, Agrees, SameView, LogHolds, IsTableFile;
    forall i | 0 <= i < |e.ts| ensures sstables[i].name == TableName(e.ts[i].sequence) && sstables[i].name != WAL {
      assert IsOpen(sstables[i], e.ts[i]);
      assert HoldsTable(e.files, e.ts[i]);
      TableNameIsNoOther(e.ts[i].sequence);
    }
  }

  lemma NothingOpen()
    ensures OpenTables([], [])
  {
  }

  lemma EmptiedSafe(e: Engine, a: State, b: State, c: State)
    requires Consistent(e) && e.files == c.files && a.history <= b.history
    requires Hidden(Since(a, b)) && c.history == b.history + [Moment(c.files, c.exposed)]
    ensures SafeOutside(Since(a, c), e.model, e.clock)
  {
    hide Consistent, SafeDisk;
    ConsistentRecovers(e);
    SafeOne(e.files, e.ts, e.model, e.clock);
    assert Since(a, c) == Since(a, b) + [Moment(c.files, c.exposed)];
  }

  lemma NoMoments(a: State, m: Model, clock: int)
    ensures Safe(Since(a, a), m, [], clock)
  {
  }

  lemma OpenNewest(t: Sstable, n: Numbered, sstables: seq<Sstable>, ts: seq<Numbered>)
    requires OpenTables(sstables, ts) && IsOpen(t, n)
    ensures OpenTables([t] + sstables, [n] + ts)
  {
    hide IsOpen;
  }

  lemma WalUntouched(a: State, b: State, scratch: string)
    requires OnlyTouched(a, b, scratch) && scratch != WAL
    ensures WAL in a.files <==> WAL in b.files
    ensures WAL in a.files ==> b.files[WAL] == a.files[WAL]
    ensures WAL in a.dirtyData <==> WAL in b.dirtyData
    ensures a.history <= b.history && a.exposed == b.exposed
  {
    assert WAL in a.files - {scratch} <==> WAL in a.files;
    assert WAL in b.files - {scratch} <==> WAL in b.files;
    assert WAL in a.files ==> (a.files - {scratch})[WAL] == (b.files - {scratch})[WAL];
    assert WAL in a.dirtyData - {scratch} <==> WAL in a.dirtyData;
    assert WAL in b.dirtyData - {scratch} <==> WAL in b.dirtyData;
  }

  /** Giving up: the scratch file is removed again. */
  lemma ScratchGone(a: State, b: State, c: State, scratch: string, m: Model, clock: int)
    requires a.history <= b.history && c.history == b.history + [Moment(c.files, c.exposed)] && !c.exposed
    requires Follows(a, b) && Safe(Since(a, b), m, [], clock) && Scratch(scratch)
    requires c.files == b.files - {scratch} && c.dirSyncs == b.dirSyncs && Traces(b, c)
    requires c.dirtyData == b.dirtyData - {scratch} && c.dirtyNames == b.dirtyNames + {scratch}
    requires SafeDisk(c.files, m, [], clock)
    ensures Follows(a, c) && Safe(Since(a, c), m, [], clock)
  {
    hide SafeDisk, SequenceOf;
    assert Safe(Since(b, c), m, [], clock);
    SafeChain(a, b, c, m, [], clock);
    UnlinkKeeps(a, b, c, scratch);
  }

  lemma TwoMoments(a: State, b: State, first: Disk, second: Disk, m: Model, clock: int)
    requires b.history == a.history + [Moment(first, a.exposed)] + [Moment(second, a.exposed)] && !a.exposed
    requires SafeDisk(first, m, [], clock) && SafeDisk(second, m, [], clock)
    ensures a.history <= b.history && Safe(Since(a, b), m, [], clock)
  {
    hide SafeDisk;
    assert Since(a, b) == [Moment(first, a.exposed), Moment(second, a.exposed)];
  }

  lemma FlushDirt(a: State, b: State, path: string, file: Bytes)
    requires b.files == (a.files - {FLUSH_TEMP})[path := file][WAL := []]
    requires Recorded(a, b) && b.dirtyNames == {} && a.dirSyncs < b.dirSyncs
    requires b.dirtyData <= a.dirtyData - {FLUSH_TEMP, path}
    ensures Follows(a, b)
  {
    hide SequenceOf;
  }

  // ---------------------------------------------------------------- starting up

  function WithoutTemps(d: Disk): Disk {
    d - {COMPACT_TEMP} - {FLUSH_TEMP}
  }

  function LogCut(d: Disk): Disk {
    if WAL in d then d[WAL := d[WAL][..Scan(d[WAL]).good]] else d
  }

  function LogOpened(d: Disk): Disk {
    if WAL in d then d else d[WAL := []]
  }

  /** The disk a start leaves: no temporary files, no torn tail, a log. */
  function Cleaned(d: Disk): Disk {
    LogOpened(LogCut(WithoutTemps(d)))
  }

  predicate LogWhole(d: Disk) {
    WAL in d && Scan(d[WAL]).good == |d[WAL]|
  }

  /** What a start does to the directory. A log that had to be cut is unsynced, and so are
      the bytes and the name of one that had to be created. */
  ghost predicate Begun(a: State, b: State) {
    && Recorded(a, b) && b.files == Cleaned(a.files) && b.dirSyncs == a.dirSyncs
    && b.dirtyNames == a.dirtyNames + {COMPACT_TEMP, FLUSH_TEMP} + (if WAL in a.files then {} else {WAL})
    && b.dirtyData == a.dirtyData - {COMPACT_TEMP, FLUSH_TEMP} + (if LogWhole(a.files) then {} else {WAL})
  }

  lemma BegunInParts(a: State, b: State, c: State, d: State)
    requires Recorded(a, b) && Recorded(b, c) && Recorded(c, d)
    requires b.files == WithoutTemps(a.files) && c.files == LogCut(b.files) && d.files == LogOpened(c.files)
    requires b.dirtyNames == a.dirtyNames + {COMPACT_TEMP, FLUSH_TEMP} && c.dirtyNames == b.dirtyNames
    requires d.dirtyNames == c.dirtyNames + (if WAL in c.files then {} else {WAL})
    requires b.dirtyData == a.dirtyData - {COMPACT_TEMP, FLUSH_TEMP}
    requires c.dirtyData == b.dirtyData + (if WAL in b.files && !LogWhole(b.files) then {WAL} else {})
    requires d.dirtyData == c.dirtyData + (if WAL in c.files then {} else {WAL})
    requires a.dirSyncs == b.dirSyncs == c.dirSyncs == d.dirSyncs
    ensures Begun(a, d)
  {
    hide Scan;
    OtherNames();
    assert WAL in a.files <==> WAL in b.files;
    assert WAL in b.files <==> WAL in c.files;
    assert WAL in a.files ==> a.files[WAL] == b.files[WAL];
  }

  /** One more step of start-up that leaves what a restart would find. */
  lemma StartStep(a: State, b: State, c: State, ts: seq<Numbered>, m: Model, clock: int)
    requires a.history <= b.history && c.history == b.history + [Moment(c.files, c.exposed)] && !c.exposed
    requires Safe(Since(a, b), m, [], clock) && RecoversWith(c.files, ts, m, clock)
    ensures a.history <= c.history && Safe(Since(a, c), m, [], clock)
  {
    hide RecoversWith, SafeDisk;
    SafeOne(c.files, ts, m, clock);
    assert Since(b, c) == [Moment(c.files, c.exposed)];
    SafeChain(a, b, c, m, [], clock);
  }

  lemma TempGone(disk: Disk, scratch: string, ts: seq<Numbered>, m: Model, clock: int)
    requires RecoversWith(disk, ts, m, clock) && Scratch(scratch)
    ensures RecoversWith(disk - {scratch}, ts, m, clock)
  {
    hide RecoversWith;
    assert SameExcept(disk - {scratch}, disk, scratch);
    RecoversExcept(disk, disk - {scratch}, scratch, ts, m, clock);
  }

  /** Cutting the torn tail, or creating the missing log, changes no record. */
  lemma LogSettled(disk: Disk, ts: seq<Numbered>, m: Model, clock: int)
    requires RecoversWith(disk, ts, m, clock)
    ensures var kept := LogOf(disk)[..Scan(LogOf(disk)).good]; var d := disk[WAL := kept];
      RecoversWith(d, ts, m, clock) && LogHolds(d, Scan(LogOf(disk)).records)
  {
    hide Holds, Agrees, Scan, Replayed;
    var kept := LogOf(disk)[..Scan(LogOf(disk)).good];
    ScanIdempotent(LogOf(disk));
    HoldsLog(disk, ts, kept);
  }

  lemma StartConsistent(disk: Disk, ts: seq<Numbered>, m: Model, clock: int, rs: seq<Record>, next: nat)
    requires RecoversWith(disk, ts, m, clock) && LogHolds(disk, rs)
    requires next == if ts == [] then 1 else ts[0].sequence + 1
    ensures Consistent(Engine(Replayed([], rs), ts, next, rs, disk, m, clock))
  {
    hide Agrees, Scan, Replayed, SequenceOf, TableName, IsTableFile;
    EmptyTable();
    ReplayedShape([], rs);
    SameViewReflexive(Replayed([], rs), clock);
    if ts != [] { assert HoldsTable(disk, ts[0]); }
  }

  lemma SameViewReflexive(a: Table, clock: int)
    ensures SameView(a, a, clock)
  {
  }

  lemma Adopted(disk: Disk, ns: seq<nat>, ts: seq<Numbered>, m: Model, clock: int)
    requires Listed(disk, ns) && RecoversWith(disk, ts, m, clock)
    ensures ns == SequencesOf(ts)
  {
    hide Listed, Holds, Agrees;
    ListedIsOrder(disk, ns, ts);
  }

  lemma HoldsOf(disk: Disk, ts: seq<Numbered>, m: Model, clock: int)
    requires RecoversWith(disk, ts, m, clock)
    ensures Holds(disk, ts)
  {
    hide Holds, Agrees;
  }
}
