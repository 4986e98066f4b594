/** Start-up: adopt the tables the directory names, newest first, and replay the log. */
module StoreRecovery {
  import opened ByteStrings
  import opened Rows
  import opened WalCodec
  import opened FileNames
  import opened FileSystem
  import opened StoreModel
  import opened DiskSteps
  import opened SstableReader
  import SstableFormat
  import opened Memtable

  // ---------------------------------------------------------------- order from names

  function InsertDown(ns: seq<nat>, n: nat): seq<nat> {
    if ns == [] || n > ns[0] then [n] + ns
    else if n == ns[0] then ns
    else [ns[0]] + InsertDown(ns[1..], n)
  }

  lemma {:induction false} InsertDownSorts(ns: seq<nat>, n: nat)
    requires StrictlyDown(ns)
    ensures StrictlyDown(InsertDown(ns, n))
    ensures forall x :: x in InsertDown(ns, n) <==> x in ns || x == n
  {
    if ns != [] && n < ns[0] {
      TailMembers(ns);
      InsertDownSorts(ns[1..], n);
      var rest := InsertDown(ns[1..], n);
      forall i | 0 <= i < |rest| ensures ns[0] > rest[i] { assert rest[i] in rest; }
    }
  }

  ghost predicate Listed(disk: Disk, ns: seq<nat>) {
    StrictlyDown(ns) &&
    forall n :: n in ns <==> exists name :: name in disk && SequenceOf(name) == Some(n)
  }

  /** readdir in whatever order, then sorted newest first. */
  method ListSequences(disk: Disk) returns (ns: seq<nat>)
    ensures Listed(disk, ns)
  {
    hide SequenceOf;
    ns := [];
    var pending := disk.Keys;
    while pending != {}
      invariant pending <= disk.Keys && StrictlyDown(ns)
      invariant forall n :: n in ns <==> exists name :: name in disk && name !in pending && SequenceOf(name) == Some(n)
      decreases |pending|
    {
      var name :| name in pending;
      var sequence := SequenceOf(name);
      ghost var before, left := ns, pending;
      if sequence.Some? {
        InsertDownSorts(ns, sequence.value);
        ns := InsertDown(ns, sequence.value);
      }
      pending := pending - {name};
      forall n ensures n in ns <==> exists x :: x in disk && x !in pending && SequenceOf(x) == Some(n) {
        if n in before {
          var x :| x in disk && x !in left && SequenceOf(x) == Some(n);
          assert x !in pending;
        }
      }
    }
  }

  /** The names alone give back the list of tables in its order. */
  lemma ListedIsOrder(disk: Disk, ns: seq<nat>, ts: seq<Numbered>)
    requires Listed(disk, ns) && Holds(disk, ts)
    ensures ns == SequencesOf(ts)
  {
    hide SequenceOf, TableName, IsTableFile;
    var us := SequencesOf(ts);
    forall n ensures n in ns <==> n in us {
      if n in us {
        var i :| 0 <= i < |us| && us[i] == n;
        assert HoldsTable(disk, ts[i]);
        SequenceOfTableName(n);
        assert TableName(n) in disk;
      }
      if n in ns {
        var name :| name in disk && SequenceOf(name) == Some(n);
        assert Named(name, ts);
        var i :| 0 <= i < |ts| && TableName(ts[i].sequence) == name;
        assert HoldsTable(disk, ts[i]);
        SequenceOfTableName(ts[i].sequence);
        assert us[i] == n;
      }
    }
    StrictlyDownUnique(ns, us);
  }

  // ---------------------------------------------------------------- opening

  ghost predicate OpenTables(sstables: seq<Sstable>, ts: seq<Numbered>) {
    |sstables| == |ts| && forall i :: 0 <= i < |ts| ==> IsOpen(sstables[i], ts[i])
  }

  ghost predicate IsOpen(t: Sstable, n: Numbered) {
    Reads(t, n.rows) && t.name == TableName(n.sequence)
  }

  lemma TableOpens(name: string, file: Bytes, rows: Table, useBloom: bool)
    requires IsTableFile(file, rows)
    ensures OpenFile(name, file, useBloom).Some? && Reads(OpenFile(name, file, useBloom).value, rows)
    ensures OpenFile(name, file, useBloom).value.name == name
  {
    hide OpenFile, Reads, SstableFormat.File;
    var bits: int :| file == SstableFormat.File(rows, bits);
    OpenWritten(rows, bits, name, useBloom);
  }

  method OpenAll(disk: Disk, ns: seq<nat>, useBloom: bool, ghost ts: seq<Numbered>) returns (sstables: seq<Sstable>)
    requires Holds(disk, ts) && ns == SequencesOf(ts)
    ensures OpenTables(sstables, ts)
  {
    hide IsTableFile, Reads, OpenFile, TableName, SequenceOf;
    sstables := [];
    for i := 0 to |ns|
      invariant |sstables| == i && forall j :: 0 <= j < i ==> IsOpen(sstables[j], ts[j])
    {
      assert HoldsTable(disk, ts[i]);
      var name := TableName(ns[i]);
      TableOpens(name, disk[name], ts[i].rows, useBloom);
      var t := Open(name, disk[name], useBloom);
      sstables := sstables + [t.value];
    }
  }

  // ---------------------------------------------------------------- replay

  /** Each record goes back into the memtable as it was written, stamp and all. */
  method ApplyRecords(memtable: MemTable, rs: seq<Record>)
    requires memtable.Valid() && memtable.rows == []
    modifies memtable
    ensures memtable.Valid() && memtable.rows == Replayed([], rs)
    ensures rs == [] ==> memtable.bytes == old(memtable.bytes)
  {
    hide Put, LiveCount, TotalCost, Ascending;
    for i := 0 to |rs|
      invariant memtable.Valid() && memtable.rows == Replayed([], rs[..i])
      invariant rs == [] ==> memtable.bytes == old(memtable.bytes)
    {
      var r := rs[i];
      assert rs[..i + 1] == rs[..i] + [r];
      ReplayedConcat([], rs[..i], [r]);
      ReplayedOne(Replayed([], rs[..i]), r);
      if r.op == SetOp {
        memtable.Set(r.key, r.value, r.stamp);
      } else {
        var _ := memtable.Del(r.key);
      }
    }
    assert rs[..|rs|] == rs;
  }

  lemma ReplayedOne(rows: Table, r: Record)
    ensures Replayed(rows, [r]) == Put(rows, RowOf(r))
  {
    hide Put;
    assert [r][1..] == [];
    assert Replayed(Put(rows, RowOf(r)), []) == Put(rows, RowOf(r));
  }
}
