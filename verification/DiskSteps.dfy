/** The directory in every state a flush or a merge takes it through. */
module DiskSteps {
  import opened ByteStrings
  import opened Rows
  import opened WalCodec
  import opened FileNames
  import opened FileSystem
  import opened StoreModel
  import opened Compaction
  import opened MergeLaws
  import SstableFormat
  import SstableReader

  // ---------------------------------------------------------------- single steps

  lemma HoldsExcept(a: Disk, b: Disk, scratch: string, ts: seq<Numbered>)
    requires Holds(a, ts) && SameExcept(b, a, scratch) && Scratch(scratch)
    ensures Holds(b, ts) && LogOf(b) == LogOf(a)
    ensures WAL in a ==> WAL in b
  {
    hide IsTableFile, SequenceOf, TableName;
    forall name | name != scratch ensures (name in a <==> name in b) && (name in a ==> a[name] == b[name]) {
      assert name in a - {scratch} <==> name in a;
      assert name in b - {scratch} <==> name in b;
      assert name in a ==> (a - {scratch})[name] == (b - {scratch})[name];
    }
    forall i | 0 <= i < |ts| ensures HoldsTable(b, ts[i]) {
      assert HoldsTable(a, ts[i]);
      SequenceOfTableName(ts[i].sequence);
    }
  }

  /** A rename moves a finished file over the name of table `i`. */
  lemma HoldsReplace(disk: Disk, ts: seq<Numbered>, i: nat, file: Bytes, rows: Table)
    requires Holds(disk, ts) && i < |ts| && IsTableFile(file, rows)
    ensures Holds(disk[TableName(ts[i].sequence) := file], ts[i := Numbered(ts[i].sequence, rows)])
    ensures LogOf(disk[TableName(ts[i].sequence) := file]) == LogOf(disk)
  {
    hide IsTableFile, SequenceOf, TableName;
    var d, ts' := disk[TableName(ts[i].sequence) := file], ts[i := Numbered(ts[i].sequence, rows)];
    assert HoldsTable(disk, ts[i]);
    TableNameIsNoOther(ts[i].sequence);
    forall j | 0 <= j < |ts'| ensures HoldsTable(d, ts'[j]) {
      assert HoldsTable(disk, ts[j]);
      TableNamesDiffer(ts[i].sequence, ts[j].sequence);
    }
    forall name | name in d && SequenceOf(name).Some? ensures Named(name, ts') {
      assert Named(name, ts);
      var j :| 0 <= j < |ts| && TableName(ts[j].sequence) == name;
      assert TableName(ts'[j].sequence) == name;
    }
  }

  /** A rename brings in a table newer than all others. */
  lemma HoldsNewest(disk: Disk, ts: seq<Numbered>, t: Numbered, file: Bytes)
    requires Holds(disk, ts) && t.sequence < TWO_64 && IsTableFile(file, t.rows)
    requires forall i :: 0 <= i < |ts| ==> ts[i].sequence < t.sequence
    ensures Holds(disk[TableName(t.sequence) := file], [t] + ts)
    ensures LogOf(disk[TableName(t.sequence) := file]) == LogOf(disk)
  {
    hide IsTableFile, SequenceOf, TableName;
    var d, ts' := disk[TableName(t.sequence) := file], [t] + ts;
    TableNameIsNoOther(t.sequence);
    forall j | 0 <= j < |ts'| ensures HoldsTable(d, ts'[j]) {
      if j > 0 {
        assert HoldsTable(disk, ts[j - 1]);
        TableNamesDiffer(t.sequence, ts[j - 1].sequence);
      }
    }
    forall name | name in d && SequenceOf(name).Some? ensures Named(name, ts') {
      if name in disk {
        assert Named(name, ts);
        var j :| 0 <= j < |ts| && TableName(ts[j].sequence) == name;
        assert TableName(ts'[j + 1].sequence) == name;
      } else {
        assert TableName(ts'[0].sequence) == name;
      }
    }
  }

  function Without(ts: seq<Numbered>, i: nat): seq<Numbered>
    requires i < |ts|
  {
    ts[..i] + ts[i + 1..]
  }

  lemma HoldsUnlink(disk: Disk, ts: seq<Numbered>, i: nat)
    requires Holds(disk, ts) && i < |ts|
    ensures Holds(disk - {TableName(ts[i].sequence)}, Without(ts, i))
    ensures LogOf(disk - {TableName(ts[i].sequence)}) == LogOf(disk)
    ensures WAL in disk ==> WAL in disk - {TableName(ts[i].sequence)}
  {
    hide IsTableFile, SequenceOf, TableName;
    var d, ts' := disk - {TableName(ts[i].sequence)}, Without(ts, i);
    assert HoldsTable(disk, ts[i]);
    TableNameIsNoOther(ts[i].sequence);
    forall j | 0 <= j < |ts'| ensures HoldsTable(d, ts'[j]) {
      var k := if j < i then j else j + 1;
      assert ts'[j] == ts[k] && HoldsTable(disk, ts[k]);
      TableNamesDiffer(ts[i].sequence, ts[k].sequence);
    }
    forall name | name in d && SequenceOf(name).Some? ensures Named(name, ts') {
      assert Named(name, ts);
      var j :| 0 <= j < |ts| && TableName(ts[j].sequence) == name;
      assert j != i;
      assert ts'[if j < i then j else j - 1] == ts[j];
    }
  }

  lemma HoldsLog(disk: Disk, ts: seq<Numbered>, log: Bytes)
    requires Holds(disk, ts)
    ensures Holds(disk[WAL := log], ts)
  {
    hide IsTableFile, SequenceOf, TableName;
    OtherNames();
    forall i | 0 <= i < |ts| ensures HoldsTable(disk[WAL := log], ts[i]) {
      assert HoldsTable(disk, ts[i]);
      TableNameIsNoOther(ts[i].sequence);
    }
  }

  // ---------------------------------------------------------------- flush

  /** After the rename of a flush the memtable is on disk twice, in the new table and in
      the log, and reads the same; and so it does once the log is gone. */
  lemma FlushRenamed(ts: seq<Numbered>, rows: Table, log: seq<Record>, m: Model, clock: int)
    requires SameView(rows, Replayed([], log), clock) && Agrees([rows] + RowsOf(ts), m, clock)
    ensures Agrees([Replayed([], log)] + RowsOf([Numbered(0, rows)] + ts), m, clock)
    ensures Agrees([[]] + RowsOf([Numbered(0, rows)] + ts), m, clock)
  {
    hide FirstHit, Search;
    var below := RowsOf(ts);
    assert RowsOf([Numbered(0, rows)] + ts) == [rows] + below;
    forall key: Bytes
      ensures Visible(FirstHit([Replayed([], log)] + ([rows] + below), key), clock) == Read(m, key, clock)
      ensures Visible(FirstHit([[]] + ([rows] + below), key), clock) == Read(m, key, clock)
    {
      TopFirst(Replayed([], log), [rows] + below, key);
      TopFirst([], [rows] + below, key);
      SearchOne(Tombstone([]), key);
      TopFirst(rows, below, key);
      assert Visible(FirstHit([rows] + below, key), clock) == Read(m, key, clock);
    }
  }

  lemma RowsOfIgnoresNumbers(a: seq<Numbered>, b: seq<Numbered>)
    requires |a| == |b| && forall i :: 0 <= i < |a| ==> a[i].rows == b[i].rows
    ensures RowsOf(a) == RowsOf(b)
  {
  }

  // ---------------------------------------------------------------- merge

  /** Between the rename and the unlinks: the merged table under the newest input's
      number, then the inputs that are left. */
  function MidMerge(ts: seq<Numbered>, begin: nat, len: nat, out: Table, left: nat): seq<Numbered>
    requires 0 < left <= len && begin + len <= |ts|
  {
    ts[..begin] + [Numbered(ts[begin].sequence, out)] + ts[begin + left..begin + len] + ts[begin + len..]
  }

  lemma MidMergeRows(ts: seq<Numbered>, begin: nat, len: nat, out: Table, left: nat)
    requires 0 < left <= len && begin + len <= |ts|
    ensures RowsOf(MidMerge(ts, begin, len, out, left)) ==
      RowsOf(ts[..begin]) + [out] + RowsOf(ts[begin + left..begin + len]) + RowsOf(ts[begin + len..])
    ensures RowsOf(ts) == RowsOf(ts[..begin]) + RowsOf(ts[begin..begin + len]) + RowsOf(ts[begin + len..])
    ensures DrawnFrom(RowsOf(ts[begin + left..begin + len]), RowsOf(ts[begin..begin + len]))
  {
    var run := RowsOf(ts[begin..begin + len]);
    forall t | t in RowsOf(ts[begin + left..begin + len]) ensures t in run {
      var i :| 0 <= i < len - left && RowsOf(ts[begin + left..begin + len])[i] == t;
      assert run[left + i] == t;
    }
  }

  /** The list of tables stays in order and below the next number. */
  lemma MidMergeOrder(ts: seq<Numbered>, begin: nat, len: nat, out: Table, left: nat, next: nat)
    requires 0 < left <= len && begin + len <= |ts| && Descending(ts)
    requires forall i :: 0 <= i < |ts| ==> ts[i].sequence < next
    ensures Descending(MidMerge(ts, begin, len, out, left))
    ensures forall i :: 0 <= i < |MidMerge(ts, begin, len, out, left)| ==>
      MidMerge(ts, begin, len, out, left)[i].sequence < next
  {
    var mid := MidMerge(ts, begin, len, out, left);
    forall i | 0 <= i < |mid|
      ensures mid[i].sequence == ts[if i <= begin then i else i + left - 1].sequence
    {
    }
  }

  lemma HoldsMidMerge(disk: Disk, ts: seq<Numbered>, begin: nat, len: nat, file: Bytes, out: Table)
    requires Holds(disk, ts) && 0 < len && begin + len <= |ts| && IsTableFile(file, out)
    ensures Holds(disk[TableName(ts[begin].sequence) := file], MidMerge(ts, begin, len, out, 1))
    ensures LogOf(disk[TableName(ts[begin].sequence) := file]) == LogOf(disk)
  {
    hide Holds, TableName, IsTableFile;
    HoldsReplace(disk, ts, begin, file, out);
    assert MidMerge(ts, begin, len, out, 1) == ts[begin := Numbered(ts[begin].sequence, out)];
  }

  lemma HoldsNextUnlink(disk: Disk, ts: seq<Numbered>, begin: nat, len: nat, out: Table, left: nat)
    requires 0 < left < len && begin + len <= |ts| && Holds(disk, MidMerge(ts, begin, len, out, left))
    ensures Holds(disk - {TableName(ts[begin + left].sequence)}, MidMerge(ts, begin, len, out, left + 1))
    ensures LogOf(disk - {TableName(ts[begin + left].sequence)}) == LogOf(disk)
    ensures WAL in disk ==> WAL in disk - {TableName(ts[begin + left].sequence)}
  {
    hide Holds, TableName;
    var mid := MidMerge(ts, begin, len, out, left);
    assert mid[begin + 1] == ts[begin + left];
    HoldsUnlink(disk, mid, begin + 1);
    assert Without(mid, begin + 1) == MidMerge(ts, begin, len, out, left + 1);
  }

  /** Keeping obsolete rows: every state of the merge reads as before. */
  lemma MidMergeAgrees(top: Table, ts: seq<Numbered>, begin: nat, len: nat, out: Table, left: nat,
                       m: Model, now: int)
    requires 0 < left <= len && begin + len <= |ts|
    requires IsMerge(RowsOf(ts[begin..begin + len]), out, false, now)
    requires Agrees([top] + RowsOf(ts), m, now)
    ensures Agrees([top] + RowsOf(MidMerge(ts, begin, len, out, left)), m, now)
  {
    hide FirstHit, IsMerge;
    MidMergeRows(ts, begin, len, out, left);
    var newer, run := RowsOf(ts[..begin]), RowsOf(ts[begin..begin + len]);
    var remaining, older := RowsOf(ts[begin + left..begin + len]), RowsOf(ts[begin + len..]);
    forall key: Bytes
      ensures Visible(FirstHit([top] + RowsOf(MidMerge(ts, begin, len, out, left)), key), now) == Read(m, key, now)
    {
      MergeShadows(newer, run, remaining, older, out, now, key);
      TopFirst(top, RowsOf(MidMerge(ts, begin, len, out, left)), key);
      TopFirst(top, RowsOf(ts), key);
      assert Visible(FirstHit([top] + RowsOf(ts), key), now) == Read(m, key, now);
    }
  }

  /** Dropping obsolete rows: the finished merge reads as before. */
  lemma EndMergeAgrees(top: Table, ts: seq<Numbered>, begin: nat, len: nat, out: Table, m: Model, now: int)
    requires 0 < len && begin + len == |ts|
    requires IsMerge(RowsOf(ts[begin..begin + len]), out, true, now)
    requires Agrees([top] + RowsOf(ts), m, now)
    ensures Agrees([top] + RowsOf(MidMerge(ts, begin, len, out, len)), m, now)
  {
    hide FirstHit, IsMerge;
    MidMergeRows(ts, begin, len, out, len);
    var newer, run := RowsOf(ts[..begin]), RowsOf(ts[begin..]);
    assert ts[begin..begin + len] == ts[begin..];
    assert RowsOf(ts) == newer + run;
    assert RowsOf(MidMerge(ts, begin, len, out, len)) == newer + [out];
    forall key: Bytes
      ensures Visible(FirstHit([top] + RowsOf(MidMerge(ts, begin, len, out, len)), key), now) == Read(m, key, now)
    {
      DropMergeInvisible(newer, run, out, now, key);
      TopFirst(top, newer + [out], key);
      TopFirst(top, newer + run, key);
      assert Visible(FirstHit([top] + RowsOf(ts), key), now) == Read(m, key, now);
    }
  }

  /** A merge that wrote nothing leaves an empty table, which may as well not be there. */
  lemma EmptyTableGoes(top: Table, ts: seq<Numbered>, i: nat, m: Model, now: int)
    requires i < |ts| && ts[i].rows == [] && Agrees([top] + RowsOf(ts), m, now)
    ensures Agrees([top] + RowsOf(Without(ts, i)), m, now)
  {
    hide FirstHit;
    var a, b := RowsOf(ts[..i]), RowsOf(ts[i + 1..]);
    assert RowsOf(ts) == a + [[]] + b;
    assert RowsOf(Without(ts, i)) == a + b;
    forall key: Bytes
      ensures Visible(FirstHit([top] + RowsOf(Without(ts, i)), key), now) == Read(m, key, now)
    {
      TopFirst(top, a + [[]] + b, key);
      TopFirst(top, a + b, key);
      FirstHitConcat(a + [[]], b, key);
      FirstHitConcat(a, [[]], key);
      FirstHitConcat(a, b, key);
      FirstHitOne([], key);
      SearchOne(Tombstone([]), key);
      assert Visible(FirstHit([top] + RowsOf(ts), key), now) == Read(m, key, now);
    }
  }

  // ---------------------------------------------------------------- a disk says one thing only

  lemma {:induction false} DataBlockInjective(a: Table, b: Table)
    requires Bare(a) && Bare(b) && SstableFormat.DataBlock(a) == SstableFormat.DataBlock(b)
    ensures a == b
    decreases |a|
  {
    hide SstableFormat.EncodeRow, SstableFormat.ParseRow;
    var data := SstableFormat.DataBlock(a);
    if a == [] || b == [] {
      assert |data| == 0;
    } else {
      var e, f := SstableFormat.EncodeRow(a[0]), SstableFormat.EncodeRow(b[0]);
      assert data[0..|e|] == e && data[0..|f|] == f;
      SstableFormat.ParseEncoded(a[0], data, 0);
      SstableFormat.ParseEncoded(b[0], data, 0);
      assert a[0] == b[0];
      assert data[|e|..] == SstableFormat.DataBlock(a[1..]) == SstableFormat.DataBlock(b[1..]);
      DataBlockInjective(a[1..], b[1..]);
      assert a == [a[0]] + a[1..] && b == [b[0]] + b[1..];
    }
  }

  /** A table file has one content. */
  lemma TableFileUnique(file: Bytes, a: Table, b: Table)
    requires IsTableFile(file, a) && IsTableFile(file, b)
    ensures a == b
  {
    hide SstableFormat.File, SstableReader.OpenFile, SstableFormat.Index, SstableFormat.DataBlock;
    var x: int :| file == SstableFormat.File(a, x);
    var y: int :| file == SstableFormat.File(b, y);
    SstableReader.OpenWritten(a, x, "", true);
    SstableReader.OpenWritten(b, y, "", true);
    DataBlockInjective(a, b);
  }

  ghost predicate StrictlyDown(a: seq<nat>) {
    forall i, j :: 0 <= i < j < |a| ==> a[i] > a[j]
  }

  lemma {:induction false} StrictlyDownUnique(a: seq<nat>, b: seq<nat>)
    requires StrictlyDown(a) && StrictlyDown(b) && forall x :: x in a <==> x in b
    ensures a == b
    decreases |a|
  {
    assert a != [] ==> a[0] in a;
    assert b != [] ==> b[0] in b;
    if a != [] && b != [] {
      assert a[0] == b[0];
      TailMembers(a);
      TailMembers(b);
      StrictlyDownUnique(a[1..], b[1..]);
      assert a == [a[0]] + a[1..] && b == [b[0]] + b[1..];
    }
  }

  lemma TailMembers(a: seq<nat>)
    requires a != [] && StrictlyDown(a)
    ensures StrictlyDown(a[1..]) && forall x :: x in a[1..] <==> x in a && x != a[0]
  {
    forall x | x in a && x != a[0] ensures x in a[1..] {
      var i :| 0 <= i < |a| && a[i] == x;
      assert a[1..][i - 1] == x;
    }
  }

  function SequencesOf(ts: seq<Numbered>): (ns: seq<nat>)
    ensures |ns| == |ts| && forall i :: 0 <= i < |ts| ==> ns[i] == ts[i].sequence
  {
    seq(|ts|, i requires 0 <= i < |ts| => ts[i].sequence)
  }

  lemma SequencesIncluded(disk: Disk, ts: seq<Numbered>, us: seq<Numbered>, n: nat)
    requires Holds(disk, ts) && Holds(disk, us) && n in SequencesOf(ts)
    ensures n in SequencesOf(us)
  {
    hide IsTableFile, SequenceOf, TableName;
    var i :| 0 <= i < |ts| && SequencesOf(ts)[i] == n;
    assert HoldsTable(disk, ts[i]);
    SequenceOfTableName(n);
    assert Named(TableName(n), us);
    var j :| 0 <= j < |us| && TableName(us[j].sequence) == TableName(n);
    assert HoldsTable(disk, us[j]);
    TableNamesDiffer(us[j].sequence, n);
    assert SequencesOf(us)[j] == n;
  }

  /** The order and the content of the tables follow from the directory alone. */
  lemma HoldsUnique(disk: Disk, ts: seq<Numbered>, us: seq<Numbered>)
    requires Holds(disk, ts) && Holds(disk, us)
    ensures ts == us
  {
    hide IsTableFile, SequenceOf, TableName;
    forall n ensures n in SequencesOf(ts) <==> n in SequencesOf(us) {
      if n in SequencesOf(ts) { SequencesIncluded(disk, ts, us, n); }
      if n in SequencesOf(us) { SequencesIncluded(disk, us, ts, n); }
    }
    StrictlyDownUnique(SequencesOf(ts), SequencesOf(us));
    forall i | 0 <= i < |ts| ensures ts[i] == us[i] {
      assert HoldsTable(disk, ts[i]) && HoldsTable(disk, us[i]);
      assert ts[i].sequence == SequencesOf(ts)[i] == us[i].sequence;
      TableFileUnique(disk[TableName(ts[i].sequence)], ts[i].rows, us[i].rows);
    }
  }

  // ---------------------------------------------------------------- a crash inside a dropping merge

  /** A restart between the rename and the last unlink of a merge that drops obsolete
      rows finds the right map exactly when no dropped key is alive in an input that is
      still there. `top` is the replayed log. */
  lemma CrashInsideDropMerge(disk: Disk, ts: seq<Numbered>, begin: nat, len: nat, out: Table, left: nat,
                             top: Table, m: Model, now: int)
    requires 0 < left <= len && begin + len == |ts|
    requires IsMerge(RowsOf(ts[begin..begin + len]), out, true, now)
    requires Holds(disk, MidMerge(ts, begin, len, out, left))
    requires top == Replayed([], Scan(LogOf(disk)).records)
    requires Agrees([top] + RowsOf(ts), m, now)
    ensures Recovers(disk, m, now) <==>
      NothingResurfaces([top] + RowsOf(ts[..begin]), RowsOf(ts[begin..begin + len]),
                        RowsOf(ts[begin + left..begin + len]), now)
  {
    hide FirstHit, IsMerge, Holds, Scan, Replayed, Visible, Dead, MidMerge, DrawnFrom, Agrees, NothingResurfaces,
      SameAnswers, RowsOf;
    var mid := MidMerge(ts, begin, len, out, left);
    var newer, run := [top] + RowsOf(ts[..begin]), RowsOf(ts[begin..begin + len]);
    var remaining := RowsOf(ts[begin + left..begin + len]);
    MidMergeRows(ts, begin, len, out, left);
    assert ts[begin + len..] == [];
    Regroup(top, RowsOf(ts[..begin]), out, remaining, run);
    DropMergeLeftovers(newer, run, remaining, out, now);
    if SameAnswers(newer + [out] + remaining, newer + run, now) {
      AgreesBoth(newer + [out] + remaining, newer + run, m, now);
      assert RecoversWith(disk, mid, m, now);
    }
    if Recovers(disk, m, now) {
      var us :| RecoversWith(disk, us, m, now);
      HoldsUnique(disk, us, mid);
      AgreesBoth(newer + [out] + remaining, newer + run, m, now);
    }
  }

  lemma Regroup(top: Table, newer: seq<Table>, out: Table, left: seq<Table>, run: seq<Table>)
    ensures [top] + (newer + [out] + left + []) == [top] + newer + [out] + left
    ensures [top] + (newer + run + []) == [top] + newer + run
    ensures RowsOf([]) == []
  {
  }

  lemma AgreesBoth(a: seq<Table>, b: seq<Table>, m: Model, now: int)
    requires Agrees(b, m, now)
    ensures Agrees(a, m, now) <==> SameAnswers(a, b, now)
  {
    hide FirstHit, Visible;
    if Agrees(a, m, now) {
      forall key: Bytes ensures Visible(FirstHit(a, key), now) == Visible(FirstHit(b, key), now) {
        assert Visible(FirstHit(a, key), now) == Read(m, key, now);
        assert Visible(FirstHit(b, key), now) == Read(m, key, now);
      }
    }
    if SameAnswers(a, b, now) {
      forall key: Bytes ensures Visible(FirstHit(a, key), now) == Read(m, key, now) {
        assert Visible(FirstHit(a, key), now) == Visible(FirstHit(b, key), now);
        assert Visible(FirstHit(b, key), now) == Read(m, key, now);
      }
    }
  }
}
