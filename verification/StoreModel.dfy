/** What the store is supposed to be: one plain map from key to value and expiry stamp.
    And what a disk has to hold for a restart to find that map on it. */
module StoreModel {
  import opened ByteStrings
  import opened Rows
  import opened WalCodec
  import opened FileNames
  import opened FileSystem
  import SstableFormat

  // ---------------------------------------------------------------- the plain map

  type Model = map<Bytes, Stamped>

  function Read(m: Model, key: Bytes, now: int): (found: Option<Stamped>) {
    if key in m && !Expired(m[key].stamp, now) then Some(m[key]) else None
  }

  function Apply(m: Model, r: Record): Model {
    if r.op == SetOp then m[r.key := Stamped(r.value, r.stamp)] else m - {r.key}
  }

  function ApplyAll(m: Model, rs: seq<Record>): Model
    decreases |rs|
  {
    if rs == [] then m else ApplyAll(Apply(m, rs[0]), rs[1..])
  }

  lemma {:induction false} ApplyAllConcat(m: Model, a: seq<Record>, b: seq<Record>)
    ensures ApplyAll(m, a + b) == ApplyAll(ApplyAll(m, a), b)
    decreases |a|
  {
    hide Apply;
    if a == [] {
      assert a + b == b;
    } else {
      assert (a + b)[1..] == a[1..] + b;
      ApplyAllConcat(Apply(m, a[0]), a[1..], b);
    }
  }

  // ---------------------------------------------------------------- records as rows

  function RowOf(r: Record): Row {
    if r.op == SetOp then Row(r.key, r.value, false, r.stamp) else Tombstone(r.key)
  }

  /** The memtable that replaying records onto `rows` leaves. */
  function Replayed(rows: Table, rs: seq<Record>): Table
    decreases |rs|
  {
    if rs == [] then rows else Replayed(Put(rows, RowOf(rs[0])), rs[1..])
  }

  lemma {:induction false} ReplayedConcat(rows: Table, a: seq<Record>, b: seq<Record>)
    ensures Replayed(rows, a + b) == Replayed(Replayed(rows, a), b)
    decreases |a|
  {
    hide Put, RowOf;
    if a == [] {
      assert a + b == b;
    } else {
      assert (a + b)[1..] == a[1..] + b;
      ReplayedConcat(Put(rows, RowOf(a[0])), a[1..], b);
    }
  }

  lemma PutBare(rows: Table, r: Row)
    requires Bare(rows) && Bare([r])
    ensures Bare(Put(rows, r))
  {
    hide LowerBound;
    var out := Put(rows, r);
    var i := LowerBound(rows, r.key);
    assert [r][0] == r;
    forall j | 0 <= j < |out| && out[j].tombstone ensures out[j] == Tombstone(out[j].key) {
      if j != i && !Has(rows, r.key) {
        assert out[j] == rows[if j < i then j else j - 1];
      }
    }
  }

  lemma {:induction false} ReplayedShape(rows: Table, rs: seq<Record>)
    requires Ascending(rows) && Bare(rows)
    ensures Ascending(Replayed(rows, rs)) && Bare(Replayed(rows, rs))
    decreases |rs|
  {
    hide Put;
    if rs != [] {
      PutAscending(rows, RowOf(rs[0]));
      PutBare(rows, RowOf(rs[0]));
      ReplayedShape(Put(rows, RowOf(rs[0])), rs[1..]);
    }
  }

  // ---------------------------------------------------------------- agreement

  /** Reading through these tables at `clock` gives what the plain map gives. */
  ghost predicate Agrees(tables: seq<Table>, m: Model, clock: int) {
    forall key: Bytes :: Visible(FirstHit(tables, key), clock) == Read(m, key, clock)
  }

  /** And then it does at every later time. */
  lemma AgreesLater(tables: seq<Table>, m: Model, clock: int, now: int)
    requires clock <= now && Agrees(tables, m, clock)
    ensures Agrees(tables, m, now)
  {
    hide FirstHit;
    forall key: Bytes ensures Visible(FirstHit(tables, key), now) == Read(m, key, now) {
      assert Visible(FirstHit(tables, key), clock) == Read(m, key, clock);
    }
  }

  lemma TopFirst(top: Table, below: seq<Table>, key: Bytes)
    ensures FirstHit([top] + below, key) ==
      if Search(top, key).Some? then Search(top, key) else FirstHit(below, key)
  {
    hide Search;
    assert ([top] + below)[1..] == below;
  }

  /** Writing a record into the topmost table is what it does to the plain map. */
  lemma AgreesPut(top: Table, below: seq<Table>, m: Model, clock: int, r: Record)
    requires Ascending(top) && Agrees([top] + below, m, clock)
    ensures Agrees([Put(top, RowOf(r))] + below, Apply(m, r), clock)
  {
    hide Put, Search, FirstHit, Ascending;
    forall key: Bytes
      ensures Visible(FirstHit([Put(top, RowOf(r))] + below, key), clock) == Read(Apply(m, r), key, clock)
    {
      TopFirst(Put(top, RowOf(r)), below, key);
      TopFirst(top, below, key);
      PutSearch(top, RowOf(r), key);
      assert Visible(FirstHit([top] + below, key), clock) == Read(m, key, clock);
    }
  }

  lemma {:induction false} AgreesReplayed(top: Table, below: seq<Table>, m: Model, clock: int, rs: seq<Record>)
    requires Ascending(top) && Agrees([top] + below, m, clock)
    ensures Agrees([Replayed(top, rs)] + below, ApplyAll(m, rs), clock)
    decreases |rs|
  {
    hide Put, Apply, Agrees;
    if rs != [] {
      AgreesPut(top, below, m, clock, rs[0]);
      PutAscending(top, RowOf(rs[0]));
      AgreesReplayed(Put(top, RowOf(rs[0])), below, Apply(m, rs[0]), clock, rs[1..]);
    }
  }

  /** The same keys with the same visible content, from `clock` on. */
  ghost predicate SameView(a: Table, b: Table, clock: int) {
    forall key: Bytes ::
      && Search(a, key).Some? == Search(b, key).Some?
      && Visible(Search(a, key), clock) == Visible(Search(b, key), clock)
  }

  lemma SameViewAgrees(a: Table, b: Table, below: seq<Table>, m: Model, clock: int)
    requires SameView(a, b, clock) && Agrees([a] + below, m, clock)
    ensures Agrees([b] + below, m, clock)
  {
    hide Search, FirstHit;
    forall key: Bytes ensures Visible(FirstHit([b] + below, key), clock) == Read(m, key, clock) {
      TopFirst(a, below, key);
      TopFirst(b, below, key);
      assert Visible(FirstHit([a] + below, key), clock) == Read(m, key, clock);
    }
  }

  lemma SameViewLater(a: Table, b: Table, clock: int, now: int)
    requires clock <= now && SameView(a, b, clock)
    ensures SameView(a, b, now)
  {
    hide Search;
    forall key: Bytes ensures Visible(Search(a, key), now) == Visible(Search(b, key), now) {
      VisibleLater(Search(a, key), Search(b, key), clock, now);
    }
  }

  lemma SameViewPut(a: Table, b: Table, clock: int, r: Row)
    requires Ascending(a) && Ascending(b) && SameView(a, b, clock)
    ensures SameView(Put(a, r), Put(b, r), clock)
  {
    hide Search, Put, Ascending;
    forall key: Bytes
      ensures Search(Put(a, r), key).Some? == Search(Put(b, r), key).Some?
      ensures Visible(Search(Put(a, r), key), clock) == Visible(Search(Put(b, r), key), clock)
    {
      PutSearch(a, r, key);
      PutSearch(b, r, key);
    }
  }

  // ---------------------------------------------------------------- what is on disk

  /** A table with the number its file name carries. */
  datatype Numbered = Numbered(sequence: nat, rows: Table)

  function RowsOf(ts: seq<Numbered>): (tables: seq<Table>)
    ensures |tables| == |ts| && forall i :: 0 <= i < |ts| ==> tables[i] == ts[i].rows
  {
    seq(|ts|, i requires 0 <= i < |ts| => ts[i].rows)
  }

  /** Newest first: the larger the number the newer the table. */
  ghost predicate Descending(ts: seq<Numbered>) {
    forall i, j :: 0 <= i < j < |ts| ==> ts[i].sequence > ts[j].sequence
  }

  ghost predicate IsTableFile(file: Bytes, rows: Table) {
    && Ascending(rows) && Bare(rows) && SstableFormat.Fits(rows)
    && exists bits: int :: file == SstableFormat.File(rows, bits)
  }

  ghost predicate HoldsTable(disk: Disk, t: Numbered) {
    && t.sequence < TWO_64
    && TableName(t.sequence) in disk
    && IsTableFile(disk[TableName(t.sequence)], t.rows)
  }

  ghost predicate Named(name: string, ts: seq<Numbered>) {
    exists i :: 0 <= i < |ts| && TableName(ts[i].sequence) == name
  }

  /** These tables, whole and in this order, are what the directory holds. */
  ghost predicate Holds(disk: Disk, ts: seq<Numbered>) {
    && Descending(ts)
    && (forall i :: 0 <= i < |ts| ==> HoldsTable(disk, ts[i]))
    && (forall name :: name in disk && SequenceOf(name).Some? ==> Named(name, ts))
  }

  function LogOf(disk: Disk): Bytes {
    if WAL in disk then disk[WAL] else []
  }

  /** What the constructor and replay put together from a disk: the replayed log on top
      of the tables in the order of their names. */
  ghost function Restored(disk: Disk, ts: seq<Numbered>): seq<Table> {
    [Replayed([], Scan(LogOf(disk)).records)] + RowsOf(ts)
  }

  ghost predicate RecoversWith(disk: Disk, ts: seq<Numbered>, m: Model, clock: int) {
    Holds(disk, ts) && Agrees(Restored(disk, ts), m, clock)
  }

  /** A restart from this disk reads as the plain map `m`, at `clock` and ever after. */
  ghost predicate Recovers(disk: Disk, m: Model, clock: int) {
    exists ts :: RecoversWith(disk, ts, m, clock)
  }

  /** Recovery looks at tables and the log and at nothing else. */
  lemma RecoversSame(a: Disk, b: Disk, ts: seq<Numbered>, m: Model, clock: int)
    requires RecoversWith(a, ts, m, clock) && LogOf(a) == LogOf(b)
    requires forall name :: SequenceOf(name).Some? ==> (name in a <==> name in b) && (name in a ==> a[name] == b[name])
    ensures RecoversWith(b, ts, m, clock)
  {
    hide IsTableFile, SequenceOf, TableName, Agrees;
    forall i | 0 <= i < |ts| ensures HoldsTable(b, ts[i]) {
      assert HoldsTable(a, ts[i]);
      SequenceOfTableName(ts[i].sequence);
    }
  }

  ghost function KeysOf(tables: seq<Table>): set<Bytes> {
    set i, j | 0 <= i < |tables| && 0 <= j < |tables[i]| :: tables[i][j].key
  }

  /** The map these tables read as. */
  ghost function ViewOf(tables: seq<Table>, now: int): Model {
    map key | key in KeysOf(tables) && Visible(FirstHit(tables, key), now).Some? ::
      Visible(FirstHit(tables, key), now).value
  }

  lemma ViewAgrees(tables: seq<Table>, now: int)
    ensures Agrees(tables, ViewOf(tables, now), now)
  {
    hide FirstHit, Search;
    forall key: Bytes ensures Visible(FirstHit(tables, key), now) == Read(ViewOf(tables, now), key, now) {
      HitIsKey(tables, key);
    }
  }

  lemma HitIsKey(tables: seq<Table>, key: Bytes)
    ensures FirstHit(tables, key).Some? ==> key in KeysOf(tables)
  {
    hide FirstHit, Search;
    FirstHitMiss(tables, key);
    if FirstHit(tables, key).Some? {
      var i :| 0 <= i < |tables| && Search(tables[i], key).Some?;
      SearchMiss(tables[i], key);
      var j :| 0 <= j < |tables[i]| && tables[i][j].key == key;
      assert tables[i][j].key in KeysOf(tables);
    }
  }

  /** A directory of whole tables always recovers to something: to what they read as. */
  lemma HeldRecovers(disk: Disk, ts: seq<Numbered>, now: int)
    requires Holds(disk, ts)
    ensures RecoversWith(disk, ts, ViewOf(Restored(disk, ts), now), now)
  {
    hide Holds, Agrees, Restored, ViewOf;
    ViewAgrees(Restored(disk, ts), now);
  }

  /** Before the first start: an empty directory stands for the empty map. */
  lemma NothingRecovers(clock: int)
    ensures Recovers(map[], map[], clock)
  {
    hide FirstHit, Search;
    NothingDecodes();
    assert Scan([]).records == [];
    assert Replayed([], []) == [] && RowsOf([]) == [];
    assert Restored(map[], []) == [[]];
    forall key: Bytes ensures Visible(FirstHit([[]], key), clock) == Read(map[], key, clock) {
      FirstHitMiss([[]], key);
      SearchMiss([], key);
    }
    assert Holds(map[], []);
    assert RecoversWith(map[], [], map[], clock);
  }

  predicate Scratch(name: string) {
    name != WAL && SequenceOf(name).None?
  }

  lemma RecoversExcept(a: Disk, b: Disk, scratch: string, ts: seq<Numbered>, m: Model, clock: int)
    requires RecoversWith(a, ts, m, clock) && SameExcept(b, a, scratch) && Scratch(scratch)
    ensures RecoversWith(b, ts, m, clock)
  {
    hide SequenceOf, Agrees, Holds;
    forall name | name != scratch ensures (name in a <==> name in b) && (name in a ==> a[name] == b[name]) {
      assert name in a - {scratch} <==> name in a;
      assert name in b - {scratch} <==> name in b;
      assert name in a ==> (a - {scratch})[name] == (b - {scratch})[name];
    }
    RecoversSame(a, b, ts, m, clock);
  }

  // ---------------------------------------------------------------- the log

  ghost predicate Normal(rs: seq<Record>) {
    forall i :: 0 <= i < |rs| ==> Meaning(rs[i]) == rs[i]
  }

  /** The log is intact and these are its records. */
  ghost predicate LogHolds(disk: Disk, log: seq<Record>) {
    WAL in disk && Scan(disk[WAL]) == Scanned(log, |disk[WAL]|)
  }

  /** A log write that dies on any byte leaves a disk that restarts with the old map and
      a prefix of the write's records applied to it. */
  lemma LogWriteCrash(disk: Disk, ts: seq<Numbered>, log: seq<Record>, batch: seq<Record>, n: nat,
                      m: Model, clock: int) returns (whole: nat)
    requires Holds(disk, ts) && LogHolds(disk, log) && Normal(batch) && n <= |EncodeAll(batch)|
    requires Agrees([Replayed([], log)] + RowsOf(ts), m, clock)
    ensures whole <= |batch| && (n == |EncodeAll(batch)| ==> whole == |batch|)
    ensures RecoversWith(disk[WAL := disk[WAL] + EncodeAll(batch)[..n]], ts, ApplyAll(m, batch[..whole]), clock)
  {
    hide Decode, Encode, EncodeAll, Scan, SequenceOf, TableName, Agrees, IsTableFile;
    var d := disk[WAL := disk[WAL] + EncodeAll(batch)[..n]];
    whole := ScanAfterCut(disk[WAL], batch, n);
    assert Meanings(batch[..whole]) == batch[..whole];
    ReplayedConcat([], log, batch[..whole]);
    ReplayedShape([], log);
    AgreesReplayed(Replayed([], log), RowsOf(ts), m, clock, batch[..whole]);
    OtherNames();
    forall i | 0 <= i < |ts| ensures HoldsTable(d, ts[i]) {
      assert HoldsTable(disk, ts[i]);
      TableNameIsNoOther(ts[i].sequence);
    }
    assert Holds(d, ts);
  }
}
