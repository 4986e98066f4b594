/** The SSTable file: a data block of rows, a sparse index over it, a bloom filter and
    a fixed footer.

      row     [klen: 4][vlen: 4][flags: 1][expiry: 8]?[key][value]
      index   [count: 4] then per entry [klen: 4][key][offset: 8]
      footer  [index offset: 8][bloom offset: 8][row count: 8][magic: 8] */
module SstableFormat {
  import opened ByteStrings
  import opened Rows
  import Bloom

  const INDEX_INTERVAL: nat := 4096
  const FOOTER: nat := 32
  const MAGIC: Bytes := [67, 68, 66, 83, 83, 84, 118, 50]     // "CDBSSTv2"
  const MAGIC_V1: Bytes := [67, 68, 66, 83, 83, 84, 118, 49]  // "CDBSSTv1"

  /** No file grows to 8 TB. Below that, the 32-bit index count and every 64-bit offset
      hold what is put into them. */
  const MAX_DATA: nat := 0x800_0000_0000

  // ---------------------------------------------------------------- rows

  predicate CarriesExpiry(r: Row) {
    !r.tombstone && r.stamp != 0
  }

  function Flags(r: Row): (b: byte)
    ensures b < 4 && b % 2 == (if r.tombstone then 1 else 0) && b / 2 == (if CarriesExpiry(r) then 1 else 0)
  {
    if r.tombstone then 1 else if r.stamp != 0 then 2 else 0
  }

  function EncodeRow(r: Row): (s: Bytes)
    ensures |s| >= 9 + |r.key|
  {
    PutU32(|r.key|) + PutU32(|r.value|) + [Flags(r)]
    + (if CarriesExpiry(r) then PutI64(r.stamp) else []) + r.key + r.value
  }

  /** A row as the file gives it back: a tombstone has lost its expiry. */
  function Stored(r: Row): Row {
    if r.tombstone then r.(stamp := 0) else r
  }

  datatype RowAt = RowAt(row: Row, end: nat)

  /** The row that starts at `at`, or None when the bytes do not hold a whole one. */
  function ParseRow(data: Bytes, at: nat): (p: Option<RowAt>)
    ensures p.Some? ==> at + 9 <= p.value.end <= |data|
  {
    if at + 9 > |data| then None
    else
      var klen, vlen, flags := LoadU32(data, at), LoadU32(data, at + 4), data[at + 8];
      var hasExpiry := flags / 2 % 2 == 1;
      var body := at + 9 + if hasExpiry then 8 else 0;
      if body + klen + vlen > |data| then None
      else
        Some(RowAt(
               Row(data[body..body + klen], data[body + klen..body + klen + vlen],
                   flags % 2 == 1, if hasExpiry then LoadI64(data, at + 9) else 0),
               body + klen + vlen))
  }

  lemma Within(data: Bytes, at: nat, e: Bytes, i: nat, j: nat)
    requires i <= j <= |e| && at + |e| <= |data| && data[at..at + |e|] == e
    ensures data[at + i..at + j] == e[i..j]
  {
    forall k | 0 <= k < j - i ensures data[at + i..at + j][k] == e[i..j][k] {
      assert data[at..at + |e|][i + k] == data[at + i + k];
    }
  }

  lemma RowHeader(r: Row)
    ensures var e := EncodeRow(r);
      && e[..4] == PutU32(|r.key|)
      && e[4..8] == PutU32(|r.value|)
      && e[8..9] == [Flags(r)]
  {
  }

  lemma RowBody(r: Row)
    ensures var e, body := EncodeRow(r), 9 + if CarriesExpiry(r) then 8 else 0;
      && |e| == body + |r.key| + |r.value|
      && (CarriesExpiry(r) ==> e[9..17] == PutI64(r.stamp))
      && e[body..body + |r.key|] == r.key
      && e[body + |r.key|..] == r.value
  {
  }

  lemma RowFields(r: Row, data: Bytes, at: nat)
    requires at + |EncodeRow(r)| <= |data| && data[at..at + |EncodeRow(r)|] == EncodeRow(r)
    ensures data[at..at + 4] == PutU32(|r.key|)
    ensures data[at + 4..at + 8] == PutU32(|r.value|)
    ensures data[at + 8] == Flags(r)
    ensures var body := at + 9 + if CarriesExpiry(r) then 8 else 0;
      && at + |EncodeRow(r)| == body + |r.key| + |r.value|
      && (CarriesExpiry(r) ==> data[at + 9..at + 17] == PutI64(r.stamp))
      && data[body..body + |r.key|] == r.key
      && data[body + |r.key|..body + |r.key| + |r.value|] == r.value
  {
    hide EncodeRow, PutU32, PutI64, Flags;
    var e, body := EncodeRow(r), 9 + if CarriesExpiry(r) then 8 else 0;
    RowHeader(r);
    RowBody(r);
    Within(data, at, e, 0, 4);
    Within(data, at, e, 4, 8);
    Within(data, at, e, 8, 9);
    assert data[at + 8..at + 9] == [data[at + 8]];
    if CarriesExpiry(r) { Within(data, at, e, 9, 17); }
    Within(data, at, e, body, body + |r.key|);
    Within(data, at, e, body + |r.key|, |e|);
  }

  /** What was written at a position is what is parsed there. */
  lemma ParseEncoded(r: Row, data: Bytes, at: nat)
    requires at + |EncodeRow(r)| <= |data| && data[at..at + |EncodeRow(r)|] == EncodeRow(r)
    ensures ParseRow(data, at) == Some(RowAt(Stored(r), at + |EncodeRow(r)|))
  {
    hide EncodeRow, PutU32, PutI64, LoadU32, LoadI64;
    RowFields(r, data, at);
    LoadPutU32(|r.key|, data, at);
    LoadPutU32(|r.value|, data, at + 4);
    if CarriesExpiry(r) { LoadPutI64(r.stamp, data, at + 9); }
  }

  // ---------------------------------------------------------------- the data block

  function DataBlock(rows: Table): (s: Bytes) {
    if rows == [] then [] else EncodeRow(rows[0]) + DataBlock(rows[1..])
  }

  lemma {:induction false} DataConcat(a: Table, b: Table)
    ensures DataBlock(a + b) == DataBlock(a) + DataBlock(b)
  {
    hide EncodeRow;
    if a == [] {
      assert a + b == b;
    } else {
      assert (a + b)[1..] == a[1..] + b;
      DataConcat(a[1..], b);
    }
  }

  /** Where row `i` begins. */
  function OffsetOf(rows: Table, i: nat): (n: nat)
    requires i <= |rows|
  {
    |DataBlock(rows[..i])|
  }

  lemma DataSlice(rows: Table, a: nat, b: nat)
    requires a <= b <= |rows|
    ensures OffsetOf(rows, a) <= OffsetOf(rows, b) <= |DataBlock(rows)|
    ensures OffsetOf(rows, b) - OffsetOf(rows, a) == |DataBlock(rows[a..b])|
    ensures DataBlock(rows)[OffsetOf(rows, a)..OffsetOf(rows, b)] == DataBlock(rows[a..b])
  {
    hide DataBlock;
    assert rows == rows[..b] + rows[b..] && rows[..b] == rows[..a] + rows[a..b];
    DataConcat(rows[..b], rows[b..]);
    DataConcat(rows[..a], rows[a..b]);
  }

  lemma OffsetNext(rows: Table, i: nat)
    requires i < |rows|
    ensures OffsetOf(rows, i + 1) == OffsetOf(rows, i) + |EncodeRow(rows[i])|
    ensures OffsetOf(rows, i + 1) <= |DataBlock(rows)|
    ensures DataBlock(rows)[OffsetOf(rows, i)..OffsetOf(rows, i + 1)] == EncodeRow(rows[i])
  {
    hide EncodeRow;
    DataSlice(rows, i, i + 1);
    assert rows[i..i + 1] == [rows[i]];
    assert DataBlock([rows[i]]) == EncodeRow(rows[i]) + DataBlock([]);
  }

  lemma OffsetEnds(rows: Table)
    ensures OffsetOf(rows, 0) == 0
    ensures OffsetOf(rows, |rows|) == |DataBlock(rows)|
  {
    assert rows[..|rows|] == rows;
  }

  // ---------------------------------------------------------------- the sparse index

  datatype IndexEntry = IndexEntry(key: Bytes, offset: nat)

  /** The writer's running state: the index so far, the offset of the next row, and how
      many bytes have gone out since the last index entry. */
  datatype Progress = Progress(index: seq<IndexEntry>, offset: nat, since: nat)

  predicate StartsBlock(p: Progress) {
    p.index == [] || p.since >= INDEX_INTERVAL
  }

  function Advance(p: Progress, r: Row): Progress {
    var size := |EncodeRow(r)|;
    if StartsBlock(p)
    then Progress(p.index + [IndexEntry(r.key, p.offset)], p.offset + size, size)
    else Progress(p.index, p.offset + size, p.since + size)
  }

  function ProgressAfter(rows: Table): Progress {
    if rows == [] then Progress([], 0, 0)
    else Advance(ProgressAfter(rows[..|rows| - 1]), rows[|rows| - 1])
  }

  function Index(rows: Table): seq<IndexEntry> {
    ProgressAfter(rows).index
  }

  /** The rows that begin an index block. */
  ghost function Starts(rows: Table): seq<nat> {
    if rows == [] then []
    else
      var n := |rows| - 1;
      Starts(rows[..n]) + if StartsBlock(ProgressAfter(rows[..n])) then [n] else []
  }

  /** One past the last row of block `s`. */
  ghost function BlockEnd(rows: Table, s: nat): nat
    requires s < |Starts(rows)|
  {
    if s + 1 < |Starts(rows)| then Starts(rows)[s + 1] else |rows|
  }

  ghost predicate IndexMatches(rows: Table, index: seq<IndexEntry>, starts: seq<nat>) {
    && |index| == |starts|
    && (rows != [] ==> starts != [])
    && (starts != [] ==> starts[0] == 0)
    && (forall s :: 0 <= s < |starts| ==> starts[s] < |rows|)
    && (forall s, t :: 0 <= s < t < |starts| ==> starts[s] < starts[t])
    && (forall s :: 0 <= s < |starts| ==>
          index[s] == IndexEntry(rows[starts[s]].key, OffsetOf(rows, starts[s])))
  }

  lemma EntryStays(rows: Table, r: Row, i: nat)
    requires i < |rows|
    ensures (rows + [r])[i] == rows[i] && OffsetOf(rows + [r], i) == OffsetOf(rows, i)
  {
    hide DataBlock;
    assert (rows + [r])[..i] == rows[..i];
  }

  lemma IndexMatchesMore(rows: Table, index: seq<IndexEntry>, starts: seq<nat>, r: Row)
    requires IndexMatches(rows, index, starts) && starts != []
    ensures IndexMatches(rows + [r], index, starts)
  {
    hide OffsetOf;
    forall s | 0 <= s < |starts|
      ensures index[s] == IndexEntry((rows + [r])[starts[s]].key, OffsetOf(rows + [r], starts[s]))
    {
      EntryStays(rows, r, starts[s]);
    }
  }

  lemma IndexMatchesSnoc(rows: Table, index: seq<IndexEntry>, starts: seq<nat>, r: Row)
    requires IndexMatches(rows, index, starts)
    ensures IndexMatches(rows + [r], index + [IndexEntry(r.key, |DataBlock(rows)|)], starts + [|rows|])
  {
    hide DataBlock;
    var more, entries, begins := rows + [r], index + [IndexEntry(r.key, |DataBlock(rows)|)], starts + [|rows|];
    assert more[..|rows|] == rows;
    assert OffsetOf(more, |rows|) == |DataBlock(rows)|;
    hide OffsetOf;
    forall s | 0 <= s < |begins|
      ensures begins[s] < |more| && entries[s] == IndexEntry(more[begins[s]].key, OffsetOf(more, begins[s]))
    {
      if s < |starts| { EntryStays(rows, r, starts[s]); }
    }
  }

  lemma DataSnoc(rows: Table, r: Row)
    ensures DataBlock(rows + [r]) == DataBlock(rows) + EncodeRow(r)
    ensures DataBlock([]) == []
  {
    hide EncodeRow;
    DataConcat(rows, [r]);
    assert DataBlock([r]) == EncodeRow(r) + DataBlock([]);
  }

  ghost predicate Shaped(rows: Table) {
    IndexMatches(rows, Index(rows), Starts(rows)) && ProgressAfter(rows).offset == |DataBlock(rows)|
  }

  lemma ShapedSnoc(rows: Table, r: Row)
    requires Shaped(rows)
    ensures Shaped(rows + [r])
  {
    hide EncodeRow, DataBlock;
    assert |Index(rows)| == |Starts(rows)|;
    hide IndexMatches;
    assert (rows + [r])[..|rows|] == rows;
    IndexMatchesSnoc(rows, Index(rows), Starts(rows), r);
    if Starts(rows) != [] { IndexMatchesMore(rows, Index(rows), Starts(rows), r); }
    DataSnoc(rows, r);
  }

  lemma {:induction false} IndexShape(rows: Table)
    ensures IndexMatches(rows, Index(rows), Starts(rows))
    ensures ProgressAfter(rows).offset == |DataBlock(rows)|
  {
    if rows != [] {
      var init, r := rows[..|rows| - 1], rows[|rows| - 1];
      IndexShape(init);
      hide IndexMatches, DataBlock, ProgressAfter, Index, Starts;
      assert rows == init + [r];
      ShapedSnoc(init, r);
    }
  }

  lemma {:induction false} SinceLastStart(rows: Table)
    requires rows != []
    ensures Starts(rows) != []
    ensures Starts(rows)[|Starts(rows)| - 1] < |rows|
    ensures ProgressAfter(rows).since == |DataBlock(rows[Starts(rows)[|Starts(rows)| - 1]..])|
  {
    hide EncodeRow, DataBlock;
    var n := |rows| - 1;
    var init, r := rows[..n], rows[n];
    IndexShape(init);
    if StartsBlock(ProgressAfter(init)) {
      assert rows[n..] == [] + [r];
      DataSnoc([], r);
    } else {
      SinceLastStart(init);
      var last := Starts(init)[|Starts(init)| - 1];
      assert rows[last..] == init[last..] + [r];
      DataSnoc(init[last..], r);
    }
  }

  /** Every block, without its last row, is shorter than the index interval: a lookup
      never scans further than that before the row it may be looking for. */
  lemma {:induction false} BlocksAreShort(rows: Table, s: nat)
    requires s < |Starts(rows)|
    ensures Starts(rows)[s] < BlockEnd(rows, s) <= |rows|
    ensures |DataBlock(rows[Starts(rows)[s]..BlockEnd(rows, s) - 1])| < 4096
  {
    hide EncodeRow, DataBlock, ProgressAfter, OffsetOf;
    DataSnoc([], rows[0]);
    IndexShape(rows);
    var n := |rows| - 1;
    var init := rows[..n];
    IndexShape(init);
    if s < |Starts(init)| {
      BlocksAreShort(init, s);
      SinceLastStart(init);
      var a, b := Starts(rows)[s], BlockEnd(rows, s);
      if b <= n {
        assert init[a..b - 1] == rows[a..b - 1];
      } else {
        assert rows[a..b - 1] == init[a..];
      }
    } else {
      assert Starts(rows)[s] == n;
      assert rows[n..n] == [];
    }
  }

  /** One index entry per full interval, so the count fits its 32-bit field. */
  lemma {:induction false} IndexIsSparse(rows: Table)
    ensures ProgressAfter(rows).index != [] ==>
      4096 * (|ProgressAfter(rows).index| - 1) + ProgressAfter(rows).since <= ProgressAfter(rows).offset
  {
    hide EncodeRow;
    if rows != [] { IndexIsSparse(rows[..|rows| - 1]); }
  }

  // ---------------------------------------------------------------- the file

  function EncodeEntry(e: IndexEntry): (s: Bytes)
    ensures |s| == 12 + |e.key|
  {
    PutU32(|e.key|) + e.key + PutU64(e.offset)
  }

  function EncodeEntries(index: seq<IndexEntry>): (s: Bytes) {
    if index == [] then [] else EncodeEntry(index[0]) + EncodeEntries(index[1..])
  }

  function IndexBlock(index: seq<IndexEntry>): (s: Bytes)
    ensures |s| >= 4
  {
    PutU32(|index|) + EncodeEntries(index)
  }

  function Keys(rows: Table): (keys: seq<Bytes>)
    ensures |keys| == |rows| && forall i :: 0 <= i < |rows| ==> keys[i] == rows[i].key
  {
    seq(|rows|, i requires 0 <= i < |rows| => rows[i].key)
  }

  function Footer(indexOffset: nat, bloomOffset: nat, count: nat): (s: Bytes)
    ensures |s| == FOOTER
  {
    PutU64(indexOffset) + PutU64(bloomOffset) + PutU64(count) + MAGIC
  }

  function File(rows: Table, bitsPerKey: int): (s: Bytes) {
    var data, index := DataBlock(rows), IndexBlock(Index(rows));
    data + index + Bloom.Block(Keys(rows), bitsPerKey) + Footer(|data|, |data| + |index|, |rows|)
  }

  predicate Fits(rows: Table) {
    |DataBlock(rows)| < MAX_DATA
  }
}
