/** Opening an SSTable and looking a key up in it through the filter and the sparse
    index, against a linear search of the rows that were written. */
module SstableReader {
  import opened ByteStrings
  import opened Rows
  import opened SstableFormat
  import Bloom

  /** An open table. `file` stands for the descriptor: the bytes it reads never change. */
  datatype Sstable = Sstable(
    name: string, file: Bytes, index: seq<IndexEntry>, bloom: Bytes,
    dataEnd: nat, entryCount: nat, useBloom: bool)

  // ---------------------------------------------------------------- opening

  function ParseIndex(block: Bytes, at: nat, count: nat, dataEnd: nat): (index: Option<seq<IndexEntry>>)
    ensures index.Some? ==> |index.value| == count && forall e :: e in index.value ==> e.offset <= dataEnd
    decreases count
  {
    if count == 0 then Some([])
    else if at + 4 > |block| then None
    else
      var klen := LoadU32(block, at);
      if at + 4 + klen + 8 > |block| then None
      else
        var e := IndexEntry(block[at + 4..at + 4 + klen], LoadU64(block, at + 4 + klen));
        if e.offset > dataEnd then None
        else
          var rest := ParseIndex(block, at + 12 + klen, count - 1, dataEnd);
          if rest.None? then None else Some([e] + rest.value)
  }

  ghost function Prepend(done: seq<IndexEntry>, rest: Option<seq<IndexEntry>>): Option<seq<IndexEntry>> {
    if rest.None? then None else Some(done + rest.value)
  }

  /** What the constructor accepts and what it makes of it. None where it throws. */
  function OpenFile(name: string, file: Bytes, useBloom: bool): (t: Option<Sstable>)
    ensures t.Some? ==> t.value.name == name && t.value.file == file && t.value.useBloom == useBloom
    ensures t.Some? ==> t.value.dataEnd <= |file| && forall e :: e in t.value.index ==> e.offset <= t.value.dataEnd
  {
    if |file| < FOOTER then None
    else
      var footerAt := |file| - FOOTER;
      var magic := file[footerAt + 24..];
      if magic != MAGIC && magic != MAGIC_V1 then None
      else
        var indexAt, bloomAt := LoadU64(file, footerAt), LoadU64(file, footerAt + 8);
        if indexAt > bloomAt || bloomAt > footerAt then None
        else
          var block := file[indexAt..bloomAt];
          if |block| < 4 then None
          else
            var index := ParseIndex(block, 4, LoadU32(block, 0), indexAt);
            if index.None? then None
            else Some(Sstable(name, file, index.value, file[bloomAt..footerAt],
                              indexAt, LoadU64(file, footerAt + 16), useBloom))
  }

  method ReadIndex(block: Bytes, count: nat, dataEnd: nat) returns (result: Option<seq<IndexEntry>>)
    ensures result == ParseIndex(block, 4, count, dataEnd)
  {
    hide LoadU32, LoadU64;
    var at: nat := 4;
    var index: seq<IndexEntry> := [];
    ghost var whole := ParseIndex(block, 4, count, dataEnd);
    assert whole.Some? ==> index + whole.value == whole.value;
    for i := 0 to count
      invariant whole == Prepend(index, ParseIndex(block, at, count - i, dataEnd))
    {
      if at + 4 > |block| { return None; }
      var klen := LoadU32(block, at);
      if at + 4 + klen + 8 > |block| { return None; }
      var e := IndexEntry(block[at + 4..at + 4 + klen], LoadU64(block, at + 4 + klen));
      if e.offset > dataEnd { return None; }
      ghost var rest := ParseIndex(block, at + 12 + klen, count - i - 1, dataEnd);
      assert rest.Some? ==> index + ([e] + rest.value) == index + [e] + rest.value;
      index := index + [e];
      at := at + 12 + klen;
    }
    assert index + [] == index;
    return Some(index);
  }

  method Open(name: string, file: Bytes, useBloom: bool) returns (t: Option<Sstable>)
    ensures t == OpenFile(name, file, useBloom)
  {
    hide LoadU32, LoadU64, ParseIndex;
    if |file| < FOOTER { return None; }
    var footerAt := |file| - FOOTER;
    var magic := file[footerAt + 24..];
    if magic != MAGIC && magic != MAGIC_V1 { return None; }
    var indexAt, bloomAt := LoadU64(file, footerAt), LoadU64(file, footerAt + 8);
    if indexAt > bloomAt || bloomAt > footerAt { return None; }
    var block := file[indexAt..bloomAt];
    if |block| < 4 { return None; }
    var index := ReadIndex(block, LoadU32(block, 0), indexAt);
    if index.None? { return None; }
    return Some(Sstable(name, file, index.value, file[bloomAt..footerAt],
                        indexAt, LoadU64(file, footerAt + 16), useBloom));
  }

  // ---------------------------------------------------------------- what can be opened

  /** An index that parses is the encoding of what it parses to. */
  lemma {:induction false} ParsedIndexIsEncoded(block: Bytes, at: nat, count: nat, dataEnd: nat)
    requires at <= |block| && ParseIndex(block, at, count, dataEnd).Some?
    ensures EncodeEntries(ParseIndex(block, at, count, dataEnd).value) <= block[at..]
    decreases count
  {
    hide LoadU32, LoadU64, PutU32, PutU64;
    if count > 0 {
      var klen := LoadU32(block, at);
      var next := at + 12 + klen;
      var e := IndexEntry(block[at + 4..at + 4 + klen], LoadU64(block, at + 4 + klen));
      var rest := ParseIndex(block, next, count - 1, dataEnd).value;
      ParsedIndexIsEncoded(block, next, count - 1, dataEnd);
      PutLoadU32(block, at);
      PutLoadU64(block, at + 4 + klen);
      assert block[at..next] == block[at..at + 4] + block[at + 4..at + 4 + klen] + block[at + 4 + klen..next];
      assert EncodeEntry(e) == block[at..next];
      assert ([e] + rest)[0] == e && ([e] + rest)[1..] == rest;
      assert block[at..] == block[at..next] + block[next..];
    }
  }

  /** A file that opens is laid out as a table: data, an index of the entries found, a filter, and
      a footer that says where they are and ends in one of the two known marks. */
  lemma OpenedIsLaidOut(name: string, file: Bytes, useBloom: bool)
    requires OpenFile(name, file, useBloom).Some?
    ensures |file| >= 32
    ensures var t := OpenFile(name, file, useBloom).value; var footer := |file| - 32;
      && t.dataEnd + |t.bloom| <= footer && t.bloom == file[footer - |t.bloom|..footer]
      && PutU32(|t.index|) + EncodeEntries(t.index) <= file[t.dataEnd..footer - |t.bloom|]
      && file[footer..footer + 24] == PutU64(t.dataEnd) + PutU64(footer - |t.bloom|) + PutU64(t.entryCount)
      && file[footer + 24..] in [[67, 68, 66, 83, 83, 84, 118, 50], [67, 68, 66, 83, 83, 84, 118, 49]]
  {
    hide LoadU32, LoadU64, PutU32, PutU64, EncodeEntries;
    var t, footer := OpenFile(name, file, useBloom).value, |file| - 32;
    var bloomAt := LoadU64(file, footer + 8);
    var block := file[t.dataEnd..bloomAt];
    ParsedIndexIsEncoded(block, 4, LoadU32(block, 0), t.dataEnd);
    PutLoadU32(block, 0);
    assert block == block[0..4] + block[4..];
    PutLoadU64(file, footer);
    PutLoadU64(file, footer + 8);
    PutLoadU64(file, footer + 16);
    assert file[footer..footer + 24] ==
      file[footer..footer + 8] + file[footer + 8..footer + 16] + file[footer + 16..footer + 24];
  }

  // ---------------------------------------------------------------- what an open table holds

  /** `t` is a reader over exactly these rows. */
  ghost predicate Reads(t: Sstable, rows: Table) {
    && Ascending(rows)
    && t.dataEnd == |DataBlock(rows)|
    && t.dataEnd <= |t.file| && t.file[..t.dataEnd] == DataBlock(rows)
    && t.index == Index(rows)
    && t.entryCount == |rows|
    && forall i :: 0 <= i < |rows| ==> Bloom.MayContain(t.bloom, rows[i].key)
  }

  ghost predicate Packable(index: seq<IndexEntry>, dataEnd: nat) {
    forall i :: 0 <= i < |index| ==> Short(index[i].key) && index[i].offset <= dataEnd
  }

  lemma EntryFields(e: IndexEntry, block: Bytes, at: nat)
    requires at + |EncodeEntry(e)| <= |block| && block[at..at + |EncodeEntry(e)|] == EncodeEntry(e)
    ensures block[at..at + 4] == PutU32(|e.key|)
    ensures block[at + 4..at + 4 + |e.key|] == e.key
    ensures block[at + 4 + |e.key|..at + 12 + |e.key|] == PutU64(e.offset)
  {
    hide PutU32, PutU64;
    var s := EncodeEntry(e);
    Within(block, at, s, 0, 4);
    Within(block, at, s, 4, 4 + |e.key|);
    Within(block, at, s, 4 + |e.key|, 12 + |e.key|);
  }

  lemma ReadEntry(e: IndexEntry, rest: Bytes, block: Bytes, at: nat)
    requires Short(e.key) && e.offset < TWO_64
    requires at <= |block| && block[at..] == EncodeEntry(e) + rest
    ensures at + 12 + |e.key| <= |block| && LoadU32(block, at) == |e.key|
    ensures block[at + 4..at + 4 + |e.key|] == e.key && LoadU64(block, at + 4 + |e.key|) == e.offset
    ensures block[at + 12 + |e.key|..] == rest
  {
    hide PutU32, PutU64, LoadU32, LoadU64;
    var size := |EncodeEntry(e)|;
    assert block[at..at + size] == block[at..][..size] == EncodeEntry(e);
    EntryFields(e, block, at);
    LoadPutU32(|e.key|, block, at);
    LoadPutU64(e.offset, block, at + 4 + |e.key|);
    assert block[at + size..] == block[at..][size..] == rest;
  }

  lemma PackableTail(index: seq<IndexEntry>, dataEnd: nat)
    requires Packable(index, dataEnd) && index != []
    ensures Short(index[0].key) && index[0].offset <= dataEnd && Packable(index[1..], dataEnd)
  {
  }

  lemma {:induction false} ParseEncodedIndex(index: seq<IndexEntry>, block: Bytes, at: nat, dataEnd: nat)
    requires Packable(index, dataEnd) && dataEnd < TWO_64
    requires at <= |block| && block[at..] == EncodeEntries(index)
    ensures ParseIndex(block, at, |index|, dataEnd) == Some(index)
    decreases |index|
  {
    hide LoadU32, LoadU64, EncodeEntry, EncodeEntries, Packable, ParseIndex;
    if index == [] {
      NoEntries(block, at, dataEnd);
    } else {
      var e, rest := index[0], index[1..];
      PackableTail(index, dataEnd);
      FirstEntry(index);
      ReadEntry(e, EncodeEntries(rest), block, at);
      ParseEncodedIndex(rest, block, at + 12 + |e.key|, dataEnd);
      ParseOneEntry(e, rest, block, at, dataEnd);
      assert index == [e] + rest;
    }
  }

  lemma NoEntries(block: Bytes, at: nat, dataEnd: nat)
    ensures ParseIndex(block, at, 0, dataEnd) == Some([])
  {
  }

  lemma FirstEntry(index: seq<IndexEntry>)
    requires index != []
    ensures EncodeEntries(index) == EncodeEntry(index[0]) + EncodeEntries(index[1..])
  {
    hide EncodeEntry;
  }

  lemma ParseOneEntry(e: IndexEntry, rest: seq<IndexEntry>, block: Bytes, at: nat, dataEnd: nat)
    requires at + 12 + |e.key| <= |block| && LoadU32(block, at) == |e.key| && e.offset <= dataEnd
    requires block[at + 4..at + 4 + |e.key|] == e.key && LoadU64(block, at + 4 + |e.key|) == e.offset
    requires ParseIndex(block, at + 12 + |e.key|, |rest|, dataEnd) == Some(rest)
    ensures ParseIndex(block, at, |rest| + 1, dataEnd) == Some([e] + rest)
  {
    hide LoadU32, LoadU64;
  }

  lemma {:induction false} EntriesConcat(a: seq<IndexEntry>, b: seq<IndexEntry>)
    ensures EncodeEntries(a + b) == EncodeEntries(a) + EncodeEntries(b)
  {
    hide EncodeEntry;
    if a == [] {
      assert a + b == b;
    } else {
      assert (a + b)[1..] == a[1..] + b;
      EntriesConcat(a[1..], b);
    }
  }

  /** The index block is never much longer than the data it indexes. */
  lemma {:induction false} IndexBlockSize(rows: Table)
    ensures |EncodeEntries(Index(rows))| <= 2 * |DataBlock(rows)|
  {
    hide EncodeRow, DataBlock, EncodeEntries;
    if rows == [] {
      SingleEntry(IndexEntry([], 0));
    } else {
      var init, r := rows[..|rows| - 1], rows[|rows| - 1];
      assert rows == init + [r];
      IndexBlockSize(init);
      DataSnoc(init, r);
      if StartsBlock(ProgressAfter(init)) {
        var e := IndexEntry(r.key, ProgressAfter(init).offset);
        EntriesConcat(Index(init), [e]);
        SingleEntry(e);
      }
    }
  }

  lemma SingleEntry(e: IndexEntry)
    ensures EncodeEntries([e]) == EncodeEntry(e)
    ensures EncodeEntries([]) == []
  {
    hide EncodeEntry;
    assert EncodeEntries([e]) == EncodeEntry(e) + EncodeEntries([]);
  }

  lemma IndexPackable(rows: Table)
    requires Fits(rows)
    ensures Packable(Index(rows), |DataBlock(rows)|)
    ensures |Index(rows)| < TWO_32
  {
    hide ProgressAfter, DataBlock;
    IndexShape(rows);
    IndexIsSparse(rows);
    forall s | 0 <= s < |Index(rows)| ensures Index(rows)[s].offset <= |DataBlock(rows)| {
      DataSlice(rows, Starts(rows)[s], |rows|);
    }
  }

  lemma FooterFields(a: nat, b: nat, c: nat, file: Bytes, at: nat)
    requires a < TWO_64 && b < TWO_64 && c < TWO_64
    requires at + FOOTER == |file| && file[at..] == Footer(a, b, c)
    ensures LoadU64(file, at) == a && LoadU64(file, at + 8) == b && LoadU64(file, at + 16) == c
    ensures file[at + 24..] == MAGIC
  {
    hide PutU64, LoadU64;
    var f := Footer(a, b, c);
    assert file[at..at + |f|] == f;
    Within(file, at, f, 0, 8);
    Within(file, at, f, 8, 16);
    Within(file, at, f, 16, 24);
    Within(file, at, f, 24, 32);
    LoadPutU64(a, file, at);
    LoadPutU64(b, file, at + 8);
    LoadPutU64(c, file, at + 16);
  }

  lemma {:induction false} RowsWithinData(rows: Table)
    ensures |rows| <= |DataBlock(rows)|
  {
    hide EncodeRow;
    if rows != [] { RowsWithinData(rows[1..]); }
  }

  /** Writing a table and opening the bytes gives a reader over exactly its rows. */
  lemma OpenWritten(rows: Table, bitsPerKey: int, name: string, useBloom: bool)
    requires Ascending(rows) && Fits(rows)
    ensures var t := OpenFile(name, File(rows, bitsPerKey), useBloom);
      t.Some? && Reads(t.value, rows)
  {
    hide DataBlock, EncodeEntries, ProgressAfter, PutU32, PutU64, LoadU32, LoadU64, ParseIndex, Footer;
    hide Bloom.Block, Bloom.MayContain;
    var data, index, bloom := DataBlock(rows), IndexBlock(Index(rows)), Bloom.Block(Keys(rows), bitsPerKey);
    var indexAt := |data|;
    var bloomAt := indexAt + |index|;
    var footer := Footer(indexAt, bloomAt, |rows|);
    var file := File(rows, bitsPerKey);
    var footerAt := |file| - FOOTER;
    assert file == data + index + bloom + footer;
    assert file[footerAt..] == footer;
    IndexPackable(rows);
    IndexBlockSize(rows);
    RowsWithinData(rows);
    FooterFields(indexAt, bloomAt, |rows|, file, footerAt);
    assert file[indexAt..bloomAt] == index;
    assert file[bloomAt..footerAt] == bloom;
    assert file[..indexAt] == data;
    assert index[0..4] == PutU32(|Index(rows)|) && index[4..] == EncodeEntries(Index(rows));
    LoadPutU32(|Index(rows)|, index, 0);
    ParseEncodedIndex(Index(rows), index, 4, indexAt);
    forall i | 0 <= i < |rows| ensures Bloom.MayContain(bloom, rows[i].key) {
      assert Keys(rows)[i] == rows[i].key;
      Bloom.NoFalseNegatives(Keys(rows), bitsPerKey, rows[i].key);
    }
  }

  // ---------------------------------------------------------------- looking up

  /** A lookup's answer: a tombstone is reported without value or expiry. */
  function Answer(hit: Option<Row>): (a: Option<Row>) {
    if hit.Some? && hit.value.tombstone then Some(Row(hit.value.key, [], true, 0)) else hit
  }

  /** `std::upper_bound` over the index keys. */
  method UpperBound(index: seq<IndexEntry>, key: Bytes) returns (n: nat)
    requires forall i, j :: 0 <= i < j < |index| ==> Less(index[i].key, index[j].key)
    ensures n <= |index|
    ensures forall i :: 0 <= i < n ==> LessEq(index[i].key, key)
    ensures forall i :: n <= i < |index| ==> Less(key, index[i].key)
  {
    var lo, hi := 0, |index|;
    while lo < hi
      invariant lo <= hi <= |index|
      invariant forall i :: 0 <= i < lo ==> LessEq(index[i].key, key)
      invariant forall i :: hi <= i < |index| ==> Less(key, index[i].key)
    {
      var mid := (lo + hi) / 2;
      LessTotal(key, index[mid].key);
      if Less(key, index[mid].key) {
        forall i | mid < i < |index| ensures Less(key, index[i].key) {
          LessTransitive(key, index[mid].key, index[i].key);
        }
        hi := mid;
      } else {
        forall i | 0 <= i < mid ensures LessEq(index[i].key, key) {
          LessEqTransitive(index[i].key, index[mid].key, key);
        }
        lo := mid + 1;
      }
    }
    n := lo;
  }

  lemma IndexAscending(rows: Table)
    requires Ascending(rows)
    ensures forall i, j :: 0 <= i < j < |Index(rows)| ==> Less(Index(rows)[i].key, Index(rows)[j].key)
  {
    IndexShape(rows);
  }

  /** The rows outside block `s` cannot hold a key that belongs into it. */
  lemma OnlyInBlock(rows: Table, s: nat, key: Bytes)
    requires Ascending(rows) && s < |Starts(rows)|
    requires IndexMatches(rows, Index(rows), Starts(rows))
    requires LessEq(Index(rows)[s].key, key)
    requires s + 1 < |Index(rows)| ==> Less(key, Index(rows)[s + 1].key)
    ensures Starts(rows)[s] <= BlockEnd(rows, s) <= |rows|
    ensures Search(rows, key) == Search(rows[Starts(rows)[s]..BlockEnd(rows, s)], key)
  {
    hide Index, Starts;
    var a, b := Starts(rows)[s], BlockEnd(rows, s);
    forall i | 0 <= i < a ensures rows[i].key != key {
      LessEqTransitive(rows[i].key, rows[a].key, key);
      LessIrreflexive(key);
    }
    forall i | b <= i < |rows| ensures rows[i].key != key {
      if b < i { LessTransitive(key, rows[b].key, rows[i].key); }
      LessIrreflexive(key);
    }
    assert rows == rows[..a] + (rows[a..b] + rows[b..]);
    SearchConcat(rows[..a], rows[a..b] + rows[b..], key);
    SearchConcat(rows[a..b], rows[b..], key);
    SearchMiss(rows[..a], key);
    SearchMiss(rows[b..], key);
  }

  /** A key below every row is nowhere. */
  lemma BelowFirst(rows: Table, key: Bytes)
    requires Ascending(rows) && (rows == [] || Less(key, rows[0].key))
    ensures Search(rows, key).None?
  {
    forall i | 0 <= i < |rows| ensures rows[i].key != key {
      if i > 0 { LessTransitive(key, rows[0].key, rows[i].key); }
      LessIrreflexive(key);
    }
    SearchMiss(rows, key);
  }

  /** The scan of one block: the first row at or past the key settles it. */
  method ScanBlock(block: Bytes, key: Bytes, ghost rows: Table) returns (found: Option<Row>)
    requires Ascending(rows) && block == DataBlock(rows)
    ensures found == Answer(Search(rows, key))
  {
    hide ParseRow, EncodeRow, DataBlock;
    var pos := 0;
    ghost var j := 0;
    OffsetEnds(rows);
    while pos + 9 <= |block|
      invariant j <= |rows| && pos == OffsetOf(rows, j)
      invariant forall i :: 0 <= i < j ==> Less(rows[i].key, key)
      decreases |rows| - j
    {
      assert j < |rows|;
      OffsetNext(rows, j);
      ParseEncoded(rows[j], block, pos);
      var p := ParseRow(block, pos);
      var row := p.value.row;
      LessTotal(row.key, key);
      if row.key == key {
        SearchHit(rows, j);
        found := if row.tombstone then Some(Row(row.key, [], true, 0)) else Some(row);
        return;
      }
      if Less(key, row.key) {
        forall i | 0 <= i < |rows| ensures rows[i].key != key {
          LessIrreflexive(key);
          if i > j { LessTransitive(key, row.key, rows[i].key); }
        }
        SearchMiss(rows, key);
        return None;
      }
      pos := p.value.end;
      j := j + 1;
    }
    if j < |rows| {
      OffsetNext(rows, j);
      assert false;
    }
    forall i | 0 <= i < |rows| ensures rows[i].key != key { LessIrreflexive(key); }
    SearchMiss(rows, key);
    return None;
  }

  lemma BlockNotEmpty(rows: Table, a: nat, b: nat)
    requires a < b <= |rows|
    ensures OffsetOf(rows, a) < OffsetOf(rows, b)
  {
    hide DataBlock, EncodeRow;
    OffsetNext(rows, a);
    DataSlice(rows, a + 1, b);
  }

  lemma SliceOfPrefix(s: Bytes, end: nat, from: nat, to: nat)
    requires from <= to <= end <= |s|
    ensures s[from..to] == s[..end][from..to]
  {
  }

  /** The bytes between one index entry and the next are the rows of that block. */
  lemma BlockBytes(t: Sstable, rows: Table, slot: nat)
    requires Reads(t, rows) && slot < |Starts(rows)| && |t.index| == |Starts(rows)|
    requires Starts(rows)[slot] <= BlockEnd(rows, slot) <= |rows| && Starts(rows)[slot] < |rows|
    ensures var a, b := Starts(rows)[slot], BlockEnd(rows, slot);
      var from := t.index[slot].offset;
      var to := if slot + 1 < |t.index| then t.index[slot + 1].offset else t.dataEnd;
      && from == OffsetOf(rows, a) && to == OffsetOf(rows, b)
      && from <= to <= t.dataEnd <= |t.file| && t.file[from..to] == DataBlock(rows[a..b])
  {
    hide Index, Starts, DataBlock, EncodeRow, OffsetOf, Bloom.MayContain, Ascending;
    IndexShape(rows);
    var a, b := Starts(rows)[slot], BlockEnd(rows, slot);
    OffsetEnds(rows);
    DataSlice(rows, a, b);
    DataSlice(rows, b, |rows|);
    SliceOfPrefix(t.file, t.dataEnd, OffsetOf(rows, a), OffsetOf(rows, b));
  }

  /** `Sstable::get`: filter, index, one block. Equal to a linear search of the rows the
      table was written from, with the filter on or off. */
  method Get(t: Sstable, key: Bytes, ghost rows: Table) returns (found: Option<Row>)
    requires Reads(t, rows)
    ensures found == Answer(Search(rows, key))
  {
    hide Bloom.MayContain, Index, Starts, DataBlock, EncodeRow;
    IndexShape(rows);
    IndexAscending(rows);
    if t.useBloom {
      var possible := Bloom.Query(t.bloom, key);
      if !possible {
        SearchMiss(rows, key);
        return None;
      }
    }
    if t.index == [] { return None; }
    var above := UpperBound(t.index, key);
    if above == 0 {
      BelowFirst(rows, key);
      return None;
    }
    var slot := above - 1;
    OnlyInBlock(rows, slot, key);
    ghost var a, b := Starts(rows)[slot], BlockEnd(rows, slot);
    BlockBytes(t, rows, slot);
    var from := t.index[slot].offset;
    var to := if slot + 1 < |t.index| then t.index[slot + 1].offset else t.dataEnd;
    if to <= from {
      BlockNotEmpty(rows, a, b);
      return None;
    }
    AscendingSlice(rows, a, b);
    found := ScanBlock(t.file[from..to], key, rows[a..b]);
  }
}
