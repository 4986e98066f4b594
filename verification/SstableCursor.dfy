/** The windowed cursor a merge reads a table through. */
module SstableCursor {
  import opened ByteStrings
  import opened Rows
  import opened SstableFormat
  import opened SstableReader

  const WINDOW: nat := 65536

  lemma HeaderAt(r: Row, data: Bytes, at: nat)
    requires at + 9 <= |data| && data[at..at + 9] == EncodeRow(r)[..9]
    ensures LoadU32(data, at) == |r.key| && LoadU32(data, at + 4) == |r.value| && data[at + 8] == Flags(r)
  {
    hide EncodeRow, PutU32, LoadU32, Flags;
    RowHeader(r);
    var e := EncodeRow(r)[..9];
    Within(data, at, e, 0, 4);
    Within(data, at, e, 4, 8);
    Within(data, at, e, 8, 9);
    assert data[at + 8..at + 9] == [data[at + 8]];
    LoadPutU32(|r.key|, data, at);
    LoadPutU32(|r.value|, data, at + 4);
  }

  function Extract(data: Bytes, at: nat, body: nat, klen: nat, total: nat, flags: byte): (r: Row)
    requires body + klen <= total && 9 <= body && at + total <= |data|
    requires klen < TWO_32 && total - body - klen < TWO_32
    requires flags / 2 % 2 == 1 ==> 17 <= body
  {
    Row(data[at + body..at + body + klen], data[at + body + klen..at + total],
        flags % 2 == 1, if flags / 2 % 2 == 1 then LoadI64(data, at + 9) else 0)
  }

  lemma ExtractEncoded(r: Row, data: Bytes, at: nat)
    requires at + |EncodeRow(r)| <= |data| && data[at..at + |EncodeRow(r)|] == EncodeRow(r)
    ensures var body := 9 + if CarriesExpiry(r) then 8 else 0;
      && |EncodeRow(r)| == body + |r.key| + |r.value|
      && Extract(data, at, body, |r.key|, |EncodeRow(r)|, Flags(r)) == Stored(r)
  {
    hide EncodeRow, LoadI64, PutI64;
    RowFields(r, data, at);
    if CarriesExpiry(r) { LoadPutI64(r.stamp, data, at + 9); }
  }

  /** The window is a copy of part of the data block and of nothing behind it. */
  ghost predicate IsWindow(t: Sstable, rows: Table, start: nat, buf: Bytes) {
    && t.dataEnd == |DataBlock(rows)| <= |t.file|
    && t.file[..t.dataEnd] == DataBlock(rows)
    && start + |buf| <= t.dataEnd
    && buf == t.file[start..start + |buf|]
  }

  lemma WindowEnd(t: Sstable, rows: Table, start: nat, buf: Bytes)
    requires IsWindow(t, rows, start, buf)
    ensures t.dataEnd == |DataBlock(rows)|
  {
  }

  /** As much of row `i` as the window holds is where it should be. */
  lemma WindowShows(t: Sstable, rows: Table, start: nat, buf: Bytes, i: nat, n: nat)
    requires IsWindow(t, rows, start, buf) && i < |rows| && start <= OffsetOf(rows, i)
    requires n <= |EncodeRow(rows[i])| && OffsetOf(rows, i) - start + n <= |buf|
    ensures var p := OffsetOf(rows, i) - start; buf[p..p + n] == EncodeRow(rows[i])[..n]
  {
    hide DataBlock, EncodeRow, OffsetOf;
    OffsetNext(rows, i);
    var pos := OffsetOf(rows, i);
    var p := pos - start;
    var e := EncodeRow(rows[i]);
    forall k | 0 <= k < n ensures buf[p + k] == e[k] {
      assert buf[p + k] == t.file[pos + k];
      assert t.file[pos + k] == t.file[..t.dataEnd][pos + k];
      assert e[k] == DataBlock(rows)[pos..OffsetOf(rows, i + 1)][k];
    }
    assert buf[p..p + n] == e[..n];
  }

  class Cursor {
    const table: Sstable
    var pos: nat        // file offset of the next row
    var bufStart: nat   // file offset the window begins at
    var buf: Bytes
    var current: AnyRow // key_, value_, tombstone_ and expires_at_ms_
    var valid: bool
    var failed: bool

    ghost const rows: Table
    ghost var taken: nat  // rows read so far; the cursor stands on the last of them

    ghost predicate WindowInData()
      reads this
    {
      && IsWindow(table, rows, bufStart, buf)
      && taken <= |rows| && pos == OffsetOf(rows, taken)
      && !failed
    }

    /** Standing on row `taken - 1`, or past the last row. */
    ghost predicate Valid()
      reads this
    {
      && WindowInData()
      && (valid ==> taken > 0 && current == Stored(rows[taken - 1]))
      && (!valid ==> taken == |rows|)
    }

    constructor (t: Sstable, ghost contents: Table)
      requires Reads(t, contents)
      ensures Valid() && table == t && rows == contents
      ensures valid == (contents != []) && (valid ==> taken == 1)
    {
      table, pos, bufStart, buf := t, 0, 0, [];
      current, valid, failed := Row([], [], false, 0), false, false;
      rows, taken := contents, 0;
      new;
      OffsetEnds(rows);
      Load();
    }

    /** Afterwards the window holds `need` bytes from `pos`, unless the data block ends
        before that. */
    method Ensure(need: nat) returns (ok: bool)
      requires WindowInData()
      modifies this`buf, this`bufStart
      ensures WindowInData()
      ensures ok == (pos + need <= table.dataEnd)
      ensures ok ==> bufStart <= pos && pos - bufStart + need <= |buf|
    {
      hide DataBlock, OffsetOf;
      if pos >= bufStart && pos - bufStart + need <= |buf| { return true; }
      if pos + need > table.dataEnd { return false; }
      var remaining := table.dataEnd - pos;
      var most := if need > WINDOW then need else WINDOW;
      var want := if remaining < most then remaining else most;
      buf := table.file[pos..pos + want];
      bufStart := pos;
      return true;
    }

    /** The nine bytes that say how long the row is. */
    method Header() returns (ok: bool, klen: nat, vlen: nat, flags: byte)
      requires WindowInData() && taken < |rows|
      modifies this`buf, this`bufStart
      ensures WindowInData() && ok
      ensures klen == |rows[taken].key| && vlen == |rows[taken].value| && flags == Flags(rows[taken])
    {
      hide DataBlock, EncodeRow, LoadU32, OffsetOf, IsWindow, Flags;
      WindowEnd(table, rows, bufStart, buf);
      OffsetNext(rows, taken);
      klen, vlen, flags := 0, 0, 0;
      ok := Ensure(9);
      if !ok { return; }
      WindowShows(table, rows, bufStart, buf, taken, 9);
      var p := pos - bufStart;
      HeaderAt(rows[taken], buf, p);
      klen, vlen, flags := LoadU32(buf, p), LoadU32(buf, p + 4), buf[p + 8];
    }

    /** The row itself, once all of it is in the window. */
    method Take(body: nat, klen: nat, total: nat, flags: byte)
      requires WindowInData() && taken < |rows|
      requires body == 9 + (if CarriesExpiry(rows[taken]) then 8 else 0)
      requires klen == |rows[taken].key| && total == |EncodeRow(rows[taken])| && flags == Flags(rows[taken])
      requires bufStart <= pos && pos - bufStart + total <= |buf|
      modifies this`current, this`pos, this`taken, this`valid
      ensures Valid() && valid && taken == old(taken) + 1
    {
      hide DataBlock, EncodeRow, LoadI64, OffsetOf, IsWindow, Extract, Stored;
      OffsetNext(rows, taken);
      var p := pos - bufStart;
      WindowShows(table, rows, bufStart, buf, taken, total);
      ExtractEncoded(rows[taken], buf, p);
      current := Extract(buf, p, body, klen, total, flags);
      pos, taken, valid := pos + total, taken + 1, true;
    }

    method Load()
      requires WindowInData()
      modifies this
      ensures Valid()
      ensures valid == (old(taken) < |rows|)
      ensures taken == old(taken) + if valid then 1 else 0
    {
      hide DataBlock, EncodeRow, OffsetOf, IsWindow, Stored;
      valid := false;
      WindowEnd(table, rows, bufStart, buf);
      OffsetEnds(rows);
      if failed || pos >= table.dataEnd {
        if taken < |rows| { OffsetNext(rows, taken); }
        return;
      }
      OffsetNext(rows, taken);
      RowBody(rows[taken]);
      var ok, klen, vlen, flags := Header();
      if !ok { return; }
      var body := 9 + if flags / 2 % 2 == 1 then 8 else 0;
      var total := body + klen + vlen;
      ok := Ensure(total);
      if !ok { return; }
      Take(body, klen, total, flags);
    }

    method Next()
      requires Valid()
      modifies this
      ensures Valid()
      ensures valid == (old(taken) < |rows|)
      ensures taken == old(taken) + if valid then 1 else 0
    {
      Load();
    }
  }

  ghost function StoredAll(rows: Table): (s: Table)
    ensures |s| == |rows| && forall i :: 0 <= i < |rows| ==> s[i] == Stored(rows[i])
  {
    seq(|rows|, i requires 0 <= i < |rows| => Stored(rows[i]))
  }

  /** Walking a cursor to its end yields exactly the rows that were written, in order,
      however they fall across the window, and ends without a failure. */
  method Enumerate(t: Sstable, ghost rows: Table) returns (out: seq<AnyRow>, failed: bool)
    requires Reads(t, rows)
    ensures out == StoredAll(rows) && !failed
  {
    hide IsWindow, OffsetOf, Stored;
    var c := new Cursor(t, rows);
    out := [];
    while c.valid
      invariant c.Valid() && c.rows == rows && c.table == t
      invariant out == StoredAll(rows)[..if c.valid then c.taken - 1 else c.taken]
      decreases |rows| - c.taken, c.valid
    {
      out := out + [c.current];
      c.Next();
    }
    failed := c.failed;
  }
}
