/** Writing a table row by row under a temporary name. */
module SstableWriter {
  import opened ByteStrings
  import opened Rows
  import opened SstableFormat
  import opened FileSystem
  import Bloom

  class Writer {
    const dir: Directory
    const name: string
    const bitsPerKey: int
    var progress: Progress    // index_, offset_, bytes_since_index_
    var bloomKeys: seq<Bytes>
    var failed: bool
    var finished: bool

    ghost var rows: Table     // the rows added so far

    ghost predicate Valid()
      reads this, dir
    {
      && name in dir.files
      && (!failed && !finished ==>
            && dir.files[name] == DataBlock(rows) && Fits(rows)
            && progress == ProgressAfter(rows) && bloomKeys == Keys(rows))
    }

    constructor (d: Directory, temp: string, bits: int)
      modifies d
      ensures dir == d && name == temp && bitsPerKey == bits
      ensures Valid() && !failed && !finished && rows == []
      ensures OnlyTouched(old(d.Now()), d.Now(), temp)
    {
      dir, name, bitsPerKey := d, temp, bits;
      progress, bloomKeys, failed, finished, rows := Progress([], 0, 0), [], false, false, [];
      new;
      dir.Create(name);
    }

    method Add(r: Row)
      requires Valid() && !finished
      modifies this, dir
      ensures Valid() && !finished && OnlyTouched(old(dir.Now()), dir.Now(), name)
      ensures old(failed) ==> failed
      ensures !failed ==> rows == old(rows) + [r]
      ensures failed && !old(failed) ==> dir.refused > old(dir.refused)
    {
      hide DataBlock, EncodeRow, ProgressAfter;
      if failed { return; }
      ghost var more := rows + [r];
      assert more[..|rows|] == rows;
      DataSnoc(rows, r);
      AdvanceSnoc(rows, r);
      var ok := dir.TryAppend(name, EncodeRow(r));
      if !ok { failed := true; return; }
      progress := Advance(progress, r);
      bloomKeys := bloomKeys + [r.key];
      rows := more;
      assert bloomKeys == Keys(more);
    }

    /** Index, filter and footer, then the fsync: the bytes are the whole file. */
    method Finish() returns (ok: bool)
      requires Valid()
      modifies this, dir
      ensures name in dir.files && OnlyTouched(old(dir.Now()), dir.Now(), name) && finished
      ensures ok ==> !old(finished) && !old(failed) && rows == old(rows) && Fits(rows)
      ensures ok ==> dir.files[name] == File(rows, bitsPerKey) && name !in dir.dirtyData
      ensures !ok && !old(failed) && !old(finished) ==> dir.refused > old(dir.refused)
    {
      hide DataBlock, EncodeRow, ProgressAfter, IndexBlock, Bloom.Block, Footer, OnlyTouched;
      OnlyTouchedNot(dir.Now(), name);
      if failed || finished { finished := true; return false; }
      finished := true;
      IndexShape(rows);
      var indexOffset := progress.offset;
      var block := IndexBlock(progress.index);
      ok := dir.TryAppend(name, block);
      if !ok { return; }
      label A:
      var bloomOffset := indexOffset + |block|;
      var filter := Bloom.Build(bloomKeys, bitsPerKey);
      ok := dir.TryAppend(name, filter);
      OnlyTouchedTransitive(old(dir.Now()), old@A(dir.Now()), dir.Now(), name);
      if !ok { return; }
      label B:
      var footer := Footer(indexOffset, bloomOffset, |bloomKeys|);
      ok := dir.TryAppend(name, footer);
      OnlyTouchedTransitive(old(dir.Now()), old@B(dir.Now()), dir.Now(), name);
      if !ok { return; }
      label C:
      dir.Fsync(name);
      OnlyTouchedSync(old(dir.Now()), old@C(dir.Now()), dir.Now(), name);
    }
  }

  lemma AdvanceSnoc(rows: Table, r: Row)
    ensures ProgressAfter(rows + [r]) == Advance(ProgressAfter(rows), r)
  {
    hide Advance;
    assert (rows + [r])[..|rows|] == rows;
  }
}
