/** The formats byte by byte, on small examples: what a reader of the files has to find where. */
module Formats {
  import opened ByteStrings
  import opened Rows
  import opened WalCodec
  import opened Decimal
  import opened FileNames
  import Bloom
  import Crc32
  import SstableFormat

  /** Numbers are little-endian, signed ones in two's complement. */
  lemma LittleEndian()
    ensures PutU32(0x0403_0201) == [1, 2, 3, 4]
    ensures PutU64(0x0807_0605_0403_0201) == [1, 2, 3, 4, 5, 6, 7, 8]
    ensures PutI64(-2) == [254, 255, 255, 255, 255, 255, 255, 255]
  {
  }

  // ---------------------------------------------------------------- a log record

  /** Timestamp, op, lengths, expiry if any, key, value; and the checksum of all that in front.
      A set: */
  lemma SetRecord()
    ensures CoveredIs(Mutation(SetOp, 1, 0, [107], [118]),
      [1, 0, 0, 0, 0, 0, 0, 0] + [0] + [1, 0, 0, 0] + [1, 0, 0, 0] + [] + [107] + [118])
  {
    SmallNumbers();
    hide PutU32, PutU64, PutI64, CoveredIs;
    RecordIs(Mutation(SetOp, 1, 0, [107], [118]), [1, 0, 0, 0, 0, 0, 0, 0], 0, [1, 0, 0, 0], [1, 0, 0, 0], []);
  }

  /** A set with an expiry: */
  lemma ExpiringRecord()
    ensures CoveredIs(Mutation(SetOp, 1, 3, [107], [118]),
      [1, 0, 0, 0, 0, 0, 0, 0] + [2] + [1, 0, 0, 0] + [1, 0, 0, 0] + [3, 0, 0, 0, 0, 0, 0, 0] + [107] + [118])
  {
    SmallNumbers();
    hide PutU32, PutU64, PutI64, CoveredIs;
    RecordIs(Mutation(SetOp, 1, 3, [107], [118]), [1, 0, 0, 0, 0, 0, 0, 0], 2, [1, 0, 0, 0], [1, 0, 0, 0],
             [3, 0, 0, 0, 0, 0, 0, 0]);
  }

  /** A delete: */
  lemma DeleteRecord()
    ensures CoveredIs(Mutation(DeleteOp, 1, 0, [107], []),
      [1, 0, 0, 0, 0, 0, 0, 0] + [1] + [1, 0, 0, 0] + [0, 0, 0, 0] + [] + [107] + [])
  {
    SmallNumbers();
    hide PutU32, PutU64, PutI64, CoveredIs;
    RecordIs(Mutation(DeleteOp, 1, 0, [107], []), [1, 0, 0, 0, 0, 0, 0, 0], 1, [1, 0, 0, 0], [0, 0, 0, 0], []);
  }

  /** The record is these bytes behind their checksum. */
  ghost predicate CoveredIs(r: Record, covered: Bytes) {
    Encode(r)[4..] == covered && LoadU32(Encode(r), 0) == Crc32.Crc(covered)
  }

  lemma SmallNumbers()
    ensures PutU32(0) == [0, 0, 0, 0] && PutU32(1) == [1, 0, 0, 0]
    ensures PutI64(1) == [1, 0, 0, 0, 0, 0, 0, 0] && PutI64(3) == [3, 0, 0, 0, 0, 0, 0, 0]
  {
  }

  lemma RecordIs(r: Record, timestamp: Bytes, op: byte, klen: Bytes, vlen: Bytes, expiry: Bytes)
    requires PutI64(r.timestamp) == timestamp && OpByte(r) == op && PutU32(|r.key|) == klen && PutU32(|r.value|) == vlen
    requires expiry == if CarriesExpiry(r) then PutI64(r.stamp) else []
    ensures CoveredIs(r, timestamp + [op] + klen + vlen + expiry + r.key + r.value)
  {
    hide PutI64, OpByte, Crc32.Crc;
    var e := Encode(r);
    assert e[4..] == Covered(r) && e[0..4] == PutU32(Crc32.Crc(Covered(r)));
    LoadPutU32(Crc32.Crc(Covered(r)), e, 0);
  }

  // ---------------------------------------------------------------- a table

  /** A table of one row: the row, the index with its one entry, the filter, the footer. */
  lemma OneRowFile()
    ensures SstableFormat.File([Row([107], [118], false, 0)], 10) ==
      ([1, 0, 0, 0] + [1, 0, 0, 0] + [0] + [107] + [118])
      + ([1, 0, 0, 0] + ([1, 0, 0, 0] + [107] + [0, 0, 0, 0, 0, 0, 0, 0]))
      + Bloom.Block([[107]], 10)
      + ([11, 0, 0, 0, 0, 0, 0, 0] + [28, 0, 0, 0, 0, 0, 0, 0] + [1, 0, 0, 0, 0, 0, 0, 0]
         + [67, 68, 66, 83, 83, 84, 118, 50])
  {
    var r := Row([107], [118], false, 0);
    RowBytes();
    IndexBytes(r);
    FooterBytes();
    OneKey(r);
    hide SstableFormat.File, SstableFormat.Footer, SstableFormat.IndexBlock, SstableFormat.DataBlock,
      SstableFormat.Index, Bloom.Block, SstableFormat.Keys;
    FileIs([r], 10, [1, 0, 0, 0] + [1, 0, 0, 0] + [0] + [107] + [118],
           [1, 0, 0, 0] + ([1, 0, 0, 0] + [107] + [0, 0, 0, 0, 0, 0, 0, 0]), [[107]],
           [11, 0, 0, 0, 0, 0, 0, 0] + [28, 0, 0, 0, 0, 0, 0, 0] + [1, 0, 0, 0, 0, 0, 0, 0]
           + [67, 68, 66, 83, 83, 84, 118, 50], 11, 28);
  }

  lemma OneKey(r: Row)
    ensures SstableFormat.Keys([r]) == [r.key]
  {
  }

  lemma FileIs(rows: Table, bits: int, data: Bytes, index: Bytes, keys: seq<Bytes>, footer: Bytes, at: nat,
               filterAt: nat)
    requires SstableFormat.DataBlock(rows) == data && SstableFormat.IndexBlock(SstableFormat.Index(rows)) == index
    requires SstableFormat.Keys(rows) == keys && |data| == at && |data| + |index| == filterAt
    requires SstableFormat.Footer(at, filterAt, |rows|) == footer
    ensures SstableFormat.File(rows, bits) == data + index + Bloom.Block(keys, bits) + footer
  {
    hide SstableFormat.DataBlock, SstableFormat.IndexBlock, SstableFormat.Index, SstableFormat.Keys,
      SstableFormat.Footer, Bloom.Block;
  }

  lemma RowBytes()
    ensures SstableFormat.DataBlock([Row([107], [118], false, 0)]) ==
      [1, 0, 0, 0] + [1, 0, 0, 0] + [0] + [107] + [118]
    ensures SstableFormat.EncodeRow(Row([107], [118], false, 3)) ==
      [1, 0, 0, 0] + [1, 0, 0, 0] + [2] + [3, 0, 0, 0, 0, 0, 0, 0] + [107] + [118]
    ensures SstableFormat.EncodeRow(Row([107], [], true, 0)) == [1, 0, 0, 0] + [0, 0, 0, 0] + [1] + [107]
  {
    SmallNumbers();
    var r := Row([107], [118], false, 0);
    SstableFormat.DataSnoc([], r);
    assert [] + [r] == [r];
  }

  lemma IndexBytes(r: Row)
    requires r == Row([107], [118], false, 0)
    ensures SstableFormat.IndexBlock(SstableFormat.Index([r])) ==
      [1, 0, 0, 0] + ([1, 0, 0, 0] + [107] + [0, 0, 0, 0, 0, 0, 0, 0])
  {
    assert [r][..0] == [] && SstableFormat.ProgressAfter([]) == SstableFormat.Progress([], 0, 0);
    assert SstableFormat.ProgressAfter([r]) == SstableFormat.Advance(SstableFormat.ProgressAfter([]), r);
    var entry := SstableFormat.IndexEntry([107], 0);
    assert SstableFormat.Index([r]) == [entry];
    assert SstableFormat.EncodeEntries([entry]) == SstableFormat.EncodeEntry(entry) + SstableFormat.EncodeEntries([]);
  }

  lemma FooterBytes()
    ensures SstableFormat.Footer(11, 28, 1) ==
      [11, 0, 0, 0, 0, 0, 0, 0] + [28, 0, 0, 0, 0, 0, 0, 0] + [1, 0, 0, 0, 0, 0, 0, 0]
      + [67, 68, 66, 83, 83, 84, 118, 50]
  {
  }

  /** Ten bits and seven probes a key, in whole bytes, and never fewer than 64 bits. */
  lemma FilterSizes()
    ensures Bloom.OptimalProbes(10) == 7 && Bloom.OptimalProbes(0) == 1 && Bloom.OptimalProbes(100) == 30
    ensures Bloom.BitsFor(1, 10) == 64 && Bloom.BitsFor(7, 10) == 72 && Bloom.BitsFor(100, 10) == 1000
  {
  }

  // ---------------------------------------------------------------- names

  /** At least six digits, and then as many as it takes. */
  lemma Names()
    ensures TableName(7) == "000007.sst" && TableName(1234567) == "1234567.sst"
    ensures WAL == "wal.log"
  {
    assert DigitsOf(7) == [7];
    assert DigitsOf(1234567) == [1, 2, 3, 4, 5, 6, 7];
  }
}
