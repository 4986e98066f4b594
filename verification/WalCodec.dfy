/** The write-ahead log's record format and its replay.

      [crc32: 4][timestamp: 8][op: 1][klen: 4][vlen: 4][expiry: 8]?[key][value]

    The expiry is present exactly when the op byte says so. */
module WalCodec {
  import opened ByteStrings
  import opened Crc32

  datatype Op = SetOp | DeleteOp

  datatype Mutation = Mutation(op: Op, timestamp: int, stamp: int, key: Bytes, value: Bytes)

  const HEADER: nat := 21
  const EXPIRY: nat := 8

  /** What the fixed-width fields can carry. */
  predicate Encodable(r: Mutation) {
    IsInt64(r.timestamp) && IsInt64(r.stamp) && Short(r.key) && Short(r.value)
  }

  type Record = r: Mutation | Encodable(r) witness Mutation(SetOp, 0, 0, [], [])

  predicate CarriesExpiry(r: Record) {
    r.op == SetOp && r.stamp != 0
  }

  /** What a record means once it has been through the log: a delete has no expiry. */
  function Meaning(r: Record): Record {
    if r.op == DeleteOp then r.(stamp := 0) else r
  }

  // ---------------------------------------------------------------- encoding

  function OpByte(r: Record): (b: byte)
    ensures b <= 2
  {
    if CarriesExpiry(r) then 2 else if r.op == SetOp then 0 else 1
  }

  /** Everything the checksum covers: timestamp through value. */
  function Covered(r: Record): (s: Bytes)
  {
    PutI64(r.timestamp) + [OpByte(r)] + PutU32(|r.key|) + PutU32(|r.value|)
    + (if CarriesExpiry(r) then PutI64(r.stamp) else []) + r.key + r.value
  }

  function Encode(r: Record): (s: Bytes)
    ensures |s| >= HEADER
  {
    PutU32(Crc(Covered(r))) + Covered(r)
  }

  function BodyAt(r: Record): nat {
    HEADER + if CarriesExpiry(r) then EXPIRY else 0
  }

  /** The encoder writes a placeholder for the checksum, appends the covered fields and
      then patches the placeholder in place. */
  method EncodeInto(buffer: Bytes, r: Record) returns (out: Bytes)
    ensures out == buffer + Encode(r)
  {
    var crcAt := |buffer|;
    out := buffer + PutU32(0);
    var coveredFrom := |out|;
    out := out + PutI64(r.timestamp);
    out := out + [OpByte(r)];
    out := out + PutU32(|r.key|);
    out := out + PutU32(|r.value|);
    if CarriesExpiry(r) { out := out + PutI64(r.stamp); }
    out := out + r.key;
    out := out + r.value;
    assert out[coveredFrom..] == Covered(r);
    assert out[..crcAt] == buffer;
    var crc := Checksum(out[coveredFrom..]);
    out := out[..crcAt] + PutU32(crc) + out[crcAt + 4..];
  }

  // ---------------------------------------------------------------- decoding

  datatype DecodeResult =
    | Decoded(consumed: nat, record: Record)
    | Incomplete
    | Corrupt

  /** The length a header claims, given that the header is there. */
  function ClaimedSize(data: Bytes): (n: nat)
    requires |data| >= HEADER
    ensures n >= HEADER
  {
    HEADER + (if data[12] == 2 then EXPIRY else 0) + LoadU32(data, 13) + LoadU32(data, 17)
  }

  /** The fields, once the checks are past. */
  function RecordAt(data: Bytes, body: nat, klen: nat, vlen: nat): Record
    requires HEADER <= body && body + klen + vlen <= |data| && klen < TWO_32 && vlen < TWO_32
    requires data[12] == 2 ==> HEADER + EXPIRY <= |data|
  {
    Mutation(
      if data[12] == 1 then DeleteOp else SetOp,
      LoadI64(data, 4),
      if data[12] == 2 then LoadI64(data, HEADER) else 0,
      data[body..body + klen],
      data[body + klen..body + klen + vlen])
  }

  function Decode(data: Bytes): (d: DecodeResult)
    ensures d.Decoded? ==> HEADER <= d.consumed <= |data|
  {
    if |data| < HEADER then Incomplete
    else
      var klen, vlen := LoadU32(data, 13), LoadU32(data, 17);
      var total := ClaimedSize(data);
      if |data| < total then Incomplete
      else if Crc(data[4..total]) != LoadU32(data, 0) then Corrupt
      else if data[12] > 2 then Corrupt
      else
        Decoded(total, RecordAt(data, total - klen - vlen, klen, vlen))
  }

  lemma EncodedFields(r: Record, rest: Bytes)
    ensures var e := Encode(r) + rest;
      && e[..4] == PutU32(Crc(Covered(r)))
      && e[4..12] == PutI64(r.timestamp)
      && e[12] == OpByte(r)
      && e[13..17] == PutU32(|r.key|)
      && e[17..21] == PutU32(|r.value|)
  {
    var e := Encode(r) + rest;
    var c := Covered(r);
    assert e[4..12] == c[..8];
    assert e[12] == c[8];
    assert e[13..17] == c[9..13];
    assert e[17..21] == c[13..17];
  }

  lemma EncodedBody(r: Record, rest: Bytes)
    ensures var e, b := Encode(r) + rest, BodyAt(r);
      && |Encode(r)| == b + |r.key| + |r.value|
      && (CarriesExpiry(r) ==> e[HEADER..HEADER + EXPIRY] == PutI64(r.stamp))
      && e[b..b + |r.key|] == r.key
      && e[b + |r.key|..|Encode(r)|] == r.value
      && e[4..|Encode(r)|] == Covered(r)
  {
    var e, b := Encode(r) + rest, BodyAt(r);
    var c := Covered(r);
    assert |c| == b - 4 + |r.key| + |r.value|;
    assert e[4..|Encode(r)|] == c;
    if CarriesExpiry(r) { assert e[HEADER..HEADER + EXPIRY] == c[17..25]; }
    assert e[b..b + |r.key|] == c[b - 4..b - 4 + |r.key|];
    assert e[b + |r.key|..|Encode(r)|] == c[b - 4 + |r.key|..];
  }

  lemma EncodedSize(r: Record, rest: Bytes)
    ensures ClaimedSize(Encode(r) + rest) == |Encode(r)|
  {
    var e := Encode(r) + rest;
    EncodedFields(r, rest);
    EncodedBody(r, rest);
    LoadPutU32(|r.key|, e, 13);
    LoadPutU32(|r.value|, e, 17);
  }

  /** What was written is what is read, whatever follows it in the file. */
  lemma DecodeEncode(r: Record, rest: Bytes)
    ensures Decode(Encode(r) + rest) == Decoded(|Encode(r)|, Meaning(r))
  {
    var e := Encode(r) + rest;
    EncodedFields(r, rest);
    EncodedBody(r, rest);
    EncodedSize(r, rest);
    LoadPutU32(|r.key|, e, 13);
    LoadPutU32(|r.value|, e, 17);
    LoadPutU32(Crc(Covered(r)), e, 0);
    LoadPutI64(r.timestamp, e, 4);
    if CarriesExpiry(r) { LoadPutI64(r.stamp, e, HEADER); }
  }

  /** And what is read was written: bytes that decode are the encoding of what they decode to,
      save that an expiry of zero need not have been spelled out. */
  lemma DecodedIsEncoded(data: Bytes)
    requires Decode(data).Decoded?
    ensures var d := Decode(data);
      data[12] <= 2 && ((data[12] == 2 ==> d.record.stamp != 0) ==> data[..d.consumed] == Encode(d.record))
  {
    hide LoadU32, LoadI64, PutU32, PutI64, Crc;
    var d := Decode(data);
    var r := d.record;
    if data[12] != 2 || r.stamp != 0 {
      var s, body := data[..d.consumed], BodyAt(r);
      PutLoadU32(data, 0);
      PutLoadI64(data, 4);
      PutLoadU32(data, 13);
      PutLoadU32(data, 17);
      if data[12] == 2 { PutLoadI64(data, HEADER); }
      assert OpByte(r) == data[12] && (CarriesExpiry(r) <==> data[12] == 2);
      CoveredAs(data, r, body);
    }
  }

  lemma CoveredAs(data: Bytes, r: Record, body: nat)
    requires body == BodyAt(r) && body + |r.key| + |r.value| <= |data|
    requires data[4..12] == PutI64(r.timestamp) && data[12] == OpByte(r)
    requires data[13..17] == PutU32(|r.key|) && data[17..21] == PutU32(|r.value|)
    requires CarriesExpiry(r) ==> data[21..29] == PutI64(r.stamp)
    requires data[body..body + |r.key|] == r.key && data[body + |r.key|..body + |r.key| + |r.value|] == r.value
    ensures data[4..body + |r.key| + |r.value|] == Covered(r)
  {
    hide PutU32, PutI64;
    var end := body + |r.key| + |r.value|;
    assert data[4..end] == data[4..12] + [data[12]] + data[13..17] + data[17..21] + data[21..body]
                           + data[body..body + |r.key|] + data[body + |r.key|..end];
  }

  /** A torn record is reported as torn, never as damaged and never as a record. */
  lemma TornIncomplete(r: Record, n: nat)
    requires n < |Encode(r)|
    ensures Decode(Encode(r)[..n]) == Incomplete
  {
    var e := Encode(r);
    var t := e[..n];
    if n >= HEADER {
      assert e + [] == e;
      EncodedSize(r, []);
      assert t[13..17] == e[13..17] && t[17..21] == e[17..21];
      SameU32(t, e, 13);
      SameU32(t, e, 17);
    }
  }

  lemma SameU32(s: Bytes, t: Bytes, at: nat)
    requires at + 4 <= |s| && at + 4 <= |t| && s[at..at + 4] == t[at..at + 4]
    ensures LoadU32(s, at) == LoadU32(t, at)
  {
    var p, q := s[at..at + 4], t[at..at + 4];
    assert s[at] == p[0] && s[at + 1] == p[1] && s[at + 2] == p[2] && s[at + 3] == p[3];
    assert t[at] == q[0] && t[at + 1] == q[1] && t[at + 2] == q[2] && t[at + 3] == q[3];
  }

  /** Bytes past the end of a record play no part in decoding it. */
  lemma DecodeLocal(a: Bytes, b: Bytes)
    requires Decode(a).Decoded? || (Decode(a + b).Decoded? && Decode(a + b).consumed <= |a|)
    ensures Decode(a + b) == Decode(a)
  {
    hide LoadU32, Crc;
    var e := a + b;
    assert |a| >= HEADER;
    SameU32(a, e, 0);
    SameU32(a, e, 4);
    SameU32(a, e, 8);
    SameU32(a, e, 13);
    SameU32(a, e, 17);
    var klen := LoadU32(a, 13);
    var total := ClaimedSize(a);
    assert ClaimedSize(e) == total;
    if |a| >= total {
      var body := total - klen - LoadU32(a, 17);
      assert e[4..total] == a[4..total];
      assert e[body..body + klen] == a[body..body + klen];
      assert e[body + klen..total] == a[body + klen..total];
      if a[12] == 2 {
        SameU32(a, e, HEADER);
        SameU32(a, e, HEADER + 4);
      }
    }
  }

  // ---------------------------------------------------------------- damage

  /** The bytes whose damage the checksum is certain to catch: all but the op byte and
      the two lengths, which decide how many bytes are checked. */
  predicate Guarded(i: nat) {
    i < 12 || HEADER <= i
  }

  /** Changing any one guarded byte of any encoded record makes it Corrupt. */
  lemma OneByteDamageIsCorrupt(r: Record, i: nat, b: byte, rest: Bytes)
    requires i < |Encode(r)| && Guarded(i) && b != Encode(r)[i]
    ensures Decode(Encode(r)[i := b] + rest) == Corrupt
  {
    hide Encode, Covered, LoadU32, Crc, PutU32;
    var e := Encode(r);
    var good := e + rest;
    var bad := e[i := b] + rest;
    EncodedFields(r, rest);
    EncodedBody(r, rest);
    EncodedSize(r, rest);
    var total := |e|;
    LoadPutU32(Crc(Covered(r)), good, 0);
    SameU32(good, bad, 13);
    SameU32(good, bad, 17);
    if i < 4 {
      assert bad[4..total] == good[4..total];
      var s, t := good[..4], bad[..4];
      assert s[i] != t[i];
      SameU32(good, s, 0);
      SameU32(bad, t, 0);
      LoadU32Injective(s, t);
    } else {
      SameU32(good, bad, 0);
      assert bad[4..total] == good[4..total][i - 4 := b];
      OneByteChangesCrc(good[4..total], i - 4, b);
    }
  }

  // ---------------------------------------------------------------- replay

  function EncodeAll(rs: seq<Record>): (s: Bytes)
  {
    if rs == [] then [] else Encode(rs[0]) + EncodeAll(rs[1..])
  }

  function Meanings(rs: seq<Record>): (ms: seq<Record>)
    ensures |ms| == |rs|
    ensures forall i :: 0 <= i < |rs| ==> ms[i] == Meaning(rs[i])
  {
    seq(|rs|, i requires 0 <= i < |rs| => Meaning(rs[i]))
  }

  /** The records at the front of a log, and the length of the intact prefix. */
  datatype Scanned = Scanned(records: seq<Record>, good: nat)

  function Scan(data: Bytes): (s: Scanned)
    ensures s.good <= |data|
    decreases |data|
  {
    var d := Decode(data);
    if d.Decoded? then
      var rest := Scan(data[d.consumed..]);
      Scanned([d.record] + rest.records, d.consumed + rest.good)
    else Scanned([], 0)
  }

  lemma {:induction false} EncodeAllConcat(a: seq<Record>, b: seq<Record>)
    ensures EncodeAll(a + b) == EncodeAll(a) + EncodeAll(b)
  {
    hide Encode;
    if a == [] {
      assert a + b == b;
    } else {
      assert (a + b)[1..] == a[1..] + b;
      EncodeAllConcat(a[1..], b);
    }
  }

  /** Replay yields exactly the records written, in order, and stops exactly where they
      end, as long as what follows is not itself a record. */
  lemma {:induction false} ScanEncoded(rs: seq<Record>, tail: Bytes)
    requires !Decode(tail).Decoded?
    ensures Scan(EncodeAll(rs) + tail) == Scanned(Meanings(rs), |EncodeAll(rs)|)
  {
    hide Encode, Decode;
    if rs == [] {
      assert EncodeAll(rs) + tail == tail;
    } else {
      var first, others := Encode(rs[0]), EncodeAll(rs[1..]);
      assert EncodeAll(rs) + tail == first + (others + tail);
      DecodeEncode(rs[0], others + tail);
      assert (first + (others + tail))[|first|..] == others + tail;
      ScanEncoded(rs[1..], tail);
      assert Meanings(rs) == [Meaning(rs[0])] + Meanings(rs[1..]);
    }
  }

  /** A log that ends in a torn record: everything before it is kept, the tear is cut. */
  lemma ScanTorn(rs: seq<Record>, last: Record, n: nat)
    requires n < |Encode(last)|
    ensures Scan(EncodeAll(rs) + Encode(last)[..n]) == Scanned(Meanings(rs), |EncodeAll(rs)|)
  {
    hide Encode, Decode;
    TornIncomplete(last, n);
    ScanEncoded(rs, Encode(last)[..n]);
  }

  /** A write of several records cut at any byte leaves whole records and then a tear. */
  lemma {:induction false} CutBetweenRecords(rs: seq<Record>, n: nat) returns (whole: nat)
    requires n <= |EncodeAll(rs)|
    ensures whole <= |rs|
    ensures n == |EncodeAll(rs)| ==> whole == |rs|
    ensures EncodeAll(rs[..whole]) <= EncodeAll(rs)[..n]
    ensures whole == |rs| ==> EncodeAll(rs)[..n] == EncodeAll(rs)
    ensures whole < |rs| ==>
      var used := |EncodeAll(rs[..whole])|;
      n - used < |Encode(rs[whole])| && EncodeAll(rs)[used..n] == Encode(rs[whole])[..n - used]
  {
    hide Encode;
    if rs == [] {
      whole := 0;
    } else {
      var first, others := Encode(rs[0]), EncodeAll(rs[1..]);
      if n < |first| {
        whole := 0;
        assert EncodeAll(rs)[..n] == first[..n];
      } else {
        var w := CutBetweenRecords(rs[1..], n - |first|);
        whole := w + 1;
        assert rs[..whole][1..] == rs[1..][..w];
        assert EncodeAll(rs[..whole]) == first + EncodeAll(rs[1..][..w]);
        assert EncodeAll(rs)[..n] == first + others[..n - |first|];
        if whole < |rs| {
          var used := |EncodeAll(rs[1..][..w])|;
          assert EncodeAll(rs)[|first| + used..n] == others[used..n - |first|];
        }
      }
    }
  }

  /** An intact log followed by anything: its records, then whatever is found behind. */
  lemma {:induction false} ScanBehind(log: Bytes, more: Bytes)
    requires Scan(log).good == |log|
    ensures Scan(log + more) == Scanned(Scan(log).records + Scan(more).records, |log| + Scan(more).good)
    decreases |log|
  {
    hide Decode;
    var d := Decode(log);
    if d.Decoded? {
      DecodeLocal(log, more);
      var rest := log[d.consumed..];
      assert (log + more)[d.consumed..] == rest + more;
      ScanBehind(rest, more);
      assert [d.record] + (Scan(rest).records + Scan(more).records) ==
        [d.record] + Scan(rest).records + Scan(more).records;
    } else {
      assert log + more == more;
      assert [] + Scan(more).records == Scan(more).records;
    }
  }

  /** Whatever byte a log write dies on, replay sees the old records and then some
      number of whole new ones. */
  lemma ScanAfterCut(log: Bytes, batch: seq<Record>, n: nat) returns (whole: nat)
    requires Scan(log).good == |log| && n <= |EncodeAll(batch)|
    ensures whole <= |batch|
    ensures n == |EncodeAll(batch)| ==> whole == |batch|
    ensures Scan(log + EncodeAll(batch)[..n]) ==
      Scanned(Scan(log).records + Meanings(batch[..whole]), |log| + |EncodeAll(batch[..whole])|)
  {
    hide Encode, Decode, Scan;
    whole := CutBetweenRecords(batch, n);
    var kept := batch[..whole];
    var used := |EncodeAll(kept)|;
    var cut := EncodeAll(batch)[..n];
    assert cut == EncodeAll(kept) + cut[used..];
    if whole < |batch| {
      assert cut[used..] == EncodeAll(batch)[used..n];
      ScanTorn(kept, batch[whole], n - used);
    } else {
      assert kept == batch && cut[used..] == [];
      NothingDecodes();
      ScanEncoded(kept, []);
    }
    ScanBehind(log, cut);
  }

  lemma NothingDecodes()
    ensures !Decode([]).Decoded?
  {
  }

  /** On arbitrary bytes: replaying what replay kept yields the same records again and
      finds nothing further to cut. */
  lemma {:induction false} ScanIdempotent(data: Bytes)
    ensures Scan(data[..Scan(data).good]) == Scan(data)
    decreases |data|
  {
    hide Decode;
    var d := Decode(data);
    if d.Decoded? {
      var rest := data[d.consumed..];
      ScanIdempotent(rest);
      var good := Scan(rest).good;
      var kept := data[..d.consumed + good];
      assert data == kept + data[d.consumed + good..];
      DecodeLocal(kept, data[d.consumed + good..]);
      assert kept[d.consumed..] == rest[..good];
    } else {
      assert data[..0] == [];
    }
  }

  /** The replay loop: every intact record in order, then the cut. */
  method Replay(data: Bytes) returns (records: seq<Record>, goodBytes: nat, truncated: bool, kept: Bytes)
    ensures Scanned(records, goodBytes) == Scan(data)
    ensures truncated == (goodBytes < |data|)
    ensures kept == data[..goodBytes]
  {
    hide Decode;
    records := [];
    var offset := 0;
    var d := Decode(data[offset..]);
    while d.Decoded?
      invariant offset <= |data| && d == Decode(data[offset..])
      invariant Scan(data) == Scanned(records + Scan(data[offset..]).records, offset + Scan(data[offset..]).good)
      decreases |data| - offset
    {
      assert data[offset..][d.consumed..] == data[offset + d.consumed..];
      records := records + [d.record];
      offset := offset + d.consumed;
      d := Decode(data[offset..]);
    }
    goodBytes := offset;
    truncated := offset < |data|;
    kept := data[..offset];
  }
}
