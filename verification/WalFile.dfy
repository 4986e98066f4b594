/** The open log: appends, the pending-sync count, truncation. */
module WalFile {
  import opened ByteStrings
  import opened WalCodec
  import opened FileNames
  import opened FileSystem

  datatype SyncPolicy = Always | EverySec | Never

  class Wal {
    const dir: Directory
    const policy: SyncPolicy
    var groupCommit: bool
    var size: nat
    var bytesSinceSync: nat
    var syncs: nat

    ghost const found: Bytes  // what the file held when it was opened
    ghost var inherited: bool  // bytes left unsynced before it was opened may still be unsynced

    /** `bytesSinceSync == 0` really means that the file on disk matches, or else that it is
        the file that was opened. */
    ghost predicate Valid()
      reads this, dir
    {
      && WAL in dir.files && size == |dir.files[WAL]|
      && (WAL in dir.dirtyData ==> bytesSinceSync > 0 || inherited)
      && (inherited ==> found <= dir.files[WAL] && |found| + bytesSinceSync == size)
    }

    /** Nothing this process has written is unsynced. */
    ghost predicate Covered()
      reads this, dir
    {
      WAL in dir.dirtyData ==> inherited && WAL in dir.files && dir.files[WAL] == found
    }

    /** open with O_CREAT | O_APPEND: what is already there is left alone. */
    constructor (d: Directory, p: SyncPolicy, group: bool)
      modifies d
      ensures dir == d && policy == p && groupCommit == group && Valid()
      ensures bytesSinceSync == 0 && (inherited <==> WAL in d.dirtyData) && found == d.files[WAL]
      ensures WAL in old(d.files) ==> d.Now() == old(d.Now())
      ensures WAL !in old(d.files) ==>
        && d.files == old(d.files)[WAL := []] && d.exposed == old(d.exposed)
        && d.history == old(d.history) + [Moment(d.files, d.exposed)]
        && d.dirtyData == old(d.dirtyData) + {WAL} && d.dirtyNames == old(d.dirtyNames) + {WAL}
        && d.dirSyncs == old(d.dirSyncs) && Recorded(old(d.Now()), d.Now())
    {
      dir, policy, groupCommit := d, p, group;
      found := if WAL in d.files then d.files[WAL] else [];
      size, bytesSinceSync, syncs, inherited := 0, 0, 0, true;
      new;
      if WAL !in d.files { d.Create(WAL); }
      size := |d.files[WAL]|;
      inherited := WAL in d.dirtyData;
    }

    method Write(buffer: Bytes)
      requires Valid()
      modifies this, dir
      ensures Valid() && inherited == old(inherited) && syncs == old(syncs)
      ensures Appended(old(dir.Now()), dir.Now(), WAL, buffer)
    {
      if buffer == [] {
        assert dir.files[WAL] + buffer == dir.files[WAL];
        return;
      }
      dir.Append(WAL, buffer);
      size := size + |buffer|;
      bytesSinceSync := bytesSinceSync + |buffer|;
    }

    /** One record; under the strictest policy without group commit, down to the disk. */
    method Append(r: Record)
      requires Valid()
      modifies this, dir
      ensures Valid() && (inherited ==> old(inherited))
      ensures Appended(old(dir.Now()), dir.Now(), WAL, Encode(r))
      ensures policy == Always && !groupCommit ==> WAL !in dir.dirtyData
    {
      hide Encode;
      var buffer := EncodeInto([], r);
      assert [] + Encode(r) == Encode(r);
      Write(buffer);
      if policy == Always && !groupCommit { Sync(); }
    }

    /** Every record of one command in a single write. */
    method AppendBatch(rs: seq<Record>)
      requires Valid()
      modifies this, dir
      ensures Valid() && (inherited ==> old(inherited))
      ensures Appended(old(dir.Now()), dir.Now(), WAL, EncodeAll(rs))
      ensures rs != [] && policy == Always && !groupCommit ==> WAL !in dir.dirtyData
    {
      hide Encode;
      if rs == [] {
        assert dir.files[WAL] + EncodeAll(rs) == dir.files[WAL];
        return;
      }
      var buffer: Bytes := [];
      for i := 0 to |rs|
        invariant buffer == EncodeAll(rs[..i])
        modifies {}
      {
        assert rs[..i + 1] == rs[..i] + [rs[i]];
        EncodeAllConcat(rs[..i], [rs[i]]);
        assert EncodeAll([rs[i]]) == Encode(rs[i]) + EncodeAll([]);
        buffer := EncodeInto(buffer, rs[i]);
      }
      assert rs[..|rs|] == rs;
      Write(buffer);
      if policy == Always && !groupCommit { Sync(); }
    }

    method Sync()
      requires WAL in dir.files && size == |dir.files[WAL]|
      modifies this, dir
      ensures Valid() && !inherited && bytesSinceSync == 0
      ensures dir.files == old(dir.files) && dir.history == old(dir.history) && dir.exposed == old(dir.exposed)
      ensures dir.dirtyNames == old(dir.dirtyNames) && dir.dirtyData == old(dir.dirtyData) - {WAL}
      ensures dir.dirSyncs == old(dir.dirSyncs) && Traces(old(dir.Now()), dir.Now())
    {
      dir.Fsync(WAL);
      bytesSinceSync := 0;
      syncs := syncs + 1;
      inherited := false;
    }

    method Truncate()
      requires Valid()
      modifies this, dir
      ensures Valid() && !inherited && bytesSinceSync == 0
      ensures dir.files == old(dir.files)[WAL := []] && dir.exposed == old(dir.exposed)
      ensures dir.history == old(dir.history) + [Moment(dir.files, dir.exposed)]
      ensures dir.dirtyNames == old(dir.dirtyNames) && dir.dirtyData == old(dir.dirtyData) - {WAL}
      ensures dir.dirSyncs == old(dir.dirSyncs) && Traces(old(dir.Now()), dir.Now())
    {
      dir.Truncate(WAL, 0);
      assert dir.files == old(dir.files)[WAL := []];
      size, bytesSinceSync := 0, 0;
      Sync();
    }

    method NeedsSync() returns (needed: bool)
      requires Valid()
      ensures needed == (bytesSinceSync > 0)
      ensures !needed ==> Covered()
    {
      needed := bytesSinceSync > 0;
    }

    /** The once-a-second policy, driven by the loop's tick; `due` is its clock's verdict. */
    method MaybeSync(due: bool)
      requires Valid()
      modifies this, dir
      ensures Valid() && (inherited ==> old(inherited))
      ensures dir.files == old(dir.files) && dir.history == old(dir.history) && dir.exposed == old(dir.exposed)
      ensures dir.dirtyNames == old(dir.dirtyNames) && dir.dirSyncs == old(dir.dirSyncs)
      ensures Traces(old(dir.Now()), dir.Now())
      ensures dir.dirtyData == old(dir.dirtyData) || dir.dirtyData == old(dir.dirtyData) - {WAL}
      ensures policy == EverySec && due && old(bytesSinceSync) > 0 ==> bytesSinceSync == 0 && WAL !in dir.dirtyData
    {
      if policy != EverySec || bytesSinceSync == 0 || !due { return; }
      Sync();
    }
  }
}
