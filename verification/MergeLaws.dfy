/** What replacing a run of tables by its merge does to reads, in every state the
    directory passes through on the way. */
module MergeLaws {
  import opened ByteStrings
  import opened Rows
  import opened Compaction

  ghost predicate DrawnFrom(some: seq<Table>, run: seq<Table>) {
    forall t :: t in some ==> t in run
  }

  lemma DrawnMiss(some: seq<Table>, run: seq<Table>, key: Bytes)
    requires DrawnFrom(some, run) && FirstHit(run, key).None?
    ensures FirstHit(some, key).None?
  {
    hide FirstHit;
    FirstHitMiss(run, key);
    FirstHitMiss(some, key);
    forall i | 0 <= i < |some| ensures Search(some[i], key).None? {
      assert some[i] in run;
    }
  }

  lemma FirstHitOne(t: Table, key: Bytes)
    ensures FirstHit([t], key) == Search(t, key)
  {
    assert FirstHit([], key) == None;
  }

  lemma FourParts(a: seq<Table>, out: Table, b: seq<Table>, c: seq<Table>, key: Bytes)
    ensures FirstHit(a + [out] + b + c, key) ==
      if FirstHit(a, key).Some? then FirstHit(a, key)
      else if Search(out, key).Some? then Search(out, key)
      else if FirstHit(b, key).Some? then FirstHit(b, key)
      else FirstHit(c, key)
  {
    hide FirstHit, Search;
    FirstHitConcat(a + [out] + b, c, key);
    FirstHitConcat(a + [out], b, key);
    FirstHitConcat(a, [out], key);
    FirstHitOne(out, key);
  }

  lemma ThreeParts(a: seq<Table>, run: seq<Table>, c: seq<Table>, key: Bytes)
    ensures FirstHit(a + run + c, key) ==
      if FirstHit(a, key).Some? then FirstHit(a, key)
      else if FirstHit(run, key).Some? then FirstHit(run, key)
      else FirstHit(c, key)
  {
    hide FirstHit;
    FirstHitConcat(a + run, c, key);
    FirstHitConcat(a, run, key);
  }

  /** A merge that keeps obsolete rows shadows its inputs completely: whichever of them
      are still around, in whatever order, no answer changes. */
  lemma MergeShadows(newer: seq<Table>, run: seq<Table>, left: seq<Table>, older: seq<Table>,
                     out: Table, now: int, key: Bytes)
    requires IsMerge(run, out, false, now) && DrawnFrom(left, run)
    ensures FirstHit(newer + [out] + left + older, key) == FirstHit(newer + run + older, key)
  {
    hide FirstHit, Search;
    FourParts(newer, out, left, older, key);
    ThreeParts(newer, run, older, key);
    if FirstHit(run, key).None? { DrawnMiss(left, run, key); }
  }

  /** A merge that reaches the oldest table may drop what is dead: no read at or after
      its own time can tell. */
  lemma DropMergeInvisible(newer: seq<Table>, run: seq<Table>, out: Table, now: int, key: Bytes)
    requires IsMerge(run, out, true, now)
    ensures Visible(FirstHit(newer + [out], key), now) == Visible(FirstHit(newer + run, key), now)
  {
    hide FirstHit, Search;
    FirstHitConcat(newer, [out], key);
    FirstHitConcat(newer, run, key);
    FirstHitOne(out, key);
  }

  /** No key that the merge dropped, and that nothing newer answers, is alive in the
      inputs that are left. */
  ghost predicate NothingResurfaces(newer: seq<Table>, run: seq<Table>, left: seq<Table>, now: int) {
    forall key: Bytes ::
      FirstHit(newer, key).None? && Dead(FirstHit(run, key), now) ==> Dead(FirstHit(left, key), now)
  }

  /** The first hit of every key looks the same through either list of tables. */
  ghost predicate SameAnswers(a: seq<Table>, b: seq<Table>, now: int) {
    forall key: Bytes :: Visible(FirstHit(a, key), now) == Visible(FirstHit(b, key), now)
  }

  /** With obsolete rows dropped the merged table no longer shadows the inputs that are
      still on disk. A restart at that point reads the right answers exactly when no
      dropped key has a live version among them. */
  lemma DropMergeLeftovers(newer: seq<Table>, run: seq<Table>, left: seq<Table>, out: Table, now: int)
    requires IsMerge(run, out, true, now) && DrawnFrom(left, run)
    ensures NothingResurfaces(newer, run, left, now) <==> SameAnswers(newer + [out] + left, newer + run, now)
  {
    hide FirstHit, Search, Dead, Visible;
    if NothingResurfaces(newer, run, left, now) {
      forall key: Bytes
        ensures Visible(FirstHit(newer + [out] + left, key), now) == Visible(FirstHit(newer + run, key), now)
      {
        LeftoversAt(newer, run, left, out, now, key);
      }
    }
    if SameAnswers(newer + [out] + left, newer + run, now) {
      forall key: Bytes | FirstHit(newer, key).None? && Dead(FirstHit(run, key), now)
        ensures Dead(FirstHit(left, key), now)
      {
        LeftoversAt(newer, run, left, out, now, key);
      }
    }
  }

  lemma LeftoversAt(newer: seq<Table>, run: seq<Table>, left: seq<Table>, out: Table, now: int, key: Bytes)
    requires IsMerge(run, out, true, now) && DrawnFrom(left, run)
    ensures (FirstHit(newer, key).None? && Dead(FirstHit(run, key), now) ==> Dead(FirstHit(left, key), now)) <==>
      Visible(FirstHit(newer + [out] + left, key), now) == Visible(FirstHit(newer + run, key), now)
  {
    hide FirstHit, Search;
    FirstHitConcat(newer + [out], left, key);
    FirstHitConcat(newer, [out], key);
    FirstHitOne(out, key);
    FirstHitConcat(newer, run, key);
  }

  /** And what it does read: as before, except that every dropped key that nothing newer
      answers is read from the inputs that are left. */
  lemma LeftoversRead(newer: seq<Table>, run: seq<Table>, left: seq<Table>, out: Table, now: int, key: Bytes)
    requires IsMerge(run, out, true, now) && DrawnFrom(left, run)
    ensures Visible(FirstHit(newer + [out] + left, key), now) ==
      if FirstHit(newer, key).None? && Dead(FirstHit(run, key), now) then Visible(FirstHit(left, key), now)
      else Visible(FirstHit(newer + run, key), now)
  {
    hide FirstHit, Search;
    FirstHitConcat(newer + [out], left, key);
    FirstHitConcat(newer, [out], key);
    FirstHitOne(out, key);
    FirstHitConcat(newer, run, key);
  }

  lemma OneKey(r: Row, key: Bytes)
    ensures FirstHit([[r], [r], [r]], key) == if key == r.key then Some(r) else None
    ensures FirstHit([], key).None? && Search([], key).None?
  {
    hide Search;
    SearchOne(r, key);
    FirstHitOne([r], key);
    assert [[r], [r], [r]][1..] == [[r], [r]] && [[r], [r]][1..] == [[r]];
  }

  /** A key written three times and then deleted, one table each, newest first. */
  function Overwritten(live: Row): seq<Table> {
    [[Tombstone(live.key)], [live], [live], [live]]
  }

  /** The condition can fail: such a key merged all the way down. The merge drops the
      tombstone with the values under it and comes out empty; renamed over the table that
      held the tombstone, it leaves the other inputs, and with them the deleted key, until
      they are unlinked. */
  lemma DeletedKeyResurfaces(live: Row, now: int)
    requires !live.tombstone && live.stamp == 0
    ensures var run := Overwritten(live);
      && IsMerge(run, [], true, now)
      && (forall k :: Visible(FirstHit(run, k), now) == None)
      && FirstHit([[]], live.key) == None && Dead(FirstHit(run, live.key), now)
      && Visible(FirstHit(run[1..], live.key), now) == Some(Stamped(live.value, 0))
      && !NothingResurfaces([[]], run, run[1..], now)
  {
    var key, run := live.key, Overwritten(live);
    var lives: seq<Table> := [[live], [live], [live]];
    assert run == [[Tombstone(key)]] + lives && run[1..] == lives;
    forall k: Bytes
      ensures FirstHit(run, k) == (if k == key then Some(Tombstone(key)) else None)
      ensures FirstHit(lives, k) == (if k == key then Some(live) else None)
      ensures FirstHit([[]], k).None? && Search([], k).None?
    {
      OneKey(live, k);
      SearchOne(Tombstone(key), k);
      FirstHitConcat([[Tombstone(key)]], lives, k);
      FirstHitOne([Tombstone(key)], k);
      FirstHitOne([], k);
      hide FirstHit, Search;
    }
    hide FirstHit, Search;
    assert Dead(FirstHit(run, key), now) && !Dead(FirstHit(lives, key), now);
  }
}
