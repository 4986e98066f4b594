/** Whole runs of the store, with restarts after a crash at any point. */
module StoreRun {
  import opened ByteStrings
  import opened WalCodec
  import opened WalFile
  import opened FileSystem
  import opened StoreModel
  import opened Engine
  import opened Store
  import opened StoreSteps
  import opened Exposure
  import opened Commands
  import opened Memtable
  import opened TierWalk
  import opened StoreRecovery
  import opened RunModel
  import opened KeyHistory

  // ---------------------------------------------------------------- what a crash may leave

  /** Everything acknowledged before the step, and of the step itself a prefix of the
      records it logs; of a clear, all of it. */
  ghost predicate Survives(before: Model, t: Timed, left: Model)
    requires Sendable(t.step) && IsInt64(t.now)
  {
    || left == before
    || (if t.step == ClearAll then left == map[] else Partly(before, Records(before, t), left))
  }

  ghost predicate Partly(before: Model, rs: seq<Record>, left: Model) {
    exists whole :: 0 <= whole <= |rs| && left == ApplyAll(before, rs[..whole])
  }

  /** What a restart finds on one of the disks a step that began on `start` passes through.
      Exposed disks occur in two steps only, a merge that drops dead rows and a clear, and
      what is on them is known as well. */
  ghost predicate Leaves(moment: Moment, start: Disk, before: Model, t: Timed, left: Model)
    requires Sendable(t.step) && IsInt64(t.now)
  {
    && Recovers(moment.disk, left, t.now)
    && if !moment.exposed then Survives(before, t, left)
       else if t.step == Compact then MergeLeaves(start, moment.disk, before, left, t.now)
       else t.step == ClearAll && ClearLeaves(start, moment.disk, left, t.now)
  }

  ghost predicate MomentSafe(moment: Moment, start: Disk, before: Model, t: Timed)
    requires Sendable(t.step) && IsInt64(t.now)
  {
    exists left :: Leaves(moment, start, before, t, left)
  }

  /** The disks one step passes through. */
  ghost predicate StepSafe(moments: seq<Moment>, start: Disk, before: Model, t: Timed)
    requires Sendable(t.step) && IsInt64(t.now)
  {
    forall i :: 0 <= i < |moments| ==> MomentSafe(moments[i], start, before, t)
  }

  /** Where in the directory's history a step ended, and on which disk. */
  datatype Mark = Mark(at: nat, disk: Disk)

  /** Between two steps a restart finds exactly what was acknowledged. */
  ghost predicate Idle(mark: Mark, m: Model, ts: seq<Timed>, clock: int, n: nat)
    requires Runnable(ts, clock) && n <= |ts|
  {
    Recovers(mark.disk, AfterAll(m, ts[..n]), EndOf(ts[..n], clock))
  }

  /** The disk a step ends on is the last it passed through. */
  ghost predicate Follow(history: seq<Moment>, from: Mark, to: Mark) {
    && from.at <= to.at <= |history|
    && if from.at == to.at then to.disk == from.disk else to.disk == history[to.at - 1].disk
  }

  /** Within a step it finds that, and a prefix of what is in flight. */
  ghost predicate Busy(history: seq<Moment>, from: Mark, to: Mark, m: Model, ts: seq<Timed>, clock: int, n: nat)
    requires Runnable(ts, clock) && n < |ts|
  {
    Follow(history, from, to) && StepSafe(history[from.at..to.at], from.disk, AfterAll(m, ts[..n]), ts[n])
  }

  /** Cut at the marks, the history is the steps one after the other. */
  ghost predicate RunSafe(history: seq<Moment>, marks: seq<Mark>, m: Model, ts: seq<Timed>, clock: int)
    requires Runnable(ts, clock)
  {
    && |marks| == |ts| + 1
    && (forall n :: 0 <= n <= |ts| ==> Idle(marks[n], m, ts, clock, n))
    && (forall n :: 0 <= n < |ts| ==> Busy(history, marks[n], marks[n + 1], m, ts, clock, n))
  }

  lemma WriteIsSafe(moments: seq<Moment>, start: Disk, before: Model, t: Timed)
    requires Sendable(t.step) && IsInt64(t.now) && t.step != ClearAll
    requires Safe(moments, before, Records(before, t), t.now)
    ensures StepSafe(moments, start, before, t)
  {
    hide Recovers, Records;
    var rs := Records(before, t);
    forall i | 0 <= i < |moments| ensures MomentSafe(moments[i], start, before, t) {
      var d := moments[i].disk;
      assert SafeDisk(d, before, rs, t.now);
      var whole :| 0 <= whole <= |rs| && Recovers(d, ApplyAll(before, rs[..whole]), t.now);
      var left := ApplyAll(before, rs[..whole]);
      assert Partly(before, rs, left);
      assert Leaves(moments[i], start, before, t, left);
    }
  }

  lemma SafeDiskRecovers(d: Disk, m: Model, clock: int)
    requires SafeDisk(d, m, [], clock)
    ensures Recovers(d, m, clock)
  {
    hide Recovers;
    NothingApplied(m);
    var none: seq<Record> := [];
    assert none[..0] == none;
  }

  lemma MergeIsSafe(moments: seq<Moment>, e: Engine, g: Merge, t: Timed)
    requires Sendable(t.step) && IsInt64(t.now) && t.step == Compact && e.clock == t.now
    requires Consistent(e) && Chosen(e, g) && SafeOutside(moments, e.model, t.now) && MergeExact(e, g, moments)
    ensures StepSafe(moments, e.files, e.model, t)
  {
    hide Recovers, SafeDisk, ExactDisk, IsMergeOf, Consistent, MergeLeaves, Chosen;
    forall i | 0 <= i < |moments| ensures MomentSafe(moments[i], e.files, e.model, t) {
      var left := e.model;
      if moments[i].exposed {
        left := ExposedLeaves(e, g, moments[i].disk);
      } else {
        SafeDiskRecovers(moments[i].disk, e.model, t.now);
      }
      assert Leaves(moments[i], e.files, e.model, t, left);
    }
  }

  lemma ClearIsSafe(moments: seq<Moment>, e: Engine, t: Timed)
    requires Sendable(t.step) && IsInt64(t.now) && t.step == ClearAll
    requires Consistent(e) && SafeOutside(moments, map[], t.now) && ClearExact(e, moments)
    ensures StepSafe(moments, e.files, e.model, t)
  {
    hide Recovers, SafeDisk, Consistent, ClearLeaves, PartlyCleared;
    forall i | 0 <= i < |moments| ensures MomentSafe(moments[i], e.files, e.model, t) {
      var left: Model := map[];
      if moments[i].exposed {
        left := ClearedLeaves(e, moments[i].disk, t.now);
      } else {
        SafeDiskRecovers(moments[i].disk, map[], t.now);
      }
      assert Leaves(moments[i], e.files, e.model, t, left);
    }
  }

  lemma NothingRun(d: Disk, history: seq<Moment>, m: Model, ts: seq<Timed>, clock: int)
    requires Runnable(ts, clock) && Recovers(d, m, clock)
    ensures Runnable(ts[..0], clock) && RunSafe(history, [Mark(|history|, d)], m, ts[..0], clock)
    ensures AfterAll(m, ts[..0]) == m && EndOf(ts[..0], clock) == clock && Answered([], m, ts[..0], clock)
  {
    hide Recovers;
  }

  lemma IdleMore(mark: Mark, m: Model, ts: seq<Timed>, t: Timed, clock: int, n: nat)
    requires Runnable(ts, clock) && Runnable(ts + [t], clock) && n <= |ts| && Idle(mark, m, ts, clock, n)
    ensures Idle(mark, m, ts + [t], clock, n)
  {
    hide Recovers, AfterAll, Runnable;
    assert (ts + [t])[..n] == ts[..n];
  }

  lemma BusyMore(a: seq<Moment>, b: seq<Moment>, from: Mark, to: Mark, m: Model, ts: seq<Timed>, t: Timed, clock: int,
                 n: nat)
    requires Runnable(ts, clock) && Runnable(ts + [t], clock) && n < |ts| && a <= b
    requires Busy(a, from, to, m, ts, clock, n)
    ensures Busy(b, from, to, m, ts + [t], clock, n)
  {
    hide AfterAll, StepSafe, Runnable;
    assert (ts + [t])[..n] == ts[..n];
    assert b[from.at..to.at] == a[from.at..to.at];
  }

  lemma RunOneMore(a: State, b: State, marks: seq<Mark>, m: Model, ts: seq<Timed>, t: Timed, clock: int)
    requires Runnable(ts, clock) && Runnable(ts + [t], clock) && Sendable(t.step) && IsInt64(t.now)
    requires Recorded(a, b) && RunSafe(a.history, marks, m, ts, clock) && marks[|ts|] == Mark(|a.history|, a.files)
    requires StepSafe(Since(a, b), a.files, AfterAll(m, ts), t)
    requires Recovers(b.files, AfterAll(m, ts + [t]), EndOf(ts + [t], clock))
    ensures RunSafe(b.history, marks + [Mark(|b.history|, b.files)], m, ts + [t], clock)
  {
    hide Recovers, AfterAll, StepSafe, Runnable;
    var all, more := ts + [t], marks + [Mark(|b.history|, b.files)];
    assert all[..|all|] == all && all[..|ts|] == ts;
    assert Idle(more[|all|], m, all, clock, |all|);
    assert Busy(b.history, more[|ts|], more[|all|], m, all, clock, |ts|) by {
      assert b.history[|a.history|..|b.history|] == Since(a, b);
    }
    hide Idle, Busy;
    forall n | 0 <= n <= |all| ensures Idle(more[n], m, all, clock, n) {
      if n <= |ts| { IdleMore(marks[n], m, ts, t, clock, n); }
    }
    forall n | 0 <= n < |all| ensures Busy(b.history, more[n], more[n + 1], m, all, clock, n) {
      if n < |ts| { BusyMore(a.history, b.history, marks[n], marks[n + 1], m, ts, t, clock, n); }
    }
  }

  // ---------------------------------------------------------------- running

  /** A write that does not fill the memtable, and so flushes nothing. */
  predicate Room(bytes: nat, options: Options, step: Step) {
    step.SetKey? && bytes + CostOf(step.key, step.value) < options.memtableLimit
  }

  /** Upkeep is really done: a flush empties the memtable, a sweep looks at its share of rows,
      and the run the tier walk chooses is merged; unless a write of a table fails. */
  twostate predicate Upkept(s: Store, step: Step, now: int)
    reads s, s.dir, s.memtable
  {
    match step
    case FlushTable => s.memtable.rows == [] || s.dir.refused > old(s.dir.refused)
    case SweepSome(budget) =>
      && s.dir.Now() == old(s.dir.Now()) && s.tables == old(s.tables) && s.sstables == old(s.sstables)
      && Sweeper(s.memtable.rows, s.memtable.sweepCursor) ==
           Sweep(Sweeper(old(s.memtable.rows), old(s.memtable.sweepCursor)), now, budget)
    case Compact =>
      && s.memtable.rows == old(s.memtable.rows) && s.memtable.sweepCursor == old(s.memtable.sweepCursor)
      && (s.options.useCompaction && FirstTier(SizesOf(old(s.dir.files), old(s.tables)), |old(s.tables)|).len > 0 ==>
            |s.sstables| < |old(s.sstables)| || s.dir.refused > old(s.dir.refused))
    case _ => true
  }

  /** One step of the store, whichever it is. */
  method Take(s: Store, t: Timed) returns (found: Result)
    requires s.Valid() && s.Ready(t.now) && Sendable(t.step)
    modifies s, s.dir, s.memtable, s.wal
    ensures s.Valid() && s.clock == t.now && s.model == After(old(s.model), t)
    ensures found == Answer(old(s.model), t) && s.nextSequence <= old(s.nextSequence) + 1
    ensures Recorded(old(s.dir.Now()), s.dir.Now()) && Follows(old(s.dir.Now()), s.dir.Now())
    ensures Room(old(s.memtable.bytes), s.options, t.step) ==>
      s.dir.dirSyncs == old(s.dir.dirSyncs) && s.tables == old(s.tables)
    ensures s.wal.inherited ==> old(s.wal.inherited)
    ensures StepSafe(Since(old(s.dir.Now()), s.dir.Now()), old(s.dir.files), old(s.model), t)
    ensures Upkept(s, t.step, t.now)
  {
    hide Consistent, OpenTables, Safe, SafeOutside, Apply, Read, MergeExact, StepSafe, ClearExact, DirtKept,
      NamesSettled, Chosen;
    found := Nothing;
    if t.step == ClearAll {
      ghost var e := s.E();
      s.FlushAll(t.now);
      ClearIsSafe(Since(old(s.dir.Now()), s.dir.Now()), e, t);
    } else if t.step == Compact {
      NothingApplied(s.model);
      ConsistentLater(s.E(), t.now);
      ghost var e := s.E().(clock := t.now);
      var _, g := s.MaybeCompact(t.now);
      ChosenLater(old(s.E()), t.now, g);
      MergeIsSafe(Since(old(s.dir.Now()), s.dir.Now()), e, g, t);
    } else {
      found := Write(s, t);
      WriteIsSafe(Since(old(s.dir.Now()), s.dir.Now()), old(s.dir.files), old(s.model), t);
    }
  }

  lemma ChosenLater(e: Engine, now: int, g: Merge)
    requires Chosen(e, g)
    ensures Chosen(e.(clock := now), g)
  {
  }

  /** The steps that are safe at every instant. */
  method Write(s: Store, t: Timed) returns (found: Result)
    requires s.Valid() && s.Ready(t.now) && Sendable(t.step) && t.step != ClearAll && t.step != Compact
    modifies s, s.dir, s.memtable, s.wal
    ensures s.Valid() && s.clock == t.now && s.model == After(old(s.model), t)
    ensures found == Answer(old(s.model), t) && s.nextSequence <= old(s.nextSequence) + 1
    ensures Recorded(old(s.dir.Now()), s.dir.Now()) && Follows(old(s.dir.Now()), s.dir.Now())
    ensures Room(old(s.memtable.bytes), s.options, t.step) ==>
      s.dir.dirSyncs == old(s.dir.dirSyncs) && s.tables == old(s.tables)
    ensures s.wal.inherited ==> old(s.wal.inherited)
    ensures Safe(Since(old(s.dir.Now()), s.dir.Now()), old(s.model), Records(old(s.model), t), t.now)
    ensures Upkept(s, t.step, t.now)
  {
    hide Consistent, OpenTables, Safe, Apply, Read, DirtKept, NamesSettled, IncrementRecords, IncrementReply,
      LiveKeys, CostOf;
    NothingApplied(s.model);
    found := Nothing;
    match t.step
    case LookUp(key) =>
      var hit := s.Lookup(key, t.now);
      s.Touch(t.now);
      found := Found(hit);
    case SetKey(key, value, stamp) => s.Set(key, value, stamp, t.now);
    case DelKey(key) =>
      var wasLive := s.Del(key, t.now);
      found := Removed(if wasLive then 1 else 0);
    case DelKeys(keys) =>
      var removed := s.DelMany(keys, t.now);
      found := Removed(removed);
    case ExpireKey(key, stamp) =>
      var applied := s.Expire(key, stamp, t.now);
      found := Applied(applied);
    case IncrKey(key) =>
      var reply := Incr(s, key, t.now);
      found := Counted(reply);
    case FlushTable => FlushAt(s, t.now);
    case SweepSome(budget) =>
      NoMoments(s.dir.Now(), s.model, t.now);
      Still(s.dir.Now());
      var _ := s.SweepExpired(budget, t.now);
    case _ =>
  }

  method FlushAt(s: Store, now: int)
    requires s.Valid() && s.Ready(now)
    modifies s, s.dir, s.memtable, s.wal
    ensures s.Valid() && s.clock == now && s.model == old(s.model) && s.nextSequence <= old(s.nextSequence) + 1
    ensures Recorded(old(s.dir.Now()), s.dir.Now()) && Follows(old(s.dir.Now()), s.dir.Now())
    ensures s.wal.inherited ==> old(s.wal.inherited)
    ensures Safe(Since(old(s.dir.Now()), s.dir.Now()), s.model, [], now)
    ensures s.memtable.rows == [] || s.dir.refused > old(s.dir.refused)
  {
    hide Consistent, OpenTables, Safe, DirtKept, NamesSettled;
    ConsistentLater(s.E(), now);
    s.clock := now;
    var _ := s.Flush();
  }

  /** Any run: the store reads as the plain map, and wherever in the run the process dies,
      a restart finds everything that was acknowledged and a prefix of what was in flight;
      or, on an exposed disk, what a cut merge or a cut clear leaves. */
  method Run(s: Store, ts: seq<Timed>) returns (answers: seq<Result>, ghost marks: seq<Mark>)
    requires s.Valid() && Runnable(ts, s.clock) && s.nextSequence + |ts| < TWO_64
    modifies s, s.dir, s.memtable, s.wal
    ensures s.Valid() && s.model == AfterAll(old(s.model), ts) && s.clock == EndOf(ts, old(s.clock))
    ensures s.nextSequence <= old(s.nextSequence) + |ts| && old(s.dir.history) <= s.dir.history
    ensures Answered(answers, old(s.model), ts, old(s.clock))
    ensures Truth(old(s.model), ts, answers) && LastWriteWins(old(s.model), ts, answers)
    ensures RunSafe(s.dir.history, marks, old(s.model), ts, old(s.clock))
    ensures marks[0] == Mark(|old(s.dir.history)|, old(s.dir.files))
    ensures marks[|ts|] == Mark(|s.dir.history|, s.dir.files)
  {
    hide Consistent, OpenTables, Safe, After, Records, Recovers, StepSafe, Follows, Idle, Busy, Sendable, Answer,
      Answered, Truth, LastWriteWins, AfterAll, EndOf;
    ghost var m, clock := s.model, s.clock;
    StoreRecovers(s);
    NothingRun(s.dir.files, s.dir.history, m, ts, clock);
    answers, marks := [], [Mark(|s.dir.history|, s.dir.files)];
    for n := 0 to |ts|
      invariant s.Valid() && s.clock == EndOf(ts[..n], clock) && s.nextSequence <= old(s.nextSequence) + n
      invariant s.model == AfterAll(m, ts[..n]) && old(s.dir.history) <= s.dir.history
      invariant Runnable(ts[..n], clock) && RunSafe(s.dir.history, marks, m, ts[..n], clock)
      invariant marks[0] == Mark(|old(s.dir.history)|, old(s.dir.files))
      invariant marks[n] == Mark(|s.dir.history|, s.dir.files)
      invariant Answered(answers, m, ts[..n], clock)
    {
      ghost var a := s.dir.Now();
      assert ts[..n + 1] == ts[..n] + [ts[n]];
      OneStepMore(m, ts, clock, n);
      RunnablePrefix(ts, clock, n + 1);
      RunnableNext(ts[..n], ts[n], clock);
      var found := Take(s, ts[n]);
      AnsweredMore(answers, m, ts[..n], clock, ts[n], found);
      answers := answers + [found];
      StoreRecovers(s);
      RunOneMore(a, s.dir.Now(), marks, m, ts[..n], ts[n], clock);
      marks := marks + [Mark(|s.dir.history|, s.dir.files)];
    }
    assert ts[..|ts|] == ts;
    AnsweredIsTruth(m, ts, clock, answers);
    TruthIsLast(m, ts, clock, answers);
  }

  lemma OneStepMore(m: Model, ts: seq<Timed>, clock: int, n: nat)
    requires Runnable(ts, clock) && n < |ts|
    ensures Runnable(ts[..n], clock) && Runnable(ts[..n + 1], clock)
    ensures AfterAll(m, ts[..n + 1]) == After(AfterAll(m, ts[..n]), ts[n])
    ensures EndOf(ts[..n + 1], clock) == ts[n].now
  {
    hide After;
    assert ts[..n + 1][..n] == ts[..n];
  }

  lemma StoreRecovers(s: Store)
    requires s.Valid()
    ensures Recovers(s.dir.files, s.model, s.clock)
  {
    hide Consistent, OpenTables, Recovers, RecoversWith;
    ConsistentRecovers(s.E());
    RecoversIntro(s.dir.files, s.tables, s.model, s.clock);
  }

  // ---------------------------------------------------------------- many lives

  /** How a process ends: while it is starting, on the given of the disks that passes
      through; or in the middle of a step, on the given of the disks of that step, after
      having completed and answered others. Past the last of them it has done everything
      and dies before it could say so. */
  datatype Life =
    | DiesStarting(dies: nat)
    | Dies(acked: seq<Timed>, inFlight: Timed, dies: nat)

  ghost function StepsOf(life: Life): seq<Timed> {
    if life.DiesStarting? then [] else life.acked + [life.inFlight]
  }

  /** The clock never goes back, not even across restarts. */
  ghost predicate Livable(lives: seq<Life>, clock: int) {
    forall i :: 0 <= i < |lives| ==> Runnable(StepsOf(lives[i]), ClockAfter(lives[..i], clock))
  }

  ghost function ClockAfter(lives: seq<Life>, clock: int): int {
    if lives == [] then clock
    else
      var last := lives[|lives| - 1];
      if last.DiesStarting? then ClockAfter(lives[..|lives| - 1], clock) else last.inFlight.now
  }

  /** The record of one life: every disk it passed through, where its steps ended, the disk
      it died on and the map a restart from that disk reads. */
  datatype Death = Death(history: seq<Moment>, marks: seq<Mark>, disk: Disk, left: Model)

  /** A life that started from `from`, which read as `m`, ended like this. */
  ghost predicate Died(life: Life, from: Disk, m: Model, clock: int, d: Death)
    requires Runnable(StepsOf(life), clock)
  {
    && RunSafe(d.history, d.marks, m, StepsOf(life), clock)
    && d.marks[|StepsOf(life)|].at == |d.history| && StartedOn(d, from, m, clock)
    && Recovers(d.disk, d.left, EndOf(StepsOf(life), clock))
    && if life.DiesStarting? then
         && d.left == m
         && d.disk == if life.dies < d.marks[0].at then d.history[life.dies].disk else d.marks[0].disk
       else DiedIn(life, m, clock, d)
  }

  /** Start-up went from that disk to the disk the first step begins on, and every disk on
      the way recovers to the same map. */
  ghost predicate StartedOn(d: Death, from: Disk, m: Model, clock: int) {
    && d.marks != [] && d.marks[0].at <= |d.history|
    && d.marks[0].disk == Cleaned(from) && Safe(d.history[..d.marks[0].at], m, [], clock)
  }

  /** The disk the life names, and what is on it. */
  ghost predicate DiedIn(life: Life, m: Model, clock: int, d: Death)
    requires life.Dies? && Runnable(StepsOf(life), clock) && RunSafe(d.history, d.marks, m, StepsOf(life), clock)
  {
    var n := |life.acked|;
    RunnableNext(life.acked, life.inFlight, clock);
    assert Busy(d.history, d.marks[n], d.marks[n + 1], m, StepsOf(life), clock, n);
    var from, to, at := d.marks[n], d.marks[n + 1], d.marks[n].at + life.dies;
    if at < to.at then
      d.disk == d.history[at].disk && Leaves(d.history[at], from.disk, AfterAll(m, life.acked), life.inFlight, d.left)
    else
      d.disk == to.disk && d.left == AfterAll(m, StepsOf(life))
  }

  ghost function DiskBefore(deaths: seq<Death>, disk: Disk, i: nat): Disk
    requires i <= |deaths|
  {
    if i == 0 then disk else deaths[i - 1].disk
  }

  ghost function MapBefore(deaths: seq<Death>, m: Model, i: nat): Model
    requires i <= |deaths|
  {
    if i == 0 then m else deaths[i - 1].left
  }

  /** Every life started from the disk the one before died on. */
  ghost predicate Lived(lives: seq<Life>, deaths: seq<Death>, disk: Disk, m: Model, clock: int) {
    && |deaths| == |lives| && Livable(lives, clock)
    && forall i :: 0 <= i < |lives| ==>
         Died(lives[i], DiskBefore(deaths, disk, i), MapBefore(deaths, m, i), ClockAfter(lives[..i], clock), deaths[i])
  }

  lemma DeadStarting(life: Life, disk: Disk, b: State, m: Model, clock: int, d: Death)
    requires life.DiesStarting? && Runnable(StepsOf(life), clock)
    requires b.files == Cleaned(disk) && Safe(b.history, m, [], clock) && Recovers(b.files, m, clock)
    requires d.history == b.history && d.marks == [Mark(|b.history|, b.files)] && d.left == m
    requires d.disk == if life.dies < |b.history| then b.history[life.dies].disk else b.files
    ensures Died(life, disk, m, clock, d)
  {
    hide Recovers, SafeDisk, Cleaned;
    assert b.history[..|b.history|] == b.history;
    if life.dies < |b.history| { SafeDiskRecovers(d.disk, m, clock); }
  }

  lemma DeadRunning(life: Life, disk: Disk, began: seq<Moment>, m: Model, clock: int, d: Death)
    requires life.Dies? && Runnable(StepsOf(life), clock)
    requires RunSafe(d.history, d.marks, m, StepsOf(life), clock)
    requires began <= d.history && d.marks[0] == Mark(|began|, Cleaned(disk)) && Safe(began, m, [], clock)
    requires d.marks[|StepsOf(life)|].at == |d.history|
    requires DiedIn(life, m, clock, d)
    ensures Died(life, disk, m, clock, d)
  {
    hide Recovers, SafeDisk, Cleaned, Survives, MergeLeaves, ClearLeaves, AfterAll, Runnable;
    assert began == d.history[..|began|];
    var n := |life.acked|;
    var steps := StepsOf(life);
    assert steps[..n + 1] == steps && EndOf(steps, clock) == life.inFlight.now;
    assert Idle(d.marks[n + 1], m, steps, clock, n + 1);
  }

  /** One life from a disk to the disk it dies on. It ends early only for want of a table
      number. */
  method LiveOnce(disk: Disk, life: Life, options: Options, policy: SyncPolicy, group: bool, ghost m: Model,
                  ghost clock: int)
    returns (ok: bool, next: Disk, ghost d: Death, s: Store)
    requires Recovers(disk, m, clock) && Runnable(StepsOf(life), clock)
    ensures fresh(s) && fresh(s.dir) && fresh(s.memtable) && fresh(s.wal)
    ensures ok ==> Died(life, disk, m, clock, d) && next == d.disk && d.history == s.dir.history
    ensures !ok ==> s.Valid() && s.model == m && s.clock == clock && s.dir.files == Cleaned(disk)
    ensures !ok ==> s.nextSequence + |StepsOf(life)| >= TWO_64
  {
    hide Consistent, OpenTables, Safe, Recovers, Runnable, Follows, AfterAll, Cleaned, DiedIn, Died, RunSafe, Truth,
      LastWriteWins, Answered;
    var dir := new Directory(disk);
    ghost var a := dir.Now();
    s := Start(dir, options, policy, group, m, clock);
    ghost var began := dir.history;
    assert Since(a, dir.Now()) == began;
    next := disk;
    d := Death([], [], disk, m);
    if life.DiesStarting? {
      ok := true;
      next := if life.dies < |dir.history| then dir.history[life.dies].disk else dir.files;
      d := Death(began, [Mark(|began|, dir.files)], next, m);
      StoreRecovers(s);
      DeadStarting(life, disk, dir.Now(), m, clock, d);
      return;
    }
    ok := s.nextSequence + |life.acked| + 1 < TWO_64;
    if !ok { return; }
    RunnableNext(life.acked, life.inFlight, clock);
    var _, marks := Run(s, life.acked);
    next, d := DieIn(s, life, m, clock, marks);
    DeadRunning(life, disk, began, m, clock, d);
  }

  /** The step a process does not live to answer. */
  method DieIn(s: Store, life: Life, ghost m: Model, ghost clock: int, ghost marks: seq<Mark>)
    returns (next: Disk, ghost d: Death)
    requires life.Dies? && Runnable(StepsOf(life), clock) && Runnable(life.acked, clock)
    requires s.Valid() && s.model == AfterAll(m, life.acked) && s.clock == EndOf(life.acked, clock)
    requires s.nextSequence < TWO_64
    requires RunSafe(s.dir.history, marks, m, life.acked, clock)
    requires marks[|life.acked|] == Mark(|s.dir.history|, s.dir.files)
    modifies s, s.dir, s.memtable, s.wal
    ensures d.history == s.dir.history && old(s.dir.history) <= s.dir.history && next == d.disk
    ensures |d.marks| == |life.acked| + 2 && d.marks[0] == marks[0] && d.marks[|life.acked| + 1].at == |d.history|
    ensures RunSafe(d.history, d.marks, m, StepsOf(life), clock) && DiedIn(life, m, clock, d)
  {
    hide Consistent, OpenTables, Safe, Recovers, Runnable, Follows, Idle, Busy, After, Records, Leaves;
    var from := |s.dir.history|;
    ghost var a, before := s.dir.Now(), s.model;
    RunnableNext(life.acked, life.inFlight, clock);
    var _ := Take(s, life.inFlight);
    StoreRecovers(s);
    ghost var steps, n := StepsOf(life), |life.acked|;
    assert steps[..n] == life.acked && steps[n] == life.inFlight;
    assert s.model == AfterAll(m, steps);
    RunOneMore(a, s.dir.Now(), marks, m, life.acked, life.inFlight, clock);
    ghost var all := marks + [Mark(|s.dir.history|, s.dir.files)];
    var at := from + life.dies;
    ghost var left := s.model;
    if at < |s.dir.history| {
      next := s.dir.history[at].disk;
      assert Since(a, s.dir.Now())[life.dies] == s.dir.history[at];
      assert MomentSafe(s.dir.history[at], a.files, before, life.inFlight);
      left :| Leaves(s.dir.history[at], a.files, before, life.inFlight, left);
    } else {
      next := s.dir.files;
    }
    d := Death(s.dir.history, all, next, left);
  }

  lemma LivablePrefix(lives: seq<Life>, clock: int, n: nat)
    requires Livable(lives, clock) && n <= |lives|
    ensures Livable(lives[..n], clock)
    ensures n < |lives| ==> Runnable(StepsOf(lives[n]), ClockAfter(lives[..n], clock))
    ensures n < |lives| ==> ClockAfter(lives[..n + 1], clock) == EndOf(StepsOf(lives[n]), ClockAfter(lives[..n], clock))
  {
    forall i | 0 <= i < n ensures Runnable(StepsOf(lives[..n][i]), ClockAfter(lives[..n][..i], clock)) {
      assert lives[..n][..i] == lives[..i];
    }
    if n < |lives| { assert lives[..n + 1][..n] == lives[..n]; }
  }

  lemma LivedMore(lives: seq<Life>, deaths: seq<Death>, disk: Disk, m: Model, clock: int, n: nat, d: Death)
    requires Livable(lives, clock) && n < |lives| && |deaths| == n
    requires Lived(lives[..n], deaths, disk, m, clock) && Runnable(StepsOf(lives[n]), ClockAfter(lives[..n], clock))
    requires Died(lives[n], DiskBefore(deaths, disk, n), MapBefore(deaths, m, n), ClockAfter(lives[..n], clock), d)
    ensures Lived(lives[..n + 1], deaths + [d], disk, m, clock)
  {
    hide Died, Runnable, StepsOf, ClockAfter;
    LivablePrefix(lives, clock, n + 1);
    var more, all := lives[..n + 1], deaths + [d];
    forall i | 0 <= i < |more|
      ensures Died(more[i], DiskBefore(all, disk, i), MapBefore(all, m, i), ClockAfter(more[..i], clock), all[i])
    {
      assert more[..i] == lives[..i];
      if i < n { assert lives[..n][i] == lives[i] && lives[..n][..i] == lives[..i]; }
    }
  }

  /** The histories on record are those of the directories the lives ran on. */
  ghost predicate OnRecord(deaths: seq<Death>, stores: seq<Store>)
    reads set i | 0 <= i < |stores| :: stores[i].dir
  {
    |stores| == |deaths| && forall i :: 0 <= i < |deaths| ==> deaths[i].history == stores[i].dir.history
  }

  /** Crash, restart, crash again: every process starts from the disk the one before died on,
      reads it as the map that crash left, runs, and dies where its life says. The one way to
      stop early is to run out of 64-bit table numbers. */
  method Live(disk: Disk, lives: seq<Life>, options: Options, policy: SyncPolicy, group: bool,
              ghost m: Model, ghost clock: int)
    returns (s: Store, stores: seq<Store>, ghost deaths: seq<Death>)
    requires Recovers(disk, m, clock) && Livable(lives, clock)
    ensures |stores| <= |lives| && OnRecord(deaths, stores) && Lived(lives[..|stores|], deaths, disk, m, clock)
    ensures s.Valid() && s.dir.files == Cleaned(DiskBefore(deaths, disk, |stores|))
    ensures s.model == MapBefore(deaths, m, |stores|) && s.clock == ClockAfter(lives[..|stores|], clock)
    ensures |stores| < |lives| ==> s.nextSequence + |StepsOf(lives[|stores|])| >= TWO_64
  {
    hide Consistent, OpenTables, Safe, Recovers, Runnable, Follows, Died, Cleaned, Livable, Lived, StepsOf, ClockAfter;
    stores, deaths := [], [];
    var current := disk;
    LivedNone(lives, disk, m, clock);
    while |stores| < |lives|
      invariant |stores| <= |lives| && OnRecord(deaths, stores) && Lived(lives[..|stores|], deaths, disk, m, clock)
      invariant forall i :: 0 <= i < |stores| ==> fresh(stores[i].dir)
      invariant current == DiskBefore(deaths, disk, |stores|)
      invariant Recovers(current, MapBefore(deaths, m, |stores|), ClockAfter(lives[..|stores|], clock))
      decreases |lives| - |stores|
    {
      var n := |stores|;
      LivablePrefix(lives, clock, n);
      var ok, next;
      ghost var d;
      ok, next, d, s := LiveOnce(current, lives[n], options, policy, group, MapBefore(deaths, m, n),
                                 ClockAfter(lives[..n], clock));
      if !ok { return; }
      LivedMore(lives, deaths, disk, m, clock, n, d);
      DeathRecovers(lives[n], current, MapBefore(deaths, m, n), ClockAfter(lives[..n], clock), d);
      current, deaths, stores := next, deaths + [d], stores + [s];
    }
    s := Restart(current, options, policy, group, MapBefore(deaths, m, |stores|), ClockAfter(lives[..|stores|], clock));
  }

  method Restart(disk: Disk, options: Options, policy: SyncPolicy, group: bool, ghost m: Model, ghost clock: int)
    returns (s: Store)
    requires Recovers(disk, m, clock)
    ensures s.Valid() && s.dir.files == Cleaned(disk) && s.model == m && s.clock == clock
  {
    hide Consistent, OpenTables, Safe, Recovers, Follows, Cleaned;
    var dir := new Directory(disk);
    s := Start(dir, options, policy, group, m, clock);
  }

  lemma LivedNone(lives: seq<Life>, disk: Disk, m: Model, clock: int)
    ensures Lived(lives[..0], [], disk, m, clock) && ClockAfter(lives[..0], clock) == clock
  {
  }

  lemma DeathRecovers(life: Life, from: Disk, m: Model, clock: int, d: Death)
    requires Runnable(StepsOf(life), clock) && Died(life, from, m, clock, d)
    ensures Recovers(d.disk, d.left, EndOf(StepsOf(life), clock))
  {
    hide Recovers, RunSafe, DiedIn;
  }
}
