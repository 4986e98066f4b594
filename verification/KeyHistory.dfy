/** What a run must answer, told from its steps and its earlier answers alone: a key holds what
    the last step that touched it left there, until its stamp has passed. */
module KeyHistory {
  import opened ByteStrings
  import opened Rows
  import opened WalCodec
  import opened StoreModel
  import opened StoreSteps
  import opened Commands
  import opened DecimalBytes
  import opened RunModel

  /** A stamp that has not passed; zero never does. */
  predicate Current(stamp: int, now: int) {
    stamp == 0 || now < stamp
  }

  predicate Shows(content: Option<AnyStamped>, now: int) {
    content.Some? && Current(content.value.stamp, now)
  }

  /** What a step leaves in a key. Whether an EXPIRE applied, and what an INCR came to, is in
      its answer. */
  function Next(before: Option<AnyStamped>, t: Timed, answer: Result, key: Bytes): Option<AnyStamped> {
    match t.step
    case SetKey(k, value, stamp) => if k == key then Some(Stamped(value, stamp)) else before
    case DelKey(k) => if k == key then None else before
    case DelKeys(keys) => if key in keys then None else before
    case ClearAll => None
    case ExpireKey(k, stamp) =>
      if k == key && answer == Applied(true) && before.Some? then Some(Stamped(before.value.value, stamp)) else before
    case IncrKey(k) =>
      if k == key && answer.Counted? && answer.reply.Integer?
      then Some(Stamped(Spelled(answer.reply.n), if Shows(before, t.now) then before.value.stamp else 0))
      else before
    case _ => before
  }

  /** What a key holds after the first `n` steps, passed or not. */
  function Holding(m: Model, ts: seq<Timed>, answers: seq<Result>, key: Bytes, n: nat): Option<AnyStamped>
    requires n <= |ts| == |answers|
    decreases n
  {
    if n > 0 then Next(Holding(m, ts, answers, key, n - 1), ts[n - 1], answers[n - 1], key)
    else if key in m then Some(m[key])
    else None
  }

  // ---------------------------------------------------------------- the law

  /** What INCR answers, given what the key holds. */
  ghost predicate CountsFrom(content: Option<AnyStamped>, now: int, reply: Reply) {
    if !Shows(content, now) then reply == Integer(1)
    else
      && (forall n :: IsNumber(content.value.value, n) ==>
            reply == if n < 9223372036854775807 then Integer(n + 1) else WouldOverflow)
      && ((forall n :: !IsNumber(content.value.value, n)) ==> reply == NotAnInteger)
  }

  /** The answer to a step, given what each key holds. */
  ghost predicate Told(content: Bytes -> Option<AnyStamped>, t: Timed, answer: Result) {
    match t.step
    case LookUp(key) =>
      && answer.Found? && (answer.found.Some? <==> Shows(content(key), t.now))
      && (answer.found.Some? ==> answer.found.value == content(key).value)
    case DelKey(key) => answer == Removed(if Shows(content(key), t.now) then 1 else 0)
    case DelKeys(keys) => answer == Removed(|set key | key in keys && Shows(content(key), t.now)|)
    case ExpireKey(key, stamp) => answer == Applied(Shows(content(key), t.now))
    case IncrKey(key) => answer.Counted? && CountsFrom(content(key), t.now, answer.reply)
    case _ => answer == Nothing
  }

  /** Every answer of the run is right. */
  ghost predicate Truth(m: Model, ts: seq<Timed>, answers: seq<Result>) {
    && |answers| == |ts|
    && forall n :: 0 <= n < |ts| ==> Told(key => HeldAt(m, ts, answers, key, n), ts[n], answers[n])
  }

  function HeldAt(m: Model, ts: seq<Timed>, answers: seq<Result>, key: Bytes, n: int): Option<AnyStamped> {
    if 0 <= n <= |ts| == |answers| then Holding(m, ts, answers, key, n) else None
  }

  // ---------------------------------------------------------------- the last write wins

  /** The step may change what the key holds. */
  predicate Touches(step: Step, key: Bytes) {
    match step
    case SetKey(k, value, stamp) => k == key
    case DelKey(k) => k == key
    case DelKeys(keys) => key in keys
    case ExpireKey(k, stamp) => k == key
    case IncrKey(k) => k == key
    case ClearAll => true
    case _ => false
  }

  ghost predicate Untouched(ts: seq<Timed>, key: Bytes, lo: nat, hi: nat)
    requires hi <= |ts|
  {
    forall i :: lo <= i < hi ==> !Touches(ts[i].step, key)
  }

  /** A look-up found this, or nothing once the stamp has passed. */
  predicate Finds(said: Result, value: Bytes, stamp: int, now: int) {
    && said.Found? && (said.found.Some? <==> stamp == 0 || now < stamp)
    && (said.found.Some? ==> said.found.value.value == value && said.found.value.stamp == stamp)
  }

  /** What a look-up says when this was the last step before it to touch the key, which held
      `before` until then. */
  ghost predicate SaysLast(before: Option<AnyStamped>, last: Timed, answer: Result, now: int, said: Result) {
    match last.step
    case SetKey(k, value, stamp) => Finds(said, value, stamp, now)
    case ExpireKey(k, stamp) =>
      if answer == Applied(true) then before.Some? && Finds(said, before.value.value, stamp, now)
      else said == Found(None)
    case IncrKey(k) =>
      && answer.Counted?
      && if answer.reply.Integer?
         then Finds(said, Spelled(answer.reply.n), if Shows(before, last.now) then before.value.stamp else 0, now)
         else before.Some? && Finds(said, before.value.value, before.value.stamp, now)
    case _ => said == Found(None)
  }

  ghost predicate LastWriteWins(m: Model, ts: seq<Timed>, answers: seq<Result>) {
    && |answers| == |ts|
    && (forall j, n :: 0 <= j < n < |ts| && ts[n].step.LookUp? ==>
          Touches(ts[j].step, ts[n].step.key) && Untouched(ts, ts[n].step.key, j + 1, n) ==>
            SaysLast(HeldAt(m, ts, answers, ts[n].step.key, j), ts[j], answers[j], ts[n].now, answers[n]))
    && (forall n :: 0 <= n < |ts| && ts[n].step.LookUp? && Untouched(ts, ts[n].step.key, 0, n) ==>
          SaysStarted(m, ts[n].step.key, ts[n].now, answers[n]))
  }

  /** What a look-up says of a key no step has touched. */
  ghost predicate SaysStarted(m: Model, key: Bytes, now: int, said: Result) {
    if key in m then Finds(said, m[key].value, m[key].stamp, now) else said == Found(None)
  }

  lemma {:induction false} UntouchedHolds(m: Model, ts: seq<Timed>, answers: seq<Result>, key: Bytes, lo: nat, hi: nat)
    requires lo <= hi <= |ts| == |answers| && Untouched(ts, key, lo, hi)
    ensures Holding(m, ts, answers, key, hi) == Holding(m, ts, answers, key, lo)
    decreases hi
  {
    if lo < hi { UntouchedHolds(m, ts, answers, key, lo, hi - 1); }
  }

  lemma SaysWhatWasLeft(m: Model, ts: seq<Timed>, answers: seq<Result>, j: nat, n: nat)
    requires Truth(m, ts, answers) && j < n < |ts| && ts[n].step.LookUp? && ts[j].now <= ts[n].now
    requires Touches(ts[j].step, ts[n].step.key) && Untouched(ts, ts[n].step.key, j + 1, n)
    ensures SaysLast(HeldAt(m, ts, answers, ts[n].step.key, j), ts[j], answers[j], ts[n].now, answers[n])
  {
    hide Spelled, IsNumber;
    var key := ts[n].step.key;
    UntouchedHolds(m, ts, answers, key, j + 1, n);
    assert Told(k => HeldAt(m, ts, answers, k, n), ts[n], answers[n]);
    assert Told(k => HeldAt(m, ts, answers, k, j), ts[j], answers[j]);
  }

  lemma TruthIsLast(m: Model, ts: seq<Timed>, clock: int, answers: seq<Result>)
    requires Runnable(ts, clock) && Truth(m, ts, answers)
    ensures LastWriteWins(m, ts, answers)
  {
    hide Truth, SaysLast, Touches, Untouched, SaysStarted, HeldAt;
    TruthLength(m, ts, answers);
    forall j, n | 0 <= j < n < |ts| && ts[n].step.LookUp? && Touches(ts[j].step, ts[n].step.key)
                  && Untouched(ts, ts[n].step.key, j + 1, n)
      ensures SaysLast(HeldAt(m, ts, answers, ts[n].step.key, j), ts[j], answers[j], ts[n].now, answers[n])
    {
      SaysWhatWasLeft(m, ts, answers, j, n);
    }
    forall n | 0 <= n < |ts| && ts[n].step.LookUp? && Untouched(ts, ts[n].step.key, 0, n)
      ensures SaysStarted(m, ts[n].step.key, ts[n].now, answers[n])
    {
      SaysWhatWasThere(m, ts, answers, n);
    }
  }

  lemma TruthLength(m: Model, ts: seq<Timed>, answers: seq<Result>)
    requires Truth(m, ts, answers)
    ensures |answers| == |ts|
  {
  }

  lemma SaysWhatWasThere(m: Model, ts: seq<Timed>, answers: seq<Result>, n: nat)
    requires Truth(m, ts, answers) && n < |ts| && ts[n].step.LookUp? && Untouched(ts, ts[n].step.key, 0, n)
    ensures SaysStarted(m, ts[n].step.key, ts[n].now, answers[n])
  {
    UntouchedHolds(m, ts, answers, ts[n].step.key, 0, n);
    assert Told(k => HeldAt(m, ts, answers, k, n), ts[n], answers[n]);
  }

  // ---------------------------------------------------------------- the plain map obeys it

  function ContentOf(m: Model, key: Bytes): Option<AnyStamped> {
    if key in m then Some(m[key]) else None
  }

  lemma ReadShows(m: Model, key: Bytes, now: int)
    ensures Read(m, key, now).Some? <==> Shows(ContentOf(m, key), now)
    ensures Read(m, key, now).Some? ==> Read(m, key, now).value == ContentOf(m, key).value
  {
  }

  lemma {:induction false} DeletedContent(m: Model, keys: seq<Bytes>, now: int, i: nat, key: Bytes)
    requires IsInt64(now) && (forall n :: 0 <= n < |keys| ==> Short(keys[n])) && i <= |keys|
    ensures ContentOf(ApplyAll(m, Deletions(keys, now)[..i]), key) ==
      if key in keys[..i] then None else ContentOf(m, key)
    decreases i
  {
    var batch := Deletions(keys, now);
    if i > 0 {
      DeletedContent(m, keys, now, i - 1, key);
      assert batch[..i] == batch[..i - 1] + [batch[i - 1]];
      assert keys[..i] == keys[..i - 1] + [keys[i - 1]];
      ApplyAllConcat(m, batch[..i - 1], [batch[i - 1]]);
      OneApplied(ApplyAll(m, batch[..i - 1]), batch[i - 1]);
    } else {
      assert batch[..0] == [];
    }
  }

  /** One step of the plain map, key by key. */
  lemma AfterIsNext(m: Model, t: Timed, key: Bytes)
    requires Sendable(t.step) && IsInt64(t.now)
    ensures ContentOf(After(m, t), key) == Next(ContentOf(m, key), t, Answer(m, t), key)
  {
    hide Spelled, IncrementRecords, IncrementReply;
    match t.step
    case SetKey(k, value, stamp) => OneApplied(m, Records(m, t)[0]);
    case DelKey(k) => OneApplied(m, Records(m, t)[0]);
    case DelKeys(keys) =>
      DeletedContent(m, keys, t.now, |keys|, key);
      assert Deletions(keys, t.now)[..|keys|] == Deletions(keys, t.now) && keys[..|keys|] == keys;
    case ExpireKey(k, stamp) =>
      ReadShows(m, k, t.now);
      if Read(m, k, t.now).Some? { OneApplied(m, Records(m, t)[0]); } else { NothingHappens(m); }
    case IncrKey(k) => IncrementIsNext(m, k, t.now, key);
    case ClearAll =>
    case _ => NothingHappens(m);
  }

  lemma NothingHappens(m: Model)
    ensures ApplyAll(m, []) == m
  {
  }

  lemma IncrementIsNext(m: Model, k: Bytes, now: int, key: Bytes)
    requires Short(k) && IsInt64(now)
    ensures ContentOf(ApplyAll(m, IncrementRecords(m, k, now)), key) ==
      Next(ContentOf(m, key), Timed(IncrKey(k), now), Counted(IncrementReply(m, k, now)), key)
  {
    hide Spelled, IncrementRecords;
    IncrementApplies(m, k, now);
    ReadShows(m, k, now);
  }

  lemma AnswerIsTold(m: Model, t: Timed)
    requires Sendable(t.step) && IsInt64(t.now)
    ensures Told(key => ContentOf(m, key), t, Answer(m, t))
  {
    hide Spelled, IncrementReply, ContentOf, Shows, Read;
    var content := key => ContentOf(m, key);
    match t.step
    case LookUp(key) => ReadShows(m, key, t.now);
    case DelKey(key) => ReadShows(m, key, t.now);
    case DelKeys(keys) =>
      LiveAreShown(m, keys, t.now);
      assert LiveKeys(m, keys, t.now) == set key | key in keys && Shows(content(key), t.now);
      assert Told(content, t, Answer(m, t));
    case ExpireKey(key, stamp) => ReadShows(m, key, t.now);
    case IncrKey(key) => IncrementCountsFrom(m, key, t.now);
    case _ =>
  }

  lemma LiveAreShown(m: Model, keys: seq<Bytes>, now: int)
    ensures LiveKeys(m, keys, now) == set key | key in keys && Shows(ContentOf(m, key), now)
  {
    hide ContentOf, Shows, Read;
    forall key ensures Read(m, key, now).Some? <==> Shows(ContentOf(m, key), now) { ReadShows(m, key, now); }
  }

  lemma IncrementCountsFrom(m: Model, key: Bytes, now: int)
    ensures CountsFrom(ContentOf(m, key), now, IncrementReply(m, key, now))
  {
    IncrementTellsTruth(m, key, now);
    ReadShows(m, key, now);
    hide Spelled, IncrementReply, Increment, Read, ContentOf, Shows;
    var found := Read(m, key, now);
    if found.Some? {
      forall n, k | IsNumber(found.value.value, n) && IsNumber(found.value.value, k) ensures n == k {
        DenotesSpelled(n);
        DenotesSpelled(k);
      }
    }
  }

  lemma {:induction false} HoldingIsMap(m: Model, ts: seq<Timed>, clock: int, answers: seq<Result>, key: Bytes, n: nat)
    requires Runnable(ts, clock) && Answered(answers, m, ts, clock) && n <= |ts|
    ensures HeldAt(m, ts, answers, key, n) == ContentOf(AfterAll(m, ts[..n]), key)
    decreases n
  {
    hide After, Answer, Next, ContentOf;
    if n == 0 {
      HeldAtFirst(m, ts, answers, key);
    } else {
      HoldingIsMap(m, ts, clock, answers, key, n - 1);
      assert ts[..n][..n - 1] == ts[..n - 1];
      AfterIsNext(AfterAll(m, ts[..n - 1]), ts[n - 1], key);
    }
  }

  lemma HeldAtFirst(m: Model, ts: seq<Timed>, answers: seq<Result>, key: Bytes)
    requires |ts| == |answers|
    ensures HeldAt(m, ts, answers, key, 0) == ContentOf(m, key)
  {
  }

  /** A run answered from the plain map is answered truthfully. */
  lemma AnsweredIsTruth(m: Model, ts: seq<Timed>, clock: int, answers: seq<Result>)
    requires Runnable(ts, clock) && Answered(answers, m, ts, clock)
    ensures Truth(m, ts, answers)
  {
    hide Answer, AfterAll, Told, HeldAt, ContentOf;
    forall n | 0 <= n < |ts| ensures Told(key => HeldAt(m, ts, answers, key, n), ts[n], answers[n]) {
      var now := AfterAll(m, ts[..n]);
      forall key ensures HeldAt(m, ts, answers, key, n) == ContentOf(now, key) {
        HoldingIsMap(m, ts, clock, answers, key, n);
      }
      AnswerIsTold(now, ts[n]);
      ToldSame(key => ContentOf(now, key), key => HeldAt(m, ts, answers, key, n), ts[n], answers[n]);
    }
  }

  lemma ToldSame(f: Bytes -> Option<AnyStamped>, g: Bytes -> Option<AnyStamped>, t: Timed, answer: Result)
    requires Told(f, t, answer) && forall key :: f(key) == g(key)
    ensures Told(g, t, answer)
  {
    hide CountsFrom, Shows;
    if t.step.DelKeys? {
      var keys := t.step.keys;
      assert (set key | key in keys && Shows(f(key), t.now)) == (set key | key in keys && Shows(g(key), t.now));
    }
  }
}
