/** Runs of the store on the plain map: what each kind of step does to it and tells. */
module RunModel {
  import opened ByteStrings
  import opened Rows
  import opened WalCodec
  import opened StoreModel
  import opened StoreSteps
  import opened Commands

  datatype Step =
    | LookUp(key: Bytes)
    | SetKey(key: Bytes, value: Bytes, stamp: int)
    | DelKey(key: Bytes)
    | DelKeys(keys: seq<Bytes>)
    | ExpireKey(key: Bytes, stamp: int)
    | IncrKey(key: Bytes)
    | FlushTable
    | SweepSome(budget: nat)
    | Compact
    | ClearAll

  /** A step and the one clock reading it makes. */
  datatype Timed = Timed(step: Step, now: int)

  /** What the wire and the file formats can carry. */
  predicate Sendable(s: Step) {
    match s
    case SetKey(key, value, stamp) => Short(key) && Short(value) && IsInt64(stamp)
    case DelKey(key) => Short(key)
    case DelKeys(keys) => forall i :: 0 <= i < |keys| ==> Short(keys[i])
    case ExpireKey(key, stamp) => Short(key) && IsInt64(stamp)
    case IncrKey(key) => Short(key)
    case _ => true
  }

  /** The records a step logs. */
  function Records(m: Model, t: Timed): (rs: seq<Record>)
    requires Sendable(t.step) && IsInt64(t.now)
  {
    match t.step
    case SetKey(key, value, stamp) => [Mutation(SetOp, t.now, stamp, key, value)]
    case DelKey(key) => [Mutation(DeleteOp, t.now, 0, key, [])]
    case DelKeys(keys) => Deletions(keys, t.now)
    case ExpireKey(key, stamp) =>
      if Read(m, key, t.now).Some? then [Mutation(SetOp, t.now, stamp, key, Read(m, key, t.now).value.value)] else []
    case IncrKey(key) => IncrementRecords(m, key, t.now)
    case _ => []
  }

  /** The plain map after a step: only writes and a clear change it. */
  function After(m: Model, t: Timed): Model
    requires Sendable(t.step) && IsInt64(t.now)
  {
    if t.step == ClearAll then map[] else ApplyAll(m, Records(m, t))
  }

  /** What a step tells whoever asked for it. */
  datatype Result =
    | Found(found: Option<Stamped>)
    | Removed(count: nat)
    | Applied(applied: bool)
    | Counted(reply: Reply)
    | Nothing

  ghost function Answer(m: Model, t: Timed): Result {
    match t.step
    case LookUp(key) => Found(Read(m, key, t.now))
    case DelKey(key) => Removed(if Read(m, key, t.now).Some? then 1 else 0)
    case DelKeys(keys) => Removed(|LiveKeys(m, keys, t.now)|)
    case ExpireKey(key, stamp) => Applied(Read(m, key, t.now).Some?)
    case IncrKey(key) => Counted(IncrementReply(m, key, t.now))
    case _ => Nothing
  }

  ghost predicate Runnable(ts: seq<Timed>, clock: int) {
    && (forall i :: 0 <= i < |ts| ==> Sendable(ts[i].step) && IsInt64(ts[i].now) && clock <= ts[i].now)
    && (forall i, j :: 0 <= i < j < |ts| ==> ts[i].now <= ts[j].now)
  }

  function AfterAll(m: Model, ts: seq<Timed>): Model
    requires forall i :: 0 <= i < |ts| ==> Sendable(ts[i].step) && IsInt64(ts[i].now)
  {
    if ts == [] then m else After(AfterAll(m, ts[..|ts| - 1]), ts[|ts| - 1])
  }

  ghost function EndOf(ts: seq<Timed>, clock: int): int {
    if ts == [] then clock else ts[|ts| - 1].now
  }

  lemma RunnablePrefix(ts: seq<Timed>, clock: int, j: nat)
    requires Runnable(ts, clock) && j <= |ts|
    ensures Runnable(ts[..j], clock) && clock <= EndOf(ts[..j], clock) <= EndOf(ts, clock)
  {
  }

  lemma RunnableNext(ts: seq<Timed>, t: Timed, clock: int)
    requires Runnable(ts + [t], clock)
    ensures Runnable(ts, clock) && EndOf(ts, clock) <= t.now && Sendable(t.step) && IsInt64(t.now)
  {
    assert (ts + [t])[|ts|] == t && (ts + [t])[..|ts|] == ts;
    RunnablePrefix(ts + [t], clock, |ts|);
  }

  /** Every step of a run was told what the plain map said at that point. */
  ghost predicate Answered(answers: seq<Result>, m: Model, ts: seq<Timed>, clock: int)
    requires Runnable(ts, clock)
  {
    |answers| == |ts| && forall n :: 0 <= n < |ts| ==> answers[n] == Answer(AfterAll(m, ts[..n]), ts[n])
  }

  lemma AnsweredMore(answers: seq<Result>, m: Model, ts: seq<Timed>, clock: int, t: Timed, found: Result)
    requires Runnable(ts, clock) && Runnable(ts + [t], clock) && Answered(answers, m, ts, clock)
    requires found == Answer(AfterAll(m, ts), t)
    ensures Answered(answers + [found], m, ts + [t], clock)
  {
    hide AfterAll, Answer;
    var all := ts + [t];
    forall n | 0 <= n < |all| ensures (answers + [found])[n] == Answer(AfterAll(m, all[..n]), all[n]) {
      assert all[..n] == ts[..n];
      if n == |ts| { assert ts[..n] == ts; }
    }
  }
}
