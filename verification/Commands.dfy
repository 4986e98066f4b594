/** The two commands that compute with what is stored: INCR and EXPIRE. */
module Commands {
  import opened ByteStrings
  import opened Rows
  import opened WalCodec
  import opened StoreModel
  import opened Store
  import opened StoreSteps
  import opened DecimalBytes
  import opened Int64Text
  import Engine
  import StoreRecovery

  datatype Reply = Integer(n: int) | NotAnInteger | WouldOverflow | BadExpireTime

  // ---------------------------------------------------------------- INCR on the plain map

  datatype Counter = Counter(n: int, stamp: int)

  /** What INCR counts from: nothing stored counts as zero with no expiry. */
  function CounterAt(m: Model, key: Bytes, now: int): (c: Option<Counter>)
    ensures c.Some? ==> -MAX_INT64 <= c.value.n <= MAX_INT64 && IsInt64(c.value.stamp)
  {
    match Read(m, key, now)
    case None => Some(Counter(0, 0))
    case Some(s) =>
      var n := Canonical64(s.value);
      if n.None? then None else Some(Counter(n.value, s.stamp))
  }

  lemma SpelledShort(n: int)
    requires -MAX_INT64 <= n <= MAX_INT64
    ensures Short(Spelled(n))
  {
    SpelledShape(n);
  }

  /** INCR on the plain map. */
  function Increment(m: Model, key: Bytes, now: int): Model {
    var c := CounterAt(m, key, now);
    if c.None? || c.value.n == MAX_INT64 then m
    else
      SpelledShort(c.value.n + 1);
      m[key := Stamped(Spelled(c.value.n + 1), c.value.stamp)]
  }

  function IncrementAll(m: Model, key: Bytes, nows: seq<int>): Model
    decreases |nows|
  {
    if nows == [] then m else IncrementAll(Increment(m, key, nows[0]), key, nows[1..])
  }

  lemma {:induction false} IncrementMore(m: Model, key: Bytes, nows: seq<int>, now: int)
    ensures IncrementAll(m, key, nows + [now]) == Increment(IncrementAll(m, key, nows), key, now)
    decreases |nows|
  {
    hide Increment;
    if nows == [] {
      assert nows + [now] == [now] && [now][1..] == [];
    } else {
      assert (nows + [now])[1..] == nows[1..] + [now];
      IncrementMore(Increment(m, key, nows[0]), key, nows[1..], now);
    }
  }

  function Sum(n: int, more: nat): int {
    if n + more <= MAX_INT64 then n + more else MAX_INT64
  }

  lemma IncrementOnce(m: Model, key: Bytes, now: int, later: int)
    requires CounterAt(m, key, now).Some?
    requires !Expired(CounterAt(m, key, now).value.stamp, later) && now <= later
    ensures var c := CounterAt(m, key, now).value; var after := Increment(m, key, now);
      && CounterAt(after, key, later) == Some(Counter(Sum(c.n, 1), c.stamp))
      && Read(after, key, later).Some? && Read(after, key, later).value.value == Spelled(Sum(c.n, 1))
      && forall other :: other != key ==> Read(after, other, later) == Read(m, other, later)
  {
    hide Spelled, Canonical64;
    var c := CounterAt(m, key, now).value;
    var n := Sum(c.n, 1);
    CanonicalExact(Spelled(n), n);
    if c.n == MAX_INT64 {
      var s := Read(m, key, now).value;
      CanonicalExact(s.value, c.n);
    }
  }

  /** However many INCRs, the counter goes up by exactly that many, stops at the largest
      number, and keeps its expiry; no other key moves. */
  lemma {:induction false} IncrementsAdd(m: Model, key: Bytes, nows: seq<int>)
    requires nows != [] && CounterAt(m, key, nows[0]).Some?
    requires forall i, j :: 0 <= i < j < |nows| ==> nows[i] <= nows[j]
    requires forall i :: 0 <= i < |nows| ==> !Expired(CounterAt(m, key, nows[0]).value.stamp, nows[i])
    ensures var c := CounterAt(m, key, nows[0]).value; var end := nows[|nows| - 1];
      var after := IncrementAll(m, key, nows);
      && Read(after, key, end).Some?
      && Read(after, key, end).value.value == Spelled(Sum(c.n, |nows|))
      && Read(after, key, end).value.stamp == c.stamp
      && forall other :: other != key ==> Read(after, other, end) == Read(m, other, end)
    decreases |nows|
  {
    hide Spelled, Canonical64, Increment;
    var c := CounterAt(m, key, nows[0]).value;
    var next := Increment(m, key, nows[0]);
    if |nows| == 1 {
      IncrementOnce(m, key, nows[0], nows[0]);
      assert IncrementAll(next, key, nows[1..]) == next;
    } else {
      IncrementOnce(m, key, nows[0], nows[1]);
      IncrementOnce(m, key, nows[0], nows[|nows| - 1]);
      IncrementsAdd(next, key, nows[1..]);
    }
  }

  // ---------------------------------------------------------------- INCR on the store

  lemma OneApplied(m: Model, r: Record)
    ensures ApplyAll(m, [r]) == Apply(m, r)
  {
    assert ApplyAll(Apply(m, r), []) == Apply(m, r);
  }

  /** The record INCR logs, if it does. */
  function IncrementRecords(m: Model, key: Bytes, now: int): seq<Record>
    requires Short(key) && IsInt64(now)
  {
    var c := CounterAt(m, key, now);
    if c.None? || c.value.n == MAX_INT64 then []
    else
      SpelledShort(c.value.n + 1);
      [Mutation(SetOp, now, c.value.stamp, key, Spelled(c.value.n + 1))]
  }

  function IncrementReply(m: Model, key: Bytes, now: int): Reply {
    var c := CounterAt(m, key, now);
    if c.None? then NotAnInteger
    else if c.value.n == MAX_INT64 then WouldOverflow
    else Integer(c.value.n + 1)
  }

  /** The text is the spelling of a number INCR can count with. */
  ghost predicate IsNumber(text: Bytes, n: int) {
    -9223372036854775807 <= n <= 9223372036854775807 && text == Spelled(n)
  }

  /** What a reply to INCR says about the key before and after. A key that is not there, or
      not any more, counts as zero and gets no expiry. */
  ghost predicate IncrementTold(reply: Reply, before: Option<Stamped>, after: Option<Stamped>) {
    match reply
    case Integer(n) =>
      && after == Some(Stamped(Spelled(n), if before.Some? then before.value.stamp else 0))
      && if before.None? then n == 1 else IsNumber(before.value.value, n - 1) && n <= 9223372036854775807
    case WouldOverflow => before.Some? && IsNumber(before.value.value, 9223372036854775807) && after == before
    case NotAnInteger => before.Some? && (forall n :: !IsNumber(before.value.value, n)) && after == before
    case BadExpireTime => false
  }

  /** The reply tells the truth, and a refusal leaves everything as it was. */
  lemma IncrementTellsTruth(m: Model, key: Bytes, now: int)
    ensures IncrementTold(IncrementReply(m, key, now), Read(m, key, now), Read(Increment(m, key, now), key, now))
    ensures !IncrementReply(m, key, now).Integer? ==> Increment(m, key, now) == m
    ensures forall other, t :: other != key ==> Read(Increment(m, key, now), other, t) == Read(m, other, t)
  {
    hide Spelled, Canonical64;
    var found := Read(m, key, now);
    if found.Some? {
      var text := found.value.value;
      forall n ensures Canonical64(text) == Some(n) <==> IsNumber(text, n) { CanonicalExact(text, n); }
    }
  }

  lemma IncrementApplies(m: Model, key: Bytes, now: int)
    requires Short(key) && IsInt64(now)
    ensures ApplyAll(m, IncrementRecords(m, key, now)) == Increment(m, key, now)
  {
    hide Spelled, CounterAt;
    var rs := IncrementRecords(m, key, now);
    if rs != [] { OneApplied(m, rs[0]); }
  }

  method Incr(store: Store, key: Bytes, now: int) returns (reply: Reply)
    requires store.Valid() && store.Ready(now) && Short(key)
    modifies store, store.dir, store.memtable, store.wal
    ensures reply == IncrementReply(old(store.model), key, now)
    ensures store.Wrote(IncrementRecords(old(store.model), key, now), now)
    ensures store.model == Increment(old(store.model), key, now)
    ensures IncrementTold(reply, Read(old(store.model), key, now), Read(store.model, key, now))
    ensures !reply.Integer? ==> store.model == old(store.model)
    ensures forall other, t :: other != key ==> Read(store.model, other, t) == Read(old(store.model), other, t)
  {
    hide Engine.Consistent, StoreRecovery.OpenTables, Follows, Engine.Safe, Spelled, Canonical64, ApplyAll, Increment,
      IncrementTold, Read;
    IncrementTellsTruth(store.model, key, now);
    IncrementApplies(store.model, key, now);
    var value, stamp := 0, 0;
    var found := store.Lookup(key, now);
    if found.Some? {
      var n := ParseInt64(found.value.value);
      if n.None? {
        store.Touch(now);
        return NotAnInteger;
      }
      value, stamp := n.value, found.value.stamp;
    }
    if value == MAX_INT64 {
      store.Touch(now);
      return WouldOverflow;
    }
    assert CounterAt(store.model, key, now) == Some(Counter(value, stamp));
    value := value + 1;
    SpelledShort(value);
    store.Set(key, Spelled(value), stamp, now);
    return Integer(value);
  }

  /** Each INCR was answered from the map the ones before it left. */
  predicate Counts(replies: seq<Reply>, m: Model, key: Bytes, nows: seq<int>) {
    && |replies| == |nows|
    && forall i :: 0 <= i < |nows| ==> replies[i] == IncrementReply(IncrementAll(m, key, nows[..i]), key, nows[i])
  }

  lemma NoIncrements(m: Model, key: Bytes)
    ensures IncrementAll(m, key, []) == m && Counts([], m, key, [])
  {
  }

  lemma CountsMore(replies: seq<Reply>, m: Model, key: Bytes, nows: seq<int>, now: int, reply: Reply)
    requires Counts(replies, m, key, nows) && reply == IncrementReply(IncrementAll(m, key, nows), key, now)
    ensures Counts(replies + [reply], m, key, nows + [now])
  {
    hide IncrementReply, IncrementAll;
    var all, more := nows + [now], replies + [reply];
    forall i | 0 <= i < |all| ensures more[i] == IncrementReply(IncrementAll(m, key, all[..i]), key, all[i]) {
      assert all[..i] == nows[..i];
      if i == |nows| { assert nows[..i] == nows; }
    }
  }

  /** The replies count up from `n`, and once at the largest number they stay there. */
  predicate CountUp(replies: seq<Reply>, n: int) {
    forall i :: 0 <= i < |replies| ==>
      replies[i] == if n + i + 1 <= 9223372036854775807 then Integer(n + i + 1) else WouldOverflow
  }

  lemma RepliesCount(replies: seq<Reply>, m: Model, key: Bytes, nows: seq<int>)
    requires Counts(replies, m, key, nows) && nows != [] && CounterAt(m, key, nows[0]).Some?
    requires forall i, j :: 0 <= i < j < |nows| ==> nows[i] <= nows[j]
    requires forall i :: 0 <= i < |nows| ==> !Expired(CounterAt(m, key, nows[0]).value.stamp, nows[i])
    ensures CountUp(replies, CounterAt(m, key, nows[0]).value.n)
  {
    hide Spelled, Canonical64, Increment, IncrementAll, Read;
    var c := CounterAt(m, key, nows[0]).value;
    forall i | 0 <= i < |nows|
      ensures replies[i] == if c.n + i + 1 <= 9223372036854775807 then Integer(c.n + i + 1) else WouldOverflow
    {
      ReplyCounts(m, key, nows, i);
    }
  }

  lemma ReplyCounts(m: Model, key: Bytes, nows: seq<int>, i: nat)
    requires i < |nows| && CounterAt(m, key, nows[0]).Some?
    requires forall i, j :: 0 <= i < j < |nows| ==> nows[i] <= nows[j]
    requires forall i :: 0 <= i < |nows| ==> !Expired(CounterAt(m, key, nows[0]).value.stamp, nows[i])
    ensures var n := CounterAt(m, key, nows[0]).value.n + i + 1;
      IncrementReply(IncrementAll(m, key, nows[..i]), key, nows[i]) ==
        if n <= MAX_INT64 then Integer(n) else WouldOverflow
  {
    hide Spelled, Canonical64, Increment, IncrementAll;
    if i == 0 {
      assert nows[..0] == [];
      NoIncrements(m, key);
    } else {
      var c := CounterAt(m, key, nows[0]).value;
      IncrementsAdd(m, key, nows[..i]);
      CanonicalExact(Spelled(Sum(c.n, i)), Sum(c.n, i));
    }
  }

  /** INCR as often as there are clock readings: the store's counter goes up by that many,
      stops at the largest number and keeps its expiry, and no other key moves. */
  method IncrTimes(store: Store, key: Bytes, nows: seq<int>) returns (replies: seq<Reply>)
    requires store.Valid() && Short(key) && store.nextSequence + |nows| < TWO_64 && nows != []
    requires forall i :: 0 <= i < |nows| ==> store.clock <= nows[i] && IsInt64(nows[i])
    requires forall i, j :: 0 <= i < j < |nows| ==> nows[i] <= nows[j]
    modifies store, store.dir, store.memtable, store.wal
    ensures store.Valid() && store.model == IncrementAll(old(store.model), key, nows)
    ensures Counts(replies, old(store.model), key, nows)
    ensures var c := CounterAt(old(store.model), key, nows[0]); var end := nows[|nows| - 1];
      c.Some? && (forall i :: 0 <= i < |nows| ==> !Expired(c.value.stamp, nows[i])) ==>
        var after := Read(store.model, key, end);
        && after.Some? && after.value.value == Spelled(Sum(c.value.n, |nows|)) && after.value.stamp == c.value.stamp
        && (forall other :: other != key ==> Read(store.model, other, end) == Read(old(store.model), other, end))
        && CountUp(replies, c.value.n)
  {
    hide Engine.Consistent, StoreRecovery.OpenTables, Follows, Engine.Safe, Spelled, Canonical64, ApplyAll, Increment;
    hide CountUp, IncrementTold, CounterAt, Read, IncrementReply, IncrementAll;
    NoIncrements(store.model, key);
    replies := [];
    for i := 0 to |nows|
      invariant store.Valid() && store.nextSequence <= old(store.nextSequence) + i
      invariant i < |nows| ==> store.clock <= nows[i]
      invariant store.model == IncrementAll(old(store.model), key, nows[..i])
      invariant Counts(replies, old(store.model), key, nows[..i])
    {
      assert nows[..i + 1] == nows[..i] + [nows[i]];
      IncrementMore(old(store.model), key, nows[..i], nows[i]);
      var reply := Incr(store, key, nows[i]);
      CountsMore(replies, old(store.model), key, nows[..i], nows[i], reply);
      replies := replies + [reply];
    }
    assert nows[..|nows|] == nows;
    if CounterAt(old(store.model), key, nows[0]).Some? &&
       forall i :: 0 <= i < |nows| ==> !Expired(CounterAt(old(store.model), key, nows[0]).value.stamp, nows[i]) {
      IncrementsAdd(old(store.model), key, nows);
      RepliesCount(replies, old(store.model), key, nows);
    }
  }

  // ---------------------------------------------------------------- EXPIRE

  /** `deadline_from`: no wrap-around, and never the stamp that means no expiry, although a
      lifetime that is not positive can land on it. */
  method DeadlineFrom(amount: int, unit: int, now: int) returns (deadline: Option<int>)
    requires amount <= MAX_INT64 && 0 < unit <= MAX_INT64 && 0 <= now <= MAX_INT64
    requires -TWO_63 <= amount * unit
    ensures deadline.Some? <==> now + amount * unit <= MAX_INT64
    ensures deadline.Some? ==> deadline.value != 0 && IsInt64(deadline.value)
    ensures deadline.Some? && now + amount * unit != 0 ==> deadline.value == now + amount * unit
    ensures deadline.Some? ==> forall t :: now <= t ==> (Expired(deadline.value, t) <==> t >= now + amount * unit)
  {
    DivisionGuard(amount, unit);
    if amount > MAX_INT64 / unit { return None; }
    var delta := amount * unit;
    if delta > MAX_INT64 - now { return None; }
    var d := now + delta;
    if d == 0 { d := -1; }
    return Some(d);
  }

  lemma DivisionGuard(amount: int, unit: int)
    requires 0 < unit
    ensures amount > MAX_INT64 / unit <==> amount * unit > MAX_INT64
    ensures amount > 0 ==> amount * unit > 0
  {
    var q, r := MAX_INT64 / unit, MAX_INT64 % unit;
    assert MAX_INT64 == q * unit + r;
    if amount > q {
      assert amount * unit >= (q + 1) * unit;
    } else {
      assert amount * unit <= q * unit;
    }
  }

  const SECOND: int := 1000

  /** A number of seconds, a thousand milliseconds each; what is not positive ends the key's
      life at once. */
  method ExpireIn(store: Store, key: Bytes, text: Bytes, now: int) returns (reply: Reply)
    requires store.Valid() && store.Ready(now) && Short(key) && 0 <= now
    modifies store, store.dir, store.memtable, store.wal
    ensures store.Valid()
    ensures var seconds := Canonical64(text); var before := Read(old(store.model), key, now);
      reply ==
        if seconds.None? then NotAnInteger
        else if seconds.value > 0 && now + seconds.value * 1000 > 9223372036854775807 then BadExpireTime
        else Integer(if before.Some? then 1 else 0)
    ensures reply == Integer(1) ==>
      var value := Read(old(store.model), key, now).value.value;
      var seconds := Canonical64(text).value;
      var end := if seconds <= 0 then now else now + seconds * 1000;
      forall t :: now <= t ==>
        (Read(store.model, key, t).Some? <==> t < end) &&
        (t < end ==> Read(store.model, key, t).value.value == value)
    ensures reply != Integer(1) ==> store.model == old(store.model)
    ensures forall other, t :: other != key ==> Read(store.model, other, t) == Read(old(store.model), other, t)
  {
    hide Engine.Consistent, StoreRecovery.OpenTables, Follows, Engine.Safe, Canonical64;
    var seconds := ParseInt64(text);
    if seconds.None? { return NotAnInteger; }
    var deadline := -1;
    if seconds.value > 0 {
      var d := DeadlineFrom(seconds.value, SECOND, now);
      if d.None? { return BadExpireTime; }
      deadline := d.value;
    }
    var applied := store.Expire(key, deadline, now);
    if applied {
      OneApplied(old(store.model), Mutation(SetOp, now, deadline, key, Read(old(store.model), key, now).value.value));
    } else {
      Engine.NothingApplied(old(store.model));
    }
    return Integer(if applied then 1 else 0);
  }
}
