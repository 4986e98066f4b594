/** Choosing which tables to merge: the first long enough run of similar sizes, walking
    from the oldest table towards the newest. */
module TierWalk {

  const TRIGGER: nat := 4
  const RATIO: nat := 2

  function Min(a: nat, b: nat): nat { if a < b then a else b }
  function Max(a: nat, b: nat): nat { if a < b then b else a }

  /** A table may join a run whose smallest member so far is `smallest`. */
  predicate Joins(candidate: nat, smallest: nat) {
    Min(candidate, smallest) != 0 && Max(candidate, smallest) <= Min(candidate, smallest) * RATIO
  }

  /** `sizes` is newest first; the run `[begin, end)` was grown from `end` downwards. */
  function Smallest(sizes: seq<nat>, begin: nat, end: nat): nat
    requires begin < end <= |sizes|
    decreases end - begin
  {
    if begin + 1 == end then sizes[begin] else Min(sizes[begin], Smallest(sizes, begin + 1, end))
  }

  /** Every member was within the ratio of the smallest member older than itself. */
  ghost predicate IsRun(sizes: seq<nat>, begin: nat, end: nat)
    requires begin <= end <= |sizes|
  {
    && (begin < end ==> sizes[end - 1] != 0)
    && forall k :: begin <= k < end - 1 ==> Joins(sizes[k], Smallest(sizes, k + 1, end))
  }

  /** A run that cannot be extended towards the newest table. */
  ghost predicate IsTier(sizes: seq<nat>, begin: nat, end: nat)
    requires begin <= end <= |sizes|
  {
    && IsRun(sizes, begin, end)
    && (begin == end ==> end == 0 || sizes[end - 1] == 0)
    && (0 < begin < end ==> !Joins(sizes[begin - 1], Smallest(sizes, begin, end)))
  }

  /** The greedy partition of the sizes below `end` into tiers. */
  ghost function TierBegin(sizes: seq<nat>, i: nat, end: nat): nat
    requires i <= end <= |sizes|
    decreases i
  {
    if i == 0 then 0
    else if i == end then (if sizes[end - 1] == 0 then i else TierBegin(sizes, i - 1, end))
    else if Joins(sizes[i - 1], Smallest(sizes, i, end)) then TierBegin(sizes, i - 1, end)
    else i
  }

  lemma RunGrows(sizes: seq<nat>, i: nat, end: nat)
    requires 0 < i <= end <= |sizes| && IsRun(sizes, i, end)
    requires if i == end then sizes[end - 1] != 0 else Joins(sizes[i - 1], Smallest(sizes, i, end))
    ensures IsRun(sizes, i - 1, end)
  {
    hide Joins, Smallest;
  }

  lemma {:induction false} TierBeginIsTier(sizes: seq<nat>, i: nat, end: nat)
    requires i <= end <= |sizes| && IsRun(sizes, i, end)
    ensures TierBegin(sizes, i, end) <= i && IsTier(sizes, TierBegin(sizes, i, end), end)
    decreases i
  {
    hide Joins, Smallest, IsRun;
    if i > 0 && (if i == end then sizes[end - 1] != 0 else Joins(sizes[i - 1], Smallest(sizes, i, end))) {
      RunGrows(sizes, i, end);
      TierBeginIsTier(sizes, i - 1, end);
    }
  }

  datatype Choice = Choice(begin: nat, len: nat)

  /** The first tier of at least four, oldest first; length 0 when there is none. */
  ghost function FirstTier(sizes: seq<nat>, end: nat): Choice
    requires end <= |sizes|
    decreases end
  {
    if end == 0 then Choice(0, 0)
    else
      TierBeginIsTier(sizes, end, end);
      var i := TierBegin(sizes, end, end);
      if end - i >= TRIGGER then Choice(i, end - i)
      else FirstTier(sizes, if i == end then i - 1 else i)
  }

  /** The two nested loops of the walk, over any list of sizes. */
  method Choose(sizes: seq<nat>) returns (c: Choice)
    ensures c == FirstTier(sizes, |sizes|)
  {
    var i: nat := |sizes|;
    while i > 0
      invariant i <= |sizes|
      invariant FirstTier(sizes, |sizes|) == FirstTier(sizes, i)
    {
      var end := i;
      var smallest := sizes[i - 1];
      while i > 0
        invariant i <= end
        invariant smallest == if i == end then sizes[end - 1] else Smallest(sizes, i, end)
        invariant TierBegin(sizes, end, end) == TierBegin(sizes, i, end)
        decreases i
      {
        var candidate := sizes[i - 1];
        var low, high := Min(candidate, smallest), Max(candidate, smallest);
        if low == 0 || high > low * RATIO { break; }
        smallest := low;
        i := i - 1;
      }
      if end - i >= TRIGGER {
        return Choice(i, end - i);
      }
      if end == i { i := i - 1; }
    }
    return Choice(0, 0);
  }

  // ---------------------------------------------------------------- what a choice is worth

  lemma {:induction false} ChoiceIsTier(sizes: seq<nat>, end: nat)
    requires end <= |sizes|
    ensures var c := FirstTier(sizes, end);
      c.len > 0 ==> c.len >= TRIGGER && c.begin + c.len <= end && IsTier(sizes, c.begin, c.begin + c.len)
    decreases end
  {
    hide IsTier, TierBegin;
    if end > 0 {
      TierBeginIsTier(sizes, end, end);
      var i := TierBegin(sizes, end, end);
      if end - i < TRIGGER { ChoiceIsTier(sizes, if i == end then i - 1 else i); }
    }
  }

  /** From one end there is one tier. */
  lemma TierIsUnique(sizes: seq<nat>, a: nat, b: nat, end: nat)
    requires a <= end <= |sizes| && b <= end && IsTier(sizes, a, end) && IsTier(sizes, b, end)
    ensures a == b
  {
    hide Joins, Smallest;
  }

  /** Passed over on the way: a tier too short to bother with, or an empty file. */
  ghost predicate PassedOver(sizes: seq<nat>, begin: nat, end: nat)
    requires begin <= end <= |sizes|
  {
    begin < end &&
    ((IsTier(sizes, begin, end) && end - begin < TRIGGER) || (begin + 1 == end && sizes[begin] == 0))
  }

  ghost predicate Walked(sizes: seq<nat>, bounds: seq<nat>, end: nat)
    requires end <= |sizes|
  {
    && bounds != [] && bounds[0] == end
    && (forall k :: 0 <= k < |bounds| ==> bounds[k] <= end)
    && (forall k :: 0 < k < |bounds| ==> bounds[k] <= bounds[k - 1] && PassedOver(sizes, bounds[k], bounds[k - 1]))
  }

  /** Everything older than the choice was cut into tiers that were passed over; when
      nothing is chosen, everything was. */
  lemma {:induction false} ChoiceIsFirst(sizes: seq<nat>, end: nat) returns (bounds: seq<nat>)
    requires end <= |sizes|
    ensures Walked(sizes, bounds, end)
    ensures var c := FirstTier(sizes, end); var last := bounds[|bounds| - 1];
      if c.len > 0 then last == c.begin + c.len else last == 0
    decreases end
  {
    hide IsTier, TierBegin;
    bounds := [end];
    if end > 0 {
      TierBeginIsTier(sizes, end, end);
      var i := TierBegin(sizes, end, end);
      if end - i < TRIGGER {
        var next := if i == end then i - 1 else i;
        if i == end { EmptyTier(sizes, end); }
        assert PassedOver(sizes, next, end);
        var rest := ChoiceIsFirst(sizes, next);
        bounds := [end] + rest;
        assert forall k :: 0 < k < |bounds| ==> bounds[k] == rest[k - 1];
      }
    }
  }

  lemma EmptyTier(sizes: seq<nat>, end: nat)
    requires 0 < end <= |sizes| && IsTier(sizes, end, end)
    ensures sizes[end - 1] == 0
  {
  }

  /** Tiers are cut greedily from the oldest table, so four tables fit to be merged can
      be passed over when the oldest of them went to an older tier. */
  lemma RunPassedOver()
    ensures var sizes := [3, 3, 3, 2, 1]; FirstTier(sizes, 5).len == 0 && IsRun(sizes, 0, 4)
  {
    var sizes: seq<nat> := [3, 3, 3, 2, 1];
    assert Smallest(sizes, 4, 5) == 1;
    assert Smallest(sizes, 3, 5) == 1;
    assert Smallest(sizes, 2, 3) == 3;
    assert Smallest(sizes, 1, 3) == 3;
    assert TierBegin(sizes, 3, 5) == 3;
    assert TierBegin(sizes, 4, 5) == 3;
    assert TierBegin(sizes, 5, 5) == 3;
    assert TierBegin(sizes, 0, 3) == 0;
    assert TierBegin(sizes, 1, 3) == 0;
    assert TierBegin(sizes, 2, 3) == 0;
    assert TierBegin(sizes, 3, 3) == 0;
    assert FirstTier(sizes, 0).len == 0;
    assert FirstTier(sizes, 3).len == 0;
    assert Smallest(sizes, 3, 4) == 2;
    assert Smallest(sizes, 2, 4) == 2;
    assert Smallest(sizes, 1, 4) == 2;
  }

  lemma {:induction false} SmallestIsLeast(sizes: seq<nat>, begin: nat, end: nat)
    requires begin < end <= |sizes|
    ensures forall k :: begin <= k < end ==> Smallest(sizes, begin, end) <= sizes[k]
    ensures exists k :: begin <= k < end && Smallest(sizes, begin, end) == sizes[k]
    decreases end - begin
  {
    assert sizes[begin] == sizes[begin];
    if begin + 1 < end {
      SmallestIsLeast(sizes, begin + 1, end);
      var k :| begin + 1 <= k < end && Smallest(sizes, begin + 1, end) == sizes[k];
      assert Smallest(sizes, begin, end) == sizes[if sizes[begin] < sizes[k] then begin else k];
    }
  }

  /** No member of a run is empty, and each is within the ratio of every older member
      that was the smallest when it joined. */
  lemma RunMembers(sizes: seq<nat>, begin: nat, end: nat)
    requires begin <= end <= |sizes| && IsRun(sizes, begin, end)
    ensures forall k :: begin <= k < end ==> sizes[k] > 0
    ensures forall k :: begin <= k < end - 1 ==>
      var s := Smallest(sizes, k + 1, end);
      sizes[k] <= RATIO * s && s <= RATIO * sizes[k]
  {
  }

  /** Any two members are within the ratio of each other. */
  ghost predicate SameTier(sizes: seq<nat>, begin: nat, end: nat)
    requires begin <= end <= |sizes|
  {
    forall j, k :: begin <= j < end && begin <= k < end ==> sizes[j] <= RATIO * sizes[k]
  }

  function Largest(sizes: seq<nat>, begin: nat, end: nat): nat
    requires begin < end <= |sizes|
    decreases end - begin
  {
    if begin + 1 == end then sizes[begin] else Max(sizes[begin], Largest(sizes, begin + 1, end))
  }

  lemma {:induction false} LargestIsMost(sizes: seq<nat>, begin: nat, end: nat)
    requires begin < end <= |sizes|
    ensures forall k :: begin <= k < end ==> sizes[k] <= Largest(sizes, begin, end)
    ensures exists k :: begin <= k < end && Largest(sizes, begin, end) == sizes[k]
    decreases end - begin
  {
    assert sizes[begin] == sizes[begin];
    if begin + 1 < end {
      LargestIsMost(sizes, begin + 1, end);
      var k :| begin + 1 <= k < end && Largest(sizes, begin + 1, end) == sizes[k];
      assert Largest(sizes, begin, end) == sizes[if sizes[begin] < sizes[k] then k else begin];
    }
  }

  /** The guard the walk does not have: a newcomer at least half the largest member there
      is. */
  ghost predicate JoinsAll(sizes: seq<nat>, begin: nat, end: nat)
    requires begin <= end <= |sizes|
  {
    forall k :: begin <= k < end - 1 ==> Largest(sizes, k + 1, end) <= RATIO * sizes[k]
  }

  /** The walk keeps a newcomer from being twice the smallest member. The members of a run
      are all within the ratio of each other exactly when, in addition, none of them was
      less than half the largest when it joined. */
  lemma PairwiseExactly(sizes: seq<nat>, begin: nat, end: nat)
    requires begin <= end <= |sizes| && IsRun(sizes, begin, end)
    ensures SameTier(sizes, begin, end) <==> JoinsAll(sizes, begin, end)
  {
    hide Joins, Smallest, Largest, IsRun;
    if SameTier(sizes, begin, end) {
      forall k | begin <= k < end - 1 ensures Largest(sizes, k + 1, end) <= RATIO * sizes[k] {
        LargestIsMost(sizes, k + 1, end);
      }
    }
    if JoinsAll(sizes, begin, end) {
      forall j, k | begin <= j < end && begin <= k < end ensures sizes[j] <= RATIO * sizes[k] {
        PairWithin(sizes, begin, end, j, k);
      }
    }
  }

  lemma PairWithin(sizes: seq<nat>, begin: nat, end: nat, j: nat, k: nat)
    requires begin <= end <= |sizes| && IsRun(sizes, begin, end) && JoinsAll(sizes, begin, end)
    requires begin <= j < end && begin <= k < end
    ensures sizes[j] <= RATIO * sizes[k]
  {
    hide Joins, Smallest, Largest, IsRun;
    if j < k {
      RunMembers(sizes, begin, end);
      SmallestIsLeast(sizes, j + 1, end);
    } else if k < j {
      LargestIsMost(sizes, k + 1, end);
    }
  }

  /** The walk compares with the smallest so far, so a chosen run may still hold two
      tables further apart than the ratio. */
  lemma ChosenRunNeedNotBePairwise()
    ensures var sizes := [30, 35, 60, 100];
      FirstTier(sizes, 4) == Choice(0, 4) && !SameTier(sizes, 0, 4)
  {
    var sizes: seq<nat> := [30, 35, 60, 100];
    assert Smallest(sizes, 3, 4) == 100;
    assert Smallest(sizes, 2, 4) == 60;
    assert Smallest(sizes, 1, 4) == 35;
    assert TierBegin(sizes, 0, 4) == 0;
    assert TierBegin(sizes, 1, 4) == 0;
    assert TierBegin(sizes, 2, 4) == 0;
    assert TierBegin(sizes, 3, 4) == 0;
    assert TierBegin(sizes, 4, 4) == 0;
    assert sizes[3] > RATIO * sizes[0];
  }
}
