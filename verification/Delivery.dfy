/** When replies leave, and how much of them: a law about what was written to the sockets, what
    was owed and what the sockets would take. */
module Delivery {
  import opened RunModel
  import opened Traffic

  /** One turn: how much the loop had done when its replies left, and how many writes there
      were before each of its events and after the last. */
  datatype Round = Round(served: nat, marks: seq<nat>)

  /** Between these two writes one client was sent as much of what it was owed as its socket
      takes, and nobody else anything. */
  ghost predicate DeliversOne(log: seq<Entry>, sends: seq<Send>, e: Event, lo: nat, hi: nat) {
    lo <= hi <= |sends| && forall fd :: DeliversTo(log, sends, e, lo, hi, fd)
  }

  ghost predicate DeliversTo(log: seq<Entry>, sends: seq<Send>, e: Event, lo: nat, hi: nat, fd: int)
    requires lo <= hi <= |sends|
  {
    var before, after, owed := SentTo(sends[..lo], fd), SentTo(sends[..hi], fd), RepliesTo(log, fd);
    && before <= owed
    && if fd != e.fd then after == before
       else if |before| + e.accepts <= |owed| then after == owed[..|before| + e.accepts]
       else after == owed
  }

  /** Every event of the turn in its order. */
  ghost predicate Delivers(log: seq<Entry>, sends: seq<Send>, es: seq<Event>, round: Round) {
    && round.served <= |log| && |round.marks| == |es| + 1
    && forall i :: 0 <= i < |es| ==>
         DeliversOne(log[..round.served], sends, es[i], round.marks[i], round.marks[i + 1])
  }

  /** The sockets would take all that is owed. */
  ghost predicate Roomy(log: seq<Entry>, sends: seq<Send>, es: seq<Event>) {
    forall i :: 0 <= i < |es| ==> |RepliesTo(log, es[i].fd)| <= |SentTo(sends, es[i].fd)| + es[i].accepts
  }

  /** Whoever was served has been sent everything. */
  ghost predicate CaughtUp(log: seq<Entry>, sends: seq<Send>, es: seq<Event>) {
    forall i :: 0 <= i < |es| ==> SentTo(sends, es[i].fd) == RepliesTo(log, es[i].fd)
  }

  /** After the replies the loop sweeps a hundred rows and merges. */
  ghost predicate Housekept(log: seq<Entry>, served: nat, t: Tick) {
    && served + 2 <= |log|
    && log[served] == Upkeep(Timed(SweepSome(100), t.sweepAt)) && log[served + 1] == Upkeep(Timed(Compact, t.compactAt))
  }

  // ---------------------------------------------------------------- one release

  lemma ReleasedDelivers(w: Wire, e: Event)
    requires Balanced(w)
    ensures w.sends <= Released(w, e).sends
    ensures DeliversOne(w.log, Released(w, e).sends, e, |w.sends|, |Released(w, e).sends|)
  {
    var v := Released(w, e);
    assert v.sends[..|w.sends|] == w.sends && v.sends[..|v.sends|] == v.sends;
    forall fd ensures DeliversTo(w.log, v.sends, e, |w.sends|, |v.sends|, fd) { ReleasedTo(w, e, fd); }
  }

  lemma ReleasedTo(w: Wire, e: Event, fd: int)
    requires Balanced(w)
    ensures var v := Released(w, e);
      v.sends[..|w.sends|] == w.sends ==> DeliversTo(w.log, v.sends, e, |w.sends|, |v.sends|, fd)
  {
    hide RepliesTo, SentTo;
    var v, out, n := Released(w, e), ConnOf(w.conns, e.fd).out, Accepted(w, e);
    assert RepliesTo(w.log, fd) == SentTo(w.sends, fd) + ConnOf(w.conns, fd).out;
    assert v.sends[..|v.sends|] == v.sends;
    if n > 0 { SentSnoc(w.sends, Send(e.fd, out[..n]), fd); }
    if fd == e.fd {
      var before := SentTo(w.sends, fd);
      assert (before + out)[..|before| + n] == before + out[..n];
      assert n == 0 ==> before + out[..n] == before;
      assert n == |out| ==> before + out[..n] == before + out;
    }
  }

  lemma DeliversOneMore(log: seq<Entry>, sends: seq<Send>, e: Event, lo: nat, hi: nat, more: seq<Send>)
    requires DeliversOne(log, sends, e, lo, hi) && sends <= more
    ensures DeliversOne(log, more, e, lo, hi)
  {
    hide SentTo, RepliesTo;
    assert more[..lo] == sends[..lo] && more[..hi] == sends[..hi];
    forall fd ensures DeliversTo(log, more, e, lo, hi, fd) {
      assert DeliversTo(log, sends, e, lo, hi, fd);
    }
  }

  // ---------------------------------------------------------------- a turn

  lemma DeliversNext(log: seq<Entry>, sends: seq<Send>, es: seq<Event>, marks: seq<nat>, e: Event, more: seq<Send>)
    requires Delivers(log, sends, es, Round(|log|, marks)) && sends <= more
    requires marks[|es|] == |sends| && DeliversOne(log, more, e, |sends|, |more|)
    ensures Delivers(log, more, es + [e], Round(|log|, marks + [|more|]))
  {
    hide DeliversOne;
    assert log[..|log|] == log;
    var all, next := es + [e], marks + [|more|];
    forall i | 0 <= i < |all| ensures DeliversOne(log, more, all[i], next[i], next[i + 1]) {
      if i < |es| { DeliversOneMore(log, sends, es[i], marks[i], marks[i + 1], more); }
    }
  }

  /** What was delivered stays delivered. */
  lemma DeliversMore(log: seq<Entry>, sends: seq<Send>, es: seq<Event>, round: Round, later: seq<Entry>,
                     more: seq<Send>)
    requires Delivers(log, sends, es, round) && log <= later && sends <= more
    ensures Delivers(later, more, es, round)
  {
    hide DeliversOne;
    assert later[..round.served] == log[..round.served];
    forall i | 0 <= i < |es|
      ensures DeliversOne(later[..round.served], more, es[i], round.marks[i], round.marks[i + 1])
    {
      DeliversOneMore(log[..round.served], sends, es[i], round.marks[i], round.marks[i + 1], more);
    }
  }

  lemma {:induction false} SentGrows(log: seq<Entry>, sends: seq<Send>, es: seq<Event>, round: Round, fd: int, i: nat)
    requires Delivers(log, sends, es, round) && i <= |es| && round.marks[0] <= |sends|
    ensures round.marks[0] <= round.marks[i] <= |sends|
    ensures |SentTo(sends[..round.marks[0]], fd)| <= |SentTo(sends[..round.marks[i]], fd)|
    decreases i
  {
    hide SentTo, RepliesTo;
    if i > 0 {
      SentGrows(log, sends, es, round, fd, i - 1);
      assert DeliversOne(log[..round.served], sends, es[i - 1], round.marks[i - 1], round.marks[i]);
      assert DeliversTo(log[..round.served], sends, es[i - 1], round.marks[i - 1], round.marks[i], fd);
    }
  }

  /** Once caught up, a client stays so. */
  lemma {:induction false} StaysCaughtUp(log: seq<Entry>, sends: seq<Send>, es: seq<Event>, round: Round, j: nat,
                                         i: nat)
    requires Delivers(log, sends, es, round) && j < i <= |es| && round.marks[0] <= |sends|
    requires Roomy(log[..round.served], sends[..round.marks[0]], es)
    ensures round.marks[i] <= |sends|
    ensures SentTo(sends[..round.marks[i]], es[j].fd) == RepliesTo(log[..round.served], es[j].fd)
    decreases i
  {
    hide SentTo, RepliesTo;
    var owed := log[..round.served];
    SentGrows(log, sends, es, round, es[j].fd, i - 1);
    assert DeliversOne(owed, sends, es[i - 1], round.marks[i - 1], round.marks[i]);
    assert DeliversTo(owed, sends, es[i - 1], round.marks[i - 1], round.marks[i], es[j].fd);
    if j < i - 1 { StaysCaughtUp(log, sends, es, round, j, i - 1); }
  }

  /** When the sockets take all that is owed, everybody served in the turn is sent everything. */
  lemma AllDelivered(log: seq<Entry>, sends: seq<Send>, es: seq<Event>, round: Round)
    requires Delivers(log, sends, es, round) && round.marks[0] <= |sends|
    requires Roomy(log[..round.served], sends[..round.marks[0]], es)
    ensures round.marks[|es|] <= |sends| && CaughtUp(log[..round.served], sends[..round.marks[|es|]], es)
  {
    hide DeliversOne, Roomy, SentTo, RepliesTo;
    SentGrows(log, sends, es, round, 0, |es|);
    forall i | 0 <= i < |es|
      ensures SentTo(sends[..round.marks[|es|]], es[i].fd) == RepliesTo(log[..round.served], es[i].fd)
    {
      StaysCaughtUp(log, sends, es, round, i, |es|);
    }
  }

  lemma UpkeepOwesNothing(log: seq<Entry>, served: nat, t: Tick, fd: int)
    requires Housekept(log, served, t) && |log| == served + 2
    ensures RepliesTo(log, fd) == RepliesTo(log[..served], fd)
  {
    var a, b := log[..served], log[..served + 1];
    assert b == a + [log[served]] && log == b + [log[served + 1]];
    RepliesSnoc(a, log[served], fd);
    RepliesSnoc(b, log[served + 1], fd);
  }

  /** The same at the end of a turn. */
  lemma TurnCaughtUp(log: seq<Entry>, sends: seq<Send>, t: Tick, round: Round, before: seq<Send>)
    requires Delivers(log, sends, t.events, round) && Housekept(log, round.served, t) && |log| == round.served + 2
    requires before <= sends && round.marks[0] == |before| && round.marks[|t.events|] == |sends|
    requires Roomy(log, before, t.events)
    ensures CaughtUp(log, sends, t.events)
  {
    hide DeliversOne, SentTo, RepliesTo;
    forall fd ensures RepliesTo(log, fd) == RepliesTo(log[..round.served], fd) {
      UpkeepOwesNothing(log, round.served, t, fd);
    }
    assert sends[..|before|] == before && sends[..|sends|] == sends;
    AllDelivered(log, sends, t.events, round);
  }

  // ---------------------------------------------------------------- a run of turns

  /** Where a turn begins in the log and among the writes. */
  ghost function EntriesBefore(rounds: seq<Round>, entries: nat): nat {
    if rounds == [] then entries else rounds[|rounds| - 1].served + 2
  }

  ghost function WritesBefore(rounds: seq<Round>, writes: nat): nat {
    if rounds == [] || rounds[|rounds| - 1].marks == [] then writes
    else
      var marks := rounds[|rounds| - 1].marks;
      marks[|marks| - 1]
  }

  /** One turn of the run: it follows the one before, sends what it owes, and keeps house. */
  ghost predicate RoundDone(log: seq<Entry>, sends: seq<Send>, t: Tick, round: Round, entries: nat, writes: nat) {
    && Delivers(log, sends, t.events, round) && Housekept(log, round.served, t)
    && entries <= round.served && round.marks[0] == writes
  }

  ghost predicate Rounds(log: seq<Entry>, sends: seq<Send>, ts: seq<Tick>, rounds: seq<Round>, entries: nat,
                         writes: nat) {
    && |rounds| == |ts|
    && (forall i :: 0 <= i < |ts| ==>
          RoundDone(log, sends, ts[i], rounds[i], EntriesBefore(rounds[..i], entries),
                    WritesBefore(rounds[..i], writes)))
    && |log| == EntriesBefore(rounds, entries) && |sends| == WritesBefore(rounds, writes)
  }

  lemma RoundMore(log: seq<Entry>, sends: seq<Send>, t: Tick, round: Round, entries: nat, writes: nat,
                  later: seq<Entry>, more: seq<Send>)
    requires RoundDone(log, sends, t, round, entries, writes) && log <= later && sends <= more
    ensures RoundDone(later, more, t, round, entries, writes)
  {
    hide Delivers;
    DeliversMore(log, sends, t.events, round, later, more);
    assert forall i :: 0 <= i < |log| ==> later[i] == log[i];
    DeliversMarks(later, more, t.events, round);
    DeliversMarks(log, sends, t.events, round);
  }

  lemma DeliversMarks(log: seq<Entry>, sends: seq<Send>, es: seq<Event>, round: Round)
    requires Delivers(log, sends, es, round)
    ensures |round.marks| == |es| + 1 && round.served <= |log|
  {
  }

  lemma RoundsNext(log: seq<Entry>, sends: seq<Send>, ts: seq<Tick>, rounds: seq<Round>, entries: nat, writes: nat,
                   t: Tick, round: Round, later: seq<Entry>, more: seq<Send>)
    requires Rounds(log, sends, ts, rounds, entries, writes) && log <= later && sends <= more
    requires RoundDone(later, more, t, round, |log|, |sends|)
    requires |later| == round.served + 2 && round.marks[|t.events|] == |more|
    ensures Rounds(later, more, ts + [t], rounds + [round], entries, writes)
  {
    hide RoundDone;
    RoundMarks(later, more, t, round, |log|, |sends|);
    var all, next := ts + [t], rounds + [round];
    forall i | 0 <= i < |all|
      ensures RoundDone(later, more, all[i], next[i], EntriesBefore(next[..i], entries),
                        WritesBefore(next[..i], writes))
    {
      assert next[..i] == rounds[..i];
      if i < |ts| {
        RoundMore(log, sends, ts[i], rounds[i], EntriesBefore(rounds[..i], entries), WritesBefore(rounds[..i], writes),
                  later, more);
      } else {
        assert rounds[..i] == rounds;
      }
    }
  }

  lemma RoundMarks(log: seq<Entry>, sends: seq<Send>, t: Tick, round: Round, entries: nat, writes: nat)
    requires RoundDone(log, sends, t, round, entries, writes)
    ensures |round.marks| == |t.events| + 1
  {
  }

  /** In any turn of a run: when the sockets take all that is owed, everybody is caught up. */
  lemma RoundCaughtUp(log: seq<Entry>, sends: seq<Send>, ts: seq<Tick>, rounds: seq<Round>, entries: nat, writes: nat,
                      i: nat)
    requires Rounds(log, sends, ts, rounds, entries, writes) && i < |ts| && rounds[i].marks[0] <= |sends|
    requires Roomy(log[..rounds[i].served], sends[..rounds[i].marks[0]], ts[i].events)
    ensures rounds[i].marks[|ts[i].events|] <= |sends|
    ensures CaughtUp(log[..rounds[i].served], sends[..rounds[i].marks[|ts[i].events|]], ts[i].events)
  {
    hide DeliversOne, Roomy, CaughtUp;
    AllDelivered(log, sends, ts[i].events, rounds[i]);
  }
}
