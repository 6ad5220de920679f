/** When the phases of the mailbox overlap: which programs can have a message delivered twice.

    Between a reader's test of `havedata` and its clearing it, another reader can pass the same
    test.  A single reading thread cannot get in its own way, so with at most one of them every
    message meets one fate under any schedule.  A message is delivered twice exactly when two
    threads can stand at a read while it is there to be had. */
module MailboxOverlap {
  import opened Bytes
  import opened Mailbox
  import opened MailboxLedger
  import opened MailboxRuns

  // ---- the record is what the callers see ----------------------------------------------------

  /** The results a thread's successful reads have returned, out of the results of its calls. */
  function Successes(calls: seq<Call>, results: seq<Result>): seq<Result>
    decreases |results|
  {
    if calls == [] || results == [] then []
    else (if calls[0].Read? && results[0].ret >= 0 then [results[0]] else []) + Successes(calls[1..], results[1..])
  }

  /** The results of the deliveries to thread `t`. */
  function GivenTo(given: seq<Delivery>, t: nat): seq<Result> {
    if given == [] then []
    else (if given[0].tid == t then [given[0].result] else []) + GivenTo(given[1..], t)
  }

  lemma GivenToAppend(g: seq<Delivery>, rest: seq<Delivery>, t: nat)
    requires |g| <= 1
    ensures GivenTo(g + rest, t) == GivenTo(g, t) + GivenTo(rest, t)
  {
    if g == [] {
      assert g + rest == rest;
    } else {
      assert (g + rest)[1..] == rest && g[1..] == [];
    }
  }

  lemma SuccessesAppend(calls: seq<Call>, r: seq<Result>, rest: seq<Result>)
    requires |r| <= 1 && |r| <= |calls|
    ensures Successes(calls, r + rest)
            == (if r != [] && calls[0].Read? && r[0].ret >= 0 then r else []) + Successes(calls[|r|..], rest)
  {
    if r == [] {
      assert r + rest == rest && calls[0..] == calls;
    } else {
      assert (r + rest)[1..] == rest && r == [r[0]];
    }
  }

  /** What thread `t` has had recorded and returned between two states. */
  ghost predicate Recorded(c: Config, e: Config, t: nat, g: seq<Delivery>, r: seq<Result>) {
    && t < |c.threads| && t < |e.threads|
    && e.given == c.given + g && e.threads[t].results == c.threads[t].results + r
    && |r| <= |c.threads[t].calls| && e.threads[t].calls == c.threads[t].calls[|r|..]
    && GivenTo(g, t) == Successes(c.threads[t].calls, r)
  }

  lemma RecordedOnce(c: Config, d: Config, t: nat, g: seq<Delivery>, r: seq<Result>)
    requires t < |c.threads| && t < |d.threads| && |r| <= 1 && |r| <= |c.threads[t].calls|
    requires d.given == c.given + g && d.threads[t].results == c.threads[t].results + r
    requires d.threads[t].calls == c.threads[t].calls[|r|..]
    requires GivenTo(g, t) == if r != [] && c.threads[t].calls[0].Read? && r[0].ret >= 0 then r else []
    ensures Recorded(c, d, t, g, r)
  {
    SuccessesAppend(c.threads[t].calls, r, []);
    assert r + [] == r;
  }

  /** What one step records, and what it returns to thread `t`. */
  lemma StepRecords(phased: bool, c: Config, ch: Choice, t: nat) returns (g: seq<Delivery>, r: seq<Result>)
    requires Ok(c) && Enabled(phased, c, ch) && t < |c.threads|
    ensures |g| <= 1 && |r| <= 1 && Recorded(c, Step(phased, c, ch), t, g, r)
  {
    StepperMoves(phased, c, ch);
    var th, d, stepper := c.threads[t], Step(phased, c, ch), c.threads[ch.tid];
    if stepper.pc.Zero? {
      g := [Delivery(ch.tid, stepper.pc.index, stepper.calls[0].size, Result(stepper.pc.len, stepper.pc.got))];
      assert g[1..] == [];
    } else {
      g := [];
    }
    if t != ch.tid {
      OthersKeep(phased, c, ch, t);
      r := [];
    } else if Local(c, th).results == th.results {
      r := [];
    } else {
      r := [Local(c, th).results[|th.results|]];
    }
    RecordedOnce(c, d, t, g, r);
  }

  lemma RecordedOn(c: Config, d: Config, e: Config, t: nat, g1: seq<Delivery>, r1: seq<Result>,
                   g2: seq<Delivery>, r2: seq<Result>)
    requires Recorded(c, d, t, g1, r1) && Recorded(d, e, t, g2, r2) && |g1| <= 1 && |r1| <= 1
    ensures Recorded(c, e, t, g1 + g2, r1 + r2)
  {
    var calls := c.threads[t].calls;
    GivenToAppend(g1, g2, t);
    SuccessesAppend(calls, r1, r2);
    SuccessesAppend(calls, r1, []);
    assert r1 + [] == r1;
    assert calls[|r1|..][|r2|..] == calls[|r1 + r2|..];
    Assoc(c.given, g1, g2);
    Assoc(c.threads[t].results, r1, r2);
  }

  lemma RecordedNothing(c: Config, t: nat)
    requires t < |c.threads|
    ensures Recorded(c, c, t, [], [])
  {
  }

  /** With or without overlapping phases, the deliveries on record to a thread are, in order, what
      its successful reads have returned to it: `g` is what a run records, `r` what it returns. */
  lemma {:induction false} DeliveriesRecorded(phased: bool, c: Config, s: seq<Choice>, e: Config, t: nat)
    returns (g: seq<Delivery>, r: seq<Result>)
    requires Ok(c) && Run(phased, c, s) == Some(e) && t < |c.threads|
    ensures Recorded(c, e, t, g, r)
    decreases |s|
  {
    if s == [] {
      g, r := [], [];
      RecordedNothing(c, t);
    } else {
      var d := Step(phased, c, s[0]);
      var g1, r1 := StepRecords(phased, c, s[0], t);
      var g2, r2 := DeliveriesRecorded(phased, d, s[1..], e, t);
      RecordedOn(c, d, e, t, g1, r1, g2, r2);
      g, r := g1 + g2, r1 + r2;
    }
  }

  // ---- one reading thread --------------------------------------------------------------------

  /** The thread still has a read to do. */
  ghost predicate Reads(th: Thread) {
    exists i :: 0 <= i < |th.calls| && th.calls[i].Read?
  }

  /** The thread still has a write to do. */
  ghost predicate Writes(th: Thread) {
    exists i :: 0 <= i < |th.calls| && th.calls[i].Write?
  }

  ghost predicate OneReader(c: Config) {
    forall t, u :: 0 <= t < |c.threads| && 0 <= u < |c.threads| && Reads(c.threads[t]) && Reads(c.threads[u]) ==> t == u
  }

  lemma OneReaderTakes(c: Config)
    requires Ok(c) && OneReader(c)
    ensures OneTaker(c)
  {
    forall t | 0 <= t < |c.threads| && Taking(c.threads[t])
      ensures Reads(c.threads[t])
    {
      assert c.threads[t].calls[0].Read?;
    }
  }

  lemma ReadsLater(phased: bool, c: Config, ch: Choice, t: nat)
    requires Ok(c) && Enabled(phased, c, ch) && t < |c.threads|
    ensures Reads(Step(phased, c, ch).threads[t]) ==> Reads(c.threads[t])
  {
    var _, r := StepRecords(phased, c, ch, t);
    var th, th' := c.threads[t], Step(phased, c, ch).threads[t];
    if i :| 0 <= i < |th'.calls| && th'.calls[i].Read? {
      assert th'.calls[i] == th.calls[i + |r|];
    }
  }

  lemma OneReaderStep(phased: bool, c: Config, ch: Choice)
    requires Ok(c) && OneReader(c) && Enabled(phased, c, ch)
    ensures OneReader(Step(phased, c, ch))
  {
    var d := Step(phased, c, ch);
    forall t, u | 0 <= t < |d.threads| && 0 <= u < |d.threads| && Reads(d.threads[t]) && Reads(d.threads[u])
      ensures t == u
    {
      ReadsLater(phased, c, ch, t);
      ReadsLater(phased, c, ch, u);
    }
  }

  lemma {:induction false} OneReaderRun(phased: bool, c: Config, s: seq<Choice>, base: seq<Thread>)
    requires Ok(c) && OneReader(c) && Ledger(c) && LostByFaults(c, base) && Run(phased, c, s).Some?
    ensures var e := Run(phased, c, s).value; Ledger(e) && OneReader(e) && LostByFaults(e, base)
    decreases |s|
  {
    if s == [] {
    } else {
      OneReaderTakes(c);
      LedgerStep(phased, c, s[0]);
      LostStep(phased, c, s[0], base);
      OneReaderStep(phased, c, s[0]);
      OneReaderRun(phased, Step(phased, c, s[0]), s[1..], base);
    }
  }

  /** No message is delivered a second time. */
  predicate NoRepeat(given: seq<Delivery>) {
    forall m, n :: 0 <= m < n < |given| ==> given[m].index != given[n].index
  }

  lemma LedgerNoRepeat(c: Config)
    requires Ledger(c)
    ensures forall m, n :: 0 <= m < n < |c.given| ==> c.given[m].index < c.given[n].index
    ensures forall n :: 0 <= n < |c.given| ==> c.given[n].index < |c.log|
  {
    if t :| 0 <= t < |c.threads| && Reading(c.threads[t]) {
      assert Accounts(c.fate, c.given, c.have, Some(c.threads[t].pc.index));
    }
  }

  /** At most once, however the phases overlap: if at most one thread reads, every schedule delivers
      messages in the order they were published and none twice, no message is unaccounted for, and
      messages are lost only where a read fails. */
  lemma AtMostOnce(phased: bool, c: Config, s: seq<Choice>, e: Config)
    requires Start(c) && OneReader(c) && Run(phased, c, s) == Some(e)
    ensures forall m, n :: 0 <= m < n < |e.given| ==> e.given[m].index < e.given[n].index < |e.log|
    ensures NoRepeat(e.given) && Conserved(e)
    ensures SomeLost(e.fate) <==> SomeFaulted(e, c.threads)
  {
    StartLost(c);
    OneReaderRun(phased, c, s, c.threads);
    LedgerNoRepeat(e);
    LedgerConserves(e);
  }

  // ---- two threads at a read -----------------------------------------------------------------

  /** At a read that will succeed once it is past the test. */
  predicate Keen(th: Thread) {
    Standing(th) && Whole(th.calls[0])
  }

  /** Two threads stand at a read while there is a message to be had. */
  predicate MeetAt(d: Config, t: nat, u: nat) {
    d.have && t < |d.threads| && u < |d.threads| && t != u && Keen(d.threads[t]) && Keen(d.threads[u])
  }

  ghost predicate CanMeet(c: Config)
    requires Ok(c)
  {
    exists d, t, u :: Reached(false, c, d) && MeetAt(d, t, u)
  }

  /** Some schedule delivers a message twice. */
  ghost predicate CanRepeat(c: Config)
    requires Ok(c)
  {
    exists e :: Reached(false, c, e) && !NoRepeat(e.given)
  }

  /** A reader that has message `k` in hand and will return it. */
  predicate Bears(th: Thread, k: nat) {
    Reading(th) && th.calls != [] && Whole(th.calls[0]) && th.pc.index == k
  }

  /** The message has been given to somebody, or will be. */
  ghost predicate Spoken(c: Config, k: nat) {
    || (exists n :: 0 <= n < |c.given| && c.given[n].index == k)
    || (exists t :: 0 <= t < |c.threads| && Bears(c.threads[t], k))
  }

  predicate AtClear(th: Thread) {
    th.pc.Clear? && th.calls != [] && Whole(th.calls[0])
  }

  /** Nothing is or will be given twice: only one such reader is about to clear the flag, and none
      is once the latest message is spoken for. */
  ghost predicate Single(c: Config) {
    && Ok(c) && Numbered(c) && NoRepeat(c.given) && OneClears(c)
    && (Spoken(c, Last(c)) ==> !c.have && forall t :: 0 <= t < |c.threads| ==> !AtClear(c.threads[t]))
    && BornOnce(c)
  }

  /** What is given or in hand has been published. */
  ghost predicate Numbered(c: Config) {
    && (forall n :: 0 <= n < |c.given| ==> c.given[n].index < |c.log|)
    && (forall t :: 0 <= t < |c.threads| && Reading(c.threads[t]) ==> c.threads[t].pc.index < |c.log|)
    && (c.log == [] ==> !c.have && forall t :: 0 <= t < |c.threads| ==> !c.threads[t].pc.Clear?)
  }

  ghost predicate OneClears(c: Config) {
    forall t, u :: 0 <= t < |c.threads| && 0 <= u < |c.threads|
                   && AtClear(c.threads[t]) && AtClear(c.threads[u])
                   ==> t == u
  }

  /** What a reader bears is in nobody else's hand and has not been given. */
  ghost predicate BornOnce(c: Config) {
    forall t :: 0 <= t < |c.threads| && Bearing(c.threads[t]) ==>
      && (forall u :: 0 <= u < |c.threads| && u != t ==> !Bears(c.threads[u], c.threads[t].pc.index))
      && (forall n :: 0 <= n < |c.given| ==> c.given[n].index != c.threads[t].pc.index)
  }

  predicate Bearing(th: Thread) {
    Reading(th) && th.calls != [] && Whole(th.calls[0])
  }

  lemma NumberedStep(c: Config, ch: Choice)
    requires Ok(c) && Numbered(c) && Enabled(false, c, ch)
    ensures Numbered(Step(false, c, ch))
  {
    var d := Step(false, c, ch);
    StepperMoves(false, c, ch);
    forall u | 0 <= u < |c.threads|
      ensures Reading(d.threads[u]) ==> d.threads[u].pc.index < |d.log|
      ensures d.log == [] ==> !d.threads[u].pc.Clear?
    {
      if u != ch.tid {
        OthersKeep(false, c, ch, u);
      }
    }
  }

  /** If nobody meets, a reader passes the test only when no other is about to clear the flag. */
  lemma OneClearsStep(c: Config, ch: Choice)
    requires Ok(c) && OneClears(c) && Enabled(false, c, ch) && !(exists t, u :: MeetAt(c, t, u))
    ensures OneClears(Step(false, c, ch))
  {
    var d, t := Step(false, c, ch), ch.tid;
    StepperMoves(false, c, ch);
    forall u | 0 <= u < |c.threads| && u != t
      ensures AtClear(d.threads[u]) ==> AtClear(c.threads[u]) && !AtClear(d.threads[t])
    {
      OthersKeep(false, c, ch, u);
      assert AtClear(d.threads[u]) && AtClear(d.threads[t]) ==> MeetAt(c, t, u);
    }
  }

  /** Who bears what after a step: a reader that clears the flag takes up the latest message. */
  lemma BearsStep(c: Config, ch: Choice, u: nat, k: nat)
    requires Ok(c) && Enabled(false, c, ch) && u < |c.threads|
    ensures var d := Step(false, c, ch);
            Bears(d.threads[u], k) <==>
              if u != ch.tid then Bears(c.threads[u], k)
              else if c.threads[u].pc.Clear? then AtClear(c.threads[u]) && k == Last(c)
              else Bears(c.threads[u], k) && !c.threads[u].pc.Zero?
  {
    StepperMoves(false, c, ch);
    if u != ch.tid {
      OthersKeep(false, c, ch, u);
    }
  }

  /** And what has been given. */
  lemma GivenStep(c: Config, ch: Choice)
    requires Ok(c) && Enabled(false, c, ch)
    ensures var d, th := Step(false, c, ch), c.threads[ch.tid];
            && (!th.pc.Zero? ==> d.given == c.given)
            && (th.pc.Zero? ==> Bearing(th) && |d.given| == |c.given| + 1 && d.given[..|c.given|] == c.given
                                && d.given[|c.given|].index == th.pc.index)
  {
  }

  /** A message is spoken for when it was, or when a reader clears the flag for it. */
  lemma SpokenStep(c: Config, ch: Choice, k: nat)
    requires Ok(c) && Enabled(false, c, ch) && Spoken(Step(false, c, ch), k)
    ensures Spoken(c, k) || (AtClear(c.threads[ch.tid]) && k == Last(c))
  {
    var d, th := Step(false, c, ch), c.threads[ch.tid];
    GivenStep(c, ch);
    if n :| 0 <= n < |d.given| && d.given[n].index == k {
      if n < |c.given| {
        assert c.given[n] == d.given[..|c.given|][n];
      } else {
        assert Bears(th, k);
      }
    } else {
      var u :| 0 <= u < |d.threads| && Bears(d.threads[u], k);
      BearsStep(c, ch, u, k);
      assert Bears(c.threads[u], k) || AtClear(th);
    }
  }

  /** Nobody is about to clear the flag for a message that is spoken for, after a step either. */
  lemma ClearStays(c: Config, ch: Choice)
    requires Single(c) && Enabled(false, c, ch) && !(exists t, u :: MeetAt(c, t, u))
    ensures var d := Step(false, c, ch);
            Spoken(d, Last(d)) ==> !d.have && forall u :: 0 <= u < |d.threads| ==> !AtClear(d.threads[u])
  {
    var d, t := Step(false, c, ch), ch.tid;
    StepperMoves(false, c, ch);
    if Spoken(d, Last(d)) {
      SpokenStep(c, ch, Last(d));
      PublishedUnspoken(c, Last(d));
      assert d.log == c.log;
      forall u | 0 <= u < |d.threads|
        ensures !AtClear(d.threads[u])
      {
        if u != t {
          OthersKeep(false, c, ch, u);
        }
      }
    }
  }

  lemma PublishedUnspoken(c: Config, k: nat)
    requires Numbered(c)
    ensures k >= |c.log| ==> !Spoken(c, k)
  {
  }

  lemma NoRepeatStep(c: Config, ch: Choice)
    requires Single(c) && Enabled(false, c, ch)
    ensures NoRepeat(Step(false, c, ch).given)
  {
    var d, th := Step(false, c, ch), c.threads[ch.tid];
    GivenStep(c, ch);
    if th.pc.Zero? {
      forall m, n | 0 <= m < n < |d.given|
        ensures d.given[m].index != d.given[n].index
      {
        assert c.given[m] == d.given[..|c.given|][m];
        if n < |c.given| {
          assert c.given[n] == d.given[..|c.given|][n];
        }
      }
    }
  }

  lemma BornOnceStep(c: Config, ch: Choice)
    requires Single(c) && Enabled(false, c, ch)
    ensures BornOnce(Step(false, c, ch))
  {
    var d := Step(false, c, ch);
    forall t | 0 <= t < |d.threads| && Bearing(d.threads[t])
      ensures forall u :: 0 <= u < |d.threads| && u != t ==> !Bears(d.threads[u], d.threads[t].pc.index)
      ensures forall n :: 0 <= n < |d.given| ==> d.given[n].index != d.threads[t].pc.index
    {
      BornOnceAt(c, ch, t);
    }
  }

  lemma BornOnceAt(c: Config, ch: Choice, t: nat)
    requires Single(c) && Enabled(false, c, ch) && t < |c.threads| && Bearing(Step(false, c, ch).threads[t])
    ensures var d := Step(false, c, ch);
            && (forall u :: 0 <= u < |d.threads| && u != t ==> !Bears(d.threads[u], d.threads[t].pc.index))
            && (forall n :: 0 <= n < |d.given| ==> d.given[n].index != d.threads[t].pc.index)
  {
    var d := Step(false, c, ch);
    var k := d.threads[t].pc.index;
    BearsStep(c, ch, t, k);
    forall u | 0 <= u < |d.threads| && u != t
      ensures !Bears(d.threads[u], k)
    {
      BearsStep(c, ch, u, k);
      if AtClear(c.threads[ch.tid]) && k == Last(c) {
        assert !Spoken(c, k);
      }
    }
    forall n | 0 <= n < |d.given|
      ensures d.given[n].index != k
    {
      GivenStep(c, ch);
      if n < |c.given| {
        assert c.given[n] == d.given[n];
        if AtClear(c.threads[ch.tid]) && k == Last(c) {
          assert !Spoken(c, k);
        }
      }
    }
  }

  lemma SingleStep(c: Config, ch: Choice)
    requires Single(c) && Enabled(false, c, ch) && !(exists t, u :: MeetAt(c, t, u))
    ensures Single(Step(false, c, ch))
  {
    NumberedStep(c, ch);
    OneClearsStep(c, ch);
    ClearStays(c, ch);
    NoRepeatStep(c, ch);
    BornOnceStep(c, ch);
  }

  lemma ReachedOn(c: Config, d: Config, ch: Choice)
    requires Ok(c) && Reached(false, c, d) && Ok(d) && Enabled(false, d, ch)
    ensures Reached(false, c, Step(false, d, ch))
  {
    var s :| Run(false, c, s) == Some(d);
    RunSnoc(false, c, s, d, ch);
  }

  lemma {:induction false} SingleRun(c: Config, d: Config, s: seq<Choice>)
    requires Ok(c) && !CanMeet(c) && Reached(false, c, d) && Single(d) && Run(false, d, s).Some?
    ensures Single(Run(false, d, s).value)
    decreases |s|
  {
    if s == [] {
    } else {
      assert !(exists t, u :: MeetAt(d, t, u));
      SingleStep(d, s[0]);
      ReachedOn(c, d, s[0]);
      SingleRun(c, Step(false, d, s[0]), s[1..]);
    }
  }

  lemma StartSingle(c: Config)
    requires Start(c)
    ensures Single(c)
  {
  }

  lemma RepeatNeedsMeeting(c: Config)
    requires Start(c) && CanRepeat(c)
    ensures CanMeet(c)
  {
    if !CanMeet(c) {
      var e :| Reached(false, c, e) && !NoRepeat(e.given);
      var s :| Run(false, c, s) == Some(e);
      ReachedClosed(false, c);
      StartSingle(c);
      SingleRun(c, c, s);
    }
  }

  /** Both of the last two deliveries are of the same message. */
  predicate Twice(e: Config, t: nat, u: nat) {
    var n := |e.given|;
    && n >= 2 && e.given[n - 2].tid == t && e.given[n - 1].tid == u
    && e.given[n - 2].index == e.given[n - 1].index == Last(e)
  }

  /** Two readers past the test both return the message in the slot. */
  lemma BothReturn(reach: Config -> bool, d: Config, t: nat, u: nat) returns (e: Config)
    requires Closed(false, reach) && reach(d) && Ok(d) && t < |d.threads| && u < |d.threads| && t != u
    requires AtClear(d.threads[t]) && AtClear(d.threads[u])
    ensures reach(e) && Ok(e) && e.log == d.log && |e.given| == |d.given| + 2 && Twice(e, t, u)
    ensures var n, ct, cu := |d.given|, d.threads[t].calls[0], d.threads[u].calls[0];
            && e.given[n].size == ct.size && e.given[n].result == Result(d.len, d.buf[..ct.size])
            && e.given[n + 1].size == cu.size && e.given[n + 1].result == Result(d.len, d.buf[..cu.size])
  {
    var d1 := CopiesOut(false, reach, d, t);
    assert d1.threads[u] == d.threads[u];
    var d2 := CopiesOut(false, reach, d1, u);
    assert d2.threads[t] == d1.threads[t];
    var d3 := ReaderReturns(false, reach, d2, t);
    assert d3.threads[u] == d2.threads[u];
    e := ReaderReturns(false, reach, d3, u);
  }

  lemma MeetingRepeats(reach: Config -> bool, d: Config, t: nat, u: nat) returns (e: Config)
    requires Closed(false, reach) && reach(d) && Ok(d) && MeetAt(d, t, u)
    ensures reach(e) && Ok(e) && e.log == d.log && |e.given| == |d.given| + 2 && Twice(e, t, u)
    ensures var n, ct, cu := |d.given|, d.threads[t].calls[0], d.threads[u].calls[0];
            && e.given[n].size == ct.size && e.given[n].result == Result(d.len, d.buf[..ct.size])
            && e.given[n + 1].size == cu.size && e.given[n + 1].result == Result(d.len, d.buf[..cu.size])
  {
    var d1 := PassesTest(false, reach, d, t);
    assert d1.threads[u] == d.threads[u];
    var d2 := PassesTest(false, reach, d1, u);
    assert d2.threads[t] == d1.threads[t];
    e := BothReturn(reach, d2, t, u);
  }

  /** The exact condition, for any threads and any calls: a message can be delivered twice if and
      only if two threads can stand at a read while a message is there to be had. */
  lemma RepeatsIfMeeting(c: Config)
    requires Start(c)
    ensures CanRepeat(c) <==> CanMeet(c)
  {
    if CanRepeat(c) {
      RepeatNeedsMeeting(c);
    }
    if CanMeet(c) {
      var d, t, u :| Reached(false, c, d) && MeetAt(d, t, u);
      var s :| Run(false, c, s) == Some(d);
      ReachedClosed(false, c);
      var e := MeetingRepeats(ReachedFrom(false, c), d, t, u);
      assert !NoRepeat(e.given);
    }
  }
}
