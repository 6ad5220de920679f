/** Which programs can have a message delivered twice, told from their calls.

    To get to one of its reads a thread has to get past the blocking reads before it, and each of
    those uses up a message, though two threads may use up the same one.  So two reads can meet
    only if there are more writes than blocking reads before either of them; for threads that only
    read or only write, then they can. */
module MailboxPrograms {
  import opened Bytes
  import opened Mailbox
  import opened MailboxLedger
  import opened MailboxRuns
  import opened MailboxOverlap
  import MailboxDelivery

  /** The read waits for a message. */
  predicate Blocks(call: Call) {
    call.Read? && !call.nonblock
  }

  /** How many of the first `n` calls wait for a message. */
  function Ahead(calls: seq<Call>, n: nat): nat
    requires n <= |calls|
  {
    if n == 0 then 0 else (if Blocks(calls[0]) then 1 else 0) + Ahead(calls[1..], n - 1)
  }

  lemma {:induction false} AheadSnoc(calls: seq<Call>, n: nat)
    requires n < |calls|
    ensures Ahead(calls, n + 1) == Ahead(calls, n) + if Blocks(calls[n]) then 1 else 0
    decreases n
  {
    if n == 0 {
    } else {
      AheadSnoc(calls[1..], n - 1);
    }
  }

  function WritesIn(calls: seq<Call>): nat {
    if calls == [] then 0 else (if calls[0].Write? then 1 else 0) + WritesIn(calls[1..])
  }

  /** The messages a thread has still to publish. */
  function Unpublished(th: Thread): int {
    WritesIn(th.calls) - if th.pc.Wake? || th.pc.Delay? then 1 else 0
  }

  function Total(ths: seq<Thread>): int {
    if ths == [] then 0 else Unpublished(ths[0]) + Total(ths[1..])
  }

  lemma {:induction false} TotalStep(was: seq<Thread>, now: seq<Thread>, t: nat)
    requires |was| == |now| && t < |was|
    requires forall u :: 0 <= u < |was| && u != t ==> Unpublished(now[u]) == Unpublished(was[u])
    ensures Total(now) == Total(was) - Unpublished(was[t]) + Unpublished(now[t])
  {
    if t == 0 {
      TotalSame(was[1..], now[1..]);
    } else {
      TotalStep(was[1..], now[1..], t - 1);
    }
  }

  lemma {:induction false} TotalSame(was: seq<Thread>, now: seq<Thread>)
    requires |was| == |now| && forall u :: 0 <= u < |was| ==> Unpublished(now[u]) == Unpublished(was[u])
    ensures Total(now) == Total(was)
  {
    if was == [] {
    } else {
      TotalSame(was[1..], now[1..]);
    }
  }

  lemma {:induction false} TotalNonNegative(ths: seq<Thread>)
    requires forall t :: 0 <= t < |ths| ==> ThreadOk(ths[t])
    ensures Total(ths) >= 0
  {
    if ths == [] {
    } else {
      TotalNonNegative(ths[1..]);
    }
  }

  // ---- what it takes ---------------------------------------------------------------------------

  /** Two reads that will succeed, in different threads, with more writes in the program than
      blocking reads before either. */
  predicate Shares(c: Config, t: nat, u: nat, i: nat, j: nat) {
    && t < |c.threads| && u < |c.threads| && t != u
    && i < |c.threads[t].calls| && j < |c.threads[u].calls|
    && Whole(c.threads[t].calls[i]) && Whole(c.threads[u].calls[j])
    && Ahead(c.threads[t].calls, i) < Total(c.threads) && Ahead(c.threads[u].calls, j) < Total(c.threads)
  }

  ghost predicate CanShare(c: Config) {
    exists t: nat, u: nat, i: nat, j: nat :: Shares(c, t, u, i, j)
  }

  lemma UnpublishedOwn(c: Config, t: nat)
    requires Ok(c) && t < |c.threads| && !Done(c.threads[t])
    ensures var d := Shared(c, t, c.threads[t]);
            |d.log| + Unpublished(Local(c, c.threads[t])) == |c.log| + Unpublished(c.threads[t])
  {
  }

  lemma UnpublishedOther(c: Config, ch: Choice, u: nat)
    requires Ok(c) && Enabled(false, c, ch) && u < |c.threads| && u != ch.tid
    ensures Unpublished(Step(false, c, ch).threads[u]) == Unpublished(c.threads[u])
  {
  }

  /** A step publishes what it takes off what there is to publish. */
  lemma PublishedStep(c: Config, ch: Choice)
    requires Ok(c) && Enabled(false, c, ch)
    ensures var d := Step(false, c, ch); |d.log| + Total(d.threads) == |c.log| + Total(c.threads)
  {
    var threads := Step(false, c, ch).threads;
    StepperMoves(false, c, ch);
    UnpublishedOwn(c, ch.tid);
    forall u | 0 <= u < |c.threads| && u != ch.tid
      ensures Unpublished(threads[u]) == Unpublished(c.threads[u])
    {
      UnpublishedOther(c, ch, u);
    }
    TotalStep(c.threads, threads, ch.tid);
  }

  /** The thread has got through the first calls of its program, and the blocking reads among them
      have used up that many messages, not counting the one that is there to be had. */
  predicate Through(calls: seq<Call>, th: Thread, have: bool, published: nat) {
    && |th.calls| <= |calls| && th.calls == calls[|calls| - |th.calls|..]
    && Ahead(calls, |calls| - |th.calls|) + (if Reading(th) then 1 else 0)
       + (if have || th.pc.Clear? then 1 else 0) <= published
  }

  /** The steps of a thread inside a call. */
  lemma ThroughInside(calls: seq<Call>, c: Config, t: nat)
    requires Ok(c) && t < |c.threads| && !Done(c.threads[t]) && Through(calls, c.threads[t], c.have, |c.log|)
    requires Local(c, c.threads[t]).calls == c.threads[t].calls
    ensures var d := Shared(c, t, c.threads[t]); Through(calls, Local(c, c.threads[t]), d.have, |d.log|)
  {
  }

  /** The steps that end one: only a read that had a message in hand can have been waiting. */
  lemma ThroughReturn(calls: seq<Call>, c: Config, t: nat)
    requires Ok(c) && t < |c.threads| && !Done(c.threads[t]) && Through(calls, c.threads[t], c.have, |c.log|)
    requires Local(c, c.threads[t]).calls == c.threads[t].calls[1..]
    ensures var d := Shared(c, t, c.threads[t]); Through(calls, Local(c, c.threads[t]), d.have, |d.log|)
  {
    var th := c.threads[t];
    var n := |calls| - |th.calls|;
    AheadSnoc(calls, n);
    assert calls[n] == th.calls[0];
    assert th.calls[1..] == calls[n + 1..];
    assert Blocks(calls[n]) ==> Reading(th);
    assert Shared(c, t, th).have == c.have && Shared(c, t, th).log == c.log;
  }

  lemma ThroughOwn(calls: seq<Call>, c: Config, t: nat)
    requires Ok(c) && t < |c.threads| && !Done(c.threads[t]) && Through(calls, c.threads[t], c.have, |c.log|)
    ensures var d := Shared(c, t, c.threads[t]); Through(calls, Local(c, c.threads[t]), d.have, |d.log|)
  {
    if Local(c, c.threads[t]).calls == c.threads[t].calls {
      ThroughInside(calls, c, t);
    } else {
      ThroughReturn(calls, c, t);
    }
  }

  lemma ThroughStep(calls: seq<Call>, c: Config, ch: Choice, t: nat)
    requires Ok(c) && Enabled(false, c, ch) && t < |c.threads| && Through(calls, c.threads[t], c.have, |c.log|)
    ensures var d := Step(false, c, ch); Through(calls, d.threads[t], d.have, |d.log|)
  {
    if t == ch.tid {
      StepperMoves(false, c, ch);
      ThroughOwn(calls, c, t);
    } else {
      OthersKeep(false, c, ch, t);
      FlagCounts(c, ch.tid);
    }
  }

  /** The flag goes up only with a publication. */
  lemma FlagCounts(c: Config, t: nat)
    requires Ok(c) && t < |c.threads| && !Done(c.threads[t])
    ensures var d := Shared(c, t, c.threads[t]); |d.log| >= |c.log| + if d.have && !c.have then 1 else 0
  {
  }

  lemma {:induction false} ThroughRun(calls: seq<Call>, c: Config, s: seq<Choice>, t: nat)
    requires Ok(c) && Run(false, c, s).Some? && t < |c.threads| && Through(calls, c.threads[t], c.have, |c.log|)
    ensures var e := Run(false, c, s).value;
            && Through(calls, e.threads[t], e.have, |e.log|)
            && |e.log| + Total(e.threads) == |c.log| + Total(c.threads)
    decreases |s|
  {
    if s == [] {
    } else {
      PublishedStep(c, s[0]);
      ThroughStep(calls, c, s[0], t);
      ThroughRun(calls, Step(false, c, s[0]), s[1..], t);
    }
  }

  lemma ThroughAt(calls: seq<Call>, th: Thread, published: nat) returns (i: nat)
    requires Through(calls, th, true, published) && th.calls != []
    ensures i < |calls| && calls[i] == th.calls[0] && Ahead(calls, i) < published
  {
    i := |calls| - |th.calls|;
  }

  /** Where a thread at a read with a message to be had has got to in its program. */
  lemma KeenAt(c: Config, s: seq<Choice>, d: Config, t: nat) returns (i: nat)
    requires Start(c) && Run(false, c, s) == Some(d) && t < |c.threads| && d.have && Keen(d.threads[t])
    ensures i < |c.threads[t].calls| && Whole(c.threads[t].calls[i])
    ensures Ahead(c.threads[t].calls, i) < Total(c.threads)
  {
    var calls := c.threads[t].calls;
    assert calls[0..] == calls;
    ThroughRun(calls, c, s, t);
    i := ThroughAt(calls, d.threads[t], |d.log|);
    TotalNonNegative(d.threads);
  }

  /** Whatever the calls, nothing is delivered twice otherwise. */
  lemma RepeatNeeds(c: Config)
    requires Start(c) && CanRepeat(c)
    ensures CanShare(c)
  {
    RepeatsIfMeeting(c);
    var d, t, u :| Reached(false, c, d) && MeetAt(d, t, u);
    var s :| Run(false, c, s) == Some(d);
    var i := KeenAt(c, s, d, t);
    var j := KeenAt(c, s, d, u);
    assert Shares(c, t, u, i, j);
  }

  // ---- that it is enough -----------------------------------------------------------------------

  /** The thread only reads or only writes. */
  ghost predicate Pure(th: Thread) {
    !(Reads(th) && Writes(th))
  }

  ghost predicate AllPure(c: Config) {
    forall t :: 0 <= t < |c.threads| ==> Pure(c.threads[t])
  }

  /** Nobody is in a call. */
  predicate Resting(d: Config) {
    forall t :: 0 <= t < |d.threads| ==> d.threads[t].pc.Idle?
  }

  /** Thread `t` has done one call. */
  predicate OneOn(d: Config, d': Config, t: nat) {
    && OnlyMoves(d, d', t) && t < |d.threads| && d.threads[t].calls != []
    && d'.threads[t].pc.Idle? && d'.threads[t].calls == d.threads[t].calls[1..]
  }

  lemma OneOnPure(d: Config, d': Config, t: nat)
    requires AllPure(d) && OneOn(d, d', t)
    ensures AllPure(d')
  {
    var was, now := d.threads[t], d'.threads[t];
    assert forall i :: 0 <= i < |now.calls| ==> now.calls[i] == was.calls[i + 1];
    if Reads(now) {
      var i :| 0 <= i < |now.calls| && now.calls[i].Read?;
      assert was.calls[i + 1].Read?;
    }
    if Writes(now) {
      var i :| 0 <= i < |now.calls| && now.calls[i].Write?;
      assert was.calls[i + 1].Write?;
    }
  }

  lemma OneOnTotal(d: Config, d': Config, t: nat)
    requires OneOn(d, d', t) && d.threads[t].pc.Idle?
    ensures Total(d'.threads) == Total(d.threads) - if d.threads[t].calls[0].Write? then 1 else 0
  {
    TotalStep(d.threads, d'.threads, t);
  }

  /** With nothing there, a non-blocking read returns at once. */
  lemma Skips(reach: Config -> bool, d: Config, t: nat) returns (d': Config)
    requires Closed(false, reach) && reach(d) && Ok(d) && !d.have && t < |d.threads|
    requires d.threads[t].pc.Idle? && d.threads[t].calls != [] && d.threads[t].calls[0].Read?
    requires d.threads[t].calls[0].nonblock
    ensures reach(d') && Ok(d') && !d'.have && OneOn(d, d', t)
  {
    var d1 := Next(false, reach, d, t);
    d' := Next(false, reach, d1, t);
  }

  /** A reader past the test returns, one way or the other. */
  lemma Finishes(reach: Config -> bool, d: Config, t: nat) returns (d': Config)
    requires Closed(false, reach) && reach(d) && Ok(d) && t < |d.threads| && d.threads[t].pc.Clear?
    ensures reach(d') && Ok(d') && !d'.have && OneOn(d, d', t)
  {
    if Whole(d.threads[t].calls[0]) {
      var d1 := CopiesOut(false, reach, d, t);
      d' := ReaderReturns(false, reach, d1, t);
    } else {
      d' := ReaderFails(false, reach, d, t);
    }
  }

  /** With a message there, a reader takes it. */
  lemma Takes(reach: Config -> bool, d: Config, t: nat) returns (d': Config)
    requires Closed(false, reach) && reach(d) && Ok(d) && d.have && t < |d.threads|
    requires d.threads[t].pc.Idle? && d.threads[t].calls != [] && d.threads[t].calls[0].Read?
    ensures reach(d') && Ok(d') && !d'.have && OneOn(d, d', t)
  {
    var d1 := PassesTest(false, reach, d, t);
    d' := Finishes(reach, d1, t);
  }

  /** Two readers take the same one. */
  lemma BothTake(reach: Config -> bool, d: Config, t: nat, u: nat) returns (m: Config, d': Config)
    requires Closed(false, reach) && reach(d) && Ok(d) && d.have && t < |d.threads| && u < |d.threads| && t != u
    requires d.threads[t].pc.Idle? && d.threads[t].calls != [] && d.threads[t].calls[0].Read?
    requires d.threads[u].pc.Idle? && d.threads[u].calls != [] && d.threads[u].calls[0].Read?
    ensures |m.threads| == |d.threads| && m.threads == d.threads[t := m.threads[t]]
    ensures m.threads[t].pc.Idle? && m.threads[t].calls == d.threads[t].calls[1..]
    ensures reach(d') && Ok(d') && !d'.have && OneOn(d, m, t) && OneOn(m, d', u)
  {
    var d1 := PassesTest(false, reach, d, t);
    assert d1.threads[u] == d.threads[u];
    var d2 := PassesTest(false, reach, d1, u);
    assert d2.threads[t] == d1.threads[t];
    var d3 := Finishes(reach, d2, t);
    assert d3.threads[u] == d2.threads[u];
    d' := Finishes(reach, d3, u);
    m := d.(threads := d.threads[t := d3.threads[t]]);
  }

  lemma {:induction false} SomeWriter(ths: seq<Thread>) returns (w: nat)
    requires Total(ths) > 0
    ensures w < |ths| && Unpublished(ths[w]) > 0
  {
    if Unpublished(ths[0]) > 0 {
      w := 0;
    } else {
      w := SomeWriter(ths[1..]);
      w := w + 1;
    }
  }

  lemma {:induction false} WritesFirst(calls: seq<Call>)
    requires WritesIn(calls) > 0
    ensures exists i :: 0 <= i < |calls| && calls[i].Write?
  {
    if calls[0].Write? {
    } else {
      WritesFirst(calls[1..]);
      var i :| 0 <= i < |calls[1..]| && calls[1..][i].Write?;
      assert calls[i + 1].Write?;
    }
  }

  /** Some thread has a write next, and it is not one that reads. */
  lemma PureWriter(d: Config) returns (w: nat)
    requires Resting(d) && AllPure(d) && Total(d.threads) > 0
    ensures w < |d.threads| && d.threads[w].calls != [] && d.threads[w].calls[0].Write? && !Reads(d.threads[w])
  {
    w := SomeWriter(d.threads);
    WritesFirst(d.threads[w].calls);
    assert Writes(d.threads[w]);
    assert d.threads[w].calls[0].Read? || d.threads[w].calls[0].Write?;
  }

  /** The thread reads only, up to the read we want it at. */
  lemma OnlyReads(th: Thread, i: nat, k: nat)
    requires Pure(th) && i < |th.calls| && th.calls[i].Read? && k < |th.calls|
    ensures Reads(th) && th.calls[k].Read?
  {
  }

  /** A state between calls from which the two reads can still be brought together. */
  ghost predicate Ready(reach: Config -> bool, d: Config, t: nat, u: nat, i: nat, j: nat) {
    reach(d) && Ok(d) && !d.have && Resting(d) && AllPure(d) && Shares(d, t, u, i, j)
  }

  /** The first thread gets past a read that does not wait. */
  lemma SkipOne(reach: Config -> bool, d: Config, t: nat, u: nat, i: nat, j: nat) returns (d': Config)
    requires Closed(false, reach) && Ready(reach, d, t, u, i, j) && i > 0 && !Blocks(d.threads[t].calls[0])
    ensures Ready(reach, d', t, u, i - 1, j)
  {
    OnlyReads(d.threads[t], i, 0);
    d' := Skips(reach, d, t);
    OneOnPure(d, d', t);
    OneOnTotal(d, d', t);
    assert d'.threads[t].calls[i - 1] == d.threads[t].calls[i];
  }

  lemma Swapped(reach: Config -> bool, d: Config, t: nat, u: nat, i: nat, j: nat)
    requires Ready(reach, d, t, u, i, j)
    ensures Ready(reach, d, u, t, j, i)
  {
  }

  /** Somebody writes; the two have not moved. */
  lemma OneWrite(reach: Config -> bool, d: Config, t: nat, u: nat, i: nat, j: nat) returns (d': Config)
    requires Closed(false, reach) && Ready(reach, d, t, u, i, j)
    ensures reach(d') && Ok(d') && d'.have && Resting(d') && AllPure(d')
    ensures |d'.threads| == |d.threads| && d'.threads[t] == d.threads[t] && d'.threads[u] == d.threads[u]
    ensures Total(d'.threads) == Total(d.threads) - 1
  {
    var w := PureWriter(d);
    OnlyReads(d.threads[t], i, i);
    OnlyReads(d.threads[u], j, j);
    d' := WriterWrites(false, reach, d, w);
    OneOnPure(d, d', w);
    OneOnTotal(d, d', w);
  }

  /** One message gets the first thread past a read that waits, while the second is where it is to
      be. */
  lemma TakeOne(reach: Config -> bool, d: Config, t: nat, u: nat, i: nat) returns (d': Config)
    requires Closed(false, reach) && Ready(reach, d, t, u, i, 0) && i > 0 && Blocks(d.threads[t].calls[0])
    ensures Ready(reach, d', t, u, i - 1, 0)
  {
    var d1 := OneWrite(reach, d, t, u, i, 0);
    d' := Takes(reach, d1, t);
    OneOnPure(d1, d', t);
    OneOnTotal(d1, d', t);
    assert d'.threads[t].calls[i - 1] == d.threads[t].calls[i];
  }

  /** One message gets both past. */
  lemma TakeBoth(reach: Config -> bool, d: Config, t: nat, u: nat, i: nat, j: nat) returns (d': Config)
    requires Closed(false, reach) && Ready(reach, d, t, u, i, j) && i > 0 && j > 0
    requires Blocks(d.threads[t].calls[0]) && Blocks(d.threads[u].calls[0])
    ensures Ready(reach, d', t, u, i - 1, j - 1)
  {
    var d1 := OneWrite(reach, d, t, u, i, j);
    var m;
    m, d' := BothTake(reach, d1, t, u);
    OneOnPure(d1, m, t);
    OneOnPure(m, d', u);
    OneOnTotal(d1, m, t);
    OneOnTotal(m, d', u);
    assert d'.threads[t].calls[i - 1] == d.threads[t].calls[i];
    assert d'.threads[u].calls[j - 1] == d.threads[u].calls[j];
  }

  /** One call on, for one or both. */
  lemma Approach(reach: Config -> bool, d: Config, t: nat, u: nat, i: nat, j: nat)
    returns (d': Config, i': nat, j': nat)
    requires Closed(false, reach) && Ready(reach, d, t, u, i, j) && i + j > 0
    ensures Ready(reach, d', t, u, i', j') && i' + j' < i + j
  {
    if i > 0 && !Blocks(d.threads[t].calls[0]) {
      d' := SkipOne(reach, d, t, u, i, j);
      i', j' := i - 1, j;
    } else if j > 0 && !Blocks(d.threads[u].calls[0]) {
      Swapped(reach, d, t, u, i, j);
      d' := SkipOne(reach, d, u, t, j, i);
      i', j' := i, j - 1;
    } else if i > 0 && j > 0 {
      d' := TakeBoth(reach, d, t, u, i, j);
      i', j' := i - 1, j - 1;
    } else if i > 0 {
      d' := TakeOne(reach, d, t, u, i);
      i', j' := i - 1, 0;
    } else {
      Swapped(reach, d, t, u, 0, j);
      d' := TakeOne(reach, d, u, t, j);
      i', j' := 0, j - 1;
    }
  }

  /** So they can be brought together. */
  lemma {:induction false} Meets(reach: Config -> bool, d: Config, t: nat, u: nat, i: nat, j: nat) returns (e: Config)
    requires Closed(false, reach) && Ready(reach, d, t, u, i, j)
    ensures reach(e) && MeetAt(e, t, u)
    decreases i + j
  {
    if i + j == 0 {
      e := OneWrite(reach, d, t, u, 0, 0);
    } else {
      var d', i', j' := Approach(reach, d, t, u, i, j);
      e := Meets(reach, d', t, u, i', j');
    }
  }

  lemma ShareMeets(c: Config, t: nat, u: nat, i: nat, j: nat)
    requires Start(c) && AllPure(c) && Shares(c, t, u, i, j)
    ensures CanMeet(c)
  {
    ReachedClosed(false, c);
    var reach := ReachedFrom(false, c);
    assert Ready(reach, c, t, u, i, j);
    var e := Meets(reach, c, t, u, i, j);
    assert Reached(false, c, e) && MeetAt(e, t, u);
  }

  /** For threads that only read or only write, whatever the buffers: a message can be delivered
      twice if and only if two threads have each a read that will succeed and the program has more
      writes than there are blocking reads before either. */
  lemma RepeatExactly(c: Config)
    requires Start(c) && AllPure(c)
    ensures CanRepeat(c) <==> CanShare(c)
  {
    if CanRepeat(c) {
      RepeatNeeds(c);
    }
    if t: nat, u: nat, i: nat, j: nat :| Shares(c, t, u, i, j) {
      ShareMeets(c, t, u, i, j);
      RepeatsIfMeeting(c);
    }
  }

  // ---- with long enough buffers ------------------------------------------------------------------

  ghost predicate SomeWrites(c: Config) {
    exists w :: 0 <= w < |c.threads| && Writes(c.threads[w])
  }

  ghost predicate TwoRead(c: Config) {
    exists t, u :: 0 <= t < |c.threads| && 0 <= u < |c.threads| && t != u && Reads(c.threads[t]) && Reads(c.threads[u])
  }

  lemma {:induction false} WritesCount(calls: seq<Call>)
    requires exists i :: 0 <= i < |calls| && calls[i].Write?
    ensures WritesIn(calls) > 0
  {
    if calls[0].Write? {
    } else {
      var i :| 0 <= i < |calls| && calls[i].Write?;
      assert calls[1..][i - 1].Write?;
      WritesCount(calls[1..]);
    }
  }

  lemma {:induction false} TotalAtLeast(ths: seq<Thread>, w: nat)
    requires (forall t :: 0 <= t < |ths| ==> ThreadOk(ths[t])) && w < |ths|
    ensures Total(ths) >= Unpublished(ths[w])
  {
    if w == 0 {
      TotalNonNegative(ths[1..]);
    } else {
      TotalAtLeast(ths[1..], w - 1);
    }
  }

  lemma FirstIsRead(th: Thread)
    requires Pure(th) && Reads(th)
    ensures th.calls[0].Read?
  {
    var i :| 0 <= i < |th.calls| && th.calls[i].Read?;
    OnlyReads(th, i, 0);
  }

  lemma ShareIsPlain(c: Config, t: nat, u: nat, i: nat, j: nat)
    requires Start(c) && AllPure(c) && Shares(c, t, u, i, j)
    ensures SomeWrites(c) && TwoRead(c)
  {
    assert Reads(c.threads[t]) && Reads(c.threads[u]);
    var w := PureWriter(c);
    assert Writes(c.threads[w]);
  }

  lemma PlainShares(c: Config, w: nat, t: nat, u: nat)
    requires Start(c) && AllPure(c) && AllWhole(c) && w < |c.threads| && t < |c.threads| && u < |c.threads| && t != u
    requires Writes(c.threads[w]) && Reads(c.threads[t]) && Reads(c.threads[u])
    ensures Shares(c, t, u, 0, 0)
  {
    WritesCount(c.threads[w].calls);
    TotalAtLeast(c.threads, w);
    FirstIsRead(c.threads[t]);
    FirstIsRead(c.threads[u]);
  }

  /** If moreover every buffer can take what is asked for: if and only if somebody writes and at
      least two threads read. */
  lemma RepeatPlain(c: Config)
    requires Start(c) && AllPure(c) && AllWhole(c)
    ensures CanRepeat(c) <==> SomeWrites(c) && TwoRead(c)
  {
    RepeatExactly(c);
    if t: nat, u: nat, i: nat, j: nat :| Shares(c, t, u, i, j) {
      ShareIsPlain(c, t, u, i, j);
    }
    if SomeWrites(c) && TwoRead(c) {
      var w :| 0 <= w < |c.threads| && Writes(c.threads[w]);
      var t, u :| 0 <= t < |c.threads| && 0 <= u < |c.threads| && t != u && Reads(c.threads[t]) && Reads(c.threads[u]);
      PlainShares(c, w, t, u);
    }
  }

  // ---- and what both get -------------------------------------------------------------------------

  lemma SliceIsFaithful(v: Delivery, log: seq<seq<byte>>, buf: seq<byte>)
    requires v.index < |log| && |buf| == CAPACITY && v.size <= CAPACITY && |log[v.index]| <= CAPACITY
    requires buf[..|log[v.index]|] == log[v.index] && v.result == Result(|log[v.index]|, buf[..v.size])
    ensures MailboxDelivery.Faithful(v, log)
  {
    var msg := log[v.index];
    forall k | 0 <= k < v.size && k < |msg|
      ensures buf[..v.size][k] == msg[k]
    {
      assert buf[..|msg|][k] == buf[k];
    }
  }

  lemma OverlapFrom(reach: Config -> bool, c: Config, w: nat, t: nat, u: nat) returns (e: Config)
    requires Closed(false, reach) && reach(c)
    requires Start(c) && w < |c.threads| && t < |c.threads| && u < |c.threads| && t != u
    requires c.threads[w].calls != [] && c.threads[w].calls[0].Write?
    requires c.threads[t].calls != [] && Whole(c.threads[t].calls[0])
    requires c.threads[u].calls != [] && Whole(c.threads[u].calls[0])
    ensures reach(e) && e.log == [c.threads[w].calls[0].msg]
    ensures |e.given| == 2 && Twice(e, t, u)
    ensures MailboxDelivery.Faithful(e.given[0], e.log) && MailboxDelivery.Faithful(e.given[1], e.log)
  {
    var d := WriterWrites(false, reach, c, w);
    assert d.threads[t] == c.threads[t] && d.threads[u] == c.threads[u];
    e := MeetingRepeats(reach, d, t, u);
    SliceIsFaithful(e.given[0], e.log, d.buf);
    SliceIsFaithful(e.given[1], e.log, d.buf);
  }

  /** In any program where a write comes first in one thread and a read that will succeed in two
      others, whatever comes later, some schedule delivers that very message to both. */
  lemma OverlapReached(c: Config, w: nat, t: nat, u: nat) returns (e: Config)
    requires Start(c) && w < |c.threads| && t < |c.threads| && u < |c.threads| && t != u
    requires c.threads[w].calls != [] && c.threads[w].calls[0].Write?
    requires c.threads[t].calls != [] && Whole(c.threads[t].calls[0])
    requires c.threads[u].calls != [] && Whole(c.threads[u].calls[0])
    ensures Reached(false, c, e) && e.log == [c.threads[w].calls[0].msg]
    ensures |e.given| == 2 && Twice(e, t, u)
    ensures MailboxDelivery.Faithful(e.given[0], e.log) && MailboxDelivery.Faithful(e.given[1], e.log)
  {
    ReachedClosed(false, c);
    e := OverlapFrom(ReachedFrom(false, c), c, w, t, u);
  }
}
