/** The mailbox always comes to rest: without signals every schedule ends, with readers asleep.

    A reader that finds nothing goes to the wait queue and stays there until it is woken.  What can
    set readers going again is a message published, one taken or a wake-up; each happens at most
    once per call, and the call pays for all the readers it sets going. */
module MailboxRest {
  import opened Bytes
  import opened Mailbox
  import opened MailboxLedger
  import opened MailboxDelivery
  import opened MailboxOverlap
  import opened MailboxPrograms

  // ---- a measure -------------------------------------------------------------------------------

  /** How far a thread is from going to sleep, or from the next thing it does if it need not. */
  function Standing(have: bool, th: Thread): nat {
    match th.pc
    case Idle => if th.calls == [] then 0 else 4
    case Check => if have then 2 else 3
    case Wait => if have then 3 else 2
    case Clear => 1
    case _ => 0
  }

  /** What a call can cost among `n` threads. */
  function Cost(n: nat, call: Call): nat {
    match call
    case Read(_, _, _) => 4 * n + 25
    case Write(msg) => 5 * |msg| + 8 * n + 30
  }

  function Costs(n: nat, calls: seq<Call>): nat {
    if calls == [] then 0 else Cost(n, calls[0]) + Costs(n, calls[1..])
  }

  /** What is left of the call in progress. */
  function Current(n: nat, th: Thread): nat
    requires ThreadOk(th) && !Done(th)
  {
    match th.pc
    case CopyOut(_) => 15
    case TakeLen(_, _) => 10
    case Zero(_, _, _) => 5
    case CopyIn(i) => 5 * (|th.calls[0].msg| - i) + 8 * n + 20
    case Wake => 4 * n + 10
    case Delay => 5
    case _ => Cost(n, th.calls[0])
  }

  function Left(n: nat, have: bool, th: Thread): nat
    requires ThreadOk(th)
  {
    if Done(th) then 0 else Current(n, th) + Costs(n, th.calls[1..]) + Standing(have, th)
  }

  function Sum(n: nat, have: bool, ths: seq<Thread>): nat
    requires forall t :: 0 <= t < |ths| ==> ThreadOk(ths[t])
  {
    if ths == [] then 0 else Left(n, have, ths[0]) + Sum(n, have, ths[1..])
  }

  /** The calls and bytes left, with what they can still set going. */
  ghost function Measure(c: Config): nat
    requires Ok(c)
  {
    Sum(|c.threads|, c.have, c.threads)
  }

  /** `m` times `k`. */
  function Times(k: nat, m: nat): nat {
    if m == 0 then 0 else k + Times(k, m - 1)
  }

  lemma {:induction false} TimesIs(k: nat, m: nat)
    requires k == 0 || k == 1 || k == 3
    ensures Times(k, m) == if k == 0 then 0 else if k == 1 then m else 3 * m
    decreases m
  {
    if m == 0 {
    } else {
      TimesIs(k, m - 1);
    }
  }

  /** The others may go up by `k` each. */
  ghost predicate RisesBy(n: nat, have: bool, was: seq<Thread>, have': bool, now: seq<Thread>, t: nat, k: nat)
    requires |was| == |now|
    requires forall u :: 0 <= u < |was| ==> ThreadOk(was[u]) && ThreadOk(now[u])
  {
    forall u :: 0 <= u < |was| && u != t ==> Left(n, have', now[u]) <= Left(n, have, was[u]) + k
  }

  /** If the others go up by `k` at most, and the one that steps goes down by `down`. */
  lemma {:induction false} SumStep(n: nat, have: bool, was: seq<Thread>, have': bool, now: seq<Thread>, t: nat,
                                   k: nat, down: int)
    requires |was| == |now| && t < |was|
    requires forall u :: 0 <= u < |was| ==> ThreadOk(was[u]) && ThreadOk(now[u])
    requires RisesBy(n, have, was, have', now, t, k)
    requires Left(n, have', now[t]) + down <= Left(n, have, was[t])
    ensures Sum(n, have', now) + down <= Sum(n, have, was) + Times(k, |was|)
  {
    if t == 0 {
      SumRises(n, have, was[1..], have', now[1..], k);
    } else {
      SumStep(n, have, was[1..], have', now[1..], t - 1, k, down);
      assert RisesBy(n, have, was, have', now, t, k);
      assert Left(n, have', now[0]) <= Left(n, have, was[0]) + k;
    }
  }

  lemma {:induction false} SumRises(n: nat, have: bool, was: seq<Thread>, have': bool, now: seq<Thread>, k: nat)
    requires |was| == |now|
    requires forall u :: 0 <= u < |was| ==> ThreadOk(was[u]) && ThreadOk(now[u])
    requires forall u :: 0 <= u < |was| ==> Left(n, have', now[u]) <= Left(n, have, was[u]) + k
    ensures Sum(n, have', now) <= Sum(n, have, was) + Times(k, |was|)
  {
    if was == [] {
    } else {
      SumRises(n, have, was[1..], have', now[1..], k);
      assert Left(n, have', now[0]) <= Left(n, have, was[0]) + k;
    }
  }

  /** How much a step can set each of the others back: a wake-up by three, and a step that raises or
      clears the flag by one. */
  function Stirs(c: Config, th: Thread): nat
    requires ThreadOk(th) && !Done(th) && |c.buf| == CAPACITY
  {
    if th.pc.Wake? then 3
    else if th.pc.Clear? || (th.pc.CopyIn? && Local(c, th).pc.Wake?) then 1
    else 0
  }

  lemma OwnLeft(c: Config, t: nat, n: nat)
    requires Ok(c) && t < |c.threads| && !Done(c.threads[t]) && !c.threads[t].pc.Sleep?
    ensures var th := c.threads[t];
            Left(n, Shared(c, t, th).have, Local(c, th)) + Times(Stirs(c, th), n) + 1 <= Left(n, c.have, th)
  {
    TimesIs(Stirs(c, c.threads[t]), n);
  }

  /** A signal sets a sleeper back by three at most. */
  lemma OwnSignalled(c: Config, t: nat, n: nat)
    requires Ok(c) && t < |c.threads| && !Done(c.threads[t]) && c.threads[t].pc.Sleep?
    ensures var th := c.threads[t];
            Left(n, Shared(c, t, th).have, Local(c, th)) <= Left(n, c.have, th) + 3
    ensures Stirs(c, c.threads[t]) == 0
  {
  }

  lemma OtherLeft(phased: bool, c: Config, ch: Choice, u: nat, n: nat)
    requires Ok(c) && Enabled(phased, c, ch) && u < |c.threads| && u != ch.tid
    ensures var d := Step(phased, c, ch);
            Left(n, d.have, d.threads[u]) <= Left(n, c.have, c.threads[u]) + Stirs(c, c.threads[ch.tid])
  {
    OthersKeep(phased, c, ch, u);
  }

  /** Every step uses some of it up; a signal adds at most three. */
  lemma StepCounts(phased: bool, c: Config, ch: Choice)
    requires Ok(c) && Enabled(phased, c, ch)
    ensures Measure(Step(phased, c, ch)) + 1 <= Measure(c) + if ch.signal then 4 else 0
  {
    var d, t, n := Step(phased, c, ch), ch.tid, |c.threads|;
    var k := Stirs(c, c.threads[t]);
    StepperMoves(phased, c, ch);
    forall u | 0 <= u < |c.threads| && u != t
      ensures Left(n, d.have, d.threads[u]) <= Left(n, c.have, c.threads[u]) + k
    {
      OtherLeft(phased, c, ch, u, n);
    }
    if ch.signal {
      OwnSignalled(c, t, n);
      TimesIs(0, n);
      SumStep(n, c.have, c.threads, d.have, d.threads, t, 0, -3);
    } else {
      OwnLeft(c, t, n);
      SumStep(n, c.have, c.threads, d.have, d.threads, t, k, Times(k, n) + 1);
    }
  }

  // ---- every schedule ends -----------------------------------------------------------------------

  /** How many signals a schedule has. */
  function Signals(s: seq<Choice>): nat {
    if s == [] then 0 else (if s[0].signal then 1 else 0) + Signals(s[1..])
  }

  /** No schedule is longer than the measure of its start and four steps for each signal. */
  lemma {:induction false} RunsEnd(phased: bool, c: Config, s: seq<Choice>, e: Config)
    requires Ok(c) && Run(phased, c, s) == Some(e)
    ensures |s| + Measure(e) <= Measure(c) + 4 * Signals(s)
    decreases |s|
  {
    if s == [] {
    } else {
      StepCounts(phased, c, s[0]);
      RunsEnd(phased, Step(phased, c, s[0]), s[1..], e);
    }
  }

  /** From every state the device can come to rest without signals, and it does so whichever way the
      threads go, because nothing else can go on for ever. */
  lemma {:induction false} ComesToRest(phased: bool, c: Config) returns (s: seq<Choice>, e: Config)
    requires Ok(c)
    ensures Run(phased, c, s) == Some(e) && Signals(s) == 0 && AtRest(phased, e)
    decreases Measure(c)
  {
    if AtRest(phased, c) {
      s, e := [], c;
    } else {
      var t: nat :| Enabled(phased, c, Choice(t, false));
      var ch := Choice(t, false);
      StepCounts(phased, c, ch);
      var rest;
      rest, e := ComesToRest(phased, Step(phased, c, ch));
      RunCons(phased, c, ch, rest);
      s := [ch] + rest;
    }
  }

  // ---- who sleeps --------------------------------------------------------------------------------

  lemma ThroughAll(calls: seq<Call>, th: Thread, have: bool, published: nat)
    requires Through(calls, th, have, published) && th.calls == []
    ensures Ahead(calls, |calls|) <= published
  {
  }

  /** With more blocking reads than there are writes in the program, a thread ends asleep. */
  lemma HungrySleeps(c: Config, s: seq<Choice>, e: Config, t: nat)
    requires Start(c) && Run(false, c, s) == Some(e) && AtRest(false, e) && t < |c.threads|
    requires Ahead(c.threads[t].calls, |c.threads[t].calls|) > Total(c.threads)
    ensures e.threads[t].pc.Sleep?
  {
    RestIsSleep(false, e);
    if Done(e.threads[t]) {
      DoneWasFed(c, s, e, t);
    }
  }

  /** A thread that has finished has not had more blocking reads than there are writes. */
  lemma DoneWasFed(c: Config, s: seq<Choice>, e: Config, t: nat)
    requires Start(c) && Run(false, c, s) == Some(e) && t < |c.threads| && Done(e.threads[t])
    ensures Ahead(c.threads[t].calls, |c.threads[t].calls|) <= Total(c.threads)
  {
    StartThrough(c, t);
    ThroughRun(c.threads[t].calls, c, s, t);
    ThroughAll(c.threads[t].calls, e.threads[t], e.have, |e.log|);
    TotalNonNegative(e.threads);
  }

  lemma StartThrough(c: Config, t: nat)
    requires Start(c) && t < |c.threads|
    ensures Through(c.threads[t].calls, c.threads[t], c.have, |c.log|)
  {
    assert c.threads[t].calls[0..] == c.threads[t].calls;
  }

  /** The thread has been refused `n` times, as non-blocking reads are, and has done nothing else. */
  ghost predicate Refused(was: Thread, th: Thread, n: nat) {
    && n <= |was.calls| && th.calls == was.calls[n..]
    && (forall i :: 0 <= i < n ==> was.calls[i].Read? && was.calls[i].nonblock)
    && |th.results| == |was.results| + n && th.results[..|was.results|] == was.results
    && (forall i :: |was.results| <= i < |th.results| ==> th.results[i] == Result(-11, []))
    && (th.pc.Idle? || th.pc.Check? || th.pc.Wait? || th.pc.Sleep?)
  }

  ghost predicate OnlyRefused(was: Thread, th: Thread) {
    exists n :: Refused(was, th, n)
  }

  ghost predicate AllRefused(base: seq<Thread>, c: Config) {
    && Ok(c) && !c.have && c.log == [] && |base| == |c.threads|
    && (forall t :: 0 <= t < |base| ==> !Writes(base[t]))
    && (forall t :: 0 <= t < |base| ==> OnlyRefused(base[t], c.threads[t]))
  }

  lemma RefusedOwn(was: Thread, c: Config, t: nat, n: nat) returns (n': nat)
    requires Ok(c) && !c.have && t < |c.threads| && !Done(c.threads[t]) && !Writes(was)
    requires Refused(was, c.threads[t], n)
    ensures Refused(was, Local(c, c.threads[t]), n')
    ensures Shared(c, t, c.threads[t]).have == c.have && Shared(c, t, c.threads[t]).log == c.log
  {
    var th, th' := c.threads[t], Local(c, c.threads[t]);
    assert th.calls[0] == was.calls[n];
    assert was.calls[n].Write? ==> Writes(was);
    if th.pc.Check? && th.calls[0].nonblock {
      n' := n + 1;
      assert th.calls[1..] == was.calls[n'..];
      assert th'.results == th.results + [Result(-11, [])];
      assert th'.results[..|was.results|] == th.results[..|was.results|];
    } else {
      n' := n;
    }
  }

  /** Without a writer awake to wake them, the others stay as they are. */
  lemma RefusedOthers(phased: bool, base: seq<Thread>, c: Config, ch: Choice)
    requires AllRefused(base, c) && Enabled(phased, c, ch)
    ensures var th := c.threads[ch.tid];
            Step(phased, c, ch) == Shared(c, ch.tid, th).(threads := c.threads[ch.tid := Local(c, th)])
  {
    assert OnlyRefused(base[ch.tid], c.threads[ch.tid]);
  }

  lemma RefusedMoved(base: seq<Thread>, c: Config, t: nat, th: Thread, d: Config, n: nat)
    requires AllRefused(base, c) && t < |c.threads| && Refused(base[t], th, n)
    requires Ok(d) && !d.have && d.log == [] && d.threads == c.threads[t := th]
    ensures AllRefused(base, d)
  {
    assert OnlyRefused(base[t], th);
  }

  lemma RefusedStep(phased: bool, base: seq<Thread>, c: Config, ch: Choice)
    requires AllRefused(base, c) && Enabled(phased, c, ch)
    ensures AllRefused(base, Step(phased, c, ch))
  {
    var t := ch.tid;
    var n :| Refused(base[t], c.threads[t], n);
    var n' := RefusedOwn(base[t], c, t, n);
    RefusedOthers(phased, base, c, ch);
    RefusedMoved(base, c, t, Local(c, c.threads[t]), Step(phased, c, ch), n');
  }

  lemma {:induction false} RefusedRun(phased: bool, base: seq<Thread>, c: Config, s: seq<Choice>)
    requires AllRefused(base, c) && Run(phased, c, s).Some?
    ensures AllRefused(base, Run(phased, c, s).value)
    decreases |s|
  {
    if s == [] {
    } else {
      RefusedStep(phased, base, c, s[0]);
      RefusedRun(phased, base, Step(phased, c, s[0]), s[1..]);
    }
  }

  /** If nobody writes, each thread's non-blocking reads are refused one after the other, and at
      rest it has finished or sleeps at its first blocking read. */
  lemma NobodyWrites(phased: bool, c: Config, s: seq<Choice>, e: Config, t: nat) returns (n: nat)
    requires Start(c) && Run(phased, c, s) == Some(e) && t < |c.threads|
    requires forall u :: 0 <= u < |c.threads| ==> !Writes(c.threads[u])
    ensures !e.have && e.log == [] && Refused(c.threads[t], e.threads[t], n)
    ensures AtRest(phased, e) ==>
              if n == |c.threads[t].calls| then Done(e.threads[t])
              else e.threads[t].pc.Sleep? && Blocks(c.threads[t].calls[n])
  {
    StartRefused(c);
    RefusedRun(phased, c.threads, c, s);
    RefusedIsIdle(c.threads, e);
    RestIsSleep(phased, e);
    assert OnlyRefused(c.threads[t], e.threads[t]);
    n :| Refused(c.threads[t], e.threads[t], n);
    RefusedAt(c.threads[t], e.threads[t], n);
  }

  lemma RefusedAt(was: Thread, th: Thread, n: nat)
    requires Refused(was, th, n) && ThreadOk(th)
    ensures Done(th) <==> n == |was.calls|
    ensures th.pc.Sleep? ==> n < |was.calls| && Blocks(was.calls[n])
  {
    assert th.calls != [] ==> th.calls[0] == was.calls[n];
  }

  lemma StartRefused(c: Config)
    requires Start(c) && forall u :: 0 <= u < |c.threads| ==> !Writes(c.threads[u])
    ensures AllRefused(c.threads, c)
  {
    forall u | 0 <= u < |c.threads|
      ensures OnlyRefused(c.threads[u], c.threads[u])
    {
      assert c.threads[u].calls[0..] == c.threads[u].calls;
      assert Refused(c.threads[u], c.threads[u], 0);
    }
  }

  lemma RefusedIsIdle(base: seq<Thread>, e: Config)
    requires AllRefused(base, e)
    ensures AtMostOneBusy(e)
  {
    forall t | 0 <= t < |base|
      ensures !Busy(e.threads[t])
    {
      assert OnlyRefused(base[t], e.threads[t]);
    }
  }
}
