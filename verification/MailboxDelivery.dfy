/** Delivery when the phases are kept apart: what is delivered is the message, and when the device
    comes to rest. */
module MailboxDelivery {
  import opened Bytes
  import opened Mailbox
  import opened MailboxLedger

  // ---- delivery -------------------------------------------------------------------------------

  ghost predicate AtMostOneBusy(c: Config) {
    forall t, u :: 0 <= t < |c.threads| && 0 <= u < |c.threads| && Busy(c.threads[t]) && Busy(c.threads[u]) ==> t == u
  }

  /** The slot holds the last message. */
  predicate Holds(c: Config) {
    && c.log != []
    && (var m := c.log[|c.log| - 1]; c.len == |m| <= CAPACITY && |c.buf| == CAPACITY && c.buf[..c.len] == m)
  }

  /** What the delivery promises: the return value is the message's length, and the caller's
      buffer starts with the message, as far as it goes. */
  predicate Faithful(d: Delivery, log: seq<seq<byte>>) {
    && d.index < |log| && d.result.ret == |log[d.index]| && |d.result.data| == d.size
    && forall k :: 0 <= k < d.size && k < |log[d.index]| ==> d.result.data[k] == log[d.index][k]
  }

  /** The reader has what its caller asked for of the slot. */
  predicate Copied(c: Config, th: Thread, got: seq<byte>) {
    && th.calls != [] && th.calls[0].Read? && th.calls[0].size <= CAPACITY
    && |c.buf| == CAPACITY && got == c.buf[..th.calls[0].size]
  }

  /** What the phase a thread is in says about the slot. */
  ghost predicate PhaseOk(c: Config, th: Thread) {
    match th.pc
    case Clear => c.have && Holds(c)
    case CopyOut(k) => !c.have && Holds(c) && k == |c.log| - 1
    case TakeLen(k, got) => !c.have && Holds(c) && k == |c.log| - 1 && Copied(c, th, got)
    case Zero(k, got, len) => !c.have && Holds(c) && k == |c.log| - 1 && len == c.len && Copied(c, th, got)
    case CopyIn(i) =>
      && c.len == i && th.calls != [] && th.calls[0].Write?
      && i <= |th.calls[0].msg| && i <= |c.buf| && c.buf[..i] == th.calls[0].msg[..i]
    case _ => true
  }

  ghost predicate AllFaithful(c: Config) {
    forall n :: 0 <= n < |c.given| ==> Faithful(c.given[n], c.log)
  }

  /** The flag is up and no writer is replacing the message: then the slot holds it. */
  ghost predicate SlotOk(c: Config) {
    c.have && (forall t :: 0 <= t < |c.threads| ==> !c.threads[t].pc.CopyIn?) ==> Holds(c)
  }

  ghost predicate Inv(c: Config) {
    && Ok(c) && AtMostOneBusy(c)
    && (forall t :: 0 <= t < |c.threads| ==> PhaseOk(c, c.threads[t]))
    && SlotOk(c) && Ledger(c) && AllFaithful(c)
  }

  lemma StartInv(c: Config)
    requires Start(c)
    ensures Inv(c)
  {
  }

  /** A step inside a phase or into one finds everybody else outside. */
  lemma OthersIdle(c: Config, ch: Choice)
    requires Ok(c) && AtMostOneBusy(c) && Enabled(true, c, ch)
    ensures var th := c.threads[ch.tid];
            && (Busy(th) || Busy(Local(c, th)) ==> OthersOut(c, ch.tid))
            && (OthersOut(c, ch.tid) || (!Busy(th) && !Busy(Local(c, th))))
  {
  }

  /** A step outside the phases leaves the slot and the history alone. */
  lemma OutsideKeeps(c: Config, ch: Choice)
    requires Ok(c) && Enabled(true, c, ch)
    requires !Busy(c.threads[ch.tid]) && !Busy(Local(c, c.threads[ch.tid]))
    ensures Shared(c, ch.tid, c.threads[ch.tid]) == c
  {
  }

  /** The other threads go on as they were, or are woken. */
  lemma OthersStay(c: Config, ch: Choice, u: nat)
    requires Ok(c) && Enabled(true, c, ch) && u < |c.threads| && u != ch.tid
    ensures var d := Step(true, c, ch);
            d.threads[u] == c.threads[u] || (c.threads[u].pc.Sleep? && d.threads[u] == Woken(c.threads[u]))
  {
  }

  lemma OneBusyStep(c: Config, ch: Choice)
    requires Inv(c) && Enabled(true, c, ch)
    ensures AtMostOneBusy(Step(true, c, ch))
  {
    var d := Step(true, c, ch);
    OthersIdle(c, ch);
    forall u | 0 <= u < |c.threads| && u != ch.tid
      ensures Busy(d.threads[u]) <==> Busy(c.threads[u])
    {
      OthersStay(c, ch, u);
    }
    assert d.threads[ch.tid] == Local(c, c.threads[ch.tid]);
  }

  /** A thread that does not step: if it is in a phase, nothing has changed for it. */
  lemma OtherPhase(c: Config, ch: Choice, u: nat)
    requires Inv(c) && Enabled(true, c, ch) && u < |c.threads| && u != ch.tid
    ensures PhaseOk(Step(true, c, ch), Step(true, c, ch).threads[u])
  {
    OthersIdle(c, ch);
    OthersStay(c, ch, u);
    if Busy(c.threads[u]) {
      OutsideKeeps(c, ch);
      assert PhaseOk(c, c.threads[u]);
    }
  }

  lemma SlotStep(c: Config, ch: Choice)
    requires Inv(c) && Enabled(true, c, ch)
    ensures SlotOk(Step(true, c, ch))
  {
    var d := Step(true, c, ch);
    var th := c.threads[ch.tid];
    OthersIdle(c, ch);
    assert d.threads[ch.tid] == Local(c, th);
    if !Busy(th) && !Busy(Local(c, th)) {
      OutsideKeeps(c, ch);
      forall u | 0 <= u < |c.threads|
        ensures d.threads[u].pc.CopyIn? <==> c.threads[u].pc.CopyIn?
      {
        if u != ch.tid {
          OthersStay(c, ch, u);
        }
      }
    } else {
      PhaseLocal(c, ch.tid);
      if c.have && !th.pc.CopyIn? {
        assert Holds(c);
      }
    }
  }

  /** The slot and the phases after a step. */
  lemma PhaseStep(c: Config, ch: Choice)
    requires Inv(c) && Enabled(true, c, ch)
    ensures var d := Step(true, c, ch);
            AtMostOneBusy(d) && SlotOk(d) && forall t :: 0 <= t < |d.threads| ==> PhaseOk(d, d.threads[t])
  {
    var d := Step(true, c, ch);
    OneBusyStep(c, ch);
    SlotStep(c, ch);
    forall t | 0 <= t < |d.threads|
      ensures PhaseOk(d, d.threads[t])
    {
      if t == ch.tid {
        StepperPhase(c, ch);
      } else {
        OtherPhase(c, ch, t);
      }
    }
  }

  lemma StepperPhase(c: Config, ch: Choice)
    requires Inv(c) && Enabled(true, c, ch)
    ensures PhaseOk(Step(true, c, ch), Step(true, c, ch).threads[ch.tid])
  {
    var th := c.threads[ch.tid];
    OthersIdle(c, ch);
    assert Step(true, c, ch).threads[ch.tid] == Local(c, th);
    if Busy(Local(c, th)) {
      PhaseLocal(c, ch.tid);
    }
  }

  lemma PhaseLocal(c: Config, t: nat)
    requires Inv(c) && t < |c.threads| && !Done(c.threads[t]) && OthersOut(c, t)
    ensures var th := c.threads[t];
            PhaseOk(Shared(c, t, th), Local(c, th))
            && (th.pc.CopyIn? && !Local(c, th).pc.CopyIn? ==> Holds(Shared(c, t, th)))
  {
    var th := c.threads[t];
    assert PhaseOk(c, th);
    if th.pc.Check? && c.have {
      assert forall u :: 0 <= u < |c.threads| ==> !c.threads[u].pc.CopyIn?;
    }
    if th.pc.CopyIn? {
      CopyInLocal(c, t);
    }
  }

  lemma CopyInLocal(c: Config, t: nat)
    requires Ok(c) && t < |c.threads| && !Done(c.threads[t]) && c.threads[t].pc.CopyIn? && PhaseOk(c, c.threads[t])
    ensures var th := c.threads[t];
            PhaseOk(Shared(c, t, th), Local(c, th)) && (!Local(c, th).pc.CopyIn? ==> Holds(Shared(c, t, th)))
  {
    var th := c.threads[t];
    var i, msg := th.pc.i, th.calls[0].msg;
    if i < |msg| {
      assert c.buf[c.len := msg[i]][..i + 1] == msg[..i + 1];
    } else {
      assert msg[..i] == msg;
    }
  }

  lemma BusyIsTaker(c: Config)
    requires AtMostOneBusy(c)
    ensures OneTaker(c)
  {
  }

  lemma FaithfulStep(c: Config, ch: Choice)
    requires Inv(c) && Enabled(true, c, ch)
    ensures AllFaithful(Step(true, c, ch))
  {
    var th, d := c.threads[ch.tid], Step(true, c, ch);
    if th.pc.Zero? {
      assert PhaseOk(c, th);
      LastFaithful(c, Delivery(ch.tid, |c.log| - 1, th.calls[0].size, Result(th.pc.len, th.pc.got)));
    } else {
      assert forall k :: 0 <= k < |c.log| ==> d.log[k] == c.log[k];
    }
  }

  lemma HistoryStep(c: Config, ch: Choice)
    requires Inv(c) && Enabled(true, c, ch)
    ensures Ledger(Step(true, c, ch)) && AllFaithful(Step(true, c, ch))
  {
    BusyIsTaker(c);
    LedgerStep(true, c, ch);
    FaithfulStep(c, ch);
  }

  lemma LastFaithful(c: Config, v: Delivery)
    requires Holds(c) && v.index == |c.log| - 1 && v.size <= CAPACITY
    requires v.result == Result(c.len, c.buf[..v.size])
    ensures Faithful(v, c.log)
  {
  }

  /** A read that returns data delivers the latest message, which it alone has in hand, and returns
      what the delivery records; other steps deliver nothing. */
  lemma DeliversLatest(c: Config, ch: Choice)
    requires Inv(c) && Enabled(true, c, ch)
    ensures var d, t := Step(true, c, ch), ch.tid;
            if c.threads[t].pc.Zero? then
              && c.fate != [] && c.fate[|c.fate| - 1].Taken?
              && |d.threads[t].results| > 0
              && d.given == c.given + [Delivery(t, |c.log| - 1, c.threads[t].calls[0].size,
                                                d.threads[t].results[|d.threads[t].results| - 1])]
            else d.given == c.given
  {
    StepperMoves(true, c, ch);
    assert PhaseOk(c, c.threads[ch.tid]);
  }

  /** Mailbox delivery, for any number of readers, writers and calls, and any schedule that keeps
      the phases apart: every published message is delivered once, or overwritten before a read,
      or lost to a reader whose buffer faults, or is the last and still pending or in hand;
      deliveries come in publication order; and each returns the message's length with the message
      at the front of the caller's buffer. */
  lemma {:induction false} Delivered(c: Config, s: seq<Choice>)
    requires Inv(c) && Run(true, c, s).Some?
    ensures Inv(Run(true, c, s).value)
    decreases |s|
  {
    if s == [] {
    } else {
      PhaseStep(c, s[0]);
      HistoryStep(c, s[0]);
      Delivered(Step(true, c, s[0]), s[1..]);
    }
  }

  /** Conservation: published = delivered + overwritten before a read + lost + at most one that is
      pending or in hand. */
  lemma Conservation(c: Config, s: seq<Choice>, e: Config)
    requires Start(c) && Run(true, c, s) == Some(e)
    ensures Conserved(e) && !(e.have && exists t :: 0 <= t < |e.threads| && Reading(e.threads[t]))
  {
    StartInv(c);
    Delivered(c, s);
    LedgerConserves(e);
    if t :| 0 <= t < |e.threads| && Reading(e.threads[t]) {
      assert PhaseOk(e, e.threads[t]);
    }
  }

  lemma {:induction false} PhasedLost(c: Config, s: seq<Choice>, base: seq<Thread>)
    requires Inv(c) && LostByFaults(c, base) && Run(true, c, s).Some?
    ensures LostByFaults(Run(true, c, s).value, base)
    decreases |s|
  {
    if s == [] {
    } else {
      BusyIsTaker(c);
      LostStep(true, c, s[0], base);
      PhaseStep(c, s[0]);
      HistoryStep(c, s[0]);
      PhasedLost(Step(true, c, s[0]), s[1..], base);
    }
  }

  /** Messages are lost in a run if and only if a read of that run has returned -EFAULT. */
  lemma LostExactly(c: Config, s: seq<Choice>, e: Config)
    requires Start(c) && Run(true, c, s) == Some(e)
    ensures SomeLost(e.fate) <==> SomeFaulted(e, c.threads)
  {
    StartInv(c);
    StartLost(c);
    PhasedLost(c, s, c.threads);
  }

  // ---- rest ------------------------------------------------------------------------------------

  /** No thread can go on without a signal. */
  ghost predicate AtRest(phased: bool, c: Config) {
    forall t: nat :: !Enabled(phased, c, Choice(t, false))
  }

  ghost predicate OnlySleepersLeft(c: Config) {
    forall t :: 0 <= t < |c.threads| ==> Done(c.threads[t]) || c.threads[t].pc.Sleep?
  }

  lemma RestIsSleep(phased: bool, c: Config)
    requires Ok(c) && (phased ==> AtMostOneBusy(c))
    ensures AtRest(phased, c) <==> OnlySleepersLeft(c)
  {
    if AtRest(phased, c) {
      forall t | 0 <= t < |c.threads|
        ensures Done(c.threads[t]) || c.threads[t].pc.Sleep?
      {
        assert !Enabled(phased, c, Choice(t, false));
        if u :| 0 <= u < |c.threads| && Busy(c.threads[u]) {
          assert !Enabled(phased, c, Choice(u, false));
        }
      }
    }
  }

  /** So the device only comes to rest when everybody left is a sleeping reader, and then there is
      nothing left unread. */
  lemma RestMeansEmpty(phased: bool, c: Config, s: seq<Choice>, e: Config)
    requires Start(c) && Run(phased, c, s) == Some(e)
    ensures AtRest(phased, e) <==> OnlySleepersLeft(e)
    ensures AtRest(phased, e) && (exists t :: 0 <= t < |e.threads| && !Done(e.threads[t])) ==> !e.have
  {
    WakeupsAreNotLost(phased, c, s);
    if phased {
      StartInv(c);
      Delivered(c, s);
    }
    RestIsSleep(phased, e);
  }
}
