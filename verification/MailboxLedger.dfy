/** The fates of the messages: with any schedule in which at most one reader is past the test at a
    time, each message published is delivered once, overwritten, lost, pending or in a reader's
    hand. */
module MailboxLedger {
  import opened Bytes
  import opened Mailbox

  // ---- every message meets one fate ------------------------------------------------------------

  /** A reader has cleared the flag and not returned yet. */
  predicate Reading(th: Thread) {
    th.pc.CopyOut? || th.pc.TakeLen? || th.pc.Zero?
  }

  ghost predicate SomeReading(c: Config) {
    exists t :: 0 <= t < |c.threads| && Reading(c.threads[t])
  }

  /** Past the test. */
  predicate Taking(th: Thread) {
    th.pc.Clear? || Reading(th)
  }

  ghost predicate OneTaker(c: Config) {
    forall t, u :: 0 <= t < |c.threads| && 0 <= u < |c.threads|
                   && Taking(c.threads[t]) && Taking(c.threads[u])
                   ==> t == u
  }

  /** Every message published has exactly one fate, and the deliveries are just the messages
      given out, each once and in the order they were published.  Only the last message can be
      pending, which it is while the flag is up, and only the one a reader has in hand is taken. */
  ghost predicate Accounts(fate: seq<Fate>, given: seq<Delivery>, have: bool, hand: Option<nat>) {
    && (forall k: nat, n: nat :: k < |fate| && fate[k] == Given(n) ==> n < |given| && given[n].index == k)
    && (forall n :: 0 <= n < |given| ==> given[n].index < |fate| && fate[given[n].index] == Given(n))
    && (forall m, n :: 0 <= m < n < |given| ==> given[m].index < given[n].index)
    && (forall k :: 0 <= k < |fate| ==> (fate[k].Pending? <==> have && k == |fate| - 1))
    && (have ==> fate != [])
    && (forall k :: 0 <= k < |fate| ==> (fate[k].Taken? <==> hand == Some(k)))
    && (hand.Some? ==> hand.value < |fate| && forall n :: 0 <= n < |given| ==> given[n].index < hand.value)
  }

  ghost predicate Ledger(c: Config) {
    && |c.fate| == |c.log|
    && (forall t :: 0 <= t < |c.threads| && c.threads[t].pc.Clear? ==> c.have)
    && (forall t :: 0 <= t < |c.threads| && Reading(c.threads[t]) ==>
          Accounts(c.fate, c.given, c.have, Some(c.threads[t].pc.index)))
    && (!SomeReading(c) ==> Accounts(c.fate, c.given, c.have, None))
  }

  lemma PublishAccounts(fate: seq<Fate>, given: seq<Delivery>, have: bool, hand: Option<nat>)
    requires Accounts(fate, given, have, hand)
    ensures Accounts(Superseded(fate) + [Pending], given, true, hand)
  {
  }

  lemma ClaimAccounts(fate: seq<Fate>, given: seq<Delivery>)
    requires Accounts(fate, given, true, None)
    ensures Accounts(Claimed(fate), given, false, Some(|fate| - 1))
  {
  }

  lemma LoseAccounts(fate: seq<Fate>, given: seq<Delivery>, have: bool, k: nat)
    requires Accounts(fate, given, have, Some(k))
    ensures Accounts(LoseAt(fate, k), given, have, None)
  {
  }

  lemma RecordAccounts(fate: seq<Fate>, given: seq<Delivery>, have: bool, d: Delivery)
    requires Accounts(fate, given, have, Some(d.index))
    ensures Accounts(fate[d.index := Given(|given|)], given + [d], have, None)
  {
  }

  /** The threads that do not step have the calls they had, and are past the test if they were. */
  lemma OthersKeep(phased: bool, c: Config, ch: Choice, u: nat)
    requires Ok(c) && Enabled(phased, c, ch) && u < |c.threads| && u != ch.tid
    ensures var th, th' := c.threads[u], Step(phased, c, ch).threads[u];
            && th'.calls == th.calls && th'.results == th.results
            && (Taking(th) || Taking(th') ==> th' == th)
  {
  }

  lemma StepperMoves(phased: bool, c: Config, ch: Choice)
    requires Ok(c) && Enabled(phased, c, ch)
    ensures Step(phased, c, ch).threads[ch.tid] == Local(c, c.threads[ch.tid])
  {
  }

  /** Who has a message in hand after a step. */
  lemma HandStep(phased: bool, c: Config, ch: Choice)
    requires Ok(c) && OneTaker(c) && Enabled(phased, c, ch)
    ensures var th, d := c.threads[ch.tid], Step(phased, c, ch);
            && (Taking(th) ==> !(exists u :: 0 <= u < |c.threads| && u != ch.tid && Reading(d.threads[u])))
            && (Reading(th) ==> SomeReading(c)) && (th.pc.Clear? ==> !SomeReading(c))
            && (!Taking(th) ==> (SomeReading(d) <==> SomeReading(c)))
            && (Taking(th) ==> (SomeReading(d) <==> Reading(Local(c, th))))
  {
    var th, d := c.threads[ch.tid], Step(phased, c, ch);
    StepperMoves(phased, c, ch);
    forall u | 0 <= u < |c.threads| && u != ch.tid
      ensures Reading(d.threads[u]) <==> Reading(c.threads[u])
      ensures Taking(th) ==> !Taking(c.threads[u])
    {
      OthersKeep(phased, c, ch, u);
    }
    if Reading(Local(c, th)) {
      assert Reading(d.threads[ch.tid]);
    }
    if u :| 0 <= u < |c.threads| && Reading(c.threads[u]) {
      assert u != ch.tid ==> Reading(d.threads[u]);
    }
  }

  /** What a step of a reader with a message in hand does to the accounts. */
  lemma AccountsReading(c: Config, t: nat)
    requires Ok(c) && t < |c.threads| && !Done(c.threads[t]) && Reading(c.threads[t])
    requires Accounts(c.fate, c.given, c.have, Some(c.threads[t].pc.index))
    ensures var th, d := Local(c, c.threads[t]), Shared(c, t, c.threads[t]);
            && |d.fate| == |c.fate| && d.log == c.log && d.have == c.have
            && Accounts(d.fate, d.given, d.have, if Reading(th) then Some(th.pc.index) else None)
            && (Reading(th) ==> th.pc.index == c.threads[t].pc.index)
  {
    if c.threads[t].pc.Zero? {
      AccountsGiven(c, t);
    } else if c.threads[t].pc.CopyOut? {
      AccountsCopied(c, t);
    }
  }

  lemma AccountsGiven(c: Config, t: nat)
    requires Ok(c) && t < |c.threads| && !Done(c.threads[t]) && c.threads[t].pc.Zero?
    requires Accounts(c.fate, c.given, c.have, Some(c.threads[t].pc.index))
    ensures var d := Shared(c, t, c.threads[t]);
            && |d.fate| == |c.fate| && d.log == c.log && d.have == c.have && Accounts(d.fate, d.given, d.have, None)
  {
    var th := c.threads[t];
    var got := Delivery(t, th.pc.index, th.calls[0].size, Result(th.pc.len, th.pc.got));
    RecordAccounts(c.fate, c.given, c.have, got);
  }

  lemma AccountsCopied(c: Config, t: nat)
    requires Ok(c) && t < |c.threads| && !Done(c.threads[t]) && c.threads[t].pc.CopyOut?
    requires Accounts(c.fate, c.given, c.have, Some(c.threads[t].pc.index))
    ensures var th, d := Local(c, c.threads[t]), Shared(c, t, c.threads[t]);
            && |d.fate| == |c.fate| && d.log == c.log && d.have == c.have
            && Accounts(d.fate, d.given, d.have, if Reading(th) then Some(th.pc.index) else None)
            && (Reading(th) ==> th.pc.index == c.threads[t].pc.index)
  {
    LoseAccounts(c.fate, c.given, c.have, c.threads[t].pc.index);
  }

  /** And a step of a thread that is not past the test. */
  lemma AccountsOutside(c: Config, t: nat, hand: Option<nat>)
    requires Ok(c) && t < |c.threads| && !Done(c.threads[t]) && !Taking(c.threads[t]) && |c.fate| == |c.log|
    requires Accounts(c.fate, c.given, c.have, hand)
    ensures var d := Shared(c, t, c.threads[t]);
            && |d.fate| == |d.log| && (c.have ==> d.have) && Accounts(d.fate, d.given, d.have, hand)
  {
    var th := c.threads[t];
    if th.pc.CopyIn? {
      PublishAccounts(c.fate, c.given, c.have, hand);
    }
  }

  lemma ClearStep(phased: bool, c: Config, ch: Choice, u: nat)
    requires Ok(c) && Ledger(c) && OneTaker(c) && Enabled(phased, c, ch) && u < |c.threads|
    ensures Step(phased, c, ch).threads[u].pc.Clear? ==> Step(phased, c, ch).have
  {
    StepperMoves(phased, c, ch);
    if u != ch.tid {
      OthersKeep(phased, c, ch, u);
    }
  }

  /** If the thread that steps is past the test, nobody else is. */
  lemma OtherNotTaking(phased: bool, c: Config, ch: Choice, u: nat)
    requires Ok(c) && OneTaker(c) && Enabled(phased, c, ch) && u < |c.threads| && u != ch.tid
    requires Taking(c.threads[ch.tid])
    ensures !Taking(Step(phased, c, ch).threads[u])
  {
    OthersKeep(phased, c, ch, u);
  }

  lemma LedgerReading(phased: bool, c: Config, ch: Choice)
    requires Ok(c) && Ledger(c) && OneTaker(c) && Enabled(phased, c, ch) && Reading(c.threads[ch.tid])
    ensures Ledger(Step(phased, c, ch))
  {
    var d, t := Step(phased, c, ch), ch.tid;
    StepperMoves(phased, c, ch);
    HandStep(phased, c, ch);
    AccountsReading(c, t);
    forall u | 0 <= u < |c.threads| && u != t
      ensures !Taking(d.threads[u])
    {
      OtherNotTaking(phased, c, ch, u);
    }
  }

  lemma LedgerClaim(phased: bool, c: Config, ch: Choice)
    requires Ok(c) && Ledger(c) && OneTaker(c) && Enabled(phased, c, ch) && c.threads[ch.tid].pc.Clear?
    ensures Ledger(Step(phased, c, ch))
  {
    var d, t := Step(phased, c, ch), ch.tid;
    StepperMoves(phased, c, ch);
    HandStep(phased, c, ch);
    ClaimAccounts(c.fate, c.given);
    assert Reading(d.threads[t]);
    forall u | 0 <= u < |c.threads| && u != t
      ensures !Taking(d.threads[u])
    {
      OtherNotTaking(phased, c, ch, u);
    }
  }

  lemma LedgerOutside(phased: bool, c: Config, ch: Choice)
    requires Ok(c) && Ledger(c) && OneTaker(c) && Enabled(phased, c, ch) && !Taking(c.threads[ch.tid])
    ensures Ledger(Step(phased, c, ch))
  {
    var d, t := Step(phased, c, ch), ch.tid;
    StepperMoves(phased, c, ch);
    HandStep(phased, c, ch);
    forall u | 0 <= u < |c.threads|
      ensures d.threads[u].pc.Clear? ==> d.have
      ensures Reading(d.threads[u]) ==> Accounts(d.fate, d.given, d.have, Some(d.threads[u].pc.index))
    {
      ClearStep(phased, c, ch, u);
      if Reading(d.threads[u]) {
        OthersKeep(phased, c, ch, u);
        AccountsOutside(c, t, Some(d.threads[u].pc.index));
      }
    }
    if u :| 0 <= u < |c.threads| && Reading(c.threads[u]) {
      AccountsOutside(c, t, Some(c.threads[u].pc.index));
    } else {
      AccountsOutside(c, t, None);
    }
  }

  /** Whatever the schedule, as long as at most one reader is past the test. */
  lemma LedgerStep(phased: bool, c: Config, ch: Choice)
    requires Ok(c) && Ledger(c) && OneTaker(c) && Enabled(phased, c, ch)
    ensures Ledger(Step(phased, c, ch))
  {
    var th := c.threads[ch.tid];
    if Reading(th) {
      LedgerReading(phased, c, ch);
    } else if th.pc.Clear? {
      LedgerClaim(phased, c, ch);
    } else {
      LedgerOutside(phased, c, ch);
    }
  }

  // ---- what becomes of a taken message ---------------------------------------------------------

  /** The read that took a message settles it: it is lost if and only if the reader's buffer is too
      short, which is when the read fails, and else it is the next delivery.  Nothing else
      happens to any message then. */
  lemma TakenSettles(phased: bool, c: Config, ch: Choice)
    requires Ok(c) && Ledger(c) && Enabled(phased, c, ch)
    requires Reading(c.threads[ch.tid]) && Local(c, c.threads[ch.tid]).pc.Idle?
    ensures var th, d := c.threads[ch.tid], Step(phased, c, ch);
            var k, call, r := th.pc.index, th.calls[0], d.threads[ch.tid].results;
            && k < |c.fate| && c.fate[k].Taken?
            && (d.fate[k].Lost? <==> call.room < call.size)
            && (d.fate[k] == Given(|c.given|) <==> call.room >= call.size)
            && |r| > 0 && (r[|r| - 1].ret == -EFAULT <==> call.room < call.size)
            && |d.fate| == |c.fate| && forall j :: 0 <= j < |c.fate| && j != k ==> d.fate[j] == c.fate[j]
  {
    StepperMoves(phased, c, ch);
  }

  predicate Settled(f: Fate) {
    f.Overwritten? || f.Lost? || f.Given?
  }

  /** A settled message stays as it is, one in hand stays in hand until its reader returns. */
  lemma FatesAreFinal(phased: bool, c: Config, ch: Choice, k: nat)
    requires Ok(c) && Ledger(c) && OneTaker(c) && Enabled(phased, c, ch) && k < |c.fate|
    ensures var d := Step(phased, c, ch);
            && k < |d.fate| && (Settled(c.fate[k]) ==> d.fate[k] == c.fate[k])
            && (c.fate[k].Taken? && d.fate[k] != c.fate[k] ==>
                  Reading(c.threads[ch.tid]) && c.threads[ch.tid].pc.index == k && d.threads[ch.tid].pc.Idle?)
  {
    var th := c.threads[ch.tid];
    StepperMoves(phased, c, ch);
    HandStep(phased, c, ch);
    if Reading(th) {
      assert Accounts(c.fate, c.given, c.have, Some(th.pc.index));
    }
  }

  /** A read of this thread has failed to copy out, among its results from the `from`-th on. */
  predicate Faulted(th: Thread, from: nat) {
    exists i :: from <= i < |th.results| && th.results[i].ret == -EFAULT
  }

  predicate SomeLost(fate: seq<Fate>) {
    exists k :: 0 <= k < |fate| && fate[k].Lost?
  }

  ghost predicate SomeFaulted(c: Config, base: seq<Thread>) {
    exists t :: 0 <= t < |base| && t < |c.threads| && Faulted(c.threads[t], |base[t].results|)
  }

  /** Messages have been lost if and only if reads have failed. */
  ghost predicate LostByFaults(c: Config, base: seq<Thread>) {
    && |base| == |c.threads| && (forall t :: 0 <= t < |base| ==> |base[t].results| <= |c.threads[t].results|)
    && (SomeLost(c.fate) <==> SomeFaulted(c, base))
  }

  /** The step is a read's failing. */
  predicate Fails(th: Thread) {
    th.pc.CopyOut? && th.calls != [] && th.calls[0].Read? && th.calls[0].room < th.calls[0].size
  }

  lemma FailsLoses(phased: bool, c: Config, ch: Choice)
    requires Ok(c) && Ledger(c) && OneTaker(c) && Enabled(phased, c, ch)
    ensures SomeLost(Step(phased, c, ch).fate) <==> SomeLost(c.fate) || Fails(c.threads[ch.tid])
  {
    var th, d := c.threads[ch.tid], Step(phased, c, ch);
    if Fails(th) {
      TakenSettles(phased, c, ch);
      assert d.fate[th.pc.index].Lost?;
    } else {
      forall k | 0 <= k < |c.fate|
        ensures k < |d.fate| && (d.fate[k].Lost? <==> c.fate[k].Lost?)
      {
        FatesAreFinal(phased, c, ch, k);
      }
      assert forall k :: |c.fate| <= k < |d.fate| ==> d.fate[k].Pending?;
      if k :| 0 <= k < |c.fate| && c.fate[k].Lost? {
        assert d.fate[k].Lost?;
      }
    }
  }

  lemma FaultStep(phased: bool, c: Config, ch: Choice, t: nat, from: nat)
    requires Ok(c) && Enabled(phased, c, ch) && t < |c.threads| && from <= |c.threads[t].results|
    ensures |c.threads[t].results| <= |Step(phased, c, ch).threads[t].results|
    ensures Faulted(Step(phased, c, ch).threads[t], from)
            <==> Faulted(c.threads[t], from) || (t == ch.tid && Fails(c.threads[t]))
  {
    StepperMoves(phased, c, ch);
    if t != ch.tid {
      OthersKeep(phased, c, ch, t);
    } else {
      var was, now := c.threads[t].results, Local(c, c.threads[t]).results;
      assert forall i :: 0 <= i < |was| ==> now[i] == was[i];
      if Fails(c.threads[t]) {
        assert now[|was|].ret == -EFAULT;
      }
      if i :| from <= i < |was| && was[i].ret == -EFAULT {
        assert now[i].ret == -EFAULT;
      }
    }
  }

  lemma LostStep(phased: bool, c: Config, ch: Choice, base: seq<Thread>)
    requires Ok(c) && Ledger(c) && OneTaker(c) && Enabled(phased, c, ch) && LostByFaults(c, base)
    ensures LostByFaults(Step(phased, c, ch), base)
  {
    var d := Step(phased, c, ch);
    FailsLoses(phased, c, ch);
    forall t | 0 <= t < |base|
      ensures |base[t].results| <= |d.threads[t].results|
      ensures Faulted(d.threads[t], |base[t].results|)
              <==> Faulted(c.threads[t], |base[t].results|) || (t == ch.tid && Fails(c.threads[t]))
    {
      FaultStep(phased, c, ch, t, |base[t].results|);
    }
    if Fails(c.threads[ch.tid]) {
      assert Faulted(d.threads[ch.tid], |base[ch.tid].results|);
    }
    if t :| 0 <= t < |base| && Faulted(c.threads[t], |base[t].results|) {
      assert Faulted(d.threads[t], |base[t].results|);
    }
  }

  lemma StartLost(c: Config)
    requires Start(c)
    ensures Ledger(c) && OneTaker(c) && LostByFaults(c, c.threads)
  {
  }

  /** If every read has a buffer that can take what it asks for, nothing is ever lost. */
  ghost predicate AllWhole(c: Config) {
    forall t, i :: 0 <= t < |c.threads| && 0 <= i < |c.threads[t].calls| && c.threads[t].calls[i].Read? ==>
                     Whole(c.threads[t].calls[i])
  }

  lemma {:induction false} NeverLost(phased: bool, c: Config, s: seq<Choice>)
    requires Ok(c) && AllWhole(c) && !SomeLost(c.fate) && Run(phased, c, s).Some?
    ensures !SomeLost(Run(phased, c, s).value.fate)
    decreases |s|
  {
    if s == [] {
    } else {
      var d, th := Step(phased, c, s[0]), c.threads[s[0].tid];
      assert Whole(th.calls[0]) || th.calls[0].Write?;
      forall k | 0 <= k < |d.fate|
        ensures !d.fate[k].Lost?
      {
        assert k < |c.fate| ==> !c.fate[k].Lost?;
      }
      WholeStep(phased, c, s[0]);
      NeverLost(phased, d, s[1..]);
    }
  }

  lemma WholeStep(phased: bool, c: Config, ch: Choice)
    requires Ok(c) && AllWhole(c) && Enabled(phased, c, ch)
    ensures AllWhole(Step(phased, c, ch))
  {
    var d := Step(phased, c, ch);
    StepperMoves(phased, c, ch);
    forall t, i | 0 <= t < |d.threads| && 0 <= i < |d.threads[t].calls| && d.threads[t].calls[i].Read?
      ensures Whole(d.threads[t].calls[i])
    {
      if t != ch.tid {
        OthersKeep(phased, c, ch, t);
      }
      var calls := c.threads[t].calls;
      assert d.threads[t].calls[i] == calls[i + |calls| - |d.threads[t].calls|];
    }
  }

  // ---- counting --------------------------------------------------------------------------------

  function Count(fate: seq<Fate>, f: Fate): nat {
    if fate == [] then 0 else Count(fate[..|fate| - 1], f) + if fate[|fate| - 1] == f then 1 else 0
  }

  /** Among the first `k` messages, `g` were delivered. */
  lemma {:induction false} CountTo(fate: seq<Fate>, given: seq<Delivery>, have: bool, hand: Option<nat>, k: nat)
    returns (g: nat)
    requires Accounts(fate, given, have, hand) && k <= |fate|
    ensures g <= |given|
    ensures k == g + Count(fate[..k], Overwritten) + Count(fate[..k], Lost) + Count(fate[..k], Taken)
                 + Count(fate[..k], Pending)
    ensures forall n :: 0 <= n < |given| ==> (given[n].index < k <==> n < g)
    decreases k
  {
    if k == 0 {
      g := 0;
    } else {
      g := CountTo(fate, given, have, hand, k - 1);
      assert fate[..k][..k - 1] == fate[..k - 1];
      if fate[k - 1].Given? {
        var n := fate[k - 1].n;
        assert given[n].index == k - 1;
        var m := if g < |given| then g else n;
        var x, y := given[m].index, given[n].index;
        assert m < n ==> x < y;
        assert n == g;
        g := g + 1;
      } else {
        assert forall n :: 0 <= n < |given| ==> fate[given[n].index] == Given(n);
      }
    }
  }

  /** At most one message is pending and at most one in hand. */
  lemma {:induction false} CountOpen(fate: seq<Fate>, given: seq<Delivery>, have: bool, hand: Option<nat>, k: nat)
    requires Accounts(fate, given, have, hand) && k <= |fate|
    ensures Count(fate[..k], Taken) == if hand.Some? && hand.value < k then 1 else 0
    ensures Count(fate[..k], Pending) == if have && |fate| == k then 1 else 0
    decreases k
  {
    if k == 0 {
    } else {
      CountOpen(fate, given, have, hand, k - 1);
      assert fate[..k][..k - 1] == fate[..k - 1];
    }
  }

  lemma AllGivenBefore(fate: seq<Fate>, given: seq<Delivery>, have: bool, hand: Option<nat>, g: nat)
    requires Accounts(fate, given, have, hand) && g <= |given|
    requires forall n :: 0 <= n < |given| ==> (given[n].index < |fate| <==> n < g)
    ensures g == |given|
  {
    if given != [] {
      var m := if g < |given| then g else 0;
      assert given[m].index < |fate|;
    }
  }

  lemma CountAll(fate: seq<Fate>, given: seq<Delivery>, have: bool, hand: Option<nat>)
    requires Accounts(fate, given, have, hand)
    ensures |fate| == |given| + Count(fate, Overwritten) + Count(fate, Lost)
                      + (if hand.Some? then 1 else 0) + (if have then 1 else 0)
  {
    var g := CountTo(fate, given, have, hand, |fate|);
    CountOpen(fate, given, have, hand, |fate|);
    AllGivenBefore(fate, given, have, hand, g);
    assert fate[..|fate|] == fate;
  }

  /** Published = delivered + overwritten before a read + lost + in hand + pending. */
  ghost predicate Conserved(c: Config) {
    |c.log| == |c.given| + Count(c.fate, Overwritten) + Count(c.fate, Lost)
               + (if SomeReading(c) then 1 else 0) + (if c.have then 1 else 0)
  }

  lemma LedgerConserves(c: Config)
    requires Ledger(c)
    ensures Conserved(c)
  {
    if t :| 0 <= t < |c.threads| && Reading(c.threads[t]) {
      CountAll(c.fate, c.given, c.have, Some(c.threads[t].pc.index));
    } else {
      CountAll(c.fate, c.given, c.have, None);
    }
  }
}
