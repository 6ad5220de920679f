/** What the calls of the mailbox return.

    A read returns what is on record for it, or one of two errors.  A write returns the shared
    length, which is its own message's unless somebody has zeroed or rewritten it meanwhile. */
module MailboxReturns {
  import opened Bytes
  import opened Mailbox
  import opened MailboxLedger
  import opened MailboxDelivery
  import opened MailboxOverlap

  // ---- which step returns ----------------------------------------------------------------------

  /** Nobody else's step returns to a thread. */
  lemma ReturnIsOwn(phased: bool, c: Config, ch: Choice, t: nat)
    requires Ok(c) && Enabled(phased, c, ch) && t < |c.threads|
    requires Step(phased, c, ch).threads[t].results != c.threads[t].results
    ensures ch.tid == t
  {
    if t != ch.tid {
      OthersKeep(phased, c, ch, t);
    }
  }

  /** In state `d`, the next step `ch` returns `r` to thread `t` as its `i`-th result, for the first
      of `calls`. */
  ghost predicate ReturnsAt(phased: bool, d: Config, ch: Choice, t: nat, i: nat, r: Result, calls: seq<Call>) {
    && Ok(d) && Enabled(phased, d, ch) && ch.tid == t
    && |d.threads[t].results| == i && d.threads[t].calls == calls
    && Local(d, d.threads[t]).results == d.threads[t].results + [r]
  }

  lemma FirstReturns(phased: bool, c: Config, ch: Choice, t: nat, i: nat)
    requires Ok(c) && Enabled(phased, c, ch) && t < |c.threads|
    requires |c.threads[t].results| <= i < |Step(phased, c, ch).threads[t].results|
    ensures ReturnsAt(phased, c, ch, t, i, Step(phased, c, ch).threads[t].results[i], c.threads[t].calls)
    ensures i == |c.threads[t].results|
  {
    StepperMoves(phased, c, ch);
    ReturnIsOwn(phased, c, ch, t);
  }

  lemma PrefixOn(phased: bool, c: Config, s: seq<Choice>, k: nat)
    requires Ok(c) && s != [] && Enabled(phased, c, s[0]) && 0 < k <= |s|
    ensures Run(phased, c, s[..k]) == Run(phased, Step(phased, c, s[0]), s[1..][..k - 1])
  {
    assert s[..k][0] == s[0] && s[..k][1..] == s[1..][..k - 1];
  }

  lemma ResultStays(phased: bool, c: Config, s: seq<Choice>, e: Config, t: nat, i: nat)
    requires Ok(c) && Run(phased, c, s) == Some(e) && t < |c.threads| && i < |c.threads[t].results|
    ensures t < |e.threads| && i < |e.threads[t].results| && e.threads[t].results[i] == c.threads[t].results[i]
  {
    var _, r := DeliveriesRecorded(phased, c, s, e, t);
  }

  lemma CallsOn(phased: bool, c: Config, ch: Choice, t: nat, i: nat) returns (m: nat)
    requires Ok(c) && Enabled(phased, c, ch) && t < |c.threads|
    ensures |Step(phased, c, ch).threads[t].results| == |c.threads[t].results| + m && m <= |c.threads[t].calls|
    ensures Step(phased, c, ch).threads[t].calls == c.threads[t].calls[m..]
  {
    var _, r := StepRecords(phased, c, ch, t);
    m := |r|;
  }

  /** `k` steps of the run lead to `d`, from where the next returns `r` to thread `t` as its `i`-th
      result, for the call it belongs to. */
  ghost predicate ReturnedBy(phased: bool, c: Config, s: seq<Choice>, t: nat, i: nat, r: Result, k: nat, d: Config)
    requires Ok(c) && t < |c.threads| && |c.threads[t].results| <= i
  {
    var n := i - |c.threads[t].results|;
    && k < |s| && Run(phased, c, s[..k]) == Some(d) && n <= |c.threads[t].calls|
    && ReturnsAt(phased, d, s[k], t, i, r, c.threads[t].calls[n..])
  }

  lemma CallsFrom(calls: seq<Call>, m: nat, n: nat)
    requires m <= |calls| && m <= n <= |calls|
    ensures calls[m..][n - m..] == calls[n..]
  {
  }

  lemma ReturnedLater(phased: bool, c: Config, s: seq<Choice>, t: nat, i: nat, r: Result, k: nat, d: Config)
    requires Ok(c) && t < |c.threads| && s != [] && Enabled(phased, c, s[0])
    requires |Step(phased, c, s[0]).threads[t].results| <= i
    requires ReturnedBy(phased, Step(phased, c, s[0]), s[1..], t, i, r, k, d)
    ensures |c.threads[t].results| <= i && ReturnedBy(phased, c, s, t, i, r, k + 1, d)
  {
    var m := CallsOn(phased, c, s[0], t, i);
    PrefixOn(phased, c, s, k + 1);
    var n := i - |c.threads[t].results|;
    CallsFrom(c.threads[t].calls, m, n);
    assert s[1..][k] == s[k + 1];
  }

  lemma ReturnedNow(phased: bool, c: Config, s: seq<Choice>, e: Config, t: nat, i: nat)
    requires Ok(c) && Run(phased, c, s) == Some(e) && s != [] && t < |c.threads| && t < |e.threads|
    requires |c.threads[t].results| <= i < |Step(phased, c, s[0]).threads[t].results|
    ensures i < |e.threads[t].results| && ReturnedBy(phased, c, s, t, i, e.threads[t].results[i], 0, c)
  {
    assert s[..0] == [];
    FirstReturns(phased, c, s[0], t, i);
    ResultStays(phased, Step(phased, c, s[0]), s[1..], e, t, i);
    assert c.threads[t].calls[0..] == c.threads[t].calls;
  }

  /** Each result of a run was returned by a step of it, which is the thread's own. */
  lemma {:induction false} ReturningStep(phased: bool, c: Config, s: seq<Choice>, e: Config, t: nat, i: nat)
    returns (k: nat, d: Config)
    requires Ok(c) && Run(phased, c, s) == Some(e) && t < |c.threads| && t < |e.threads|
    requires |c.threads[t].results| <= i < |e.threads[t].results|
    ensures ReturnedBy(phased, c, s, t, i, e.threads[t].results[i], k, d)
    decreases |s|
  {
    var d1 := Step(phased, c, s[0]);
    if i < |d1.threads[t].results| {
      ReturnedNow(phased, c, s, e, t, i);
      k, d := 0, c;
    } else {
      k, d := ReturningStep(phased, d1, s[1..], e, t, i);
      ReturnedLater(phased, c, s, t, i, e.threads[t].results[i], k, d);
      k := k + 1;
    }
  }

  // ---- what a read returns -----------------------------------------------------------------------

  /** The read is refused: it does not block and its test has found the flag down. */
  predicate IsRefused(d: Config, th: Thread, r: Result) {
    th.pc.Check? && !d.have && th.calls != [] && th.calls[0].Read? && th.calls[0].nonblock && r == Result(-11, [])
  }

  /** The read fails: its buffer is too short, and is filled as far as it goes. */
  predicate IsShort(d: Config, th: Thread, r: Result) {
    && th.pc.CopyOut? && th.calls != [] && th.calls[0].Read? && th.calls[0].room < th.calls[0].size
    && r.ret == -14 && |d.buf| == CAPACITY && th.calls[0].size <= CAPACITY && r.data == d.buf[..th.calls[0].room]
  }

  /** The read succeeds, with what is then on record for it. */
  predicate IsDelivered(d: Config, d': Config, t: nat, th: Thread, r: Result) {
    && th.pc.Zero? && th.calls != [] && Whole(th.calls[0]) && r.ret >= 0 && |r.data| == th.calls[0].size
    && d'.given == d.given + [Delivery(t, th.pc.index, th.calls[0].size, r)]
  }

  lemma ReadReturnsStep(phased: bool, d: Config, ch: Choice, t: nat, i: nat, r: Result, calls: seq<Call>)
    requires ReturnsAt(phased, d, ch, t, i, r, calls) && calls[0].Read?
    ensures var th, d' := d.threads[t], Step(phased, d, ch);
            || (IsRefused(d, th, r) && d'.given == d.given)
            || (IsShort(d, th, r) && d'.given == d.given)
            || IsDelivered(d, d', t, th, r)
  {
    StepperMoves(phased, d, ch);
    var th := d.threads[t];
    var after := Local(d, th).results;
    assert after[|after| - 1] == r;
  }

  /** Every result of a read, in any run with any schedule, is that of a refusal, a failure or a
      recorded delivery, and -11 only of a read that does not block, -14 only of one with too short
      a buffer. */
  lemma ReadReturns(phased: bool, c: Config, s: seq<Choice>, e: Config, t: nat, i: nat) returns (k: nat, d: Config)
    requires Ok(c) && Run(phased, c, s) == Some(e) && t < |c.threads| && t < |e.threads|
    requires |c.threads[t].results| <= i < |e.threads[t].results|
    requires i - |c.threads[t].results| < |c.threads[t].calls| ==> c.threads[t].calls[i - |c.threads[t].results|].Read?
    ensures k < |s| && Run(phased, c, s[..k]) == Some(d) && t < |d.threads| && s[k].tid == t
    ensures Ok(d) && Enabled(phased, d, s[k]) && i - |c.threads[t].results| < |c.threads[t].calls|
    ensures var th, d', r := d.threads[t], Step(phased, d, s[k]), e.threads[t].results[i];
            var call := c.threads[t].calls[i - |c.threads[t].results|];
            && th.calls != [] && th.calls[0] == call
            && (r.ret == -11 <==> IsRefused(d, th, r)) && (r.ret == -11 ==> call.nonblock)
            && (r.ret == -14 <==> IsShort(d, th, r)) && (r.ret == -14 ==> call.room < call.size)
            && (r.ret != -11 && r.ret != -14 ==> IsDelivered(d, d', t, th, r))
  {
    k, d := ReturningStep(phased, c, s, e, t, i);
    var n := i - |c.threads[t].results|;
    var calls := c.threads[t].calls[n..];
    assert calls != [];
    assert calls[0] == c.threads[t].calls[n];
    ReadReturnsStep(phased, d, s[k], t, i, e.threads[t].results[i], calls);
  }

  /** With the phases kept apart, what a failed read has put in its buffer is the front of the
      message it has lost. */
  lemma ShortIsFront(d: Config, th: Thread, r: Result, t: nat)
    requires Inv(d) && t < |d.threads| && th == d.threads[t] && IsShort(d, th, r)
    ensures d.log != [] && |r.data| == th.calls[0].room
    ensures var msg := d.log[|d.log| - 1]; forall x :: 0 <= x < |r.data| && x < |msg| ==> r.data[x] == msg[x]
  {
    assert PhaseOk(d, th);
    var msg := d.log[|d.log| - 1];
    forall x | 0 <= x < |r.data| && x < |msg|
      ensures r.data[x] == msg[x]
    {
      assert d.buf[..|msg|][x] == d.buf[x];
    }
  }

  // ---- what a write returns: undisturbed ---------------------------------------------------------

  /** The step of another thread changes the shared length: a reader zeroes it, or a writer starts
      or copies. */
  predicate Disturbs(c: Config, ch: Choice, t: nat) {
    && ch.tid != t && ch.tid < |c.threads|
    && (var th := c.threads[ch.tid];
        th.pc.Zero? || th.pc.CopyIn? || (th.pc.Idle? && th.calls != [] && th.calls[0].Write?))
  }

  ghost predicate Undisturbed(phased: bool, c: Config, s: seq<Choice>, t: nat)
    requires Ok(c) && Run(phased, c, s).Some?
    decreases |s|
  {
    s == [] || (!Disturbs(c, s[0], t) && Undisturbed(phased, Step(phased, c, s[0]), s[1..], t))
  }

  /** The thread is in a write, and the length is as that write has left it. */
  predicate Minds(c: Config, t: nat, msg: seq<byte>) {
    && t < |c.threads| && c.threads[t].calls != [] && c.threads[t].calls[0] == Write(msg)
    && match c.threads[t].pc
       case Idle => true
       case CopyIn(i) => c.len == i <= |msg|
       case Wake => c.len == |msg|
       case Delay => c.len == |msg|
       case _ => false
  }

  lemma MindsStep(phased: bool, c: Config, ch: Choice, t: nat, msg: seq<byte>)
    requires Ok(c) && Enabled(phased, c, ch) && Minds(c, t, msg) && !Disturbs(c, ch, t)
    ensures var th, d := c.threads[t], Step(phased, c, ch);
            if ch.tid == t && th.pc.Delay? then d.threads[t].results == th.results + [Result(|msg|, [])]
            else Minds(d, t, msg) && d.threads[t].results == th.results
  {
    StepperMoves(phased, c, ch);
    if ch.tid != t {
      OthersKeep(phased, c, ch, t);
    }
  }

  /** With any schedule: if from the start of a write to its return no other thread zeroes or
      rewrites the length, the write returns the length of its message. */
  lemma {:induction false} WriteReturnsAll(phased: bool, c: Config, s: seq<Choice>, e: Config, t: nat, msg: seq<byte>)
    requires Ok(c) && Run(phased, c, s) == Some(e) && t < |e.threads|
    requires Minds(c, t, msg) && Undisturbed(phased, c, s, t)
    ensures var n := |c.threads[t].results|;
            n < |e.threads[t].results| ==> e.threads[t].results[n] == Result(|msg|, [])
    decreases |s|
  {
    if s == [] {
    } else {
      var d := Step(phased, c, s[0]);
      MindsStep(phased, c, s[0], t, msg);
      if s[0].tid == t && c.threads[t].pc.Delay? {
        ResultStays(phased, d, s[1..], e, t, |c.threads[t].results|);
      } else {
        WriteReturnsAll(phased, d, s[1..], e, t, msg);
      }
    }
  }

  // ---- what a write returns: phased ----------------------------------------------------------------

  ghost predicate SomeCopying(c: Config) {
    exists t :: 0 <= t < |c.threads| && c.threads[t].pc.CopyIn?
  }

  /** The length is that of the latest message, or 0 if it has been delivered. */
  predicate LengthOf(len: nat, fate: seq<Fate>, log: seq<seq<byte>>) {
    log != [] && |fate| == |log| ==> len == if fate[|fate| - 1].Given? then 0 else |log[|log| - 1]|
  }

  /** What the shared length is while nobody copies in. */
  ghost predicate LengthIs(c: Config) {
    !SomeCopying(c) ==> LengthOf(c.len, c.fate, c.log)
  }

  lemma CopyingStep(c: Config, ch: Choice)
    requires Inv(c) && Enabled(true, c, ch)
    ensures var th, d := c.threads[ch.tid], Step(true, c, ch);
            !SomeCopying(d) ==> !Local(c, th).pc.CopyIn? && (th.pc.CopyIn? || !SomeCopying(c))
  {
    var th, d := c.threads[ch.tid], Step(true, c, ch);
    StepperMoves(true, c, ch);
    if !SomeCopying(d) {
      assert !d.threads[ch.tid].pc.CopyIn?;
      forall u | 0 <= u < |c.threads| && u != ch.tid
        ensures !c.threads[u].pc.CopyIn?
      {
        OthersStay(c, ch, u);
        assert !d.threads[u].pc.CopyIn?;
      }
    }
  }

  lemma LengthStep(c: Config, ch: Choice)
    requires Inv(c) && Enabled(true, c, ch) && LengthIs(c)
    ensures LengthIs(Step(true, c, ch))
  {
    CopyingStep(c, ch);
    LengthLocal(c, ch.tid);
  }

  /** The readers' steps that settle a message leave its fate known. */
  lemma ReadingLast(c: Config, t: nat)
    requires Inv(c) && t < |c.threads| && Reading(c.threads[t])
    ensures c.fate != [] && c.threads[t].pc.index == |c.fate| - 1 && c.fate[|c.fate| - 1].Taken?
  {
    assert PhaseOk(c, c.threads[t]);
    assert Accounts(c.fate, c.given, c.have, Some(c.threads[t].pc.index));
  }

  lemma LengthMoves(c: Config, t: nat, th: Thread)
    requires Ok(c) && ThreadOk(th) && !Done(th) && |c.fate| == |c.log|
    requires !Local(c, th).pc.CopyIn? && (th.pc.CopyIn? || LengthOf(c.len, c.fate, c.log))
    requires th.pc.CopyIn? ==> c.len == th.pc.i
    requires Reading(th) ==> c.fate != [] && th.pc.index == |c.fate| - 1 && c.fate[|c.fate| - 1].Taken?
    ensures var d := Shared(c, t, th); |d.fate| == |d.log| && LengthOf(d.len, d.fate, d.log)
  {
  }

  lemma LengthLocal(c: Config, t: nat)
    requires Inv(c) && t < |c.threads| && !Done(c.threads[t]) && LengthIs(c)
    ensures var th, d := c.threads[t], Shared(c, t, c.threads[t]);
            !Local(c, th).pc.CopyIn? && (th.pc.CopyIn? || !SomeCopying(c)) ==>
              |d.fate| == |d.log| && LengthOf(d.len, d.fate, d.log)
  {
    var th := c.threads[t];
    assert PhaseOk(c, th);
    if Reading(th) {
      ReadingLast(c, t);
    }
    if !Local(c, th).pc.CopyIn? && (th.pc.CopyIn? || !SomeCopying(c)) {
      LengthMoves(c, t, th);
    }
  }

  lemma LogGrows(c: Config, ch: Choice)
    requires Ok(c) && Enabled(true, c, ch)
    ensures c.log <= Step(true, c, ch).log
  {
  }

  lemma {:induction false} LengthRun(c: Config, s: seq<Choice>, e: Config)
    requires Inv(c) && LengthIs(c) && Run(true, c, s) == Some(e)
    ensures Inv(e) && LengthIs(e) && c.log <= e.log
    decreases |s|
  {
    if s == [] {
    } else {
      PhaseStep(c, s[0]);
      HistoryStep(c, s[0]);
      LengthStep(c, s[0]);
      LogGrows(c, s[0]);
      LengthRun(Step(true, c, s[0]), s[1..], e);
    }
  }

  lemma StartLength(c: Config)
    requires Start(c)
    ensures Inv(c) && LengthIs(c)
  {
    StartInv(c);
  }

  /** What the writer whose turn it is to return returns. */
  lemma ReturnsLength(d: Config, t: nat)
    requires Inv(d) && LengthIs(d) && t < |d.threads| && d.threads[t].pc.Delay?
    ensures var th, r := d.threads[t], Local(d, d.threads[t]).results;
            && r == th.results + [Result(d.len, [])]
            && (forall u :: 0 <= u < |d.threads| && d.threads[u].pc.CopyIn? ==> d.len == d.threads[u].pc.i)
            && (!SomeCopying(d) && d.log != [] ==>
                  d.len == if d.fate[|d.fate| - 1].Given? then 0 else |d.log[|d.log| - 1]|)
  {
    forall u | 0 <= u < |d.threads| && d.threads[u].pc.CopyIn?
      ensures d.len == d.threads[u].pc.i
    {
      assert PhaseOk(d, d.threads[u]);
    }
  }

  /** Between `p` and `d` no write has begun, and thread `t` is about to return. */
  lemma LatestReturns(p: Config, d: Config, t: nat)
    requires Inv(d) && LengthIs(d) && t < |d.threads| && d.threads[t].pc.Delay? && !SomeCopying(d)
    requires p.log != [] && d.log == p.log
    ensures var k := |p.log| - 1;
            && d.log[k] == p.log[k] && k < |d.fate| && (d.have ==> d.fate[k].Pending?)
            && Local(d, d.threads[t]).results
               == d.threads[t].results + [Result(if d.fate[k].Given? then 0 else |p.log[k]|, [])]
  {
    ReturnsLength(d, t);
    LedgerFates(d);
  }

  lemma LengthAt(c: Config, s: seq<Choice>, p: Config, s': seq<Choice>, d: Config)
    requires Start(c) && Run(true, c, s) == Some(p) && Run(true, p, s') == Some(d)
    ensures Inv(d) && LengthIs(d) && p.log <= d.log
  {
    StartLength(c);
    LengthRun(c, s, p);
    LengthRun(p, s', d);
  }

  /** With the phases kept apart, at any time: a write returns how far the write in its copy loop has
      got, if there is one, or else the length of the latest message, or 0 if that is delivered. */
  lemma WriteReturnsAt(c: Config, s: seq<Choice>, d: Config, t: nat) returns (ret: nat)
    requires Start(c) && Run(true, c, s) == Some(d) && t < |d.threads| && d.threads[t].pc.Delay?
    ensures Local(d, d.threads[t]).results == d.threads[t].results + [Result(ret, [])]
    ensures forall u :: 0 <= u < |d.threads| && d.threads[u].pc.CopyIn? ==> ret == d.threads[u].pc.i
    ensures d.log != [] && |d.fate| == |d.log|
    ensures !SomeCopying(d) ==> ret == if d.fate[|d.fate| - 1].Given? then 0 else |d.log[|d.log| - 1]|
  {
    LengthAt(c, s, d, [], d);
    ReturnsLength(d, t);
    PublishedRun(c, s, d);
    ret := d.len;
  }

  /** Writers past the publishing have published. */
  predicate Published(c: Config) {
    c.log == [] ==> forall t :: 0 <= t < |c.threads| ==> !c.threads[t].pc.Wake? && !c.threads[t].pc.Delay?
  }

  lemma PublishedOn(c: Config, ch: Choice)
    requires Ok(c) && Enabled(true, c, ch) && Published(c)
    ensures Published(Step(true, c, ch))
  {
  }

  lemma {:induction false} PublishedRun(c: Config, s: seq<Choice>, d: Config)
    requires Ok(c) && Published(c) && Run(true, c, s) == Some(d)
    ensures Published(d)
    decreases |s|
  {
    if s == [] {
    } else {
      PublishedOn(c, s[0]);
      PublishedRun(Step(true, c, s[0]), s[1..], d);
    }
  }

  /** With the phases kept apart: a write returns the length of its message, as long as no other
      write has begun since it was published, if and only if the message has not been delivered;
      if it has, the write returns 0 (which is the same for the empty message).  `p` is a state of
      a run right after the publishing, `d` one right before the return. */
  lemma WriteReturns(c: Config, s: seq<Choice>, p: Config, s': seq<Choice>, d: Config, t: nat)
    requires Start(c) && Run(true, c, s) == Some(p) && Run(true, p, s') == Some(d)
    requires t < |p.threads| && p.threads[t].pc.Wake? && p.threads[t].calls[0].Write?
    requires p.log != [] && p.log[|p.log| - 1] == p.threads[t].calls[0].msg
    requires d.threads[t].pc.Delay? && |d.log| == |p.log| && !SomeCopying(d)
    ensures var k, msg := |p.log| - 1, p.threads[t].calls[0].msg;
            && d.log[k] == msg && k < |d.fate| && (d.have ==> d.fate[k].Pending?)
            && Local(d, d.threads[t]).results
               == d.threads[t].results + [Result(if d.fate[k].Given? then 0 else |msg|, [])]
  {
    LengthAt(c, s, p, s', d);
    LatestReturns(p, d, t);
  }

  lemma LedgerFates(d: Config)
    requires Ledger(d)
    ensures d.have ==> d.fate != [] && d.fate[|d.fate| - 1].Pending?
  {
    if t :| 0 <= t < |d.threads| && Reading(d.threads[t]) {
      assert Accounts(d.fate, d.given, d.have, Some(d.threads[t].pc.index));
    }
  }
}
