/** Schedules of the mailbox put together from what one thread does at a time. */
module MailboxRuns {
  import opened Bytes
  import opened Mailbox

  /** A run extended by one step. */
  lemma {:induction false} RunSnoc(phased: bool, c: Config, s: seq<Choice>, d: Config, ch: Choice)
    requires Ok(c) && Run(phased, c, s) == Some(d) && Enabled(phased, d, ch)
    ensures Run(phased, c, s + [ch]) == Some(Step(phased, d, ch))
    decreases |s|
  {
    if s == [] {
      assert [] + [ch] == [ch] && [ch][1..] == [];
    } else {
      assert (s + [ch])[1..] == s[1..] + [ch];
      RunSnoc(phased, Step(phased, c, s[0]), s[1..], d, ch);
    }
  }

  ghost predicate Reached(phased: bool, c: Config, d: Config)
    requires Ok(c)
  {
    exists s :: Run(phased, c, s) == Some(d)
  }

  ghost function ReachedFrom(phased: bool, c: Config): Config -> bool
    requires Ok(c)
  {
    d => Reached(phased, c, d)
  }

  /** A set of states that no step leaves. */
  ghost predicate Closed(phased: bool, reach: Config -> bool) {
    forall d, ch | reach(d) && Ok(d) && Enabled(phased, d, ch) :: reach(Step(phased, d, ch))
  }

  lemma ReachedClosed(phased: bool, c: Config)
    requires Ok(c)
    ensures Closed(phased, ReachedFrom(phased, c)) && Reached(phased, c, c)
  {
    assert Run(phased, c, []) == Some(c);
    forall d, ch | Reached(phased, c, d) && Ok(d) && Enabled(phased, d, ch)
      ensures Reached(phased, c, Step(phased, d, ch))
    {
      var s :| Run(phased, c, s) == Some(d);
      RunSnoc(phased, c, s, d, ch);
    }
  }

  /** Thread `t` may step, and into a phase if it is about to. */
  predicate Free(phased: bool, d: Config, t: nat) {
    t < |d.threads| && !Done(d.threads[t]) && (phased ==> OthersOut(d, t))
  }

  /** Thread `t` has stepped and nobody has woken up. */
  predicate Moved(d: Config, d': Config, t: nat)
    requires Ok(d) && t < |d.threads| && !Done(d.threads[t])
  {
    d' == Shared(d, t, d.threads[t]).(threads := d.threads[t := Local(d, d.threads[t])])
  }

  lemma Next(phased: bool, reach: Config -> bool, d: Config, t: nat) returns (d': Config)
    requires Closed(phased, reach) && reach(d) && Ok(d) && Free(phased, d, t) && !d.threads[t].pc.Wake?
    ensures reach(d') && Ok(d') && Moved(d, d', t)
  {
    var ch := Choice(t, d.threads[t].pc.Sleep?);
    assert Enabled(phased, d, ch);
    d' := Step(phased, d, ch);
  }

  /** Only thread `t` has changed. */
  predicate OnlyMoves(d: Config, d': Config, t: nat) {
    |d'.threads| == |d.threads| && forall u :: 0 <= u < |d.threads| && u != t ==> d'.threads[u] == d.threads[u]
  }

  predicate SameSlot(d: Config, d': Config) {
    d'.buf == d.buf && d'.len == d.len
  }

  predicate SameHistory(d: Config, d': Config) {
    d'.log == d.log && d'.fate == d.fate && d'.given == d.given
  }

  // ---- a writer ----------------------------------------------------------------------------------

  /** A writer in its copy loop publishes. */
  lemma {:induction false} WriterPublishes(phased: bool, reach: Config -> bool, d: Config, w: nat) returns (d': Config)
    requires Closed(phased, reach) && reach(d) && Ok(d) && Free(phased, d, w) && d.threads[w].pc.CopyIn?
    requires var i, msg := d.threads[w].pc.i, d.threads[w].calls[0].msg; d.len == i && d.buf[..i] == msg[..i]
    ensures reach(d') && Ok(d') && d'.have && OnlyMoves(d, d', w) && d'.given == d.given
    ensures d'.threads[w] == d.threads[w].(pc := Wake)
    ensures d'.fate == Superseded(d.fate) + [Pending]
    ensures var msg := d.threads[w].calls[0].msg;
            d'.log == d.log + [msg] && d'.len == |msg| && d'.buf[..|msg|] == msg
    decreases |d.threads[w].calls[0].msg| - d.threads[w].pc.i
  {
    var i, msg := d.threads[w].pc.i, d.threads[w].calls[0].msg;
    var d1 := Next(phased, reach, d, w);
    if i < |msg| {
      assert d1.buf[..i + 1] == msg[..i + 1];
      d' := WriterPublishes(phased, reach, d1, w);
    } else {
      assert msg[..i] == msg;
      d' := d1;
    }
  }

  /** Nobody is asleep. */
  predicate Awake(d: Config) {
    forall u :: 0 <= u < |d.threads| ==> !d.threads[u].pc.Sleep?
  }

  lemma WakesNobody(phased: bool, reach: Config -> bool, d: Config, w: nat) returns (d': Config)
    requires Closed(phased, reach) && reach(d) && Ok(d) && Awake(d) && w < |d.threads| && d.threads[w].pc.Wake?
    ensures reach(d') && Ok(d') && Moved(d, d', w)
  {
    var ch := Choice(w, false);
    assert Enabled(phased, d, ch);
    d' := Step(phased, d, ch);
    assert d'.threads == d.threads[w := Local(d, d.threads[w])];
  }

  /** A whole write, with everybody else awake and outside. */
  lemma WriterWrites(phased: bool, reach: Config -> bool, d: Config, w: nat) returns (d': Config)
    requires Closed(phased, reach) && reach(d) && Ok(d) && Free(phased, d, w) && Awake(d)
    requires d.threads[w].pc.Idle? && d.threads[w].calls[0].Write?
    ensures reach(d') && Ok(d') && d'.have && OnlyMoves(d, d', w) && d'.given == d.given
    ensures d'.threads[w].pc.Idle? && d'.threads[w].calls == d.threads[w].calls[1..]
    ensures d'.fate == Superseded(d.fate) + [Pending]
    ensures d'.threads[w].results == d.threads[w].results + [Result(|d.threads[w].calls[0].msg|, [])]
    ensures var msg := d.threads[w].calls[0].msg;
            d'.log == d.log + [msg] && d'.len == |msg| && d'.buf[..|msg|] == msg
  {
    var d1 := Next(phased, reach, d, w);
    assert d1.buf[..0] == d1.threads[w].calls[0].msg[..0];
    var d2 := WriterPublishes(phased, reach, d1, w);
    var d3 := WakesNobody(phased, reach, d2, w);
    d' := Next(phased, reach, d3, w);
  }

  // ---- a reader ----------------------------------------------------------------------------------

  /** At a read call, before or at the clearing of the flag. */
  predicate Standing(th: Thread) {
    th.calls != [] && th.calls[0].Read? && (th.pc.Idle? || th.pc.Check? || th.pc.Wait? || th.pc.Sleep? || th.pc.Clear?)
  }

  /** With the flag up, a reader gets past the test. */
  lemma PassesTest(phased: bool, reach: Config -> bool, d: Config, t: nat) returns (d': Config)
    requires Closed(phased, reach) && reach(d) && Ok(d) && d.have && Free(phased, d, t) && Standing(d.threads[t])
    ensures reach(d') && Ok(d') && d'.have && OnlyMoves(d, d', t) && SameSlot(d, d') && SameHistory(d, d')
    ensures d'.threads[t] == d.threads[t].(pc := Clear)
  {
    d' := d;
    if !d'.threads[t].pc.Check? && !d'.threads[t].pc.Clear? {
      d' := Next(phased, reach, d', t);
    }
    if d'.threads[t].pc.Check? {
      d' := Next(phased, reach, d', t);
    }
  }

  /** A reader past the test, whose buffer is long enough, takes the latest message and copies it
      out, up to zeroing the length. */
  lemma CopiesOut(phased: bool, reach: Config -> bool, d: Config, t: nat) returns (d': Config)
    requires Closed(phased, reach) && reach(d) && Ok(d) && Free(phased, d, t) && d.threads[t].pc.Clear?
    requires Whole(d.threads[t].calls[0])
    ensures reach(d') && Ok(d') && !d'.have && OnlyMoves(d, d', t) && SameSlot(d, d')
    ensures d'.threads[t] == d.threads[t].(pc := Zero(Last(d), d.buf[..d.threads[t].calls[0].size], d.len))
    ensures d'.log == d.log && d'.given == d.given && |d'.fate| == |d.fate|
  {
    var d1 := Next(phased, reach, d, t);
    var d2 := Next(phased, reach, d1, t);
    d' := Next(phased, reach, d2, t);
  }

  /** And returns, which is one more delivery. */
  lemma ReaderReturns(phased: bool, reach: Config -> bool, d: Config, t: nat) returns (d': Config)
    requires Closed(phased, reach) && reach(d) && Ok(d) && Free(phased, d, t) && d.threads[t].pc.Zero?
    ensures reach(d') && Ok(d') && d'.have == d.have && OnlyMoves(d, d', t) && d'.log == d.log
    ensures d'.threads[t].pc.Idle? && d'.threads[t].calls == d.threads[t].calls[1..]
    ensures var pc := d.threads[t].pc;
            d'.given == d.given + [Delivery(t, pc.index, d.threads[t].calls[0].size, Result(pc.len, pc.got))]
  {
    d' := Next(phased, reach, d, t);
  }

  /** A reader past the test whose buffer is too short fails. */
  lemma ReaderFails(phased: bool, reach: Config -> bool, d: Config, t: nat) returns (d': Config)
    requires Closed(phased, reach) && reach(d) && Ok(d) && Free(phased, d, t) && d.threads[t].pc.Clear?
    requires !Whole(d.threads[t].calls[0])
    ensures reach(d') && Ok(d') && !d'.have && OnlyMoves(d, d', t) && SameSlot(d, d')
    ensures d'.log == d.log && d'.given == d.given && d'.fate == LoseAt(Claimed(d.fate), Last(d))
    ensures d'.threads[t] == Return(d.threads[t], Result(-EFAULT, d.buf[..d.threads[t].calls[0].room]))
  {
    var d1 := Next(phased, reach, d, t);
    d' := Next(phased, reach, d1, t);
  }

  // ---- a lost message ----------------------------------------------------------------------------

  lemma LostFrom(reach: Config -> bool, c: Config, w: nat, t: nat) returns (e: Config)
    requires Closed(true, reach) && reach(c) && Start(c) && w < |c.threads| && t < |c.threads|
    requires c.threads[w].calls != [] && c.threads[w].calls[0].Write?
    requires c.threads[t].calls != [] && c.threads[t].calls[0].Read? && !Whole(c.threads[t].calls[0])
    ensures reach(e) && !e.have && e.log == [c.threads[w].calls[0].msg] && e.fate == [Lost] && e.given == []
    ensures |e.threads| == |c.threads|
    ensures var r, call := e.threads[t].results, c.threads[t].calls[0];
            && r != [] && r[|r| - 1].ret == -EFAULT && |r[|r| - 1].data| == call.room
    ensures e.len == |c.threads[w].calls[0].msg|
  {
    var d1 := WriterWrites(true, reach, c, w);
    assert d1.threads[t] == c.threads[t];
    var d2 := PassesTest(true, reach, d1, t);
    e := ReaderFails(true, reach, d2, t);
  }

  /** In any program where a write comes first in one thread and in another a read into a buffer
      that is too short, a schedule in which no two phases overlap loses the message: the reader
      fails, the flag is down, and nobody has been given anything. */
  lemma MessageLost(c: Config, w: nat, t: nat) returns (e: Config)
    requires Start(c) && w < |c.threads| && t < |c.threads|
    requires c.threads[w].calls != [] && c.threads[w].calls[0].Write?
    requires c.threads[t].calls != [] && c.threads[t].calls[0].Read? && !Whole(c.threads[t].calls[0])
    ensures Reached(true, c, e) && |e.threads| == |c.threads|
    ensures !e.have && e.log == [c.threads[w].calls[0].msg] && e.fate == [Lost] && e.given == []
    ensures var r, call := e.threads[t].results, c.threads[t].calls[0];
            && r != [] && r[|r| - 1].ret == -EFAULT && |r[|r| - 1].data| == call.room
    ensures e.len == |c.threads[w].calls[0].msg|
  {
    ReachedClosed(true, c);
    e := LostFrom(ReachedFrom(true, c), c, w, t);
  }
}
