/** When the final memory depends on the schedule. */
module Races {
  import opened Bytes
  import opened Threads
  import opened Unlocked

  /** No cell has two threads with different last bytes for it. */
  ghost predicate Agree(locked: bool, c: Config)
    requires Inv(locked, c)
  {
    forall x, t, u :: 0 <= x < |c.mem| && 0 <= t < |c.threads| && 0 <= u < |c.threads|
                      && Final(locked, c, t, x).Some? && Final(locked, c, u, x).Some?
                      ==> Final(locked, c, t, x) == Final(locked, c, u, x)
  }

  /** The threads write pairwise disjoint ranges. */
  ghost predicate Disjoint(locked: bool, c: Config)
    requires Inv(locked, c)
  {
    forall x, t, u :: 0 <= x < |c.mem| && 0 <= t < |c.threads| && 0 <= u < |c.threads|
                      && Final(locked, c, t, x).Some? && Final(locked, c, u, x).Some?
                      ==> t == u
  }

  lemma CanEndUnique(locked: bool, c: Config, x: nat, a: byte, b: byte)
    requires Inv(locked, c) && Agree(locked, c) && x < |c.mem|
    requires CanEnd(locked, c, x, a) && CanEnd(locked, c, x, b)
    ensures a == b
  {
  }

  /** Confluence: when the threads' writes are disjoint, every complete run, with the lock or
      without it, ends in the same memory. */
  lemma DisjointIsConfluent(c: Config, l1: bool, s1: seq<Choice>, e1: Config,
                            l2: bool, s2: seq<Choice>, e2: Config)
    requires Quiet(c) && Inv(l1, c) && Inv(l2, c)
    requires Agree(l1, c) || Disjoint(l1, c)
    requires Finishes(l1, c, s1, e1) && Finishes(l2, c, s2, e2)
    ensures e1.mem == e2.mem
  {
    EndsAsPlanned(l1, c, s1, e1);
    EndsAsPlanned(l2, c, s2, e2);
    assert Agree(l1, c);
    forall x | 0 <= x < |c.mem|
      ensures e1.mem[x] == e2.mem[x]
    {
      CanEndInBoth(c, l1, l2, x, e2.mem[x]);
      CanEndUnique(l1, c, x, e1.mem[x], e2.mem[x]);
    }
  }

  lemma CanEndInBoth(c: Config, l1: bool, l2: bool, x: nat, b: byte)
    requires Inv(l1, c) && Inv(l2, c) && x < |c.mem| && CanEnd(l2, c, x, b)
    ensures CanEnd(l1, c, x, b)
  {
    if t :| 0 <= t < |c.threads| && Final(l2, c, t, x) == Some(b) {
      assert Final(l1, c, t, x) == Some(b);
    } else {
      assert forall t :: 0 <= t < |c.threads| ==> Final(l1, c, t, x) == Final(l2, c, t, x);
    }
  }

  /** Somebody can step without thread `t`, if there is anybody else left and `t` does not hold
      the lock. */
  lemma OtherCanStep(locked: bool, c: Config, t: nat, u: nat) returns (v: nat)
    requires Inv(locked, c) && t < |c.threads| && !Inside(c.threads[t])
    requires u < |c.threads| && u != t && !Done(c.threads[u])
    ensures v != t && Enabled(locked, c, v)
  {
    v := u;
    if !Enabled(locked, c, u) {
      v := c.lock.value;
    }
  }

  /** When only thread `t` is left, its last bytes are what stays. */
  lemma LeftAlone(locked: bool, c: Config, t: nat, x: nat, b: byte) returns (s: seq<Choice>, e: Config)
    requires Inv(locked, c) && t < |c.threads| && x < |c.mem| && Final(locked, c, t, x) == Some(b)
    requires forall u :: 0 <= u < |c.threads| && u != t ==> Done(c.threads[u])
    ensures Finishes(locked, c, s, e) && e.mem[x] == b
  {
    s, e := CanFinish(locked, c);
    EndsAsPlanned(locked, c, s, e);
    assert CanEnd(locked, c, x, e.mem[x]);
    forall u | 0 <= u < |c.threads| && u != t
      ensures Final(locked, c, u, x) == None
    {
      DoneHasNoPlan(|c.mem|, c.threads[u]);
    }
  }

  /** A thread that is not between lock and unlock can have the last word on a cell: let all the
      others finish first. */
  lemma {:induction false} LastWins(locked: bool, c: Config, t: nat, x: nat, b: byte)
    returns (s: seq<Choice>, e: Config)
    requires Inv(locked, c) && t < |c.threads| && !Inside(c.threads[t]) && x < |c.mem|
    requires Final(locked, c, t, x) == Some(b)
    ensures Finishes(locked, c, s, e) && e.mem[x] == b
    decreases Measure(locked, c)
  {
    if u :| 0 <= u < |c.threads| && u != t && !Done(c.threads[u]) {
      var v := OtherCanStep(locked, c, t, u);
      var ch := Choice(v, 0);
      StepFinals(locked, c, ch, x);
      StepDecreases(locked, c, ch);
      var rest;
      rest, e := LastWins(locked, Step(locked, c, ch), t, x, b);
      RunCons(locked, c, ch, rest);
      s := [ch] + rest;
    } else {
      s, e := LeftAlone(locked, c, t, x, b);
    }
  }

  /** For any threads and any calls, seeks included, and with or without the mutex: the final
      memory is independent of the schedule if and only if the threads agree on every cell they
      share.  The mutex makes no difference to that. */
  lemma ScheduleMattersExactly(locked: bool, c: Config)
    requires Quiet(c) && Inv(locked, c)
    ensures (forall m1, m2 :: Outcome(locked, c, m1) && Outcome(locked, c, m2) ==> m1 == m2) <==> Agree(locked, c)
  {
    if Agree(locked, c) {
      forall m1, m2 | Outcome(locked, c, m1) && Outcome(locked, c, m2)
        ensures m1 == m2
      {
        var s1, e1 :| Finishes(locked, c, s1, e1) && e1.mem == m1;
        var s2, e2 :| Finishes(locked, c, s2, e2) && e2.mem == m2;
        DisjointIsConfluent(c, locked, s1, e1, locked, s2, e2);
      }
    } else {
      var x, t, u :| 0 <= x < |c.mem| && 0 <= t < |c.threads| && 0 <= u < |c.threads|
                     && Final(locked, c, t, x).Some? && Final(locked, c, u, x).Some?
                     && Final(locked, c, t, x) != Final(locked, c, u, x);
      var s1, e1 := LastWins(locked, c, t, x, Final(locked, c, t, x).value);
      var s2, e2 := LastWins(locked, c, u, x, Final(locked, c, u, x).value);
      assert Outcome(locked, c, e1.mem) && Outcome(locked, c, e2.mem) && e1.mem[x] != e2.mem[x];
    }
  }
}
