/** Without the mutex: exactly which memories a run can end in, cell by cell, and when the cells
    end independently of each other.

    A cell ends as some thread's last byte there.  Which thread that is can be chosen cell by cell
    unless program order ties the choices together: a winner that makes its last store at `x`
    before its last store at `y` has `x` decided before `y` is.  A choice of winners can be brought
    about exactly when that order has no cycle. */
module CellOrder {
  import opened Bytes
  import opened SharedMemory
  import opened Threads
  import opened Unlocked
  import opened Traces
  import opened Cycles

  // ---- who has the last word -----------------------------------------------------------------

  /** Who makes the last store at `x` in a trace. */
  function LastTid(trace: seq<Event>, x: nat): Option<nat> {
    if trace == [] then None
    else
      var later := LastTid(trace[1..], x);
      if later.Some? then later
      else if trace[0].store.addr == x then Some(trace[0].tid) else None
  }

  lemma LastCons(st: ByteStore, rest: seq<ByteStore>, x: nat)
    ensures LastIndex([st] + rest, x)
            == if LastIndex(rest, x) >= 0 then LastIndex(rest, x) + 1 else if st.addr == x then 0 else -1
    ensures LastByte([st] + rest, x)
            == if LastByte(rest, x).Some? then LastByte(rest, x) else if st.addr == x then Some(st.val) else None
  {
    assert ([st] + rest)[1..] == rest;
  }

  /** It is that thread's last store there. */
  lemma {:induction false} LastTidByte(trace: seq<Event>, t: nat, x: nat)
    ensures LastTid(trace, x).Some? <==> LastIndex(StoresIn(trace), x) >= 0
    ensures LastTid(trace, x).Some? <==> LastByte(StoresIn(trace), x).Some?
    ensures LastTid(trace, x) == None ==> LastIndex(Of(trace, t), x) < 0 && LastByte(Of(trace, t), x) == None
    ensures LastTid(trace, x) == Some(t) ==>
              LastIndex(Of(trace, t), x) >= 0 && LastByte(StoresIn(trace), x) == LastByte(Of(trace, t), x)
  {
    if trace == [] {
    } else {
      var ev, rest := trace[0], trace[1..];
      LastTidByte(rest, t, x);
      assert trace == [ev] + rest;
      StoresInCons(ev, rest);
      OfCons(ev, rest, t);
      LastCons(ev.store, StoresIn(rest), x);
      LastCons(ev.store, Of(rest, t), x);
    }
  }

  /** Where a thread has the last word on `x` and stores at `y` after that, the last store at `y`
      comes after the last one at `x`. */
  lemma {:induction false} WinnerFirst(trace: seq<Event>, t: nat, x: nat, y: nat)
    requires LastTid(trace, x) == Some(t)
    requires 0 <= LastIndex(Of(trace, t), x) < LastIndex(Of(trace, t), y)
    ensures 0 <= LastIndex(StoresIn(trace), x) < LastIndex(StoresIn(trace), y)
    decreases |trace|
  {
    var ev, rest := trace[0], trace[1..];
    assert trace == [ev] + rest;
    StoresInCons(ev, rest);
    OfCons(ev, rest, t);
    LastTidByte(rest, t, x);
    LastTidByte(rest, t, y);
    LastCons(ev.store, StoresIn(rest), x);
    LastCons(ev.store, StoresIn(rest), y);
    LastCons(ev.store, Of(rest, t), x);
    LastCons(ev.store, Of(rest, t), y);
    if LastTid(rest, x).Some? {
      WinnerFirst(rest, t, x, y);
    }
  }

  lemma {:induction false} LastTidThread(trace: seq<Event>, x: nat, n: nat)
    requires forall k :: 0 <= k < |trace| ==> trace[k].tid < n
    ensures LastTid(trace, x).Some? ==> LastTid(trace, x).value < n
  {
    if trace == [] {
    } else {
      LastTidThread(trace[1..], x, n);
    }
  }

  // ---- the exact outcomes, winner by winner ---------------------------------------------------

  /** The order in which a choice of winners has the cells decided. */
  ghost function Deciding(c: Config, w: seq<nat>): (nat, nat) -> bool {
    (x: nat, y: nat) => Inv(false, c) && WinsBefore(c, w, x, y)
  }

  /** The threads that have the last word in a trace. */
  function WinnersOf(trace: seq<Event>, n: nat): (w: seq<nat>)
    ensures |w| == n
    ensures forall x :: 0 <= x < n && LastTid(trace, x).Some? ==> w[x] == LastTid(trace, x).value
  {
    seq(n, x requires 0 <= x < n => if LastTid(trace, x).Some? then LastTid(trace, x).value else 0)
  }

  lemma TraceDecidesAt(c: Config, trace: seq<Event>, m: seq<byte>, x: nat)
    requires Inv(false, c) && Shuffle(false, c, trace) && Leaves(c.mem, trace, m) && x < |m|
    ensures if Unwritten(c, x) then c.mem[x] == m[x]
            else
              && LastTid(trace, x).Some? && LastTid(trace, x).value < |c.threads|
              && Final(false, c, LastTid(trace, x).value, x) == Some(m[x])
  {
    LastTidThread(trace, x, |c.threads|);
    var winner := LastTid(trace, x);
    if winner.Some? {
      LastTidByte(trace, winner.value, x);
      assert Of(trace, winner.value) == Plan(|c.mem|, c.threads[winner.value]);
      assert Final(false, c, winner.value, x) != None;
    } else {
      forall t | 0 <= t < |c.threads|
        ensures Final(false, c, t, x) == None
      {
        LastTidByte(trace, t, x);
        assert Of(trace, t) == Plan(|c.mem|, c.threads[t]);
      }
      LastTidByte(trace, 0, x);
    }
  }

  lemma TraceDecides(c: Config, trace: seq<Event>, m: seq<byte>)
    requires Inv(false, c) && Shuffle(false, c, trace) && Leaves(c.mem, trace, m)
    ensures Decides(c, m, WinnersOf(trace, |m|))
  {
    forall x | 0 <= x < |m|
      ensures if Unwritten(c, x) then c.mem[x] == m[x]
              else WinnersOf(trace, |m|)[x] < |c.threads|
                   && Final(false, c, WinnersOf(trace, |m|)[x], x) == Some(m[x])
    {
      TraceDecidesAt(c, trace, m, x);
    }
  }

  /** A trace decides the cells one after the other. */
  lemma TraceClimbs(c: Config, trace: seq<Event>)
    requires Inv(false, c) && Shuffle(false, c, trace)
    ensures Climbs(Deciding(c, WinnersOf(trace, |c.mem|)), x => LastIndex(StoresIn(trace), x) + 1)
  {
    var w := WinnersOf(trace, |c.mem|);
    forall x: nat, y: nat | WinsBefore(c, w, x, y)
      ensures LastIndex(StoresIn(trace), x) < LastIndex(StoresIn(trace), y)
    {
      var t := w[x];
      assert Of(trace, t) == Plan(|c.mem|, c.threads[t]);
      LastTidByte(trace, t, x);
      assert LastTid(trace, x) == Some(t);
      WinnerFirst(trace, t, x, y);
    }
  }

  /** The exact outcome set of the unlocked driver, for any threads and any calls: a memory is
      reached if and only if its bytes can be put down to winners whose last stores, in program
      order, decide no cell before itself. */
  lemma OutcomeExactly(c: Config, m: seq<byte>)
    requires Inv(false, c)
    ensures Outcome(false, c, m) <==> exists w :: Decides(c, m, w) && !Cyclic(Deciding(c, w))
  {
    if Outcome(false, c, m) {
      UnlockedMemories(c, m);
      var trace :| Shuffle(false, c, trace) && Leaves(c.mem, trace, m);
      TraceDecides(c, trace, m);
      TraceClimbs(c, trace);
      ClimbsIsAcyclic(Deciding(c, WinnersOf(trace, |m|)), x => LastIndex(StoresIn(trace), x) + 1);
    }
    if w :| Decides(c, m, w) && !Cyclic(Deciding(c, w)) {
      var rank := (x: nat) => Rank(Deciding(c, w), |m|, x);
      AcyclicClimbs(Deciding(c, w), |m|);
      assert forall x: nat, y: nat :: WinsBefore(c, w, x, y) ==> Deciding(c, w)(x, y);
      var s, e := Reached(c, w, rank, m);
    }
  }

  // ---- no cycle at all: independent cells ----------------------------------------------------

  /** Some thread's last store at `x` precedes its last store at `y`. */
  ghost predicate Precedes(c: Config, x: nat, y: nat)
    requires Inv(false, c)
  {
    x < |c.mem| && y < |c.mem| && exists t :: 0 <= t < |c.threads| && LastBefore(false, c, t, x, y)
  }

  ghost function Order(c: Config): (nat, nat) -> bool {
    (x: nat, y: nat) => Inv(false, c) && Precedes(c, x, y)
  }

  /** Whoever wins, the cells are decided in an order that follows some thread. */
  lemma DecidingIsOrder(c: Config, w: seq<nat>)
    requires Inv(false, c) && !Cyclic(Order(c))
    ensures !Cyclic(Deciding(c, w))
  {
    AcyclicClimbs(Order(c), |c.mem|);
    forall x, y | Deciding(c, w)(x, y)
      ensures Rank(Order(c), |c.mem|, x) < Rank(Order(c), |c.mem|, y)
    {
      assert Order(c)(x, y);
    }
    ClimbsIsAcyclic(Deciding(c, w), x => Rank(Order(c), |c.mem|, x));
  }

  ghost function Winner(c: Config, x: nat, b: byte): (t: nat)
    requires Inv(false, c)
    ensures x < |c.mem| && CanEnd(false, c, x, b) && !Unwritten(c, x) ==>
              t < |c.threads| && Final(false, c, t, x) == Some(b)
  {
    if t :| 0 <= t < |c.threads| && Final(false, c, t, x) == Some(b) then t else 0
  }

  /** A memory allowed cell by cell is one that some winners decide. */
  lemma AllowedIsDecided(c: Config, m: seq<byte>)
    requires Inv(false, c)
    ensures CanEndAs(false, c, m) <==> exists w :: Decides(c, m, w)
  {
    if CanEndAs(false, c, m) {
      var w := seq(|m|, x requires 0 <= x < |m| => Winner(c, x, m[x]));
      assert Decides(c, m, w);
    }
    if w :| Decides(c, m, w) {
      forall x | 0 <= x < |m|
        ensures CanEnd(false, c, x, m[x])
      {
      }
    }
  }

  /** The exact outcome set when no cells precede each other in a cycle: every cell independently
      ends as any of the last bytes planned for it. */
  lemma UnlockedOutcomes(c: Config, m: seq<byte>)
    requires Inv(false, c) && !Cyclic(Order(c))
    ensures Outcome(false, c, m) <==> CanEndAs(false, c, m)
  {
    OutcomeExactly(c, m);
    AllowedIsDecided(c, m);
    if w :| Decides(c, m, w) {
      DecidingIsOrder(c, w);
    }
  }

  predicate Ascending(plan: seq<ByteStore>) {
    forall i, j :: 0 <= i < j < |plan| ==> plan[i].addr < plan[j].addr
  }

  predicate NoSeek(calls: seq<Call>) {
    forall i :: 0 <= i < |calls| ==> !calls[i].Seek?
  }

  lemma AscendingOn(from: nat, to: nat, a: seq<ByteStore>, b: seq<ByteStore>)
    requires from <= to && Ascending(a) && Ascending(b)
    requires forall i :: 0 <= i < |a| ==> from <= a[i].addr < to
    requires forall i :: 0 <= i < |b| ==> to <= b[i].addr
    ensures Ascending(a + b) && forall i :: 0 <= i < |a + b| ==> from <= (a + b)[i].addr
  {
  }

  lemma {:induction false} NoSeekAscends(size: nat, pos: nat, calls: seq<Call>)
    requires pos <= size && NoSeek(calls)
    ensures var plan := CallsStores(size, pos, calls);
            Ascending(plan) && forall i :: 0 <= i < |plan| ==> plan[i].addr >= pos
    decreases |calls|
  {
    if calls == [] {
    } else {
      var next := PosAfter(size, pos, calls[0]);
      NoSeekAscends(size, next, calls[1..]);
      AscendingOn(pos, next, CallStores(size, pos, calls[0], 0), CallsStores(size, next, calls[1..]));
    }
  }

  /** Threads that never seek: their positions only advance. */
  lemma NoSeekIsAcyclic(c: Config)
    requires Quiet(c) && Inv(false, c)
    requires forall t :: 0 <= t < |c.threads| ==> NoSeek(c.threads[t].calls)
    ensures !Cyclic(Order(c))
  {
    forall x: nat, y: nat | Precedes(c, x, y)
      ensures x < y
    {
      var t :| 0 <= t < |c.threads| && LastBefore(false, c, t, x, y);
      NoSeekAscends(|c.mem|, c.threads[t].pos, c.threads[t].calls);
      LastIndexByte(Plan(|c.mem|, c.threads[t]), x);
      LastIndexByte(Plan(|c.mem|, c.threads[t]), y);
    }
    ClimbsIsAcyclic(Order(c), x => x);
  }

  // ---- a cycle: cells that depend on each other ----------------------------------------------

  /** No two threads have the same last byte for a cell. */
  ghost predicate Distinct(c: Config)
    requires Inv(false, c)
  {
    forall x, t, u :: 0 <= x < |c.mem| && 0 <= t < |c.threads| && 0 <= u < |c.threads| && t != u
                      && Final(false, c, t, x).Some? && Final(false, c, u, x).Some?
                      ==> Final(false, c, t, x) != Final(false, c, u, x)
  }

  /** `b` is the last byte at `x` of a thread that stores on in the ring. */
  ghost predicate StoresOn(c: Config, ring: set<nat>, x: nat, b: byte)
    requires Inv(false, c)
  {
    exists t, y :: 0 <= t < |c.threads| && y in ring && y < |c.mem|
                   && LastBefore(false, c, t, x, y) && Final(false, c, t, x) == Some(b)
  }

  lemma RingByte(c: Config, ring: set<nat>, x: nat) returns (b: byte)
    requires Inv(false, c) && Ring(Order(c), ring) && x in ring
    ensures StoresOn(c, ring, x, b) && x < |c.mem| && CanEnd(false, c, x, b)
  {
    assert HasNext(Order(c), ring, x);
    var y :| y in ring && Order(c)(x, y);
    var t :| 0 <= t < |c.threads| && LastBefore(false, c, t, x, y);
    LastIndexByte(Plan(|c.mem|, c.threads[t]), x);
    b := Final(false, c, t, x).value;
    assert Final(false, c, t, x) == Some(b);
  }

  lemma SomeEnd(c: Config, x: nat) returns (b: byte)
    requires Inv(false, c) && x < |c.mem|
    ensures CanEnd(false, c, x, b)
  {
    if t :| 0 <= t < |c.threads| && Final(false, c, t, x).Some? {
      b := Final(false, c, t, x).value;
      assert Final(false, c, t, x) == Some(b);
    } else {
      b := c.mem[x];
    }
  }

  /** `b` may be the byte of cell `x` in a target that gives the cells of the ring away so. */
  ghost predicate Chosen(c: Config, ring: set<nat>, x: nat, b: byte)
    requires Inv(false, c)
  {
    x < |c.mem| && CanEnd(false, c, x, b) && (x in ring ==> StoresOn(c, ring, x, b))
  }

  lemma ChooseByte(c: Config, ring: set<nat>, x: nat) returns (b: byte)
    requires Inv(false, c) && Ring(Order(c), ring) && x < |c.mem|
    ensures Chosen(c, ring, x, b)
  {
    if x in ring {
      b := RingByte(c, ring, x);
    } else {
      b := SomeEnd(c, x);
    }
  }

  ghost predicate AllChosen(c: Config, ring: set<nat>, m: seq<byte>)
    requires Inv(false, c)
  {
    forall x {:trigger m[x]} :: 0 <= x < |m| ==> Chosen(c, ring, x, m[x])
  }

  lemma {:induction false} RingTarget(c: Config, ring: set<nat>, n: nat) returns (m: seq<byte>)
    requires Inv(false, c) && Ring(Order(c), ring) && n <= |c.mem|
    ensures |m| == n && AllChosen(c, ring, m)
  {
    if n == 0 {
      m := [];
    } else {
      var m0 := RingTarget(c, ring, n - 1);
      var b := ChooseByte(c, ring, n - 1);
      m := m0 + [b];
      forall x | 0 <= x < n
        ensures Chosen(c, ring, x, m[x])
      {
        assert m[x] == if x < n - 1 then m0[x] else b;
      }
    }
  }

  /** Where the threads disagree, that thread is the winner, so the ring is decided in a ring. */
  lemma ChosenGoesOn(c: Config, ring: set<nat>, m: seq<byte>, w: seq<nat>, x: nat)
    requires Inv(false, c) && Distinct(c) && Decides(c, m, w) && x < |m| && StoresOn(c, ring, x, m[x])
    ensures HasNext(Deciding(c, w), ring, x)
  {
    var t, y :| 0 <= t < |c.threads| && y in ring && y < |c.mem|
                && LastBefore(false, c, t, x, y) && Final(false, c, t, x) == Some(m[x]);
    assert !Unwritten(c, x);
    assert w[x] == t;
    assert Deciding(c, w)(x, y);
  }

  ghost predicate GoesOn(c: Config, ring: set<nat>, m: seq<byte>, x: nat)
    requires Inv(false, c)
  {
    x < |m| && StoresOn(c, ring, x, m[x])
  }

  /** The ring's cells all go to threads that store on in it. */
  ghost predicate AllGoOn(c: Config, ring: set<nat>, m: seq<byte>)
    requires Inv(false, c)
  {
    ring != {} && forall x {:trigger GoesOn(c, ring, m, x)} :: x in ring ==> GoesOn(c, ring, m, x)
  }

  lemma RingStays(c: Config, ring: set<nat>, m: seq<byte>, w: seq<nat>)
    requires Inv(false, c) && Distinct(c) && Decides(c, m, w)
    requires AllGoOn(c, ring, m)
    ensures Cyclic(Deciding(c, w))
  {
    forall x | x in ring
      ensures HasNext(Deciding(c, w), ring, x)
    {
      assert GoesOn(c, ring, m, x);
      ChosenGoesOn(c, ring, m, w, x);
    }
    RingIsCyclic(Deciding(c, w), |m|, ring);
  }

  /** Such a memory is not reached. */
  lemma RingExcluded(c: Config, ring: set<nat>, m: seq<byte>)
    requires Inv(false, c) && Distinct(c)
    requires AllGoOn(c, ring, m)
    ensures !Outcome(false, c, m)
  {
    OutcomeExactly(c, m);
    if w :| Decides(c, m, w) && !Cyclic(Deciding(c, w)) {
      RingStays(c, ring, m, w);
    }
  }

  lemma InMemory(c: Config, ring: set<nat>, x: nat)
    requires Inv(false, c) && Ring(Order(c), ring) && x in ring
    ensures x < |c.mem|
  {
    assert HasNext(Order(c), ring, x);
  }

  lemma RingExcludes(c: Config, ring: set<nat>) returns (m: seq<byte>)
    requires Inv(false, c) && Distinct(c) && Ring(Order(c), ring)
    ensures CanEndAs(false, c, m) && !Outcome(false, c, m)
  {
    m := RingTarget(c, ring, |c.mem|);
    forall x | x in ring
      ensures GoesOn(c, ring, m, x)
    {
      InMemory(c, ring, x);
      assert Chosen(c, ring, x, m[x]);
    }
    RingExcluded(c, ring, m);
    assert forall x :: 0 <= x < |m| ==> CanEnd(false, c, x, m[x]);
  }

  /** When the threads disagree on every cell they share, the cells end independently of each
      other if and only if there is no cycle. */
  lemma IndependentExactly(c: Config)
    requires Inv(false, c) && Distinct(c)
    ensures (forall m :: CanEndAs(false, c, m) ==> Outcome(false, c, m)) <==> !Cyclic(Order(c))
  {
    if Cyclic(Order(c)) {
      var ring := CycleIsRing(Order(c));
      var m := RingExcludes(c, ring);
    } else {
      forall m | CanEndAs(false, c, m)
        ensures Outcome(false, c, m)
      {
        UnlockedOutcomes(c, m);
      }
    }
  }

  // ---- for example ---------------------------------------------------------------------------

  /** One thread writes cell 1, seeks back and writes cell 0; the other writes both in one call. */
  function Crossing(): Config {
    Config([0, 0], None,
           [Thread([Write([1]), Seek(0, 0), Write([1])], 1, Idle, []), Thread([Write([2, 2])], 0, Idle, [])])
  }

  lemma CrossingPlans()
    ensures Quiet(Crossing()) && Inv(false, Crossing())
    ensures Plan(2, Crossing().threads[0]) == [ByteStore(1, 1), ByteStore(0, 1)]
    ensures Plan(2, Crossing().threads[1]) == [ByteStore(0, 2), ByteStore(1, 2)]
  {
    var calls := Crossing().threads[0].calls;
    assert calls[1..] == [Seek(0, 0), Write([1])] && calls[1..][1..] == [Write([1])] && calls[1..][1..][1..] == [];
    assert CallsStores(2, 0, [Write([1])]) == CallStores(2, 0, Write([1]), 0) + CallsStores(2, 1, [Write([1])][1..]);
    assert CallsStores(2, 2, calls[1..]) == CallStores(2, 2, Seek(0, 0), 0) + CallsStores(2, 0, calls[1..][1..]);
    assert CallsStores(2, 1, calls) == CallStores(2, 1, Write([1]), 0) + CallsStores(2, 2, calls[1..]);
    var other := Crossing().threads[1].calls;
    assert other[1..] == [];
    assert CallsStores(2, 0, other) == CallStores(2, 0, Write([2, 2]), 0) + CallsStores(2, 2, other[1..]);
  }

  lemma TwoStores(a: ByteStore, b: ByteStore)
    requires a.addr != b.addr
    ensures LastIndex([a, b], a.addr) == 0 && LastIndex([a, b], b.addr) == 1
    ensures LastByte([a, b], a.addr) == Some(a.val) && LastByte([a, b], b.addr) == Some(b.val)
  {
    assert [a, b] == [a] + [b] && [b] == [b] + [];
    LastCons(b, [], a.addr);
    LastCons(b, [], b.addr);
    LastCons(a, [b], a.addr);
    LastCons(a, [b], b.addr);
  }

  lemma CrossingFacts()
    ensures var c := Crossing();
            && Inv(false, c)
            && LastBefore(false, c, 0, 1, 0) && LastBefore(false, c, 1, 0, 1)
            && Final(false, c, 0, 0) == Some(1) && Final(false, c, 0, 1) == Some(1)
            && Final(false, c, 1, 0) == Some(2) && Final(false, c, 1, 1) == Some(2)
  {
    CrossingPlans();
    TwoStores(ByteStore(1, 1), ByteStore(0, 1));
    TwoStores(ByteStore(0, 2), ByteStore(1, 2));
  }

  /** Two cells, each of which some thread stores at before the other, are a cycle. */
  lemma CycleOfTwo(c: Config, t: nat, u: nat, x: nat, y: nat)
    requires Inv(false, c) && t < |c.threads| && u < |c.threads| && x < |c.mem| && y < |c.mem|
    requires LastBefore(false, c, t, x, y) && LastBefore(false, c, u, y, x)
    ensures Cyclic(Order(c))
  {
    assert Order(c)(x, y) && Order(c)(y, x);
    assert Path(Order(c), [x, y, x]);
    assert Leads(Order(c), x, x);
  }

  lemma TwoDisagree(c: Config, a: byte, b: byte)
    requires Inv(false, c) && |c.threads| == 2 && |c.mem| == 2 && a != b
    requires Final(false, c, 0, 0) == Some(a) && Final(false, c, 0, 1) == Some(a)
    requires Final(false, c, 1, 0) == Some(b) && Final(false, c, 1, 1) == Some(b)
    ensures Distinct(c)
  {
    forall x, t, u | 0 <= x < |c.mem| && 0 <= t < |c.threads| && 0 <= u < |c.threads| && t != u
      ensures Final(false, c, t, x) != Final(false, c, u, x)
    {
      assert x == 0 || x == 1;
      assert (t == 0 && u == 1) || (t == 1 && u == 0);
    }
  }

  /** Two threads that write both cells of a memory, with different bytes and in opposite orders,
      cannot leave in each cell the byte of the one that wrote it first. */
  lemma TwoCross(c: Config, a: byte, b: byte)
    requires Inv(false, c) && |c.threads| == 2 && |c.mem| == 2 && a != b
    requires Final(false, c, 0, 0) == Some(a) && Final(false, c, 0, 1) == Some(a)
    requires Final(false, c, 1, 0) == Some(b) && Final(false, c, 1, 1) == Some(b)
    requires LastBefore(false, c, 0, 1, 0) && LastBefore(false, c, 1, 0, 1)
    ensures Distinct(c) && Cyclic(Order(c)) && CanEndAs(false, c, [b, a]) && !Outcome(false, c, [b, a])
  {
    var m, ring := [b, a], {0, 1};
    TwoDisagree(c, a, b);
    CycleOfTwo(c, 0, 1, 1, 0);
    assert 0 in ring && 1 in ring;
    assert GoesOn(c, ring, m, 0) && GoesOn(c, ring, m, 1);
    RingExcluded(c, ring, m);
    forall x | 0 <= x < |m|
      ensures CanEnd(false, c, x, m[x])
    {
      assert x == 0 || x == 1;
    }
  }

  /** With a backward seek the cells need not be independent: each cell of [2, 1] is one thread's
      last byte there, yet no schedule ends in it. */
  lemma BackwardSeekExcludes()
    ensures Inv(false, Crossing()) && Distinct(Crossing()) && Cyclic(Order(Crossing()))
    ensures CanEndAs(false, Crossing(), [2, 1]) && !Outcome(false, Crossing(), [2, 1])
  {
    CrossingFacts();
    TwoCross(Crossing(), 1, 2);
  }
}
