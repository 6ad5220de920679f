/** Relations on numbers without cycles: they are the ones that some ranking climbs along. */
module Cycles {

  ghost predicate Path(rel: (nat, nat) -> bool, p: seq<nat>) {
    |p| >= 2 && forall i :: 0 <= i < |p| - 1 ==> rel(p[i], p[i + 1])
  }

  ghost predicate Leads(rel: (nat, nat) -> bool, x: nat, y: nat) {
    exists p :: Path(rel, p) && p[0] == x && p[|p| - 1] == y
  }

  ghost predicate Cyclic(rel: (nat, nat) -> bool) {
    exists x: nat :: Leads(rel, x, x)
  }

  /** `rank` goes up along the relation. */
  ghost predicate Climbs(rel: (nat, nat) -> bool, rank: nat -> nat) {
    forall x, y :: rel(x, y) ==> rank(x) < rank(y)
  }

  /** The relation is between numbers below `n`. */
  ghost predicate Below(rel: (nat, nat) -> bool, n: nat) {
    forall x: nat, y: nat :: rel(x, y) ==> x < n && y < n
  }

  lemma LeadsOn(rel: (nat, nat) -> bool, x: nat, y: nat, z: nat)
    requires Leads(rel, x, y) && rel(y, z)
    ensures Leads(rel, x, z)
  {
    var p :| Path(rel, p) && p[0] == x && p[|p| - 1] == y;
    assert Path(rel, p + [z]);
  }

  lemma SmallerSet(a: set<nat>, b: set<nat>, x: nat)
    requires a <= b && x in b && x !in a
    ensures |a| < |b|
  {
    assert b == (a + {x}) + (b - (a + {x}));
  }

  ghost function Before(rel: (nat, nat) -> bool, n: nat, x: nat): set<nat> {
    set y: nat | y < n && Leads(rel, y, x)
  }

  /** How many numbers lead to `x`. */
  ghost function Rank(rel: (nat, nat) -> bool, n: nat, x: nat): nat {
    |Before(rel, n, x)|
  }

  lemma AcyclicClimbs(rel: (nat, nat) -> bool, n: nat)
    requires Below(rel, n) && !Cyclic(rel)
    ensures Climbs(rel, x => Rank(rel, n, x))
  {
    forall x, y | rel(x, y)
      ensures Rank(rel, n, x) < Rank(rel, n, y)
    {
      assert Path(rel, [x, y]);
      forall z | z in Before(rel, n, x)
        ensures z in Before(rel, n, y)
      {
        LeadsOn(rel, z, x, y);
      }
      assert Leads(rel, x, y);
      SmallerSet(Before(rel, n, x), Before(rel, n, y), x);
    }
  }

  lemma {:induction false} PathClimbs(rel: (nat, nat) -> bool, rank: nat -> nat, p: seq<nat>)
    requires Climbs(rel, rank) && Path(rel, p)
    ensures rank(p[0]) < rank(p[|p| - 1])
    decreases |p|
  {
    var n := |p| - 1;
    assert rel(p[n - 1], p[n]);
    if n == 1 {
    } else {
      PathClimbs(rel, rank, p[..n]);
    }
  }

  lemma ClimbsIsAcyclic(rel: (nat, nat) -> bool, rank: nat -> nat)
    requires Climbs(rel, rank)
    ensures !Cyclic(rel)
  {
    if x: nat :| Leads(rel, x, x) {
      var p :| Path(rel, p) && p[0] == x && p[|p| - 1] == x;
      PathClimbs(rel, rank, p);
    }
  }

  // ---- rings -----------------------------------------------------------------------------------

  ghost predicate HasNext(rel: (nat, nat) -> bool, ring: set<nat>, x: nat) {
    exists y :: y in ring && rel(x, y)
  }

  /** Every element leads on to another one. */
  ghost predicate Ring(rel: (nat, nat) -> bool, ring: set<nat>) {
    ring != {} && forall x {:trigger HasNext(rel, ring, x)} :: x in ring ==> HasNext(rel, ring, x)
  }

  lemma CycleIsRing(rel: (nat, nat) -> bool) returns (ring: set<nat>)
    requires Cyclic(rel)
    ensures Ring(rel, ring)
  {
    var x: nat :| Leads(rel, x, x);
    var p :| Path(rel, p) && p[0] == x && p[|p| - 1] == x;
    ring := set i | 0 <= i < |p| :: p[i];
    assert p[0] in ring;
    forall z | z in ring
      ensures HasNext(rel, ring, z)
    {
      var i :| 0 <= i < |p| && p[i] == z;
      var k := if i == |p| - 1 then 0 else i;
      assert rel(p[k], p[k + 1]) && p[k + 1] in ring;
    }
  }

  lemma {:induction false} Highest(s: set<nat>, rank: nat -> nat) returns (x: nat)
    requires s != {}
    ensures x in s && forall y :: y in s ==> rank(y) <= rank(x)
    decreases |s|
  {
    x :| x in s;
    var rest := s - {x};
    assert s == rest + {x};
    if rest == {} {
    } else {
      var high := Highest(rest, rank);
      if rank(x) < rank(high) {
        x := high;
      }
    }
  }

  lemma RingGoesUp(rel: (nat, nat) -> bool, ring: set<nat>, rank: nat -> nat, x: nat) returns (y: nat)
    requires Ring(rel, ring) && Climbs(rel, rank) && x in ring
    ensures y in ring && rank(x) < rank(y)
  {
    assert HasNext(rel, ring, x);
    y :| y in ring && rel(x, y);
  }

  /** A ring means a cycle. */
  lemma RingIsCyclic(rel: (nat, nat) -> bool, n: nat, ring: set<nat>)
    requires Below(rel, n) && Ring(rel, ring)
    ensures Cyclic(rel)
  {
    if !Cyclic(rel) {
      AcyclicClimbs(rel, n);
      var x := Highest(ring, x => Rank(rel, n, x));
      var _ := RingGoesUp(rel, ring, x => Rank(rel, n, x), x);
    }
  }
}
