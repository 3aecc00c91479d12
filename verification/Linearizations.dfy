/**
 * The laws of the linearizations that a compiler emits, and a family that obeys them and has a cycle
 * without opposite edges.
 */
module Linearizations {
  import opened Precedence
  import opened Sequences

  /** The chain is that of the contract `x`: it starts with it. */
  ghost predicate Heads(c: Chain, x: nat) {
    c != [] && c[0] == x
  }

  /** The chain `d` is kept inside `c`, members and order. */
  ghost predicate Nested(d: Chain, c: Chain) {
    (forall x :: x in d ==> x in c) && forall x, y :: Before(d, x, y) ==> Before(c, x, y)
  }

  /**
   * Every chain is that of one contract and lists no contract twice, no contract has two chains, and
   * every member has a chain of its own, which is kept inside.
   */
  ghost predicate Linearized(cs: seq<Chain>) {
    && WellFormed(cs)
    && (forall c :: c in cs ==> c != [])
    && (forall c, d, x :: c in cs && d in cs && Heads(c, x) && Heads(d, x) ==> c == d)
    && (forall c, x :: c in cs && x in c ==> HasOwn(cs, c, x))
  }

  ghost predicate HasOwn(cs: seq<Chain>, c: Chain, x: nat) {
    exists d :: d in cs && Heads(d, x) && Nested(d, c)
  }

  // ---- inheritance ----

  /** The contract `x` is `y` or derives from it. */
  ghost predicate Derives(cs: seq<Chain>, x: nat, y: nat) {
    exists d :: d in cs && Heads(d, x) && y in d
  }

  lemma BaseInChain(cs: seq<Chain>, c: Chain, x: nat, y: nat)
    requires Linearized(cs) && c in cs && x in c && Derives(cs, x, y)
    ensures y in c
  {
    assert HasOwn(cs, c, x);
  }

  lemma DerivesTransitive(cs: seq<Chain>, x: nat, y: nat, z: nat)
    requires Linearized(cs) && Derives(cs, x, y) && Derives(cs, y, z)
    ensures Derives(cs, x, z)
  {
    var d :| d in cs && Heads(d, x) && y in d;
    BaseInChain(cs, d, y, z);
  }

  /** Inheritance is not circular. */
  lemma DerivesAntisymmetric(cs: seq<Chain>, x: nat, y: nat)
    requires Linearized(cs) && Derives(cs, x, y) && Derives(cs, y, x)
    ensures x == y
  {
    var d :| d in cs && Heads(d, x) && y in d;
    assert HasOwn(cs, d, y);
    var e :| e in cs && Heads(e, y) && Nested(e, d);
    assert x in e;
    var pos := Position(e, x);
    assert At(e, 0, y) && At(e, pos, x);
    assert pos > 0 ==> Before(e, y, x) && Before(d, y, x);
  }

  // ---- three contracts of unrelated pairs ----

  ghost const RING: seq<Chain> := [[4, 1, 2], [5, 2, 3], [6, 3, 1], [1], [2], [3]]

  lemma TripleOrder(a: nat, b: nat, c: nat, x: nat, y: nat)
    ensures Before([a, b, c], x, y) <==> (x == a && y == b) || (x == a && y == c) || (x == b && y == c)
  {
    var t := [a, b, c];
    assert At(t, 0, a) && At(t, 1, b) && At(t, 2, c);
    if Before(t, x, y) {
      var i, j :| At(t, i, x) && At(t, j, y) && i < j;
      assert i in {0, 1} && j in {1, 2};
    }
  }

  lemma SingleOrder(a: nat, x: nat, y: nat)
    ensures !Before([a], x, y)
  {
  }

  lemma RingEdges(x: nat, y: nat)
    ensures Precedes(RING, x, y) <==>
            (x, y) in {(4, 1), (4, 2), (1, 2), (5, 2), (5, 3), (2, 3), (6, 3), (6, 1), (3, 1)}
  {
    TripleOrder(4, 1, 2, x, y);
    TripleOrder(5, 2, 3, x, y);
    TripleOrder(6, 3, 1, x, y);
    SingleOrder(1, x, y);
    SingleOrder(2, x, y);
    SingleOrder(3, x, y);
    assert RING[0] in RING && RING[1] in RING && RING[2] in RING;
  }

  lemma SingleNested(a: nat, c: Chain)
    requires a in c
    ensures Nested([a], c)
  {
    forall x, y
      ensures !Before([a], x, y)
    {
      SingleOrder(a, x, y);
    }
  }

  lemma RingOwn(c: Chain, x: nat)
    requires c in RING && x in c
    ensures HasOwn(RING, c, x)
  {
    if x <= 3 {
      SingleNested(x, c);
      assert RING[3] == [1] && RING[4] == [2] && RING[5] == [3];
      assert [x] in RING && Heads([x], x);
    } else {
      assert Heads(c, x) && Nested(c, c);
    }
  }

  lemma RingIsWellFormed()
    ensures WellFormed(RING)
  {
  }

  lemma RingHeadsDiffer(c: Chain, d: Chain)
    requires c in RING && d in RING && c[0] == d[0]
    ensures c == d
  {
  }

  lemma RingIsLinearized()
    ensures Linearized(RING)
  {
    RingIsWellFormed();
    forall c, d, x | c in RING && d in RING && Heads(c, x) && Heads(d, x)
      ensures c == d
    {
      RingHeadsDiffer(c, d);
    }
    forall c, x | c in RING && x in c
      ensures HasOwn(RING, c, x)
    {
      RingOwn(c, x);
    }
  }

  lemma RingHasNoConflict()
    ensures NoConflict(RING)
  {
    forall x, y
      ensures !Conflicting(RING, x, y)
    {
      RingEdges(x, y);
      RingEdges(y, x);
    }
  }

  lemma RingHasCycle()
    ensures Cycle(RING, [1, 2, 3])
  {
    RingEdges(1, 2);
    RingEdges(2, 3);
    RingEdges(3, 1);
  }

  /**
   * Looking for cycles of length two is not enough in general: the contracts 4, 5 and 6 derive from
   * two of 1, 2 and 3 each, in an order that goes round.
   */
  lemma CycleWithoutConflict()
    ensures Linearized(RING) && NoConflict(RING) && Cycle(RING, [1, 2, 3])
    ensures !exists order :: Orders(order, RING)
  {
    RingIsLinearized();
    RingHasNoConflict();
    RingHasCycle();
    ConsistentIffAcyclic(RING);
  }
}
