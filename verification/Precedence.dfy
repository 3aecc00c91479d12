/** Precedence between contract ids in linearizations, its cycles, and when pairs of opposite edges tell them. */
module Precedence {
  import opened Sequences

  type Chain = seq<nat>

  ghost predicate At(c: Chain, i: int, x: nat) {
    0 <= i < |c| && c[i] == x
  }

  /** The chain puts `x` before `y`. */
  ghost predicate Before(c: Chain, x: nat, y: nat) {
    exists i, j :: At(c, i, x) && At(c, j, y) && i < j
  }

  /** Some chain puts `x` before `y`. */
  ghost predicate Precedes(cs: seq<Chain>, x: nat, y: nat) {
    exists c :: c in cs && Before(c, x, y)
  }

  /** Opposite edges: what the check looks for. */
  ghost predicate Conflicting(cs: seq<Chain>, x: nat, y: nat) {
    x != y && Precedes(cs, x, y) && Precedes(cs, y, x)
  }

  ghost predicate NoConflict(cs: seq<Chain>) {
    forall x, y :: !Conflicting(cs, x, y)
  }

  ghost predicate WellFormed(cs: seq<Chain>) {
    forall c :: c in cs ==> NoDuplicates(c)
  }

  function Succ(i: nat, n: nat): nat {
    if i + 1 == n then 0 else i + 1
  }

  /** A directed cycle, of any length from one. */
  ghost predicate Cycle(cs: seq<Chain>, p: seq<nat>) {
    p != [] && forall i :: 0 <= i < |p| ==> Precedes(cs, p[i], p[Succ(i, |p|)])
  }

  ghost predicate Acyclic(cs: seq<Chain>) {
    forall p :: !Cycle(cs, p)
  }

  /** A chain's members are comparable in it. */
  lemma Comparable(c: Chain, x: nat, y: nat)
    requires x in c && y in c && x != y
    ensures Before(c, x, y) || Before(c, y, x)
  {
    var i, j := Position(c, x), Position(c, y);
    assert At(c, i, x) && At(c, j, y);
  }

  lemma NoSelfEdge(cs: seq<Chain>, x: nat)
    requires WellFormed(cs)
    ensures !Precedes(cs, x, x)
  {
  }

  /** Without opposite edges, every chain that has both ends of an edge follows the edge. */
  lemma ChainFollowsEdge(cs: seq<Chain>, c: Chain, x: nat, y: nat)
    requires WellFormed(cs) && NoConflict(cs) && c in cs && x in c && y in c
    requires Precedes(cs, x, y)
    ensures Before(c, x, y)
  {
    NoSelfEdge(cs, x);
    Comparable(c, x, y);
    assert !Conflicting(cs, x, y);
    assert Before(c, y, x) ==> Precedes(cs, y, x);
  }

  /** Numbers that grow along a path cannot come back to the start. */
  lemma NoCircularClimb(pos: seq<nat>)
    requires pos != []
    ensures exists i :: 0 <= i < |pos| && pos[i] >= pos[Succ(i, |pos|)]
  {
    var last := |pos| - 1;
    assert Succ(last, |pos|) == 0;
    if forall i :: 0 <= i < |pos| ==> pos[i] < pos[Succ(i, |pos|)] {
      ClimbFromStart(pos, last);
    }
  }

  lemma {:induction false} ClimbFromStart(pos: seq<nat>, k: nat)
    requires k < |pos| && forall i :: 0 <= i < |pos| ==> pos[i] < pos[Succ(i, |pos|)]
    ensures pos[0] <= pos[k]
  {
    if k > 0 {
      ClimbFromStart(pos, k - 1);
      assert pos[k - 1] < pos[Succ(k - 1, |pos|)];
    }
  }

  lemma BeforeIsPosition(c: Chain, x: nat, y: nat)
    requires NoDuplicates(c) && Before(c, x, y)
    ensures x in c && y in c && Position(c, x) < Position(c, y)
  {
  }

  /**
   * When no opposite edges are found, no directed cycle of any length lies within one linearization.
   */
  lemma NoCycleWithinChain(cs: seq<Chain>, p: seq<nat>, c: Chain)
    requires WellFormed(cs) && NoConflict(cs) && Cycle(cs, p) && c in cs
    ensures exists i :: 0 <= i < |p| && p[i] !in c
  {
    if forall i :: 0 <= i < |p| ==> p[i] in c {
      var pos := seq(|p|, i requires 0 <= i < |p| => Position(c, p[i]));
      forall i | 0 <= i < |p|
        ensures pos[i] < pos[Succ(i, |p|)]
      {
        ChainFollowsEdge(cs, c, p[i], p[Succ(i, |p|)]);
        BeforeIsPosition(c, p[i], p[Succ(i, |p|)]);
      }
      NoCircularClimb(pos);
      assert false;
    }
  }

  // ---- cycles and total orders ----

  ghost function Ids(cs: seq<Chain>): set<nat> {
    set c, x | c in cs && x in c :: x
  }

  /** Every edge goes forward in the list `order`. */
  ghost predicate Orders(order: seq<nat>, cs: seq<Chain>) {
    NoDuplicates(order) && forall x, y :: Precedes(cs, x, y) ==> Before(order, x, y)
  }

  /** A path of predecessors inside `s`: each element precedes the next. */
  ghost predicate Path(cs: seq<Chain>, p: seq<nat>, s: set<nat>) {
    && p != [] && NoDuplicates(p)
    && (forall i :: 0 <= i < |p| ==> p[i] in s)
    && (forall i :: 0 <= i < |p| - 1 ==> Precedes(cs, p[i], p[i + 1]))
  }

  lemma {:induction false} DupFreeFits(p: seq<nat>, s: set<nat>)
    requires NoDuplicates(p) && forall i :: 0 <= i < |p| ==> p[i] in s
    ensures |p| <= |s|
  {
    if p != [] {
      var last := p[|p| - 1];
      DupFreeFits(p[..|p| - 1], s - {last});
    }
  }

  lemma ClosePath(cs: seq<Chain>, p: seq<nat>, s: set<nat>, y: nat)
    requires Path(cs, p, s) && y in p && Precedes(cs, y, p[0])
    ensures !Acyclic(cs)
  {
    var j := Position(p, y);
    assert Cycle(cs, p[..j + 1]);
  }

  /** Walking back along edges ends, in an element without predecessor, unless there is a cycle. */
  lemma {:induction false} FindSource(cs: seq<Chain>, s: set<nat>, p: seq<nat>) returns (x: nat)
    requires Acyclic(cs) && Path(cs, p, s)
    ensures x in s && forall y :: y in s ==> !Precedes(cs, y, x)
    decreases |s| - |p|
  {
    DupFreeFits(p, s);
    if y :| y in s && Precedes(cs, y, p[0]) {
      if y in p {
        ClosePath(cs, p, s, y);
        assert false;
      }
      DupFreeFits([y] + p, s);
      x := FindSource(cs, s, [y] + p);
    } else {
      x := p[0];
    }
  }

  lemma {:induction false} TopologicalOrder(cs: seq<Chain>, s: set<nat>) returns (order: seq<nat>)
    requires Acyclic(cs)
    ensures NoDuplicates(order) && forall x :: x in order <==> x in s
    ensures forall x, y :: x in s && y in s && Precedes(cs, x, y) ==> Before(order, x, y)
    decreases |s|
  {
    if s == {} {
      order := [];
    } else {
      var any :| any in s;
      var first := FindSource(cs, s, [any]);
      var rest := TopologicalOrder(cs, s - {first});
      order := [first] + rest;
      forall x, y | x in s && y in s && Precedes(cs, x, y)
        ensures Before(order, x, y)
      {
        assert !Precedes(cs, x, first);
        PrependKeepsOrder(first, rest, x, y);
      }
    }
  }

  lemma PrependKeepsOrder(first: nat, rest: seq<nat>, x: nat, y: nat)
    requires y in rest && (x == first || Before(rest, x, y))
    ensures Before([first] + rest, x, y)
  {
    var order := [first] + rest;
    if x == first {
      var j := Position(rest, y);
      assert At(order, 0, x) && At(order, j + 1, y);
    } else {
      var i, j :| At(rest, i, x) && At(rest, j, y) && i < j;
      assert At(order, i + 1, x) && At(order, j + 1, y);
    }
  }

  /** The linearizations agree on one total order exactly when the graph has no directed cycle. */
  lemma ConsistentIffAcyclic(cs: seq<Chain>)
    ensures (exists order :: Orders(order, cs)) <==> Acyclic(cs)
  {
    if Acyclic(cs) {
      var order := TopologicalOrder(cs, Ids(cs));
      forall x, y | Precedes(cs, x, y)
        ensures Before(order, x, y)
      {
        EdgeEndsAreIds(cs, x, y);
      }
      assert Orders(order, cs);
    }
    if order :| Orders(order, cs) {
      forall p
        ensures !Cycle(cs, p)
      {
        OrderedHasNoCycle(cs, order, p);
      }
    }
  }

  lemma EdgeEndsAreIds(cs: seq<Chain>, x: nat, y: nat)
    requires Precedes(cs, x, y)
    ensures x in Ids(cs) && y in Ids(cs)
  {
    var c :| c in cs && Before(c, x, y);
    assert x in c && y in c;
  }

  lemma OrderedHasNoCycle(cs: seq<Chain>, order: seq<nat>, p: seq<nat>)
    requires Orders(order, cs)
    ensures !Cycle(cs, p)
  {
    if Cycle(cs, p) {
      forall i | 0 <= i < |p|
        ensures p[i] in order
      {
        assert Before(order, p[i], p[Succ(i, |p|)]);
      }
      var pos := seq(|p|, i requires 0 <= i < |p| => Position(order, p[i]));
      forall i | 0 <= i < |p|
        ensures pos[i] < pos[Succ(i, |p|)]
      {
        BeforeIsPosition(order, p[i], p[Succ(i, |p|)]);
      }
      NoCircularClimb(pos);
      assert false;
    }
  }
}
