/**
 * For which families of contracts looking for opposite edges finds every cycle: exactly for those
 * whose chains, as sets, have no hole.
 */
module PrecedenceHoles {
  import opened Precedence
  import opened Sequences

  /** Some chain has both. */
  ghost predicate Together(cs: seq<Chain>, x: nat, y: nat) {
    exists c :: c in cs && x in c && y in c
  }

  /**
   * A ring of three or more distinct ids, neighbours sharing chains, whose closing pair shares no
   * chain with any other id of the ring. Only the members of the chains matter, not their order.
   */
  ghost predicate Hole(cs: seq<Chain>, p: seq<nat>) {
    && |p| >= 3 && NoDuplicates(p)
    && (forall i :: 0 <= i < |p| ==> Together(cs, p[i], p[Succ(i, |p|)]))
    && (forall c, i :: c in cs && p[0] in c && p[|p| - 1] in c && 0 < i < |p| - 1 ==> p[i] !in c)
  }

  /** The same chains with their members in another order. */
  ghost predicate Reordering(cs: seq<Chain>, ds: seq<Chain>) {
    && |ds| == |cs| && WellFormed(ds)
    && forall k, x :: 0 <= k < |cs| ==> (x in cs[k] <==> x in ds[k])
  }

  // ---- a cycle without opposite edges leaves a hole ----

  lemma EdgeIsTogether(cs: seq<Chain>, x: nat, y: nat)
    requires Precedes(cs, x, y)
    ensures Together(cs, x, y)
  {
    var c :| c in cs && Before(c, x, y);
    assert x in c && y in c;
  }

  /** A shortcut from `p[j]` back to `p[i]` closes a part of the cycle. */
  lemma Shortcut(cs: seq<Chain>, p: seq<nat>, i: nat, j: nat)
    requires Cycle(cs, p) && i <= j < |p| && Precedes(cs, p[j], p[i])
    ensures Cycle(cs, p[i..j + 1])
  {
    var q := p[i..j + 1];
    forall k | 0 <= k < |q|
      ensures Precedes(cs, q[k], q[Succ(k, |q|)])
    {
      if k < |q| - 1 {
        assert Precedes(cs, p[i + k], p[Succ(i + k, |p|)]);
      }
    }
  }

  /** A cycle that repeats an id has a shorter one inside. */
  lemma RepeatShortens(cs: seq<Chain>, p: seq<nat>, i: nat, j: nat)
    requires Cycle(cs, p) && i < j < |p| && p[i] == p[j]
    ensures Cycle(cs, p[i..j])
  {
    assert Precedes(cs, p[j - 1], p[Succ(j - 1, |p|)]);
    Shortcut(cs, p, i, j - 1);
  }

  /** A chain with the closing pair and a third id of the ring has an edge that shortens the cycle. */
  lemma ThirdShortens(cs: seq<Chain>, p: seq<nat>, c: Chain, i: nat) returns (q: seq<nat>)
    requires WellFormed(cs) && NoConflict(cs) && Cycle(cs, p) && NoDuplicates(p) && c in cs
    requires 0 < i < |p| - 1 && p[0] in c && p[i] in c && p[|p| - 1] in c
    ensures Cycle(cs, q) && |q| < |p|
  {
    var last := |p| - 1;
    assert Precedes(cs, p[last], p[Succ(last, |p|)]);
    ChainFollowsEdge(cs, c, p[last], p[0]);
    Comparable(c, p[0], p[i]);
    if Before(c, p[i], p[0]) {
      assert Precedes(cs, p[i], p[0]);
      Shortcut(cs, p, 0, i);
      q := p[0..i + 1];
    } else {
      BeforeTransitive(c, p[last], p[0], p[i]);
      assert Precedes(cs, p[last], p[i]);
      Shortcut(cs, p, i, last);
      q := p[i..last + 1];
    }
  }

  lemma BeforeTransitive(c: Chain, x: nat, y: nat, z: nat)
    requires NoDuplicates(c) && Before(c, x, y) && Before(c, y, z)
    ensures Before(c, x, z)
  {
    var i, j :| At(c, i, x) && At(c, j, y) && i < j;
    var k, l :| At(c, k, y) && At(c, l, z) && k < l;
    assert At(c, i, x) && At(c, l, z);
  }

  lemma {:induction false} CycleLeavesHole(cs: seq<Chain>, p: seq<nat>) returns (h: seq<nat>)
    requires WellFormed(cs) && NoConflict(cs) && Cycle(cs, p)
    ensures Hole(cs, h)
    decreases |p|
  {
    forall i | 0 <= i < |p|
      ensures Together(cs, p[i], p[Succ(i, |p|)])
    {
      EdgeIsTogether(cs, p[i], p[Succ(i, |p|)]);
    }
    if i, j :| 0 <= i < j < |p| && p[i] == p[j] {
      RepeatShortens(cs, p, i, j);
      h := CycleLeavesHole(cs, p[i..j]);
    } else if c, i :| c in cs && p[0] in c && p[|p| - 1] in c && 0 < i < |p| - 1 && p[i] in c {
      var q := ThirdShortens(cs, p, c, i);
      h := CycleLeavesHole(cs, q);
    } else {
      LongEnough(cs, p);
      h := p;
    }
  }

  lemma LongEnough(cs: seq<Chain>, p: seq<nat>)
    requires WellFormed(cs) && NoConflict(cs) && Cycle(cs, p) && NoDuplicates(p)
    ensures |p| >= 3
  {
    var n := |p|;
    assert Precedes(cs, p[0], p[Succ(0, n)]);
    NoSelfEdge(cs, p[0]);
    assert n == 2 ==> Succ(0, n) == 1 && Succ(1, n) == 0;
    assert n == 2 ==> Precedes(cs, p[1], p[Succ(1, n)]);
    assert n == 2 ==> !Conflicting(cs, p[0], p[1]);
  }

  // ---- a hole lets some order of the chains cycle without opposite edges ----

  /** The members of `order` that are in `c`, in the order of `order`. */
  ghost function Filter(order: seq<nat>, c: Chain): Chain {
    if order == [] then []
    else
      var init, last := order[..|order| - 1], order[|order| - 1];
      if last in c then Filter(init, c) + [last] else Filter(init, c)
  }

  lemma {:induction false} FilterMembers(order: seq<nat>, c: Chain, x: nat)
    ensures x in Filter(order, c) <==> x in order && x in c
  {
    if order != [] {
      FilterMembers(order[..|order| - 1], c, x);
      assert x in order <==> x in order[..|order| - 1] || x == order[|order| - 1];
    }
  }

  lemma {:induction false} FilterDupFree(order: seq<nat>, c: Chain)
    requires NoDuplicates(order)
    ensures NoDuplicates(Filter(order, c))
  {
    if order != [] {
      var init, last := order[..|order| - 1], order[|order| - 1];
      FilterDupFree(init, c);
      FilterMembers(init, c, last);
    }
  }

  lemma {:induction false} FilterKeepsOrder(order: seq<nat>, c: Chain, x: nat, y: nat)
    requires Before(order, x, y) && x in c && y in c
    ensures Before(Filter(order, c), x, y)
  {
    var init, last := order[..|order| - 1], order[|order| - 1];
    var i, j :| At(order, i, x) && At(order, j, y) && i < j;
    if j == |order| - 1 {
      assert x == init[i] && x in init;
      FilterMembers(init, c, x);
      var k := Position(Filter(init, c), x);
      assert At(Filter(order, c), k, x) && At(Filter(order, c), |Filter(order, c)| - 1, y);
    } else {
      assert At(init, i, x) && At(init, j, y);
      FilterKeepsOrder(init, c, x, y);
      var k, l :| At(Filter(init, c), k, x) && At(Filter(init, c), l, y) && k < l;
      assert At(Filter(order, c), k, x) && At(Filter(order, c), l, y);
    }
  }

  lemma {:induction false} FilterReflectsOrder(order: seq<nat>, c: Chain, x: nat, y: nat)
    requires Before(Filter(order, c), x, y)
    ensures Before(order, x, y) && x in c && y in c
  {
    var f := Filter(order, c);
    var i, j :| At(f, i, x) && At(f, j, y) && i < j;
    assert x == f[i] && y == f[j];
    FilterMembers(order, c, x);
    FilterMembers(order, c, y);
    var init, last := order[..|order| - 1], order[|order| - 1];
    if last in c && j == |f| - 1 {
      assert x == Filter(init, c)[i];
      FilterMembers(init, c, x);
      var k := Position(init, x);
      assert At(order, k, x) && At(order, |order| - 1, y);
    } else {
      assert At(Filter(init, c), i, x) && At(Filter(init, c), j, y);
      FilterReflectsOrder(init, c, x, y);
      var k, l :| At(init, k, x) && At(init, l, y) && k < l;
      assert At(order, k, x) && At(order, l, y);
    }
  }

  /**
   * What the construction starts from: a hole `p`, and the other ids in two lists, `us` to go before
   * the ring and `ws` to go after it.
   */
  ghost predicate Ground(cs: seq<Chain>, p: seq<nat>, us: seq<nat>, ws: seq<nat>) {
    && WellFormed(cs) && Hole(cs, p) && NoDuplicates(us + p + ws)
    && forall c, x :: c in cs && x in c ==> x in us || x in p || x in ws
  }

  ghost predicate Closes(c: Chain, p: seq<nat>)
    requires p != []
  {
    p[0] in c && p[|p| - 1] in c
  }

  /** The list that a chain follows: one that has both ends of the ring has them swapped. */
  ghost function Listed(us: seq<nat>, p: seq<nat>, ws: seq<nat>, swapped: bool): seq<nat>
    requires p != []
  {
    us + (if swapped then [p[|p| - 1], p[0]] else p) + ws
  }

  ghost function Rearranged(us: seq<nat>, p: seq<nat>, ws: seq<nat>, c: Chain): Chain
    requires p != []
  {
    Filter(Listed(us, p, ws, Closes(c, p)), c)
  }

  /** The direction of the rearranged chains: that of the list, except between the ring's ends. */
  ghost predicate Ahead(us: seq<nat>, p: seq<nat>, ws: seq<nat>, x: nat, y: nat)
    requires p != []
  {
    var first, last := p[0], p[|p| - 1];
    if {x, y} == {first, last} then x == last && y == first else Before(us + p + ws, x, y)
  }

  lemma AheadAntisymmetric(us: seq<nat>, p: seq<nat>, ws: seq<nat>, x: nat, y: nat)
    requires NoDuplicates(us + p + ws) && |p| >= 3 && NoDuplicates(p) && x != y
    ensures !(Ahead(us, p, ws, x, y) && Ahead(us, p, ws, y, x))
  {
    assert {x, y} == {y, x};
    var order := us + p + ws;
    if Before(order, x, y) && Before(order, y, x) {
      BeforeTransitive(order, x, y, x);
      assert false;
    }
    assert p[0] != p[|p| - 1];
  }

  /** Where an entry of the swapped list is in the straight one. */
  ghost function Unswapped(us: seq<nat>, p: seq<nat>, k: nat): nat
    requires |p| >= 3
  {
    if k < |us| then k
    else if k == |us| then |us| + |p| - 1
    else if k == |us| + 1 then |us|
    else k + |p| - 2
  }

  lemma SwappedIsAhead(us: seq<nat>, p: seq<nat>, ws: seq<nat>, x: nat, y: nat)
    requires NoDuplicates(us + p + ws) && |p| >= 3 && Before(Listed(us, p, ws, true), x, y)
    ensures Ahead(us, p, ws, x, y)
  {
    var swapped, order, n := Listed(us, p, ws, true), us + p + ws, |us|;
    var i: nat, j: nat :| At(swapped, i, x) && At(swapped, j, y) && i < j;
    var k, l := Unswapped(us, p, i), Unswapped(us, p, j);
    assert At(order, k, x) && At(order, l, y);
    assert order[n] == p[0] && order[n + |p| - 1] == p[|p| - 1];
    if {x, y} == {p[0], p[|p| - 1]} {
      assert x in {x, y} && y in {x, y};
      assert i == n && j == n + 1;
    }
  }

  lemma OnlyEnds(cs: seq<Chain>, p: seq<nat>, c: Chain, x: nat)
    requires Hole(cs, p) && c in cs && Closes(c, p) && x in c && x in p
    ensures x == p[0] || x == p[|p| - 1]
  {
    forall i | 0 < i < |p| - 1
      ensures p[i] != x
    {
    }
  }

  lemma RearrangedMembers(cs: seq<Chain>, p: seq<nat>, us: seq<nat>, ws: seq<nat>, c: Chain, x: nat)
    requires Ground(cs, p, us, ws) && c in cs
    ensures x in Rearranged(us, p, ws, c) <==> x in c
  {
    FilterMembers(Listed(us, p, ws, Closes(c, p)), c, x);
    if Closes(c, p) && x in c && x in p {
      OnlyEnds(cs, p, c, x);
      assert x in [p[|p| - 1], p[0]];
    }
  }

  lemma RearrangedDupFree(cs: seq<Chain>, p: seq<nat>, us: seq<nat>, ws: seq<nat>, c: Chain)
    requires Ground(cs, p, us, ws) && c in cs
    ensures NoDuplicates(Rearranged(us, p, ws, c))
  {
    SwappedDupFree(us, p, ws);
    FilterDupFree(Listed(us, p, ws, Closes(c, p)), c);
  }

  lemma SwappedDupFree(us: seq<nat>, p: seq<nat>, ws: seq<nat>)
    requires NoDuplicates(us + p + ws) && |p| >= 3
    ensures NoDuplicates(Listed(us, p, ws, true))
  {
    var swapped, order := Listed(us, p, ws, true), us + p + ws;
    forall i: nat, j: nat | i < j < |swapped|
      ensures swapped[i] != swapped[j]
    {
      var k, l := Unswapped(us, p, i), Unswapped(us, p, j);
      assert order[k] == swapped[i] && order[l] == swapped[j] && k != l;
    }
  }

  lemma RearrangedIsAhead(cs: seq<Chain>, p: seq<nat>, us: seq<nat>, ws: seq<nat>, c: Chain, x: nat, y: nat)
    requires Ground(cs, p, us, ws) && c in cs && Before(Rearranged(us, p, ws, c), x, y)
    ensures Ahead(us, p, ws, x, y) && x in c && y in c
  {
    FilterReflectsOrder(Listed(us, p, ws, Closes(c, p)), c, x, y);
    if Closes(c, p) {
      SwappedIsAhead(us, p, ws, x, y);
    } else {
      var first, last := p[0], p[|p| - 1];
      assert {x, y} == {first, last} ==> first in {x, y} && last in {x, y};
    }
  }

  ghost function RearrangeAll(us: seq<nat>, p: seq<nat>, ws: seq<nat>, cs: seq<Chain>): (ds: seq<Chain>)
    requires p != []
    ensures |ds| == |cs| && forall k :: 0 <= k < |cs| ==> ds[k] == Rearranged(us, p, ws, cs[k])
  {
    seq(|cs|, k requires 0 <= k < |cs| => Rearranged(us, p, ws, cs[k]))
  }

  lemma RearrangedIsReordering(cs: seq<Chain>, p: seq<nat>, us: seq<nat>, ws: seq<nat>)
    requires Ground(cs, p, us, ws)
    ensures Reordering(cs, RearrangeAll(us, p, ws, cs))
  {
    var ds := RearrangeAll(us, p, ws, cs);
    forall k, x | 0 <= k < |cs|
      ensures x in cs[k] <==> x in ds[k]
    {
      RearrangedMembers(cs, p, us, ws, cs[k], x);
    }
    forall k | 0 <= k < |ds|
      ensures NoDuplicates(ds[k])
    {
      RearrangedDupFree(cs, p, us, ws, cs[k]);
    }
  }

  lemma RearrangedNoConflict(cs: seq<Chain>, p: seq<nat>, us: seq<nat>, ws: seq<nat>)
    requires Ground(cs, p, us, ws)
    ensures NoConflict(RearrangeAll(us, p, ws, cs))
  {
    var ds := RearrangeAll(us, p, ws, cs);
    forall x, y | Precedes(ds, x, y)
      ensures Ahead(us, p, ws, x, y)
    {
      var d :| d in ds && Before(d, x, y);
      var k :| 0 <= k < |ds| && ds[k] == d;
      RearrangedIsAhead(cs, p, us, ws, cs[k], x, y);
    }
    forall x, y
      ensures !Conflicting(ds, x, y)
    {
      if x != y {
        AheadAntisymmetric(us, p, ws, x, y);
      }
    }
  }

  lemma ChainKeepsEdge(cs: seq<Chain>, p: seq<nat>, us: seq<nat>, ws: seq<nat>, c: Chain, i: nat)
    requires Ground(cs, p, us, ws) && c in cs && i < |p| && p[i] in c && p[Succ(i, |p|)] in c
    ensures Before(Rearranged(us, p, ws, c), p[i], p[Succ(i, |p|)])
  {
    var n, next, order := |p|, Succ(i, |p|), Listed(us, p, ws, Closes(c, p));
    if next == 0 {
      assert At(order, |us|, p[n - 1]) && At(order, |us| + 1, p[0]);
    } else {
      assert !Closes(c, p) by {
        assert 0 < i < n - 1 || 0 < next < n - 1;
      }
      assert At(order, |us| + i, p[i]) && At(order, |us| + next, p[next]);
    }
    FilterKeepsOrder(order, c, p[i], p[next]);
  }

  lemma RearrangedEdge(cs: seq<Chain>, p: seq<nat>, us: seq<nat>, ws: seq<nat>, i: nat)
    requires Ground(cs, p, us, ws) && i < |p|
    ensures Precedes(RearrangeAll(us, p, ws, cs), p[i], p[Succ(i, |p|)])
  {
    assert Together(cs, p[i], p[Succ(i, |p|)]);
    var c :| c in cs && p[i] in c && p[Succ(i, |p|)] in c;
    var k :| 0 <= k < |cs| && cs[k] == c;
    assert RearrangeAll(us, p, ws, cs)[k] == Rearranged(us, p, ws, c);
    ChainKeepsEdge(cs, p, us, ws, c, i);
  }

  /** However the other ids are listed, the rearranged chains have a cycle and no opposite edges. */
  lemma RearrangedHidesCycle(cs: seq<Chain>, p: seq<nat>, us: seq<nat>, ws: seq<nat>)
    requires Ground(cs, p, us, ws)
    ensures var ds := RearrangeAll(us, p, ws, cs);
            Reordering(cs, ds) && NoConflict(ds) && Cycle(ds, p)
  {
    var ds := RearrangeAll(us, p, ws, cs);
    RearrangedIsReordering(cs, p, us, ws);
    RearrangedNoConflict(cs, p, us, ws);
    forall i | 0 <= i < |p|
      ensures Precedes(ds, p[i], p[Succ(i, |p|)])
    {
      RearrangedEdge(cs, p, us, ws, i);
    }
  }

  lemma {:induction false} ListOf(s: set<nat>) returns (l: seq<nat>)
    ensures NoDuplicates(l) && forall x :: x in l <==> x in s
  {
    if s == {} {
      l := [];
    } else {
      var x :| x in s;
      var rest := ListOf(s - {x});
      l := [x] + rest;
    }
  }

  /** Lists of disjoint sets have no duplicates between them. */
  lemma Disjoint(us: seq<nat>, p: seq<nat>, ws: seq<nat>, ring: set<nat>)
    requires NoDuplicates(us) && NoDuplicates(p) && NoDuplicates(ws) && ring == set x | x in p
    requires forall x :: x in us ==> x !in ring && x !in ws
    requires forall x :: x in ws ==> x !in ring
    ensures NoDuplicates(us + p + ws)
  {
    var all, m, n := us + p + ws, |us|, |us + p|;
    forall i, j | 0 <= i < j < |all|
      ensures all[i] != all[j]
    {
      assert i < m ==> all[i] in us;
      assert m <= i < n ==> all[i] in ring;
      assert m <= j < n ==> all[j] in ring;
      assert n <= j ==> all[j] in ws;
    }
  }

  lemma HoleMakesCycle(cs: seq<Chain>, p: seq<nat>) returns (ds: seq<Chain>)
    requires WellFormed(cs) && Hole(cs, p)
    ensures Reordering(cs, ds) && NoConflict(ds) && Cycle(ds, p)
  {
    var ring := set x | x in p;
    var us := ListOf(Ids(cs) - ring);
    Disjoint(us, p, [], ring);
    assert Ground(cs, p, us, []) by {
      forall c, x | c in cs && x in c
        ensures x in us || x in p
      {
        assert x in Ids(cs);
      }
    }
    ds := RearrangeAll(us, p, [], cs);
    RearrangedHidesCycle(cs, p, us, []);
  }

  // ---- the exact condition ----

  lemma HoleIgnoresOrder(cs: seq<Chain>, ds: seq<Chain>, p: seq<nat>)
    requires Reordering(cs, ds) && Hole(ds, p)
    ensures Hole(cs, p)
  {
    forall i | 0 <= i < |p|
      ensures Together(cs, p[i], p[Succ(i, |p|)])
    {
      assert Together(ds, p[i], p[Succ(i, |p|)]);
      var d :| d in ds && p[i] in d && p[Succ(i, |p|)] in d;
      var k :| 0 <= k < |ds| && ds[k] == d;
      assert cs[k] in cs;
    }
    forall c, i | c in cs && p[0] in c && p[|p| - 1] in c && 0 < i < |p| - 1
      ensures p[i] !in c
    {
      var k :| 0 <= k < |cs| && cs[k] == c;
      assert ds[k] in ds;
    }
  }

  /**
   * The claim that looking for cycles of length two is enough, settled. Whatever order the chains of
   * a family have, no opposite edges means no cycle, if and only if the family has no hole.
   */
  lemma PairsSufficeIff(cs: seq<Chain>)
    requires WellFormed(cs)
    ensures (forall ds :: Reordering(cs, ds) && NoConflict(ds) ==> Acyclic(ds)) <==> (forall p :: !Hole(cs, p))
  {
    if p :| Hole(cs, p) {
      var ds := HoleMakesCycle(cs, p);
      assert !Acyclic(ds);
    } else {
      forall ds | Reordering(cs, ds) && NoConflict(ds)
        ensures Acyclic(ds)
      {
        if p :| Cycle(ds, p) {
          var h := CycleLeavesHole(ds, p);
          HoleIgnoresOrder(cs, ds, h);
        }
      }
    }
  }

  /** Without a hole, a clean check means that one total order agrees with every linearization. */
  lemma CleanCheckIsConsistent(cs: seq<Chain>)
    requires WellFormed(cs) && NoConflict(cs) && forall p :: !Hole(cs, p)
    ensures exists order :: Orders(order, cs)
  {
    if p :| Cycle(cs, p) {
      var h := CycleLeavesHole(cs, p);
      assert false;
    }
    ConsistentIffAcyclic(cs);
  }
}
