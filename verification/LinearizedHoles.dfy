/** The exact condition for the families of linearizations that a compiler emits. */
module LinearizedHoles {
  import opened Linearizations
  import opened Precedence
  import opened PrecedenceHoles
  import opened Sequences

  // ---- a smallest hole has no two ids that derive from each other ----

  ghost predicate Unrelated(cs: seq<Chain>, p: seq<nat>) {
    forall i, j :: 0 <= i < |p| && 0 <= j < |p| && i != j ==> !Derives(cs, p[i], p[j])
  }

  /** A shared chain between two ids of the ring cuts out what lies between them. */
  lemma CutHole(cs: seq<Chain>, p: seq<nat>, i: nat, j: nat)
    requires Hole(cs, p) && i + 1 < j < |p| && !(i == 0 && j == |p| - 1)
    requires Together(cs, p[i], p[j])
    ensures Hole(cs, p[..i + 1] + p[j..]) && |p[..i + 1] + p[j..]| < |p|
  {
    var q, gap := p[..i + 1] + p[j..], j - i - 1;
    assert forall k :: 0 <= k < |q| ==> q[k] == p[if k <= i then k else k + gap];
    forall k | 0 <= k < |q|
      ensures Together(cs, q[k], q[Succ(k, |q|)])
    {
      assert k != i ==> Together(cs, p[if k <= i then k else k + gap], p[Succ(if k <= i then k else k + gap, |p|)]);
    }
    forall c, k | c in cs && q[0] in c && q[|q| - 1] in c && 0 < k < |q| - 1
      ensures q[k] !in c
    {
      assert p[if k <= i then k else k + gap] !in c;
    }
  }

  /** A base of `x` shares a chain with whatever shares one with `x`. */
  lemma BaseShares(cs: seq<Chain>, x: nat, base: nat, z: nat) returns (c: Chain)
    requires Linearized(cs) && Derives(cs, x, base) && Together(cs, x, z)
    ensures c in cs && x in c && z in c && base in c
  {
    c :| c in cs && x in c && z in c;
    BaseInChain(cs, c, x, base);
  }

  /** No chain has both ends of the ring and a third id. */
  lemma ThirdExcluded(cs: seq<Chain>, p: seq<nat>, c: Chain, i: nat)
    requires Hole(cs, p) && c in cs && 0 < i < |p| - 1 && p[i] in c
    ensures !(p[0] in c && p[|p| - 1] in c)
  {
  }

  /** The first id of the ring derives from no other one. */
  lemma FirstUnrelated(cs: seq<Chain>, p: seq<nat>, i: nat)
    requires Linearized(cs) && Hole(cs, p) && 0 < i < |p|
    ensures !Derives(cs, p[0], p[i])
  {
    var n := |p|;
    var shared: nat := if i == n - 1 then 1 else n - 1;
    assert Together(cs, p[0], p[Succ(0, n)]) && Together(cs, p[n - 1], p[Succ(n - 1, n)]);
    if Derives(cs, p[0], p[i]) {
      var c := BaseShares(cs, p[0], p[i], p[shared]);
      assert false;
    }
  }

  /** Nor does the last one. */
  lemma LastUnrelated(cs: seq<Chain>, p: seq<nat>, i: nat)
    requires Linearized(cs) && Hole(cs, p) && i < |p| - 1
    ensures !Derives(cs, p[|p| - 1], p[i])
  {
    var n := |p|;
    var shared: nat := if i == 0 then n - 2 else 0;
    assert Together(cs, p[n - 2], p[Succ(n - 2, n)]) && Together(cs, p[n - 1], p[Succ(n - 1, n)]);
    if Derives(cs, p[n - 1], p[i]) {
      var c := BaseShares(cs, p[n - 1], p[i], p[shared]);
      assert false;
    }
  }

  /** An id of the ring with a base earlier in the ring can be cut out, */
  lemma EarlierBaseShortens(cs: seq<Chain>, p: seq<nat>, j: nat, i: nat)
    requires Linearized(cs) && Hole(cs, p) && i < j < |p| - 1 && Derives(cs, p[j], p[i])
    ensures Hole(cs, p[..i + 1] + p[j + 1..]) && |p[..i + 1] + p[j + 1..]| < |p|
  {
    assert Together(cs, p[j], p[Succ(j, |p|)]);
    var c := BaseShares(cs, p[j], p[i], p[j + 1]);
    ThirdExcluded(cs, p, c, j);
    CutHole(cs, p, i, j + 1);
  }

  /** and so can one with a base later in the ring. */
  lemma LaterBaseShortens(cs: seq<Chain>, p: seq<nat>, j: nat, i: nat)
    requires Linearized(cs) && Hole(cs, p) && 0 < j < i < |p| && Derives(cs, p[j], p[i])
    ensures Hole(cs, p[..j] + p[i..]) && |p[..j] + p[i..]| < |p|
  {
    assert Together(cs, p[j - 1], p[Succ(j - 1, |p|)]);
    var c := BaseShares(cs, p[j], p[i], p[j - 1]);
    ThirdExcluded(cs, p, c, j);
    CutHole(cs, p, j - 1, i);
    assert p[..j - 1 + 1] == p[..j];
  }

  lemma {:induction false} ShrinkHole(cs: seq<Chain>, p: seq<nat>) returns (q: seq<nat>)
    requires Linearized(cs) && Hole(cs, p)
    ensures Hole(cs, q) && Unrelated(cs, q)
    decreases |p|
  {
    if j: nat, i: nat :| j < |p| && i < |p| && i != j && Derives(cs, p[j], p[i]) {
      if j == 0 {
        FirstUnrelated(cs, p, i);
      } else if j == |p| - 1 {
        LastUnrelated(cs, p, i);
      }
      if i < j {
        EarlierBaseShortens(cs, p, j, i);
        q := ShrinkHole(cs, p[..i + 1] + p[j + 1..]);
      } else {
        LaterBaseShortens(cs, p, j, i);
        q := ShrinkHole(cs, p[..j] + p[i..]);
      }
    } else {
      q := p;
    }
  }

  // ---- the other ids, derived before base ----

  /** The list has the ids of the set, every contract before its bases. */
  ghost predicate DerivedFirst(cs: seq<Chain>, l: seq<nat>, s: set<nat>) {
    && NoDuplicates(l) && (forall x :: x in l <==> x in s)
    && forall x, y :: x in s && y in s && x != y && Derives(cs, x, y) ==> Before(l, x, y)
  }

  /** Some id of the set is no base of another one. */
  lemma {:induction false} MostDerived(cs: seq<Chain>, s: set<nat>) returns (x: nat)
    requires Linearized(cs) && s != {}
    ensures x in s && forall z :: z in s && z != x ==> !Derives(cs, z, x)
    decreases |s|
  {
    x :| x in s;
    if s != {x} {
      var t := MostDerived(cs, s - {x});
      if Derives(cs, x, t) {
        forall z | z in s && z != x
          ensures !Derives(cs, z, x)
        {
          if Derives(cs, z, x) {
            DerivesTransitive(cs, z, x, t);
            DerivesAntisymmetric(cs, x, t);
          }
        }
      } else {
        x := t;
      }
    }
  }

  lemma {:induction false} ListDerivedFirst(cs: seq<Chain>, s: set<nat>) returns (l: seq<nat>)
    requires Linearized(cs)
    ensures DerivedFirst(cs, l, s)
    decreases |s|
  {
    if s == {} {
      l := [];
    } else {
      var first := MostDerived(cs, s);
      var rest := ListDerivedFirst(cs, s - {first});
      l := [first] + rest;
      forall x, y | x in s && y in s && x != y && Derives(cs, x, y)
        ensures Before(l, x, y)
      {
        assert y != first;
        PrependKeepsOrder(first, rest, x, y);
      }
    }
  }

  /** The strict bases of the ring. */
  ghost function Bases(cs: seq<Chain>, p: seq<nat>): set<nat> {
    set y | y in Ids(cs) && y !in p && exists i :: 0 <= i < |p| && Derives(cs, p[i], y)
  }

  /** The ring between the ids that are no bases of it and its bases, both derived first. */
  ghost predicate Layered(cs: seq<Chain>, p: seq<nat>, us: seq<nat>, ws: seq<nat>) {
    && Linearized(cs) && Unrelated(cs, p) && Ground(cs, p, us, ws)
    && DerivedFirst(cs, ws, Bases(cs, p))
    && DerivedFirst(cs, us, Ids(cs) - (set x | x in p) - Bases(cs, p))
  }

  lemma Layers(cs: seq<Chain>, p: seq<nat>) returns (us: seq<nat>, ws: seq<nat>)
    requires Linearized(cs) && Hole(cs, p) && Unrelated(cs, p)
    ensures Layered(cs, p, us, ws)
  {
    var ring := set x | x in p;
    ws := ListDerivedFirst(cs, Bases(cs, p));
    us := ListDerivedFirst(cs, Ids(cs) - ring - Bases(cs, p));
    Disjoint(us, p, ws, ring);
    forall c, x | c in cs && x in c
      ensures x in us || x in p || x in ws
    {
      assert x in Ids(cs);
    }
  }

  lemma BasesClosed(cs: seq<Chain>, p: seq<nat>, x: nat, y: nat)
    requires Linearized(cs) && Unrelated(cs, p) && Derives(cs, x, y) && x != y && y in Ids(cs)
    requires x in p || x in Bases(cs, p)
    ensures y in Bases(cs, p)
  {
    var i: nat :| i < |p| && Derives(cs, p[i], x) && (x in p ==> p[i] == x) by {
      if x in p {
        assert p[Position(p, x)] == x;
        SelfDerives(cs, x, y);
      }
    }
    DerivesTransitive(cs, p[i], x, y);
    if y in p {
      assert Position(p, y) == i;
      DerivesAntisymmetric(cs, x, y);
    }
  }

  lemma SelfDerives(cs: seq<Chain>, x: nat, y: nat)
    requires Derives(cs, x, y)
    ensures Derives(cs, x, x)
  {
    var d :| d in cs && Heads(d, x) && y in d;
    assert x in d;
  }

  lemma InLayers(us: seq<nat>, p: seq<nat>, ws: seq<nat>, x: nat, y: nat)
    requires (x in us && (y in p || y in ws)) || (x in p && y in ws) || Before(us, x, y) || Before(ws, x, y)
    ensures Before(us + p + ws, x, y)
  {
    var all, m, n := us + p + ws, |us|, |us + p|;
    if Before(us, x, y) {
      var i, j :| At(us, i, x) && At(us, j, y) && i < j;
      assert At(all, i, x) && At(all, j, y);
    } else if Before(ws, x, y) {
      var i, j :| At(ws, i, x) && At(ws, j, y) && i < j;
      assert At(all, n + i, x) && At(all, n + j, y);
    } else {
      assert x in us ==> At(all, Position(us, x), x);
      assert x in p ==> At(all, m + Position(p, x), x);
      assert y in p ==> At(all, m + Position(p, y), y);
      assert y in ws ==> At(all, n + Position(ws, y), y);
    }
  }

  /** The direction of the rearranged chains puts every contract before its bases. */
  lemma DerivedAhead(cs: seq<Chain>, p: seq<nat>, us: seq<nat>, ws: seq<nat>, x: nat, y: nat)
    requires Layered(cs, p, us, ws) && Derives(cs, x, y) && x != y
    ensures Ahead(us, p, ws, x, y)
  {
    var d :| d in cs && Heads(d, x) && y in d;
    assert x in d && x in Ids(cs) && y in Ids(cs);
    if x in p || x in ws {
      BasesClosed(cs, p, x, y);
    }
    InLayers(us, p, ws, x, y);
    var first, last := p[0], p[|p| - 1];
    assert {x, y} == {first, last} ==> y in {first, last};
  }

  // ---- the rearranged chains are linearizations ----

  lemma RearrangedHead(cs: seq<Chain>, p: seq<nat>, us: seq<nat>, ws: seq<nat>, c: Chain)
    requires Layered(cs, p, us, ws) && c in cs
    ensures c != [] && Heads(Rearranged(us, p, ws, c), c[0])
  {
    var r, h := Rearranged(us, p, ws, c), c[0];
    RearrangedMembers(cs, p, us, ws, c, h);
    var y := r[0];
    RearrangedMembers(cs, p, us, ws, c, y);
    if y != h {
      assert Heads(c, h);
      DerivedAhead(cs, p, us, ws, h, y);
      assert At(r, 0, y) && At(r, Position(r, h), h);
      RearrangedIsAhead(cs, p, us, ws, c, y, h);
      AheadAntisymmetric(us, p, ws, h, y);
    }
  }

  lemma RearrangedNested(cs: seq<Chain>, p: seq<nat>, us: seq<nat>, ws: seq<nat>, d: Chain, c: Chain)
    requires Ground(cs, p, us, ws) && c in cs && d in cs && Nested(d, c)
    ensures Nested(Rearranged(us, p, ws, d), Rearranged(us, p, ws, c))
  {
    var e, r := Rearranged(us, p, ws, d), Rearranged(us, p, ws, c);
    forall x | x in e
      ensures x in r
    {
      RearrangedMembers(cs, p, us, ws, d, x);
      RearrangedMembers(cs, p, us, ws, c, x);
    }
    forall x, y | Before(e, x, y)
      ensures Before(r, x, y)
    {
      RearrangedIsAhead(cs, p, us, ws, d, x, y);
      RearrangedMembers(cs, p, us, ws, c, x);
      RearrangedMembers(cs, p, us, ws, c, y);
      RearrangedDupFree(cs, p, us, ws, d);
      Comparable(r, x, y);
      if Before(r, y, x) {
        RearrangedIsAhead(cs, p, us, ws, c, y, x);
        AheadAntisymmetric(us, p, ws, x, y);
      }
    }
  }

  lemma RearrangedIsLinearized(cs: seq<Chain>, p: seq<nat>, us: seq<nat>, ws: seq<nat>)
    requires Layered(cs, p, us, ws)
    ensures Linearized(RearrangeAll(us, p, ws, cs))
  {
    var ds := RearrangeAll(us, p, ws, cs);
    RearrangedIsReordering(cs, p, us, ws);
    forall k | 0 <= k < |ds|
      ensures cs[k] in cs && cs[k] != [] && Heads(ds[k], cs[k][0])
    {
      RearrangedHead(cs, p, us, ws, cs[k]);
    }
    forall c, d, x | c in ds && d in ds && Heads(c, x) && Heads(d, x)
      ensures c == d
    {
      var k: nat, l: nat :| k < |ds| && l < |ds| && ds[k] == c && ds[l] == d;
      assert Heads(cs[k], x) && Heads(cs[l], x);
    }
    forall c, x | c in ds && x in c
      ensures HasOwn(ds, c, x)
    {
      var k: nat :| k < |ds| && ds[k] == c;
      RearrangedOwn(cs, p, us, ws, cs[k], x);
    }
  }

  lemma RearrangedOwn(cs: seq<Chain>, p: seq<nat>, us: seq<nat>, ws: seq<nat>, c: Chain, x: nat)
    requires Layered(cs, p, us, ws) && c in cs && x in Rearranged(us, p, ws, c)
    ensures HasOwn(RearrangeAll(us, p, ws, cs), Rearranged(us, p, ws, c), x)
  {
    RearrangedMembers(cs, p, us, ws, c, x);
    assert HasOwn(cs, c, x);
    var d :| d in cs && Heads(d, x) && Nested(d, c);
    var l: nat :| l < |cs| && cs[l] == d;
    RearrangedHead(cs, p, us, ws, d);
    RearrangedNested(cs, p, us, ws, d, c);
    assert RearrangeAll(us, p, ws, cs)[l] == Rearranged(us, p, ws, d);
  }

  /** A family of linearizations with a hole can be linearized with a cycle and no opposite edges. */
  lemma HoleMakesLinearizedCycle(cs: seq<Chain>, p: seq<nat>) returns (ds: seq<Chain>, q: seq<nat>)
    requires Linearized(cs) && Hole(cs, p)
    ensures Reordering(cs, ds) && Linearized(ds) && NoConflict(ds) && Cycle(ds, q)
  {
    q := ShrinkHole(cs, p);
    var us, ws := Layers(cs, q);
    ds := RearrangeAll(us, q, ws, cs);
    RearrangedHidesCycle(cs, q, us, ws);
    RearrangedIsLinearized(cs, q, us, ws);
  }

  /**
   * The claim that looking for cycles of length two is enough, settled for compiler output. Whatever
   * linearizations the contracts of a family have, no opposite edges means no cycle, if and only if the
   * family has no hole.
   */
  lemma LinearizedPairsSufficeIff(cs: seq<Chain>)
    requires Linearized(cs)
    ensures (forall ds :: Reordering(cs, ds) && Linearized(ds) && NoConflict(ds) ==> Acyclic(ds))
       <==> (forall p :: !Hole(cs, p))
  {
    if p :| Hole(cs, p) {
      var ds, q := HoleMakesLinearizedCycle(cs, p);
      assert !Acyclic(ds);
    } else {
      PairsSufficeIff(cs);
    }
  }
}
