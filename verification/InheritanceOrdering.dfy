/** The check of contract linearizations for pairs that are ordered both ways. */
module InheritanceOrdering {
  import opened Linearizations
  import opened Precedence
  import opened PrecedenceHoles
  import opened Sequences

  /** A contract definition: its id, and its linearized base contracts. */
  datatype ContractDef = ContractDef(id: nat, linearized: Chain)

  /** A source file of a compiler output. */
  datatype Source = Source(path: string, definitions: seq<ContractDef>)

  const MOCKS := "/mocks/"

  predicate Includes(text: string, part: string) {
    part <= text || (text != [] && Includes(text[1..], part))
  }

  predicate IsMock(path: string) {
    Includes(path, MOCKS)
  }

  /** The text has the part somewhere in it. */
  ghost predicate Contains(text: string, part: string) {
    exists before, after :: text == before + part + after
  }

  lemma {:induction false} FindPart(text: string, part: string) returns (before: string, after: string)
    requires Includes(text, part)
    ensures text == before + part + after
  {
    if part <= text {
      before, after := "", text[|part|..];
      assert part == "" + part;
    } else {
      before, after := FindPart(text[1..], part);
      before := [text[0]] + before;
    }
  }

  lemma {:induction false} PartIncluded(before: string, part: string, after: string)
    ensures Includes(before + part + after, part)
  {
    var text := before + part + after;
    if before == "" {
      assert text == part + after;
    } else {
      PartIncluded(before[1..], part, after);
      assert text[1..] == before[1..] + part + after;
    }
  }

  lemma IncludesIff(text: string, part: string)
    ensures Includes(text, part) <==> Contains(text, part)
  {
    if Includes(text, part) {
      var before, after := FindPart(text, part);
    }
    if before, after :| text == before + part + after {
      PartIncluded(before, part, after);
    }
  }

  /** The path has a directory of mocks in it. */
  ghost predicate InMocks(path: string) {
    Contains(path, "/mocks/")
  }

  lemma IsMockIff(path: string)
    ensures IsMock(path) <==> InMocks(path)
  {
    IncludesIff(path, MOCKS);
  }

  /** One line of a report: whether `chain` puts the first contract of the pair before the second. */
  datatype Line = Line(firstBeforeSecond: bool, chain: Chain)

  datatype Conflict = Conflict(x: nat, y: nat, lines: seq<Line>)

  // ---- the graph ----

  ghost predicate Ascending(s: seq<nat>) {
    forall i, j :: 0 <= i < j < |s| ==> s[i] < s[j]
  }

  /** Integer keys of an object are listed in ascending order. */
  function InsertKey(s: seq<nat>, x: nat): seq<nat> {
    if s == [] || s[|s| - 1] < x then s + [x]
    else if s[|s| - 1] == x then s
    else InsertKey(s[..|s| - 1], x) + [s[|s| - 1]]
  }

  lemma {:induction false} InsertedMembers(s: seq<nat>, x: nat, y: nat)
    ensures y in InsertKey(s, x) <==> y in s || y == x
  {
    if s != [] && s[|s| - 1] > x {
      var init, last := s[..|s| - 1], s[|s| - 1];
      InsertedMembers(init, x, y);
      assert s == init + [last];
    }
  }

  lemma {:induction false} InsertedAscending(s: seq<nat>, x: nat)
    requires Ascending(s)
    ensures Ascending(InsertKey(s, x))
  {
    if s != [] && s[|s| - 1] > x {
      var init, last := s[..|s| - 1], s[|s| - 1];
      InsertedAscending(init, x);
      var r := InsertKey(init, x);
      forall i | 0 <= i < |r|
        ensures r[i] < last
      {
        InsertedMembers(init, x, r[i]);
      }
    }
  }

  lemma Inserted(s: seq<nat>, x: nat)
    requires Ascending(s)
    ensures Ascending(InsertKey(s, x))
    ensures forall y :: y in InsertKey(s, x) <==> y in s || y == x
  {
    InsertedAscending(s, x);
    forall y
      ensures y in InsertKey(s, x) <==> y in s || y == x
    {
      InsertedMembers(s, x, y);
    }
  }

  class Graph {
    var nodes: seq<nat>
    var edges: set<(nat, nat)>

    ghost predicate Valid()
      reads this
    {
      Ascending(nodes) && forall x: nat, y: nat :: (x, y) in edges ==> x in nodes && y in nodes
    }

    constructor ()
      ensures Valid() && edges == {}
    {
      nodes, edges := [], {};
    }

    method SetEdge(x: nat, y: nat)
      requires Valid()
      modifies this
      ensures Valid() && edges == old(edges) + {(x, y)}
      ensures forall n :: n in nodes <==> n in old(nodes) || n == x || n == y
    {
      Inserted(nodes, x);
      nodes := InsertKey(nodes, x);
      Inserted(nodes, y);
      nodes := InsertKey(nodes, y);
      edges := edges + {(x, y)};
    }

    method HasEdge(x: nat, y: nat) returns (b: bool)
      ensures b == ((x, y) in edges)
    {
      return (x, y) in edges;
    }
  }

  // ---- building the graph ----

  /** The chain puts `x` before `y`, with `x` before position `i`. */
  ghost predicate BeforeUpTo(c: Chain, i: nat, x: nat, y: nat) {
    exists a, b :: At(c, a, x) && At(c, b, y) && a < b && a < i
  }

  /** One edge from every member of the chain to every later one. */
  method AddChain(graph: Graph, chain: Chain)
    requires graph.Valid()
    modifies graph
    ensures graph.Valid()
    ensures forall x: nat, y: nat :: (x, y) in graph.edges <==> (x, y) in old(graph.edges) || Before(chain, x, y)
  {
    var i := 0;
    while i < |chain|
      invariant 0 <= i <= |chain|
      invariant graph.Valid()
      invariant forall x: nat, y: nat :: (x, y) in graph.edges <==>
                                         (x, y) in old(graph.edges) || BeforeUpTo(chain, i, x, y)
    {
      AddRow(graph, chain, i);
      forall x: nat, y: nat
        ensures BeforeUpTo(chain, i + 1, x, y) <==>
                BeforeUpTo(chain, i, x, y) || (x == chain[i] && exists b :: At(chain, b, y) && i < b)
      {
        if b :| x == chain[i] && At(chain, b, y) && i < b {
          assert At(chain, i, x);
        }
      }
      i := i + 1;
    }
    assert forall x, y :: BeforeUpTo(chain, |chain|, x, y) <==> Before(chain, x, y);
  }

  /** The edges from the member at position `i` to the later ones. */
  method AddRow(graph: Graph, chain: Chain, i: nat)
    requires graph.Valid() && i < |chain|
    modifies graph
    ensures graph.Valid()
    ensures forall x: nat, y: nat :: (x, y) in graph.edges <==>
                           (x, y) in old(graph.edges) || (x == chain[i] && exists b :: At(chain, b, y) && i < b)
  {
    var j := i + 1;
    while j < |chain|
      invariant i < j <= |chain|
      invariant graph.Valid()
      invariant forall x: nat, y: nat :: (x, y) in graph.edges <==>
                               (x, y) in old(graph.edges) || (x == chain[i] && exists b :: At(chain, b, y) && i < b < j)
    {
      graph.SetEdge(chain[i], chain[j]);
      assert At(chain, j, chain[j]);
      j := j + 1;
    }
  }

  function ChainsOf(definitions: seq<ContractDef>): seq<Chain> {
    if definitions == [] then []
    else ChainsOf(definitions[..|definitions| - 1]) + [definitions[|definitions| - 1].linearized]
  }

  /** The contract definitions of a whole compiler output, in order. */
  function AllDefinitions(sources: seq<Source>): seq<ContractDef> {
    if sources == [] then []
    else AllDefinitions(sources[..|sources| - 1]) + sources[|sources| - 1].definitions
  }

  function OutsideMocks(sources: seq<Source>): seq<Source> {
    if sources == [] then []
    else
      var before, last := OutsideMocks(sources[..|sources| - 1]), sources[|sources| - 1];
      if IsMock(last.path) then before else before + [last]
  }

  /** The contract definitions outside the mocks, in order. */
  function CheckedDefinitions(sources: seq<Source>): seq<ContractDef> {
    AllDefinitions(OutsideMocks(sources))
  }

  lemma {:induction false} DefinitionsAppend(a: seq<Source>, b: seq<Source>)
    ensures AllDefinitions(a + b) == AllDefinitions(a) + AllDefinitions(b)
  {
    if b == [] {
      assert a + b == a;
    } else {
      var init, last := b[..|b| - 1], b[|b| - 1];
      DefinitionsAppend(a, init);
      assert (a + b)[..|a + b| - 1] == a + init;
    }
  }

  lemma {:induction false} OutsideAppend(a: seq<Source>, b: seq<Source>)
    ensures OutsideMocks(a + b) == OutsideMocks(a) + OutsideMocks(b)
  {
    if b == [] {
      assert a + b == a;
    } else {
      var init, last := b[..|b| - 1], b[|b| - 1];
      OutsideAppend(a, init);
      assert (a + b)[..|a + b| - 1] == a + init;
    }
  }

  lemma {:induction false} DefinedIff(sources: seq<Source>, d: ContractDef)
    ensures d in AllDefinitions(sources) <==> exists s :: s in sources && d in s.definitions
  {
    if sources != [] {
      var init, last := sources[..|sources| - 1], sources[|sources| - 1];
      DefinedIff(init, d);
      assert sources == init + [last];
    }
  }

  lemma {:induction false} OutsideIff(sources: seq<Source>, s: Source)
    ensures s in OutsideMocks(sources) <==> s in sources && !InMocks(s.path)
  {
    if sources != [] {
      var init, last := sources[..|sources| - 1], sources[|sources| - 1];
      OutsideIff(init, s);
      IsMockIff(last.path);
      assert sources == init + [last];
    }
  }

  /** A definition is checked exactly when some source outside the mocks has it, */
  lemma CheckedIff(sources: seq<Source>, d: ContractDef)
    ensures d in CheckedDefinitions(sources) <==>
            exists s :: s in sources && !InMocks(s.path) && d in s.definitions
  {
    DefinedIff(OutsideMocks(sources), d);
    forall s
      ensures s in OutsideMocks(sources) <==> s in sources && !InMocks(s.path)
    {
      OutsideIff(sources, s);
    }
  }

  /** and the sources are taken in their order. */
  lemma CheckedInOrder(a: seq<Source>, s: Source, b: seq<Source>)
    ensures CheckedDefinitions(a + [s] + b) ==
            CheckedDefinitions(a) + (if InMocks(s.path) then [] else s.definitions) + CheckedDefinitions(b)
  {
    OutsideAppend(a + [s], b);
    DefinitionsAppend(OutsideMocks(a + [s]), OutsideMocks(b));
    OneMoreChecked(a, s);
    IsMockIff(s.path);
  }

  lemma OneMoreChecked(sources: seq<Source>, s: Source)
    ensures CheckedDefinitions(sources + [s]) ==
            CheckedDefinitions(sources) + if IsMock(s.path) then [] else s.definitions
  {
    assert (sources + [s])[..|sources|] == sources;
    if !IsMock(s.path) {
      assert (OutsideMocks(sources) + [s])[..|OutsideMocks(sources)|] == OutsideMocks(sources);
    }
  }

  /** Their linearizations. */
  function CheckedChains(sources: seq<Source>): seq<Chain> {
    ChainsOf(CheckedDefinitions(sources))
  }

  lemma {:induction false} ChainsAppend(a: seq<ContractDef>, b: seq<ContractDef>)
    ensures ChainsOf(a + b) == ChainsOf(a) + ChainsOf(b)
  {
    if b != [] {
      var init, last := b[..|b| - 1], b[|b| - 1];
      ChainsAppend(a, init);
      assert (a + b)[..|a + b| - 1] == a + init;
    } else {
      assert a + b == a;
    }
  }

  lemma OneMoreSource(sources: seq<Source>, s: nat)
    requires s < |sources|
    ensures var before := CheckedChains(sources[..s]);
            CheckedChains(sources[..s + 1]) ==
            if IsMock(sources[s].path) then before else before + ChainsOf(sources[s].definitions)
  {
    assert sources[..s + 1] == sources[..s] + [sources[s]];
    OneMoreChecked(sources[..s], sources[s]);
    var before := CheckedDefinitions(sources[..s]);
    assert before + [] == before;
    ChainsAppend(before, sources[s].definitions);
  }

  lemma {:induction false} ChainsMembers(definitions: seq<ContractDef>, c: Chain)
    ensures c in ChainsOf(definitions) <==> exists d :: d in definitions && d.linearized == c
  {
    if definitions != [] {
      var init, last := definitions[..|definitions| - 1], definitions[|definitions| - 1];
      ChainsMembers(init, c);
      assert definitions == init + [last];
    }
  }

  // ---- what a compiler emits ----

  /** The definition has a linearization of its own, which starts with it and lists every contract once. */
  ghost predicate StartsWithItself(d: ContractDef) {
    Heads(d.linearized, d.id) && NoDuplicates(d.linearized)
  }

  /** The contract `x` is among the definitions, and its linearization is kept inside that of `d`. */
  ghost predicate Inherits(definitions: seq<ContractDef>, d: ContractDef, x: nat) {
    exists e :: e in definitions && e.id == x && Nested(e.linearized, d.linearized)
  }

  /** The laws of a compiler output: ids are unique, and every base is defined and kept in order. */
  ghost predicate Compiled(definitions: seq<ContractDef>) {
    && (forall d :: d in definitions ==> StartsWithItself(d))
    && (forall d, e :: d in definitions && e in definitions && d.id == e.id ==> d == e)
    && (forall d, x :: d in definitions && x in d.linearized ==> Inherits(definitions, d, x))
  }

  ghost predicate Defined(definitions: seq<ContractDef>, x: nat) {
    exists e :: e in definitions && e.id == x
  }

  /** No contract outside the mocks has a base in a mock. */
  ghost predicate NoMockBases(sources: seq<Source>) {
    var checked := CheckedDefinitions(sources);
    forall d, x :: d in checked && x in d.linearized ==> Defined(checked, x)
  }

  lemma CheckedAreDefined(sources: seq<Source>, d: ContractDef)
    requires d in CheckedDefinitions(sources)
    ensures d in AllDefinitions(sources)
  {
    CheckedIff(sources, d);
    DefinedIff(sources, d);
  }

  /** The check sees a family of linearizations exactly when no base is in a mock. */
  lemma CheckedIsLinearizedIff(sources: seq<Source>)
    requires Compiled(AllDefinitions(sources))
    ensures Linearized(CheckedChains(sources)) <==> NoMockBases(sources)
  {
    var checked, cs := CheckedDefinitions(sources), CheckedChains(sources);
    CheckedLaws(sources);
    if NoMockBases(sources) {
      forall c, x | c in cs && x in c
        ensures HasOwn(cs, c, x)
      {
        ChainsMembers(checked, c);
        var d :| d in checked && d.linearized == c;
        assert Defined(checked, x);
        var e :| e in checked && e.id == x;
        ChainsMembers(checked, e.linearized);
        assert Nested(e.linearized, c);
      }
    }
    if Linearized(cs) {
      forall d, x | d in checked && x in d.linearized
        ensures Defined(checked, x)
      {
        ChainsMembers(checked, d.linearized);
        assert HasOwn(cs, d.linearized, x);
        var c :| c in cs && Heads(c, x);
        ChainsMembers(checked, c);
      }
    }
  }

  lemma CheckedLaws(sources: seq<Source>)
    requires Compiled(AllDefinitions(sources))
    ensures var checked, cs := CheckedDefinitions(sources), CheckedChains(sources);
            && (forall d :: d in checked ==> StartsWithItself(d))
            && (forall d, e :: d in checked && e in checked && e.id in d.linearized ==>
                  Nested(e.linearized, d.linearized))
            && (forall c :: c in cs ==> c != [] && NoDuplicates(c))
            && (forall c, d, x :: c in cs && d in cs && Heads(c, x) && Heads(d, x) ==> c == d)
  {
    var all, checked, cs := AllDefinitions(sources), CheckedDefinitions(sources), CheckedChains(sources);
    forall d | d in checked
      ensures d in all
    {
      CheckedAreDefined(sources, d);
    }
    forall d, e | d in checked && e in checked && e.id in d.linearized
      ensures Nested(e.linearized, d.linearized)
    {
      assert Inherits(all, d, e.id);
    }
    forall c | c in cs
      ensures exists d :: d in checked && d.linearized == c
    {
      ChainsMembers(checked, c);
    }
  }

  lemma PrecedesAppend(cs: seq<Chain>, c: Chain, x: nat, y: nat)
    ensures Precedes(cs + [c], x, y) <==> Precedes(cs, x, y) || Before(c, x, y)
  {
    assert forall d :: d in cs + [c] <==> d in cs || d == c;
  }

  /** The graph has exactly the precedences of the chains as its edges. */
  ghost predicate Represents(edges: set<(nat, nat)>, cs: seq<Chain>) {
    forall x: nat, y: nat :: (x, y) in edges <==> Precedes(cs, x, y)
  }

  method BuildGraph(sources: seq<Source>) returns (graph: Graph, linearized: seq<Chain>)
    ensures fresh(graph) && graph.Valid()
    ensures linearized == CheckedChains(sources)
    ensures Represents(graph.edges, linearized)
  {
    graph := new Graph();
    linearized := [];
    var s := 0;
    while s < |sources|
      invariant 0 <= s <= |sources|
      invariant fresh(graph) && graph.Valid()
      invariant linearized == CheckedChains(sources[..s])
      invariant Represents(graph.edges, linearized)
    {
      var source := sources[s];
      OneMoreSource(sources, s);
      if !IsMock(source.path) {
        linearized := AddDefinitions(graph, linearized, source.definitions);
      }
      s := s + 1;
    }
    assert sources[..s] == sources;
  }

  method AddDefinitions(graph: Graph, chains: seq<Chain>, definitions: seq<ContractDef>)
    returns (linearized: seq<Chain>)
    requires graph.Valid() && Represents(graph.edges, chains)
    modifies graph
    ensures graph.Valid()
    ensures linearized == chains + ChainsOf(definitions)
    ensures Represents(graph.edges, linearized)
  {
    linearized := chains;
    var d := 0;
    while d < |definitions|
      invariant 0 <= d <= |definitions|
      invariant graph.Valid()
      invariant linearized == chains + ChainsOf(definitions[..d])
      invariant Represents(graph.edges, linearized)
    {
      var chain := definitions[d].linearized;
      assert definitions[..d + 1][..d] == definitions[..d];
      forall x: nat, y: nat
        ensures Precedes(linearized + [chain], x, y) <==> Precedes(linearized, x, y) || Before(chain, x, y)
      {
        PrecedesAppend(linearized, chain, x, y);
      }
      linearized := linearized + [chain];
      AddChain(graph, chain);
      d := d + 1;
    }
    assert definitions[..d] == definitions;
  }

  // ---- the report ----

  /** A line for every chain that has both contracts. */
  function Lines(cs: seq<Chain>, x: nat, y: nat): seq<Line> {
    if cs == [] then []
    else
      var c, before := cs[|cs| - 1], Lines(cs[..|cs| - 1], x, y);
      if x in c && y in c then before + [Line(Position(c, x) < Position(c, y), c)] else before
  }

  /**
   * The lines are those of the chains that have both contracts, one for each such chain, and each
   * says how the chain orders the two.
   */
  lemma {:induction false} LinesExact(cs: seq<Chain>, x: nat, y: nat, l: Line)
    requires WellFormed(cs) && x != y
    ensures multiset(Lines(cs, x, y))[l] ==
            if x in l.chain && y in l.chain && (l.firstBeforeSecond <==> Before(l.chain, x, y))
            then multiset(cs)[l.chain] else 0
  {
    if cs != [] {
      var init, c := cs[..|cs| - 1], cs[|cs| - 1];
      LinesExact(init, x, y, l);
      LastLine(init, c, x, y);
      assert cs == init + [c];
      assert c in cs;
      if x in c && y in c {
        PositionsTellOrder(c, x, y);
        assert multiset(Lines(cs, x, y)) == multiset(Lines(init, x, y)) + multiset{Line(Before(c, x, y), c)};
      }
    }
  }

  lemma PositionsTellOrder(c: Chain, x: nat, y: nat)
    requires NoDuplicates(c) && x in c && y in c && x != y
    ensures Position(c, x) < Position(c, y) <==> Before(c, x, y)
  {
    if Before(c, x, y) {
      BeforeIsPosition(c, x, y);
    }
    assert At(c, Position(c, x), x) && At(c, Position(c, y), y);
  }

  lemma LastLine(cs: seq<Chain>, c: Chain, x: nat, y: nat)
    ensures Lines(cs + [c], x, y) ==
            Lines(cs, x, y) + if x in c && y in c then [Line(Position(c, x) < Position(c, y), c)] else []
  {
    assert (cs + [c])[..|cs|] == cs;
  }

  /** The lines follow the order of the chains. */
  lemma {:induction false} LinesInOrder(cs: seq<Chain>, ds: seq<Chain>, x: nat, y: nat)
    ensures Lines(cs + ds, x, y) == Lines(cs, x, y) + Lines(ds, x, y)
  {
    if ds == [] {
      assert cs + ds == cs;
    } else {
      var init, last := ds[..|ds| - 1], ds[|ds| - 1];
      LinesInOrder(cs, init, x, y);
      assert cs + ds == (cs + init) + [last] && ds == init + [last];
      LastLine(cs + init, last, x, y);
      LastLine(init, last, x, y);
    }
  }

  lemma {:induction false} LineOfChain(cs: seq<Chain>, c: Chain, x: nat, y: nat)
    requires c in cs && NoDuplicates(c) && Before(c, x, y)
    ensures Line(true, c) in Lines(cs, x, y)
    ensures Line(false, c) in Lines(cs, y, x)
  {
    var i, j :| At(c, i, x) && At(c, j, y) && i < j;
    assert c[Position(c, x)] == c[i] && c[Position(c, y)] == c[j];
    if c != cs[|cs| - 1] {
      LineOfChain(cs[..|cs| - 1], c, x, y);
    }
  }

  /** Every report of duplicate-free chains shows chains for both directions. */
  lemma ReportShowsBoth(cs: seq<Chain>, x: nat, y: nat)
    requires WellFormed(cs) && Conflicting(cs, x, y)
    ensures exists c :: Line(true, c) in Lines(cs, x, y)
    ensures exists c :: Line(false, c) in Lines(cs, x, y)
  {
    var c :| c in cs && Before(c, x, y);
    var d :| d in cs && Before(d, y, x);
    LineOfChain(cs, c, x, y);
    LineOfChain(cs, d, y, x);
  }

  /** The pair is in the report once if it is ordered both ways, and not at all otherwise. */
  ghost predicate Exact(report: seq<Conflict>, cs: seq<Chain>) {
    && (forall k :: 0 <= k < |report| ==>
          var r := report[k]; r.x < r.y && Conflicting(cs, r.x, r.y) && r.lines == Lines(cs, r.x, r.y))
    && (forall k, l :: 0 <= k < l < |report| ==> (report[k].x, report[k].y) != (report[l].x, report[l].y))
    && (forall x, y :: x < y && Conflicting(cs, x, y) ==> Reports(report, x, y))
  }

  /** The pair comes, in the node list, before the positions `i` and `j` of the two loops. */
  ghost predicate Visited(nodes: seq<nat>, i: nat, j: nat, x: nat, y: nat) {
    exists a, b :: At(nodes, a, x) && At(nodes, b, y) && a < b && (a < i || (a == i && b < j))
  }

  ghost predicate Reports(report: seq<Conflict>, x: nat, y: nat) {
    exists k :: 0 <= k < |report| && report[k].x == x && report[k].y == y
  }

  /** The report is exact on the pairs visited so far. */
  ghost predicate ExactSoFar(report: seq<Conflict>, cs: seq<Chain>, nodes: seq<nat>, i: nat, j: nat) {
    && (forall k :: 0 <= k < |report| ==>
          var r := report[k];
          Visited(nodes, i, j, r.x, r.y) && Conflicting(cs, r.x, r.y) && r.lines == Lines(cs, r.x, r.y))
    && (forall k, l :: 0 <= k < l < |report| ==> (report[k].x, report[k].y) != (report[l].x, report[l].y))
    && (forall x, y :: Visited(nodes, i, j, x, y) && Conflicting(cs, x, y) ==> Reports(report, x, y))
  }

  lemma VisitNext(nodes: seq<nat>, i: nat, j: nat, x: nat, y: nat)
    requires Ascending(nodes) && i < j < |nodes|
    ensures Visited(nodes, i, j + 1, x, y) <==>
            Visited(nodes, i, j, x, y) || (x == nodes[i] && y == nodes[j])
    ensures !Visited(nodes, i, j, nodes[i], nodes[j])
  {
    assert At(nodes, i, nodes[i]) && At(nodes, j, nodes[j]);
  }

  lemma VisitNextRow(nodes: seq<nat>, i: nat, x: nat, y: nat)
    requires i < |nodes|
    ensures Visited(nodes, i, |nodes|, x, y) <==> Visited(nodes, i + 1, i + 2, x, y)
  {
  }

  method ReportRow(graph: Graph, cs: seq<Chain>, i: nat, before: seq<Conflict>) returns (report: seq<Conflict>)
    requires graph.Valid() && Represents(graph.edges, cs) && i < |graph.nodes|
    requires ExactSoFar(before, cs, graph.nodes, i, i + 1)
    ensures ExactSoFar(report, cs, graph.nodes, i + 1, i + 2)
  {
    report := before;
    var nodes := graph.nodes;
    var x, j := nodes[i], i + 1;
    while j < |nodes|
      invariant i < j <= |nodes|
      invariant ExactSoFar(report, cs, nodes, i, j)
    {
      var y := nodes[j];
      var forward := graph.HasEdge(x, y);
      var backward := graph.HasEdge(y, x);
      VisitForall(nodes, i, j);
      if forward && backward {
        AddConflict(report, cs, nodes, i, j);
        report := report + [Conflict(x, y, Lines(cs, x, y))];
      }
      j := j + 1;
    }
    forall x, y
      ensures Visited(nodes, i, |nodes|, x, y) <==> Visited(nodes, i + 1, i + 2, x, y)
    {
      VisitNextRow(nodes, i, x, y);
    }
  }

  lemma VisitForall(nodes: seq<nat>, i: nat, j: nat)
    requires Ascending(nodes) && i < j < |nodes|
    ensures forall x, y :: Visited(nodes, i, j + 1, x, y) <==>
                           Visited(nodes, i, j, x, y) || (x == nodes[i] && y == nodes[j])
    ensures !Visited(nodes, i, j, nodes[i], nodes[j])
  {
    forall x, y
      ensures Visited(nodes, i, j + 1, x, y) <==>
              Visited(nodes, i, j, x, y) || (x == nodes[i] && y == nodes[j])
    {
      VisitNext(nodes, i, j, x, y);
    }
    VisitNext(nodes, i, j, nodes[i], nodes[j]);
  }

  lemma AddConflict(report: seq<Conflict>, cs: seq<Chain>, nodes: seq<nat>, i: nat, j: nat)
    requires Ascending(nodes) && i < j < |nodes| && ExactSoFar(report, cs, nodes, i, j)
    requires Conflicting(cs, nodes[i], nodes[j])
    ensures ExactSoFar(report + [Conflict(nodes[i], nodes[j], Lines(cs, nodes[i], nodes[j]))], cs, nodes, i, j + 1)
  {
    VisitForall(nodes, i, j);
    var conflict := Conflict(nodes[i], nodes[j], Lines(cs, nodes[i], nodes[j]));
    forall x, y | Visited(nodes, i, j + 1, x, y) && Conflicting(cs, x, y)
      ensures Reports(report + [conflict], x, y)
    {
      ReportsAppend(report, conflict, x, y);
    }
    forall k | 0 <= k < |report|
      ensures (report[k].x, report[k].y) != (conflict.x, conflict.y)
    {
      assert Visited(nodes, i, j, report[k].x, report[k].y);
    }
  }

  lemma ReportsAppend(report: seq<Conflict>, c: Conflict, x: nat, y: nat)
    ensures Reports(report, x, y) ==> Reports(report + [c], x, y)
    ensures Reports(report + [c], c.x, c.y)
  {
    var added := report + [c];
    assert added[|report|] == c;
    if k :| 0 <= k < |report| && report[k].x == x && report[k].y == y {
      assert added[k] == report[k];
    }
  }

  /** Reports every pair of contracts that two linearizations order in opposite ways. */
  method CheckArtifact(sources: seq<Source>) returns (report: seq<Conflict>, failed: bool)
    ensures Exact(report, CheckedChains(sources))
    ensures failed <==> !NoConflict(CheckedChains(sources))
  {
    var graph, linearized := BuildGraph(sources);
    report := [];
    var nodes := graph.nodes;
    var i := 0;
    while i < |nodes|
      invariant 0 <= i <= |nodes| && graph.nodes == nodes
      invariant graph.Valid() && Represents(graph.edges, linearized)
      invariant ExactSoFar(report, linearized, nodes, i, i + 1)
    {
      report := ReportRow(graph, linearized, i, report);
      i := i + 1;
    }
    AllVisited(report, linearized, nodes, graph.edges);
    failed := report != [];
  }

  lemma AllVisited(report: seq<Conflict>, cs: seq<Chain>, nodes: seq<nat>, edges: set<(nat, nat)>)
    requires Ascending(nodes) && Represents(edges, cs)
    requires forall x: nat, y: nat :: (x, y) in edges ==> x in nodes && y in nodes
    requires ExactSoFar(report, cs, nodes, |nodes|, |nodes| + 1)
    ensures Exact(report, cs)
    ensures report == [] <==> NoConflict(cs)
  {
    forall x: nat, y: nat | Conflicting(cs, x, y) && x < y
      ensures Reports(report, x, y)
    {
      assert (x, y) in edges;
      var a, b := Position(nodes, x), Position(nodes, y);
      assert At(nodes, a, x) && At(nodes, b, y) && a < b;
    }
    forall x: nat, y: nat | Conflicting(cs, x, y)
      ensures report != []
    {
      assert Conflicting(cs, y, x);
      assert Reports(report, if x < y then x else y, if x < y then y else x);
    }
    if report != [] {
      assert Conflicting(cs, report[0].x, report[0].y);
    }
  }

  ghost predicate Consistent(cs: seq<Chain>) {
    exists order :: Orders(order, cs)
  }

  /** Looking for cycles of length two is enough for these chains. */
  ghost predicate Decisive(cs: seq<Chain>) {
    WellFormed(cs) && forall p :: !Hole(cs, p)
  }

  /**
   * The exit code is set when any of the given compiler outputs has a conflict. It never is when the
   * ordering is consistent, and when it is not, the ordering is consistent wherever there is no hole.
   */
  method CheckAll(artifacts: seq<seq<Source>>) returns (failed: bool)
    ensures failed <==> exists a :: 0 <= a < |artifacts| && !NoConflict(CheckedChains(artifacts[a]))
    ensures failed ==> exists a :: 0 <= a < |artifacts| && !Consistent(CheckedChains(artifacts[a]))
    ensures !failed ==> forall a :: 0 <= a < |artifacts| && Decisive(CheckedChains(artifacts[a])) ==>
                                      Consistent(CheckedChains(artifacts[a]))
  {
    failed := false;
    var a := 0;
    while a < |artifacts|
      invariant 0 <= a <= |artifacts|
      invariant failed <==> exists b :: 0 <= b < a && !NoConflict(CheckedChains(artifacts[b]))
      invariant failed ==> exists b :: 0 <= b < a && !Consistent(CheckedChains(artifacts[b]))
      invariant !failed ==> forall b :: 0 <= b < a && Decisive(CheckedChains(artifacts[b])) ==>
                                          Consistent(CheckedChains(artifacts[b]))
    {
      var _, conflict := CheckArtifact(artifacts[a]);
      VerdictIsRight(CheckedChains(artifacts[a]));
      failed := failed || conflict;
      a := a + 1;
    }
  }

  /** A conflict rules out every total order; without one there is a total order, unless there is a hole. */
  lemma VerdictIsRight(cs: seq<Chain>)
    ensures Consistent(cs) ==> NoConflict(cs)
    ensures Decisive(cs) ==> (Consistent(cs) <==> NoConflict(cs))
  {
    if x, y :| Conflicting(cs, x, y) {
      assert Cycle(cs, [x, y]);
      ConsistentIffAcyclic(cs);
    } else if Decisive(cs) {
      CleanCheckIsConsistent(cs);
    }
  }

  // ---- a compiler output with a cycle that the check does not see ----

  function Heir(linearized: Chain): ContractDef
    requires linearized != []
  {
    ContractDef(linearized[0], linearized)
  }

  /** The contracts of `RING`, in one source file. */
  function RingSource(path: string): Source {
    Source(path, [Heir([4, 1, 2]), Heir([5, 2, 3]), Heir([6, 3, 1]), Heir([1]), Heir([2]), Heir([3])])
  }

  lemma RingCompiles(path: string)
    ensures ChainsOf(RingSource(path).definitions) == RING
    ensures Compiled(RingSource(path).definitions)
  {
    var definitions := RingSource(path).definitions;
    ChainsInOrder(definitions);
    assert ChainsOf(definitions) == RING;
    RingIsLinearized();
    forall d | d in definitions
      ensures StartsWithItself(d)
    {
      ChainsMembers(definitions, d.linearized);
    }
    forall d, x | d in definitions && x in d.linearized
      ensures Inherits(definitions, d, x)
    {
      ChainsMembers(definitions, d.linearized);
      assert HasOwn(RING, d.linearized, x);
      var c :| c in RING && Heads(c, x) && Nested(c, d.linearized);
      ChainsMembers(definitions, c);
    }
  }

  lemma {:induction false} ChainsInOrder(definitions: seq<ContractDef>)
    ensures |ChainsOf(definitions)| == |definitions|
    ensures forall i :: 0 <= i < |definitions| ==> ChainsOf(definitions)[i] == definitions[i].linearized
  {
    if definitions != [] {
      ChainsInOrder(definitions[..|definitions| - 1]);
    }
  }

  /** A compiler output that passes the check although no total order agrees with its linearizations. */
  lemma CheckMissesCycle(path: string)
    requires !IsMock(path)
    ensures var sources := [RingSource(path)];
            && Compiled(AllDefinitions(sources)) && NoMockBases(sources)
            && NoConflict(CheckedChains(sources)) && !Consistent(CheckedChains(sources))
  {
    var sources := [RingSource(path)];
    assert sources[..0] == [];
    assert OutsideMocks(sources) == sources;
    assert AllDefinitions(sources) == RingSource(path).definitions;
    RingCompiles(path);
    CycleWithoutConflict();
    CheckedIsLinearizedIff(sources);
  }
}
