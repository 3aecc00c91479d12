/** The rewriting of import paths, on a source seen as a sequence of path tokens and other text. */
module MigrateImports {
  import opened UpgradeablePaths

  /** One entry of a rewriting table. */
  datatype Entry = Entry(from: string, to: string)

  /** Replaces the first token equal to `from`, as `String.replace` does with a string pattern. */
  function ReplaceFirst(source: seq<string>, from: string, to: string): seq<string> {
    if source == [] then []
    else
      var init, last := source[..|source| - 1], source[|source| - 1];
      ReplaceFirst(init, from, to) + [if last == from && from !in init then to else last]
  }

  /** One pass of a table, entry by entry. */
  function Pass(table: seq<Entry>, source: seq<string>): seq<string> {
    if table == [] then source
    else
      var last := table[|table| - 1];
      ReplaceFirst(Pass(table[..|table| - 1], source), last.from, last.to)
  }

  function Passes(n: nat, table: seq<Entry>, source: seq<string>): seq<string> {
    if n == 0 then source else Pass(table, Passes(n - 1, table, source))
  }

  // ---- the closed form ----

  /** The keys of an object are distinct. */
  ghost predicate DistinctKeys(table: seq<Entry>) {
    forall i, j :: 0 <= i < j < |table| ==> table[i].from != table[j].from
  }

  predicate Proper(e: Entry) {
    e.from != e.to
  }

  /** No path that an entry produces is a path that an entry changes. */
  ghost predicate Unchained(table: seq<Entry>) {
    forall d, e :: d in table && e in table && Proper(d) && Proper(e) ==> d.to != e.from
  }

  function Count(source: seq<string>, token: string): nat {
    if source == [] then 0
    else Count(source[..|source| - 1], token) + if source[|source| - 1] == token then 1 else 0
  }

  lemma {:induction false} CountZero(source: seq<string>, token: string)
    ensures Count(source, token) == 0 <==> token !in source
  {
    if source != [] {
      var init, last := source[..|source| - 1], source[|source| - 1];
      CountZero(init, token);
      assert source == init + [last];
    }
  }

  /** What the table makes of a token. */
  function Image(table: seq<Entry>, token: string): string {
    if table == [] then token
    else
      var last := table[|table| - 1];
      if last.from == token then last.to else Image(table[..|table| - 1], token)
  }

  /** The first `n` occurrences of every path are replaced, all at once. */
  function FirstOccurrences(n: nat, table: seq<Entry>, source: seq<string>): seq<string> {
    if source == [] then []
    else
      var init, last := source[..|source| - 1], source[|source| - 1];
      FirstOccurrences(n, table, init) + [if Count(init, last) < n then Image(table, last) else last]
  }

  /** All occurrences of every path are replaced, all at once. */
  function Simultaneous(table: seq<Entry>, source: seq<string>): seq<string> {
    if source == [] then []
    else Simultaneous(table, source[..|source| - 1]) + [Image(table, source[|source| - 1])]
  }

  lemma {:induction false} ImageIsEntry(table: seq<Entry>, token: string)
    ensures Image(table, token) != token ==> Entry(token, Image(table, token)) in table
    ensures (forall e :: e in table ==> e.from != token) ==> Image(table, token) == token
    ensures (exists e :: e in table && e.from == token) ==> Entry(token, Image(table, token)) in table
  {
    if table != [] {
      var init, last := table[..|table| - 1], table[|table| - 1];
      ImageIsEntry(init, token);
      assert table == init + [last];
      assert last.from == token ==> last == Entry(token, Image(table, token));
    }
  }

  lemma ImageStable(table: seq<Entry>, token: string)
    requires Unchained(table)
    ensures Image(table, Image(table, token)) == Image(table, token)
  {
    var to := Image(table, token);
    ImageIsEntry(table, token);
    ImageIsEntry(table, to);
    if to != token && Image(table, to) != to {
      assert Proper(Entry(token, to)) && Proper(Entry(to, Image(table, to)));
    }
  }

  /** Replacing first occurrences neither adds nor removes tokens that no entry touches. */
  lemma {:induction false} CountUntouched(n: nat, table: seq<Entry>, source: seq<string>, token: string)
    requires Image(table, token) == token
    requires forall e :: e in table && Proper(e) ==> e.to != token
    ensures Count(FirstOccurrences(n, table, source), token) == Count(source, token)
  {
    if source != [] {
      var init, last := source[..|source| - 1], source[|source| - 1];
      CountUntouched(n, table, init, token);
      ImageIsEntry(table, last);
      assert Image(table, last) != last ==> Proper(Entry(last, Image(table, last)));
      assert FirstOccurrences(n, table, source)[..|FirstOccurrences(n, table, source)| - 1]
          == FirstOccurrences(n, table, init);
    }
  }

  /** Of a token that the table changes, the first `n` occurrences are gone and none is new. */
  lemma {:induction false} CountReplaced(n: nat, table: seq<Entry>, source: seq<string>, token: string)
    requires Unchained(table) && Image(table, token) != token
    ensures var c := Count(source, token);
            Count(FirstOccurrences(n, table, source), token) == if c <= n then 0 else c - n
  {
    if source != [] {
      var init, last := source[..|source| - 1], source[|source| - 1];
      CountReplaced(n, table, init, token);
      ImageIsEntry(table, token);
      ImageIsEntry(table, last);
      assert Proper(Entry(token, Image(table, token)));
      assert Image(table, last) != last ==> Proper(Entry(last, Image(table, last)));
      assert FirstOccurrences(n, table, source)[..|FirstOccurrences(n, table, source)| - 1]
          == FirstOccurrences(n, table, init);
    }
  }

  /** One more entry replaces one more kind of first occurrence. */
  lemma {:induction false} EntryExtends(table: seq<Entry>, e: Entry, source: seq<string>)
    requires DistinctKeys(table + [e]) && Unchained(table + [e])
    ensures ReplaceFirst(FirstOccurrences(1, table, source), e.from, e.to)
         == FirstOccurrences(1, table + [e], source)
  {
    if source != [] {
      var init, last := source[..|source| - 1], source[|source| - 1];
      var all, u := table + [e], FirstOccurrences(1, table, source);
      var before := FirstOccurrences(1, table, init);
      EntryExtends(table, e, init);
      assert all[..|all| - 1] == table && u[..|u| - 1] == before;
      assert forall d :: d in table ==> d in all;
      assert e in all;
      forall d | d in table
        ensures d.from != e.from
      {
        var i :| 0 <= i < |table| && table[i] == d;
        assert all[i] == d && all[|table|] == e;
      }
      ImageIsEntry(table, e.from);
      ImageIsEntry(table, last);
      assert Image(table, last) != last ==> Proper(Entry(last, Image(table, last)));
      if Proper(e) {
        CountUntouched(1, table, init, e.from);
        CountZero(before, e.from);
        CountZero(init, e.from);
      }
    }
  }

  /** A pass replaces the first occurrence of every path, whatever the order of the entries. */
  lemma {:induction false} PassIsFirstOccurrences(table: seq<Entry>, source: seq<string>)
    requires DistinctKeys(table) && Unchained(table)
    ensures Pass(table, source) == FirstOccurrences(1, table, source)
  {
    if table == [] {
      NothingReplaced(1, source);
    } else {
      var init, last := table[..|table| - 1], table[|table| - 1];
      assert table == init + [last];
      PassIsFirstOccurrences(init, source);
      EntryExtends(init, last, source);
    }
  }

  lemma {:induction false} NothingReplaced(n: nat, source: seq<string>)
    ensures FirstOccurrences(n, [], source) == source
  {
    if source != [] {
      NothingReplaced(n, source[..|source| - 1]);
    }
  }

  lemma {:induction false} NoneReplaced(table: seq<Entry>, source: seq<string>)
    ensures FirstOccurrences(0, table, source) == source
  {
    if source != [] {
      NoneReplaced(table, source[..|source| - 1]);
    }
  }

  lemma {:induction false} OneMore(n: nat, table: seq<Entry>, source: seq<string>)
    requires Unchained(table)
    ensures FirstOccurrences(1, table, FirstOccurrences(n, table, source)) == FirstOccurrences(n + 1, table, source)
  {
    if source != [] {
      var init, last := source[..|source| - 1], source[|source| - 1];
      OneMore(n, table, init);
      var t := FirstOccurrences(n, table, source);
      assert t[..|t| - 1] == FirstOccurrences(n, table, init);
      ImageStable(table, last);
      if Image(table, last) != last {
        CountReplaced(n, table, init, last);
      }
    }
  }

  /** `n` passes replace exactly the first `n` occurrences of every path. */
  lemma {:induction false} PassesAreFirstOccurrences(n: nat, table: seq<Entry>, source: seq<string>)
    requires DistinctKeys(table) && Unchained(table)
    ensures Passes(n, table, source) == FirstOccurrences(n, table, source)
  {
    if n == 0 {
      NoneReplaced(table, source);
    } else {
      var before := FirstOccurrences(n - 1, table, source);
      PassesAreFirstOccurrences(n - 1, table, source);
      assert Passes(n, table, source) == Pass(table, before);
      PassIsFirstOccurrences(table, before);
      OneMore(n - 1, table, source);
    }
  }

  /** The closed form holds of every source and number of passes exactly when no rewriting feeds another. */
  lemma PassesExactIff(table: seq<Entry>)
    requires DistinctKeys(table)
    ensures (forall n: nat, source :: Passes(n, table, source) == FirstOccurrences(n, table, source))
       <==> Unchained(table)
  {
    if Unchained(table) {
      forall n: nat, source
        ensures Passes(n, table, source) == FirstOccurrences(n, table, source)
      {
        PassesAreFirstOccurrences(n, table, source);
      }
    } else {
      var d, e :| d in table && e in table && Proper(d) && Proper(e) && d.to == e.from;
      ImageOfEntry(table, d);
      ImageOfEntry(table, e);
      SingleToken(1, table, d.from);
      SingleToken(2, table, d.from);
      SingleToken(1, table, d.to);
      var a, b := [d.from], [d.to];
      assert Passes(1, table, a) == Pass(table, Passes(0, table, a));
      assert Passes(1, table, b) == Pass(table, Passes(0, table, b));
      assert Passes(2, table, a) == Pass(table, Passes(1, table, a));
      assert [e.to] != b by {
        assert [e.to][0] != b[0];
      }
    }
  }

  lemma {:induction false} ImageOfEntry(table: seq<Entry>, e: Entry)
    requires DistinctKeys(table) && e in table
    ensures Image(table, e.from) == e.to
  {
    var init, last := table[..|table| - 1], table[|table| - 1];
    if e != last {
      assert e in init;
      var i :| 0 <= i < |init| && init[i] == e;
      assert table[i] == e;
      ImageOfEntry(init, e);
    }
  }

  lemma SingleToken(n: nat, table: seq<Entry>, token: string)
    requires n > 0
    ensures FirstOccurrences(n, table, [token]) == [Image(table, token)]
  {
    assert [token][..0] == [];
  }

  /** There are as many passes as occurrences of each path that the table changes. */
  ghost predicate Enough(n: nat, table: seq<Entry>, source: seq<string>) {
    forall token :: Image(table, token) != token ==> Count(source, token) <= n
  }

  lemma {:induction false} EnoughIsAll(n: nat, table: seq<Entry>, source: seq<string>)
    requires Enough(n, table, source)
    ensures FirstOccurrences(n, table, source) == Simultaneous(table, source)
  {
    if source != [] {
      var init, last := source[..|source| - 1], source[|source| - 1];
      forall token | Image(table, token) != token
        ensures Count(init, token) <= n
      {
        assert Count(source, token) <= n;
      }
      EnoughIsAll(n, table, init);
      assert Count(source, last) == Count(init, last) + 1;
    }
  }

  lemma {:induction false} CountBounded(source: seq<string>, token: string)
    ensures Count(source, token) <= |source|
  {
    if source != [] {
      CountBounded(source[..|source| - 1], token);
    }
  }

  /** The simultaneous rewriting leaves no path that the table changes. */
  lemma NoneLeft(table: seq<Entry>, source: seq<string>, token: string)
    requires Unchained(table) && Image(table, token) != token
    ensures Count(Simultaneous(table, source), token) == 0
  {
    var n := |source|;
    forall other
      ensures Count(source, other) <= n
    {
      CountBounded(source, other);
    }
    EnoughIsAll(n, table, source);
    CountReplaced(n, table, source, token);
  }

  /** Passes reach the simultaneous rewriting exactly when there are enough of them. */
  lemma ConvergesIff(n: nat, table: seq<Entry>, source: seq<string>)
    requires DistinctKeys(table) && Unchained(table)
    ensures Passes(n, table, source) == Simultaneous(table, source) <==> Enough(n, table, source)
  {
    PassesAreFirstOccurrences(n, table, source);
    if Enough(n, table, source) {
      EnoughIsAll(n, table, source);
    } else {
      var token :| Image(table, token) != token && Count(source, token) > n;
      CountReplaced(n, table, source, token);
      NoneLeft(table, source, token);
    }
  }

  /** From then on nothing changes any more. */
  lemma Converges(n: nat, table: seq<Entry>, source: seq<string>)
    requires DistinctKeys(table) && Unchained(table) && Enough(n, table, source)
    ensures Passes(n, table, source) == Simultaneous(table, source)
    ensures Pass(table, Passes(n, table, source)) == Passes(n, table, source)
  {
    ConvergesIff(n, table, source);
    ConvergesIff(n + 1, table, source);
  }

  /** The order of the entries does not matter. */
  lemma OrderIrrelevant(n: nat, table: seq<Entry>, permuted: seq<Entry>, source: seq<string>)
    requires DistinctKeys(table) && DistinctKeys(permuted) && Unchained(table)
    requires forall e :: e in table <==> e in permuted
    ensures Passes(n, table, source) == Passes(n, permuted, source)
  {
    PassesAreFirstOccurrences(n, table, source);
    PassesAreFirstOccurrences(n, permuted, source);
    SameImages(n, table, permuted, source);
  }

  lemma {:induction false} SameImages(n: nat, table: seq<Entry>, permuted: seq<Entry>, source: seq<string>)
    requires DistinctKeys(table) && DistinctKeys(permuted)
    requires forall e :: e in table <==> e in permuted
    ensures FirstOccurrences(n, table, source) == FirstOccurrences(n, permuted, source)
  {
    if source != [] {
      var last := source[|source| - 1];
      SameImages(n, table, permuted, source[..|source| - 1]);
      ImageIsEntry(table, last);
      ImageIsEntry(permuted, last);
      if e :| e in table && e.from == last {
        ImageOfEntry(table, e);
        ImageOfEntry(permuted, e);
      }
    }
  }

  // ---- the two packages ----

  const CONTRACTS := "@openzeppelin/contracts"
  const UPGRADEABLE := "@openzeppelin/contracts-upgradeable"

  /** `path.join` of a package and a normalised relative path. */
  function Join(package: string, file: string): string {
    package + "/" + file
  }

  /** The import token of a file of the one package or the other. */
  function Token(file: string, upgradeable: bool): string {
    if upgradeable then Join(UPGRADEABLE, GetUpgradeablePath(file)) else Join(CONTRACTS, file)
  }

  /** What a path update makes of an import of the one package or the other. */
  function Replacement(e: Entry, upgradeable: bool): Entry {
    Entry(Token(e.from, upgradeable), Token(e.to, upgradeable))
  }

  /** The replacements that one pass makes: two for each path update. */
  function Expanded(pathUpdates: seq<Entry>): seq<Entry> {
    if pathUpdates == [] then []
    else
      var last := pathUpdates[|pathUpdates| - 1];
      Expanded(pathUpdates[..|pathUpdates| - 1]) + [Replacement(last, false), Replacement(last, true)]
  }

  /** One path update: the plain import first, then the upgradeable one. */
  function Updated(e: Entry, source: seq<string>): seq<string> {
    var plain := ReplaceFirst(source, Token(e.from, false), Token(e.to, false));
    ReplaceFirst(plain, Token(e.from, true), Token(e.to, true))
  }

  function AllUpdated(pathUpdates: seq<Entry>, source: seq<string>): seq<string> {
    if pathUpdates == [] then source
    else Updated(pathUpdates[|pathUpdates| - 1], AllUpdated(pathUpdates[..|pathUpdates| - 1], source))
  }

  method UpdateImportPaths(pathUpdates: seq<Entry>, source: seq<string>) returns (updated: seq<string>)
    ensures updated == AllUpdated(pathUpdates, source) == Pass(Expanded(pathUpdates), source)
  {
    updated := source;
    var i := 0;
    while i < |pathUpdates|
      invariant 0 <= i <= |pathUpdates|
      invariant updated == AllUpdated(pathUpdates[..i], source)
    {
      var from, to := pathUpdates[i].from, pathUpdates[i].to;
      OneMoreUpdated(pathUpdates, i, source);
      updated := ReplaceFirst(updated, Token(from, false), Token(to, false));
      updated := ReplaceFirst(updated, Token(from, true), Token(to, true));
      i := i + 1;
    }
    assert pathUpdates[..i] == pathUpdates;
    UpdatesArePass(pathUpdates, source);
  }

  lemma OneMoreUpdated(pathUpdates: seq<Entry>, i: nat, source: seq<string>)
    requires i < |pathUpdates|
    ensures AllUpdated(pathUpdates[..i + 1], source) == Updated(pathUpdates[i], AllUpdated(pathUpdates[..i], source))
  {
    assert pathUpdates[..i + 1][..i] == pathUpdates[..i];
  }

  lemma {:induction false} UpdatesArePass(pathUpdates: seq<Entry>, source: seq<string>)
    ensures AllUpdated(pathUpdates, source) == Pass(Expanded(pathUpdates), source)
  {
    if pathUpdates != [] {
      var init, last := pathUpdates[..|pathUpdates| - 1], pathUpdates[|pathUpdates| - 1];
      UpdatesArePass(init, source);
      PassOfTwo(Expanded(init), Replacement(last, false), Replacement(last, true), source);
    }
  }

  lemma PassOfTwo(table: seq<Entry>, d: Entry, e: Entry, source: seq<string>)
    ensures Pass(table + [d, e], source) == ReplaceFirst(ReplaceFirst(Pass(table, source), d.from, d.to), e.from, e.to)
  {
    var one, two := table + [d], table + [d, e];
    assert two[..|two| - 1] == one && one[..|one| - 1] == table;
  }

  /** Paths of different packages differ, and within a package they differ as the files do. */
  lemma JoinsDiffer(f: string, g: string)
    ensures Join(CONTRACTS, f) != Join(UPGRADEABLE, g)
    ensures Join(CONTRACTS, f) == Join(CONTRACTS, g) <==> f == g
    ensures Join(UPGRADEABLE, f) == Join(UPGRADEABLE, g) <==> f == g
  {
    assert Join(CONTRACTS, f)[|CONTRACTS|] == '/';
    assert Join(UPGRADEABLE, g)[|CONTRACTS|] == UPGRADEABLE[|CONTRACTS|] == '-';
    assert Join(CONTRACTS, f)[|CONTRACTS| + 1..] == f && Join(CONTRACTS, g)[|CONTRACTS| + 1..] == g;
    assert Join(UPGRADEABLE, f)[|UPGRADEABLE| + 1..] == f && Join(UPGRADEABLE, g)[|UPGRADEABLE| + 1..] == g;
  }

  ghost predicate RelativeFiles(table: seq<Entry>) {
    forall e :: e in table ==> IsRelativeFile(e.from) && IsRelativeFile(e.to)
  }

  /** The path update behind a replacement. */
  lemma {:induction false} Origin(table: seq<Entry>, x: Entry) returns (e: Entry, upgradeable: bool)
    requires x in Expanded(table)
    ensures e in table && x == Replacement(e, upgradeable)
  {
    var init, last := table[..|table| - 1], table[|table| - 1];
    if x == Replacement(last, false) {
      e, upgradeable := last, false;
    } else if x == Replacement(last, true) {
      e, upgradeable := last, true;
    } else {
      e, upgradeable := Origin(init, x);
    }
  }

  /** Replacements collide or feed each other only when the path updates they come from do. */
  lemma ReplacementsCollide(d: Entry, e: Entry, f: bool, g: bool)
    requires IsRelativeFile(d.from) && IsRelativeFile(d.to) && IsRelativeFile(e.from)
    ensures var x, y := Replacement(d, f), Replacement(e, g);
            && (x.from == y.from <==> f == g && d.from == e.from)
            && (x.to == y.from <==> f == g && d.to == e.from)
            && (Proper(x) <==> Proper(d))
  {
    TokensCollide(d.from, e.from, f, g);
    TokensCollide(d.to, e.from, f, g);
    TokensCollide(d.from, d.to, f, f);
  }

  lemma TokensCollide(p: string, q: string, f: bool, g: bool)
    requires IsRelativeFile(p) && IsRelativeFile(q)
    ensures Token(p, f) == Token(q, g) <==> f == g && p == q
  {
    UpgradeableInjective(p, q);
    RelativeIsRejoined(p);
    RelativeIsRejoined(q);
    JoinsDiffer(if f then GetUpgradeablePath(p) else p, if g then GetUpgradeablePath(q) else q);
    JoinsDiffer(if g then GetUpgradeablePath(q) else q, if f then GetUpgradeablePath(p) else p);
  }

  /** The replacements of both packages inherit what the path updates need for convergence. */
  lemma ExpandedUnchained(table: seq<Entry>)
    requires RelativeFiles(table) && Unchained(table)
    ensures Unchained(Expanded(table))
  {
    forall x, y | x in Expanded(table) && y in Expanded(table) && Proper(x) && Proper(y)
      ensures x.to != y.from
    {
      var d, f := Origin(table, x);
      var e, g := Origin(table, y);
      ReplacementsCollide(d, e, f, g);
      ReplacementsCollide(e, e, g, g);
    }
  }

  lemma {:induction false} ExpandedDistinct(table: seq<Entry>)
    requires RelativeFiles(table) && DistinctKeys(table)
    ensures DistinctKeys(Expanded(table))
  {
    if table != [] {
      var init, last := table[..|table| - 1], table[|table| - 1];
      assert table == init + [last];
      assert forall e :: e in init ==> e in table;
      ExpandedDistinct(init);
      NewKeys(init, last);
      var d, e := Replacement(last, false), Replacement(last, true);
      TwoMoreDistinct(Expanded(init), d, e);
      assert Expanded(table) == Expanded(init) + [d, e];
    }
  }

  lemma NewKeys(init: seq<Entry>, last: Entry)
    requires RelativeFiles(init + [last]) && DistinctKeys(init + [last])
    ensures forall x, g :: x in Expanded(init) ==> x.from != Replacement(last, g).from
    ensures Replacement(last, false).from != Replacement(last, true).from
  {
    assert last in init + [last];
    ReplacementsCollide(last, last, false, true);
    forall x, g | x in Expanded(init)
      ensures x.from != Replacement(last, g).from
    {
      NewKey(init, last, x, g);
    }
  }

  lemma NewKey(init: seq<Entry>, last: Entry, x: Entry, g: bool)
    requires RelativeFiles(init + [last]) && DistinctKeys(init + [last]) && x in Expanded(init)
    ensures x.from != Replacement(last, g).from
  {
    var table := init + [last];
    var d, f := Origin(init, x);
    var i :| 0 <= i < |init| && init[i] == d;
    assert table[i] == d && table[|init|] == last;
    assert d in table && last in table;
    ReplacementsCollide(d, last, f, g);
  }

  lemma TwoMoreDistinct(table: seq<Entry>, d: Entry, e: Entry)
    requires DistinctKeys(table) && d.from != e.from
    requires forall x :: x in table ==> x.from != d.from && x.from != e.from
    ensures DistinctKeys(table + [d, e])
  {
    var all := table + [d, e];
    assert forall i :: 0 <= i < |table| ==> all[i] in table;
  }

  /** What becomes of each occurrence of each token. */
  lemma {:induction false} FirstOccurrencesAt(n: nat, table: seq<Entry>, source: seq<string>, k: nat)
    requires k < |source|
    ensures |FirstOccurrences(n, table, source)| == |source|
    ensures FirstOccurrences(n, table, source)[k] ==
            if multiset(source[..k])[source[k]] < n then Image(table, source[k]) else source[k]
  {
    var init, last := source[..|source| - 1], source[|source| - 1];
    if init != [] {
      FirstOccurrencesAt(n, table, init, if k < |init| then k else 0);
    }
    if k < |init| {
      assert init[..k] == source[..k];
    } else {
      assert source[..k] == init;
      CountIsMultiplicity(init, last);
    }
  }

  lemma {:induction false} CountIsMultiplicity(source: seq<string>, token: string)
    ensures Count(source, token) == multiset(source)[token]
  {
    if source != [] {
      var init, last := source[..|source| - 1], source[|source| - 1];
      CountIsMultiplicity(init, token);
      assert source == init + [last];
    }
  }

  lemma {:induction false} SimultaneousAt(table: seq<Entry>, source: seq<string>)
    ensures |Simultaneous(table, source)| == |source|
    ensures forall k :: 0 <= k < |source| ==> Simultaneous(table, source)[k] == Image(table, source[k])
  {
    if source != [] {
      SimultaneousAt(table, source[..|source| - 1]);
    }
  }

  lemma {:induction false} InExpanded(table: seq<Entry>, e: Entry, upgradeable: bool)
    requires e in table
    ensures Replacement(e, upgradeable) in Expanded(table)
  {
    var init, last := table[..|table| - 1], table[|table| - 1];
    if e != last {
      InExpanded(init, e, upgradeable);
    }
  }

  /**
   * An import of the old file of the entry, in either package, and the import of the new file. The
   * upgradeable variant of a file is the one with the suffix after its name.
   */
  ghost predicate Imports(e: Entry, before: string, after: string) {
    || (before == "@openzeppelin/contracts/" + e.from && after == "@openzeppelin/contracts/" + e.to)
    || exists p, n, x, p', n', x' ::
         && Named(e.from, p, n, x) && Named(e.to, p', n', x')
         && before == "@openzeppelin/contracts-upgradeable/" + (p + n + "Upgradeable." + x)
         && after == "@openzeppelin/contracts-upgradeable/" + (p' + n' + "Upgradeable." + x')
  }

  /** The entry takes the imports of its old file to those of the new one. */
  ghost predicate Rewritten(pathUpdates: seq<Entry>, e: Entry) {
    forall before, after :: Imports(e, before, after) ==> Image(Expanded(pathUpdates), before) == after
  }

  lemma EntryRewrites(pathUpdates: seq<Entry>, e: Entry)
    requires RelativeFiles(pathUpdates) && DistinctKeys(pathUpdates) && e in pathUpdates
    ensures Rewritten(pathUpdates, e)
  {
    ExpandedDistinct(pathUpdates);
    forall before, after | Imports(e, before, after)
      ensures Image(Expanded(pathUpdates), before) == after
    {
      var upgradeable := ImportTokens(e, before, after);
      InExpanded(pathUpdates, e, upgradeable);
      ImageOfEntry(Expanded(pathUpdates), Replacement(e, upgradeable));
    }
  }

  lemma ImportTokens(e: Entry, before: string, after: string) returns (upgradeable: bool)
    requires IsRelativeFile(e.from) && IsRelativeFile(e.to) && Imports(e, before, after)
    ensures Replacement(e, upgradeable) == Entry(before, after)
  {
    TokenOfFile(e.from);
    TokenOfFile(e.to);
    if before == "@openzeppelin/contracts/" + e.from && after == "@openzeppelin/contracts/" + e.to {
      upgradeable := false;
    } else {
      upgradeable := true;
      var p, n, x, p', n', x' :|
        && Named(e.from, p, n, x) && Named(e.to, p', n', x')
        && before == "@openzeppelin/contracts-upgradeable/" + (p + n + "Upgradeable." + x)
        && after == "@openzeppelin/contracts-upgradeable/" + (p' + n' + "Upgradeable." + x');
      TokenOfVariant(e.from, p, n, x);
      TokenOfVariant(e.to, p', n', x');
    }
  }

  lemma TokenOfFile(file: string)
    ensures Token(file, false) == "@openzeppelin/contracts/" + file
  {
    assert "@openzeppelin/contracts" + "/" == "@openzeppelin/contracts/";
  }

  lemma TokenOfVariant(file: string, p: string, n: string, x: string)
    requires IsRelativeFile(file) && Named(file, p, n, x)
    ensures Token(file, true) == "@openzeppelin/contracts-upgradeable/" + (p + n + "Upgradeable." + x)
  {
    NameGetsSuffix(file, p, n, x);
    PrefixStarts(file, p, n, x);
    SuffixBeforeDot(p, n, x);
    assert "@openzeppelin/contracts-upgradeable" + "/" == "@openzeppelin/contracts-upgradeable/";
  }

  lemma SuffixBeforeDot(p: string, n: string, x: string)
    ensures p + (n + "Upgradeable" + ("." + x)) == p + n + "Upgradeable." + x
  {
    assert "Upgradeable" + "." == "Upgradeable.";
    assert n + "Upgradeable" + ("." + x) == n + ("Upgradeable" + ".") + x;
  }

  /** No other token changes. */
  lemma OnlyImportsChange(table: seq<Entry>, token: string)
    requires Image(Expanded(table), token) != token
    ensures exists e :: e in table && (token == "@openzeppelin/contracts/" + e.from ||
                                       token == "@openzeppelin/contracts-upgradeable/" + GetUpgradeablePath(e.from))
  {
    ImageIsEntry(Expanded(table), token);
    var e, upgradeable := Origin(table, Entry(token, Image(Expanded(table), token)));
    TokenOfFile(e.from);
    assert "@openzeppelin/contracts-upgradeable" + "/" == "@openzeppelin/contracts-upgradeable/";
  }

  /**
   * `n` passes rewrite the first `n` occurrences of every path; they reach the simultaneous rewriting
   * exactly when there are enough of them, and then nothing changes any more.
   */
  ghost predicate Settles(n: nat, table: seq<Entry>, source: seq<string>) {
    && Passes(n, table, source) == FirstOccurrences(n, table, source)
    && (Passes(n, table, source) == Simultaneous(table, source) <==> Enough(n, table, source))
    && (Enough(n, table, source) ==> Passes(n + 1, table, source) == Passes(n, table, source))
  }

  /**
   * So it is with the imports of both packages, whatever the source and the number of runs, and every
   * path update takes imports of the old file to imports of the new one.
   */
  ghost predicate Migrates(pathUpdates: seq<Entry>) {
    && (forall n: nat, source :: Settles(n, Expanded(pathUpdates), source))
    && (forall e :: e in pathUpdates ==> Rewritten(pathUpdates, e))
  }

  lemma MigrationConverges(pathUpdates: seq<Entry>)
    requires RelativeFiles(pathUpdates) && DistinctKeys(pathUpdates) && Unchained(pathUpdates)
    ensures Migrates(pathUpdates)
  {
    var table := Expanded(pathUpdates);
    ExpandedUnchained(pathUpdates);
    ExpandedDistinct(pathUpdates);
    forall n: nat, source
      ensures Settles(n, table, source)
    {
      PassesAreFirstOccurrences(n, table, source);
      ConvergesIff(n, table, source);
      ConvergesIff(n + 1, table, source);
    }
    forall e | e in pathUpdates
      ensures Rewritten(pathUpdates, e)
    {
      EntryRewrites(pathUpdates, e);
    }
  }
}
