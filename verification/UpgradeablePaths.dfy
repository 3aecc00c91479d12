/** File paths taken apart and put together, and the name of the upgradeable variant of a file. */
module UpgradeablePaths {

  function LastIndexOf(text: string, c: char): (i: int)
    ensures -1 <= i < |text|
  {
    if text == [] then -1
    else if text[|text| - 1] == c then |text| - 1
    else LastIndexOf(text[..|text| - 1], c)
  }

  lemma {:induction false} LastIndexIsLast(text: string, c: char)
    ensures var i := LastIndexOf(text, c);
            && (i >= 0 ==> text[i] == c)
            && forall j :: i < j < |text| ==> text[j] != c
  {
    if text != [] && text[|text| - 1] != c {
      LastIndexIsLast(text[..|text| - 1], c);
    }
  }

  lemma LastIndexUnique(text: string, c: char, i: int)
    requires -1 <= i < |text| && (i >= 0 ==> text[i] == c)
    requires forall j :: i < j < |text| ==> text[j] != c
    ensures LastIndexOf(text, c) == i
  {
    LastIndexIsLast(text, c);
  }

  /** The directory of a path: what precedes its last slash, or the root. */
  function Dir(file: string): string {
    var slash := LastIndexOf(file, '/');
    if slash < 0 then "" else if slash == 0 then "/" else file[..slash]
  }

  /** The last component of a path. */
  function Base(file: string): string {
    file[LastIndexOf(file, '/') + 1..]
  }

  /** Where the extension starts: at the last dot, unless that starts the name or there is none. */
  function ExtensionStart(base: string): (i: nat)
    ensures i <= |base|
  {
    var dot := LastIndexOf(base, '.');
    if dot <= 0 || base == ".." then |base| else dot
  }

  datatype ParsedPath = ParsedPath(dir: string, name: string, ext: string)

  /** `path.parse` of a path that does not end in a slash. */
  function Parse(file: string): ParsedPath {
    var base := Base(file);
    ParsedPath(Dir(file), base[..ExtensionStart(base)], base[ExtensionStart(base)..])
  }

  /** A directory and a file in it. */
  function InDir(dir: string, base: string): string {
    if dir == "" then base else dir + "/" + base
  }

  /** `path.format` of a directory, name and extension, without a root. */
  function Format(p: ParsedPath): string {
    InDir(p.dir, p.name + p.ext)
  }

  const SUFFIX := "Upgradeable"

  function GetUpgradeablePath(file: string): string {
    var p := Parse(file);
    Format(p.(name := p.name + SUFFIX))
  }

  /** A path whose last component is the name of a file. */
  predicate IsFile(file: string) {
    Base(file) != "" && Base(file) != ".."
  }

  predicate IsRelativeFile(file: string) {
    IsFile(file) && file[0] != '/'
  }

  /** Put together without a root, the path of a file directly under the root gets a second slash. */
  function Rejoined(file: string): string {
    if LastIndexOf(file, '/') == 0 then "/" + file else file
  }

  lemma FormatParse(file: string)
    requires IsFile(file)
    ensures Format(Parse(file)) == Rejoined(file)
  {
    var base := Base(file);
    assert base[..ExtensionStart(base)] + base[ExtensionStart(base)..] == base;
    JoinParts(file);
  }

  lemma JoinParts(file: string)
    ensures InDir(Dir(file), Base(file)) == Rejoined(file)
  {
    LastIndexIsLast(file, '/');
    CutAtSlash(file, LastIndexOf(file, '/'));
  }

  lemma RelativeIsRejoined(file: string)
    requires file != "" && file[0] != '/'
    ensures Rejoined(file) == file
  {
    LastIndexIsLast(file, '/');
  }

  lemma CutAtSlash(file: string, slash: int)
    requires -1 <= slash < |file| && (slash >= 0 ==> file[slash] == '/')
    ensures InDir(if slash < 0 then "" else if slash == 0 then "/" else file[..slash], file[slash + 1..])
         == if slash == 0 then "/" + file else file
  {
    if slash >= 0 {
      assert file == file[..slash] + "/" + file[slash + 1..];
    }
    assert slash == 0 ==> "/" + "/" + file[1..] == "/" + file;
  }

  lemma InDirSplits(dir: string, base: string)
    requires '/' !in base
    ensures Dir(InDir(dir, base)) == dir && Base(InDir(dir, base)) == base
  {
    var file := InDir(dir, base);
    var slash := if dir == "" then -1 else |dir|;
    assert forall j :: slash < j < |file| ==> file[j] in base;
    LastIndexUnique(file, '/', slash);
  }

  lemma BaseHasNoSlash(file: string)
    ensures '/' !in Base(file)
  {
    LastIndexIsLast(file, '/');
  }

  lemma SuffixIsPlain(i: nat)
    requires i < |SUFFIX|
    ensures SUFFIX[i] != '.' && SUFFIX[i] != '/'
  {
    assert SUFFIX == ['U', 'p', 'g', 'r', 'a', 'd', 'e', 'a', 'b', 'l', 'e'];
  }

  /** Adding the suffix before the extension moves the extension by its length. */
  lemma ExtensionMoves(base: string, renamed: string)
    requires base != ".." && base != ""
    requires var i := ExtensionStart(base); renamed == base[..i] + SUFFIX + base[i..]
    ensures ExtensionStart(renamed) == ExtensionStart(base) + |SUFFIX|
    ensures '/' !in base ==> '/' !in renamed
  {
    var i, n := ExtensionStart(base), |SUFFIX|;
    LastIndexIsLast(base, '.');
    forall j | 0 <= j < |renamed|
      ensures j < i ==> renamed[j] == base[j]
      ensures i <= j < i + n ==> renamed[j] == SUFFIX[j - i] != '.' && renamed[j] != '/'
      ensures i + n <= j ==> renamed[j] == base[j - n]
    {
      if i <= j < i + n {
        SuffixIsPlain(j - i);
      }
    }
    var dot := LastIndexOf(base, '.');
    LastIndexUnique(renamed, '.', if dot <= 0 then dot else dot + n);
  }

  /** The upgradeable name parses into the same directory and extension, with the suffix on the name. */
  lemma ParseUpgradeable(file: string)
    requires IsFile(file)
    ensures Parse(GetUpgradeablePath(file)) == Parse(file).(name := Parse(file).name + SUFFIX)
  {
    var p, base := Parse(file), Base(file);
    var renamed := p.name + SUFFIX + p.ext;
    ExtensionMoves(base, renamed);
    BaseHasNoSlash(file);
    InDirSplits(p.dir, renamed);
    assert renamed[..|p.name + SUFFIX|] == p.name + SUFFIX;
    assert renamed[|p.name + SUFFIX|..] == p.ext;
  }

  // ---- the new name, spelled out ----

  /** A directory prefix: empty, or up to and including a slash. */
  predicate IsPrefix(prefix: string) {
    prefix == "" || prefix[|prefix| - 1] == '/'
  }

  lemma PrefixEndsAt(prefix: string, base: string)
    requires IsPrefix(prefix) && '/' !in base
    ensures LastIndexOf(prefix + base, '/') == |prefix| - 1
  {
    var file := prefix + base;
    forall j | |prefix| <= j < |file|
      ensures file[j] != '/'
    {
      assert file[j] == base[j - |prefix|] && file[j] in base;
    }
    LastIndexUnique(file, '/', |prefix| - 1);
  }

  lemma BaseAfter(prefix: string, base: string)
    requires IsPrefix(prefix) && '/' !in base
    ensures Base(prefix + base) == base
  {
    PrefixEndsAt(prefix, base);
  }

  /** Any other base in the directory of a path comes after the same prefix, but for a file in the root. */
  lemma PrefixSplits(prefix: string, base: string, other: string)
    requires IsPrefix(prefix) && '/' !in base
    ensures Base(prefix + base) == base
    ensures InDir(Dir(prefix + base), other) == (if prefix == "/" then "//" else prefix) + other
  {
    PrefixEndsAt(prefix, base);
    BaseAfter(prefix, base);
    PrefixRejoins(prefix, base, other);
  }

  lemma PrefixRejoins(prefix: string, base: string, other: string)
    requires IsPrefix(prefix)
    ensures var slash := |prefix| - 1;
            InDir(if slash < 0 then "" else if slash == 0 then "/" else (prefix + base)[..slash], other)
            == (if prefix == "/" then "//" else prefix) + other
  {
    var slash := |prefix| - 1;
    if slash > 0 {
      assert (prefix + base)[..slash] + "/" == prefix;
      assert prefix[..slash] + "/" + other == prefix + other;
    } else if slash == 0 {
      assert prefix == "/";
      assert "/" + "/" + other == "//" + other;
    } else {
      assert "" + other == other;
    }
  }

  /** A file with a name and an extension, after a directory prefix. */
  ghost predicate Named(file: string, prefix: string, name: string, ext: string) {
    && file == prefix + name + "." + ext
    && IsPrefix(prefix) && '/' !in name && name != ""
    && '/' !in ext && '.' !in ext && name + "." + ext != ".."
  }

  lemma PrefixStarts(file: string, prefix: string, name: string, ext: string)
    requires Named(file, prefix, name, ext)
    ensures prefix == "/" ==> file != "" && file[0] == '/'
  {
  }

  lemma ExtensionAfter(name: string, ext: string)
    requires name != "" && '.' !in ext && name + "." + ext != ".."
    ensures ExtensionStart(name + "." + ext) == |name|
  {
    var base := name + "." + ext;
    forall j | |name| < j < |base|
      ensures base[j] != '.'
    {
      assert base[j] == ext[j - |name| - 1] && base[j] in ext;
    }
    LastIndexUnique(base, '.', |name|);
  }

  /** The suffix comes between the name and the extension; directory and extension stay. */
  lemma NameGetsSuffix(file: string, prefix: string, name: string, ext: string)
    requires Named(file, prefix, name, ext)
    ensures GetUpgradeablePath(file) ==
            (if prefix == "/" then "//" else prefix) + (name + "Upgradeable" + ("." + ext))
  {
    var base := name + "." + ext;
    assert file == prefix + base;
    ExtensionAfter(name, ext);
    InsertSuffix(prefix, base, name, "." + ext);
  }

  /** A base without an extension gets the suffix at its end. */
  lemma BaseGetsSuffix(prefix: string, base: string)
    requires IsPrefix(prefix) && '/' !in base && base != ""
    requires forall i :: 0 < i < |base| ==> base[i] != '.'
    ensures GetUpgradeablePath(prefix + base) == (if prefix == "/" then "//" else prefix) + (base + "Upgradeable")
  {
    LastIndexUnique(base, '.', if base[0] == '.' then 0 else -1);
    InsertSuffix(prefix, base, base, "");
    assert base + "Upgradeable" + "" == base + "Upgradeable";
  }

  lemma InsertSuffix(prefix: string, base: string, name: string, ext: string)
    requires IsPrefix(prefix) && '/' !in base && base == name + ext && ExtensionStart(base) == |name|
    ensures GetUpgradeablePath(prefix + base) ==
            (if prefix == "/" then "//" else prefix) + (name + "Upgradeable" + ext)
  {
    var renamed := name + SUFFIX + ext;
    PrefixSplits(prefix, base, renamed);
    assert base[..|name|] == name && base[|name|..] == ext;
    assert GetUpgradeablePath(prefix + base) == InDir(Dir(prefix + base), renamed);
  }

  lemma CancelSuffix(n: string, m: string)
    requires n + SUFFIX == m + SUFFIX
    ensures n == m
  {
    assert n == (n + SUFFIX)[..|n|] && m == (m + SUFFIX)[..|m|];
  }

  /** Different files have different upgradeable variants, but for a second slash after the root. */
  lemma UpgradeableInjective(f: string, g: string)
    requires IsFile(f) && IsFile(g)
    ensures GetUpgradeablePath(f) == GetUpgradeablePath(g) <==> Rejoined(f) == Rejoined(g)
  {
    FormatParse(f);
    FormatParse(g);
    if GetUpgradeablePath(f) == GetUpgradeablePath(g) {
      ParseUpgradeable(f);
      ParseUpgradeable(g);
      CancelSuffix(Parse(f).name, Parse(g).name);
    } else if Rejoined(f) == Rejoined(g) {
      ParseRejoined(f);
      ParseRejoined(g);
    }
  }

  lemma ParseRejoined(file: string)
    ensures Parse(Rejoined(file)) == Parse(file)
  {
    JoinParts(file);
    BaseHasNoSlash(file);
    InDirSplits(Dir(file), Base(file));
    assert Dir(Rejoined(file)) == Dir(file) && Base(Rejoined(file)) == Base(file);
  }
}
