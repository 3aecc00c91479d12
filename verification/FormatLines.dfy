/** The layout of generated source: nested blocks of lines, indented by four spaces a level. */
module FormatLines {

  /** A line (which may itself hold newlines), or a nested block. */
  datatype Item = Text(line: string) | Block(items: seq<Item>)

  /** The number of characters before the first newline, or all of them. */
  function LineLength(text: string): (n: nat)
    ensures n <= |text| && '\n' !in text[..n]
    ensures n < |text| ==> text[n] == '\n'
  {
    if text == "" || text[0] == '\n' then 0
    else
      var rest := LineLength(text[1..]);
      assert text[..rest + 1] == [text[0]] + text[1..][..rest];
      rest + 1
  }

  /** `text.split('\n')`. */
  function Split(text: string): (r: seq<string>)
    ensures |r| > 0
  {
    var n := LineLength(text);
    if n == |text| then [text] else [text[..n]] + Split(text[n + 1..])
  }

  /** `lines.join('\n')`. */
  function Join(lines: seq<string>): string {
    if lines == [] then ""
    else if |lines| == 1 then lines[0]
    else lines[0] + ['\n'] + Join(lines[1..])
  }

  /** `'    '.repeat(indent)`. */
  function Padding(indent: nat): string {
    seq(4 * indent, _ => ' ')
  }

  function Pad(indent: nat, line: string): string {
    if line == "" then "" else Padding(indent) + line
  }

  function PadAll(indent: nat, lines: seq<string>): (r: seq<string>)
    ensures |r| == |lines|
  {
    seq(|lines|, i requires 0 <= i < |lines| => Pad(indent, lines[i]))
  }

  function IndentEach(indent: nat, items: seq<Item>): seq<string>
    decreases items
  {
    if items == [] then []
    else IndentItem(indent, items[0]) + IndentEach(indent, items[1..])
  }

  function IndentItem(indent: nat, item: Item): seq<string>
    decreases item
  {
    match item
    case Block(nested) => IndentEach(indent + 1, nested)
    case Text(line) => PadAll(indent, Split(line))
  }

  function FormatLines(items: seq<Item>): string {
    Join(IndentEach(0, items)) + ['\n']
  }

  // ---- indentation composes ----

  lemma PadPad(m: nat, n: nat, line: string)
    ensures Pad(m, Pad(n, line)) == Pad(m + n, line)
  {
    assert Padding(m) + (Padding(n) + line) == Padding(m + n) + line;
  }

  lemma PadAllAppend(indent: nat, a: seq<string>, b: seq<string>)
    ensures PadAll(indent, a + b) == PadAll(indent, a) + PadAll(indent, b)
  {
  }

  /** Indenting by more levels is padding each non-empty line of the less indented result. */
  lemma {:induction false} IndentationComposes(m: nat, n: nat, items: seq<Item>)
    ensures IndentEach(m + n, items) == PadAll(m, IndentEach(n, items))
    decreases items
  {
    if items != [] {
      var first, rest := items[0], items[1..];
      IndentationComposes(m, n, rest);
      match first {
        case Block(nested) =>
          IndentationComposes(m, n + 1, nested);
        case Text(line) =>
          var lines := Split(line);
          forall i | 0 <= i < |lines|
            ensures PadAll(m, PadAll(n, lines))[i] == PadAll(m + n, lines)[i]
          {
            PadPad(m, n, lines[i]);
          }
          assert PadAll(m, PadAll(n, lines)) == PadAll(m + n, lines);
      }
      PadAllAppend(m, IndentItem(n, first), IndentEach(n, rest));
    }
  }

  /** A nested block is its own un-nested form with every non-empty line padded by four spaces. */
  lemma BlockIsPadded(items: seq<Item>)
    ensures IndentEach(0, [Block(items)]) == PadAll(1, IndentEach(0, items))
  {
    IndentationComposes(1, 0, items);
    assert [Block(items)][1..] == [];
  }

  // ---- what a nest of lines becomes ----

  /** Items come out in their order. */
  lemma {:induction false} IndentAppend(indent: nat, a: seq<Item>, b: seq<Item>)
    ensures IndentEach(indent, a + b) == IndentEach(indent, a) + IndentEach(indent, b)
  {
    if a == [] {
      assert a + b == b;
    } else {
      assert (a + b)[0] == a[0] && (a + b)[1..] == a[1..] + b;
      IndentAppend(indent, a[1..], b);
    }
  }

  /** A block is indented by one level more. */
  lemma BlockIndents(indent: nat, items: seq<Item>)
    ensures IndentEach(indent, [Block(items)]) == IndentEach(indent + 1, items)
  {
    assert [Block(items)][1..] == [];
  }

  /** A line gets four spaces a level, and an empty line none. */
  lemma LineIndents(indent: nat, line: string)
    requires '\n' !in line
    ensures line == "" ==> IndentEach(indent, [Text(line)]) == [""]
    ensures line != "" ==>
              var lines := IndentEach(indent, [Text(line)]);
              && |lines| == 1 && |lines[0]| == 4 * indent + |line|
              && (forall i :: 0 <= i < 4 * indent ==> lines[0][i] == ' ')
              && (forall i :: 0 <= i < |line| ==> lines[0][4 * indent + i] == line[i])
  {
    assert [Text(line)][1..] == [];
    SplitFirst(line, "");
  }

  /** A text of several lines is indented like the lines one by one. */
  lemma TextIndents(indent: nat, line: string, rest: string)
    requires '\n' !in line
    ensures IndentEach(indent, [Text(line + "\n" + rest)]) == IndentEach(indent, [Text(line)] + [Text(rest)])
  {
    var text := line + "\n" + rest;
    assert [Text(text)][1..] == [] && [Text(line)][1..] == [] && [Text(rest)][1..] == [];
    SplitFirst(line, rest);
    SplitFirst(line, "");
    PadAllAppend(indent, [line], Split(rest));
    IndentAppend(indent, [Text(line)], [Text(rest)]);
  }

  // ---- the lines can be read back ----

  ghost predicate SingleLines(lines: seq<string>) {
    forall i :: 0 <= i < |lines| ==> '\n' !in lines[i]
  }

  lemma {:induction false} SplitSingle(text: string)
    ensures SingleLines(Split(text))
  {
    var n := LineLength(text);
    assert n == |text| ==> text[..n] == text;
    if n < |text| {
      SplitSingle(text[n + 1..]);
    }
  }

  /** A first line without newlines is split off as it is. */
  lemma SplitFirst(line: string, rest: string)
    requires '\n' !in line
    ensures Split(line) == [line]
    ensures Split(line + ['\n'] + rest) == [line] + Split(rest)
  {
    var text := line + ['\n'] + rest;
    var n := LineLength(text);
    assert text[|line|] == '\n' && forall i :: 0 <= i < |line| ==> text[i] == line[i] && line[i] in line;
    assert text[..|line|] == line && text[|line| + 1..] == rest;
  }

  lemma JoinFirst(line: string, rest: seq<string>)
    requires rest != []
    ensures Join([line] + rest) == line + ['\n'] + Join(rest)
  {
    assert ([line] + rest)[1..] == rest;
  }

  lemma {:induction false} SplitJoin(lines: seq<string>)
    requires lines != [] && SingleLines(lines)
    ensures Split(Join(lines)) == lines
  {
    var first, rest := lines[0], lines[1..];
    assert '\n' !in first;
    assert lines == [first] + rest;
    if rest == [] {
      SplitFirst(first, "");
    } else {
      SplitJoin(rest);
      JoinFirst(first, rest);
      SplitFirst(first, Join(rest));
    }
  }

  /** What precedes the first newline is split off. */
  lemma SplitCut(text: string, line: string, rest: string)
    requires '\n' in text && line == text[..LineLength(text)] && rest == text[LineLength(text) + 1..]
    ensures text == line + ['\n'] + rest
    ensures Split(text) == [line] + Split(rest)
  {
  }

  lemma {:induction false} JoinSplit(text: string)
    ensures Join(Split(text)) == text
  {
    if '\n' in text {
      var n := LineLength(text);
      var line, rest := text[..n], text[n + 1..];
      SplitCut(text, line, rest);
      JoinSplit(rest);
      JoinFirst(line, Split(rest));
    } else {
      SplitFirst(text, "");
    }
  }

  /** A trailing newline is an empty last line. */
  lemma {:induction false} JoinNewline(lines: seq<string>)
    requires lines != []
    ensures Join(lines + [""]) == Join(lines) + ['\n']
  {
    var all := lines + [""];
    if |lines| > 1 {
      assert all[1..] == lines[1..] + [""];
      JoinNewline(lines[1..]);
    } else {
      assert Join(all[1..]) == "";
    }
  }

  lemma {:induction false} IndentedSingleLines(indent: nat, items: seq<Item>)
    ensures SingleLines(IndentEach(indent, items))
    decreases items
  {
    if items != [] {
      IndentedSingleLines(indent, items[1..]);
      match items[0] {
        case Block(nested) => IndentedSingleLines(indent + 1, nested);
        case Text(line) => SplitSingle(line);
      }
    }
  }

  lemma {:induction false} JoinAppend(a: seq<string>, b: seq<string>)
    requires a != [] && b != []
    ensures Join(a + b) == Join(a) + ['\n'] + Join(b)
  {
    assert (a + b)[1..] == a[1..] + b;
    if |a| > 1 {
      JoinAppend(a[1..], b);
    } else {
      assert a + b == [a[0]] + b;
      JoinFirst(a[0], b);
    }
  }

  /** Every line ends in a newline, and what is formatted in parts is formatted one part after the other. */
  lemma FormatAppend(a: seq<Item>, b: seq<Item>)
    requires IndentEach(0, a) != [] && IndentEach(0, b) != []
    ensures FormatLines(a + b) == FormatLines(a) + FormatLines(b)
  {
    IndentAppend(0, a, b);
    JoinAppend(IndentEach(0, a), IndentEach(0, b));
  }

  lemma FormatLine(line: string)
    requires '\n' !in line
    ensures FormatLines([Text(line)]) == line + "\n"
    ensures FormatLines([]) == "\n"
  {
    LineIndents(0, line);
    var lines := IndentEach(0, [Text(line)]);
    assert lines[0] == line;
    assert lines == [line];
  }

  /** Splitting the formatted text on newlines gives back the indented lines, and an empty last one. */
  lemma FormattedSplitsBack(items: seq<Item>)
    ensures Split(FormatLines(items)) == (if IndentEach(0, items) == [] then [""] else IndentEach(0, items)) + [""]
  {
    var lines := IndentEach(0, items);
    IndentedSingleLines(0, items);
    if lines == [] {
      SplitFirst("", "");
      assert FormatLines(items) == "" + ['\n'] + "";
    } else {
      JoinNewline(lines);
      SplitJoin(lines + [""]);
    }
  }
}
