/** The Prometheus text exposition: whatever a scan reports, the lines and labels stay apart. */
module Prometheus {
  import opened Wrappers
  import opened Text

  /** Python's replace with a single character to look for. */
  function Replace(s: string, c: char, put: string): string {
    if s == "" then "" else (if s[0] == c then put else [s[0]]) + Replace(s[1..], c, put)
  }

  function EscapeLabel(value: string): string {
    Replace(Replace(Replace(Replace(value, '\\', "\\\\"), '\r', "\\r"), '\n', "\\n"), '"', "\\\"")
  }

  datatype Label = Label(name: string, value: string)

  function Pair(l: Label): string {
    l.name + "=\"" + EscapeLabel(l.value) + "\""
  }

  function Pairs(labels: seq<Label>): (pairs: seq<string>)
    ensures |pairs| == |labels|
  {
    if labels == [] then [] else [Pair(labels[0])] + Pairs(labels[1..])
  }

  function Labels(labels: seq<Label>): string {
    "{" + Join(Pairs(labels), ',') + "}"
  }

  /** A sample with its value already written in general format. */
  datatype Sample = Sample(labels: seq<Label>, value: string)

  datatype Family = Family(name: string, help: string, samples: seq<Sample>)

  function SampleLine(name: string, s: Sample): string {
    name + Labels(s.labels) + " " + s.value
  }

  function SampleLines(name: string, samples: seq<Sample>): (lines: seq<string>)
    ensures |lines| == |samples| && forall i | 0 <= i < |samples| :: lines[i] == SampleLine(name, samples[i])
  {
    seq(|samples|, i requires 0 <= i < |samples| => SampleLine(name, samples[i]))
  }

  function FamilyLines(f: Family): seq<string> {
    ["# HELP " + f.name + " " + f.help, "# TYPE " + f.name + " gauge"] + SampleLines(f.name, f.samples)
  }

  function Lines(families: seq<Family>): seq<string> {
    if families == [] then [] else Lines(families[..|families| - 1]) + FamilyLines(families[|families| - 1])
  }

  method RenderFamilies(families: seq<Family>) returns (text: string)
    ensures text == Join(Lines(families), '\n') + "\n"
  {
    var lines := [];
    for i := 0 to |families|
      invariant lines == Lines(families[..i])
    {
      var f := families[i];
      assert families[..i + 1][..i] == families[..i];
      ghost var before := lines;
      lines := lines + ["# HELP " + f.name + " " + f.help];
      lines := lines + ["# TYPE " + f.name + " gauge"];
      lines := lines + SampleLines(f.name, f.samples);
      assert lines == before + FamilyLines(f);
    }
    assert families[..|families|] == families;
    text := Join(lines, '\n') + "\n";
  }

  // ----- escaping, character by character

  function EscapeChar(c: char): string {
    if c == '\\' then "\\\\"
    else if c == '\r' then "\\r"
    else if c == '\n' then "\\n"
    else if c == '"' then "\\\""
    else [c]
  }

  lemma {:induction false} ReplaceAppend(a: string, b: string, c: char, put: string)
    ensures Replace(a + b, c, put) == Replace(a, c, put) + Replace(b, c, put)
  {
    if a == "" {
      assert a + b == b;
    } else {
      assert (a + b)[1..] == a[1..] + b;
      ReplaceAppend(a[1..], b, c, put);
    }
  }

  lemma EscapeAppend(a: string, b: string)
    ensures EscapeLabel(a + b) == EscapeLabel(a) + EscapeLabel(b)
  {
    ReplaceAppend(a, b, '\\', "\\\\");
    var a1, b1 := Replace(a, '\\', "\\\\"), Replace(b, '\\', "\\\\");
    ReplaceAppend(a1, b1, '\r', "\\r");
    var a2, b2 := Replace(a1, '\r', "\\r"), Replace(b1, '\r', "\\r");
    ReplaceAppend(a2, b2, '\n', "\\n");
    ReplaceAppend(Replace(a2, '\n', "\\n"), Replace(b2, '\n', "\\n"), '"', "\\\"");
  }

  lemma ReplaceOne(c: char, d: char, put: string)
    ensures Replace([c], d, put) == if c == d then put else [c]
    ensures Replace([], d, put) == []
  {
    assert [c][1..] == [];
  }

  lemma ReplaceTwo(a: char, b: char, d: char, put: string)
    requires a != d && b != d
    ensures Replace([a, b], d, put) == [a, b]
  {
    assert [a, b][1..] == [b];
    ReplaceOne(b, d, put);
  }

  lemma EscapeOne(c: char)
    ensures EscapeLabel([c]) == EscapeChar(c)
  {
    ReplaceOne(c, '\\', "\\\\");
    ReplaceOne(c, '\r', "\\r");
    ReplaceOne(c, '\n', "\\n");
    ReplaceOne(c, '"', "\\\"");
    ReplaceTwo('\\', '\\', '\r', "\\r");
    ReplaceTwo('\\', '\\', '\n', "\\n");
    ReplaceTwo('\\', '\\', '"', "\\\"");
    ReplaceTwo('\\', 'r', '\n', "\\n");
    ReplaceTwo('\\', 'r', '"', "\\\"");
    ReplaceTwo('\\', 'n', '"', "\\\"");
  }

  /** The four replacements, one after the other, touch every character exactly once. */
  lemma EscapeStep(s: string)
    requires s != ""
    ensures EscapeLabel(s) == EscapeChar(s[0]) + EscapeLabel(s[1..])
  {
    EscapeOne(s[0]);
    EscapeAppend([s[0]], s[1..]);
    assert s == [s[0]] + s[1..];
  }

  // ----- reading back

  function Cons(c: char, rest: Option<(string, string)>): Option<(string, string)> {
    if rest.Some? then Some(([c] + rest.value.0, rest.value.1)) else None
  }

  function Unescaped(c: char): Option<char> {
    if c == '\\' then Some('\\')
    else if c == 'r' then Some('\r')
    else if c == 'n' then Some('\n')
    else if c == '"' then Some('"')
    else None
  }

  /** A single pass up to the first quote that is not escaped: the value, and what follows. */
  function ReadQuoted(s: string): Option<(string, string)> {
    if s == "" || s[0] == '\n' || s[0] == '\r' then None
    else if s[0] == '"' then Some(("", s[1..]))
    else if s[0] != '\\' then Cons(s[0], ReadQuoted(s[1..]))
    else if |s| == 1 || Unescaped(s[1]).None? then None
    else Cons(Unescaped(s[1]).value, ReadQuoted(s[2..]))
  }

  /**
   Escaping loses nothing and closes nothing: a single pass recovers any value,
   stops at the quote that follows it, and meets no raw line break on the way.
   */
  lemma {:induction false} QuotedReadsBack(value: string, rest: string)
    ensures ReadQuoted(EscapeLabel(value) + "\"" + rest) == Some((value, rest))
  {
    hide EscapeLabel;
    var tail := "\"" + rest;
    if value == "" {
      EscapeNothing();
      assert EscapeLabel(value) + tail == tail && tail[1..] == rest;
    } else {
      EscapeStep(value);
      QuotedReadsBack(value[1..], rest);
      var more := EscapeLabel(value[1..]) + "\"" + rest;
      var s := EscapeLabel(value) + "\"" + rest;
      assert s == EscapeChar(value[0]) + more;
      assert s[|EscapeChar(value[0])|..] == more;
      assert value == [value[0]] + value[1..];
    }
  }

  lemma EscapeNothing()
    ensures EscapeLabel("") == ""
  {
  }

  /** What a label may be called. */
  predicate IsName(name: string) {
    name != "" && forall c | c in name :: 'a' <= c <= 'z' || 'A' <= c <= 'Z' || '0' <= c <= '9' || c == '_'
  }

  /** The name up to an equals sign and an opening quote. */
  function ReadName(s: string): Option<(string, string)> {
    if |s| < 2 then None
    else if s[0] == '=' && s[1] == '"' then Some(("", s[2..]))
    else Cons(s[0], ReadName(s[1..]))
  }

  lemma {:induction false} NameReadsBack(name: string, rest: string)
    requires forall c | c in name :: c != '='
    ensures ReadName(name + "=\"" + rest) == Some((name, rest))
  {
    var s := name + "=\"" + rest;
    if name == "" {
      assert s[2..] == rest;
    } else {
      assert name[0] in name && forall c | c in name[1..] :: c in name;
      NameReadsBack(name[1..], rest);
      assert s[0] == name[0];
      assert s[1..] == name[1..] + "=\"" + rest && name == [name[0]] + name[1..];
    }
  }

  lemma ReadersShorten(s: string)
    ensures ReadName(s).Some? ==> |ReadName(s).value.1| < |s|
    ensures ReadQuoted(s).Some? ==> |ReadQuoted(s).value.1| < |s|
  {
  }

  /** Labels after an opening brace or a comma, up to the closing brace, and what follows it. */
  function ReadPairs(s: string): Option<(seq<Label>, string)>
    decreases |s|
  {
    ReadersShorten(s);
    var name := ReadName(s);
    if name.None? then None
    else
      ReadersShorten(name.value.1);
      var value := ReadQuoted(name.value.1);
      if value.None? || value.value.1 == "" then None
      else
        var l, rest := Label(name.value.0, value.value.0), value.value.1;
        if rest[0] == '}' then Some(([l], rest[1..]))
        else if rest[0] != ',' then None
        else
          var more := ReadPairs(rest[1..]);
          if more.None? then None else Some(([l] + more.value.0, more.value.1))
  }

  function ReadLabels(s: string): Option<(seq<Label>, string)> {
    if s == "" || s[0] != '{' then None
    else if |s| > 1 && s[1] == '}' then Some(([], s[2..]))
    else ReadPairs(s[1..])
  }

  lemma PairReadsBack(l: Label, rest: string)
    requires IsName(l.name)
    ensures ReadName(Pair(l) + rest).Some?
    ensures ReadName(Pair(l) + rest).value.0 == l.name
    ensures ReadQuoted(ReadName(Pair(l) + rest).value.1) == Some((l.value, rest))
  {
    hide EscapeLabel;
    var quoted := EscapeLabel(l.value) + "\"" + rest;
    assert Pair(l) + rest == l.name + "=\"" + quoted;
    NameReadsBack(l.name, quoted);
    QuotedReadsBack(l.value, rest);
  }

  lemma {:induction false} PairsReadBack(labels: seq<Label>, rest: string)
    requires labels != [] && forall l | l in labels :: IsName(l.name)
    ensures ReadPairs(Join(Pairs(labels), ',') + "}" + rest) == Some((labels, rest))
  {
    hide Pair, ReadName, ReadQuoted, IsName;
    var first := Pair(labels[0]);
    assert labels[0] in labels;
    if |labels| == 1 {
      assert labels == [labels[0]];
      assert Pairs(labels) == [first];
      assert Join(Pairs(labels), ',') + "}" + rest == first + ("}" + rest);
      PairReadsBack(labels[0], "}" + rest);
      assert ("}" + rest)[1..] == rest;
    } else {
      var more := Join(Pairs(labels[1..]), ',') + "}" + rest;
      assert Join(Pairs(labels), ',') + "}" + rest == first + ("," + more);
      PairReadsBack(labels[0], "," + more);
      assert ("," + more)[1..] == more;
      PairsReadBack(labels[1..], rest);
      assert labels == [labels[0]] + labels[1..];
    }
  }

  /** A rendered label set is cut back into its names and values, whatever the values hold. */
  lemma LabelsReadBack(labels: seq<Label>, rest: string)
    requires forall l | l in labels :: IsName(l.name)
    ensures ReadLabels(Labels(labels) + rest) == Some((labels, rest))
  {
    hide ReadPairs, EscapeLabel;
    var s := Labels(labels) + rest;
    if labels == [] {
      assert s[2..] == rest;
    } else {
      assert s[1..] == Join(Pairs(labels), ',') + "}" + rest;
      assert labels[0] in labels;
      FirstOfPairs(labels);
      PairsReadBack(labels, rest);
    }
  }

  lemma FirstOfPairs(labels: seq<Label>)
    requires labels != [] && IsName(labels[0].name)
    ensures Join(Pairs(labels), ',') != "" && Join(Pairs(labels), ',')[0] == labels[0].name[0] != '}'
  {
    hide EscapeLabel;
    assert labels[0].name[0] in labels[0].name;
  }

  // ----- lines

  predicate OneLine(s: string) {
    '\n' !in s
  }

  predicate PrintsPlainly(f: Family) {
    OneLine(f.name) && OneLine(f.help)
    && forall s | s in f.samples :: OneLine(s.value) && forall l | l in s.labels :: IsName(l.name)
  }

  lemma {:induction false} EscapedIsOneLine(value: string)
    ensures OneLine(EscapeLabel(value))
  {
    if value == "" {
      EscapeNothing();
    } else {
      EscapeStep(value);
      hide EscapeLabel;
      EscapedIsOneLine(value[1..]);
    }
  }

  lemma {:induction false} PairsAreOneLine(labels: seq<Label>)
    requires forall l | l in labels :: IsName(l.name)
    ensures OneLine(Join(Pairs(labels), ','))
  {
    hide EscapeLabel;
    if labels == [] {
    } else {
      assert labels[0] in labels;
      EscapedIsOneLine(labels[0].value);
      PairsAreOneLine(labels[1..]);
    }
  }

  lemma {:induction false} LinesAreOneLine(families: seq<Family>)
    requires forall f | f in families :: PrintsPlainly(f)
    ensures forall line | line in Lines(families) :: OneLine(line)
  {
    if families == [] {
    } else {
      var f := families[|families| - 1];
      LinesAreOneLine(families[..|families| - 1]);
      assert f in families && PrintsPlainly(f);
      FamilyIsPlain(f);
    }
  }

  lemma FamilyIsPlain(f: Family)
    requires PrintsPlainly(f)
    ensures forall line | line in FamilyLines(f) :: OneLine(line)
  {
    hide Labels, Pairs, Join;
    forall s | s in f.samples
      ensures OneLine(SampleLine(f.name, s))
    {
      SampleIsOneLine(f.name, s);
    }
  }

  lemma SampleIsOneLine(name: string, s: Sample)
    requires OneLine(name) && OneLine(s.value) && forall l | l in s.labels :: IsName(l.name)
    ensures OneLine(SampleLine(name, s))
  {
    PairsAreOneLine(s.labels);
    hide Pairs, Join;
  }

  lemma {:induction false} JoinedSplits(lines: seq<string>)
    requires lines != [] && forall line | line in lines :: OneLine(line)
    ensures Split(Join(lines, '\n'), '\n') == lines
  {
    assert lines[0] in lines;
    SplitWithoutSeparator(lines[0], '\n');
    if |lines| > 1 {
      JoinedSplits(lines[1..]);
      SplitConcat(lines[0], '\n', Join(lines[1..], '\n'));
      assert lines == [lines[0]] + lines[1..];
    }
  }

  /** No label value can add a line: the text splits into exactly the lines put into it. */
  lemma NoValueAddsALine(families: seq<Family>)
    requires forall f | f in families :: PrintsPlainly(f)
    ensures Split(Join(Lines(families), '\n') + "\n", '\n')
            == if families == [] then ["", ""] else Lines(families) + [""]
  {
    LinesAreOneLine(families);
    SplitConcat(Join(Lines(families), '\n'), '\n', "");
    assert Join(Lines(families), '\n') + ['\n'] + "" == Join(Lines(families), '\n') + "\n";
    if families == [] {
    } else {
      JoinedSplits(Lines(families));
    }
  }

  // ----- what stands in which line

  function LinesBefore(families: seq<Family>, k: nat): nat
    requires k <= |families|
  {
    if k == 0 then 0 else LinesBefore(families, k - 1) + 2 + |families[k - 1].samples|
  }

  lemma {:induction false} FamilyStandsAt(families: seq<Family>, k: nat)
    requires k < |families|
    ensures |Lines(families)| == LinesBefore(families, |families|)
    ensures LinesBefore(families, k) + |FamilyLines(families[k])| <= |Lines(families)|
    ensures forall i | 0 <= i < |FamilyLines(families[k])| ::
              Lines(families)[LinesBefore(families, k) + i] == FamilyLines(families[k])[i]
    decreases |families|
  {
    hide FamilyLines;
    var n := |families| - 1;
    var front := families[..n];
    SameLinesBefore(front, families, n);
    FamilyCount(families[n]);
    if n > 0 {
      FamilyStandsAt(front, if k < n then k else 0);
    }
    if k < n {
      SameLinesBefore(front, families, k);
    }
  }

  lemma FamilyCount(f: Family)
    ensures |FamilyLines(f)| == 2 + |f.samples|
  {
  }

  lemma {:induction false} SameLinesBefore(front: seq<Family>, families: seq<Family>, k: nat)
    requires k <= |front| <= |families| && front == families[..|front|]
    ensures LinesBefore(front, k) == LinesBefore(families, k)
  {
    if k > 0 {
      SameLinesBefore(front, families, k - 1);
    }
  }

  /** Each family stands behind those before it: its help, its type, and its samples, one a line. */
  lemma EachLineInItsPlace(families: seq<Family>, k: nat, i: nat)
    requires k < |families| && i < |families[k].samples|
    ensures var f, at := families[k], LinesBefore(families, k);
            && at + 2 + i < |Lines(families)|
            && Lines(families)[at] == "# HELP " + f.name + " " + f.help
            && Lines(families)[at + 1] == "# TYPE " + f.name + " gauge"
            && Lines(families)[at + 2 + i] == f.name + Labels(f.samples[i].labels) + " " + f.samples[i].value
  {
    FamilyStandsAt(families, k);
    FamilyCount(families[k]);
    var lines := FamilyLines(families[k]);
    assert lines[0] == "# HELP " + families[k].name + " " + families[k].help;
    assert lines[1] == "# TYPE " + families[k].name + " gauge";
    assert lines[2 + i] == SampleLine(families[k].name, families[k].samples[i]);
    assert Lines(families)[LinesBefore(families, k) + 0] == lines[0];
    assert Lines(families)[LinesBefore(families, k) + 1] == lines[1];
    assert Lines(families)[LinesBefore(families, k) + (2 + i)] == lines[2 + i];
    hide FamilyLines, Lines;
  }
}
