/** Settings written as strings and lists, and read back from a file or the environment. */
module Config {
  import opened Wrappers
  import opened Text

  /** A setting as the file gives it; `Scalar` stands for anything else's `str` form. */
  datatype Value = Flag(on: bool) | Scalar(text: string) | Items(items: seq<Value>)

  function Stringify(v: Value): string {
    match v
    case Flag(on) => if on then "true" else "false"
    case Scalar(text) => text
    case Items(items) => Join(seq(|items|, i requires 0 <= i < |items| => Stringify(items[i])), ';')
  }

  /** The list a nested value stands for: its scalars from left to right. */
  function Leaves(v: Value): seq<string> {
    match v
    case Flag(on) => [if on then "true" else "false"]
    case Scalar(text) => [text]
    case Items(items) => Flat(seq(|items|, i requires 0 <= i < |items| => Leaves(items[i])))
  }

  function Flat(lists: seq<seq<string>>): seq<string> {
    if lists == [] then [] else lists[0] + Flat(lists[1..])
  }

  /** The parts of a list setting that are not blank, trimmed. */
  function Trimmed(parts: seq<string>): seq<string> {
    if parts == [] then []
    else (if Strip(parts[0]) != "" then [Strip(parts[0])] else []) + Trimmed(parts[1..])
  }

  function Parse(s: string): seq<string> {
    Trimmed(Split(s, ';'))
  }

  // ----- where a value comes from

  /** Environment variables keep their full names; the provider may refuse a secret. */
  datatype Configuration = Configuration(values: map<string, Value>, environ: map<string, string>,
                                         resolve: string -> Result<string>, readSecretFile: string -> Result<string>)
  {
    function Found(read: Result<string>): Result<Option<string>> {
      if read.Success? then Success(Some(read.value)) else Failure
    }

    function Get(name: string): Result<Option<string>> {
      var key := Upper(Strip(name));
      var fileKey := key + FILE_SUFFIX;
      if ENV_PREFIX + key in environ then Found(resolve(environ[ENV_PREFIX + key]))
      else if ENV_PREFIX + fileKey in environ && environ[ENV_PREFIX + fileKey] != "" then
        Found(readSecretFile(environ[ENV_PREFIX + fileKey]))
      else if key in values then Found(resolve(Stringify(values[key])))
      else if fileKey in values then Found(readSecretFile(Stringify(values[fileKey])))
      else Success(None)
    }

    function GetList(name: string): Result<seq<string>> {
      var value := Get(name);
      if value.Failure? then Failure
      else if value.value.None? || value.value.value == "" then Success([])
      else Success(Parse(value.value.value))
    }
  }

  const ENV_PREFIX := "COS_"
  const FILE_SUFFIX := "_FILE"

  // ----- precedence

  /** Where the environment speaks, the file is not heard. */
  lemma EnvironmentHidesTheFile(c: Configuration, name: string, values: map<string, Value>)
    requires var key := ENV_PREFIX + Upper(Strip(name));
             key in c.environ || (key + FILE_SUFFIX in c.environ && c.environ[key + FILE_SUFFIX] != "")
    ensures c.(values := values).Get(name) == c.Get(name)
  {
    assert ENV_PREFIX + (Upper(Strip(name)) + FILE_SUFFIX) == ENV_PREFIX + Upper(Strip(name)) + FILE_SUFFIX;
  }

  /** Within one source a value given directly hides the one to be read from a secret file. */
  lemma ValueHidesItsFileVariant(c: Configuration, name: string, path: string, other: Value)
    ensures var key := Upper(Strip(name));
            && (ENV_PREFIX + key in c.environ ==>
                  c.(environ := c.environ[ENV_PREFIX + (key + FILE_SUFFIX) := path]).Get(name) == c.Get(name))
            && (key in c.values ==>
                  c.(values := c.values[key + FILE_SUFFIX := other]).Get(name) == c.Get(name))
  {
    var key := Upper(Strip(name));
    assert |key| < |key + FILE_SUFFIX| && |ENV_PREFIX + key| < |ENV_PREFIX + (key + FILE_SUFFIX)|;
  }

  /** A source that answers gives a value; one that fails fails the lookup. */
  ghost predicate Answers(read: Result<string>, got: Result<Option<string>>) {
    match read
    case Failure => got == Failure
    case Success(value) => got == Success(Some(value))
  }

  /**
   The four sources of a setting in their order: the variable, the variable naming a
   secret's file unless empty, the file's value, the file's name of a secret's file.
   A value goes through the secret provider, a named file is read.
   */
  lemma SourcesInOrder(c: Configuration, name: string)
    ensures var key := Upper(Strip(name));
            var variable, fileVariable := "COS_" + key, "COS_" + (key + "_FILE");
            if variable in c.environ then Answers(c.resolve(c.environ[variable]), c.Get(name))
            else if fileVariable in c.environ && c.environ[fileVariable] != ""
            then Answers(c.readSecretFile(c.environ[fileVariable]), c.Get(name))
            else if key in c.values then Answers(c.resolve(Stringify(c.values[key])), c.Get(name))
            else if key + "_FILE" in c.values then Answers(c.readSecretFile(Stringify(c.values[key + "_FILE"])), c.Get(name))
            else c.Get(name) == Success(None)
  {
  }

  /** A list setting is the value cut at semicolons, empty when there is none, and a failure when the value is one. */
  lemma ListIsTheValueCut(c: Configuration, name: string)
    ensures c.GetList(name) == match c.Get(name)
                               case Failure => Failure
                               case Success(None) => Success([])
                               case Success(Some(value)) => Success(Parse(value))
  {
    assert Strip("") == "" && Parse("") == [];
  }

  // ----- reading back what was written

  function ParseAll(parts: seq<string>): seq<string> {
    if parts == [] then [] else Parse(parts[0]) + ParseAll(parts[1..])
  }

  lemma {:induction false} TrimmedAppend(a: seq<string>, b: seq<string>)
    ensures Trimmed(a + b) == Trimmed(a) + Trimmed(b)
  {
    if a == [] {
      assert a + b == b;
    } else {
      assert (a + b)[1..] == a[1..] + b;
      TrimmedAppend(a[1..], b);
    }
  }

  /** Reading a joined list is reading each part, however many there are. */
  lemma {:induction false} ParseJoined(parts: seq<string>)
    ensures Parse(Join(parts, ';')) == ParseAll(parts)
  {
    if |parts| == 1 {
      assert ParseAll(parts[1..]) == [];
    } else if |parts| > 1 {
      ParseJoined(parts[1..]);
      SplitConcat(parts[0], ';', Join(parts[1..], ';'));
      TrimmedAppend(Split(parts[0], ';'), Split(Join(parts[1..], ';'), ';'));
    }
  }

  lemma {:induction false} ParseAllAppend(a: seq<string>, b: seq<string>)
    ensures ParseAll(a + b) == ParseAll(a) + ParseAll(b)
  {
    if a == [] {
      assert a + b == b;
    } else {
      assert (a + b)[1..] == a[1..] + b;
      ParseAllAppend(a[1..], b);
    }
  }

  /** Nesting leaves no trace: a value reads back as the lists its scalars read back as. */
  lemma {:induction false} NestingIsFlattened(v: Value)
    ensures Parse(Stringify(v)) == ParseAll(Leaves(v))
  {
    match v
    case Flag(_) =>
      assert ParseAll(Leaves(v)[1..]) == [];
    case Scalar(_) =>
      assert ParseAll(Leaves(v)[1..]) == [];
    case Items(items) =>
      var written := seq(|items|, i requires 0 <= i < |items| => Stringify(items[i]));
      var lists := seq(|items|, i requires 0 <= i < |items| => Leaves(items[i]));
      ParseJoined(written);
      forall i | 0 <= i < |items|
        ensures Parse(written[i]) == ParseAll(lists[i])
      {
        NestingIsFlattened(items[i]);
      }
      ParseListwise(written, lists);
  }

  lemma {:induction false} ParseListwise(written: seq<string>, lists: seq<seq<string>>)
    requires |written| == |lists| && forall i | 0 <= i < |lists| :: Parse(written[i]) == ParseAll(lists[i])
    ensures ParseAll(written) == ParseAll(Flat(lists))
  {
    if lists == [] {
    } else {
      ParseListwise(written[1..], lists[1..]);
      ParseAllAppend(lists[0], Flat(lists[1..]));
    }
  }

  /** What survives as one part of a list: trimmed, not blank, without a separator. */
  predicate Plain(s: string) {
    s != "" && Strip(s) == s && ';' !in s
  }

  lemma {:induction false} StripIsTrimmed(s: string)
    ensures Strip(Strip(s)) == Strip(s)
    ensures forall c | c in Strip(s) :: c in s
  {
    if s != "" && IsSpace(s[0]) {
      StripIsTrimmed(s[1..]);
    } else if s != "" && IsSpace(s[|s| - 1]) {
      StripIsTrimmed(s[..|s| - 1]);
    }
  }

  lemma {:induction false} PartsHoldNoSeparator(s: string)
    ensures forall p | p in Split(s, ';') :: ';' !in p
  {
    if s == "" {
    } else {
      PartsHoldNoSeparator(s[1..]);
      var rest := Split(s[1..], ';');
      assert rest[0] in rest;
      assert ';' !in rest[0];
    }
  }

  lemma {:induction false} TrimmedArePlain(parts: seq<string>)
    requires forall p | p in parts :: ';' !in p
    ensures forall p | p in Trimmed(parts) :: Plain(p)
  {
    if parts == [] {
    } else {
      assert parts[0] in parts;
      StripIsTrimmed(parts[0]);
      TrimmedArePlain(parts[1..]);
    }
  }

  lemma {:induction false} ParseAllPlain(parts: seq<string>)
    ensures forall p | p in ParseAll(parts) :: Plain(p)
    ensures (forall p | p in parts :: Plain(p)) ==> ParseAll(parts) == parts
  {
    if parts == [] {
    } else {
      PartsHoldNoSeparator(parts[0]);
      TrimmedArePlain(Split(parts[0], ';'));
      ParseAllPlain(parts[1..]);
      assert parts == [parts[0]] + parts[1..];
      if forall p | p in parts :: Plain(p) {
        assert Plain(parts[0]);
        SplitWithoutSeparator(parts[0], ';');
        assert Trimmed([parts[0]]) == [parts[0]];
      }
    }
  }

  /** A nested list reads back as its flattened self exactly when every scalar in it is plain. */
  lemma ListRoundTripIff(v: Value)
    ensures Parse(Stringify(v)) == Leaves(v) <==> forall leaf | leaf in Leaves(v) :: Plain(leaf)
  {
    NestingIsFlattened(v);
    ParseAllPlain(Leaves(v));
  }

  /** The configuration reads secrets as they stand: the plain provider. */
  ghost predicate PlainProvider(c: Configuration) {
    forall s :: c.resolve(s) == Success(s)
  }

  /** A list in the file means its scalars, unless the environment says otherwise. */
  lemma ListSettingReadsBack(c: Configuration, name: string)
    requires PlainProvider(c)
    requires Upper(Strip(name)) in c.values
    requires ENV_PREFIX + Upper(Strip(name)) !in c.environ
    requires ENV_PREFIX + (Upper(Strip(name)) + FILE_SUFFIX) in c.environ ==>
               c.environ[ENV_PREFIX + (Upper(Strip(name)) + FILE_SUFFIX)] == ""
    ensures c.GetList(name) == Success(ParseAll(Leaves(c.values[Upper(Strip(name))])))
  {
    NestingIsFlattened(c.values[Upper(Strip(name))]);
    assert Parse("") == [];
  }

  /** The environment form of a list means what the file's list means, and wins over the file. */
  lemma EnvironmentSpellsTheSameList(c: Configuration, name: string, v: Value)
    requires PlainProvider(c)
    requires ENV_PREFIX + Upper(Strip(name)) in c.environ && c.environ[ENV_PREFIX + Upper(Strip(name))] == Stringify(v)
    ensures c.GetList(name) == Success(ParseAll(Leaves(v)))
  {
    NestingIsFlattened(v);
    assert Parse("") == [];
  }
}
