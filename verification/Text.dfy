/** The few string operations of the source whose exact behaviour matters here. */
module Text {
  import opened Sorting

  /** The parts of `s` between separators; like Python's split, never empty. */
  function Split(s: string, sep: char): (parts: seq<string>)
    ensures |parts| > 0
  {
    if s == "" then [""] else PrependChar(s[0], sep, Split(s[1..], sep))
  }

  function PrependChar(c: char, sep: char, rest: seq<string>): (parts: seq<string>)
    requires |rest| > 0
    ensures |parts| > 0
  {
    if c == sep then [""] + rest else [[c] + rest[0]] + rest[1..]
  }

  function Join(parts: seq<string>, sep: char): string {
    if parts == [] then ""
    else if |parts| == 1 then parts[0]
    else parts[0] + [sep] + Join(parts[1..], sep)
  }

  /** Python's rstrip with a single character. */
  function RStrip(s: string, c: char): string {
    if s != "" && s[|s| - 1] == c then RStrip(s[..|s| - 1], c) else s
  }

  /** ASCII white space to Python: tab to carriage return, the four separators before the blank, and the blank. */
  predicate IsSpace(c: char) {
    '\t' <= c <= '\r' || '\U{001C}' <= c <= ' '
  }

  /** Python's strip: white space off both ends. */
  function Strip(s: string): string {
    if s != "" && IsSpace(s[0]) then Strip(s[1..])
    else if s != "" && IsSpace(s[|s| - 1]) then Strip(s[..|s| - 1])
    else s
  }

  /** Python's lower, on ASCII letters. */
  function Lower(s: string): (r: string)
    ensures |r| == |s|
  {
    seq(|s|, i requires 0 <= i < |s| => if 'A' <= s[i] <= 'Z' then s[i] - 'A' + 'a' else s[i])
  }

  /** Python's upper, on ASCII letters. */
  function Upper(s: string): (r: string)
    ensures |r| == |s|
  {
    seq(|s|, i requires 0 <= i < |s| => if 'a' <= s[i] <= 'z' then s[i] - 'a' + 'A' else s[i])
  }

  const SPACES := "\t\n\U{000B}\U{000C}\r\U{001C}\U{001D}\U{001E}\U{001F} "

  lemma SpacesAre(c: char)
    ensures IsSpace(c) <==> c in SPACES
  {
    assert SPACES[0] == '\t' && SPACES[1] == '\n' && SPACES[2] == '\U{000B}' && SPACES[3] == '\U{000C}' && SPACES[4] == '\r';
    assert SPACES[5] == '\U{001C}' && SPACES[6] == '\U{001D}' && SPACES[7] == '\U{001E}' && SPACES[8] == '\U{001F}' && SPACES[9] == ' ';
  }

  ghost predicate Blank(s: string) {
    forall c | c in s :: IsSpace(c)
  }

  /** What is left begins and ends with something other than white space. */
  predicate Tight(s: string) {
    s == "" || (!IsSpace(s[0]) && !IsSpace(s[|s| - 1]))
  }

  /** Stripping takes off white space and nothing else, all there is at either end. */
  lemma {:induction false} StripMeans(s: string) returns (left: string, right: string)
    ensures s == left + Strip(s) + right && Blank(left) && Blank(right) && Tight(Strip(s))
  {
    left, right := "", "";
    if s != "" && IsSpace(s[0]) {
      left, right := StripMeans(s[1..]);
      left := [s[0]] + left;
    } else if s != "" && IsSpace(s[|s| - 1]) {
      left, right := StripMeans(s[..|s| - 1]);
      right := right + [s[|s| - 1]];
      assert s == s[..|s| - 1] + [s[|s| - 1]];
    }
  }

  lemma {:induction false} PaddedStrips(left: string, s: string, right: string)
    requires Blank(left) && Blank(right) && Tight(s)
    ensures Strip(left + s + right) == s
    decreases |left| + |right|
  {
    var whole := left + s + right;
    if left != "" {
      assert whole[0] == left[0] && left[0] in left;
      assert whole[1..] == left[1..] + s + right;
      PaddedStrips(left[1..], s, right);
    } else if right != "" {
      var last := right[|right| - 1];
      assert last in right;
      PaddedStrips(left, s, right[..|right| - 1]);
      assert whole[..|whole| - 1] == left + s + right[..|right| - 1];
      if s == "" {
        BlankStrips(whole);
      }
    } else {
      assert whole == s;
    }
  }

  lemma {:induction false} BlankStrips(s: string)
    requires Blank(s)
    ensures Strip(s) == ""
  {
    if s == "" {
    } else {
      assert s[0] in s;
      BlankStrips(s[1..]);
    }
  }

  const CAPITALS := "ABCDEFGHIJKLMNOPQRSTUVWXYZ"
  const SMALL := "abcdefghijklmnopqrstuvwxyz"

  /** Folding exchanges each capital for its small letter, the other way round, and leaves everything else alone. */
  lemma LettersFold(s: string, i: nat, k: nat)
    requires i < |s| && k < 26
    ensures s[i] == CAPITALS[k] ==> Lower(s)[i] == SMALL[k]
    ensures s[i] == SMALL[k] ==> Upper(s)[i] == CAPITALS[k]
    ensures s[i] !in CAPITALS ==> Lower(s)[i] == s[i]
    ensures s[i] !in SMALL ==> Upper(s)[i] == s[i]
  {
    Alphabet();
    hide CAPITALS, SMALL;
    if 'A' <= s[i] <= 'Z' {
      assert CAPITALS[s[i] as int - 'A' as int] == s[i];
    }
    if 'a' <= s[i] <= 'z' {
      assert SMALL[s[i] as int - 'a' as int] == s[i];
    }
  }

  lemma Alphabet()
    ensures |CAPITALS| == |SMALL| == 26
    ensures forall k | 0 <= k < 26 :: CAPITALS[k] as int == 'A' as int + k && SMALL[k] as int == 'a' as int + k
  {
  }

  function NonEmpty(parts: seq<string>): (kept: seq<string>)
    ensures forall k | k in kept :: k != "" && k in parts
  {
    if parts == [] then []
    else if parts[0] == "" then NonEmpty(parts[1..])
    else [parts[0]] + NonEmpty(parts[1..])
  }

  lemma {:induction false} SplitConcat(a: string, sep: char, b: string)
    ensures Split(a + [sep] + b, sep) == Split(a, sep) + Split(b, sep)
  {
    var whole := a + [sep] + b;
    if a == "" {
      assert whole[1..] == b;
    } else {
      assert whole[0] == a[0] && whole[1..] == a[1..] + [sep] + b;
      SplitConcat(a[1..], sep, b);
      PrependToFirst(a[0], sep, Split(a[1..], sep), Split(b, sep));
    }
  }

  lemma PrependToFirst(c: char, sep: char, left: seq<string>, right: seq<string>)
    requires |left| > 0
    ensures PrependChar(c, sep, left + right) == PrependChar(c, sep, left) + right
  {
    assert (left + right)[1..] == left[1..] + right;
  }

  lemma {:induction false} SplitWithoutSeparator(s: string, sep: char)
    requires sep !in s
    ensures Split(s, sep) == [s]
  {
    if s == "" {
    } else {
      SplitWithoutSeparator(s[1..], sep);
      assert [s[0]] + s[1..] == s;
    }
  }

  lemma {:induction false} NonEmptyConcat(a: seq<string>, b: seq<string>)
    ensures NonEmpty(a + b) == NonEmpty(a) + NonEmpty(b)
  {
    if a == [] {
      assert a + b == b;
    } else {
      assert (a + b)[1..] == a[1..] + b;
      NonEmptyConcat(a[1..], b);
    }
  }

  /** Python's order on strings: by code point, a prefix first. */
  predicate StringLeq(a: string, b: string) {
    a == "" || (b != "" && (a[0] < b[0] || (a[0] == b[0] && StringLeq(a[1..], b[1..]))))
  }

  lemma {:induction false} StringLeqTotal(a: string, b: string)
    ensures StringLeq(a, b) || StringLeq(b, a)
  {
    if a != "" && b != "" {
      StringLeqTotal(a[1..], b[1..]);
    }
  }

  lemma {:induction false} StringLeqTransitive(a: string, b: string, c: string)
    requires StringLeq(a, b) && StringLeq(b, c)
    ensures StringLeq(a, c)
  {
    if a != "" && a[0] == b[0] == c[0] {
      StringLeqTransitive(a[1..], b[1..], c[1..]);
    }
  }

  lemma {:induction false} StringLeqAntisymmetric(a: string, b: string)
    requires StringLeq(a, b) && StringLeq(b, a)
    ensures a == b
  {
    if a == "" {
    } else {
      StringLeqAntisymmetric(a[1..], b[1..]);
      assert a == [a[0]] + a[1..] && b == [b[0]] + b[1..];
    }
  }

  /** Pairs of strings, first by the first. */
  predicate PairLeq(a: (string, string), b: (string, string)) {
    if a.0 == b.0 then StringLeq(a.1, b.1) else StringLeq(a.0, b.0)
  }

  lemma PairLeqOrders(a: (string, string), b: (string, string), c: (string, string))
    ensures PairLeq(a, b) || PairLeq(b, a)
    ensures PairLeq(a, b) && PairLeq(b, c) ==> PairLeq(a, c)
    ensures PairLeq(a, b) && PairLeq(b, a) ==> a == b
  {
    StringLeqTotal(a.0, b.0);
    StringLeqTotal(a.1, b.1);
    if PairLeq(a, b) && PairLeq(b, c) {
      if a.0 == b.0 && b.0 == c.0 {
        StringLeqTransitive(a.1, b.1, c.1);
      } else {
        StringLeqTotal(a.0, a.0);
        if a.0 != b.0 && b.0 != c.0 {
          StringLeqTransitive(a.0, b.0, c.0);
          if a.0 == c.0 {
            StringLeqAntisymmetric(a.0, b.0);
          }
        }
      }
    }
    if PairLeq(a, b) && PairLeq(b, a) {
      if a.0 == b.0 {
        StringLeqAntisymmetric(a.1, b.1);
      } else {
        StringLeqAntisymmetric(a.0, b.0);
      }
    }
  }

  lemma StringOrder()
    ensures TotalPreorder(StringLeq) && Antisymmetric(StringLeq)
  {
    forall a, b
      ensures StringLeq(a, b) || StringLeq(b, a)
      ensures StringLeq(a, b) && StringLeq(b, a) ==> a == b
    {
      StringLeqTotal(a, b);
      if StringLeq(a, b) && StringLeq(b, a) {
        StringLeqAntisymmetric(a, b);
      }
    }
    forall a, b, c | StringLeq(a, b) && StringLeq(b, c)
      ensures StringLeq(a, c)
    {
      StringLeqTransitive(a, b, c);
    }
  }

  lemma PairOrder()
    ensures TotalPreorder(PairLeq) && Antisymmetric(PairLeq)
  {
    hide PairLeq;
    forall a, b
      ensures PairLeq(a, b) || PairLeq(b, a)
      ensures PairLeq(a, b) && PairLeq(b, a) ==> a == b
    {
      PairLeqOrders(a, b, a);
    }
    forall a, b, c | PairLeq(a, b) && PairLeq(b, c)
      ensures PairLeq(a, c)
    {
      PairLeqOrders(a, b, c);
    }
  }

  /** By code point: one string begins the other, or the first characters to differ decide. */
  lemma {:induction false} StringLeqIff(a: string, b: string)
    ensures StringLeq(a, b)
            <==> a <= b || exists k: nat :: k < |a| && k < |b| && a[..k] == b[..k] && a[k] < b[k]
  {
    if a == "" || b == "" {
    } else {
      StringLeqIff(a[1..], b[1..]);
      assert a == [a[0]] + a[1..] && b == [b[0]] + b[1..];
      if a[0] < b[0] {
        assert a[..0] == b[..0];
      } else if a[0] == b[0] {
        if k: nat :| k < |a[1..]| && k < |b[1..]| && a[1..][..k] == b[1..][..k] && a[1..][k] < b[1..][k] {
          assert a[..k + 1] == [a[0]] + a[1..][..k] && b[..k + 1] == [b[0]] + b[1..][..k];
        }
        if k: nat :| k < |a| && k < |b| && a[..k] == b[..k] && a[k] < b[k] {
          assert k > 0;
          assert a[1..][..k - 1] == a[..k][1..] && b[1..][..k - 1] == b[..k][1..];
        }
        assert a <= b <==> a[1..] <= b[1..];
      } else {
        assert forall k: nat | 0 < k < |a| && k < |b| && a[..k] == b[..k] :: a[..k][0] == a[0] && b[..k][0] == b[0];
      }
    }
  }
}
