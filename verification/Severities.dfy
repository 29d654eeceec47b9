/** Severities as reports state them. */
module Severities {
  import opened Text

  datatype Severity = Critical | High | Medium | Low | UnknownSeverity {
    /** 0 is the worst. */
    function Rank(): nat {
      match this
      case Critical => 0
      case High => 1
      case Medium => 2
      case Low => 3
      case UnknownSeverity => 4
    }
  }

  /** Anything unrecognised is unknown, never guessed. */
  function NormaliseSeverity(text: string): Severity {
    var word := Lower(Strip(text));
    if word == "critical" then Critical
    else if word == "high" then High
    else if word == "medium" then Medium
    else if word == "low" then Low
    else UnknownSeverity
  }

  /** The word in any mixture of cases, with any white space around it. */
  ghost predicate Spells(text: string, word: string) {
    exists left, middle, right ::
      text == left + middle + right && Blank(left) && Blank(right) && SameLetters(middle, word)
  }

  predicate SameLetters(text: string, word: string) {
    |text| == |word| && forall i | 0 <= i < |word| :: text[i] == word[i] || (word[i] in SMALL && Upper([word[i]]) == [text[i]])
  }

  lemma SpellsIff(text: string, word: string)
    requires word != "" && forall c | c in word :: c in SMALL
    ensures Lower(Strip(text)) == word <==> Spells(text, word)
  {
    hide SMALL, Lower, Strip, Blank, SameLetters;
    var left, right := StripMeans(text);
    LowerIsSameLetters(Strip(text), word);
    if pre, middle, post :| text == pre + middle + post && Blank(pre) && Blank(post) && SameLetters(middle, word) {
      LettersAreTight(middle, word);
      PaddedStrips(pre, middle, post);
    }
  }

  lemma LettersAreTight(text: string, word: string)
    requires word != "" && (forall c | c in word :: c in SMALL) && SameLetters(text, word)
    ensures Tight(text)
  {
    Alphabet();
    hide SMALL, CAPITALS;
    forall i | 0 <= i < |word|
      ensures !IsSpace(text[i])
    {
      assert word[i] in word && 'a' <= word[i] <= 'z';
      assert text[i] == word[i] || text[i] == Upper([word[i]])[0];
    }
  }

  lemma LowerIsSameLetters(text: string, word: string)
    requires forall c | c in word :: c in SMALL
    ensures Lower(text) == word <==> SameLetters(text, word)
  {
    Alphabet();
    hide SMALL, CAPITALS;
    forall i | 0 <= i < |word|
      ensures 'a' <= word[i] <= 'z' && word[i] in SMALL
    {
      assert word[i] in word;
    }
    if SameLetters(text, word) {
      forall i | 0 <= i < |word|
        ensures Lower(text)[i] == word[i]
      {
        assert text[i] != word[i] ==> text[i] == Upper([word[i]])[0];
      }
    }
    if Lower(text) == word {
      forall i | 0 <= i < |word|
        ensures text[i] == word[i] || Upper([word[i]]) == [text[i]]
      {
        assert Lower(text)[i] == word[i];
      }
    }
  }

  /** Each severity is recognised by its own word, and everything else is unknown. */
  lemma SeverityIsSpelled(text: string)
    ensures NormaliseSeverity(text) == Critical <==> Spells(text, "critical")
    ensures NormaliseSeverity(text) == High <==> Spells(text, "high")
    ensures NormaliseSeverity(text) == Medium <==> Spells(text, "medium")
    ensures NormaliseSeverity(text) == Low <==> Spells(text, "low")
  {
    SpellsIff(text, "critical");
    SpellsIff(text, "high");
    SpellsIff(text, "medium");
    SpellsIff(text, "low");
    hide Spells, Lower, Strip;
  }

  /** From the worst down; what is unknown ranks behind everything that is known. */
  lemma SeveritiesRank()
    ensures Critical.Rank() < High.Rank() < Medium.Rank() < Low.Rank() < UnknownSeverity.Rank()
  {
  }
}
