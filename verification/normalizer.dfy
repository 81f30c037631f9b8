/** The text normaliser applied to every message before it is embedded
    (`cleanText` in public/ProcessingWorker.js). */
module Normalizer {
  import opened Wrappers
  import opened Seqs
  import opened Text

  /** Longest text handed to the embedding model. */
  const MaxTextLength: nat := 500

  /** `cleanText`: a missing or non-string text (`None`) becomes "";
      otherwise trim, collapse whitespace runs to one space and keep the
      first 500 characters. */
  function CleanText(text: Option<string>): (r: string)
    ensures text.None? ==> r == ""
    ensures |r| <= MaxTextLength
    ensures r == [] || !IsSpace(r[0])
    ensures SingleSpaced(r)
    ensures r != [] && IsSpace(r[|r| - 1]) ==> |r| == MaxTextLength
    ensures text.Some? ==> (r == [] <==> AllSpace(text.value))
    ensures text.Some? ==> StartsWith(NonSpace(text.value), NonSpace(r))
    ensures text.Some? && |text.value| <= MaxTextLength ==> NonSpace(r) == NonSpace(text.value)
  {
    match text
    case None => ""
    case Some(s) =>
      CleanedShape(s);
      CleanedEmpty(s);
      CleanedCharacters(s);
      CleanedShortCharacters(s);
      Prefix(Collapse(Trim(s)), MaxTextLength)
  }

  /** The cut of the collapsed text starts with a non-space, is single
      spaced, and ends with a space only when the cut fell on one. */
  lemma CleanedShape(s: string)
    ensures var r := Prefix(Collapse(Trim(s)), MaxTextLength);
      && |r| <= MaxTextLength
      && (r == [] || !IsSpace(r[0]))
      && SingleSpaced(r)
      && (r != [] && IsSpace(r[|r| - 1]) ==> |r| == MaxTextLength)
  {
    var t := Trim(s);
    var c := Collapse(t);
    CollapseSingleSpaced(t);
    CollapseLast(t);
    var r := Prefix(c, MaxTextLength);
    assert forall i :: 0 <= i < |r| ==> r[i] == c[i];
    assert r != [] && |r| < MaxTextLength ==> r[|r| - 1] == c[|c| - 1];
  }

  /** The result is empty exactly for an all-blank text. */
  lemma CleanedEmpty(s: string)
    ensures Prefix(Collapse(Trim(s)), MaxTextLength) == [] <==> AllSpace(s)
  {
  }

  /** Only white space is lost, apart from what the cut drops. */
  lemma CleanedCharacters(s: string)
    ensures StartsWith(NonSpace(s), NonSpace(Prefix(Collapse(Trim(s)), MaxTextLength)))
  {
    var t := Trim(s);
    var c := Collapse(t);
    assert NonSpace(c) == NonSpace(s) by {
      CollapseNonSpace(t);
    }
    NonSpacePrefix(c, |Prefix(c, MaxTextLength)|);
  }

  /** A text within the cut loses only white space. */
  lemma CleanedShortCharacters(s: string)
    ensures |s| <= MaxTextLength ==> NonSpace(Prefix(Collapse(Trim(s)), MaxTextLength)) == NonSpace(s)
  {
    if |s| <= MaxTextLength {
      var t := Trim(s);
      var c := Collapse(t);
      assert Prefix(c, MaxTextLength) == c;
      CollapseNonSpace(t);
    }
  }

  /** Cleaning a cleaned text changes it exactly when the 500-character cut
      left a trailing space: `cleanText` is not idempotent. */
  lemma CleanTextIdempotentIff(text: Option<string>)
    ensures var r := CleanText(text);
      CleanText(Some(r)) == r <==> (r == [] || !IsSpace(r[|r| - 1]))
  {
    var r := CleanText(text);
    if r == [] || !IsSpace(r[|r| - 1]) {
      assert Collapse(Trim(r)) == r by {
        TrimFixedPoint(r);
        CollapseFixedPoint(r);
      }
      assert |r| <= MaxTextLength;
    } else {
      assert |Collapse(Trim(r))| < |r| by {
        assert TrimStart(r) == r;
        assert |TrimEnd(r)| < |r|;
      }
    }
  }

  /** 499 letters, a space and one more letter: the cut keeps the space. */
  function TrailingSpaceWitness(): string {
    seq(501, i => if i == 499 then ' ' else 'a')
  }

  lemma WitnessShape()
    ensures var w := TrailingSpaceWitness();
      |w| == 501 && w[499] == ' ' && !IsSpace(w[0]) && !IsSpace(w[500]) && SingleSpaced(w)
  {
    var w := TrailingSpaceWitness();
    forall i | 0 <= i < |w| - 1
      ensures !(IsSpace(w[i]) && IsSpace(w[i + 1]))
    {
      if i != 499 && i != 498 {
        assert w[i] == 'a';
      }
    }
  }

  /** An already single-spaced text longer than the cut, whose 500th
      character is a space, cleans to a text ending in a space. */
  lemma CutAtSpace(w: string)
    requires |w| > MaxTextLength && IsSpace(w[MaxTextLength - 1])
    requires !IsSpace(w[0]) && !IsSpace(w[|w| - 1]) && SingleSpaced(w)
    ensures var r := CleanText(Some(w)); r != [] && IsSpace(r[|r| - 1])
  {
    TrimFixedPoint(w);
    CollapseFixedPoint(w);
    assert CleanText(Some(w)) == w[..MaxTextLength];
  }

  /** A concrete input on which cleaning twice differs from cleaning once. */
  lemma CleanTextNotIdempotent()
    ensures var r := CleanText(Some(TrailingSpaceWitness()));
      r != [] && IsSpace(r[|r| - 1]) && CleanText(Some(r)) != r
  {
    WitnessShape();
    CutAtSpace(TrailingSpaceWitness());
    CleanTextIdempotentIff(Some(TrailingSpaceWitness()));
  }
}
