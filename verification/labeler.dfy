/** `getTopWords` of src/components/LoadGraph.jsx: the cluster labels of the
    graph are the three most frequent words of the cluster's conversation
    titles, after lower-casing, blanking everything that is not a letter or
    digit, and dropping stopwords and words of at most two characters. */
module Labeler {
  import opened Seqs
  import opened Text
  import opened Grouping
  import opened Tally

  /** The "quick dumb stopword list". */
  const Stopwords: set<string> := {
    "the", "a", "an", "and", "or", "to", "of", "in", "on", "for", "is", "at",
    "by", "my", "you", "me", "it", "with", "that", "this", "i", "we", "your", "be",
    "can", "do", "from", "as", "but", "if", "so", "are", "was", "not"
  }

  /** The words of a label are joined with a middle dot between spaces. */
  const Separator: string := " \U{00B7} "

  predicate IsWordChar(c: char) {
    'a' <= c <= 'z' || '0' <= c <= '9'
  }

  /** A word: a non-empty run of lower-case letters and digits. */
  predicate IsWord(w: string) {
    w != [] && forall c :: c in w ==> IsWordChar(c)
  }

  /** `.replace(/[^a-z0-9 ]/g, " ")` on one lower-cased character. */
  function Blank(c: char): (d: char)
    ensures IsWordChar(d) || d == ' '
    ensures IsWordChar(c) <==> d == c && c != ' '
  {
    if IsWordChar(c) then c else ' '
  }

  /** `text.toLowerCase().replace(/[^a-z0-9 ]/g, " ")`. */
  function Normalize(s: string): (r: string)
    ensures |r| == |s|
    ensures forall i :: 0 <= i < |s| ==> r[i] == Blank(LowerChar(s[i]))
  {
    seq(|s|, i requires 0 <= i < |s| => Blank(LowerChar(s[i])))
  }

  /** Normalizing twice changes nothing more. */
  lemma NormalizeIdempotent(s: string)
    ensures Normalize(Normalize(s)) == Normalize(s)
  {
    var r := Normalize(s);
    forall i | 0 <= i < |s| ensures Normalize(r)[i] == r[i] {
      assert LowerChar(r[i]) == r[i];
    }
  }

  /** Where the run of non-space characters starting at `i` ends. */
  function RunEnd(s: string, i: nat): (j: nat)
    requires i <= |s|
    ensures i <= j <= |s|
    ensures forall k :: i <= k < j ==> s[k] != ' '
    ensures j == |s| || s[j] == ' '
    decreases |s| - i
  {
    if i == |s| || s[i] == ' ' then i else RunEnd(s, i + 1)
  }

  /** `.split(/\s+/).filter(w => w)` on a normalized string: the maximal
      runs of non-space characters, in order. After `Normalize` the space is
      the only white-space character left. */
  function Tokens(s: string): (ws: seq<string>)
    ensures forall w :: w in ws ==> w != [] && forall c :: c in w ==> c in s && c != ' '
    decreases |s|
  {
    if s == [] then []
    else if s[0] == ' ' then Tokens(s[1..])
    else
      var j := RunEnd(s, 0);
      assert forall c :: c in s[..j] ==> c in s && c != ' ';
      assert forall c :: c in s[j..] ==> c in s;
      [s[..j]] + Tokens(s[j..])
  }

  /** A word and a separator: the run of the word ends at the separator. */
  lemma RunEndOfWord(w: string, rest: string)
    requires w != [] && ' ' !in w
    requires rest == [] || rest[0] == ' '
    ensures RunEnd(w + rest, 0) == |w|
  {
    var s := w + rest;
    var k := 0;
    while k < |w|
      invariant 0 <= k <= |w|
      invariant RunEnd(s, k) == RunEnd(s, 0)
    {
      assert s[k] == w[k];
      k := k + 1;
    }
  }

  /** Splitting undoes joining with single spaces. */
  lemma {:induction false} TokensOfJoin(ws: seq<string>)
    requires forall w :: w in ws ==> w != [] && ' ' !in w
    ensures Tokens(Join(ws, " ")) == ws
  {
    if |ws| == 1 {
      RunEndOfWord(ws[0], []);
      assert ws[0] + [] == ws[0];
      assert ws[0][|ws[0]|..] == [];
    } else if |ws| > 1 {
      assert ws[0] in ws;
      assert forall w :: w in ws[1..] ==> w in ws;
      var rest := Join(ws[1..], " ");
      var s := ws[0] + (" " + rest);
      assert Join(ws, " ") == s;
      RunEndOfWord(ws[0], " " + rest);
      assert s[..|ws[0]|] == ws[0];
      assert s[|ws[0]|..] == " " + rest;
      assert (" " + rest)[1..] == rest;
      TokensOfJoin(ws[1..]);
    }
  }

  /** No character but the spaces is lost by splitting. */
  lemma {:induction false} TokensKeepCharacters(s: string)
    ensures Flatten(Tokens(s)) == Filter(s, NotSpace)
    decreases |s|
  {
    if s != [] {
      if s[0] == ' ' {
        TokensKeepCharacters(s[1..]);
      } else {
        var j := RunEnd(s, 0);
        TokensKeepCharacters(s[j..]);
        assert s == s[..j] + s[j..];
        FilterAppend(s[..j], s[j..], NotSpace);
        FilterAll(s[..j], NotSpace);
        assert Tokens(s)[1..] == Tokens(s[j..]);
      }
    }
  }

  predicate NotSpace(c: char) {
    c != ' '
  }

  /** `w && !STOPWORDS.has(w) && w.length > 2`. */
  predicate Qualifies(w: string) {
    w !in Stopwords && |w| > 2
  }

  /** The words of one title that take part in the count. */
  function TitleWords(t: string): (ws: seq<string>)
    ensures forall w :: w in ws ==> IsWord(w) && Qualifies(w)
  {
    var r := Normalize(t);
    assert forall c :: c in r ==> IsWordChar(c) || c == ' ';
    Filter(Tokens(r), Qualifies)
  }

  /** Every counted word of the titles, title by title. */
  function Words(texts: seq<string>): (ws: seq<string>)
    ensures forall w :: w in ws ==> IsWord(w) && Qualifies(w)
  {
    if texts == [] then [] else TitleWords(texts[0]) + Words(texts[1..])
  }

  /** A word is counted exactly when some title yields it. */
  lemma {:induction false} WordsFrom(texts: seq<string>, w: string)
    ensures w in Words(texts) <==> exists j :: 0 <= j < |texts| && w in TitleWords(texts[j])
  {
    if texts != [] {
      WordsFrom(texts[1..], w);
      if w in Words(texts[1..]) {
        var j :| 0 <= j < |texts[1..]| && w in TitleWords(texts[1..][j]);
        assert w in TitleWords(texts[j + 1]);
      }
      if j :| 0 <= j < |texts| && w in TitleWords(texts[j]) {
        if j > 0 {
          assert texts[1..][j - 1] == texts[j];
        }
      }
    }
  }

  /** The `n` most frequent words, most frequent first. */
  function TopWords(texts: seq<string>, n: nat): seq<string> {
    EntryKeys(Top(Count(Words(texts)), n))
  }

  /** `getTopWords(texts, n)`. */
  function GetTopWords(texts: seq<string>, n: nat): (r: string)
    ensures r == "" <==> n == 0 || Words(texts) == []
  {
    LabelEmpty(texts, n);
    Join(TopWords(texts, n), Separator)
  }

  /** The kept words are `min(n, #distinct words)` distinct counted words. */
  lemma TopWordsShape(texts: seq<string>, n: nat)
    ensures var ws := TopWords(texts, n); var all := Words(texts);
      && |ws| == Min(n, |FirstOccurrences(all)|)
      && Distinct(ws)
      && forall i :: 0 <= i < |ws| ==> ws[i] in all && IsWord(ws[i]) && Qualifies(ws[i])
  {
    TopOfCount(Words(texts), n);
  }

  /** The kept words come most frequent first. */
  lemma TopWordsOrdered(texts: seq<string>, n: nat)
    ensures var ws := TopWords(texts, n); var all := Words(texts);
      forall i, j :: 0 <= i < j < |ws| ==> Occurrences(all, ws[i]) >= Occurrences(all, ws[j])
  {
    TopOfCount(Words(texts), n);
  }

  /** No word left out is more frequent than a word kept. */
  lemma TopWordsAreTop(texts: seq<string>, n: nat, w: string)
    requires w in Words(texts) && w !in TopWords(texts, n)
    ensures var ws := TopWords(texts, n);
      forall i :: 0 <= i < |ws| ==> Occurrences(Words(texts), ws[i]) >= Occurrences(Words(texts), w)
  {
    TopOfCountIsTop(Words(texts), n, w);
  }

  /** The label is empty exactly when no word is asked for or no title has
      a counted word. */
  lemma LabelEmpty(texts: seq<string>, n: nat)
    ensures Join(TopWords(texts, n), Separator) == "" <==> n == 0 || Words(texts) == []
  {
    var ws := TopWords(texts, n);
    var all := Words(texts);
    TopWordsShape(texts, n);
    JoinEmpty(ws, Separator);
    if all != [] {
      assert all[0] in FirstOccurrences(all);
    }
    if |ws| == 1 {
      assert IsWord(ws[0]);
    }
  }
}
