/** String operations of the JavaScript standard library that the pipeline
    relies on, over `string` = `seq<char>` (one element per code point). */
module Text {
  import opened Seqs

  /** The characters matched by the regular-expression class `\s` and
      removed by `String.prototype.trim`: WhiteSpace and LineTerminator of
      ECMA-262 (sections 12.2 and 12.3). */
  predicate IsSpace(c: char) {
    || c == ' ' || c == '\t' || c == '\n' || c == '\r'
    || c == '\U{000B}' || c == '\U{000C}' || c == '\U{00A0}' || c == '\U{1680}'
    || ('\U{2000}' <= c <= '\U{200A}')
    || c == '\U{2028}' || c == '\U{2029}' || c == '\U{202F}' || c == '\U{205F}'
    || c == '\U{3000}' || c == '\U{FEFF}'
  }

  predicate AllSpace(s: string) {
    forall i :: 0 <= i < |s| ==> IsSpace(s[i])
  }

  /** The non-whitespace characters of `s`, in order. */
  function NonSpace(s: string): string {
    if s == [] then []
    else (if IsSpace(s[0]) then [] else [s[0]]) + NonSpace(s[1..])
  }

  lemma {:induction false} NonSpaceOfAllSpace(s: string)
    requires AllSpace(s)
    ensures NonSpace(s) == []
  {
    if s != [] {
      NonSpaceOfAllSpace(s[1..]);
    }
  }

  lemma {:induction false} NonSpaceAppend(a: string, b: string)
    ensures NonSpace(a + b) == NonSpace(a) + NonSpace(b)
  {
    if a == [] {
      assert a + b == b;
    } else {
      assert (a + b)[1..] == a[1..] + b;
      NonSpaceAppend(a[1..], b);
    }
  }

  /** The non-whitespace characters of a prefix begin the non-whitespace
      characters of the whole. */
  lemma {:induction false} NonSpacePrefix(s: string, n: nat)
    requires n <= |s|
    ensures StartsWith(NonSpace(s), NonSpace(s[..n]))
  {
    assert s == s[..n] + s[n..];
    NonSpaceAppend(s[..n], s[n..]);
  }

  /** The length of the whitespace run that `s` starts with. */
  function LeadingSpaces(s: string): (n: nat)
    ensures n <= |s| && AllSpace(s[..n])
    ensures n == |s| || !IsSpace(s[n])
  {
    if s != [] && IsSpace(s[0]) then
      var n := LeadingSpaces(s[1..]);
      assert forall i :: 1 <= i < n + 1 ==> s[i] == s[1..][i - 1];
      n + 1
    else 0
  }

  /** `String.prototype.trimStart`: drops the leading whitespace run. */
  function TrimStart(s: string): (r: string)
    ensures r == [] || !IsSpace(r[0])
    ensures |r| <= |s| && r == s[|s| - |r|..]
    ensures AllSpace(s[..|s| - |r|])
    ensures NonSpace(r) == NonSpace(s)
  {
    var n := LeadingSpaces(s);
    assert s == s[..n] + s[n..];
    NonSpaceAppend(s[..n], s[n..]);
    NonSpaceOfAllSpace(s[..n]);
    s[n..]
  }

  /** `String.prototype.trimEnd`: drops the trailing whitespace run. */
  function TrimEnd(s: string): (r: string)
    ensures r == [] || !IsSpace(r[|r| - 1])
    ensures |r| <= |s| && r == s[..|r|]
    ensures AllSpace(s[|r|..])
  {
    if s != [] && IsSpace(s[|s| - 1]) then
      var r := TrimEnd(s[..|s| - 1]);
      assert s[|r|..] == s[..|s| - 1][|r|..] + [s[|s| - 1]];
      r
    else s
  }

  /** `String.prototype.trim`. */
  function Trim(s: string): (r: string)
    ensures r == [] <==> AllSpace(s)
    ensures r != [] ==> !IsSpace(r[0]) && !IsSpace(r[|r| - 1])
    ensures |r| <= |s|
    ensures NonSpace(r) == NonSpace(s)
  {
    var t := TrimStart(s);
    var r := TrimEnd(t);
    assert t == r + t[|r|..];
    NonSpaceAppend(r, t[|r|..]);
    NonSpaceOfAllSpace(t[|r|..]);
    assert r == [] ==> AllSpace(s) by {
      if r == [] {
        assert t == t[|r|..];
        assert s == s[..|s| - |t|] + t;
      }
    }
    r
  }

  /** Trimming changes nothing exactly when there is no whitespace to trim. */
  lemma TrimFixedPoint(s: string)
    ensures Trim(s) == s <==> (s == [] || (!IsSpace(s[0]) && !IsSpace(s[|s| - 1])))
  {
  }

  /** No whitespace character other than ' ' and no two whitespace
      characters side by side. */
  predicate SingleSpaced(s: string) {
    && (forall i :: 0 <= i < |s| && IsSpace(s[i]) ==> s[i] == ' ')
    && (forall i :: 0 <= i < |s| - 1 ==> !(IsSpace(s[i]) && IsSpace(s[i + 1])))
  }

  /** `s.replace(/\s+/g, ' ')`: every maximal whitespace run becomes one
      space. */
  function Collapse(s: string): (r: string)
    ensures |r| <= |s|
    ensures r == [] <==> s == []
    ensures r != [] ==> (IsSpace(r[0]) <==> IsSpace(s[0]))
    decreases |s|
  {
    if s == [] then []
    else if IsSpace(s[0]) then [' '] + Collapse(TrimStart(s[1..]))
    else [s[0]] + Collapse(s[1..])
  }

  /** After collapsing, whitespace is single spaces only. */
  lemma {:induction false} CollapseSingleSpaced(s: string)
    ensures SingleSpaced(Collapse(s))
    decreases |s|
  {
    if s != [] {
      var t := if IsSpace(s[0]) then TrimStart(s[1..]) else s[1..];
      var rest := Collapse(t);
      CollapseSingleSpaced(t);
      var r := Collapse(s);
      assert r == [r[0]] + rest;
      assert rest != [] && IsSpace(s[0]) ==> !IsSpace(rest[0]);
      forall i | 0 <= i < |r| - 1
        ensures !(IsSpace(r[i]) && IsSpace(r[i + 1]))
      {
        if i > 0 {
          assert r[i] == rest[i - 1] && r[i + 1] == rest[i];
        }
      }
      forall i | 0 <= i < |r| && IsSpace(r[i])
        ensures r[i] == ' '
      {
        if i > 0 {
          assert r[i] == rest[i - 1];
        }
      }
    }
  }

  /** Collapsing keeps whether the string ends in whitespace. */
  lemma {:induction false} CollapseLast(s: string)
    ensures var r := Collapse(s); s != [] ==> (IsSpace(r[|r| - 1]) <==> IsSpace(s[|s| - 1]))
    decreases |s|
  {
    var r := Collapse(s);
    if s == [] {
    } else if IsSpace(s[0]) {
      var t := TrimStart(s[1..]);
      if t != [] {
        CollapseLast(t);
        assert s[|s| - 1] == t[|t| - 1];
      } else {
        assert AllSpace(s[1..]);
        assert |s| > 1 ==> s[|s| - 1] == s[1..][|s| - 2];
      }
    } else if |s| > 1 {
      CollapseLast(s[1..]);
      assert s[|s| - 1] == s[1..][|s| - 2];
    }
  }

  /** Collapsing changes whitespace only. */
  lemma {:induction false} CollapseNonSpace(s: string)
    ensures NonSpace(Collapse(s)) == NonSpace(s)
    decreases |s|
  {
    if s != [] {
      var r := Collapse(s);
      if IsSpace(s[0]) {
        var t := TrimStart(s[1..]);
        CollapseNonSpace(t);
        assert r[1..] == Collapse(t);
      } else {
        CollapseNonSpace(s[1..]);
        assert r[1..] == Collapse(s[1..]);
      }
    }
  }

  /** A single-spaced string is left alone by `Collapse`. */
  lemma {:induction false} CollapseFixedPoint(s: string)
    requires SingleSpaced(s)
    ensures Collapse(s) == s
  {
    if s != [] {
      assert SingleSpaced(s[1..]);
      if IsSpace(s[0]) {
        assert s[1..] == [] || !IsSpace(s[1]);
        assert TrimStart(s[1..]) == s[1..];
      }
      CollapseFixedPoint(s[1..]);
    }
  }

  /** `s.substring(0, n)` for `n >= 0`. */
  function Prefix(s: string, n: nat): (r: string)
    ensures |r| == Min(n, |s|)
    ensures r == s[..|r|]
  {
    s[..Min(n, |s|)]
  }

  /** ASCII case mapping of `toLowerCase`. */
  function LowerChar(c: char): (d: char)
    ensures 'A' <= c <= 'Z' ==> 'a' <= d <= 'z' && d as int == c as int + 32
    ensures !('A' <= c <= 'Z') ==> d == c
  {
    if 'A' <= c <= 'Z' then (c as int + 32) as char else c
  }

  function Lower(s: string): (r: string)
    ensures |r| == |s|
    ensures forall i :: 0 <= i < |s| ==> r[i] == LowerChar(s[i])
  {
    seq(|s|, i requires 0 <= i < |s| => LowerChar(s[i]))
  }

  predicate StartsWith(s: string, t: string) {
    |t| <= |s| && s[..|t|] == t
  }

  /** `s.includes(t)`. */
  predicate Contains(s: string, t: string)
    decreases |s|
  {
    StartsWith(s, t) || (s != [] && Contains(s[1..], t))
  }

  predicate OccursAt(s: string, t: string, i: int) {
    0 <= i <= |s| - |t| && s[i..i + |t|] == t
  }

  /** `Contains` finds `t` exactly when `t` occurs at some position. */
  lemma {:induction false} ContainsOccurrence(s: string, t: string)
    ensures Contains(s, t) <==> exists i :: OccursAt(s, t, i)
    decreases |s|
  {
    if StartsWith(s, t) {
      assert OccursAt(s, t, 0);
    }
    if s != [] {
      ContainsOccurrence(s[1..], t);
      if Contains(s[1..], t) && !StartsWith(s, t) {
        var i :| OccursAt(s[1..], t, i);
        assert s[i + 1..i + 1 + |t|] == s[1..][i..i + |t|];
        assert OccursAt(s, t, i + 1);
      }
      if i :| OccursAt(s, t, i) {
        if i > 0 {
          assert s[1..][i - 1..i - 1 + |t|] == s[i..i + |t|];
          assert OccursAt(s[1..], t, i - 1);
        } else {
          assert StartsWith(s, t);
        }
      }
    } else {
      if i :| OccursAt(s, t, i) {
        assert |t| == 0 && StartsWith(s, t);
      }
    }
  }

  /** `parts.join(sep)`. */
  function Join(parts: seq<string>, sep: string): string {
    if |parts| == 0 then ""
    else if |parts| == 1 then parts[0]
    else parts[0] + sep + Join(parts[1..], sep)
  }

  /** A join is empty only when no part contributes a character. */
  lemma {:induction false} JoinEmpty(parts: seq<string>, sep: string)
    requires sep != []
    ensures Join(parts, sep) == "" <==> |parts| == 0 || (|parts| == 1 && parts[0] == "")
  {
  }

  /** Every non-whitespace character of a part survives the join. */
  lemma {:induction false} JoinKeepsNonSpace(parts: seq<string>, sep: string, k: nat)
    requires k < |parts| && !AllSpace(parts[k])
    ensures !AllSpace(Join(parts, sep))
  {
    if |parts| > 1 {
      var rest := Join(parts[1..], sep);
      assert Join(parts, sep) == parts[0] + (sep + rest);
      if k == 0 {
        var i :| 0 <= i < |parts[0]| && !IsSpace(parts[0][i]);
        assert Join(parts, sep)[i] == parts[0][i];
      } else {
        JoinKeepsNonSpace(parts[1..], sep, k - 1);
        var i :| 0 <= i < |rest| && !IsSpace(rest[i]);
        assert Join(parts, sep)[|parts[0]| + |sep| + i] == rest[i];
      }
    }
  }

  predicate IsDigit(c: char) {
    '0' <= c <= '9'
  }

  function DigitChar(d: nat): (c: char)
    requires d < 10
    ensures IsDigit(c)
  {
    ('0' as int + d) as char
  }

  function DigitValue(c: char): (d: nat)
    requires IsDigit(c)
    ensures d < 10 && DigitChar(d) == c
  {
    c as int - '0' as int
  }

  /** A decimal numeral as JavaScript prints a non-negative integer:
      digits only, and no leading zero unless the numeral is "0". */
  predicate IsNumeral(s: string) {
    && |s| >= 1
    && (forall i :: 0 <= i < |s| ==> IsDigit(s[i]))
    && (s[0] == '0' ==> |s| == 1)
  }

  /** `String(n)` and template-literal interpolation of a natural number. */
  function NatToString(n: nat): (s: string)
    ensures IsNumeral(s)
  {
    if n < 10 then [DigitChar(n)]
    else
      var s := NatToString(n / 10) + [DigitChar(n % 10)];
      assert s[0] == NatToString(n / 10)[0];
      s
  }

  /** `Number(s)` on a string of decimal digits. */
  function ParseDigits(s: string): nat
    requires forall i :: 0 <= i < |s| ==> IsDigit(s[i])
  {
    if s == [] then 0 else ParseDigits(s[..|s| - 1]) * 10 + DigitValue(s[|s| - 1])
  }

  /** Printing then parsing a number gives the number back. */
  lemma {:induction false} ParsePrinted(n: nat)
    ensures ParseDigits(NatToString(n)) == n
  {
    if n >= 10 {
      var s := NatToString(n);
      assert s[..|s| - 1] == NatToString(n / 10);
      ParsePrinted(n / 10);
    }
  }

  /** Parsing then printing a numeral gives the numeral back. */
  lemma {:induction false} PrintParsed(s: string)
    requires IsNumeral(s)
    ensures NatToString(ParseDigits(s)) == s
    decreases |s|
  {
    var n := |s| - 1;
    if n == 0 {
      assert DigitChar(DigitValue(s[0])) == s[0];
    } else {
      var p := s[..n];
      assert p[0] == s[0];
      PrintParsed(p);
      PrintedLowerBound(p);
      var v := ParseDigits(s);
      assert v == ParseDigits(p) * 10 + DigitValue(s[n]);
      assert v >= 10;
      assert v / 10 == ParseDigits(p) && v % 10 == DigitValue(s[n]);
      assert s == p + [s[n]];
    }
  }

  lemma {:induction false} PrintedLowerBound(s: string)
    requires |s| >= 1 && (forall i :: 0 <= i < |s| ==> IsDigit(s[i])) && s[0] != '0'
    ensures ParseDigits(s) >= 1
  {
    if |s| > 1 {
      var p := s[..|s| - 1];
      assert p[0] == s[0];
      PrintedLowerBound(p);
    }
  }
}
