/** Character classes and the string operations of .NET the calculators use:
    Trim, Split(' '), the StringBuilder that collects postfix text, and the
    number grammar \d+(,\d+)? of their regular expressions. */
module Text {

  /** \s of the regular expressions and char.IsWhiteSpace of String.Trim,
      restricted to ASCII. */
  predicate IsSpace(c: char) {
    c == ' ' || c == '\t' || c == '\n' || c == '\r' || c == '\U{000B}' || c == '\U{000C}'
  }

  /** \d of the regular expressions, restricted to ASCII. */
  predicate IsDigit(c: char) {
    '0' <= c <= '9'
  }

  /** Regex.Match(s, @"\s+").Success */
  predicate HasSpace(s: string) {
    exists i :: 0 <= i < |s| && IsSpace(s[i])
  }

  /** Regex.Match(s, @"\d+(,\d+)?").Success: the pattern is not anchored, so
      it matches as soon as s holds one digit. */
  predicate HasDigit(s: string) {
    exists i :: 0 <= i < |s| && IsDigit(s[i])
  }

  /** string.IsNullOrWhiteSpace on a string that is not null. */
  predicate IsBlank(s: string) {
    forall i :: 0 <= i < |s| ==> IsSpace(s[i])
  }

  /** A non-empty string without whitespace: what every registered symbol and
      every number literal is. */
  predicate IsWord(s: string) {
    |s| > 0 && !HasSpace(s)
  }

  /** What both versions accept as the symbol of an operation or a bracket:
      a word in which the unanchored number pattern finds nothing. */
  predicate IsSymbol(s: string) {
    IsWord(s) && !HasDigit(s)
  }

  /** The length of the longest blank prefix of s. */
  function LeadingSpaces(s: string): (n: nat)
    ensures n <= |s|
    ensures IsBlank(s[..n])
    ensures n < |s| ==> !IsSpace(s[n])
  {
    if |s| > 0 && IsSpace(s[0]) then 1 + LeadingSpaces(s[1..]) else 0
  }

  /** The length of the longest blank suffix of s. */
  function TrailingSpaces(s: string): (n: nat)
    ensures n <= |s|
    ensures IsBlank(s[|s| - n..])
    ensures n < |s| ==> !IsSpace(s[|s| - 1 - n])
  {
    if |s| > 0 && IsSpace(s[|s| - 1]) then 1 + TrailingSpaces(s[..|s| - 1]) else 0
  }

  /** r is what is left of s once a blank prefix and a blank suffix are cut
      off. */
  ghost predicate BetweenBlanks(s: string, r: string) {
    exists a :: 0 <= a <= |s| - |r| && r == s[a..a + |r|] && IsBlank(s[..a]) && IsBlank(s[a + |r|..])
  }

  /** String.Trim(): s without its blank prefix and suffix. */
  function Trim(s: string): (r: string)
    ensures |r| <= |s|
    ensures |r| == 0 <==> IsBlank(s)
    ensures |r| > 0 ==> !IsSpace(r[0]) && !IsSpace(r[|r| - 1])
    ensures BetweenBlanks(s, r)
  {
    var a := LeadingSpaces(s);
    var t := s[a..];
    var b := TrailingSpaces(t);
    TrimmedEnds(s, a, t, b, t[..|t| - b]);
    t[..|t| - b]
  }

  /** Cutting a blank prefix that stops at a non-blank, then a blank suffix
      that stops at a non-blank, leaves a piece of s between blank ends that
      is empty only for a blank s, and otherwise starts and ends with a
      non-blank. */
  lemma TrimmedEnds(s: string, a: nat, t: string, b: nat, r: string)
    requires a <= |s| && t == s[a..] && IsBlank(s[..a]) && (a < |s| ==> !IsSpace(s[a]))
    requires b <= |t| && IsBlank(t[|t| - b..]) && (b < |t| ==> !IsSpace(t[|t| - 1 - b]))
    requires r == t[..|t| - b]
    ensures |r| == 0 <==> IsBlank(s)
    ensures |r| > 0 ==> !IsSpace(r[0]) && !IsSpace(r[|r| - 1])
    ensures BetweenBlanks(s, r)
  {
    assert a + |r| == |s| - b;
    assert r == s[a..a + |r|] && IsBlank(s[..a]) && IsBlank(s[a + |r|..]);
    assert s[|s| - b..] == t[|t| - b..];
    if a == |s| {
      assert s[..a] == s;
    } else {
      assert t[0] == s[a];
      forall i | |t| - b <= i < |t| ensures IsSpace(t[i]) {
        assert t[|t| - b..][i - (|t| - b)] == t[i];
      }
      assert r[0] == t[0] && r[|r| - 1] == t[|t| - 1 - b];
    }
  }

  /** The pieces of s separated by sep, the empty ones included, as
      String.Split(sep) gives them. */
  function Split(s: string, sep: char): (r: seq<string>)
    ensures |r| > 0
    ensures forall i :: 0 <= i < |r| ==> sep !in r[i]
    ensures Join(r, sep) == s
  {
    if |s| == 0 then [""]
    else
      var rest := Split(s[1..], sep);
      if s[0] == sep then [""] + rest
      else [[s[0]] + rest[0]] + rest[1..]
  }

  /** The pieces of ls with sep between each two of them: String.Join. */
  function Join(ls: seq<string>, sep: char): string
  {
    if |ls| == 0 then ""
    else if |ls| == 1 then ls[0]
    else ls[0] + [sep] + Join(ls[1..], sep)
  }

  /** The text of a StringBuilder to which " " and then each of ls was
      appended. */
  function Render(ls: seq<string>): (r: string)
    ensures ls != [] ==> r == [' '] + Join(ls, ' ')
    ensures ls == [] ==> r == ""
  {
    if ls == [] then "" else [' '] + ls[0] + Render(ls[1..])
  }

  /** Splitting the joined pieces gives them back, when no piece holds the
      separator. */
  lemma {:induction false} SplitJoin(ls: seq<string>, sep: char)
    requires |ls| > 0
    requires forall i :: 0 <= i < |ls| ==> sep !in ls[i]
    ensures Split(Join(ls, sep), sep) == ls
    decreases |ls|, |ls[0]|
  {
    if |ls[0]| > 0 {
      var ls' := [ls[0][1..]] + ls[1..];
      JoinFirstChar(ls, ls', sep);
      SplitJoin(ls', sep);
      SplitOfCons(ls[0][0], Join(ls', sep), sep);
    } else if |ls| > 1 {
      SplitJoin(ls[1..], sep);
      SplitOfCons(sep, Join(ls[1..], sep), sep);
      assert Join(ls, sep) == [sep] + Join(ls[1..], sep);
      assert [""] + ls[1..] == ls;
    }
  }

  /** Split on a text that starts with c: an empty piece before the rest's
      pieces when c is the separator, and otherwise c put in front of the
      rest's first piece. */
  lemma SplitOfCons(c: char, t: string, sep: char)
    ensures c == sep ==> Split([c] + t, sep) == [""] + Split(t, sep)
    ensures c != sep ==> Split([c] + t, sep) == [[c] + Split(t, sep)[0]] + Split(t, sep)[1..]
  {
    assert ([c] + t)[1..] == t;
  }

  /** The joined text starts with the first character of the first piece;
      the rest of it joins the pieces with that character dropped. */
  lemma JoinFirstChar(ls: seq<string>, ls': seq<string>, sep: char)
    requires |ls| > 0 && |ls[0]| > 0 && ls' == [ls[0][1..]] + ls[1..]
    requires forall i :: 0 <= i < |ls| ==> sep !in ls[i]
    ensures forall i :: 0 <= i < |ls'| ==> sep !in ls'[i]
    ensures |ls'| == |ls| && |ls'[0]| < |ls[0]|
    ensures Join(ls, sep) == [ls[0][0]] + Join(ls', sep) && ls[0][0] != sep
    ensures [[ls[0][0]] + ls'[0]] + ls'[1..] == ls
  {
    var l := ls[0];
    assert sep !in l;
    forall i | 0 <= i < |ls'| ensures sep !in ls'[i] {
      if i == 0 {
        assert forall j :: 0 <= j < |l[1..]| ==> l[1..][j] == l[j + 1];
      } else {
        assert ls'[i] == ls[i];
      }
    }
    assert [l[0]] + l[1..] == l;
    if |ls| == 1 {
      assert Join(ls', sep) == l[1..];
    } else {
      assert Join(ls, sep) == l + [sep] + Join(ls[1..], sep);
      assert Join(ls', sep) == l[1..] + [sep] + Join(ls[1..], sep);
      assert ls'[1..] == ls[1..];
    }
    assert [l] + ls[1..] == ls;
  }

  /** The postfix text of CalculatorLibrary/Calculator.cs: the StringBuilder's
      text trimmed, split on ' ', gives back the appended lexemes (or a single
      empty piece when nothing was appended). */
  lemma RenderTrimSplit(ls: seq<string>)
    requires forall i :: 0 <= i < |ls| ==> IsWord(ls[i])
    ensures Split(Trim(Render(ls)), ' ') == if ls == [] then [""] else ls
  {
    if ls != [] {
      JoinedWordsTrim(ls);
      WordsHaveNoBlank(ls);
      SplitJoin(ls, ' ');
    }
  }

  /** Trim takes only the leading blank off words joined by blanks. */
  lemma JoinedWordsTrim(ls: seq<string>)
    requires |ls| > 0 && forall i :: 0 <= i < |ls| ==> IsWord(ls[i])
    ensures Trim([' '] + Join(ls, ' ')) == Join(ls, ' ')
  {
    var j := Join(ls, ' ');
    assert |j| > 0 && !IsSpace(j[0]) && !IsSpace(j[|j| - 1]) by {
      JoinEnds(ls, ' ');
      WordEnds(ls[0]);
      WordEnds(ls[|ls| - 1]);
    }
    assert IsBlank([' ']);
    TrimKeepsWord([' '], j);
  }

  lemma WordEnds(w: string)
    requires IsWord(w)
    ensures !IsSpace(w[0]) && !IsSpace(w[|w| - 1])
  {
  }

  lemma WordsHaveNoBlank(ls: seq<string>)
    requires forall i :: 0 <= i < |ls| ==> IsWord(ls[i])
    ensures forall i :: 0 <= i < |ls| ==> |ls[i]| > 0 && ' ' !in ls[i]
    ensures forall i, k :: 0 <= i < |ls| && 0 <= k < |ls[i]| ==> !IsSpace(ls[i][k])
  {
    forall i | 0 <= i < |ls| ensures ' ' !in ls[i] {
      assert IsWord(ls[i]);
    }
    forall i, k | 0 <= i < |ls| && 0 <= k < |ls[i]| ensures !IsSpace(ls[i][k]) {
      assert IsWord(ls[i]);
    }
  }

  /** The first and the last character of joined words are those of the first
      and of the last word. */
  lemma {:induction false} JoinEnds(ls: seq<string>, sep: char)
    requires |ls| > 0
    requires forall i :: 0 <= i < |ls| ==> |ls[i]| > 0
    ensures |Join(ls, sep)| >= |ls[0]| > 0 && |ls[|ls| - 1]| > 0
    ensures Join(ls, sep)[0] == ls[0][0]
    ensures Join(ls, sep)[|Join(ls, sep)| - 1] == ls[|ls| - 1][|ls[|ls| - 1]| - 1]
  {
    if |ls| > 1 {
      var rest := ls[1..];
      JoinEnds(rest, sep);
      var j, k := Join(ls, sep), Join(rest, sep);
      assert j == ls[0] + [sep] + k;
      assert rest[|rest| - 1] == ls[|ls| - 1];
      assert j[|j| - 1] == k[|k| - 1];
    }
  }

  /** A blank prefix is all that Trim takes from the front of pad + w. */
  lemma {:induction false} LeadingSpacesOfPadded(pad: string, w: string)
    requires IsBlank(pad)
    requires |w| > 0 && !IsSpace(w[0])
    ensures LeadingSpaces(pad + w) == |pad|
    decreases |pad|
  {
    if |pad| > 0 {
      assert (pad + w)[1..] == pad[1..] + w;
      LeadingSpacesOfPadded(pad[1..], w);
    }
  }

  /** Trimming blanks in front of a text that starts and ends with a
      non-blank character gives the text back. */
  lemma TrimKeepsWord(pad: string, w: string)
    requires IsBlank(pad)
    requires |w| > 0 && !IsSpace(w[0]) && !IsSpace(w[|w| - 1])
    ensures Trim(pad + w) == w
  {
    LeadingSpacesOfPadded(pad, w);
    assert (pad + w)[|pad|..] == w;
  }

  // ---------------------------------------------------------------------
  // The number grammar \d+(,\d+)?

  predicate AllDigits(s: string) {
    forall i :: 0 <= i < |s| ==> IsDigit(s[i])
  }

  /** A whole number literal: digits, optionally followed by a comma and more
      digits. */
  predicate IsNumeral(s: string) {
    || (|s| > 0 && AllDigits(s))
    || (exists k :: 0 < k < |s| - 1 && s[k] == ',' && AllDigits(s[..k]) && AllDigits(s[k + 1..]))
  }

  /** The length of the longest run of digits at the start of s. */
  function DigitRun(s: string): (n: nat)
    ensures n <= |s|
    ensures AllDigits(s[..n])
    ensures n < |s| ==> !IsDigit(s[n])
  {
    if |s| > 0 && IsDigit(s[0]) then 1 + DigitRun(s[1..]) else 0
  }

  /** The length of what \d+(,\d+)? matches at the start of s (0 when it does
      not match): \d+ takes every digit, then the optional group takes a comma
      only when a digit follows it. */
  function NumberLength(s: string): (n: nat)
    ensures n <= |s|
    ensures n > 0 <==> |s| > 0 && IsDigit(s[0])
  {
    var d := DigitRun(s);
    if d > 0 && d + 1 < |s| && s[d] == ',' && IsDigit(s[d + 1]) then d + 1 + DigitRun(s[d + 1..]) else d
  }

  /** A run of digits ending inside a prefix is the run of the prefix too. */
  lemma {:induction false} DigitRunOfPrefix(s: string, m: nat)
    requires DigitRun(s) <= m <= |s|
    ensures DigitRun(s[..m]) == DigitRun(s)
  {
    if m > 0 && IsDigit(s[0]) {
      assert s[..m][1..] == s[1..][..m - 1];
      DigitRunOfPrefix(s[1..], m - 1);
    }
  }

  /** A string is a number literal exactly when the greedy match takes all
      of it. */
  lemma NumeralIsWholeMatch(p: string)
    ensures IsNumeral(p) <==> |p| > 0 && NumberLength(p) == |p|
  {
    if |p| > 0 && NumberLength(p) == |p| {
      WholeMatchIsNumeral(p);
    }
    if IsNumeral(p) {
      NumeralIsMatchedWhole(p);
    }
  }

  lemma WholeMatchIsNumeral(p: string)
    requires |p| > 0 && NumberLength(p) == |p|
    ensures IsNumeral(p)
  {
    var d := DigitRun(p);
    if d == |p| {
      assert p[..d] == p;
    } else {
      var t := p[d + 1..];
      assert t[..DigitRun(t)] == t;
      assert 0 < d < |p| - 1 && p[d] == ',' && AllDigits(p[..d]) && AllDigits(p[d + 1..]);
    }
  }

  lemma NumeralIsMatchedWhole(p: string)
    requires IsNumeral(p)
    ensures |p| > 0 && NumberLength(p) == |p|
  {
    if |p| > 0 && AllDigits(p) {
      DigitRunOfDigits(p, |p|);
    } else {
      var k :| 0 < k < |p| - 1 && p[k] == ',' && AllDigits(p[..k]) && AllDigits(p[k + 1..]);
      DigitRunOfDigits(p, k);
      var t := p[k + 1..];
      assert IsDigit(t[0]);
      DigitRunOfDigits(t, |t|);
    }
  }

  /** Digits up to k, then the end or a non-digit: the run is k long. */
  lemma {:induction false} DigitRunOfDigits(s: string, k: nat)
    requires k <= |s| && AllDigits(s[..k]) && (k == |s| || !IsDigit(s[k]))
    ensures DigitRun(s) == k
  {
    if k > 0 {
      assert s[..k][0] == s[0];
      assert s[1..][..k - 1] == s[..k][1..];
      DigitRunOfDigits(s[1..], k - 1);
    }
  }

  /** Cutting s after its greedy match does not change the match. */
  lemma NumberLengthOfPrefix(s: string, m: nat)
    requires NumberLength(s) <= m <= |s|
    ensures NumberLength(s[..m]) == NumberLength(s)
  {
    var d := DigitRun(s);
    var p := s[..m];
    DigitRunOfPrefix(s, m);
    if NumberLength(s) > d {
      var t := s[d + 1..];
      assert p[d + 1..] == t[..m - d - 1];
      DigitRunOfPrefix(t, m - d - 1);
    }
  }

  /** NumberLength is the greedy match: its prefix is a number literal and no
      longer prefix is one. */
  lemma NumberLengthIsLongest(s: string)
    ensures NumberLength(s) > 0 ==> IsNumeral(s[..NumberLength(s)])
    ensures forall m :: NumberLength(s) < m <= |s| ==> !IsNumeral(s[..m])
  {
    var n := NumberLength(s);
    NumberLengthOfPrefix(s, n);
    NumeralIsWholeMatch(s[..n]);
    forall m | n < m <= |s| ensures !IsNumeral(s[..m]) {
      NumberLengthOfPrefix(s, m);
      NumeralIsWholeMatch(s[..m]);
    }
  }

  /** A number literal followed by a blank or by nothing is matched whole. */
  lemma NumeralFollowedBySpace(l: string, rest: string)
    requires IsNumeral(l)
    requires rest == [] || IsSpace(rest[0])
    ensures NumberLength(l + rest) == |l|
  {
    var s := l + rest;
    var n := NumberLength(s);
    assert s[..|l|] == l;
    NumeralIsWholeMatch(l);
    if n <= |l| {
      NumberLengthOfPrefix(s, |l|);
    } else {
      NumberLengthIsLongest(s);
      NumeralIsWord(s[..n]);
    }
  }

  /** Number literals are words that start with a digit. */
  lemma NumeralIsWord(l: string)
    requires IsNumeral(l)
    ensures IsWord(l) && IsDigit(l[0])
  {
    if !(|l| > 0 && AllDigits(l)) {
      var k :| 0 < k < |l| - 1 && l[k] == ',' && AllDigits(l[..k]) && AllDigits(l[k + 1..]);
      assert l[..k][0] == l[0];
      forall i | 0 <= i < |l| ensures !IsSpace(l[i]) {
        if i < k {
          assert l[..k][i] == l[i];
        } else if i > k {
          assert l[k + 1..][i - k - 1] == l[i];
        }
      }
    }
  }
}
