/** The part regular expression of both versions,
      ^\s*(\d+(,\d+)?|alt1|alt2|...)
    with the registered symbols as alternatives, longest first. A match skips
    leading whitespace, then takes a number literal when one starts there,
    and otherwise the first alternative that is a prefix of the rest. */
module Scanner {
  import opened Common
  import opened Text
  import opened Symbols

  /** The alternatives of CreatePartRegex: the open symbols, the close
      symbols and the operation symbols, sorted longest first. */
  function PartAlternatives(brackets: seq<Bracket>, symbols: seq<string>): (r: seq<string>)
    ensures SortedByLength(r)
    ensures forall a :: a in r <==> a in Opens(brackets) || a in Closes(brackets) || a in symbols
  {
    var all := Opens(brackets) + Closes(brackets) + symbols;
    var r := SortByLength(all);
    assert forall a :: a in r <==> a in all by {
      forall a ensures a in r <==> a in all {
        assert a in r <==> a in multiset(r);
        assert a in all <==> a in multiset(all);
      }
    }
    r
  }

  predicate SortedByLength(alts: seq<string>) {
    forall i, j :: 0 <= i < j < |alts| ==> |alts[i]| >= |alts[j]|
  }

  /** List.Sort with the comparison (x, y) => y.Length.CompareTo(x.Length):
      the same strings, longest first. The order among strings of one length
      is left open by List.Sort; FirstPrefixOrderFree shows it does not
      matter. */
  function SortByLength(xs: seq<string>): (r: seq<string>)
    ensures multiset(r) == multiset(xs)
    ensures SortedByLength(r)
  {
    if xs == [] then []
    else
      assert xs == [xs[0]] + xs[1..];
      InsertByLength(xs[0], SortByLength(xs[1..]))
  }

  function InsertByLength(x: string, sorted: seq<string>): (r: seq<string>)
    requires SortedByLength(sorted)
    ensures multiset(r) == multiset(sorted) + multiset{x}
    ensures SortedByLength(r)
    ensures |r| == |sorted| + 1 && (r[0] == x || (|sorted| > 0 && r[0] == sorted[0]))
  {
    if sorted == [] || |sorted[0]| <= |x| then
      ConsSorted(x, sorted);
      [x] + sorted
    else
      var rest := InsertByLength(x, sorted[1..]);
      assert sorted == [sorted[0]] + sorted[1..];
      assert |sorted| > 1 ==> |sorted[1]| <= |sorted[0]|;
      ConsSorted(sorted[0], rest);
      [sorted[0]] + rest
  }

  lemma ConsSorted(h: string, rest: seq<string>)
    requires SortedByLength(rest)
    requires rest == [] || |rest[0]| <= |h|
    ensures SortedByLength([h] + rest)
  {
    var r := [h] + rest;
    forall i, j | 0 <= i < j < |r| ensures |r[i]| >= |r[j]| {
      if i == 0 {
        assert j == 1 || |rest[0]| >= |rest[j - 1]|;
      } else {
        assert r[i] == rest[i - 1] && r[j] == rest[j - 1];
      }
    }
  }

  /** The first alternative that is a prefix of s: the alternation of the
      regular expression, tried left to right. */
  function FirstPrefix(s: string, alts: seq<string>): (r: Option<string>)
    ensures r.Some? ==> r.value in alts && r.value <= s
    ensures r.None? <==> forall a :: a in alts ==> !(a <= s)
  {
    if alts == [] then None
    else if alts[0] <= s then Some(alts[0])
    else
      assert alts == [alts[0]] + alts[1..];
      FirstPrefix(s, alts[1..])
  }

  /** a is a longest alternative that is a prefix of s. */
  ghost predicate IsLongestPrefix(a: string, s: string, alts: seq<string>) {
    a in alts && a <= s && forall b :: b in alts && b <= s ==> |b| <= |a|
  }

  /** Sorting the alternatives longest first makes the first match a longest
      one: "**" is taken before "*". */
  lemma {:induction false} FirstPrefixIsLongest(s: string, alts: seq<string>)
    requires SortedByLength(alts)
    requires FirstPrefix(s, alts).Some?
    ensures IsLongestPrefix(FirstPrefix(s, alts).value, s, alts)
  {
    if !(alts[0] <= s) {
      SortedTail(alts);
      FirstPrefixIsLongest(s, alts[1..]);
      LongestPastFirst(FirstPrefix(s, alts).value, s, alts);
    }
  }

  lemma SortedTail(alts: seq<string>)
    requires SortedByLength(alts) && alts != []
    ensures SortedByLength(alts[1..])
  {
    var tail := alts[1..];
    forall i, j | 0 <= i < j < |tail| ensures |tail[i]| >= |tail[j]| {
      assert tail[i] == alts[i + 1] && tail[j] == alts[j + 1];
    }
  }

  /** A longest prefix among all alternatives but a first that is no
      prefix is a longest one among all of them. */
  lemma LongestPastFirst(a: string, s: string, alts: seq<string>)
    requires alts != [] && !(alts[0] <= s)
    requires IsLongestPrefix(a, s, alts[1..])
    ensures IsLongestPrefix(a, s, alts)
  {
    assert alts == [alts[0]] + alts[1..];
  }

  /** The order List.Sort leaves among alternatives of one length does not
      change what is matched: two length-sorted orders of the same
      alternatives match the same prefix. */
  lemma FirstPrefixOrderFree(s: string, alts1: seq<string>, alts2: seq<string>)
    requires SortedByLength(alts1) && SortedByLength(alts2)
    requires multiset(alts1) == multiset(alts2)
    ensures FirstPrefix(s, alts1) == FirstPrefix(s, alts2)
  {
    assert forall a :: a in alts1 <==> a in alts2 by {
      forall a ensures a in alts1 <==> a in alts2 {
        assert a in alts1 <==> a in multiset(alts1);
        assert a in alts2 <==> a in multiset(alts2);
      }
    }
    if FirstPrefix(s, alts1).Some? {
      FirstPrefixIsLongest(s, alts1);
      FirstPrefixIsLongest(s, alts2);
      var a1, a2 := FirstPrefix(s, alts1).value, FirstPrefix(s, alts2).value;
      assert |a1| == |a2|;
      assert a1 == s[..|a1|] && a2 == s[..|a2|];
    }
  }

  /** A match: Groups[1].Value and the length of the whole match. */
  datatype Part = Part(group: string, length: nat)

  /** Match of the part regular expression against s. */
  function MatchPart(s: string, alts: seq<string>): (r: Option<Part>)
    ensures r.Some? ==> |r.value.group| <= r.value.length <= |s|
    ensures r.Some? ==> IsBlank(s[..r.value.length - |r.value.group|])
    ensures r.Some? ==> s[r.value.length - |r.value.group|..r.value.length] == r.value.group
    ensures r.Some? ==> IsNumeral(r.value.group) || r.value.group in alts
    ensures r.Some? && r.value.group !in alts ==> |r.value.group| > 0
  {
    var w := LeadingSpaces(s);
    var t := s[w..];
    var n := NumberLength(t);
    if n > 0 then
      NumberLengthIsLongest(t);
      assert s[w..w + n] == t[..n];
      Some(Part(t[..n], w + n))
    else
      match FirstPrefix(t, alts)
      case None => None
      case Some(a) =>
        assert s[w..w + |a|] == t[..|a|];
        Some(Part(a, w + |a|))
  }

  /** What a match takes, once leading whitespace is skipped: a number literal
      as long as possible when a digit comes next, otherwise a longest
      alternative that is a prefix; no match when neither exists. */
  lemma MatchPartIsGreedy(s: string, alts: seq<string>)
    requires SortedByLength(alts)
    ensures var t := s[LeadingSpaces(s)..];
      && (MatchPart(s, alts).None? <==> (|t| == 0 || !IsDigit(t[0])) && forall a :: a in alts ==> !(a <= t))
      && (|t| > 0 && IsDigit(t[0]) ==>
            && MatchPart(s, alts).Some?
            && IsNumeral(MatchPart(s, alts).value.group)
            && MatchPart(s, alts).value.group <= t
            && forall m :: |MatchPart(s, alts).value.group| < m <= |t| ==> !IsNumeral(t[..m]))
      && (MatchPart(s, alts).Some? && (|t| == 0 || !IsDigit(t[0])) ==>
            IsLongestPrefix(MatchPart(s, alts).value.group, t, alts))
  {
    var t := s[LeadingSpaces(s)..];
    NumberLengthIsLongest(t);
    if NumberLength(t) == 0 && FirstPrefix(t, alts).Some? {
      FirstPrefixIsLongest(t, alts);
    }
  }

  /** A blank, a number literal, then the end or a blank: the match is the
      literal, which ends at the blank. */
  lemma MatchOfNumeral(alts: seq<string>, l: string, tail: string)
    requires IsNumeral(l)
    requires tail == [] || tail[0] == ' '
    ensures MatchPart([' '] + l + tail, alts) == Some(Part(l, 1 + |l|))
  {
    var s, t := [' '] + l + tail, l + tail;
    assert s == [' '] + t;
    assert LeadingSpaces(s) == 1 by {
      NumeralIsWord(l);
      assert t[0] == l[0];
      LeadingSpacesOfPadded([' '], t);
    }
    assert s[1..] == t;
    assert NumberLength(t) == |l| by {
      NumeralFollowedBySpace(l, tail);
    }
    assert t[..|l|] == l;
  }

  /** A blank, an alternative that starts with no digit, then the end or a
      blank: the match is the alternative, since no longer alternative
      without whitespace is a prefix. */
  lemma MatchOfSymbol(alts: seq<string>, l: string, tail: string)
    requires SortedByLength(alts)
    requires forall a :: a in alts ==> IsSymbol(a)
    requires l in alts
    requires tail == [] || tail[0] == ' '
    ensures MatchPart([' '] + l + tail, alts) == Some(Part(l, 1 + |l|))
  {
    var s, t := [' '] + l + tail, l + tail;
    assert s == [' '] + t;
    assert IsSymbol(l);
    assert t[0] == l[0] && !IsSpace(l[0]) && !IsDigit(l[0]);
    assert LeadingSpaces(s) == 1 by {
      LeadingSpacesOfPadded([' '], t);
    }
    assert s[1..] == t;
    assert NumberLength(t) == 0;
    assert FirstPrefix(t, alts) == Some(l) by {
      assert t[..|l|] == l;
      FirstPrefixIsLongest(t, alts);
      var a := FirstPrefix(t, alts).value;
      assert a == t[..|a|];
    }
  }

  /** What Seporate yields before it stops: the parts in order, and the
      exception it throws after the last of them, if any. Postfix and Solve
      consume each part before the next is matched, so a failure of their
      own on a part comes before a failure of the scan. */
  datatype Scan = Scan(parts: seq<string>, failure: Option<CalcError>)

  /** Seporate's result once `parts` have been yielded. */
  function Prefixed(parts: seq<string>, scan: Scan): Scan {
    Scan(parts + scan.parts, scan.failure)
  }

  /** The first part put back in front of a scan of the others. */
  lemma PrefixedFirst(parts: seq<string>, scan: Scan)
    requires parts != [] && scan == Scan(parts[1..], None)
    ensures Prefixed([parts[0]], scan) == Scan(parts, None)
  {
    assert [parts[0]] + parts[1..] == parts;
  }

  lemma PrefixedTwice(parts1: seq<string>, parts2: seq<string>, scan: Scan)
    ensures Prefixed(parts1, Prefixed(parts2, scan)) == Prefixed(parts1 + parts2, scan)
    ensures Prefixed([], scan) == scan
  {
    assert parts1 + (parts2 + scan.parts) == (parts1 + parts2) + scan.parts;
    assert [] + scan.parts == scan.parts;
  }
}
