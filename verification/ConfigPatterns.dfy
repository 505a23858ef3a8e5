/** Choosing the configuration whose wildcard pattern fits an item best. */
module ConfigPatterns {
  import opened Strings
  import opened Wrappers

  const STAR: CodeUnit := 0x2A

  /** The pattern has its first star at `k`. */
  predicate FirstStar(pattern: JsString, k: int) {
    0 <= k < |pattern| && pattern[k] == STAR && STAR !in pattern[..k]
  }

  /** The item begins with what precedes the first star and ends with what follows it. */
  ghost predicate Matching(pattern: JsString, item: JsString) {
    exists k :: FirstStar(pattern, k) && pattern[..k] <= item && EndsWith(item, pattern[k + 1..])
  }

  /** A matching pattern scores its length without the star, so longer patterns win. */
  function MatchingPoint(pattern: JsString, item: JsString): (point: int)
    ensures point >= 0 <==> Matching(pattern, item)
    ensures point == -1 || point == |pattern| - 1
  {
    var index := IndexOf(pattern, STAR);
    assert forall k :: FirstStar(pattern, k) ==> k == index by {
      forall k | FirstStar(pattern, k) ensures k == index { FirstIndex(pattern, STAR, k); }
    }
    if index == |pattern| then -1
    else
      assert FirstStar(pattern, index);
      var firstPart := pattern[..index];
      if !(firstPart <= item) then -1
      else
        var secondPart := pattern[index + 1..];
        if !EndsWith(item, secondPart) then -1
        else |firstPart| + |secondPart|
  }

  // ---------------------------------------------------------------- what a pattern matches

  /** The pattern with its first star, at `k`, replaced. */
  function Fill(pattern: JsString, k: nat, middle: JsString): JsString
    requires k < |pattern|
  {
    pattern[..k] + middle + pattern[k + 1..]
  }

  ghost predicate Fills(pattern: JsString, item: JsString) {
    exists k: nat, middle :: FirstStar(pattern, k) && item == Fill(pattern, k, middle)
  }

  lemma FilledMatches(pattern: JsString, k: nat, middle: JsString)
    requires FirstStar(pattern, k)
    ensures Matching(pattern, Fill(pattern, k, middle)) && |Fill(pattern, k, middle)| >= |pattern| - 1
  {
    var item := Fill(pattern, k, middle);
    assert pattern[..k] <= item;
    assert item[|item| - |pattern[k + 1..]|..] == pattern[k + 1..];
  }

  lemma LongMatchFills(pattern: JsString, item: JsString, k: nat) returns (middle: JsString)
    requires FirstStar(pattern, k) && pattern[..k] <= item && EndsWith(item, pattern[k + 1..])
    requires |item| >= |pattern| - 1
    ensures item == Fill(pattern, k, middle)
  {
    middle := item[k..|item| - |pattern[k + 1..]|];
  }

  /**
    The items that replace the first star by some string are exactly the matched items that
    are long enough for the two parts not to overlap.
   */
  lemma FillsIffLongMatch(pattern: JsString, item: JsString)
    ensures Fills(pattern, item) <==> Matching(pattern, item) && |item| >= |pattern| - 1
  {
    if Fills(pattern, item) {
      var k: nat, middle :| FirstStar(pattern, k) && item == Fill(pattern, k, middle);
      FilledMatches(pattern, k, middle);
    }
    if Matching(pattern, item) && |item| >= |pattern| - 1 {
      var k :| FirstStar(pattern, k) && pattern[..k] <= item && EndsWith(item, pattern[k + 1..]);
      var middle := LongMatchFills(pattern, item, k);
    }
  }

  /** Matched but too short: the two parts overlap, and no replacement of the star gives the item. */
  lemma OverlapMatches()
    ensures Matching(Ascii("ab*ba"), Ascii("aba")) && !Fills(Ascii("ab*ba"), Ascii("aba"))
  {
    var p, item := Ascii("ab*ba"), Ascii("aba");
    assert FirstStar(p, 2);
    assert p[..2] == Ascii("ab") == item[..2] && p[3..] == Ascii("ba") == item[1..];
    assert p[..2] <= item;
    FillsIffLongMatch(p, item);
  }

  // ---------------------------------------------------------------- the best match

  datatype Answer =
    | NoMatch
    | Best(pattern: JsString)
    | Ambiguous(later: JsString, earlier: JsString)

  /** Position `i` holds a matching pattern and no matching pattern is longer. */
  ghost predicate Longest(patterns: seq<JsString>, item: JsString, i: int) {
    && 0 <= i < |patterns| && Matching(patterns[i], item)
    && forall j :: 0 <= j < |patterns| && Matching(patterns[j], item) ==> |patterns[j]| <= |patterns[i]|
  }

  /** What an answer has to be, in terms of the longest matching patterns alone. */
  ghost predicate Answers(patterns: seq<JsString>, item: JsString, answer: Answer) {
    match answer
    case NoMatch => forall i :: 0 <= i < |patterns| ==> !Matching(patterns[i], item)
    case Best(pattern) =>
      exists i :: Longest(patterns, item, i) && patterns[i] == pattern
                  && forall j :: Longest(patterns, item, j) ==> j == i
    case Ambiguous(later, earlier) =>
      exists i, j :: i < j && Longest(patterns, item, i) && Longest(patterns, item, j)
                     && patterns[i] == earlier && patterns[j] == later
                     && forall k :: Longest(patterns, item, k) ==> k <= i || k == j
  }

  /** The standing of the loop after a prefix: the last of the longest matches, and the one before it. */
  ghost predicate Standing(patterns: seq<JsString>, item: JsString, best: int,
                           matching: Option<JsString>, duplicate: Option<JsString>) {
    match matching
    case None =>
      best == -1 && duplicate == None && forall i :: 0 <= i < |patterns| ==> !Matching(patterns[i], item)
    case Some(pattern) =>
      && best == |pattern| - 1
      && match duplicate
         case None => Answers(patterns, item, Best(pattern))
         case Some(other) => Answers(patterns, item, Ambiguous(pattern, other))
  }

  lemma LongestOfPrefix(patterns: seq<JsString>, last: JsString, item: JsString)
    ensures forall i :: 0 <= i < |patterns| ==>
              (Longest(patterns + [last], item, i)
               <==> Longest(patterns, item, i) && (Matching(last, item) ==> |last| <= |patterns[i]|))
    ensures Longest(patterns + [last], item, |patterns|)
            <==> Matching(last, item)
                 && forall i :: 0 <= i < |patterns| && Matching(patterns[i], item) ==> |patterns[i]| <= |last|
  {
    var all := patterns + [last];
    assert forall i :: 0 <= i < |patterns| ==> all[i] == patterns[i];
    assert all[|patterns|] == last;
  }

  lemma NotMatchingKeepsStanding(patterns: seq<JsString>, last: JsString, item: JsString, best: int,
                                 matching: Option<JsString>, duplicate: Option<JsString>)
    requires Standing(patterns, item, best, matching, duplicate) && !Matching(last, item)
    ensures Standing(patterns + [last], item, best, matching, duplicate)
  {
    var all := patterns + [last];
    LongestOfPrefix(patterns, last, item);
    assert forall k :: Longest(all, item, k) <==> Longest(patterns, item, k);
  }

  lemma LongerTakesOver(patterns: seq<JsString>, last: JsString, item: JsString, best: int,
                        matching: Option<JsString>, duplicate: Option<JsString>)
    requires Standing(patterns, item, best, matching, duplicate) && Matching(last, item) && |last| - 1 > best
    ensures Standing(patterns + [last], item, |last| - 1, Some(last), None)
  {
    var all, n := patterns + [last], |patterns|;
    LongestOfPrefix(patterns, last, item);
    assert all[n] == last;
    assert forall k :: Longest(all, item, k) <==> k == n;
  }

  lemma EqualIsDuplicate(patterns: seq<JsString>, last: JsString, item: JsString, best: int,
                         matching: JsString, duplicate: Option<JsString>)
    requires Standing(patterns, item, best, Some(matching), duplicate) && Matching(last, item) && |last| - 1 == best
    ensures Standing(patterns + [last], item, best, Some(last), Some(matching))
  {
    var all, n := patterns + [last], |patterns|;
    LongestOfPrefix(patterns, last, item);
    var m :| Longest(patterns, item, m) && patterns[m] == matching
             && forall k :: Longest(patterns, item, k) ==> k <= m;
    assert forall k :: Longest(all, item, k) <==> Longest(patterns, item, k) || k == n;
    assert m < n && Longest(all, item, m) && Longest(all, item, n) && all[m] == matching && all[n] == last;
  }

  lemma ShorterKeepsStanding(patterns: seq<JsString>, last: JsString, item: JsString, best: int,
                             matching: JsString, duplicate: Option<JsString>)
    requires Standing(patterns, item, best, Some(matching), duplicate) && Matching(last, item) && |last| - 1 < best
    ensures Standing(patterns + [last], item, best, Some(matching), duplicate)
  {
    var all := patterns + [last];
    LongestOfPrefix(patterns, last, item);
    assert forall k :: Longest(all, item, k) <==> Longest(patterns, item, k);
  }

  /**
    No match exactly when no pattern matches, an error exactly when two positions tie for
    the longest match (naming the last two), and otherwise the one longest match.
   */
  method Matches(configPatterns: seq<JsString>, itemName: JsString) returns (answer: Answer)
    ensures Answers(configPatterns, itemName, answer)
  {
    var bestMatchingPoint := -1;
    var matchingPattern: Option<JsString> := None;
    var duplicatePattern: Option<JsString> := None;
    for i := 0 to |configPatterns|
      invariant Standing(configPatterns[..i], itemName, bestMatchingPoint, matchingPattern, duplicatePattern)
    {
      var pattern := configPatterns[i];
      ghost var before := configPatterns[..i];
      assert configPatterns[..i + 1] == before + [pattern];
      var currentPoint := MatchingPoint(pattern, itemName);
      if currentPoint == -1 {
        NotMatchingKeepsStanding(before, pattern, itemName, bestMatchingPoint, matchingPattern, duplicatePattern);
      }
      if currentPoint > bestMatchingPoint {
        LongerTakesOver(before, pattern, itemName, bestMatchingPoint, matchingPattern, duplicatePattern);
        bestMatchingPoint := currentPoint;
        matchingPattern := Some(pattern);
        duplicatePattern := None;
      } else if currentPoint == bestMatchingPoint && matchingPattern != None {
        EqualIsDuplicate(before, pattern, itemName, bestMatchingPoint, matchingPattern.value, duplicatePattern);
        duplicatePattern := matchingPattern;
        matchingPattern := Some(pattern);
      } else if currentPoint != -1 {
        ShorterKeepsStanding(before, pattern, itemName, bestMatchingPoint, matchingPattern.value, duplicatePattern);
      }
    }
    assert configPatterns[..|configPatterns|] == configPatterns;
    if duplicatePattern != None {
      return Ambiguous(matchingPattern.value, duplicatePattern.value);
    }
    answer := if matchingPattern == None then NoMatch else Best(matchingPattern.value);
  }

  // ---------------------------------------------------------------- order does not matter

  /** Two positions hold the same string exactly when it occurs at least twice. */
  lemma {:induction false} OccursTwice(s: seq<JsString>, x: JsString)
    ensures multiset(s)[x] >= 1 <==> exists i :: 0 <= i < |s| && s[i] == x
    ensures multiset(s)[x] >= 2 <==> exists i, j :: 0 <= i < j < |s| && s[i] == x && s[j] == x
  {
    if s == [] {
    } else {
      var n := |s| - 1;
      OccursTwice(s[..n], x);
      assert s == s[..n] + [s[n]];
      assert multiset(s)[x] == multiset(s[..n])[x] + if s[n] == x then 1 else 0;
      if multiset(s)[x] >= 2 {
        if s[n] == x {
          var i :| 0 <= i < n && s[..n][i] == x;
          assert 0 <= i < n < |s| && s[i] == x && s[n] == x;
        } else {
          var i, j :| 0 <= i < j < n && s[..n][i] == x && s[..n][j] == x;
          assert 0 <= i < j < |s| && s[i] == x && s[j] == x;
        }
      }
      if i, j :| 0 <= i < j < |s| && s[i] == x && s[j] == x {
        assert s[..n][i] == x;
        if j < n {
          assert s[..n][j] == x;
        }
      }
    }
  }

  ghost predicate Tied(patterns: seq<JsString>, item: JsString) {
    exists i, j :: i < j && Longest(patterns, item, i) && Longest(patterns, item, j)
  }

  lemma LongestElsewhere(a: seq<JsString>, b: seq<JsString>, item: JsString, i: int) returns (j: int)
    requires multiset(a) == multiset(b) && Longest(a, item, i)
    ensures Longest(b, item, j) && b[j] == a[i]
  {
    assert a[i] in multiset(a);
    assert a[i] in b;
    j :| 0 <= j < |b| && b[j] == a[i];
    forall k | 0 <= k < |b| && Matching(b[k], item) ensures |b[k]| <= |b[j]| {
      assert b[k] in multiset(b);
      assert b[k] in a;
    }
  }

  lemma TieElsewhere(a: seq<JsString>, b: seq<JsString>, item: JsString)
    requires multiset(a) == multiset(b) && Tied(a, item)
    ensures Tied(b, item)
  {
    var i, j :| i < j && Longest(a, item, i) && Longest(a, item, j);
    var k := LongestElsewhere(a, b, item, i);
    var l := LongestElsewhere(a, b, item, j);
    if k == l {
      OccursTwice(a, a[i]);
      OccursTwice(b, a[i]);
      var p, q :| 0 <= p < q < |b| && b[p] == a[i] && b[q] == a[i];
      assert Longest(b, item, p) && Longest(b, item, q);
    }
  }

  lemma TiedIffAmbiguous(patterns: seq<JsString>, item: JsString, answer: Answer)
    requires Answers(patterns, item, answer)
    ensures answer.Ambiguous? <==> Tied(patterns, item)
  {
  }

  /** The kind of answer, and the pattern chosen, are the same for every order of the patterns. */
  lemma OrderDoesNotMatter(a: seq<JsString>, b: seq<JsString>, item: JsString, x: Answer, y: Answer)
    requires multiset(a) == multiset(b) && Answers(a, item, x) && Answers(b, item, y)
    ensures x.NoMatch? <==> y.NoMatch?
    ensures x.Ambiguous? <==> y.Ambiguous?
    ensures x.Best? ==> x == y
  {
    TiedIffAmbiguous(a, item, x);
    TiedIffAmbiguous(b, item, y);
    if Tied(a, item) { TieElsewhere(a, b, item); }
    if Tied(b, item) { TieElsewhere(b, a, item); }
    if x.Best? {
      var i :| Longest(a, item, i) && a[i] == x.pattern;
      var j := LongestElsewhere(a, b, item, i);
    } else if y.Best? {
      var j :| Longest(b, item, j) && b[j] == y.pattern;
      var i := LongestElsewhere(b, a, item, j);
    }
  }
}
