/**
 The string operations of the three source languages that the models use: stripping, splitting and
 joining.  Which characters count as white space differs by language, so stripping takes a predicate.
 */
module Strings {

  ghost predicate Without(s: string, sep: char) {
    forall i :: 0 <= i < |s| ==> s[i] != sep
  }

  /******* Stripping *******/

  function StripLeft(s: string, drop: char -> bool): (r: string) {
    if |s| > 0 && drop(s[0]) then StripLeft(s[1..], drop) else s
  }

  function StripRight(s: string, drop: char -> bool): (r: string) {
    if |s| > 0 && drop(s[|s| - 1]) then StripRight(s[..|s| - 1], drop) else s
  }

  function Strip(s: string, drop: char -> bool): (r: string) {
    StripRight(StripLeft(s, drop), drop)
  }

  // What TrimSpace removes in Go.
  predicate IsGoSpace(c: char) {
    || '\t' <= c <= '\r' || c == ' ' || c == '\U{0085}' || c == '\U{00A0}' || c == '\U{1680}'
    || '\U{2000}' <= c <= '\U{200A}' || c == '\U{2028}' || c == '\U{2029}' || c == '\U{202F}'
    || c == '\U{205F}' || c == '\U{3000}'
  }

  lemma GoSpaceIff(c: char)
    ensures IsGoSpace(c) <==> c in "\t\n\U{000B}\U{000C}\r \U{0085}\U{00A0}\U{1680}\U{2000}\U{2001}\U{2002}\U{2003}\U{2004}\U{2005}\U{2006}\U{2007}\U{2008}\U{2009}\U{200A}\U{2028}\U{2029}\U{202F}\U{205F}\U{3000}"
  {
  }

  // Nothing to strip at either end.
  predicate Bare(s: string, drop: char -> bool) {
    |s| > 0 ==> !drop(s[0]) && !drop(s[|s| - 1])
  }

  lemma DropTail(s: string, r: string, drop: char -> bool)
    requires |r| < |s| && drop(s[0]) && s[1..][|s| - 1 - |r|..] == r
    requires forall i :: 0 <= i < |s| - 1 - |r| ==> drop(s[1..][i])
    ensures s[|s| - |r|..] == r && forall i :: 0 <= i < |s| - |r| ==> drop(s[i])
  {
    assert forall i :: 1 <= i < |s| ==> s[i] == s[1..][i - 1];
  }

  lemma {:induction false} StripLeftIsSuffix(s: string, drop: char -> bool)
    ensures var r := StripLeft(s, drop);
            && |r| <= |s| && s[|s| - |r|..] == r
            && (forall i :: 0 <= i < |s| - |r| ==> drop(s[i]))
            && (|r| > 0 ==> !drop(r[0]))
  {
    if |s| > 0 && drop(s[0]) {
      StripLeftIsSuffix(s[1..], drop);
      DropTail(s, StripLeft(s[1..], drop), drop);
    }
  }

  lemma {:induction false} StripRightIsPrefix(s: string, drop: char -> bool)
    ensures var r := StripRight(s, drop);
            && |r| <= |s| && s[..|r|] == r
            && (forall i :: |r| <= i < |s| ==> drop(s[i]))
            && (|r| > 0 ==> !drop(r[|r| - 1]))
  {
    if |s| > 0 && drop(s[|s| - 1]) {
      StripRightIsPrefix(s[..|s| - 1], drop);
    }
  }

  lemma StripBare(s: string, drop: char -> bool)
    requires Bare(s, drop)
    ensures Strip(s, drop) == s && StripLeft(s, drop) == s && StripRight(s, drop) == s
  {
  }

  lemma StripIsBare(s: string, drop: char -> bool)
    ensures Bare(Strip(s, drop), drop)
  {
    StripLeftIsSuffix(s, drop);
    StripRightIsPrefix(StripLeft(s, drop), drop);
  }

  // Padding made of droppable characters disappears.
  ghost predicate AllDropped(s: string, drop: char -> bool) {
    forall i :: 0 <= i < |s| ==> drop(s[i])
  }

  lemma {:induction false} StripLeftPadded(pad: string, s: string, drop: char -> bool)
    requires AllDropped(pad, drop)
    ensures StripLeft(pad + s, drop) == StripLeft(s, drop)
  {
    if |pad| == 0 {
      assert pad + s == s;
    } else {
      assert (pad + s)[1..] == pad[1..] + s;
      StripLeftPadded(pad[1..], s, drop);
    }
  }

  lemma {:induction false} StripRightPadded(s: string, pad: string, drop: char -> bool)
    requires AllDropped(pad, drop)
    ensures StripRight(s + pad, drop) == StripRight(s, drop)
  {
    if |pad| == 0 {
      assert s + pad == s;
    } else {
      assert (s + pad)[..|s + pad| - 1] == s + pad[..|pad| - 1];
      StripRightPadded(s, pad[..|pad| - 1], drop);
    }
  }

  lemma StripLeftIs(s: string, drop: char -> bool) returns (before: string)
    ensures s == before + StripLeft(s, drop) && AllDropped(before, drop)
  {
    StripLeftIsSuffix(s, drop);
    before := s[..|s| - |StripLeft(s, drop)|];
  }

  lemma StripRightIs(s: string, drop: char -> bool) returns (after: string)
    ensures s == StripRight(s, drop) + after && AllDropped(after, drop)
  {
    StripRightIsPrefix(s, drop);
    after := s[|StripRight(s, drop)|..];
  }

  // Stripping takes droppable characters off both ends, and all of them.
  lemma StripIs(s: string, drop: char -> bool) returns (before: string, after: string)
    ensures s == before + (Strip(s, drop) + after)
    ensures AllDropped(before, drop) && AllDropped(after, drop) && Bare(Strip(s, drop), drop)
  {
    before := StripLeftIs(s, drop);
    after := StripRightIs(StripLeft(s, drop), drop);
    StripIsBare(s, drop);
  }

  lemma {:induction false} StripRightConcat(head: string, s: string, drop: char -> bool)
    requires |StripRight(s, drop)| > 0
    ensures StripRight(head + s, drop) == head + StripRight(s, drop)
  {
    assert (head + s)[|head + s| - 1] == s[|s| - 1];
    if drop(s[|s| - 1]) {
      assert (head + s)[..|head + s| - 1] == head + s[..|s| - 1];
      StripRightConcat(head, s[..|s| - 1], drop);
    }
  }

  lemma StripPadded(left: string, s: string, right: string, drop: char -> bool)
    requires AllDropped(left, drop) && AllDropped(right, drop) && Bare(s, drop)
    ensures Strip(left + s + right, drop) == s
  {
    assert left + s + right == left + (s + right);
    StripLeftPadded(left, s + right, drop);
    if |s| > 0 {
      assert (s + right)[0] == s[0];
      StripRightPadded(s, right, drop);
    } else {
      assert s + right == right + [];
      StripLeftPadded(right, [], drop);
    }
  }

  /******* Splitting and joining *******/

  function Split(s: string, sep: char): (parts: seq<string>)
    ensures |parts| > 0
  {
    if |s| == 0 then [[]]
    else
      var rest := Split(s[1..], sep);
      if s[0] == sep then [[]] + rest else [[s[0]] + rest[0]] + rest[1..]
  }

  function Join(parts: seq<string>, sep: char): (s: string) {
    if |parts| == 0 then []
    else if |parts| == 1 then parts[0]
    else parts[0] + [sep] + Join(parts[1..], sep)
  }

  lemma {:induction false} SplitWithout(s: string, sep: char)
    requires Without(s, sep)
    ensures Split(s, sep) == [s]
  {
    if |s| > 0 {
      SplitWithout(s[1..], sep);
      assert [s[0]] + s[1..] == s;
    }
  }

  // The parts around a separator are split on their own.
  lemma {:induction false} SplitConcat(a: string, b: string, sep: char)
    ensures Split(a + [sep] + b, sep) == Split(a, sep) + Split(b, sep)
  {
    var s := a + [sep] + b;
    if |a| == 0 {
      assert s[1..] == b;
    } else {
      assert s[0] == a[0] && s[1..] == a[1..] + [sep] + b;
      SplitConcat(a[1..], b, sep);
      PrependToFirst(a[0], Split(a[1..], sep), Split(b, sep), sep);
    }
  }

  lemma PrependToFirst(c: char, x: seq<string>, y: seq<string>, sep: char)
    requires |x| > 0
    ensures [[]] + (x + y) == ([[]] + x) + y
    ensures [[c] + (x + y)[0]] + (x + y)[1..] == ([[c] + x[0]] + x[1..]) + y
  {
    assert (x + y)[1..] == x[1..] + y;
  }

  // Splitting undoes joining.
  lemma {:induction false} SplitJoin(parts: seq<string>, sep: char)
    requires |parts| > 0
    requires forall i :: 0 <= i < |parts| ==> Without(parts[i], sep)
    ensures Split(Join(parts, sep), sep) == parts
  {
    if |parts| == 1 {
      SplitWithout(parts[0], sep);
    } else {
      SplitJoin(parts[1..], sep);
      SplitConcat(parts[0], Join(parts[1..], sep), sep);
      SplitWithout(parts[0], sep);
    }
  }

  // Joining undoes splitting, and the parts do not hold the separator.
  lemma {:induction false} JoinSplit(s: string, sep: char)
    ensures Join(Split(s, sep), sep) == s
    ensures forall i :: 0 <= i < |Split(s, sep)| ==> Without(Split(s, sep)[i], sep)
  {
    if |s| > 0 {
      JoinSplit(s[1..], sep);
      var rest := Split(s[1..], sep);
      if s[0] == sep {
        assert ([[]] + rest)[1..] == rest;
      } else {
        assert ([[s[0]] + rest[0]] + rest[1..])[1..] == rest[1..];
      }
    }
  }

  lemma {:induction false} JoinAppend(x: seq<string>, y: seq<string>, sep: char)
    requires |x| > 0 && |y| > 0
    ensures Join(x + y, sep) == Join(x, sep) + [sep] + Join(y, sep)
  {
    if |x| == 1 {
      assert (x + y)[1..] == y;
    } else {
      assert (x + y)[1..] == x[1..] + y;
      JoinAppend(x[1..], y, sep);
      assert x[0] + [sep] + (Join(x[1..], sep) + [sep] + Join(y, sep))
          == (x[0] + [sep] + Join(x[1..], sep)) + [sep] + Join(y, sep);
    }
  }

  lemma SplitAfterJoin(init: seq<string>, last: string, sep: char)
    requires |init| > 0 && Without(last, sep)
    requires forall i :: 0 <= i < |init| ==> Without(init[i], sep)
    ensures Split(Join(init, sep) + [sep] + last, sep) == init + [last]
  {
    SplitJoin(init, sep);
    SplitWithout(last, sep);
    SplitConcat(Join(init, sep), last, sep);
  }

  // A string is its last part, after what comes before the last separator.
  lemma SplitLast(s: string, sep: char) returns (init: seq<string>, last: string)
    ensures Split(s, sep) == init + [last] && Without(last, sep)
    ensures forall i :: 0 <= i < |init| ==> Without(init[i], sep)
    ensures s == if |init| == 0 then last else Join(init, sep) + [sep] + last
  {
    var parts := Split(s, sep);
    init, last := parts[..|parts| - 1], parts[|parts| - 1];
    JoinSplit(s, sep);
    assert parts == init + [last];
    if |init| > 0 {
      JoinAppend(init, [last], sep);
    }
  }

  function NonEmpty(parts: seq<string>): (r: seq<string>) {
    if |parts| == 0 then []
    else (if |parts[0]| > 0 then [parts[0]] else []) + NonEmpty(parts[1..])
  }

  lemma {:induction false} NonEmptyAppend(a: seq<string>, b: seq<string>)
    ensures NonEmpty(a + b) == NonEmpty(a) + NonEmpty(b)
  {
    if |a| == 0 {
      assert a + b == b;
    } else {
      assert (a + b)[1..] == a[1..] + b;
      NonEmptyAppend(a[1..], b);
    }
  }

  lemma {:induction false} NonEmptyOfNonEmpty(parts: seq<string>)
    requires forall i :: 0 <= i < |parts| ==> |parts[i]| > 0
    ensures NonEmpty(parts) == parts
  {
    if |parts| > 0 {
      NonEmptyOfNonEmpty(parts[1..]);
      assert [parts[0]] + parts[1..] == parts;
    }
  }

  lemma {:induction false} NonEmptyParts(parts: seq<string>, sep: char)
    requires forall i :: 0 <= i < |parts| ==> Without(parts[i], sep)
    ensures forall i :: 0 <= i < |NonEmpty(parts)| ==>
              |NonEmpty(parts)[i]| > 0 && Without(NonEmpty(parts)[i], sep)
  {
    if |parts| > 0 {
      NonEmptyParts(parts[1..], sep);
    }
  }
}
