/**
 The library operations on lists.  The sort is stable, by a comparison that may rank different
 values equal, as comparison of names in the user's locale does.
 */
module Sorting {

  ghost predicate TotalPreorder<T(!new)>(le: (T, T) -> bool) {
    && (forall a, b :: le(a, b) || le(b, a))
    && (forall a, b, c :: le(a, b) && le(b, c) ==> le(a, c))
  }

  ghost predicate SortedBy<T>(le: (T, T) -> bool, s: seq<T>) {
    forall i, j :: 0 <= i < j < |s| ==> le(s[i], s[j])
  }

  ghost predicate Distinct<T>(s: seq<T>) {
    forall i, j :: 0 <= i < j < |s| ==> s[i] != s[j]
  }

  // After everything that ranks no higher.
  function Insert<T>(le: (T, T) -> bool, x: T, s: seq<T>): (r: seq<T>)
    ensures multiset(r) == multiset(s) + multiset{x}
  {
    if |s| == 0 then [x]
    else if le(s[0], x) then
      assert [s[0]] + s[1..] == s;
      [s[0]] + Insert(le, x, s[1..])
    else [x] + s
  }

  function SortBy<T>(le: (T, T) -> bool, s: seq<T>): (r: seq<T>)
    ensures multiset(r) == multiset(s) && |r| == |s|
  {
    if |s| == 0 then []
    else
      assert s[..|s| - 1] + [s[|s| - 1]] == s;
      var r := Insert(le, s[|s| - 1], SortBy(le, s[..|s| - 1]));
      assert |multiset(r)| == |r|;
      r
  }

  lemma {:induction false} InsertSorted<T(!new)>(le: (T, T) -> bool, x: T, s: seq<T>)
    requires TotalPreorder(le) && SortedBy(le, s)
    ensures SortedBy(le, Insert(le, x, s))
  {
    if |s| > 0 && le(s[0], x) {
      InsertSorted(le, x, s[1..]);
      var rest := Insert(le, x, s[1..]);
      forall j | 0 <= j < |rest| ensures le(s[0], rest[j]) {
        assert rest[j] in multiset(rest);
        if rest[j] != x {
          assert rest[j] in multiset(s[1..]);
        }
      }
    } else if |s| > 0 {
      forall j | 0 <= j < |s| ensures le(x, s[j]) {
        assert le(x, s[0]) && le(s[0], s[0]);
      }
    }
  }

  lemma {:induction false} SortBySorted<T(!new)>(le: (T, T) -> bool, s: seq<T>)
    requires TotalPreorder(le)
    ensures SortedBy(le, SortBy(le, s))
  {
    if |s| > 0 {
      SortBySorted(le, s[..|s| - 1]);
      InsertSorted(le, s[|s| - 1], SortBy(le, s[..|s| - 1]));
    }
  }

  lemma SameElements<T>(a: seq<T>, b: seq<T>)
    requires multiset(a) == multiset(b)
    ensures forall x :: x in a <==> x in b
  {
    assert forall x :: x in a <==> x in multiset(a);
    assert forall x :: x in b <==> x in multiset(b);
  }

  lemma {:induction false} DistinctCounts<T>(s: seq<T>)
    ensures Distinct(s) <==> forall x :: multiset(s)[x] <= 1
  {
    if |s| > 0 {
      var t, last := s[..|s| - 1], s[|s| - 1];
      assert s == t + [last];
      DistinctCounts(t);
      assert last in t <==> multiset(t)[last] >= 1;
      assert multiset(s)[last] == multiset(t)[last] + 1;
      assert forall x :: multiset(t)[x] <= multiset(s)[x];
      if Distinct(s) {
        assert forall i :: 0 <= i < |t| ==> t[i] == s[i];
        assert Distinct(t);
        assert last !in t;
      }
    }
  }

  lemma PermutationDistinct<T>(a: seq<T>, b: seq<T>)
    requires multiset(a) == multiset(b) && Distinct(a)
    ensures Distinct(b)
  {
    DistinctCounts(a);
    DistinctCounts(b);
  }

  lemma SameMultiset<T>(a: seq<T>, b: seq<T>)
    requires Distinct(a) && Distinct(b) && forall x :: x in a <==> x in b
    ensures multiset(a) == multiset(b)
  {
    DistinctCounts(a);
    DistinctCounts(b);
    forall x ensures multiset(a)[x] == multiset(b)[x] {
      assert x in a <==> x in multiset(a);
      assert x in b <==> x in multiset(b);
    }
  }

  /******* Keeping some of the elements *******/

  function Filter<T>(s: seq<T>, keep: T -> bool): (r: seq<T>) {
    if |s| == 0 then []
    else
      var n := |s| - 1;
      Filter(s[..n], keep) + if keep(s[n]) then [s[n]] else []
  }

  lemma {:induction false} FilterExact<T>(s: seq<T>, keep: T -> bool)
    ensures forall x :: x in Filter(s, keep) <==> x in s && keep(x)
    ensures if forall x :: x in s ==> keep(x) then Filter(s, keep) == s else |Filter(s, keep)| < |s|
  {
    if |s| > 0 {
      var n := |s| - 1;
      FilterExact(s[..n], keep);
      assert s == s[..n] + [s[n]];
    }
  }

  lemma {:induction false} FilterFrom<T>(s: seq<T>, keep: T -> bool, i: nat)
    requires i < |Filter(s, keep)|
    ensures Filter(s, keep)[i] in s && keep(Filter(s, keep)[i])
  {
    var n := |s| - 1;
    if i < |Filter(s[..n], keep)| {
      FilterFrom(s[..n], keep, i);
    }
  }

  // Whatever holds between every two elements still does.
  lemma {:induction false} FilterKeepsPairs<T>(s: seq<T>, keep: T -> bool, related: (T, T) -> bool)
    requires SortedBy(related, s)
    ensures SortedBy(related, Filter(s, keep))
  {
    if |s| > 0 {
      var n := |s| - 1;
      var front := Filter(s[..n], keep);
      FilterKeepsPairs(s[..n], keep, related);
      forall i | 0 <= i < |front| ensures related(front[i], s[n]) {
        FilterFrom(s[..n], keep, i);
      }
    }
  }

  lemma CountAppend<T>(s: seq<T>, x: T, v: T)
    ensures multiset(s + [x])[v] == multiset(s)[v] + if x == v then 1 else 0
  {
  }

  lemma {:induction false} FilterCount<T>(s: seq<T>, keep: T -> bool, v: T)
    ensures multiset(Filter(s, keep))[v] == if keep(v) then multiset(s)[v] else 0
  {
    if |s| > 0 {
      var n := |s| - 1;
      FilterCount(s[..n], keep, v);
      CountAppend(s[..n], s[n], v);
      CountAppend(Filter(s[..n], keep), s[n], v);
      assert s == s[..n] + [s[n]];
    }
  }

  /******* The sort is stable *******/

  // The elements that rank equal to x.
  function Ties<T>(le: (T, T) -> bool, x: T): (r: T -> bool) {
    y => le(x, y) && le(y, x)
  }

  lemma FilterCons<T>(x: T, s: seq<T>, keep: T -> bool)
    ensures Filter([x] + s, keep) == (if keep(x) then [x] else []) + Filter(s, keep)
    decreases |s|
  {
    if |s| == 0 {
      assert [x] + s == [x] && [x][..0] == [];
    } else {
      var n := |s| - 1;
      assert ([x] + s)[..n + 1] == [x] + s[..n] && ([x] + s)[n + 1] == s[n];
      FilterCons(x, s[..n], keep);
    }
  }

  lemma FilterAppend<T>(s: seq<T>, x: T, keep: T -> bool)
    ensures Filter(s + [x], keep) == Filter(s, keep) + if keep(x) then [x] else []
  {
    assert (s + [x])[..|s|] == s;
  }

  lemma Associative<T>(a: seq<T>, b: seq<T>, c: seq<T>)
    ensures (a + b) + c == a + (b + c)
  {
  }

  lemma {:induction false} FilterNone<T>(s: seq<T>, keep: T -> bool)
    requires forall i :: 0 <= i < |s| ==> !keep(s[i])
    ensures Filter(s, keep) == []
  {
    if |s| > 0 {
      FilterNone(s[..|s| - 1], keep);
    }
  }

  lemma NotTied<T(!new)>(le: (T, T) -> bool, first: T, y: T, x: T, z: T)
    requires TotalPreorder(le) && (first == y || le(first, y)) && !le(first, x) && Ties(le, z)(x)
    ensures !Ties(le, z)(y)
  {
  }

  // What comes after x in a sorted list does not rank equal to it.
  lemma NoTieAfter<T(!new)>(le: (T, T) -> bool, x: T, s: seq<T>, z: T)
    requires TotalPreorder(le) && SortedBy(le, s) && |s| > 0 && !le(s[0], x) && Ties(le, z)(x)
    ensures Filter(s, Ties(le, z)) == []
  {
    forall i | 0 <= i < |s| ensures !Ties(le, z)(s[i]) {
      assert i > 0 ==> le(s[0], s[i]);
      NotTied(le, s[0], s[i], x, z);
    }
    FilterNone(s, Ties(le, z));
  }

  lemma InsertLater<T>(head: T, x: T, rest: seq<T>, inserted: seq<T>, keep: T -> bool)
    requires Filter(inserted, keep) == Filter(rest, keep) + if keep(x) then [x] else []
    ensures Filter([head] + inserted, keep) == Filter([head] + rest, keep) + if keep(x) then [x] else []
  {
    FilterCons(head, inserted, keep);
    FilterCons(head, rest, keep);
    Associative(if keep(head) then [head] else [], Filter(rest, keep), if keep(x) then [x] else []);
  }

  // Among those that rank equal to z, an inserted element comes last.
  lemma {:induction false} InsertStable<T(!new)>(le: (T, T) -> bool, x: T, s: seq<T>, z: T)
    requires TotalPreorder(le) && SortedBy(le, s)
    ensures Filter(Insert(le, x, s), Ties(le, z)) == Filter(s, Ties(le, z)) + if Ties(le, z)(x) then [x] else []
  {
    var keep := Ties(le, z);
    if |s| == 0 {
      FilterAppend(s, x, keep);
      assert s + [x] == [x];
    } else if le(s[0], x) {
      InsertStable(le, x, s[1..], z);
      InsertLater(s[0], x, s[1..], Insert(le, x, s[1..]), keep);
      assert s == [s[0]] + s[1..];
    } else {
      FilterCons(x, s, keep);
      if keep(x) {
        NoTieAfter(le, x, s, z);
      }
    }
  }

  // Elements that rank equal keep the order they came in.
  lemma {:induction false} SortStable<T(!new)>(le: (T, T) -> bool, s: seq<T>, z: T)
    requires TotalPreorder(le)
    ensures Filter(SortBy(le, s), Ties(le, z)) == Filter(s, Ties(le, z))
  {
    if |s| > 0 {
      var init := s[..|s| - 1];
      SortStable(le, init, z);
      SortBySorted(le, init);
      InsertStable(le, s[|s| - 1], SortBy(le, init), z);
    }
  }

  /******* Names in order *******/

  predicate NameLe(a: string, b: string) {
    || |a| == 0
    || (|b| > 0 && (a[0] < b[0] || (a[0] == b[0] && NameLe(a[1..], b[1..]))))
  }

  lemma {:induction false} NameLeTotal(a: string, b: string)
    ensures NameLe(a, b) || NameLe(b, a)
    ensures NameLe(a, b) && NameLe(b, a) ==> a == b
  {
    if |a| > 0 && |b| > 0 && a[0] == b[0] {
      NameLeTotal(a[1..], b[1..]);
      assert a == [a[0]] + a[1..] && b == [b[0]] + b[1..];
    }
  }

  lemma {:induction false} NameLeTransitive(a: string, b: string, c: string)
    requires NameLe(a, b) && NameLe(b, c)
    ensures NameLe(a, c)
  {
    if |a| > 0 && a[0] == b[0] && b[0] == c[0] {
      NameLeTransitive(a[1..], b[1..], c[1..]);
    }
  }

  lemma NameLeOrder()
    ensures TotalPreorder(NameLe)
  {
    forall a, b ensures NameLe(a, b) || NameLe(b, a) {
      NameLeTotal(a, b);
    }
    forall a, b, c | NameLe(a, b) && NameLe(b, c) ensures NameLe(a, c) {
      NameLeTransitive(a, b, c);
    }
  }

  lemma SameHeads(a: string, b: string, i: nat)
    requires i <= |a| && i <= |b| && a[..i] == b[..i]
    ensures i == 0 || a[0] == b[0]
  {
    if i > 0 {
      assert a[..i][0] == a[0] && b[..i][0] == b[0];
    }
  }

  ghost predicate DiffersBelow(a: string, b: string, i: nat) {
    i < |a| && i < |b| && a[..i] == b[..i] && a[i] < b[i]
  }

  lemma DiffersLater(a: string, b: string, i: nat)
    requires |a| > 0 && |b| > 0 && a[0] == b[0]
    ensures DiffersBelow(a[1..], b[1..], i) <==> DiffersBelow(a, b, i + 1)
  {
    if i + 1 <= |a| && i + 1 <= |b| {
      assert a[..i + 1] == [a[0]] + a[1..][..i] && b[..i + 1] == [b[0]] + b[1..][..i];
      assert a[1..][..i] == a[..i + 1][1..] && b[1..][..i] == b[..i + 1][1..];
    }
  }

  // The order of the first characters that differ; a prefix comes first.
  lemma {:induction false} NameLeIff(a: string, b: string)
    ensures NameLe(a, b) <==> a <= b || exists i: nat :: DiffersBelow(a, b, i)
  {
    if |a| > 0 && |b| > 0 {
      assert a == [a[0]] + a[1..] && b == [b[0]] + b[1..];
      if a[0] == b[0] {
        NameLeIff(a[1..], b[1..]);
        if i: nat :| DiffersBelow(a[1..], b[1..], i) {
          DiffersLater(a, b, i);
        }
        if i: nat :| DiffersBelow(a, b, i) {
          DiffersLater(a, b, i - 1);
        }
      } else {
        forall i: nat | i <= |a| && i <= |b| && a[..i] == b[..i] ensures i == 0 {
          SameHeads(a, b, i);
        }
        assert a[0] < b[0] ==> DiffersBelow(a, b, 0);
      }
    }
  }

  predicate IsLeast(names: set<string>, name: string) {
    name in names && forall other :: other in names ==> NameLe(name, other)
  }

  lemma {:induction false} LeastExists(names: set<string>) returns (least: string)
    requires names != {}
    ensures IsLeast(names, least)
  {
    var name :| name in names;
    var rest := names - {name};
    NameLeOrder();
    if rest == {} {
      least := name;
    } else {
      least := LeastExists(rest);
      if NameLe(name, least) {
        least := name;
      }
    }
    assert names == rest + {name};
  }
}
