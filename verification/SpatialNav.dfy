/**
 Moving the focus with the arrow keys: which element a press picks, and where a run of presses in
 one direction leads.  Coordinates are exact reals.
 */
module SpatialNav {
  import opened Options
  import opened Sorting

  datatype NavRect = NavRect(id: string, x: real, y: real, width: real, height: real)

  datatype Direction = Left | Right | Up | Down

  datatype Point = Point(x: real, y: real)

  function Center(r: NavRect): (p: Point) {
    Point(r.x + r.width / 2.0, r.y + r.height / 2.0)
  }

  function Abs(a: real): (r: real) {
    if a < 0.0 then -a else a
  }

  // Candidates that the loop does not skip.
  predicate Eligible(current: NavRect, c: NavRect, dir: Direction) {
    var dx, dy := Center(c).x - Center(current).x, Center(c).y - Center(current).y;
    && c.id != current.id
    && match dir
       case Left => dx < -1.0
       case Right => dx > 1.0
       case Up => dy < -1.0
       case Down => dy > 1.0
  }

  function Primary(current: NavRect, c: NavRect, dir: Direction): (r: real) {
    if dir.Left? || dir.Right? then Abs(Center(c).x - Center(current).x) else Abs(Center(c).y - Center(current).y)
  }

  function Secondary(current: NavRect, c: NavRect, dir: Direction): (r: real) {
    if dir.Left? || dir.Right? then Abs(Center(c).y - Center(current).y) else Abs(Center(c).x - Center(current).x)
  }

  function Score(current: NavRect, c: NavRect, dir: Direction): (r: real) {
    Weigh(Primary(current, c, dir), Secondary(current, c, dir))
  }

  function Weigh(primary: real, secondary: real): (r: real) {
    primary + secondary * secondary / 120.0
  }

  // The element at index i is the first of the eligible ones with the least score.
  ghost predicate IsPick(current: NavRect, candidates: seq<NavRect>, dir: Direction, i: nat) {
    && i < |candidates| && Eligible(current, candidates[i], dir)
    && forall j :: 0 <= j < |candidates| && Eligible(current, candidates[j], dir) ==>
         && Score(current, candidates[i], dir) <= Score(current, candidates[j], dir)
         && (j < i ==> Score(current, candidates[i], dir) < Score(current, candidates[j], dir))
  }

  ghost predicate Picks(current: NavRect, candidates: seq<NavRect>, dir: Direction, c: NavRect) {
    exists i: nat :: IsPick(current, candidates, dir, i) && candidates[i] == c
  }

  method PickSpatialNeighbor(current: NavRect, candidates: seq<NavRect>, dir: Direction) returns (best: Option<NavRect>)
    ensures best.None? <==> forall j :: 0 <= j < |candidates| ==> !Eligible(current, candidates[j], dir)
    ensures best.Some? ==> Picks(current, candidates, dir, best.value)
  {
    best := None;
    var bestScore := 0.0;
    ghost var at: nat := 0;
    for i := 0 to |candidates|
      invariant best.None? ==> forall j :: 0 <= j < i ==> !Eligible(current, candidates[j], dir)
      invariant best.Some? ==> IsPick(current, candidates[..i], dir, at) && candidates[at] == best.value
      invariant best.Some? ==> bestScore == Score(current, best.value, dir)
    {
      if Eligible(current, candidates[i], dir) {
        var score := Score(current, candidates[i], dir);
        if best.None? || score < bestScore {
          best, bestScore, at := Some(candidates[i]), score, i;
        }
      }
    }
    assert candidates[..|candidates|] == candidates;
  }

  // Twice the distances between two centres, along the press and across it.
  function Along(a: NavRect, b: NavRect, dir: Direction): (r: real) {
    match dir
    case Left => (2.0 * a.x + a.width) - (2.0 * b.x + b.width)
    case Right => (2.0 * b.x + b.width) - (2.0 * a.x + a.width)
    case Up => (2.0 * a.y + a.height) - (2.0 * b.y + b.height)
    case Down => (2.0 * b.y + b.height) - (2.0 * a.y + a.height)
  }

  function Across(a: NavRect, b: NavRect, dir: Direction): (r: real) {
    match dir
    case Left => (2.0 * b.y + b.height) - (2.0 * a.y + a.height)
    case Right => (2.0 * b.y + b.height) - (2.0 * a.y + a.height)
    case Up => (2.0 * b.x + b.width) - (2.0 * a.x + a.width)
    case Down => (2.0 * b.x + b.width) - (2.0 * a.x + a.width)
  }

  // What a candidate costs, in units of a 480th.
  function Cost(a: NavRect, b: NavRect, dir: Direction): (r: real) {
    240.0 * Along(a, b, dir) + Across(a, b, dir) * Across(a, b, dir)
  }

  lemma EligibleIff(current: NavRect, c: NavRect, dir: Direction)
    ensures Eligible(current, c, dir) <==> c.id != current.id && Along(current, c, dir) > 2.0
  {
  }

  lemma HalfSquare(a: real, b: real)
    requires a == b / 2.0 || a == -(b / 2.0)
    ensures 480.0 * (a * a / 120.0) == b * b
  {
    assert a * a == b / 2.0 * (b / 2.0);
  }

  lemma ScoreIs(current: NavRect, c: NavRect, dir: Direction)
    requires Eligible(current, c, dir)
    ensures 480.0 * Score(current, c, dir) == Cost(current, c, dir)
    ensures 2.0 * Primary(current, c, dir) == Along(current, c, dir)
    ensures 2.0 * Secondary(current, c, dir) == if Across(current, c, dir) < 0.0 then -Across(current, c, dir) else Across(current, c, dir)
  {
    EligibleIff(current, c, dir);
    HalfSquare(Secondary(current, c, dir), Across(current, c, dir));
    assert Primary(current, c, dir) == Along(current, c, dir) / 2.0;
  }

  // On the coordinates: the pick is another element, further on by more than 1, and the first of the
  // cheapest such.
  ghost predicate IsCheapest(current: NavRect, candidates: seq<NavRect>, dir: Direction, i: nat) {
    && i < |candidates| && candidates[i].id != current.id && Along(current, candidates[i], dir) > 2.0
    && forall j :: 0 <= j < |candidates| && candidates[j].id != current.id && Along(current, candidates[j], dir) > 2.0 ==>
         && Cost(current, candidates[i], dir) <= Cost(current, candidates[j], dir)
         && (j < i ==> Cost(current, candidates[i], dir) < Cost(current, candidates[j], dir))
  }

  lemma PickIff(current: NavRect, candidates: seq<NavRect>, dir: Direction, i: nat)
    ensures IsPick(current, candidates, dir, i) <==> IsCheapest(current, candidates, dir, i)
  {
    forall j | 0 <= j < |candidates|
      ensures Eligible(current, candidates[j], dir) <==>
                candidates[j].id != current.id && Along(current, candidates[j], dir) > 2.0
      ensures Eligible(current, candidates[j], dir) ==>
                480.0 * Score(current, candidates[j], dir) == Cost(current, candidates[j], dir)
    {
      EligibleIff(current, candidates[j], dir);
      if Eligible(current, candidates[j], dir) {
        ScoreIs(current, candidates[j], dir);
      }
    }
  }

  // A press has one answer.
  lemma PickUnique(current: NavRect, candidates: seq<NavRect>, dir: Direction, a: NavRect, b: NavRect)
    requires Picks(current, candidates, dir, a) && Picks(current, candidates, dir, b)
    ensures a == b
  {
    var i: nat :| IsPick(current, candidates, dir, i) && candidates[i] == a;
    var j: nat :| IsPick(current, candidates, dir, j) && candidates[j] == b;
  }

  lemma PickScoresLeast(current: NavRect, candidates: seq<NavRect>, dir: Direction, c: NavRect, k: nat)
    requires Picks(current, candidates, dir, c)
    requires k < |candidates| && Eligible(current, candidates[k], dir)
    ensures Score(current, c, dir) <= Score(current, candidates[k], dir)
  {
    var i: nat :| IsPick(current, candidates, dir, i) && candidates[i] == c;
  }

  lemma WeighBound(primary: real, secondary: real, d: real)
    requires Weigh(primary, secondary) <= Weigh(d, 0.0)
    ensures secondary * secondary <= 120.0 * (d - primary)
  {
    var square := secondary * secondary;
    assert square / 120.0 <= d - primary;
  }

  // If some candidate is straight ahead at distance d, the pick is not far off the line.
  lemma AlignedBound(current: NavRect, candidates: seq<NavRect>, dir: Direction, c: NavRect, k: nat)
    requires Picks(current, candidates, dir, c)
    requires k < |candidates| && Eligible(current, candidates[k], dir) && Secondary(current, candidates[k], dir) == 0.0
    ensures var d, secondary := Primary(current, candidates[k], dir), Secondary(current, c, dir);
            secondary * secondary <= 120.0 * (d - Primary(current, c, dir))
  {
    PickScoresLeast(current, candidates, dir, c, k);
    WeighBound(Primary(current, c, dir), Secondary(current, c, dir), Primary(current, candidates[k], dir));
  }

  /******* Runs of presses *******/

  // How far an element lies in the direction of the press.
  function Advance(dir: Direction, r: NavRect): (a: real) {
    match dir
    case Left => -Center(r).x
    case Right => Center(r).x
    case Up => -Center(r).y
    case Down => Center(r).y
  }

  // The elements focused in turn when one arrow key is pressed again and again.
  ghost predicate IsRun(path: seq<NavRect>, layout: seq<NavRect>, dir: Direction) {
    && |path| > 0 && path[0] in layout
    && forall i :: 0 <= i < |path| - 1 ==> Picks(path[i], layout, dir, path[i + 1])
  }

  lemma PickAdvances(current: NavRect, layout: seq<NavRect>, dir: Direction, c: NavRect)
    requires Picks(current, layout, dir, c)
    ensures c in layout && Advance(dir, c) > Advance(dir, current) + 1.0
  {
    var i: nat :| IsPick(current, layout, dir, i) && layout[i] == c;
  }

  // Each press moves the centre by more than 1, and the moves add up.
  lemma {:induction false} RunAdvances(path: seq<NavRect>, layout: seq<NavRect>, dir: Direction, i: nat, j: nat)
    requires IsRun(path, layout, dir) && i < j < |path|
    ensures Advance(dir, path[j]) > Advance(dir, path[i]) + (j - i) as real
    decreases j
  {
    PickAdvances(path[j - 1], layout, dir, path[j]);
    if i < j - 1 {
      RunAdvances(path, layout, dir, i, j - 1);
    }
  }

  lemma {:induction false} DistinctLength<T>(s: seq<T>, all: set<T>)
    requires Distinct(s) && forall x :: x in s ==> x in all
    ensures |s| <= |all|
  {
    if |s| > 0 {
      var n := |s| - 1;
      assert s[n] in s;
      forall x | x in s[..n] ensures x in all - {s[n]} {
        assert x in s;
      }
      DistinctLength(s[..n], all - {s[n]});
    }
  }

  lemma {:induction false} ElementsBound<T>(s: seq<T>)
    ensures |set x | x in s| <= |s|
  {
    if |s| > 0 {
      var n := |s| - 1;
      ElementsBound(s[..n]);
      assert (set x | x in s) == (set x | x in s[..n]) + {s[n]};
    }
  }

  // A run never comes back to an element, so it ends after fewer presses than there are elements.
  lemma RunEnds(path: seq<NavRect>, layout: seq<NavRect>, dir: Direction)
    requires IsRun(path, layout, dir)
    ensures Distinct(path) && |path| - 1 <= |layout| - 1
  {
    forall i, j | 0 <= i < j < |path| ensures path[i] != path[j] {
      RunAdvances(path, layout, dir, i, j);
    }
    forall x | x in path ensures x in layout {
      var i :| 0 <= i < |path| && path[i] == x;
      if i > 0 {
        PickAdvances(path[i - 1], layout, dir, path[i]);
      }
    }
    var all := set x | x in layout;
    DistinctLength(path, all);
    ElementsBound(layout);
  }
}
