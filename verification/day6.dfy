/** Day 6: boat races. Holding the button for `t` milliseconds of a race of
    `time` milliseconds travels `(time - t) * t`; a hold time wins when that
    beats the record `dist`. `count_ways_to_win` finds the first winning hold
    time from the front, the last from the back, and counts the range
    between them.
 */
module Day6 {

  import opened Wrappers

  datatype Race = Race(time: nat, dist: nat)

  /** The distance travelled when holding for `t < time`. */
  function Travel(race: Race, t: nat): nat
    requires t < race.time
  {
    (race.time - t) * t
  }

  function Beats(race: Race): int -> bool
  {
    t => 1 <= t < race.time && Travel(race, t) > race.dist
  }

  /** `count_ways_to_win`: `find` over `1..time` for the first winner
      (panicking when there is none), then `rfind` over what the iterator
      has left for the last one. */
  function CountWaysToWin(race: Race): (r: Outcome<nat>)
    ensures r.Ok? || r.Panic?
    ensures r.Panic? <==> forall t :: 1 <= t < race.time ==> !Beats(race)(t)
    ensures r.Ok? ==> r.value >= 1
  {
    match FindFirst(1, race.time, Beats(race))
    case None => Panic
    case Some(first) =>
      var last := match FindLast(first + 1, race.time, Beats(race))
        case None => first
        case Some(l) => l;
      Ok(last - first + 1)
  }

  /** The count spans the first winner to the last one. */
  lemma CountSpansWinners(race: Race)
    requires CountWaysToWin(race).Ok?
    ensures exists first, last ::
      1 <= first <= last < race.time && Beats(race)(first) && Beats(race)(last)
      && CountWaysToWin(race).value == last - first + 1
      && (forall t :: 1 <= t < first || last < t < race.time ==> !Beats(race)(t))
  {
    var first, last := FirstAndLastWinner(race);
  }

  /** The two ends that `find` and `rfind` report. */
  lemma FirstAndLastWinner(race: Race) returns (first: nat, last: nat)
    requires CountWaysToWin(race).Ok?
    ensures 1 <= first <= last < race.time && Beats(race)(first) && Beats(race)(last)
    ensures CountWaysToWin(race).value == last - first + 1
    ensures forall t :: 1 <= t < first || last < t < race.time ==> !Beats(race)(t)
  {
    first := FindFirst(1, race.time, Beats(race)).value;
    last := match FindLast(first + 1, race.time, Beats(race))
      case None => first
      case Some(l) => l;
  }

  /** `(a - y) * y - (a - x) * x` factors as `(y - x) * (a - x - y)`. */
  lemma TravelDifference(a: int, x: int, y: int)
    ensures (a - y) * y - (a - x) * x == (y - x) * (a - x - y)
  {
    calc {
      (y - x) * (a - x - y);
      (y - x) * a - (y - x) * (x + y);
      { assert (y - x) * (x + y) == y * y - x * x; }
      (y - x) * a - (y * y - x * x);
      { assert (y - x) * a == a * y - a * x; }
      a * y - y * y - (a * x - x * x);
      { assert (a - y) * y == a * y - y * y; assert (a - x) * x == a * x - x * x; }
      (a - y) * y - (a - x) * x;
    }
  }

  lemma MulNonnegative(x: int, y: int)
    requires x >= 0 && y >= 0
    ensures x * y >= 0
  {
  }

  /** The travelled distance is concave in the hold time, so a hold time
      between two winners wins too. */
  lemma WinnersContiguous(race: Race, t1: nat, t2: nat, t3: nat)
    requires 1 <= t1 < t2 < t3 < race.time
    requires Beats(race)(t1) && Beats(race)(t3)
    ensures Beats(race)(t2)
  {
    var a := race.time;
    TravelDifference(a, t1, t2);
    TravelDifference(a, t3, t2);
    if t1 + t2 <= a {
      MulNonnegative(t2 - t1, a - t1 - t2);
      assert Travel(race, t2) >= Travel(race, t1);
    } else {
      MulNonnegative(t3 - t2, t2 + t3 - a);
      assert (t2 - t3) * (a - t3 - t2) == (t3 - t2) * (t2 + t3 - a);
      assert Travel(race, t2) >= Travel(race, t3);
    }
  }

  function Winners(race: Race): set<nat>
  {
    set t: nat | 1 <= t < race.time && Beats(race)(t)
  }

  /** The count is the number of winning hold times. */
  lemma CountIsNumberOfWinners(race: Race)
    requires CountWaysToWin(race).Ok?
    ensures CountWaysToWin(race).value == |Winners(race)|
  {
    var first, last := WinnersSpan(race);
    IntervalSize(first, last + 1);
  }

  lemma WinnersSpan(race: Race) returns (first: nat, last: nat)
    requires CountWaysToWin(race).Ok?
    ensures first <= last && CountWaysToWin(race).value == last - first + 1
    ensures Winners(race) == Interval(first, last + 1)
  {
    first, last := FirstAndLastWinner(race);
    WinnersAreInterval(race, first, last);
  }

  lemma WinnersAreInterval(race: Race, first: nat, last: nat)
    requires 1 <= first <= last < race.time && Beats(race)(first) && Beats(race)(last)
    requires forall t :: 1 <= t < first || last < t < race.time ==> !Beats(race)(t)
    ensures Winners(race) == Interval(first, last + 1)
  {
    forall t: nat
      ensures t in Winners(race) <==> t in Interval(first, last + 1)
    {
      IntervalMembers(first, last + 1, t);
      if first < t < last {
        WinnersContiguous(race, first, t, last);
      }
    }
  }

  /** The hold times `lo, lo + 1, ..., hi - 1`. */
  function Interval(lo: nat, hi: nat): set<nat>
    decreases hi - lo
  {
    if lo >= hi then {} else {lo} + Interval(lo + 1, hi)
  }

  lemma {:induction false} IntervalMembers(lo: nat, hi: nat, t: nat)
    ensures t in Interval(lo, hi) <==> lo <= t < hi
    decreases hi - lo
  {
    if lo < hi {
      IntervalMembers(lo + 1, hi, t);
    }
  }

  lemma {:induction false} IntervalSize(lo: nat, hi: nat)
    requires lo <= hi
    ensures |Interval(lo, hi)| == hi - lo
    decreases hi - lo
  {
    if lo < hi {
      IntervalSize(lo + 1, hi);
      IntervalMembers(lo + 1, hi, lo);
    }
  }

  /** The product of the counts; a race nobody can win panics. */
  function Part1(races: seq<Race>): (r: Outcome<nat>)
    ensures r.Ok? || r.Panic?
    ensures r.Panic? <==> exists k :: 0 <= k < |races| && CountWaysToWin(races[k]).Panic?
  {
    if |races| == 0 then Ok(1)
    else
      var head, tail := CountWaysToWin(races[0]), Part1(races[1..]);
      assert forall k :: 1 <= k < |races| ==> races[k] == races[1..][k - 1];
      if head.Ok? && tail.Ok? then Ok(head.value * tail.value) else Panic
  }

  /** Part 1 multiplies the numbers of winning hold times. */
  lemma {:induction false} Part1IsProductOfWinners(races: seq<Race>)
    requires Part1(races).Ok?
    ensures Part1(races).value == WinnerProduct(races)
    decreases |races|
  {
    if |races| > 0 {
      Part1IsProductOfWinners(races[1..]);
      CountIsNumberOfWinners(races[0]);
    }
  }

  function WinnerProduct(races: seq<Race>): nat
  {
    if |races| == 0 then 1 else |Winners(races[0])| * WinnerProduct(races[1..])
  }
}
