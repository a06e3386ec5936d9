/** Day 2: games of coloured cubes. Each game reveals a few subsets of cubes;
    part 1 sums the ids of the games whose subsets all fit in a bag of 12
    red, 13 green and 14 blue cubes, and part 2 sums, over the games, the
    product of the per-colour maxima.

    The text layer of the parser (`lines`, `split_once`, `trim`, the number
    parsing) is not modelled: a subset arrives as its list of
    `(count, colour)` mentions.
 */
module Day2 {

  import opened Wrappers
  import Sorting

  datatype Colors = Colors(red: nat, green: nat, blue: nat)

  datatype Game = Game(id: nat, subsets: seq<Colors>)

  /** One `"<count> <colour>"` item of a subset. */
  datatype Mention = Mention(count: nat, color: string)

  predicate KnownColor(c: string)
  {
    c == "red" || c == "green" || c == "blue"
  }

  /** The loop over one subset's mentions in `parse_input`: start from
      `Colors::default()` and overwrite the mentioned colour; an unknown
      colour panics. */
  function AssignColors(ms: seq<Mention>): (r: Outcome<Colors>)
    ensures r.Ok? || r.Panic?
    ensures r == Panic <==> exists k :: 0 <= k < |ms| && !KnownColor(ms[k].color)
  {
    AssignFrom(Colors(0, 0, 0), ms)
  }

  function AssignFrom(acc: Colors, ms: seq<Mention>): (r: Outcome<Colors>)
    ensures r.Ok? || r.Panic?
    ensures r == Panic <==> exists k :: 0 <= k < |ms| && !KnownColor(ms[k].color)
    decreases |ms|
  {
    if |ms| == 0 then Ok(acc)
    else
      var m := ms[0];
      assert forall k :: 1 <= k < |ms| ==> ms[k] == ms[1..][k - 1];
      if m.color == "red" then AssignFrom(acc.(red := m.count), ms[1..])
      else if m.color == "green" then AssignFrom(acc.(green := m.count), ms[1..])
      else if m.color == "blue" then AssignFrom(acc.(blue := m.count), ms[1..])
      else Panic
  }

  function MentionOf(ms: seq<Mention>, c: string): int -> bool
  {
    i => 0 <= i < |ms| && ms[i].color == c
  }

  /** The count of the last mention of colour `c`, or 0 when `c` is not
      mentioned. */
  function LastCount(ms: seq<Mention>, c: string): nat
  {
    match FindLast(0, |ms|, MentionOf(ms, c))
    case None => 0
    case Some(i) => ms[i].count
  }

  /** What `AssignFrom` keeps for colour `c` when starting from `dflt`. */
  function LastCountOr(ms: seq<Mention>, c: string, dflt: nat): nat
  {
    match FindLast(0, |ms|, MentionOf(ms, c))
    case None => dflt
    case Some(i) => ms[i].count
  }

  /** An unmentioned colour stays 0 and a repeated colour keeps its last
      count. */
  lemma AssignColorsIsLastMention(ms: seq<Mention>)
    requires AssignColors(ms).Ok?
    ensures AssignColors(ms).value == Colors(LastCount(ms, "red"), LastCount(ms, "green"), LastCount(ms, "blue"))
  {
    AssignFromIsLastMention(Colors(0, 0, 0), ms);
  }

  lemma {:induction false} AssignFromIsLastMention(acc: Colors, ms: seq<Mention>)
    requires AssignFrom(acc, ms).Ok?
    ensures AssignFrom(acc, ms).value ==
      Colors(LastCountOr(ms, "red", acc.red), LastCountOr(ms, "green", acc.green), LastCountOr(ms, "blue", acc.blue))
    decreases |ms|
  {
    if |ms| > 0 {
      var m := ms[0];
      var next :=
        if m.color == "red" then acc.(red := m.count)
        else if m.color == "green" then acc.(green := m.count)
        else acc.(blue := m.count);
      AssignFromIsLastMention(next, ms[1..]);
      LastCountStep(ms, "red", acc.red, next.red);
      LastCountStep(ms, "green", acc.green, next.green);
      LastCountStep(ms, "blue", acc.blue, next.blue);
    }
  }

  /** Dropping the first mention: the last mention of `c` in the rest wins,
      and otherwise the first mention (if it is of `c`) or `dflt`. */
  lemma LastCountStep(ms: seq<Mention>, c: string, dflt: nat, next: nat)
    requires |ms| > 0
    requires next == if ms[0].color == c then ms[0].count else dflt
    ensures LastCountOr(ms, c, dflt) == LastCountOr(ms[1..], c, next)
  {
    var rest := ms[1..];
    var whole, tail := FindLast(0, |ms|, MentionOf(ms, c)), FindLast(0, |rest|, MentionOf(rest, c));
    forall i | 0 <= i < |rest|
      ensures MentionOf(rest, c)(i) <==> MentionOf(ms, c)(i + 1)
    {
      assert rest[i] == ms[i + 1];
    }
    match tail
    case Some(j) =>
      assert MentionOf(ms, c)(j + 1);
      assert whole == Some(j + 1) by {
        assert whole.Some? && whole.value >= j + 1;
        assert MentionOf(rest, c)(whole.value - 1);
      }
      assert rest[j] == ms[j + 1];
    case None =>
      forall i | 1 <= i < |ms|
        ensures !MentionOf(ms, c)(i)
      {
        assert !MentionOf(rest, c)(i - 1);
      }
      if ms[0].color == c {
        assert MentionOf(ms, c)(0);
        assert whole == Some(0);
      } else {
        assert whole == None;
      }
  }

  /** The limits of part 1. */
  predicate Fits(s: Colors)
  {
    s.red <= 12 && s.green <= 13 && s.blue <= 14
  }

  predicate Possible(g: Game)
  {
    forall k :: 0 <= k < |g.subsets| ==> Fits(g.subsets[k])
  }

  /** The id of a game that passes the `filter`, 0 for one that does not. */
  function IdIfPossible(g: Game): int
  {
    if Possible(g) then g.id else 0
  }

  /** `filter(possible).map(id).sum()`: the id of every possible game adds
      to the answer, and the answer is 0 exactly when no possible game has
      a non-zero id. */
  function Part1(games: seq<Game>): (r: nat)
    ensures forall k :: 0 <= k < |games| && Possible(games[k]) ==> games[k].id <= r
    ensures r == 0 <==> forall k :: 0 <= k < |games| && Possible(games[k]) ==> games[k].id == 0
  {
    Sorting.SumOfNonNegative(IdIfPossible, games);
    Sorting.SumOf(IdIfPossible, games)
  }

  lemma Part1PermutationInvariant(a: seq<Game>, b: seq<Game>)
    requires multiset(a) == multiset(b)
    ensures Part1(a) == Part1(b)
  {
    Sorting.SumOfPermutation(IdIfPossible, a, b);
  }

  /** One step of the `reduce`: colour-wise maximum. */
  function MaxColors(l: Colors, r: Colors): Colors
  {
    Colors(Max(l.red, r.red), Max(l.green, r.green), Max(l.blue, r.blue))
  }

  /** `reduce(MaxColors).unwrap_or_default()`: each colour's value is the
      largest count of that colour over the subsets, `(0, 0, 0)` when there
      are none. */
  function Minimum(subsets: seq<Colors>): (r: Colors)
    ensures forall k :: 0 <= k < |subsets| ==>
      subsets[k].red <= r.red && subsets[k].green <= r.green && subsets[k].blue <= r.blue
    ensures |subsets| == 0 ==> r == Colors(0, 0, 0)
    ensures |subsets| > 0 ==> exists k :: 0 <= k < |subsets| && subsets[k].red == r.red
    ensures |subsets| > 0 ==> exists k :: 0 <= k < |subsets| && subsets[k].green == r.green
    ensures |subsets| > 0 ==> exists k :: 0 <= k < |subsets| && subsets[k].blue == r.blue
  {
    if |subsets| == 0 then Colors(0, 0, 0)
    else Reduce(subsets)
  }

  function Reduce(subsets: seq<Colors>): (r: Colors)
    requires |subsets| > 0
    ensures forall k :: 0 <= k < |subsets| ==>
      subsets[k].red <= r.red && subsets[k].green <= r.green && subsets[k].blue <= r.blue
    ensures exists k :: 0 <= k < |subsets| && subsets[k].red == r.red
    ensures exists k :: 0 <= k < |subsets| && subsets[k].green == r.green
    ensures exists k :: 0 <= k < |subsets| && subsets[k].blue == r.blue
  {
    if |subsets| == 1 then subsets[0]
    else
      var prefix := subsets[..|subsets| - 1];
      var l := Reduce(prefix);
      assert forall k :: 0 <= k < |prefix| ==> prefix[k] == subsets[k];
      MaxColors(l, subsets[|subsets| - 1])
  }

  function Power(c: Colors): nat
  {
    c.red * c.green * c.blue
  }

  /** A game with no subsets has power 0. */
  lemma EmptyGameHasNoPower(g: Game)
    requires |g.subsets| == 0
    ensures Minimum(g.subsets) == Colors(0, 0, 0) && Power(Minimum(g.subsets)) == 0
  {
  }

  /** The minimum bag holds every subset, so a game is possible exactly when
      the minimum bag fits the limits. */
  lemma PossibleIffMinimumFits(g: Game)
    ensures Possible(g) <==> Fits(Minimum(g.subsets))
  {
    var m := Minimum(g.subsets);
    if Possible(g) && |g.subsets| > 0 {
      var i :| 0 <= i < |g.subsets| && g.subsets[i].red == m.red;
      var j :| 0 <= j < |g.subsets| && g.subsets[j].green == m.green;
      var k :| 0 <= k < |g.subsets| && g.subsets[k].blue == m.blue;
      assert Fits(g.subsets[i]) && Fits(g.subsets[j]) && Fits(g.subsets[k]);
    }
  }

  function GamePower(g: Game): int
  {
    Power(Minimum(g.subsets))
  }

  /** `map(minimum).map(power).sum()`: every game's power adds to the
      answer, and the answer is 0 exactly when every game has power 0. */
  function Part2(games: seq<Game>): (r: nat)
    ensures forall k :: 0 <= k < |games| ==> Power(Minimum(games[k].subsets)) <= r
    ensures r == 0 <==> forall k :: 0 <= k < |games| ==> Power(Minimum(games[k].subsets)) == 0
  {
    Sorting.SumOfNonNegative(GamePower, games);
    Sorting.SumOf(GamePower, games)
  }

  lemma Part2PermutationInvariant(a: seq<Game>, b: seq<Game>)
    requires multiset(a) == multiset(b)
    ensures Part2(a) == Part2(b)
  {
    Sorting.SumOfPermutation(GamePower, a, b);
  }
}
