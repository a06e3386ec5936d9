/** Day 4: scratchcards. A card wins as many times as its two number sets
    share elements. Part 1 scores a card 2^(matches-1); part 2 lets a card
    with `c` matches win one copy of each of the next `c` cards, for every
    instance of it, and counts the instances. The source keeps the copies
    still to be handed out in a deque; `Instances` is the recurrence that
    deque computes.
 */
module Day4 {

  import opened Wrappers
  import Num
  import Sorting

  /** The two `BTreeSet`s of a card: duplicates in the input collapse. */
  datatype Card = Card(winning: set<nat>, ticket: set<nat>)

  function CardFromLists(winning: seq<nat>, ticket: seq<nat>): (c: Card)
    ensures forall x :: x in c.winning <==> x in winning
    ensures forall x :: x in c.ticket <==> x in ticket
  {
    Card(set x | x in winning, set x | x in ticket)
  }

  /** `winning.intersection(&ticket).count()`. */
  function MatchCount(card: Card): (c: nat)
    ensures c <= |card.winning| && c <= |card.ticket|
    ensures c == 0 <==> forall x :: x in card.winning ==> x !in card.ticket
  {
    var common := card.winning * card.ticket;
    SubsetCard(common, card.winning);
    SubsetCard(common, card.ticket);
    EmptyIntersection(card.winning, card.ticket);
    |common|
  }

  lemma EmptyIntersection(a: set<nat>, b: set<nat>)
    ensures a * b == {} <==> forall x :: x in a ==> x !in b
  {
    if a * b != {} {
      var x :| x in a * b;
      assert x in a && x in b;
    } else {
      forall x | x in a
        ensures x !in b
      {
        assert x !in a * b;
      }
    }
  }

  lemma SubsetCard(a: set<nat>, b: set<nat>)
    requires a <= b
    ensures |a| <= |b|
  {
    assert b == a + (b - a);
  }

  /** A number listed twice on either side is still one match. */
  lemma DuplicatesCountOnce(winning: seq<nat>, ticket: seq<nat>, x: nat, y: nat)
    requires x in winning && y in ticket
    ensures MatchCount(CardFromLists(winning + [x], ticket)) == MatchCount(CardFromLists(winning, ticket))
    ensures MatchCount(CardFromLists(winning, ticket + [y])) == MatchCount(CardFromLists(winning, ticket))
  {
    assert CardFromLists(winning + [x], ticket) == CardFromLists(winning, ticket);
    assert CardFromLists(winning, ticket + [y]) == CardFromLists(winning, ticket);
  }

  /** `if count > 0 { 1 << (count - 1) } else { 0 }`. */
  function Points(count: nat): (r: nat)
    ensures r == 0 <==> count == 0
  {
    if count > 0 then Num.Pow2(count - 1) else 0
  }

  /** The first match is worth one point and each further match doubles the
      score. */
  lemma PointsDouble(count: nat)
    ensures Points(1) == 1
    ensures count >= 1 ==> Points(count + 1) == 2 * Points(count)
  {
  }

  /** The score of one card. */
  function CardPoints(card: Card): int
  {
    Points(MatchCount(card))
  }

  /** `map(count).map(points).sum()`: every card's score adds to the
      answer, and the answer is 0 exactly when no card has a match. */
  function Part1(cards: seq<Card>): (r: nat)
    ensures forall k :: 0 <= k < |cards| ==> Points(MatchCount(cards[k])) <= r
    ensures r == 0 <==> forall k :: 0 <= k < |cards| ==> MatchCount(cards[k]) == 0
  {
    Sorting.SumOfNonNegative(CardPoints, cards);
    Sorting.SumOf(CardPoints, cards)
  }

  /** Part 1 does not depend on the order of the cards. */
  lemma Part1PermutationInvariant(a: seq<Card>, b: seq<Card>)
    requires multiset(a) == multiset(b)
    ensures Part1(a) == Part1(b)
  {
    Sorting.SumOfPermutation(CardPoints, a, b);
  }

  function Wins(cards: seq<Card>, j: nat): nat
    requires j < |cards|
  {
    MatchCount(cards[j])
  }

  /** How many instances card `i` ends up with: the original plus one copy
      for each instance of every earlier card `j` whose wins reach it. */
  function Instances(cards: seq<Card>, i: nat): nat
    requires i < |cards|
    decreases i, 1
  {
    1 + Won(cards, i, i)
  }

  /** Copies of card `target` won by the cards before `t`. */
  function Won(cards: seq<Card>, target: nat, t: nat): nat
    requires t <= |cards|
    decreases t, 0
  {
    if t == 0 then 0
    else Won(cards, target, t - 1) + (if t - 1 < target <= t - 1 + Wins(cards, t - 1) then Instances(cards, t - 1) else 0)
  }

  function TotalInstances(cards: seq<Card>, m: nat): nat
    requires m <= |cards|
  {
    if m == 0 then 0 else TotalInstances(cards, m - 1) + Instances(cards, m - 1)
  }

  /** What one step of the `scan` returns: the instances `n` of the current
      card and the deque afterwards. */
  datatype Step = Step(n: nat, copies: seq<nat>)

  /** One step of the `scan`: pop the copies already won for this card, pad
      the deque with zeros to length `c`, and add `n` to its first `c`
      entries. */
  function ScanStep(copies: seq<nat>, c: nat): (r: Step)
    ensures r.n >= 1
    ensures r.n == 1 + (if |copies| > 0 then copies[0] else 0)
    ensures |r.copies| == Max(|copies| - 1, c)
    ensures forall k :: 0 <= k < c ==> r.copies[k] == (if k + 1 < |copies| then copies[k + 1] else 0) + r.n
    ensures forall k :: c <= k < |r.copies| ==> r.copies[k] == copies[k + 1]
  {
    var n := 1 + (if |copies| > 0 then copies[0] else 0);
    var rest := if |copies| > 0 then copies[1..] else [];
    var len := Max(|rest|, c);
    var resized := seq(len, k requires 0 <= k < len => if k < |rest| then rest[k] else 0);
    Step(n, seq(len, k requires 0 <= k < len => if k < c then resized[k] + n else resized[k]))
  }

  /** The deque after `i` cards holds, at position `k`, the copies of card
      `i + k` won so far, and nothing is owed beyond its end. */
  ghost predicate DequeInv(cards: seq<Card>, i: nat, copies: seq<nat>)
    requires i <= |cards|
  {
    (forall k :: 0 <= k < |copies| ==> copies[k] == Won(cards, i + k, i))
    && (forall target :: i + |copies| <= target ==> Won(cards, target, i) == 0)
  }

  lemma DequeStep(cards: seq<Card>, i: nat, copies: seq<nat>)
    requires i < |cards|
    requires DequeInv(cards, i, copies)
    ensures ScanStep(copies, Wins(cards, i)).n == Instances(cards, i)
    ensures DequeInv(cards, i + 1, ScanStep(copies, Wins(cards, i)).copies)
  {
    var r := ScanStep(copies, Wins(cards, i));
    DequeFront(cards, i, copies);
    DequeEntries(cards, i, copies, r);
    DequeAllBeyond(cards, i, copies, r, i + 1);
  }

  /** The popped front is what earlier cards won for card `i`. */
  lemma DequeFront(cards: seq<Card>, i: nat, copies: seq<nat>)
    requires i < |cards|
    requires DequeInv(cards, i, copies)
    ensures ScanStep(copies, Wins(cards, i)).n == Instances(cards, i)
  {
    if |copies| == 0 {
      assert Won(cards, i, i) == 0;
    }
  }

  lemma DequeEntries(cards: seq<Card>, i: nat, copies: seq<nat>, r: Step)
    requires i < |cards|
    requires DequeInv(cards, i, copies)
    requires r == ScanStep(copies, Wins(cards, i))
    ensures forall k :: 0 <= k < |r.copies| ==> r.copies[k] == Won(cards, i + 1 + k, i + 1)
  {
    DequeFront(cards, i, copies);
    forall k | 0 <= k < |r.copies|
      ensures r.copies[k] == Won(cards, i + 1 + k, i + 1)
    {
      DequeEntry(cards, i, copies, r, k);
    }
  }

  lemma DequeAllBeyond(cards: seq<Card>, i: nat, copies: seq<nat>, r: Step, next: nat)
    requires i < |cards| && next == i + 1
    requires DequeInv(cards, i, copies)
    requires r == ScanStep(copies, Wins(cards, i))
    ensures forall target :: next + |r.copies| <= target ==> Won(cards, target, next) == 0
  {
    forall target | next + |r.copies| <= target
      ensures Won(cards, target, next) == 0
    {
      DequeBeyond(cards, i, copies, r, target);
    }
  }

  /** Entry `k` of the new deque holds the copies of card `i + 1 + k`: the
      old entry (0 past its end) plus, for the first `c` entries, the
      instances of card `i`. */
  lemma DequeEntry(cards: seq<Card>, i: nat, copies: seq<nat>, r: Step, k: nat)
    requires i < |cards|
    requires DequeInv(cards, i, copies)
    requires r == ScanStep(copies, Wins(cards, i)) && r.n == Instances(cards, i)
    requires k < |r.copies|
    ensures r.copies[k] == Won(cards, i + 1 + k, i + 1)
  {
    var c := Wins(cards, i);
    var target := i + 1 + k;
    assert Won(cards, target, i + 1) == Won(cards, target, i) + (if k < c then r.n else 0);
    if k + 1 < |copies| {
      assert Won(cards, i + (k + 1), i) == copies[k + 1];
    } else {
      assert Won(cards, i + (k + 1), i) == 0;
    }
  }

  /** Nothing is owed past the end of the new deque. */
  lemma DequeBeyond(cards: seq<Card>, i: nat, copies: seq<nat>, r: Step, target: nat)
    requires i < |cards|
    requires DequeInv(cards, i, copies)
    requires r == ScanStep(copies, Wins(cards, i))
    requires i + 1 + |r.copies| <= target
    ensures Won(cards, target, i + 1) == 0
  {
    assert Won(cards, target, i) == 0;
    assert Won(cards, target, i + 1) == Won(cards, target, i);
  }

  /** The `scan` over the cards followed by `.sum()`. */
  method Part2(cards: seq<Card>) returns (total: nat)
    ensures total == TotalInstances(cards, |cards|)
    ensures total >= |cards|
  {
    var copies: seq<nat> := [];
    total := 0;
    for i := 0 to |cards|
      invariant DequeInv(cards, i, copies)
      invariant total == TotalInstances(cards, i)
      invariant total >= i
    {
      DequeStep(cards, i, copies);
      var step := ScanStep(copies, Wins(cards, i));
      total := total + step.n;
      copies := step.copies;
    }
  }

  /** A card is never won by itself or by later cards. */
  lemma {:induction false} WonOnlyByEarlier(cards: seq<Card>, i: nat, t: nat)
    requires i <= t <= |cards|
    ensures Won(cards, i, t) == Won(cards, i, i)
    decreases t
  {
    if t > i {
      WonOnlyByEarlier(cards, i, t - 1);
    }
  }

  /** With no matches anywhere, every card keeps exactly one instance. */
  lemma {:induction false} NoMatchesOneEach(cards: seq<Card>, m: nat)
    requires m <= |cards|
    requires forall j :: 0 <= j < |cards| ==> MatchCount(cards[j]) == 0
    ensures TotalInstances(cards, m) == m
    decreases m
  {
    if m > 0 {
      NoMatchesOneEach(cards, m - 1);
      NoWins(cards, m - 1, m - 1);
    }
  }

  lemma {:induction false} NoWins(cards: seq<Card>, target: nat, t: nat)
    requires t <= |cards|
    requires forall j :: 0 <= j < |cards| ==> MatchCount(cards[j]) == 0
    ensures Won(cards, target, t) == 0
    decreases t
  {
    if t > 0 {
      NoWins(cards, target, t - 1);
    }
  }
}
