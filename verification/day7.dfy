/** Day 7: camel-card hands. A card is a rank value (2..14, Jack 11), with 0
    reserved for the Joker that part 2 substitutes for every Jack. A hand's
    `Rank` is computed from how many of its cards each card matches (a Joker
    matches everything), and hands are ordered by rank, then by their cards
    from left to right.
 */
module Day7 {

  import opened Wrappers
  import Sorting

  datatype Card = Card(value: byte)

  const JACK: Card := Card(11)
  const JOKER: Card := Card(0)

  /** The characters `from_char` accepts. */
  const CardChars: string := "23456789TJQKA"

  /** `Card::from_char`; `None` is the `panic!` on any other character. */
  function FromChar(ch: char): (r: Option<Card>)
    ensures r.Some? <==> ch in CardChars
    ensures r.Some? ==> 2 <= r.value.value <= 14
    ensures r.Some? && IsDigitChar(ch) ==> r.value.value as int == DigitValue(ch)
  {
    if '2' <= ch <= '9' then Some(Card(DigitValue(ch) as byte))
    else if ch == 'T' then Some(Card(10))
    else if ch == 'J' then Some(JACK)
    else if ch == 'Q' then Some(Card(12))
    else if ch == 'K' then Some(Card(13))
    else if ch == 'A' then Some(Card(14))
    else None
  }

  /** `Card::as_char`; `None` is the `panic!` on a value outside 0 and 2..14. */
  function AsChar(c: Card): (r: Option<char>)
    ensures r.Some? <==> c == JOKER || 2 <= c.value <= 14
    ensures c == JOKER ==> r == Some('*')
  {
    if c.value == 0 then Some('*')
    else if 2 <= c.value <= 9 then Some(('0' as int + c.value as int) as char)
    else if c.value == 10 then Some('T')
    else if c.value == 11 then Some('J')
    else if c.value == 12 then Some('Q')
    else if c.value == 13 then Some('K')
    else if c.value == 14 then Some('A')
    else None
  }

  /** Printing a parsed card gives back the character it was parsed from. */
  lemma CharRoundTrip(ch: char)
    requires ch in CardChars
    ensures FromChar(ch).Some? && AsChar(FromChar(ch).value) == Some(ch)
  {
  }

  /** Every card value 2..14 prints as a character that parses back to it. */
  lemma CardRoundTrip(c: Card)
    requires 2 <= c.value <= 14
    ensures AsChar(c).Some? && AsChar(c).value in CardChars
    ensures FromChar(AsChar(c).value) == Some(c)
  {
  }

  /** The Joker is the lowest card: it compares below every card `from_char`
      can produce, and `from_char` never produces it. */
  lemma JokerIsLowest(ch: char)
    requires ch in CardChars
    ensures FromChar(ch).Some? && JOKER.value < FromChar(ch).value.value
  {
  }

  datatype Rank = HighCard | OnePair | TwoPairs | ThreeOfAKind | FullHouse | FourOfAKind | FiveOfAKind

  /** Position of a rank in declaration order, which is the derived `Ord`. */
  function Strength(r: Rank): nat
  {
    match r
    case HighCard => 0
    case OnePair => 1
    case TwoPairs => 2
    case ThreeOfAKind => 3
    case FullHouse => 4
    case FourOfAKind => 5
    case FiveOfAKind => 6
  }

  type FiveCards = s: seq<Card> | |s| == 5 witness [JOKER, JOKER, JOKER, JOKER, JOKER]

  /** How many of `cards` match `card`: equal to it, or a Joker. */
  function CountMatching(cards: seq<Card>, card: Card): (n: nat)
    ensures n == multiset(cards)[card] + (if card == JOKER then 0 else multiset(cards)[JOKER])
    ensures n <= |cards|
    ensures card in cards ==> n >= 1
  {
    if |cards| == 0 then 0
    else
      var last := cards[|cards| - 1];
      assert cards == cards[..|cards| - 1] + [last];
      CountMatching(cards[..|cards| - 1], card) + (if last == card || last == JOKER then 1 else 0)
  }

  function Id(n: int): int { n }

  /** The `counts` array of `from_cards` before sorting: for each card, how
      many cards of the hand match it. */
  function RawCounts(cards: FiveCards): (n: seq<int>)
    ensures |n| == 5
  {
    seq(5, k requires 0 <= k < 5 => CountMatching(cards, cards[k]))
  }

  /** The `counts` array of `from_cards` after `counts.sort()`. */
  function SortedCounts(cards: FiveCards): (n: seq<int>)
    ensures |n| == 5
  {
    Sorting.SortByKey(RawCounts(cards), Id)
  }

  /** Every count is between 1 (the card itself) and 5 (the whole hand). */
  lemma CountsInRange(cards: FiveCards)
    ensures forall k :: 0 <= k < 5 ==> 1 <= RawCounts(cards)[k] <= 5
    ensures forall k :: 0 <= k < 5 ==> 1 <= SortedCounts(cards)[k] <= 5
  {
    var raw := RawCounts(cards);
    assert forall k :: 0 <= k < 5 ==> cards[k] in cards;
    var sorted := SortedCounts(cards);
    forall k | 0 <= k < 5
      ensures 1 <= sorted[k] <= 5
    {
      assert sorted[k] in multiset(raw);
    }
  }

  function HasJokers(cards: seq<Card>): bool
  {
    JOKER in cards
  }

  /** The `match` of `from_cards`, arm by arm; `None` is the final `panic!`
      arm. */
  function RankOfCounts(counts: seq<int>, hasJokers: bool): (r: Option<Rank>)
    requires |counts| == 5
    ensures r.None? <==> !(1 <= counts[4] <= 5)
    ensures r == Some(FiveOfAKind) <==> counts[4] == 5
    ensures r == Some(FourOfAKind) <==> counts[4] == 4
  {
    if counts[4] == 5 then Some(FiveOfAKind)
    else if counts[4] == 4 then Some(FourOfAKind)
    else if (counts == [2, 2, 3, 3, 3] && !hasJokers) || (counts == [1, 3, 3, 3, 3] && hasJokers) then Some(FullHouse)
    else if counts[4] == 3 then Some(ThreeOfAKind)
    else if counts == [1, 2, 2, 2, 2] && !hasJokers then Some(TwoPairs)
    else if counts[4] == 2 then Some(OnePair)
    else if counts[4] == 1 then Some(HighCard)
    else None
  }

  /** `Rank::from_cards`. It never takes the panic arm: every card matches
      at least itself and at most all five cards, so the largest count is
      between 1 and 5 and one of the arms above applies. */
  function FromCardsChecked(cards: FiveCards): (r: Option<Rank>)
    ensures r.Some?
  {
    var counts := SortedCounts(cards);
    CountsInRange(cards);
    RankOfCounts(counts, HasJokers(cards))
  }

  function FromCards(cards: FiveCards): Rank
  {
    FromCardsChecked(cards).value
  }

  // ---------------------------------------------------------------------
  // What `from_cards` computes, stated without counts: with `d` the number
  // of distinct non-Joker cards and `top` the size of the largest group of
  // equal non-Joker cards, the Jokers join the largest group.

  function B(b: bool): nat { if b then 1 else 0 }

  /** How many of the five cards equal `x`. */
  function Mult(cards: FiveCards, x: Card): nat
  {
    B(cards[0] == x) + B(cards[1] == x) + B(cards[2] == x) + B(cards[3] == x) + B(cards[4] == x)
  }

  /** The number of distinct non-Joker cards: positions holding a non-Joker
      card that does not occur further left. */
  function Distinct(cards: FiveCards): nat
  {
    B(cards[0] != JOKER)
    + B(cards[1] != JOKER && cards[1] != cards[0])
    + B(cards[2] != JOKER && cards[2] != cards[0] && cards[2] != cards[1])
    + B(cards[3] != JOKER && cards[3] != cards[0] && cards[3] != cards[1] && cards[3] != cards[2])
    + B(cards[4] != JOKER && cards[4] != cards[0] && cards[4] != cards[1] && cards[4] != cards[2] && cards[4] != cards[3])
  }

  function GroupSize(cards: FiveCards, x: Card): nat
  {
    if x == JOKER then 0 else Mult(cards, x)
  }

  function Max5(s: seq<int>): int
    requires |s| == 5
  {
    Max(Max(Max(Max(s[0], s[1]), s[2]), s[3]), s[4])
  }

  /** The size of the largest group of equal non-Joker cards (0 when all
      five are Jokers). */
  function Largest(cards: FiveCards): nat
  {
    Max5([GroupSize(cards, cards[0]), GroupSize(cards, cards[1]), GroupSize(cards, cards[2]),
          GroupSize(cards, cards[3]), GroupSize(cards, cards[4])])
  }

  /** The rank of a hand with `d` distinct non-Joker cards whose largest
      group, Jokers included, has `top` cards. */
  function Classify(d: nat, top: nat): Rank
  {
    if d <= 1 then FiveOfAKind
    else if d == 2 then (if top == 4 then FourOfAKind else FullHouse)
    else if d == 3 then (if top == 3 then ThreeOfAKind else TwoPairs)
    else if d == 4 then OnePair
    else HighCard
  }

  /** The reference rank of five cards. */
  function ReferenceRank(cards: FiveCards): Rank
  {
    Classify(Distinct(cards), Largest(cards) + Mult(cards, JOKER))
  }

  // The bridge from the sorted `counts` array to order-free facts about it.

  /** How many entries of `s` equal `v`. */
  function NumEq(s: seq<int>, v: int): nat
    requires |s| == 5
  {
    B(s[0] == v) + B(s[1] == v) + B(s[2] == v) + B(s[3] == v) + B(s[4] == v)
  }

  /** The `match` of `from_cards` stated on the unsorted counts: the largest
      count and how often the values 1, 2 and 3 occur. */
  function RankOfCountFacts(n: seq<int>, hasJokers: bool): Rank
    requires |n| == 5
  {
    var m := Max5(n);
    if m == 5 then FiveOfAKind
    else if m == 4 then FourOfAKind
    else if (NumEq(n, 2) == 2 && NumEq(n, 3) == 3 && !hasJokers) || (NumEq(n, 1) == 1 && NumEq(n, 3) == 4 && hasJokers) then FullHouse
    else if m == 3 then ThreeOfAKind
    else if NumEq(n, 1) == 1 && NumEq(n, 2) == 4 && !hasJokers then TwoPairs
    else if m == 2 then OnePair
    else HighCard
  }

  lemma NumEqIsMultiplicity(s: seq<int>, v: int)
    requires |s| == 5
    ensures NumEq(s, v) == multiset(s)[v]
  {
    assert s == [s[0]] + [s[1]] + [s[2]] + [s[3]] + [s[4]];
  }

  lemma MaxOfSorted(raw: seq<int>, t: seq<int>)
    requires |raw| == 5 && Sorting.SortedBy(t, Id) && multiset(t) == multiset(raw)
    ensures |t| == 5 && t[4] == Max5(raw)
  {
    assert |t| == |multiset(t)| == 5;
    assert t[4] in multiset(raw);
    var m := Max5(raw);
    assert m in multiset(t) by {
      assert m in multiset(raw) by {
        assert m == raw[0] || m == raw[1] || m == raw[2] || m == raw[3] || m == raw[4];
      }
    }
    var i :| 0 <= i < 5 && t[i] == m;
    assert Id(t[i]) <= Id(t[4]) by {
      if i < 4 { assert Id(t[i]) <= Id(t[4]); }
    }
  }

  /** On a sorted array, matching a literal is the same as having the
      literal's numbers of 1s, 2s and 3s. */
  lemma SortedLiterals(t: seq<int>, j: bool)
    requires |t| == 5 && t[0] <= t[1] <= t[2] <= t[3] <= t[4]
    ensures RankOfCounts(t, j) == Some(RankOfCountFacts(t, j)) || t[4] !in {1, 2, 3, 4, 5}
  {
    assert Max5(t) == t[4];
    assert t == [t[0], t[1], t[2], t[3], t[4]];
  }

  /** The `match` on a sorted array agrees with the order-free form of
      the unsorted array it was sorted from. */
  lemma RankOfSortedArray(raw: seq<int>, t: seq<int>, j: bool)
    requires |raw| == 5 && Sorting.SortedBy(t, Id) && multiset(t) == multiset(raw)
    requires forall k :: 0 <= k < |t| ==> 1 <= t[k] <= 5
    ensures |t| == 5 && RankOfCounts(t, j) == Some(RankOfCountFacts(raw, j))
  {
    MaxOfSorted(raw, t);
    assert t[0] <= t[1] <= t[2] <= t[3] <= t[4] by {
      assert Id(t[0]) <= Id(t[1]) && Id(t[1]) <= Id(t[2]) && Id(t[2]) <= Id(t[3]) && Id(t[3]) <= Id(t[4]);
    }
    SortedLiterals(t, j);
    NumEqIsMultiplicity(raw, 1);
    NumEqIsMultiplicity(raw, 2);
    NumEqIsMultiplicity(raw, 3);
    NumEqIsMultiplicity(t, 1);
    NumEqIsMultiplicity(t, 2);
    NumEqIsMultiplicity(t, 3);
  }

  /** `from_cards` agrees with the order-free form of its counts. */
  lemma RankOfSortedCounts(cards: FiveCards)
    ensures FromCards(cards) == RankOfCountFacts(RawCounts(cards), HasJokers(cards))
  {
    CountsInRange(cards);
    RankOfSortedArray(RawCounts(cards), SortedCounts(cards), HasJokers(cards));
  }

  /** `CountMatching` on five cards, written out. */
  function CountFive(cards: FiveCards, x: Card): nat
  {
    Mult(cards, x) + (if x == JOKER then 0 else Mult(cards, JOKER))
  }

  function ExplicitCounts(cards: FiveCards): seq<int>
  {
    [CountFive(cards, cards[0]), CountFive(cards, cards[1]), CountFive(cards, cards[2]),
     CountFive(cards, cards[3]), CountFive(cards, cards[4])]
  }

  lemma MultIsMultiplicity(cards: FiveCards, x: Card)
    ensures Mult(cards, x) == multiset(cards)[x]
  {
    assert cards == [cards[0]] + [cards[1]] + [cards[2]] + [cards[3]] + [cards[4]];
  }

  lemma RawCountsExplicit(cards: FiveCards)
    ensures RawCounts(cards) == ExplicitCounts(cards)
    ensures HasJokers(cards) == (Mult(cards, JOKER) > 0)
  {
    assert HasJokers(cards) == (Mult(cards, JOKER) > 0) by {
      MultIsMultiplicity(cards, JOKER);
    }
    var raw, explicit := RawCounts(cards), ExplicitCounts(cards);
    RawCountAt(cards, 0);
    RawCountAt(cards, 1);
    RawCountAt(cards, 2);
    RawCountAt(cards, 3);
    RawCountAt(cards, 4);
    assert raw == explicit;
  }

  lemma RawCountAt(cards: FiveCards, k: nat)
    requires k < 5
    ensures RawCounts(cards)[k] == CountFive(cards, cards[k])
  {
    MultIsMultiplicity(cards, JOKER);
    MultIsMultiplicity(cards, cards[k]);
  }

  /** `from_cards` computes the reference rank: the Jokers join the
      largest group of equal cards, and the number of distinct non-Joker
      cards together with that group's size decide the rank. */
  lemma FromCardsIsReference(cards: FiveCards)
    ensures FromCards(cards) == ReferenceRank(cards)
  {
    RankOfSortedCounts(cards);
    RawCountsExplicit(cards);
    var c := cards;
    if c[1] == c[0] {
      if c[2] == c[0] {
        if c[3] == c[0] { CaseAAAA(c); } else { CaseAAAB(c); }
      } else {
        if c[3] == c[0] { CaseAABA(c); } else if c[3] == c[2] { CaseAABB(c); } else { CaseAABC(c); }
      }
    } else if c[2] == c[0] {
      if c[3] == c[0] { CaseABAA(c); } else if c[3] == c[1] { CaseABAB(c); } else { CaseABAC(c); }
    } else if c[2] == c[1] {
      if c[3] == c[0] { CaseABBA(c); } else if c[3] == c[1] { CaseABBB(c); } else { CaseABBC(c); }
    } else if c[3] == c[0] {
      CaseABCA(c);
    } else if c[3] == c[1] {
      CaseABCB(c);
    } else if c[3] == c[2] {
      CaseABCC(c);
    } else if c[4] == c[0] {
      CaseABCDA(c);
    } else if c[4] == c[1] {
      CaseABCDB(c);
    } else if c[4] == c[2] {
      CaseABCDC(c);
    } else if c[4] == c[3] {
      CaseABCDD(c);
    } else {
      CaseABCDE(c);
    }
  }

  /** `from_cards` depends only on which cards the hand holds, not on
      their order. */
  lemma FromCardsPermutationInvariant(a: FiveCards, b: FiveCards)
    requires multiset(a) == multiset(b)
    ensures FromCards(a) == FromCards(b)
  {
    var count := x => CountMatching(a, x);
    Sorting.MapPermutation(count, a, b);
    assert RawCounts(a) == Sorting.Map(count, a);
    assert RawCounts(b) == Sorting.Map(count, b) by {
      forall k | 0 <= k < 5
        ensures RawCounts(b)[k] == count(b[k])
      {
        assert CountMatching(a, b[k]) == CountMatching(b, b[k]);
      }
    }
    assert forall x, y :: Id(x) == Id(y) ==> x == y;
    Sorting.SortedUnique(SortedCounts(a), SortedCounts(b), Id);
    assert HasJokers(a) == HasJokers(b) by {
      assert JOKER in a <==> JOKER in multiset(a);
      assert JOKER in b <==> JOKER in multiset(b);
    }
  }

  // The case analysis behind `FromCardsIsReference`, one lemma per pattern
  // of equalities among the first four cards (letters name equal cards).

  lemma CaseAAAA(cards: FiveCards)
    requires cards[0] == cards[1] && cards[0] == cards[2] && cards[0] == cards[3]
    requires cards[1] == cards[2] && cards[1] == cards[3] && cards[2] == cards[3]
    ensures RankOfCountFacts(ExplicitCounts(cards), Mult(cards, JOKER) > 0) == ReferenceRank(cards)
  {
  }

  lemma CaseAAAB(cards: FiveCards)
    requires cards[0] == cards[1] && cards[0] == cards[2] && cards[0] != cards[3]
    requires cards[1] == cards[2] && cards[1] != cards[3] && cards[2] != cards[3]
    ensures RankOfCountFacts(ExplicitCounts(cards), Mult(cards, JOKER) > 0) == ReferenceRank(cards)
  {
  }

  lemma CaseAABA(cards: FiveCards)
    requires cards[0] == cards[1] && cards[0] != cards[2] && cards[0] == cards[3]
    requires cards[1] != cards[2] && cards[1] == cards[3] && cards[2] != cards[3]
    ensures RankOfCountFacts(ExplicitCounts(cards), Mult(cards, JOKER) > 0) == ReferenceRank(cards)
  {
  }

  lemma CaseAABB(cards: FiveCards)
    requires cards[0] == cards[1] && cards[0] != cards[2] && cards[0] != cards[3]
    requires cards[1] != cards[2] && cards[1] != cards[3] && cards[2] == cards[3]
    ensures RankOfCountFacts(ExplicitCounts(cards), Mult(cards, JOKER) > 0) == ReferenceRank(cards)
  {
  }

  lemma CaseAABC(cards: FiveCards)
    requires cards[0] == cards[1] && cards[0] != cards[2] && cards[0] != cards[3]
    requires cards[1] != cards[2] && cards[1] != cards[3] && cards[2] != cards[3]
    ensures RankOfCountFacts(ExplicitCounts(cards), Mult(cards, JOKER) > 0) == ReferenceRank(cards)
  {
  }

  lemma CaseABAA(cards: FiveCards)
    requires cards[0] != cards[1] && cards[0] == cards[2] && cards[0] == cards[3]
    requires cards[1] != cards[2] && cards[1] != cards[3] && cards[2] == cards[3]
    ensures RankOfCountFacts(ExplicitCounts(cards), Mult(cards, JOKER) > 0) == ReferenceRank(cards)
  {
  }

  lemma CaseABAB(cards: FiveCards)
    requires cards[0] != cards[1] && cards[0] == cards[2] && cards[0] != cards[3]
    requires cards[1] != cards[2] && cards[1] == cards[3] && cards[2] != cards[3]
    ensures RankOfCountFacts(ExplicitCounts(cards), Mult(cards, JOKER) > 0) == ReferenceRank(cards)
  {
  }

  lemma CaseABAC(cards: FiveCards)
    requires cards[0] != cards[1] && cards[0] == cards[2] && cards[0] != cards[3]
    requires cards[1] != cards[2] && cards[1] != cards[3] && cards[2] != cards[3]
    ensures RankOfCountFacts(ExplicitCounts(cards), Mult(cards, JOKER) > 0) == ReferenceRank(cards)
  {
  }

  lemma CaseABBA(cards: FiveCards)
    requires cards[0] != cards[1] && cards[0] != cards[2] && cards[0] == cards[3]
    requires cards[1] == cards[2] && cards[1] != cards[3] && cards[2] != cards[3]
    ensures RankOfCountFacts(ExplicitCounts(cards), Mult(cards, JOKER) > 0) == ReferenceRank(cards)
  {
  }

  lemma CaseABBB(cards: FiveCards)
    requires cards[0] != cards[1] && cards[0] != cards[2] && cards[0] != cards[3]
    requires cards[1] == cards[2] && cards[1] == cards[3] && cards[2] == cards[3]
    ensures RankOfCountFacts(ExplicitCounts(cards), Mult(cards, JOKER) > 0) == ReferenceRank(cards)
  {
  }

  lemma CaseABBC(cards: FiveCards)
    requires cards[0] != cards[1] && cards[0] != cards[2] && cards[0] != cards[3]
    requires cards[1] == cards[2] && cards[1] != cards[3] && cards[2] != cards[3]
    ensures RankOfCountFacts(ExplicitCounts(cards), Mult(cards, JOKER) > 0) == ReferenceRank(cards)
  {
  }

  lemma CaseABCA(cards: FiveCards)
    requires cards[0] != cards[1] && cards[0] != cards[2] && cards[0] == cards[3]
    requires cards[1] != cards[2] && cards[1] != cards[3] && cards[2] != cards[3]
    ensures RankOfCountFacts(ExplicitCounts(cards), Mult(cards, JOKER) > 0) == ReferenceRank(cards)
  {
  }

  lemma CaseABCB(cards: FiveCards)
    requires cards[0] != cards[1] && cards[0] != cards[2] && cards[0] != cards[3]
    requires cards[1] != cards[2] && cards[1] == cards[3] && cards[2] != cards[3]
    ensures RankOfCountFacts(ExplicitCounts(cards), Mult(cards, JOKER) > 0) == ReferenceRank(cards)
  {
  }

  lemma CaseABCC(cards: FiveCards)
    requires cards[0] != cards[1] && cards[0] != cards[2] && cards[0] != cards[3]
    requires cards[1] != cards[2] && cards[1] != cards[3] && cards[2] == cards[3]
    ensures RankOfCountFacts(ExplicitCounts(cards), Mult(cards, JOKER) > 0) == ReferenceRank(cards)
  {
  }

  lemma CaseABCDA(cards: FiveCards)
    requires cards[0] != cards[1] && cards[0] != cards[2] && cards[0] != cards[3]
    requires cards[1] != cards[2] && cards[1] != cards[3] && cards[2] != cards[3]
    requires cards[4] == cards[0]
    ensures RankOfCountFacts(ExplicitCounts(cards), Mult(cards, JOKER) > 0) == ReferenceRank(cards)
  {
  }

  lemma CaseABCDB(cards: FiveCards)
    requires cards[0] != cards[1] && cards[0] != cards[2] && cards[0] != cards[3]
    requires cards[1] != cards[2] && cards[1] != cards[3] && cards[2] != cards[3]
    requires cards[4] == cards[1]
    ensures RankOfCountFacts(ExplicitCounts(cards), Mult(cards, JOKER) > 0) == ReferenceRank(cards)
  {
  }

  lemma CaseABCDC(cards: FiveCards)
    requires cards[0] != cards[1] && cards[0] != cards[2] && cards[0] != cards[3]
    requires cards[1] != cards[2] && cards[1] != cards[3] && cards[2] != cards[3]
    requires cards[4] == cards[2]
    ensures RankOfCountFacts(ExplicitCounts(cards), Mult(cards, JOKER) > 0) == ReferenceRank(cards)
  {
  }

  lemma CaseABCDD(cards: FiveCards)
    requires cards[0] != cards[1] && cards[0] != cards[2] && cards[0] != cards[3]
    requires cards[1] != cards[2] && cards[1] != cards[3] && cards[2] != cards[3]
    requires cards[4] == cards[3]
    ensures RankOfCountFacts(ExplicitCounts(cards), Mult(cards, JOKER) > 0) == ReferenceRank(cards)
  {
  }

  lemma CaseABCDE(cards: FiveCards)
    requires cards[0] != cards[1] && cards[0] != cards[2] && cards[0] != cards[3]
    requires cards[1] != cards[2] && cards[1] != cards[3] && cards[2] != cards[3]
    requires cards[4] != cards[0] && cards[4] != cards[1] && cards[4] != cards[2] && cards[4] != cards[3]
    ensures RankOfCountFacts(ExplicitCounts(cards), Mult(cards, JOKER) > 0) == ReferenceRank(cards)
  {
  }

  // ---------------------------------------------------------------------
  // Hands.

  /** A hand: its rank and its five cards. The derived `Ord` compares the
      rank first and then the cards from left to right. */
  datatype Hand = Hand(rank: Rank, cards: FiveCards)

  /** The rank stored in the hand is the one its cards determine, as every
      constructor in the code ensures. */
  predicate Consistent(h: Hand)
  {
    h.rank == FromCards(h.cards)
  }

  /** The cards `from_str` can produce: no Jokers, values 2..14. */
  predicate Parsed(cards: seq<Card>)
  {
    forall k :: 0 <= k < |cards| ==> 2 <= cards[k].value <= 14
  }

  /** The loop of `from_str`: fill the five slots from the characters in
      order; running out first is `Err("Not enough cards")`, and a character
      `from_char` rejects is a panic. */
  function ParseSlots(s: string, acc: seq<Card>): (r: Outcome<seq<Card>>)
    requires |acc| <= 5 && |acc| <= |s|
    requires forall k :: 0 <= k < |acc| ==> FromChar(s[k]) == Some(acc[k])
    ensures r.Ok? ==> |r.value| == 5 && |s| >= 5 && forall k :: 0 <= k < 5 ==> FromChar(s[k]) == Some(r.value[k])
    ensures r == Panic <==> exists k :: |acc| <= k < Min(|s|, 5) && FromChar(s[k]).None?
    ensures r.Err? <==> r != Panic && |s| < 5
    ensures r.Err? ==> r.error == "Not enough cards"
    decreases 5 - |acc|
  {
    if |acc| == 5 then Ok(acc)
    else if |acc| == |s| then Err("Not enough cards")
    else
      match FromChar(s[|acc|])
      case None => Panic
      case Some(c) => ParseSlots(s, acc + [c])
  }

  /** `Hand::from_str`. After the five slots are filled one more character
      means `Err("Too many cards")`; the extra characters are not looked at
      otherwise. */
  function HandFromStr(s: string): (r: Outcome<Hand>)
    ensures r == Panic <==> exists k :: 0 <= k < Min(|s|, 5) && s[k] !in CardChars
    ensures r.Err? && |s| < 5 ==> r.error == "Not enough cards"
    ensures r.Err? && |s| > 5 ==> r.error == "Too many cards"
    ensures r.Err? <==> r != Panic && |s| != 5
    ensures r.Ok? <==> |s| == 5 && forall k :: 0 <= k < 5 ==> s[k] in CardChars
    ensures r.Ok? ==> Consistent(r.value) && Parsed(r.value.cards)
    ensures r.Ok? ==> forall k :: 0 <= k < 5 ==> FromChar(s[k]) == Some(r.value.cards[k])
  {
    match ParseSlots(s, [])
    case Ok(cards) =>
      if |s| == 5 then Ok(Hand(FromCards(cards), cards)) else Err("Too many cards")
    case Err(e) => Err(e)
    case Panic => Panic
  }

  /** The `Debug` text of a list of cards: each card's `as_char`; `None`
      when one of them panics. */
  function ShowCards(cards: seq<Card>): (r: Option<string>)
    ensures r.Some? <==> forall k :: 0 <= k < |cards| ==> AsChar(cards[k]).Some?
    ensures r.Some? ==> |r.value| == |cards|
    ensures r.Some? ==> forall k :: 0 <= k < |cards| ==> AsChar(cards[k]) == Some(r.value[k])
  {
    if |cards| == 0 then Some([])
    else
      match (ShowCards(cards[..|cards| - 1]), AsChar(cards[|cards| - 1]))
      case (Some(prefix), Some(ch)) => Some(prefix + [ch])
      case _ => None
  }

  /** Parsing the printed form of a parsed hand gives the hand back. */
  lemma ShowThenParse(h: Hand)
    requires Consistent(h) && Parsed(h.cards)
    ensures ShowCards(h.cards).Some? && HandFromStr(ShowCards(h.cards).value) == Ok(h)
  {
    var text := ShowCards(h.cards).value;
    forall k | 0 <= k < 5
      ensures FromChar(text[k]) == Some(h.cards[k])
    {
      CardRoundTrip(h.cards[k]);
    }
    var parsed := HandFromStr(text);
    assert parsed.Ok?;
    assert parsed.value.cards == h.cards;
  }

  /** Printing a successfully parsed hand gives the text back. */
  lemma ParseThenShow(s: string)
    requires HandFromStr(s).Ok?
    ensures ShowCards(HandFromStr(s).value.cards) == Some(s)
  {
    var cards := HandFromStr(s).value.cards;
    forall k | 0 <= k < 5
      ensures AsChar(cards[k]) == Some(s[k])
    {
      CharRoundTrip(s[k]);
    }
    var text := ShowCards(cards);
    assert text.Some?;
    assert |text.value| == |s| == 5;
    forall k | 0 <= k < 5
      ensures text.value[k] == s[k]
    {
      assert AsChar(cards[k]) == Some(text.value[k]);
    }
    assert text.value == s;
  }

  // ---------------------------------------------------------------------
  // The derived order on hands, and an integer key that sorts the same way.

  /** Lexicographic order: the sequences agree up to some position, where
      `a` holds the lower card. */
  ghost predicate CardsLess(a: seq<Card>, b: seq<Card>)
    requires |a| == |b|
  {
    exists i :: 0 <= i < |a| && a[..i] == b[..i] && a[i].value < b[i].value
  }

  /** The derived `Ord` of `Hand`: rank first, then cards. */
  ghost predicate HandLess(a: Hand, b: Hand)
  {
    Strength(a.rank) < Strength(b.rank) || (a.rank == b.rank && CardsLess(a.cards, b.cards))
  }

  /** The cards read as a base-256 number, first card most significant. */
  function CardsKey(s: seq<Card>): (n: nat)
    ensures n < Pow256(|s|)
  {
    if |s| == 0 then 0 else CardsKey(s[..|s| - 1]) * 256 + s[|s| - 1].value as int
  }

  function Pow256(n: nat): (p: nat)
    ensures p >= 1
  {
    if n == 0 then 1 else 256 * Pow256(n - 1)
  }

  /** The sort key: the rank's position above the five card digits. */
  function HandKey(h: Hand): nat
  {
    Strength(h.rank) * Pow256(5) + CardsKey(h.cards)
  }

  lemma LexSnoc(a: seq<Card>, b: seq<Card>)
    requires |a| == |b| > 0
    ensures CardsLess(a, b) <==>
      CardsLess(a[..|a| - 1], b[..|b| - 1]) || (a[..|a| - 1] == b[..|b| - 1] && a[|a| - 1].value < b[|b| - 1].value)
  {
    var p := |a| - 1;
    var a', b' := a[..p], b[..p];
    if CardsLess(a, b) {
      var i :| 0 <= i < |a| && a[..i] == b[..i] && a[i].value < b[i].value;
      if i < p {
        assert a'[..i] == a[..i] && b'[..i] == b[..i];
        assert a'[i] == a[i] && b'[i] == b[i];
      }
    }
    if CardsLess(a', b') {
      var i :| 0 <= i < |a'| && a'[..i] == b'[..i] && a'[i].value < b'[i].value;
      assert a[..i] == a'[..i] && b[..i] == b'[..i];
    }
    if a' == b' && a[p].value < b[p].value {
      assert a[..p] == b[..p];
    }
  }

  /** One more base-256 digit compares after the digits before it. */
  lemma DigitStep(x: int, y: int, d: int, e: int)
    requires 0 <= d < 256 && 0 <= e < 256
    ensures x * 256 + d < y * 256 + e <==> x < y || (x == y && d < e)
    ensures x * 256 + d == y * 256 + e <==> x == y && d == e
  {
  }

  /** Comparing keys is comparing cards lexicographically, and equal keys
      mean equal cards. */
  lemma {:induction false} CardsKeyOrder(a: seq<Card>, b: seq<Card>)
    requires |a| == |b|
    ensures CardsLess(a, b) <==> CardsKey(a) < CardsKey(b)
    ensures a == b <==> CardsKey(a) == CardsKey(b)
    decreases |a|
  {
    if |a| > 0 {
      var p := |a| - 1;
      CardsKeyOrder(a[..p], b[..p]);
      CardsKeyStep(a, b);
    }
  }

  lemma CardsKeyStep(a: seq<Card>, b: seq<Card>)
    requires |a| == |b| > 0
    requires CardsLess(a[..|a| - 1], b[..|b| - 1]) <==> CardsKey(a[..|a| - 1]) < CardsKey(b[..|b| - 1])
    requires a[..|a| - 1] == b[..|b| - 1] <==> CardsKey(a[..|a| - 1]) == CardsKey(b[..|b| - 1])
    ensures CardsLess(a, b) <==> CardsKey(a) < CardsKey(b)
    ensures a == b <==> CardsKey(a) == CardsKey(b)
  {
    var p := |a| - 1;
    DigitStep(CardsKey(a[..p]), CardsKey(b[..p]), a[p].value as int, b[p].value as int);
    CardsKeyEqStep(a, b);
    LexSnoc(a, b);
  }

  lemma CardsKeyEqStep(a: seq<Card>, b: seq<Card>)
    requires |a| == |b| > 0
    ensures a == b <==> a[..|a| - 1] == b[..|b| - 1] && a[|a| - 1] == b[|b| - 1]
  {
    var p := |a| - 1;
    assert a == a[..p] + [a[p]] && b == b[..p] + [b[p]];
  }

  /** Sorting by `HandKey` is sorting by the derived order of `Hand`. */
  lemma HandKeyOrder(a: Hand, b: Hand)
    ensures HandLess(a, b) <==> HandKey(a) < HandKey(b)
    ensures a == b <==> HandKey(a) == HandKey(b)
  {
    CardsKeyOrder(a.cards, b.cards);
    assert Pow256(5) == 1099511627776;
    if Strength(a.rank) == Strength(b.rank) {
      assert a.rank == b.rank;
    }
  }

  // ---------------------------------------------------------------------
  // Part 2's rule: every Jack becomes a Joker.

  function ReplaceJack(c: Card): Card
  {
    if c == JACK then JOKER else c
  }

  /** `Hand::with_joker`: the Jacks, and nothing else, become Jokers, and
      the rank is recomputed from the new cards. */
  function WithJoker(h: Hand): (r: Hand)
    ensures JACK !in r.cards
    ensures forall k :: 0 <= k < 5 ==> h.cards[k] == JACK ==> r.cards[k] == JOKER
    ensures forall k :: 0 <= k < 5 ==> h.cards[k] != JACK ==> r.cards[k] == h.cards[k]
    ensures Consistent(r)
  {
    var cards := Sorting.Map(ReplaceJack, h.cards);
    Hand(FromCards(cards), cards)
  }

  /** A consistent hand without Jacks is left as it is. */
  lemma WithJokerWithoutJacks(h: Hand)
    requires Consistent(h) && JACK !in h.cards
    ensures WithJoker(h) == h
  {
    assert WithJoker(h).cards == h.cards;
  }

  /** Applying the rule twice is applying it once. */
  lemma WithJokerIdempotent(h: Hand)
    ensures WithJoker(WithJoker(h)) == WithJoker(h)
  {
    WithJokerWithoutJacks(WithJoker(h));
  }

  /** Dropping one distinct card never lowers the rank, whatever the
      largest group becomes. */
  lemma ClassifyFewerDistinct(d: nat, top: nat, top': nat)
    requires d >= 1
    ensures Strength(Classify(d - 1, top')) >= Strength(Classify(d, top))
  {
  }

  /** Turning the Jacks of a Joker-free hand into Jokers removes exactly
      one distinct non-Joker card. */
  lemma DistinctWithoutJacks(cards: FiveCards)
    requires JOKER !in cards && JACK in cards
    ensures Distinct(Sorting.Map(ReplaceJack, cards)) + 1 == Distinct(cards)
  {
    var c' := Sorting.Map(ReplaceJack, cards);
    assert forall k :: 0 <= k < 5 ==> c'[k] == ReplaceJack(cards[k]);
  }

  /** With Jokers the rank of a parsed hand is never lower than without. */
  lemma JokersNeverWeaken(h: Hand)
    requires Consistent(h) && JOKER !in h.cards
    ensures Strength(WithJoker(h).rank) >= Strength(h.rank)
  {
    if JACK in h.cards {
      var c' := WithJoker(h).cards;
      FromCardsIsReference(h.cards);
      FromCardsIsReference(c');
      DistinctWithoutJacks(h.cards);
      ClassifyFewerDistinct(Distinct(h.cards), Largest(h.cards) + Mult(h.cards, JOKER), Largest(c') + Mult(c', JOKER));
    } else {
      WithJokerWithoutJacks(h);
    }
  }

  // ---------------------------------------------------------------------
  // Total winnings.

  /** One input line: a hand and its bid. */
  datatype Entry = Entry(hand: Hand, bid: nat)

  function EntryKey(e: Entry): int
  {
    HandKey(e.hand)
  }

  /** `enumerate().map(|(n, (_, bid))| (n + 1) * bid).sum()` over the entries
      from position `n` on. */
  function WinningsFrom(s: seq<Entry>, n: nat): nat
  {
    if |s| == 0 then 0 else (n + 1) * s[0].bid + WinningsFrom(s[1..], n + 1)
  }

  /** Sort the entries by hand (`sort_by_cached_key`, stable) and pay each
      bid times its position. */
  function TotalWinnings(entries: seq<Entry>): nat
  {
    WinningsFrom(Sorting.SortByKey(entries, EntryKey), 0)
  }

  function Part1(input: seq<Entry>): nat
  {
    TotalWinnings(input)
  }

  function JokerEntry(e: Entry): Entry
  {
    Entry(WithJoker(e.hand), e.bid)
  }

  function Part2(input: seq<Entry>): nat
  {
    TotalWinnings(Sorting.Map(JokerEntry, input))
  }

  /** The order `TotalWinnings` pays the entries in holds the same entries,
      and no hand in it is above a hand that comes later. */
  lemma SortedByHand(entries: seq<Entry>)
    ensures multiset(Sorting.SortByKey(entries, EntryKey)) == multiset(entries)
    ensures var s := Sorting.SortByKey(entries, EntryKey);
      forall i, j :: 0 <= i < j < |s| ==> !HandLess(s[j].hand, s[i].hand)
  {
    var s := Sorting.SortByKey(entries, EntryKey);
    forall i, j | 0 <= i < j < |s|
      ensures !HandLess(s[j].hand, s[i].hand)
    {
      assert EntryKey(s[i]) <= EntryKey(s[j]);
      HandKeyOrder(s[j].hand, s[i].hand);
    }
  }

  /** When no hand repeats, the total winnings do not depend on the order
      of the input. */
  lemma TotalWinningsPermutationInvariant(a: seq<Entry>, b: seq<Entry>)
    requires multiset(a) == multiset(b) && DistinctHands(a)
    ensures TotalWinnings(a) == TotalWinnings(b)
  {
    assert DistinctHands(b) by {
      Sorting.MapPermutation(HandOf, a, b);
      assert multiset(Hands(a)) == multiset(Hands(b));
      forall h
        ensures multiset(Hands(b))[h] <= 1
      {
        assert multiset(Hands(a))[h] <= 1;
      }
    }
    TotalWinningsByRank(a);
    TotalWinningsByRank(b);
    var payA := (e: Entry) => Payout(a, e);
    var payB := (e: Entry) => Payout(b, e);
    forall k | 0 <= k < |b|
      ensures payA(b[k]) == payB(b[k])
    {
      Sorting.SumOfPermutation(Below(b[k].hand), a, b);
    }
    Sorting.SumOfPermutation(payA, a, b);
    Sorting.SumOfAgree(payA, payB, b);
  }

  /** 1 for an entry whose hand is below `h`, else 0. */
  function Below(h: Hand): Entry -> int
  {
    (e: Entry) => if HandKey(e.hand) < HandKey(h) then 1 else 0
  }

  /** How many entries hold a hand below `h`. */
  function Beaten(entries: seq<Entry>, h: Hand): int
  {
    Sorting.SumOf(Below(h), entries)
  }

  function HandOf(e: Entry): Hand
  {
    e.hand
  }

  function Hands(entries: seq<Entry>): seq<Hand>
  {
    Sorting.Map(HandOf, entries)
  }

  /** Keys strictly increase along `s`. */
  ghost predicate StrictlyIncreasing(s: seq<Entry>)
  {
    forall i, j :: 0 <= i < j < |s| ==> EntryKey(s[i]) < EntryKey(s[j])
  }

  /** No hand occurs twice. */
  ghost predicate DistinctHands(entries: seq<Entry>)
  {
    forall h :: multiset(Hands(entries))[h] <= 1
  }

  /** What a bid earns: one more than the number of hands it beats. */
  function Payout(entries: seq<Entry>, e: Entry): int
  {
    (1 + Beaten(entries, e.hand)) * e.bid
  }

  /** When no hand repeats, the total winnings are every bid times one more
      than the number of hands it beats, whatever the input order. */
  lemma TotalWinningsByRank(entries: seq<Entry>)
    requires DistinctHands(entries)
    ensures TotalWinnings(entries) == Sorting.SumOf(e => Payout(entries, e), entries)
  {
    var s := Sorting.SortByKey(entries, EntryKey);
    var pay := (e: Entry) => Payout(entries, e);
    Sorting.SumOfPermutation(pay, s, entries);
    StrictlySorted(entries);
    forall k | 0 <= k < |s|
      ensures pay(s[k]) == (k + 1) * s[k].bid
    {
      PayoutInSorted(entries, s, k);
    }
    PaidByPosition(pay, s, 0);
  }

  lemma PayoutInSorted(entries: seq<Entry>, s: seq<Entry>, k: nat)
    requires multiset(s) == multiset(entries) && StrictlyIncreasing(s) && k < |s|
    ensures Payout(entries, s[k]) == (k + 1) * s[k].bid
  {
    Sorting.SumOfPermutation(Below(s[k].hand), s, entries);
    BeatenInSorted(s, k);
  }

  /** With no repeated hand, the sorted entries have strictly increasing
      keys. */
  lemma StrictlySorted(entries: seq<Entry>)
    requires DistinctHands(entries)
    ensures StrictlyIncreasing(Sorting.SortByKey(entries, EntryKey))
  {
    var s := Sorting.SortByKey(entries, EntryKey);
    Sorting.MapPermutation(HandOf, s, entries);
    assert multiset(Hands(s)) == multiset(Hands(entries));
    forall i, j | 0 <= i < j < |s|
      ensures EntryKey(s[i]) < EntryKey(s[j])
    {
      assert EntryKey(s[i]) <= EntryKey(s[j]);
      assert multiset(Hands(entries))[s[i].hand] <= 1;
      Sorting.TwoOccurrences(Hands(s), i, j);
      HandKeyOrder(s[i].hand, s[j].hand);
    }
  }

  /** In a strictly sorted list, the entry at position `k` beats exactly the
      `k` entries before it. */
  lemma BeatenInSorted(s: seq<Entry>, k: nat)
    requires k < |s|
    requires StrictlyIncreasing(s)
    ensures Beaten(s, s[k].hand) == k
  {
    var below := Below(s[k].hand);
    assert s == s[..k] + s[k..];
    Sorting.SumOfConcat(below, s[..k], s[k..]);
    Sorting.SumOfConstant(below, s[..k], 1);
    forall i | 0 <= i < |s[k..]|
      ensures below(s[k..][i]) == 0
    {
      assert s[k..][i] == s[k + i];
    }
    Sorting.SumOfConstant(below, s[k..], 0);
  }

  lemma {:induction false} PaidByPosition(pay: Entry -> int, s: seq<Entry>, n: nat)
    requires forall k :: 0 <= k < |s| ==> pay(s[k]) == (n + k + 1) * s[k].bid
    ensures Sorting.SumOf(pay, s) == WinningsFrom(s, n)
    decreases |s|
  {
    if |s| > 0 {
      forall k | 0 <= k < |s| - 1
        ensures pay(s[1..][k]) == (n + 1 + k + 1) * s[1..][k].bid
      {
        assert s[1..][k] == s[k + 1];
      }
      PaidByPosition(pay, s[1..], n + 1);
    }
  }

  /** The rank of a sample hand from the puzzle text. */
  lemma SampleOnePair()
    ensures FromCards([Card(3), Card(2), Card(10), Card(3), Card(13)]) == OnePair
  {
    FromCardsIsReference([Card(3), Card(2), Card(10), Card(3), Card(13)]);
  }

  lemma SampleTwoPairs()
    ensures FromCards([Card(13), Card(13), Card(6), Card(7), Card(7)]) == TwoPairs
  {
    FromCardsIsReference([Card(13), Card(13), Card(6), Card(7), Card(7)]);
  }

  /** `KTJJT` is two pairs, and four of a kind once its Jacks are Jokers. */
  lemma SampleJokers()
    ensures FromCards([Card(13), Card(10), JACK, JACK, Card(10)]) == TwoPairs
    ensures FromCards([Card(13), Card(10), JOKER, JOKER, Card(10)]) == FourOfAKind
  {
    FromCardsIsReference([Card(13), Card(10), JACK, JACK, Card(10)]);
    FromCardsIsReference([Card(13), Card(10), JOKER, JOKER, Card(10)]);
  }
}
