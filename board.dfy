/**
 * The 25-card board: dealing it from the word list, counting its cards,
 * the initial turn order and the longest word.
 */
module Board {
  import opened Common
  import opened Draw
  import opened PyText

  const BOARD_SIZE := 25
  const FIRST_TEAM_CARDS := 9
  const SECOND_TEAM_CARDS := 8
  const NEUTRAL_CARDS := 7

  function WordOf(c: Card): string { c.word }

  function KindOf(c: Card): CardType { c.kind }

  function Words(cards: seq<Card>): seq<string> { MapSeq(WordOf, cards) }

  function Kinds(cards: seq<Card>): seq<CardType> { MapSeq(KindOf, cards) }

  /** How many cards of the board have type t. */
  function Count(cards: seq<Card>, t: CardType): nat
  {
    multiset(Kinds(cards))[t]
  }

  /** How many cards of type t have been guessed (the counters of is_game_finished). */
  function TappedCount(cards: seq<Card>, t: CardType): nat
  {
    if cards == [] then 0
    else
      var last := cards[|cards| - 1];
      TappedCount(cards[..|cards| - 1], t) + (if last.tapped && last.kind == t then 1 else 0)
  }

  predicate AssassinRevealed(cards: seq<Card>)
  {
    exists i :: 0 <= i < |cards| && cards[i].tapped && cards[i].kind == AssassinCard
  }

  /** How many cards a team has: the starting team gets the extra one. */
  function TeamTotal(team: Team, start: Team): nat
  {
    if team == start then FIRST_TEAM_CARDS else SECOND_TEAM_CARDS
  }

  /** The board shape: 25 different words, split 9 / 8 / 1 / 7. */
  predicate IsBoard(cards: seq<Card>, start: Team)
  {
    && |cards| == BOARD_SIZE
    && Distinct(Words(cards))
    && Count(cards, TeamCard(start)) == FIRST_TEAM_CARDS
    && Count(cards, TeamCard(Other(start))) == SECOND_TEAM_CARDS
    && Count(cards, AssassinCard) == 1
    && Count(cards, NeutralCard) == NEUTRAL_CARDS
  }

  predicate IsFreshBoard(cards: seq<Card>, start: Team)
  {
    IsBoard(cards, start) && forall i :: 0 <= i < |cards| ==> !cards[i].tapped
  }

  /** The random choices made while dealing: the word sample, both team samples, the assassin and the final shuffle. */
  datatype Draws = Draws(words: seq<nat>, firstTeam: seq<nat>, secondTeam: seq<nat>, assassin: nat, order: seq<nat>)

  /** A new card (the Card constructor): the word is upper-cased and the card is not guessed. */
  function NewCard(word: string, t: CardType): Card
  {
    Card(Upper(word), t, false)
  }

  /** Cards of one type for the given words, in the given order. */
  function Deal(ws: seq<string>, t: CardType): (r: seq<Card>)
    ensures |r| == |ws| && forall i :: 0 <= i < |ws| ==> r[i] == NewCard(ws[i], t)
  {
    MapSeq((w: string) => NewCard(w, t), ws)
  }

  lemma DealOneMore(ws: seq<string>, i: nat, t: CardType)
    requires i < |ws|
    ensures Deal(ws[..i + 1], t) == Deal(ws[..i], t) + [NewCard(ws[i], t)]
  {
    assert Deal(ws[..i + 1], t)[..i] == Deal(ws[..i], t);
  }

  function Repeat(t: CardType, n: nat): (r: seq<CardType>)
    ensures |r| == n && forall i :: 0 <= i < n ==> r[i] == t
  {
    seq(n, _ => t)
  }

  lemma {:induction false} RepeatMultiset(t: CardType, n: nat)
    ensures multiset(Repeat(t, n))[t] == n
    ensures forall u :: u != t ==> multiset(Repeat(t, n))[u] == 0
  {
    if n > 0 {
      RepeatMultiset(t, n - 1);
      assert Repeat(t, n) == Repeat(t, n - 1) + [t];
    }
  }

  /** The words of each card type: both teams' words, the assassin's word and the neutral words. */
  datatype Hands = Hands(first: seq<string>, second: seq<string>, assassin: string, neutral: seq<string>)

  /**
   * The word split of generate_cards: 9 sampled words for the starting team, 8 of
   * the others for the second team, one of the last 8 for the assassin, 7 neutral.
   */
  function SplitWords(words: seq<string>, draws: Draws): (h: Hands)
    requires |words| == BOARD_SIZE && Distinct(words)
    ensures |h.first| == FIRST_TEAM_CARDS && |h.second| == SECOND_TEAM_CARDS && |h.neutral| == NEUTRAL_CARDS
    ensures multiset(h.first + h.second + [h.assassin] + h.neutral) == multiset(words)
  {
    var first := Sample(words, draws.firstTeam, FIRST_TEAM_CARDS);
    WithoutSplits(words, first);
    var rest1 := Without(words, first);
    var second := Sample(rest1, draws.secondTeam, SECOND_TEAM_CARDS);
    WithoutSplits(rest1, second);
    var rest2 := Without(rest1, second);
    var assassin := Choice(rest2, draws.assassin);
    assert multiset([assassin]) <= multiset(rest2);
    WithoutSplits(rest2, [assassin]);
    var neutral := Without(rest2, [assassin]);
    PartsMakeWhole(words, first, rest1, second, rest2, [assassin], neutral);
    Hands(first, second, assassin, neutral)
  }

  lemma PartsMakeWhole<T>(words: seq<T>, first: seq<T>, rest1: seq<T>, second: seq<T>, rest2: seq<T>, third: seq<T>, last: seq<T>)
    requires multiset(words) == multiset(rest1) + multiset(first)
    requires multiset(rest1) == multiset(rest2) + multiset(second)
    requires multiset(rest2) == multiset(last) + multiset(third)
    ensures multiset(first + second + third + last) == multiset(words)
  {
    assert multiset(first + second + third + last) == multiset(first) + multiset(second) + multiset(third) + multiset(last);
  }

  function DealtCards(h: Hands, start: Team): seq<Card>
  {
    Deal(h.first, TeamCard(start)) + Deal(h.second, TeamCard(Other(start)))
    + [NewCard(h.assassin, AssassinCard)] + Deal(h.neutral, NeutralCard)
  }

  /**
   * The cards dealt in generate_cards, before the shuffle, form a fresh board
   * when no two of the words are equal once upper-cased.
   */
  lemma DealtIsBoard(words: seq<string>, h: Hands, start: Team)
    requires |words| == BOARD_SIZE && Distinct(MapSeq(Upper, words))
    requires |h.first| == FIRST_TEAM_CARDS && |h.second| == SECOND_TEAM_CARDS && |h.neutral| == NEUTRAL_CARDS
    requires multiset(h.first + h.second + [h.assassin] + h.neutral) == multiset(words)
    ensures IsFreshBoard(DealtCards(h, start), start)
    ensures multiset(Words(DealtCards(h, start))) == multiset(MapSeq(Upper, words))
  {
    var dealt := DealtCards(h, start);
    DealtKinds(h, start);
    DealtWords(h, start);
    var all := h.first + h.second + [h.assassin] + h.neutral;
    MapPermutation(Upper, all, words);
    DistinctSubset(Words(dealt), MapSeq(Upper, words));
    assert forall i :: 0 <= i < |dealt| ==> !dealt[i].tapped;
  }

  /** The dealt cards show the upper-cased words in dealing order. */
  lemma DealtWords(h: Hands, start: Team)
    ensures Words(DealtCards(h, start)) == MapSeq(Upper, h.first + h.second + [h.assassin] + h.neutral)
  {
  }

  /** The dealt cards have 9 / 8 / 1 / 7 cards of the four types. */
  lemma DealtKinds(h: Hands, start: Team)
    requires |h.first| == FIRST_TEAM_CARDS && |h.second| == SECOND_TEAM_CARDS && |h.neutral| == NEUTRAL_CARDS
    ensures var dealt := DealtCards(h, start);
      && |dealt| == BOARD_SIZE
      && Count(dealt, TeamCard(start)) == FIRST_TEAM_CARDS
      && Count(dealt, TeamCard(Other(start))) == SECOND_TEAM_CARDS
      && Count(dealt, AssassinCard) == 1
      && Count(dealt, NeutralCard) == NEUTRAL_CARDS
  {
    var dealt := DealtCards(h, start);
    var kinds := Repeat(TeamCard(start), FIRST_TEAM_CARDS) + Repeat(TeamCard(Other(start)), SECOND_TEAM_CARDS)
                 + [AssassinCard] + Repeat(NeutralCard, NEUTRAL_CARDS);
    assert Kinds(dealt) == kinds;
    RepeatMultiset(TeamCard(start), FIRST_TEAM_CARDS);
    RepeatMultiset(TeamCard(Other(start)), SECOND_TEAM_CARDS);
    RepeatMultiset(NeutralCard, NEUTRAL_CARDS);
    assert multiset(kinds) == multiset(Repeat(TeamCard(start), FIRST_TEAM_CARDS))
      + multiset(Repeat(TeamCard(Other(start)), SECOND_TEAM_CARDS))
      + multiset{AssassinCard} + multiset(Repeat(NeutralCard, NEUTRAL_CARDS));
  }

  lemma ShuffleKeepsWords(dealt: seq<Card>, cards: seq<Card>, words: seq<string>, lexicon: seq<string>)
    requires multiset(cards) == multiset(dealt)
    requires multiset(Words(dealt)) == multiset(words) && multiset(words) <= multiset(lexicon)
    ensures forall i :: 0 <= i < |cards| ==> cards[i].word in lexicon
  {
    MapPermutation(WordOf, dealt, cards);
    forall i | 0 <= i < |cards|
      ensures cards[i].word in lexicon
    {
      assert Words(cards)[i] in multiset(Words(cards));
    }
  }

  /** Rearranging the cards keeps the board shape. */
  lemma ShuffleKeepsBoard(dealt: seq<Card>, cards: seq<Card>, start: Team)
    requires multiset(cards) == multiset(dealt) && IsFreshBoard(dealt, start)
    ensures IsFreshBoard(cards, start)
  {
    MapPermutation(KindOf, dealt, cards);
    MapPermutation(WordOf, dealt, cards);
    DistinctSubset(Words(cards), Words(dealt));
    assert |multiset(cards)| == |cards|;
    forall i | 0 <= i < |cards|
      ensures !cards[i].tapped
    {
      assert cards[i] in multiset(dealt);
    }
  }

  /**
   * generate_cards: sample 25 words, 9 for the starting team, 8 of the rest for
   * the other team, one of the remaining 8 as the assassin, the last 7 neutral,
   * then shuffle the 25 cards.
   */
  method GenerateCards(lexicon: seq<string>, start: Team, draws: Draws) returns (cards: seq<Card>)
    requires |lexicon| >= BOARD_SIZE && Distinct(MapSeq(Upper, lexicon))
    ensures IsFreshBoard(cards, start)
    ensures forall i :: 0 <= i < |cards| ==> cards[i].word in MapSeq(Upper, lexicon)
  {
    var words := Sample(lexicon, draws.words, BOARD_SIZE);
    SampleKeepsDistinctImage(lexicon, draws.words, Upper);
    var hands := SplitWords(words, draws);

    var dealt := DealCards(hands, start);
    DealtIsBoard(words, hands, start);

    cards := Shuffle(dealt, draws.order);
    ShuffleKeepsBoard(dealt, cards, start);
    ShuffleKeepsWords(dealt, cards, MapSeq(Upper, words), MapSeq(Upper, lexicon));
  }

  /** The 25 sampled words keep the lexicon's property that their images are all different. */
  lemma SampleKeepsDistinctImage<T, U>(lexicon: seq<T>, picks: seq<nat>, f: T -> U)
    requires |lexicon| >= BOARD_SIZE && Distinct(MapSeq(f, lexicon))
    ensures var words := Sample(lexicon, picks, BOARD_SIZE);
      && Distinct(words) && Distinct(MapSeq(f, words))
      && multiset(MapSeq(f, words)) <= multiset(MapSeq(f, lexicon))
  {
    var sh := Shuffle(lexicon, picks);
    var words := Sample(lexicon, picks, BOARD_SIZE);
    assert words == sh[..BOARD_SIZE];
    MapPermutation(f, sh, lexicon);
    DistinctSubset(MapSeq(f, sh), MapSeq(f, lexicon));
    var image := MapSeq(f, sh);
    assert MapSeq(f, words) == image[..BOARD_SIZE];
    assert image == image[..BOARD_SIZE] + image[BOARD_SIZE..];
    DistinctImage(f, words);
  }

  /** The append loops of generate_cards: the cards of each type in turn, none of them guessed. */
  method DealCards(hands: Hands, start: Team) returns (dealt: seq<Card>)
    ensures dealt == DealtCards(hands, start)
  {
    dealt := [];
    for i := 0 to |hands.first|
      invariant dealt == Deal(hands.first[..i], TeamCard(start))
    {
      DealOneMore(hands.first, i, TeamCard(start));
      dealt := dealt + [NewCard(hands.first[i], TeamCard(start))];
    }
    assert hands.first[..|hands.first|] == hands.first;
    var soFar := dealt;
    for i := 0 to |hands.second|
      invariant dealt == soFar + Deal(hands.second[..i], TeamCard(Other(start)))
    {
      DealOneMore(hands.second, i, TeamCard(Other(start)));
      dealt := dealt + [NewCard(hands.second[i], TeamCard(Other(start)))];
    }
    assert hands.second[..|hands.second|] == hands.second;
    dealt := dealt + [NewCard(hands.assassin, AssassinCard)];
    soFar := dealt;
    for i := 0 to |hands.neutral|
      invariant dealt == soFar + Deal(hands.neutral[..i], NeutralCard)
    {
      DealOneMore(hands.neutral, i, NeutralCard);
      dealt := dealt + [NewCard(hands.neutral[i], NeutralCard)];
    }
    assert hands.neutral[..|hands.neutral|] == hands.neutral;
  }

  /** determine_turn_order. */
  function InitialOrder(start: Team): (order: seq<Role>)
    ensures order == [Spymaster(start), Operative(start), Spymaster(Other(start)), Operative(Other(start))]
    ensures Distinct(order)
  {
    if start == Red then [RedSpymaster, RedOperative, BlueSpymaster, BlueOperative]
    else [BlueSpymaster, BlueOperative, RedSpymaster, RedOperative]
  }

  predicate IsMaxWordLength(cards: seq<Card>, m: nat)
  {
    && (forall i :: 0 <= i < |cards| ==> |cards[i].word| <= m)
    && (|cards| == 0 ==> m == 0)
    && (|cards| > 0 ==> exists i :: 0 <= i < |cards| && |cards[i].word| == m)
  }

  /** get_max_word_length: the length of the longest word on the board. */
  method GetMaxWordLength(cards: seq<Card>) returns (m: nat)
    ensures IsMaxWordLength(cards, m)
  {
    m := 0;
    for i := 0 to |cards|
      invariant forall j :: 0 <= j < i ==> |cards[j].word| <= m
      invariant i == 0 ==> m == 0
      invariant i > 0 ==> exists j :: 0 <= j < i && |cards[j].word| == m
    {
      if |cards[i].word| > m {
        m := |cards[i].word|;
      }
    }
  }

  /** get_card: the position of the first card showing the word, if any. */
  function GetCard(cards: seq<Card>, word: string): (r: Option<nat>)
    ensures r.Some? ==> r.value < |cards| && cards[r.value].word == word
    ensures r.Some? ==> forall j :: 0 <= j < r.value ==> cards[j].word != word
    ensures r.None? <==> forall j :: 0 <= j < |cards| ==> cards[j].word != word
    decreases |cards|
  {
    if cards == [] then None
    else if cards[0].word == word then Some(0)
    else match GetCard(cards[1..], word)
      case None => None
      case Some(k) => Some(k + 1)
  }

  /** On a board without repeated words, the card found is the only one showing the word. */
  lemma GetCardUnique(cards: seq<Card>, word: string, j: nat)
    requires Distinct(Words(cards)) && j < |cards| && cards[j].word == word
    ensures GetCard(cards, word) == Some(j)
  {
    var r := GetCard(cards, word);
    assert r.Some?;
    assert Words(cards)[r.value] == cards[r.value].word;
    assert Words(cards)[j] == cards[j].word;
  }

  lemma {:induction false} TappedCountAppend(a: seq<Card>, b: seq<Card>, t: CardType)
    ensures TappedCount(a + b, t) == TappedCount(a, t) + TappedCount(b, t)
    decreases |b|
  {
    if b != [] {
      var b' := b[..|b| - 1];
      assert (a + b)[..|a + b| - 1] == a + b';
      assert (a + b)[|a + b| - 1] == b[|b| - 1];
      TappedCountAppend(a, b', t);
    } else {
      assert a + b == a;
    }
  }

  lemma {:induction false} TappedAtMostCount(cards: seq<Card>, t: CardType)
    ensures TappedCount(cards, t) <= Count(cards, t)
    decreases |cards|
  {
    if cards != [] {
      CountLast(cards, t);
      TappedAtMostCount(cards[..|cards| - 1], t);
    }
  }

  /** The count of a type is the count without the last card plus the last card's own share. */
  lemma CountLast(cards: seq<Card>, t: CardType)
    requires cards != []
    ensures Count(cards, t) == Count(cards[..|cards| - 1], t) + (if cards[|cards| - 1].kind == t then 1 else 0)
  {
    var init := cards[..|cards| - 1];
    var last := cards[|cards| - 1];
    assert cards == init + [last];
    MapSeqAppend(KindOf, init, [last]);
    assert Kinds(cards) == Kinds(init) + [last.kind];
  }

  lemma {:induction false} UntappedCountsZero(cards: seq<Card>, t: CardType)
    requires forall i :: 0 <= i < |cards| ==> !cards[i].tapped
    ensures TappedCount(cards, t) == 0
    decreases |cards|
  {
    if cards != [] {
      UntappedCountsZero(cards[..|cards| - 1], t);
    }
  }

  /** Every card of a type is guessed exactly when the guessed count of that type reaches the type's count. */
  lemma {:induction false} TappedAll(cards: seq<Card>, t: CardType)
    ensures TappedCount(cards, t) == Count(cards, t)
            <==> forall i :: 0 <= i < |cards| && cards[i].kind == t ==> cards[i].tapped
    decreases |cards|
  {
    if cards != [] {
      var init := cards[..|cards| - 1];
      CountLast(cards, t);
      TappedAll(init, t);
      TappedAtMostCount(init, t);
      AllTappedLast(cards, init, t);
    }
  }

  /** All cards of a type are guessed exactly when those before the last are and the last one is, if of that type. */
  lemma AllTappedLast(cards: seq<Card>, init: seq<Card>, t: CardType)
    requires cards != [] && init == cards[..|cards| - 1]
    ensures (forall i :: 0 <= i < |cards| && cards[i].kind == t ==> cards[i].tapped)
            <==> (forall i :: 0 <= i < |init| && init[i].kind == t ==> init[i].tapped)
                 && (cards[|cards| - 1].kind == t ==> cards[|cards| - 1].tapped)
  {
    assert forall i :: 0 <= i < |init| ==> init[i] == cards[i];
  }

  /** Guessing an untapped card adds one to the guessed count of its type and to no other. */
  lemma TapCounts(cards: seq<Card>, i: nat, t: CardType)
    requires i < |cards| && !cards[i].tapped
    ensures TappedCount(cards[i := cards[i].(tapped := true)], t)
            == TappedCount(cards, t) + (if cards[i].kind == t then 1 else 0)
  {
    var c := cards[i];
    var after := cards[i := c.(tapped := true)];
    assert cards == cards[..i] + [c] + cards[i + 1..];
    assert after == cards[..i] + [c.(tapped := true)] + cards[i + 1..];
    TappedCountAppend(cards[..i] + [c], cards[i + 1..], t);
    TappedCountAppend(cards[..i], [c], t);
    TappedCountAppend(cards[..i] + [c.(tapped := true)], cards[i + 1..], t);
    TappedCountAppend(cards[..i], [c.(tapped := true)], t);
    assert TappedCount([c], t) == 0 by {
      assert [c][..0] == [];
    }
    assert [c.(tapped := true)][..0] == [];
  }

  /** Guessing a card changes neither the words nor the types on the board. */
  lemma TapKeepsBoard(cards: seq<Card>, i: nat, start: Team)
    requires i < |cards| && IsBoard(cards, start)
    ensures IsBoard(cards[i := cards[i].(tapped := true)], start)
  {
    var after := cards[i := cards[i].(tapped := true)];
    assert Kinds(after) == Kinds(cards);
    assert Words(after) == Words(cards);
  }
}
