/**
 * What the two renderers show each player: the button grid and the board
 * image. Both follow one disclosure rule, stated by `ShownKind`: a card's
 * true type is shown to a spymaster, to everyone once the game is over, and
 * for a card already guessed; any other card looks neutral.
 */
module Render {
  import opened Common
  import opened Draw
  import opened Board
  import opened Settings

  /** The viewer flag of both renderers: a spymaster, or anyone once the game is finished. */
  predicate SeesAll(role: Role, finished: bool)
  {
    IsSpymaster(role) || finished
  }

  /** The disclosure rule. */
  function ShownKind(card: Card, seesAll: bool): CardType
  {
    if seesAll || card.tapped then card.kind else NeutralCard
  }

  /** A card is shown with a type other than its own only when the viewer may not see it, and then as neutral. */
  lemma ShownKindMeaning(card: Card, seesAll: bool)
    ensures ShownKind(card, seesAll) != NeutralCard ==> ShownKind(card, seesAll) == card.kind
    ensures ShownKind(card, seesAll) == card.kind <==> seesAll || card.tapped || card.kind == NeutralCard
  {
  }

  // ---------------------------------------------------------------------
  // Button labels

  /** `"_" * n`: n underscores, none for n <= 0. */
  function Underscores(n: int): (r: string)
    ensures |r| == if n <= 0 then 0 else n
    ensures forall i :: 0 <= i < |r| ==> r[i] == '_'
  {
    if n <= 0 then [] else seq(n, _ => '_')
  }

  /** `int(n / 2)`: the quotient truncated toward zero. */
  function HalfTowardZero(n: int): int
  {
    if n >= 0 then n / 2 else -((-n) / 2)
  }

  /** Card.get_word_formatted: the word centred between equal runs of underscores. */
  function WordFormatted(word: string, length: int): string
  {
    var pad := HalfTowardZero(length - |word|);
    Underscores(pad) + word + Underscores(pad)
  }

  /**
   * A label is the word with the same number of underscores on each side; it
   * fills the given length to within one character when the word fits, and is
   * the bare word when it does not leave room for a pair.
   */
  lemma WordFormattedShape(word: string, length: int)
    ensures var r := WordFormatted(word, length);
      var pad := if length - |word| >= 2 then (length - |word|) / 2 else 0;
      && |r| == |word| + 2 * pad
      && r[pad..pad + |word|] == word
      && (forall i :: 0 <= i < pad ==> r[i] == '_')
      && (forall i :: |r| - pad <= i < |r| ==> r[i] == '_')
      && (|word| <= length ==> length - 1 <= |r| <= length)
      && (length - |word| < 2 ==> r == word)
  {
    var pad := if length - |word| >= 2 then (length - |word|) / 2 else 0;
    var r := WordFormatted(word, length);
    assert Underscores(HalfTowardZero(length - |word|)) == Underscores(pad);
    assert r == Underscores(pad) + word + Underscores(pad);
    assert r[pad..pad + |word|] == word;
  }

  datatype ButtonStyle = Grey | RedStyle | Blurple | Green

  datatype Emoji = WhiteSquare | RedSquare | BlueSquare | Skull

  /** The button colour of each card type. */
  function ButtonColour(t: CardType): ButtonStyle
  {
    match t
    case NeutralCard => Grey
    case RedCard => RedStyle
    case BlueCard => Blurple
    case AssassinCard => Green
  }

  /** The emoji of each card type. */
  function CardEmoji(t: CardType): Emoji
  {
    match t
    case NeutralCard => WhiteSquare
    case RedCard => RedSquare
    case BlueCard => BlueSquare
    case AssassinCard => Skull
  }

  /** A card button: colour, label and optional emoji. */
  datatype Button = Button(style: ButtonStyle, caption: string, emoji: Option<Emoji>)

  /**
   * GameView in button mode, per card. A spymaster or a finished game gets
   * every card in its own colour, the assassin marked; anyone else gets the
   * cards not yet guessed in grey. A guessed card shows a run of underscores
   * and its emoji, one underscore longer in the first view than in the second.
   */
  function ButtonFace(card: Card, maxWordLength: nat, seesAll: bool): Button
  {
    if seesAll then
      var emoji := if card.kind == AssassinCard then Some(CardEmoji(AssassinCard)) else None;
      if card.tapped then Button(ButtonColour(card.kind), Underscores(maxWordLength - 1), Some(CardEmoji(card.kind)))
      else Button(ButtonColour(card.kind), WordFormatted(card.word, maxWordLength), emoji)
    else
      var shown := if card.tapped then card.kind else NeutralCard;
      if card.tapped then Button(ButtonColour(shown), Underscores(maxWordLength - 2), Some(CardEmoji(card.kind)))
      else Button(ButtonColour(shown), WordFormatted(card.word, maxWordLength), None)
  }

  /**
   * The button-mode disclosure: the button's colour is the colour of the shown
   * type, and a viewer who may not see all learns only the word of a card not
   * yet guessed.
   */
  lemma ButtonDisclosure(card: Card, maxWordLength: nat, seesAll: bool)
    ensures ButtonFace(card, maxWordLength, seesAll).style == ButtonColour(ShownKind(card, seesAll))
    ensures ButtonFace(card, maxWordLength, seesAll).emoji.Some? <==> card.tapped || (seesAll && card.kind == AssassinCard)
    ensures !seesAll && !card.tapped ==>
              ButtonFace(card, maxWordLength, seesAll) == ButtonFace(Card(card.word, NeutralCard, false), maxWordLength, seesAll)
  {
  }

  /** The label of a guessed card: one character shorter than the longest word for a spymaster, two for an operative. */
  lemma GuessedLabelLength(card: Card, maxWordLength: nat, seesAll: bool)
    requires card.tapped && maxWordLength >= 2
    ensures |ButtonFace(card, maxWordLength, seesAll).caption| == maxWordLength - (if seesAll then 1 else 2)
  {
  }

  /** The button loop of GameView: one button per card, in board order. */
  method Buttons(cards: seq<Card>, maxWordLength: nat, seesAll: bool) returns (buttons: seq<Button>)
    ensures |buttons| == |cards|
    ensures forall i :: 0 <= i < |cards| ==> buttons[i] == ButtonFace(cards[i], maxWordLength, seesAll)
  {
    buttons := [];
    for i := 0 to |cards|
      invariant |buttons| == i
      invariant forall j :: 0 <= j < i ==> buttons[j] == ButtonFace(cards[j], maxWordLength, seesAll)
    {
      buttons := buttons + [ButtonFace(cards[i], maxWordLength, seesAll)];
    }
  }

  // ---------------------------------------------------------------------
  // The card select menu

  /** The words of the cards not yet guessed, in board order. */
  function UntappedWords(cards: seq<Card>): (r: seq<string>)
    ensures |r| <= |cards|
  {
    if cards == [] then []
    else
      var last := cards[|cards| - 1];
      UntappedWords(cards[..|cards| - 1]) + (if last.tapped then [] else [last.word])
  }

  /** A word is offered exactly when some card not yet guessed shows it. */
  lemma {:induction false} UntappedWordsMembers(cards: seq<Card>, w: string)
    ensures w in UntappedWords(cards) <==> exists i :: 0 <= i < |cards| && !cards[i].tapped && cards[i].word == w
    decreases |cards|
  {
    if cards != [] {
      var init := cards[..|cards| - 1];
      var last := cards[|cards| - 1];
      UntappedWordsMembers(init, w);
      assert UntappedWords(cards) == UntappedWords(init) + (if last.tapped then [] else [last.word]);
      if w in UntappedWords(cards) {
        if w in UntappedWords(init) {
          var i :| 0 <= i < |init| && !init[i].tapped && init[i].word == w;
          assert cards[i] == init[i];
        } else {
          assert !last.tapped && last.word == w;
        }
      }
      if exists i :: 0 <= i < |cards| && !cards[i].tapped && cards[i].word == w {
        var i :| 0 <= i < |cards| && !cards[i].tapped && cards[i].word == w;
        if i < |init| {
          assert init[i] == cards[i];
        }
      }
    }
  }

  /** Before any guess the menu lists every word of the board, in board order. */
  lemma {:induction false} UntappedWordsFresh(cards: seq<Card>)
    requires forall i :: 0 <= i < |cards| ==> !cards[i].tapped
    ensures UntappedWords(cards) == Words(cards)
    decreases |cards|
  {
    if cards != [] {
      var init := cards[..|cards| - 1];
      UntappedWordsFresh(init);
      assert Words(cards) == Words(init) + [cards[|cards| - 1].word];
    }
  }

  /** CardSelectMenu's option loop. */
  method SelectOptions(cards: seq<Card>) returns (options: seq<string>)
    ensures options == UntappedWords(cards)
  {
    options := [];
    for i := 0 to |cards|
      invariant options == UntappedWords(cards[..i])
    {
      assert cards[..i + 1][..i] == cards[..i];
      if !cards[i].tapped {
        options := options + [cards[i].word];
      }
    }
    assert cards[..|cards|] == cards;
  }

  // ---------------------------------------------------------------------
  // The image controls

  /** A control of the image-mode view, with its disabled flag where it has one. */
  datatype Control =
    | RematchButton
    | EnterClue(disabled: bool)
    | ChooseCard(options: seq<string>, disabled: bool)
    | EndTurn(disabled: bool)
    | RevealCards
    | CoverCards
    | SettingsButton

  /** GameView in image mode, as written: End turn is disabled only while no guess has been made. */
  function ImageControls(role: Role, current: Role, cards: seq<Card>, finished: bool, guessCount: int): seq<Control>
  {
    var disabled := role != current;
    var main :=
      if finished then [RematchButton]
      else if IsSpymaster(role) then [EnterClue(disabled)]
      else [ChooseCard(UntappedWords(cards), disabled), EndTurn(guessCount == 0)];
    main + [RevealCards, CoverCards, SettingsButton]
  }

  /** The other team's operative, while the current operative guesses, is offered an enabled End turn. */
  lemma EndTurnOfferedToOpponent(cards: seq<Card>)
    ensures EndTurn(false) in ImageControls(BlueOperative, RedOperative, cards, false, 1)
  {
    assert ImageControls(BlueOperative, RedOperative, cards, false, 1)[1] == EndTurn(false);
  }

  /** GameView in image mode with End turn tied to the current role like the other controls. */
  function ImageControlsFixed(role: Role, current: Role, cards: seq<Card>, finished: bool, guessCount: int): seq<Control>
  {
    var disabled := role != current;
    var main :=
      if finished then [RematchButton]
      else if IsSpymaster(role) then [EnterClue(disabled)]
      else [ChooseCard(UntappedWords(cards), disabled), EndTurn(disabled || guessCount == 0)];
    main + [RevealCards, CoverCards, SettingsButton]
  }

  /**
   * With the correction only the current role can act: every enabled game
   * control belongs to the current role, End turn needs a guess first, and the
   * select menu offers just the cards not yet guessed.
   */
  lemma OnlyCurrentRoleActs(role: Role, current: Role, cards: seq<Card>, finished: bool, guessCount: int)
    ensures forall c :: c in ImageControlsFixed(role, current, cards, finished, guessCount) ==>
              && (c.EnterClue? && !c.disabled ==> role == current && IsSpymaster(role))
              && (c.ChooseCard? && !c.disabled ==> role == current && !IsSpymaster(role))
              && (c.ChooseCard? ==> c.options == UntappedWords(cards))
              && (c.EndTurn? && !c.disabled ==> role == current && guessCount != 0)
    ensures finished ==> ImageControlsFixed(role, current, cards, finished, guessCount)[0] == RematchButton
  {
  }

  // ---------------------------------------------------------------------
  // The board image

  const CARD_WIDTH := 200
  const CARD_HEIGHT := 150
  const CARD_PADDING := 10
  const GRID_SIZE := 5
  const BACKGROUND_TRANSPARENCY := 30

  /** The board's size: five cards and four gaps each way. */
  const BOARD_WIDTH := GRID_SIZE * (CARD_WIDTH + CARD_PADDING) - CARD_PADDING
  const BOARD_HEIGHT := GRID_SIZE * (CARD_HEIGHT + CARD_PADDING) - CARD_PADDING

  lemma BoardSize()
    ensures BOARD_WIDTH == 1040 && BOARD_HEIGHT == 790
  {
  }

  /** The top-left corner of card i: `row, col = divmod(i, 5)`. */
  function CardPosition(i: nat): (nat, nat)
  {
    var row := i / GRID_SIZE;
    var col := i % GRID_SIZE;
    (col * (CARD_WIDTH + CARD_PADDING), row * (CARD_HEIGHT + CARD_PADDING))
  }

  /** Every one of the 25 cards lies wholly inside the board. */
  lemma CardInsideBoard(i: nat)
    requires i < BOARD_SIZE
    ensures CardPosition(i).0 + CARD_WIDTH <= BOARD_WIDTH
    ensures CardPosition(i).1 + CARD_HEIGHT <= BOARD_HEIGHT
  {
    assert i / GRID_SIZE < GRID_SIZE;
  }

  /** Two different cards never overlap: they are apart by a whole card in one direction. */
  lemma CardsApart(i: nat, j: nat)
    requires i < j < BOARD_SIZE
    ensures var (xi, yi) := CardPosition(i);
      var (xj, yj) := CardPosition(j);
      xi + CARD_WIDTH <= xj || xj + CARD_WIDTH <= xi || yi + CARD_HEIGHT <= yj || yj + CARD_HEIGHT <= yi
  {
    var ri, ci := i / GRID_SIZE, i % GRID_SIZE;
    var rj, cj := j / GRID_SIZE, j % GRID_SIZE;
    assert i == ri * GRID_SIZE + ci && j == rj * GRID_SIZE + cj;
    if ri == rj {
      assert ci != cj;
    }
  }

  /**
   * The text colour, with the perceived brightness of the background scaled by
   * 1000 to stay in integers: light text on a background darker than 150.
   */
  predicate DarkBackground(c: Rgb)
  {
    299 * c.r + 587 * c.g + 114 * c.b < 150 * 1000
  }

  /** The default colours give light text on red, blue and the assassin, and dark text on neutral. */
  lemma DefaultTextColours()
    ensures DarkBackground(DefaultColour(RedCard)) && DarkBackground(DefaultColour(BlueCard))
    ensures DarkBackground(DefaultColour(AssassinCard)) && !DarkBackground(DefaultColour(NeutralCard))
  {
  }

  /** The cover pasted over a guessed card: in its type's colour, opaque unless the viewer asked to see through covers. */
  datatype Cover = Cover(colour: Rgb, alpha: int, mirrored: bool)

  /** One card of the board image: background colour, light text or not, and the cover of a guessed card. */
  datatype ImageCard = ImageCard(background: Rgb, lightText: bool, word: string, cover: Option<Cover>)

  function ImageCardFace(card: Card, seesAll: bool, revealCovered: bool, colours: map<CardType, Option<Rgb>>): ImageCard
  {
    var bg := if seesAll || card.tapped then GetCardColor(card.kind, colours) else GetCardColor(NeutralCard, colours);
    var cover :=
      if card.tapped then
        Some(Cover(GetCardColor(card.kind, colours), if revealCovered then 128 else 255, card.kind == AssassinCard))
      else None;
    ImageCard(bg, DarkBackground(bg), card.word, cover)
  }

  /**
   * Both renderers apply the same rule: the image card's background is the
   * colour of the shown type, as the button's colour is; only a guessed card
   * is covered, and nothing about the type of a card not yet guessed reaches
   * a viewer who may not see it.
   */
  lemma RenderersAgree(card: Card, maxWordLength: nat, seesAll: bool, revealCovered: bool,
                       colours: map<CardType, Option<Rgb>>)
    ensures ImageCardFace(card, seesAll, revealCovered, colours).background == GetCardColor(ShownKind(card, seesAll), colours)
    ensures ButtonFace(card, maxWordLength, seesAll).style == ButtonColour(ShownKind(card, seesAll))
    ensures ImageCardFace(card, seesAll, revealCovered, colours).cover.Some? <==> card.tapped
    ensures !seesAll && !card.tapped ==>
              ImageCardFace(card, seesAll, revealCovered, colours)
              == ImageCardFace(Card(card.word, NeutralCard, false), seesAll, revealCovered, colours)
  {
    ButtonDisclosure(card, maxWordLength, seesAll);
  }

  /** The board background: the colour of the current role's team, mostly transparent. */
  function Background(current: Role, colours: map<CardType, Option<Rgb>>): (Rgb, int)
  {
    (GetCardColor(TeamCard(TeamOf(current)), colours), BACKGROUND_TRANSPARENCY)
  }

  /** The background shows whose turn it is: red for a red role, blue for a blue one, whatever else the user chose. */
  lemma BackgroundShowsTeam(current: Role, colours: map<CardType, Option<Rgb>>)
    ensures Background(current, colours).0 == GetCardColor(if TeamOf(current) == Red then RedCard else BlueCard, colours)
    ensures colours == map[] ==> Background(current, colours).0 == DefaultColour(TeamCard(TeamOf(current)))
  {
  }
}
