/**
 * The turn engine of a running game.
 *
 * A game is a value `GameState`; each action a player takes is a function
 * from the old state to a result (an error, or a reply and the new state).
 * The lemmas below state the rules those functions follow, and
 * `GameObject.Game` performs the same actions in place.
 */
module Engine {
  import opened Common
  import opened Draw
  import opened PyText
  import opened Board

  /** One narration line of the history, with the values it mentions. */
  datatype Line =
    | ClueGiven(player: string, team: Team, clue: string, number: int)
    | FinishedGuessing(player: string)
    | Guessed(player: string, word: string, kind: CardType)
    | MaxGuessesReached
    | AssassinPicked(winner: Team)
    | AllFound(team: Team)
    | GameEnded

  datatype GameState = GameState(
    roles: map<Role, UserId>,
    startingTeam: Team,
    maxWordLength: nat,
    cards: seq<Card>,
    turnOrder: seq<Role>,
    guessCount: int,
    clueAmount: int,
    turn: int,
    finished: bool,
    history: map<Role, seq<Line>>,
    lastInteraction: int)

  /** What is_game_finished finds on the board. */
  datatype Standing = Undecided | AssassinFound | AllGuessed(team: Team)

  const TURN_ROLES := 4

  function RotateLeft<T>(s: seq<T>, k: nat): seq<T>
    requires k <= |s|
  {
    s[k..] + s[..k]
  }

  /**
   * is_game_finished without narration: a guessed assassin ends the game before
   * any count is looked at; then red is checked before blue.
   */
  function GameStanding(cards: seq<Card>, start: Team): Standing
  {
    if AssassinRevealed(cards) then AssassinFound
    else if TappedCount(cards, RedCard) == TeamTotal(Red, start) then AllGuessed(Red)
    else if TappedCount(cards, BlueCard) == TeamTotal(Blue, start) then AllGuessed(Blue)
    else Undecided
  }

  /** The line is_game_finished narrates. The assassin's victim is read off the current role. */
  function StandingLine(st: Standing, current: Role): Line
    requires st != Undecided
  {
    match st
    case AssassinFound => AssassinPicked(if current == RedOperative then Blue else Red)
    case AllGuessed(t) => AllFound(t)
  }

  /** The state a running game keeps between actions. */
  predicate ValidState(s: GameState)
  {
    && ValidPlay(s.roles, s.startingTeam, s.maxWordLength, s.cards, s.finished)
    && ValidTurn(s.startingTeam, s.turn, s.turnOrder)
    && HasEveryRole(s.history)
    && s.guessCount >= 0
  }

  /** Four players on a well-formed board whose finished flag matches what the board shows. */
  predicate ValidPlay(roles: map<Role, UserId>, start: Team, maxWordLength: nat, cards: seq<Card>, finished: bool)
  {
    && RolesFilled(roles)
    && IsBoard(cards, start)
    && IsMaxWordLength(cards, maxWordLength)
    && (finished <==> GameStanding(cards, start) != Undecided)
  }

  /** The turn order is the initial order rotated once per turn played. */
  predicate ValidTurn(start: Team, turn: int, order: seq<Role>)
  {
    && turn >= 1
    && |order| == TURN_ROLES
    && order == RotateLeft(InitialOrder(start), (turn - 1) % TURN_ROLES)
  }

  /** add_history: the line is appended to every role's history. */
  function AddLine(h: map<Role, seq<Line>>, line: Line): map<Role, seq<Line>>
  {
    map r | r in h :: h[r] + [line]
  }

  /**
   * next_turn followed by the fresh messages it sends: the guess count is reset,
   * the current role moves to the back, the turn number goes up, and every
   * role's history starts anew.
   */
  function Advance(s: GameState, now: int): GameState
    requires |s.turnOrder| > 0
  {
    s.(lastInteraction := now,
       guessCount := 0,
       turnOrder := s.turnOrder[1..] + [s.turnOrder[0]],
       turn := s.turn + 1,
       history := ClearHistory(s.history))
  }

  /** The histories right after a turn change: every role kept, nothing narrated yet. */
  function ClearHistory(h: map<Role, seq<Line>>): map<Role, seq<Line>>
  {
    map r | r in h :: []
  }

  /** next_turn called n times in a row. */
  function AdvanceTimes(s: GameState, n: nat, now: int): (t: GameState)
    requires |s.turnOrder| > 0
    ensures |t.turnOrder| == |s.turnOrder|
  {
    if n == 0 then s else Advance(AdvanceTimes(s, n - 1, now), now)
  }

  /** is_game_finished with narration: a decided game gets its line. */
  function RecordStanding(s: GameState): GameState
    requires |s.turnOrder| > 0
  {
    var st := GameStanding(s.cards, s.startingTeam);
    if st == Undecided then s else s.(history := AddLine(s.history, StandingLine(st, s.turnOrder[0])))
  }

  /** end_game. */
  function EndGame(s: GameState): GameState
  {
    s.(finished := true, history := AddLine(s.history, GameEnded))
  }

  /** get_user_role: the first role, in role order, that the user holds. */
  function RoleOf(roles: map<Role, UserId>, rs: seq<Role>, u: UserId): (r: Option<Role>)
    requires forall i :: 0 <= i < |rs| ==> rs[i] in roles
    ensures r.Some? ==> r.value in rs && roles[r.value] == u
    ensures r.None? <==> forall i :: 0 <= i < |rs| ==> roles[rs[i]] != u
  {
    if rs == [] then None
    else if roles[rs[0]] == u then Some(rs[0])
    else RoleOf(roles, rs[1..], u)
  }

  function UserRole(roles: map<Role, UserId>, u: UserId): Option<Role>
    requires HasEveryRole(roles)
  {
    RoleOf(roles, ROLE_ORDER, u)
  }

  /** `list(roles.values())`: the players in role order. */
  function Players(roles: map<Role, UserId>): seq<UserId>
    requires HasEveryRole(roles)
  {
    [roles[RedSpymaster], roles[RedOperative], roles[BlueSpymaster], roles[BlueOperative]]
  }

  /** give_clue. The clue's number is whatever `int()` accepts. */
  function GiveClue(s: GameState, u: UserId, clue: string, number: string, name: string, now: int): Result<GameState>
    requires HasEveryRole(s.roles) && |s.turnOrder| > 0
  {
    match UserRole(s.roles, u)
    case None => Err(UnknownUser(u))
    case Some(role) =>
      if role != s.turnOrder[0] then Err(NotYourTurn)
      else match ParseInt(number)
        case None => Err(InvalidNumber(number))
        case Some(n) =>
          var line := ClueGiven(name, TeamOf(s.turnOrder[0]), Upper(clue), n);
          Ok(Advance(s.(history := AddLine(s.history, line), clueAmount := n), now))
  }

  /** What choose_word answers besides a change of state. */
  datatype Reply =
    | Rematch(players: seq<UserId>)
    | ClueForm
    | AskConfirmation(word: string)
    | Played

  datatype Move = Move(reply: Reply, after: GameState)

  /** The acting operative guessed a card of its own team's colour. */
  predicate OwnColour(role: Role, kind: CardType)
  {
    (role == RedOperative && kind == RedCard) || (role == BlueOperative && kind == BlueCard)
  }

  /** The guess budget of the current clue is spent (a clue of 0 allows any number of guesses). */
  predicate OverBudget(clueAmount: int, guessCount: int)
  {
    clueAmount != 0 && guessCount > clueAmount
  }

  /** The guess itself: card k is tapped, counted and narrated. */
  function Tapped(s: GameState, k: nat, name: string): GameState
    requires k < |s.cards|
  {
    var card := s.cards[k];
    s.(cards := s.cards[k := card.(tapped := true)],
       guessCount := s.guessCount + 1,
       history := AddLine(s.history, Guessed(name, card.word, card.kind)))
  }

  /** choose_word on an untapped card k, after every check has passed. */
  function Guess(s: GameState, k: nat, role: Role, name: string, now: int): GameState
    requires k < |s.cards| && |s.turnOrder| > 0
  {
    Resolve(Tapped(s, k, name), s.cards[k].kind, role, now)
  }

  /**
   * What follows the tap of a card of the given kind: a decided game ends; else
   * a spent budget or a card not of the guesser's colour ends the turn.
   */
  function Resolve(t: GameState, kind: CardType, role: Role, now: int): GameState
    requires |t.turnOrder| > 0
  {
    var won := GameStanding(t.cards, t.startingTeam) != Undecided;
    if OverBudget(t.clueAmount, t.guessCount) then
      if won then EndGame(RecordStanding(t))
      else Advance(t.(history := AddLine(t.history, MaxGuessesReached)), now)
    else if OwnColour(role, kind) then
      if won then EndGame(RecordStanding(t)) else t
    else
      if won then EndGame(RecordStanding(t)) else Advance(t, now)
  }

  /**
   * choose_word. `viaButton` says whether a button interaction came with the
   * call; `confirmation` is the user's guess-confirmation setting.
   */
  function ChooseWord(s: GameState, word: string, u: UserId, viaButton: bool, confirmed: bool,
                      confirmation: OnOff, name: string, now: int): Result<Move>
    requires HasEveryRole(s.roles) && |s.turnOrder| > 0
    requires GetCard(s.cards, word).Some?
  {
    var k := GetCard(s.cards, word).value;
    var card := s.cards[k];
    if s.finished then
      if card.kind != AssassinCard then Err(GameOver)
      else Ok(Move(Rematch(Players(s.roles)), s))
    else match UserRole(s.roles, u)
      case None => Err(UnknownUser(u))
      case Some(role) =>
        if role != s.turnOrder[0] then Err(NotYourTurn)
        else if viaButton && IsSpymaster(role) then Ok(Move(ClueForm, s))
        else if !confirmed && confirmation == On then Ok(Move(AskConfirmation(card.word), s))
        else PickCard(s, k, role, name, now)
  }

  /**
   * choose_word once every check has passed: an already guessed card ends the
   * turn (after at least one guess), any other card is guessed.
   */
  function PickCard(s: GameState, k: nat, role: Role, name: string, now: int): Result<Move>
    requires k < |s.cards| && |s.turnOrder| > 0
  {
    if s.cards[k].tapped then
      if s.guessCount == 0 then Err(NoGuessYet)
      else Ok(Move(Played, Advance(s.(history := AddLine(s.history, FinishedGuessing(name))), now)))
    else Ok(Move(Played, Guess(s, k, role, name, now)))
  }

  /** get_cards_left_string: the cards each team still has to find, red first. */
  function CardsLeft(cards: seq<Card>, start: Team, t: Team): int
  {
    TeamTotal(t, start) - TappedCount(cards, TeamCard(t))
  }

  function CardsLeftString(cards: seq<Card>, start: Team): string
  {
    Show(CardsLeft(cards, start, Red)) + " - " + Show(CardsLeft(cards, start, Blue))
  }

  // ---------------------------------------------------------------------
  // Turn order

  /** Moving the front of a rotation to the back rotates one step further. */
  lemma RotateStep<T>(o: seq<T>, k: nat)
    requires k < |o|
    ensures RotateLeft(o, k)[1..] + [RotateLeft(o, k)[0]] == RotateLeft(o, (k + 1) % |o|)
  {
    var r := RotateLeft(o, k);
    assert r[0] == o[k];
    assert r[1..] == o[k + 1..] + o[..k];
    assert o[..k] + [o[k]] == o[..k + 1];
    assert r[1..] + [r[0]] == o[k + 1..] + o[..k + 1];
    if k + 1 == |o| {
      var j := (k + 1) % |o|;
      assert j == 0;
      assert o[k + 1..] == [] && o[..k + 1] == o;
      assert o[j..] == o && o[..j] == [];
    } else {
      assert (k + 1) % |o| == k + 1;
    }
  }

  /** The front of a sequence moved to its back, n times over. */
  function Cycle<T>(o: seq<T>, n: nat): (r: seq<T>)
    requires |o| > 0
    ensures |r| == |o|
  {
    if n == 0 then o else var p := Cycle(o, n - 1); p[1..] + [p[0]]
  }

  /** Moving the front of the four roles to the back n times is a rotation by n modulo 4. */
  lemma {:induction false} CycleRotates<T>(o: seq<T>, n: nat)
    requires |o| == TURN_ROLES
    ensures Cycle(o, n) == RotateLeft(o, n % TURN_ROLES)
  {
    if n == 0 {
      assert RotateLeft(o, 0) == o;
    } else {
      CycleRotates(o, n - 1);
      RotateStep(o, (n - 1) % TURN_ROLES);
      assert ((n - 1) % TURN_ROLES + 1) % TURN_ROLES == n % TURN_ROLES;
    }
  }

  /** next_turn n times moves the front role to the back n times and raises the turn number by n. */
  lemma {:induction false} AdvanceTimesEffect(s: GameState, n: nat, now: int)
    requires |s.turnOrder| > 0
    ensures AdvanceTimes(s, n, now).turnOrder == Cycle(s.turnOrder, n)
    ensures AdvanceTimes(s, n, now).turn == s.turn + n
    ensures n > 0 ==> AdvanceTimes(s, n, now).guessCount == 0
  {
    if n > 0 {
      AdvanceTimesEffect(s, n - 1, now);
    }
  }

  /**
   * The turn order from a game's start: after n calls of next_turn it is the
   * initial order [starting spymaster, starting operative, other spymaster,
   * other operative] rotated left by n mod 4, with the turn number raised by n.
   */
  lemma RepeatedAdvance(s: GameState, n: nat, now: int)
    requires s.turnOrder == InitialOrder(s.startingTeam)
    ensures AdvanceTimes(s, n, now).turnOrder == RotateLeft(InitialOrder(s.startingTeam), n % TURN_ROLES)
    ensures AdvanceTimes(s, n, now).turn == s.turn + n
    ensures n > 0 ==> AdvanceTimes(s, n, now).guessCount == 0
  {
    AdvanceTimesEffect(s, n, now);
    CycleRotates(s.turnOrder, n);
  }

  // ---------------------------------------------------------------------
  // Players and roles

  /** In a filled role map, get_user_role finds exactly the role the user holds. */
  lemma UserRoleHeld(roles: map<Role, UserId>, u: UserId, r: Role)
    requires RolesFilled(roles)
    ensures UserRole(roles, u) == Some(r) <==> roles[r] == u
  {
    assert ROLE_ORDER[0] == RedSpymaster && ROLE_ORDER[1] == RedOperative;
    assert ROLE_ORDER[2] == BlueSpymaster && ROLE_ORDER[3] == BlueOperative;
    var i :| 0 <= i < |ROLE_ORDER| && ROLE_ORDER[i] == r;
  }

  /** get_user_role fails exactly for a user who holds no role. */
  lemma UserRoleMissing(roles: map<Role, UserId>, u: UserId)
    requires HasEveryRole(roles)
    ensures UserRole(roles, u).None? <==> forall r: Role :: roles[r] != u
  {
    assert ROLE_ORDER[0] == RedSpymaster && ROLE_ORDER[1] == RedOperative;
    assert ROLE_ORDER[2] == BlueSpymaster && ROLE_ORDER[3] == BlueOperative;
    if UserRole(roles, u).None? {
      forall r: Role
        ensures roles[r] != u
      {
        var i :| 0 <= i < |ROLE_ORDER| && ROLE_ORDER[i] == r;
      }
    }
  }

  /** The rematch invitation goes to the four players, one per role. */
  lemma PlayersAreRoleHolders(roles: map<Role, UserId>)
    requires RolesFilled(roles)
    ensures |Players(roles)| == 4 && Distinct(Players(roles))
    ensures forall r: Role :: roles[r] in Players(roles)
    ensures forall i :: 0 <= i < |Players(roles)| ==> Players(roles)[i] > 0
  {
  }

  // ---------------------------------------------------------------------
  // next_turn

  /** Narrating and setting the clue amount touch nothing the consistency of a game depends on. */
  lemma NarrationKeepsValid(s: GameState, h: map<Role, seq<Line>>, clueAmount: int)
    requires ValidState(s) && h.Keys == s.history.Keys
    ensures ValidState(s.(history := h, clueAmount := clueAmount))
  {
  }

  /**
   * One more turn rotates the order one step further, and the role then at
   * the front is the one the turn number points at. The next turn number and
   * order are parameters so that callers can hand in their own terms for them.
   */
  lemma ValidTurnStep(start: Team, turn: int, order: seq<Role>, next: int, nextOrder: seq<Role>)
    requires ValidTurn(start, turn, order)
    requires next == turn + 1 && |order| > 0 && nextOrder == order[1..] + [order[0]]
    ensures ValidTurn(start, next, nextOrder)
    ensures nextOrder[0] == InitialOrder(start)[turn % TURN_ROLES]
  {
    var k := (turn - 1) % TURN_ROLES;
    RotateStep(InitialOrder(start), k);
    assert (k + 1) % TURN_ROLES == turn % TURN_ROLES == (next - 1) % TURN_ROLES;
    ValidTurnHead(start, next, nextOrder);
  }

  /** The head of a rotation of four roles by k is the k-th role. */
  lemma ValidTurnHead(start: Team, turn: int, order: seq<Role>)
    requires ValidTurn(start, turn, order)
    ensures |order| == TURN_ROLES
    ensures order[0] == InitialOrder(start)[(turn - 1) % TURN_ROLES]
  {
    var o := InitialOrder(start);
    var k := (turn - 1) % TURN_ROLES;
    assert order == o[k..] + o[..k];
  }

  /** Turn t belongs to the k-th role of the order, k = (t - 1) mod 4: spymasters on odd turns, the starting team on turns 1 and 2 mod 4. */
  lemma TurnPhase(turn: int)
    ensures var k := (turn - 1) % TURN_ROLES;
      && (turn % 2 == 1 <==> k % 2 == 0)
      && (turn % 4 == 1 || turn % 4 == 2 <==> k < 2)
  {
    var k := (turn - 1) % TURN_ROLES;
    var q := (turn - 1) / TURN_ROLES;
    assert turn == 4 * q + k + 1;
    if k == 0 {
      RemainderOf4(turn, q, 1);
      RemainderOf2(turn, 2 * q, 1);
    } else if k == 1 {
      RemainderOf4(turn, q, 2);
      RemainderOf2(turn, 2 * q + 1, 0);
    } else if k == 2 {
      RemainderOf4(turn, q, 3);
      RemainderOf2(turn, 2 * q + 1, 1);
    } else {
      RemainderOf4(turn, q + 1, 0);
      RemainderOf2(turn, 2 * q + 2, 0);
    }
  }

  /** The remainder of x by 4 is r when x is four times q plus r. */
  lemma RemainderOf4(x: int, q: int, r: int)
    requires x == 4 * q + r && 0 <= r < 4
    ensures x % 4 == r
  {
  }

  /** The remainder of x by 2 is r when x is twice q plus r. */
  lemma RemainderOf2(x: int, q: int, r: int)
    requires x == 2 * q + r && 0 <= r < 2
    ensures x % 2 == r
  {
  }

  /** The initial order alternates spymaster and operative, the starting team first. */
  lemma InitialOrderRoles(start: Team, k: nat)
    requires k < TURN_ROLES
    ensures IsSpymaster(InitialOrder(start)[k]) <==> k % 2 == 0
    ensures TeamOf(InitialOrder(start)[k]) == start <==> k < 2
  {
  }

  /** next_turn keeps a running game consistent and hands the turn to the next role of the initial order. */
  lemma AdvanceKeepsValid(s: GameState, now: int)
    requires ValidState(s)
    ensures ValidState(Advance(s, now))
    ensures Advance(s, now).turnOrder[0] == InitialOrder(s.startingTeam)[s.turn % TURN_ROLES]
    ensures forall r: Role :: Advance(s, now).history[r] == []
  {
    ValidTurnHead(s.startingTeam, s.turn, s.turnOrder);
    var t := Advance(s, now);
    ValidTurnStep(s.startingTeam, s.turn, s.turnOrder, t.turn, t.turnOrder);
    FreshHistories(s.history);
    ValidFromParts(t);
  }

  /** next_turn's fresh histories: every role is kept, with nothing narrated yet. */
  lemma FreshHistories(h: map<Role, seq<Line>>)
    requires HasEveryRole(h)
    ensures HasEveryRole(ClearHistory(h))
    ensures forall r: Role :: ClearHistory(h)[r] == []
  {
  }

  /** A game is consistent when its four parts are. */
  lemma ValidFromParts(s: GameState)
    requires ValidPlay(s.roles, s.startingTeam, s.maxWordLength, s.cards, s.finished)
    requires ValidTurn(s.startingTeam, s.turn, s.turnOrder)
    requires HasEveryRole(s.history) && s.guessCount >= 0
    ensures ValidState(s)
  {
  }

  /** In a running game the current role is fixed by the turn number. */
  lemma CurrentRoleByTurn(s: GameState)
    requires ValidState(s)
    ensures s.turnOrder[0] == InitialOrder(s.startingTeam)[(s.turn - 1) % TURN_ROLES]
    ensures s.turn % 2 == 1 <==> IsSpymaster(s.turnOrder[0])
    ensures s.turn % 4 == 1 || s.turn % 4 == 2 <==> TeamOf(s.turnOrder[0]) == s.startingTeam
  {
    ValidTurnHead(s.startingTeam, s.turn, s.turnOrder);
    TurnPhase(s.turn);
    InitialOrderRoles(s.startingTeam, (s.turn - 1) % TURN_ROLES);
  }

  // ---------------------------------------------------------------------
  // is_game_finished and the cards left

  /** A team colour on a board has exactly as many cards as the team has to find. */
  lemma TeamCount(cards: seq<Card>, start: Team, t: Team)
    requires IsBoard(cards, start)
    ensures Count(cards, TeamCard(t)) == TeamTotal(t, start)
  {
    if t != start {
      assert t == Other(start);
    }
  }

  /** A team has found all its cards exactly when none of its cards is left untapped. */
  lemma TeamFound(cards: seq<Card>, start: Team, t: Team)
    requires IsBoard(cards, start)
    ensures TappedCount(cards, TeamCard(t)) <= TeamTotal(t, start)
    ensures TappedCount(cards, TeamCard(t)) == TeamTotal(t, start)
            <==> forall i :: 0 <= i < |cards| && cards[i].kind == TeamCard(t) ==> cards[i].tapped
  {
    TeamCount(cards, start, t);
    TappedAtMostCount(cards, TeamCard(t));
    TappedAll(cards, TeamCard(t));
  }

  /**
   * The meaning of is_game_finished on a board: a guessed assassin decides the
   * game whatever the counts say; otherwise a team has won when every card of
   * its colour is guessed, red being looked at first; and the game goes on
   * exactly when no assassin is guessed and both teams still have a card left.
   */
  lemma StandingMeaning(cards: seq<Card>, start: Team)
    requires IsBoard(cards, start)
    ensures GameStanding(cards, start) == AssassinFound <==> AssassinRevealed(cards)
    ensures forall t: Team :: GameStanding(cards, start) == AllGuessed(t) ==>
              && !AssassinRevealed(cards)
              && (forall i :: 0 <= i < |cards| && cards[i].kind == TeamCard(t) ==> cards[i].tapped)
    ensures GameStanding(cards, start) == AllGuessed(Blue) ==>
              exists i :: 0 <= i < |cards| && cards[i].kind == RedCard && !cards[i].tapped
    ensures GameStanding(cards, start) == Undecided <==>
              && !AssassinRevealed(cards)
              && (exists i :: 0 <= i < |cards| && cards[i].kind == RedCard && !cards[i].tapped)
              && (exists i :: 0 <= i < |cards| && cards[i].kind == BlueCard && !cards[i].tapped)
  {
    TeamFound(cards, start, Red);
    TeamFound(cards, start, Blue);
  }

  /** get_cards_left_string's numbers: how many cards of the team are not yet guessed. */
  lemma CardsLeftBounds(cards: seq<Card>, start: Team, t: Team)
    requires IsBoard(cards, start)
    ensures 0 <= CardsLeft(cards, start, t) <= TeamTotal(t, start)
    ensures CardsLeft(cards, start, t) == 0
            <==> forall i :: 0 <= i < |cards| && cards[i].kind == TeamCard(t) ==> cards[i].tapped
  {
    TeamFound(cards, start, t);
  }

  /** On a fresh board nobody has won yet and each team has all its cards to find. */
  lemma FreshBoardUndecided(cards: seq<Card>, start: Team)
    requires IsFreshBoard(cards, start)
    ensures GameStanding(cards, start) == Undecided
    ensures CardsLeft(cards, start, start) == FIRST_TEAM_CARDS
    ensures CardsLeft(cards, start, Other(start)) == SECOND_TEAM_CARDS
  {
    UntappedCountsZero(cards, RedCard);
    UntappedCountsZero(cards, BlueCard);
  }

  // ---------------------------------------------------------------------
  // give_clue

  /**
   * give_clue's guards: an unknown user, a user whose role is not the current
   * one (whatever that role is) and a number `int()` rejects are refused, in
   * that order; any integer, negative ones included, is accepted.
   */
  lemma GiveClueGuards(s: GameState, u: UserId, clue: string, number: string, name: string, now: int)
    requires RolesFilled(s.roles) && |s.turnOrder| > 0
    ensures GiveClue(s, u, clue, number, name, now) == Err(UnknownUser(u)) <==> forall r: Role :: s.roles[r] != u
    ensures GiveClue(s, u, clue, number, name, now) == Err(NotYourTurn)
            <==> (exists r: Role :: s.roles[r] == u) && s.roles[s.turnOrder[0]] != u
    ensures GiveClue(s, u, clue, number, name, now) == Err(InvalidNumber(number))
            <==> s.roles[s.turnOrder[0]] == u && ParseInt(number).None?
    ensures GiveClue(s, u, clue, number, name, now).Ok?
            <==> s.roles[s.turnOrder[0]] == u && ParseInt(number).Some?
  {
    UserRoleMissing(s.roles, u);
    UserRoleHeld(s.roles, u, s.turnOrder[0]);
    if UserRole(s.roles, u).Some? {
      UserRoleHeld(s.roles, u, UserRole(s.roles, u).value);
    }
  }

  /**
   * An accepted clue sets the clue amount to the parsed number and then ends
   * the turn: the guess count is reset, the next role of the order is on, the
   * board is untouched and every role's history starts anew.
   */
  lemma GiveClueAdvances(s: GameState, u: UserId, clue: string, number: string, name: string, now: int)
    requires ValidState(s)
    requires GiveClue(s, u, clue, number, name, now).Ok?
    ensures var t := GiveClue(s, u, clue, number, name, now).value;
      && ValidState(t)
      && t.clueAmount == ParseInt(number).value
      && t.guessCount == 0
      && t.turn == s.turn + 1
      && t.turnOrder == s.turnOrder[1..] + [s.turnOrder[0]]
      && t.cards == s.cards && t.finished == s.finished
      && (forall r: Role :: t.history[r] == [])
  {
    GiveClueGuards(s, u, clue, number, name, now);
    GiveClueAccepted(s, u, clue, number, name, now);
    var n := ParseInt(number).value;
    var line := ClueGiven(name, TeamOf(s.turnOrder[0]), Upper(clue), n);
    var told := s.(history := AddLine(s.history, line), clueAmount := n);
    NarrationKeepsValid(s, AddLine(s.history, line), n);
    AdvanceKeepsValid(told, now);
  }

  /** An accepted clue is narrated to every role, sets the clue amount, and ends the turn. */
  lemma GiveClueAccepted(s: GameState, u: UserId, clue: string, number: string, name: string, now: int)
    requires RolesFilled(s.roles) && |s.turnOrder| > 0
    requires s.roles[s.turnOrder[0]] == u && ParseInt(number).Some?
    ensures GiveClue(s, u, clue, number, name, now)
            == Ok(Advance(s.(history := AddLine(s.history, ClueGiven(name, TeamOf(s.turnOrder[0]), Upper(clue), ParseInt(number).value)),
                             clueAmount := ParseInt(number).value), now))
  {
    UserRoleHeld(s.roles, u, s.turnOrder[0]);
  }

  // ---------------------------------------------------------------------
  // choose_word

  /**
   * On a finished game only the assassin card answers, with a rematch offer to
   * the four players; the game itself is not changed.
   */
  lemma ChooseWordWhenFinished(s: GameState, word: string, u: UserId, viaButton: bool, confirmed: bool,
                               confirmation: OnOff, name: string, now: int)
    requires HasEveryRole(s.roles) && |s.turnOrder| > 0
    requires GetCard(s.cards, word).Some? && s.finished
    ensures var r := ChooseWord(s, word, u, viaButton, confirmed, confirmation, name, now);
      && (s.cards[GetCard(s.cards, word).value].kind != AssassinCard ==> r == Err(GameOver))
      && (s.cards[GetCard(s.cards, word).value].kind == AssassinCard ==>
            r.Ok? && r.value.reply.Rematch? && r.value.after == s)
  {
  }

  /**
   * choose_word's guards on a running game: an unknown user and a user whose
   * role is not the current one are refused, and the game changes only when
   * the current player picks a card, outside the spymaster's button press and
   * past the confirmation question.
   */
  lemma ChooseWordGuards(s: GameState, word: string, u: UserId, viaButton: bool, confirmed: bool,
                         confirmation: OnOff, name: string, now: int)
    requires RolesFilled(s.roles) && |s.turnOrder| > 0 && !s.finished
    requires GetCard(s.cards, word).Some?
    ensures var r := ChooseWord(s, word, u, viaButton, confirmed, confirmation, name, now);
      && (r == Err(UnknownUser(u)) <==> forall q: Role :: s.roles[q] != u)
      && (r == Err(NotYourTurn) <==> (exists q: Role :: s.roles[q] == u) && s.roles[s.turnOrder[0]] != u)
      && (r.Ok? && r.value.after != s ==>
            && s.roles[s.turnOrder[0]] == u
            && !(viaButton && IsSpymaster(s.turnOrder[0]))
            && (confirmed || confirmation == Off))
  {
    UserRoleMissing(s.roles, u);
    UserRoleHeld(s.roles, u, s.turnOrder[0]);
    if UserRole(s.roles, u).Some? {
      UserRoleHeld(s.roles, u, UserRole(s.roles, u).value);
    }
  }

  /** The current player, past the guards, picking a card (the case ChooseWordGuards leaves open). */
  predicate PlaysCard(s: GameState, u: UserId, viaButton: bool, confirmed: bool, confirmation: OnOff)
    requires HasEveryRole(s.roles) && |s.turnOrder| > 0
  {
    && !s.finished
    && s.roles[s.turnOrder[0]] == u
    && !(viaButton && IsSpymaster(s.turnOrder[0]))
    && (confirmed || confirmation == Off)
  }

  /**
   * Picking an already guessed card ends the turn without tapping anything, but
   * only after at least one guess this turn.
   */
  lemma ChooseTappedCard(s: GameState, word: string, u: UserId, viaButton: bool, confirmed: bool,
                         confirmation: OnOff, name: string, now: int)
    requires ValidState(s) && PlaysCard(s, u, viaButton, confirmed, confirmation)
    requires GetCard(s.cards, word).Some? && s.cards[GetCard(s.cards, word).value].tapped
    ensures var r := ChooseWord(s, word, u, viaButton, confirmed, confirmation, name, now);
      && (s.guessCount == 0 ==> r == Err(NoGuessYet))
      && (s.guessCount > 0 ==>
            && r.Ok? && ValidState(r.value.after)
            && r.value.after.cards == s.cards
            && r.value.after.guessCount == 0
            && r.value.after.turn == s.turn + 1
            && r.value.after.turnOrder == s.turnOrder[1..] + [s.turnOrder[0]])
  {
    ChooseReachesPick(s, word, u, viaButton, confirmed, confirmation, name, now);
    PickTappedCard(s, GetCard(s.cards, word).value, s.turnOrder[0], name, now);
  }

  /** Past every guard, choose_word is the pick of the named card by the current role. */
  lemma ChooseReachesPick(s: GameState, word: string, u: UserId, viaButton: bool, confirmed: bool,
                          confirmation: OnOff, name: string, now: int)
    requires RolesFilled(s.roles) && |s.turnOrder| > 0 && PlaysCard(s, u, viaButton, confirmed, confirmation)
    requires GetCard(s.cards, word).Some?
    ensures ChooseWord(s, word, u, viaButton, confirmed, confirmation, name, now)
            == PickCard(s, GetCard(s.cards, word).value, s.turnOrder[0], name, now)
  {
    UserRoleHeld(s.roles, u, s.turnOrder[0]);
  }

  /** Picking a guessed card: refused before the first guess, else the turn passes with the board unchanged. */
  lemma PickTappedCard(s: GameState, k: nat, role: Role, name: string, now: int)
    requires ValidState(s) && k < |s.cards| && s.cards[k].tapped
    ensures var r := PickCard(s, k, role, name, now);
      && (s.guessCount == 0 ==> r == Err(NoGuessYet))
      && (s.guessCount > 0 ==>
            && r.Ok? && ValidState(r.value.after)
            && r.value.after.cards == s.cards
            && r.value.after.guessCount == 0
            && r.value.after.turn == s.turn + 1
            && r.value.after.turnOrder == s.turnOrder[1..] + [s.turnOrder[0]])
  {
    var told := s.(history := AddLine(s.history, FinishedGuessing(name)));
    NarrationKeepsValid(s, told.history, s.clueAmount);
    AdvanceKeepsValid(told, now);
  }

  /** Picking a card not yet guessed is a guess by the current role. */
  lemma ChooseUntappedCard(s: GameState, word: string, u: UserId, viaButton: bool, confirmed: bool,
                           confirmation: OnOff, name: string, now: int)
    requires ValidState(s) && PlaysCard(s, u, viaButton, confirmed, confirmation)
    requires GetCard(s.cards, word).Some? && !s.cards[GetCard(s.cards, word).value].tapped
    ensures ChooseWord(s, word, u, viaButton, confirmed, confirmation, name, now)
            == Ok(Move(Played, Guess(s, GetCard(s.cards, word).value, s.turnOrder[0], name, now)))
  {
    ChooseReachesPick(s, word, u, viaButton, confirmed, confirmation, name, now);
  }

  // ---------------------------------------------------------------------
  // A guess

  /** Tapping a card keeps the board and its word lengths; the game stays consistent once `finished` is brought up to date. */
  lemma TapKeepsValid(s: GameState, k: nat, name: string)
    requires ValidState(s) && k < |s.cards|
    ensures var t := Tapped(s, k, name);
      ValidState(t.(finished := GameStanding(t.cards, t.startingTeam) != Undecided))
  {
    var t := Tapped(s, k, name);
    TapKeepsBoard(s.cards, k, s.startingTeam);
    SameWordsSameMax(s.cards, t.cards, s.maxWordLength);
    assert t.history.Keys == s.history.Keys;
    var u := t.(finished := GameStanding(t.cards, t.startingTeam) != Undecided);
    NewBoardKeepsValid(s, u);
  }

  /** A game that differs from a consistent one only in its board, counters and narration is consistent when they are. */
  lemma NewBoardKeepsValid(s: GameState, u: GameState)
    requires ValidState(s)
    requires u.roles == s.roles && u.startingTeam == s.startingTeam && u.maxWordLength == s.maxWordLength
    requires u.turn == s.turn && u.turnOrder == s.turnOrder && u.guessCount >= 0
    requires IsBoard(u.cards, u.startingTeam) && IsMaxWordLength(u.cards, u.maxWordLength)
    requires HasEveryRole(u.history)
    requires u.finished <==> GameStanding(u.cards, u.startingTeam) != Undecided
    ensures ValidState(u)
  {
  }

  lemma SameWordsSameMax(a: seq<Card>, b: seq<Card>, m: nat)
    requires |a| == |b| && (forall i :: 0 <= i < |a| ==> a[i].word == b[i].word)
    requires IsMaxWordLength(a, m)
    ensures IsMaxWordLength(b, m)
  {
    if |a| > 0 {
      var i :| 0 <= i < |a| && |a[i].word| == m;
      assert |b[i].word| == m;
    }
  }

  /**
   * A guess that decides the game ends it on the spot: no turn change, the
   * guess, the verdict and the end-of-game line narrated to every role; a
   * guessed assassin is always the verdict, and the other team wins when an
   * operative picked it.
   */
  lemma GuessWins(s: GameState, k: nat, role: Role, name: string, now: int)
    requires ValidState(s) && !s.finished && k < |s.cards| && !s.cards[k].tapped
    requires GameStanding(Tapped(s, k, name).cards, s.startingTeam) != Undecided
    ensures var g := Guess(s, k, role, name, now);
      var st := GameStanding(g.cards, s.startingTeam);
      && ValidState(g) && g.finished
      && g.cards == s.cards[k := s.cards[k].(tapped := true)]
      && g.turn == s.turn && g.turnOrder == s.turnOrder && g.guessCount == s.guessCount + 1
      && (forall r: Role :: g.history[r] == s.history[r] + [Guessed(name, s.cards[k].word, s.cards[k].kind), StandingLine(st, s.turnOrder[0]), GameEnded])
      && (s.cards[k].kind == AssassinCard ==> st == AssassinFound)
      && (st == AssassinFound && !IsSpymaster(s.turnOrder[0]) ==>
            StandingLine(st, s.turnOrder[0]) == AssassinPicked(Other(TeamOf(s.turnOrder[0]))))
  {
    var t := Tapped(s, k, name);
    GuessDecided(s, k, role, name, now);
    DecidedByTap(s, k, name);
    if s.cards[k].kind == AssassinCard {
      assert t.cards[k].tapped && t.cards[k].kind == AssassinCard;
    }
  }

  /** The game a deciding tap leaves behind: consistent, finished, and narrated with guess, verdict and end. */
  lemma DecidedByTap(s: GameState, k: nat, name: string)
    requires ValidState(s) && k < |s.cards| && !s.cards[k].tapped
    requires GameStanding(Tapped(s, k, name).cards, s.startingTeam) != Undecided
    ensures var g := EndGame(RecordStanding(Tapped(s, k, name)));
      var st := GameStanding(g.cards, s.startingTeam);
      && ValidState(g) && g.finished
      && g.cards == s.cards[k := s.cards[k].(tapped := true)]
      && g.turn == s.turn && g.turnOrder == s.turnOrder && g.guessCount == s.guessCount + 1
      && (forall r: Role :: g.history[r] == s.history[r] + [Guessed(name, s.cards[k].word, s.cards[k].kind), StandingLine(st, s.turnOrder[0]), GameEnded])
  {
    var t := Tapped(s, k, name);
    var st := GameStanding(t.cards, s.startingTeam);
    DecidedStaysValid(s, k, name);
    EndingNarration(s.history, Guessed(name, s.cards[k].word, s.cards[k].kind), StandingLine(st, s.turnOrder[0]));
  }

  lemma DecidedStaysValid(s: GameState, k: nat, name: string)
    requires ValidState(s) && k < |s.cards| && !s.cards[k].tapped
    requires GameStanding(Tapped(s, k, name).cards, s.startingTeam) != Undecided
    ensures ValidState(EndGame(RecordStanding(Tapped(s, k, name))))
  {
    var t := Tapped(s, k, name);
    var g := EndGame(RecordStanding(t));
    TapKeepsBoard(s.cards, k, s.startingTeam);
    SameWordsSameMax(s.cards, t.cards, s.maxWordLength);
    NewBoardKeepsValid(s, g);
  }

  /** After a deciding tap every branch ends the game the same way. */
  lemma ResolveDecided(t: GameState, kind: CardType, role: Role, now: int)
    requires |t.turnOrder| > 0 && GameStanding(t.cards, t.startingTeam) != Undecided
    ensures Resolve(t, kind, role, now) == EndGame(RecordStanding(t))
  {
  }

  /** After a tap that decides nothing the turn ends or the player goes on, and is_game_finished narrates nothing. */
  lemma ResolveUndecided(t: GameState, kind: CardType, role: Role, now: int)
    requires |t.turnOrder| > 0 && GameStanding(t.cards, t.startingTeam) == Undecided
    ensures RecordStanding(t) == t
    ensures Resolve(t, kind, role, now)
            == if OverBudget(t.clueAmount, t.guessCount) then Advance(t.(history := AddLine(t.history, MaxGuessesReached)), now)
               else if OwnColour(role, kind) then t
               else Advance(t, now)
  {
  }

  /** Every branch of choose_word that finds the game decided ends it the same way. */
  lemma GuessDecided(s: GameState, k: nat, role: Role, name: string, now: int)
    requires k < |s.cards| && |s.turnOrder| > 0
    requires GameStanding(Tapped(s, k, name).cards, s.startingTeam) != Undecided
    ensures Guess(s, k, role, name, now) == EndGame(RecordStanding(Tapped(s, k, name)))
  {
  }

  /** Every branch of choose_word that finds the game undecided ends the turn or lets the player go on. */
  lemma GuessUndecided(s: GameState, k: nat, role: Role, name: string, now: int)
    requires k < |s.cards| && |s.turnOrder| > 0
    requires GameStanding(Tapped(s, k, name).cards, s.startingTeam) == Undecided
    ensures var t := Tapped(s, k, name);
      Guess(s, k, role, name, now)
      == if OverBudget(t.clueAmount, t.guessCount) then Advance(t.(history := AddLine(t.history, MaxGuessesReached)), now)
         else if OwnColour(role, s.cards[k].kind) then t
         else Advance(t, now)
  {
  }

  /** The three lines every role reads at the end of a game decided by a guess. */
  lemma EndingNarration(h: map<Role, seq<Line>>, guessed: Line, verdict: Line)
    requires HasEveryRole(h)
    ensures forall r: Role :: AddLine(AddLine(AddLine(h, guessed), verdict), GameEnded)[r] == h[r] + [guessed, verdict, GameEnded]
  {
  }

  /**
   * A guess that leaves the game undecided ends the turn when it spent the
   * clue's budget or hit a card that is not the guesser's colour.
   */
  lemma GuessEndsTurn(s: GameState, k: nat, role: Role, name: string, now: int)
    requires ValidState(s) && !s.finished && k < |s.cards| && !s.cards[k].tapped
    requires GameStanding(Tapped(s, k, name).cards, s.startingTeam) == Undecided
    requires OverBudget(s.clueAmount, s.guessCount + 1) || !OwnColour(role, s.cards[k].kind)
    ensures var g := Guess(s, k, role, name, now);
      && ValidState(g) && !g.finished
      && g.cards == s.cards[k := s.cards[k].(tapped := true)]
      && g.guessCount == 0 && g.turn == s.turn + 1
      && g.turnOrder == s.turnOrder[1..] + [s.turnOrder[0]]
      && (forall r: Role :: g.history[r] == [])
  {
    TapKeepsValid(s, k, name);
    var t := Tapped(s, k, name);
    if OverBudget(t.clueAmount, t.guessCount) {
      NarrationKeepsValid(t, AddLine(t.history, MaxGuessesReached), t.clueAmount);
      AdvanceKeepsValid(t.(history := AddLine(t.history, MaxGuessesReached)), now);
    } else {
      AdvanceKeepsValid(t, now);
    }
  }

  /** A guess of one's own colour within the budget that decides nothing lets the same player go on. */
  lemma GuessContinues(s: GameState, k: nat, role: Role, name: string, now: int)
    requires ValidState(s) && !s.finished && k < |s.cards| && !s.cards[k].tapped
    requires GameStanding(Tapped(s, k, name).cards, s.startingTeam) == Undecided
    requires !OverBudget(s.clueAmount, s.guessCount + 1) && OwnColour(role, s.cards[k].kind)
    ensures var g := Guess(s, k, role, name, now);
      && ValidState(g) && !g.finished
      && g.cards == s.cards[k := s.cards[k].(tapped := true)]
      && g.guessCount == s.guessCount + 1 && g.turn == s.turn && g.turnOrder == s.turnOrder
      && (forall r: Role :: g.history[r] == s.history[r] + [Guessed(name, s.cards[k].word, s.cards[k].kind)])
  {
    TapKeepsValid(s, k, name);
  }

  /** Whatever a guess leads to, a running game stays consistent. */
  lemma GuessKeepsValid(s: GameState, k: nat, role: Role, name: string, now: int)
    requires ValidState(s) && !s.finished && k < |s.cards| && !s.cards[k].tapped
    ensures ValidState(Guess(s, k, role, name, now))
  {
    if GameStanding(Tapped(s, k, name).cards, s.startingTeam) != Undecided {
      GuessWins(s, k, role, name, now);
    } else if OverBudget(s.clueAmount, s.guessCount + 1) || !OwnColour(role, s.cards[k].kind) {
      GuessEndsTurn(s, k, role, name, now);
    } else {
      GuessContinues(s, k, role, name, now);
    }
  }

  /** The end of choose_word keeps a running game consistent. */
  lemma PickCardKeepsValid(s: GameState, k: nat, role: Role, name: string, now: int)
    requires ValidState(s) && !s.finished && k < |s.cards|
    ensures PickCard(s, k, role, name, now).Ok? ==> ValidState(PickCard(s, k, role, name, now).value.after)
  {
    if s.cards[k].tapped {
      AdvanceKeepsValid(s.(history := AddLine(s.history, FinishedGuessing(name))), now);
    } else {
      GuessKeepsValid(s, k, role, name, now);
    }
  }
}
