/**
 * The Game object: the turn engine of `Engine` with its state held in fields
 * that the actions update in place, as the original object does. Each action
 * is proved to leave the object in the state the corresponding `Engine`
 * function computes, so the rules proved there hold of the object.
 */
module GameObject {
  import opened Common
  import opened Draw
  import opened PyText
  import opened Board
  import opened Engine

  /** The histories once add_history has reached the roles of rs. */
  function AddLineTo(h: map<Role, seq<Line>>, line: Line, rs: seq<Role>): map<Role, seq<Line>>
  {
    map r | r in h :: if r in rs then h[r] + [line] else h[r]
  }

  lemma AddLineToStep(h: map<Role, seq<Line>>, line: Line, rs: seq<Role>, x: Role)
    requires x in h && x !in rs
    ensures AddLineTo(h, line, rs + [x]) == AddLineTo(h, line, rs)[x := h[x] + [line]]
  {
    var a := AddLineTo(h, line, rs + [x]);
    var b := AddLineTo(h, line, rs)[x := h[x] + [line]];
    assert a.Keys == b.Keys;
    forall r | r in a
      ensures a[r] == b[r]
    {
    }
  }

  lemma AddLineToAll(h: map<Role, seq<Line>>, line: Line)
    ensures AddLineTo(h, line, ROLE_ORDER) == AddLine(h, line)
  {
    RoleOrderDistinct();
  }

  /** The histories once the roles of rs have been sent their new messages. */
  function ClearFor(h: map<Role, seq<Line>>, rs: seq<Role>): map<Role, seq<Line>>
  {
    map r | r in h :: if r in rs then [] else h[r]
  }

  lemma ClearForStep(h: map<Role, seq<Line>>, rs: seq<Role>, x: Role)
    requires x in h
    ensures ClearFor(h, rs + [x]) == ClearFor(h, rs)[x := []]
  {
    var a := ClearFor(h, rs + [x]);
    var b := ClearFor(h, rs)[x := []];
    assert a.Keys == b.Keys;
    forall r | r in a
      ensures a[r] == b[r]
    {
    }
  }

  lemma ClearForAll(h: map<Role, seq<Line>>)
    ensures ClearFor(h, ROLE_ORDER) == ClearHistory(h)
  {
    RoleOrderDistinct();
  }

  class Game {
    const roles: map<Role, UserId>
    const startingTeam: Team
    const maxWordLength: nat
    var cards: seq<Card>
    var turnOrder: seq<Role>
    var guessCount: int
    var clueAmount: int
    var turn: int
    var finished: bool
    var history: map<Role, seq<Line>>
    var lastInteraction: int

    function State(): GameState
      reads this
    {
      GameState(roles, startingTeam, maxWordLength, cards, turnOrder, guessCount, clueAmount,
                turn, finished, history, lastInteraction)
    }

    predicate Valid()
      reads this
    {
      ValidState(State())
    }

    /**
     * A new game for the filled role map of a finished setup: the starting
     * team is drawn, the board is dealt from the lexicon and its longest word
     * measured; no one has guessed and no one has been told anything yet.
     */
    constructor(players: map<Role, UserId>, lexicon: seq<string>, startPick: nat, draws: Draws, now: int)
      requires RolesFilled(players)
      requires |lexicon| >= BOARD_SIZE && Distinct(MapSeq(Upper, lexicon))
      ensures Valid()
      ensures roles == players && startingTeam == Choice([Red, Blue], startPick)
      ensures IsFreshBoard(cards, startingTeam)
      ensures forall i :: 0 <= i < |cards| ==> cards[i].word in MapSeq(Upper, lexicon)
      ensures turnOrder == InitialOrder(startingTeam) && turn == 1
      ensures guessCount == 0 && clueAmount == 0 && !finished && lastInteraction == now
      ensures forall r: Role :: r in history && history[r] == []
    {
      var start := Choice([Red, Blue], startPick);
      var dealt := GenerateCards(lexicon, start, draws);
      var longest := GetMaxWordLength(dealt);
      finished := false;
      turn := 1;
      roles := players;
      history := map[RedSpymaster := [], RedOperative := [], BlueSpymaster := [], BlueOperative := []];
      startingTeam := start;
      turnOrder := InitialOrder(start);
      cards := dealt;
      guessCount := 0;
      clueAmount := 0;
      maxWordLength := longest;
      lastInteraction := now;
      new;
      FreshBoardUndecided(dealt, start);
      assert RotateLeft(InitialOrder(start), 0) == InitialOrder(start);
      forall r: Role
        ensures r in history
      {
        match r
        case RedSpymaster =>
        case RedOperative =>
        case BlueSpymaster =>
        case BlueOperative =>
      }
      assert IsBoard(cards, startingTeam) && IsMaxWordLength(cards, maxWordLength);
    }

    /** add_history: the line goes to the end of every role's history, in role order. */
    method AddHistory(line: Line)
      requires HasEveryRole(history)
      modifies this
      ensures history == AddLine(old(history), line)
      ensures State() == old(State()).(history := history)
    {
      RoleOrderDistinct();
      for i := 0 to |ROLE_ORDER|
        invariant history == AddLineTo(old(history), line, ROLE_ORDER[..i])
        invariant State() == old(State()).(history := history)
      {
        var role := ROLE_ORDER[i];
        assert ROLE_ORDER[..i + 1] == ROLE_ORDER[..i] + [role];
        AddLineToStep(old(history), line, ROLE_ORDER[..i], role);
        history := history[role := history[role] + [line]];
      }
      assert ROLE_ORDER[..|ROLE_ORDER|] == ROLE_ORDER;
      AddLineToAll(old(history), line);
    }

    /**
     * The part of send_new_message_to_user that touches the game: each role's
     * history is emptied before that role's new message is rendered.
     */
    method SendNewMessages()
      requires HasEveryRole(history)
      modifies this
      ensures history == ClearHistory(old(history))
      ensures State() == old(State()).(history := history)
    {
      RoleOrderDistinct();
      for i := 0 to |ROLE_ORDER|
        invariant history == ClearFor(old(history), ROLE_ORDER[..i])
        invariant State() == old(State()).(history := history)
      {
        var role := ROLE_ORDER[i];
        assert ROLE_ORDER[..i + 1] == ROLE_ORDER[..i] + [role];
        ClearForStep(old(history), ROLE_ORDER[..i], role);
        history := history[role := []];
      }
      assert ROLE_ORDER[..|ROLE_ORDER|] == ROLE_ORDER;
      ClearForAll(old(history));
    }

    /** get_user_role: the first role, in role order, that the user holds. */
    method GetUserRole(u: UserId) returns (r: Option<Role>)
      requires HasEveryRole(roles)
      ensures r == UserRole(roles, u)
    {
      for i := 0 to |ROLE_ORDER|
        invariant RoleOf(roles, ROLE_ORDER, u) == RoleOf(roles, ROLE_ORDER[i..], u)
      {
        if roles[ROLE_ORDER[i]] == u {
          return Some(ROLE_ORDER[i]);
        }
        assert ROLE_ORDER[i..][1..] == ROLE_ORDER[i + 1..];
      }
      return None;
    }

    /** get_card: the position of the first card showing the word. */
    method GetCard(word: string) returns (k: Option<nat>)
      ensures k == Board.GetCard(cards, word)
    {
      for i := 0 to |cards|
        invariant forall j :: 0 <= j < i ==> cards[j].word != word
      {
        if cards[i].word == word {
          return Some(i);
        }
      }
      return None;
    }

    /**
     * is_game_finished: counts the guessed cards of each team, stopping at a
     * guessed assassin; with `addHistory` the verdict is narrated.
     */
    method IsGameFinished(addHistory: bool) returns (done: bool)
      requires HasEveryRole(history) && |turnOrder| > 0
      modifies this
      ensures done == (GameStanding(cards, startingTeam) != Undecided)
      ensures State() == if addHistory then RecordStanding(old(State())) else old(State())
    {
      var guessedRed := 0;
      var guessedBlue := 0;
      for i := 0 to |cards|
        invariant guessedRed == TappedCount(cards[..i], RedCard)
        invariant guessedBlue == TappedCount(cards[..i], BlueCard)
        invariant forall j :: 0 <= j < i ==> !(cards[j].tapped && cards[j].kind == AssassinCard)
        invariant State() == old(State())
      {
        var card := cards[i];
        assert cards[..i + 1][..i] == cards[..i];
        if card.tapped {
          if card.kind == RedCard {
            guessedRed := guessedRed + 1;
          } else if card.kind == BlueCard {
            guessedBlue := guessedBlue + 1;
          } else if card.kind == AssassinCard {
            var current := turnOrder[0];
            if addHistory {
              if current == RedOperative {
                AddHistory(AssassinPicked(Blue));
              } else {
                AddHistory(AssassinPicked(Red));
              }
            }
            return true;
          }
        }
      }
      assert cards[..|cards|] == cards;
      if startingTeam == Red {
        if guessedRed == 9 {
          if addHistory {
            AddHistory(AllFound(Red));
          }
          return true;
        } else if guessedBlue == 8 {
          if addHistory {
            AddHistory(AllFound(Blue));
          }
          return true;
        }
      } else {
        if guessedRed == 8 {
          if addHistory {
            AddHistory(AllFound(Red));
          }
          return true;
        } else if guessedBlue == 9 {
          if addHistory {
            AddHistory(AllFound(Blue));
          }
          return true;
        }
      }
      return false;
    }

    /** end_game: the game is marked finished and every role is told. */
    method EndGame()
      requires HasEveryRole(history)
      modifies this
      ensures State() == Engine.EndGame(old(State()))
    {
      finished := true;
      AddHistory(GameEnded);
    }

    /**
     * next_turn: the interaction time is taken, the guess count reset, the
     * current role moved to the back, the turn number raised, and fresh
     * messages sent.
     */
    method NextTurn(now: int)
      requires HasEveryRole(history) && |turnOrder| > 0
      modifies this
      ensures State() == Advance(old(State()), now)
    {
      lastInteraction := now;
      guessCount := 0;
      var first := turnOrder[0];
      turnOrder := turnOrder[1..];
      turnOrder := turnOrder + [first];
      turn := turn + 1;
      SendNewMessages();
    }

    /** give_clue. */
    method GiveClue(u: UserId, clue: string, number: string, name: string, now: int) returns (outcome: Outcome)
      requires Valid()
      modifies this
      ensures Valid()
      ensures Engine.GiveClue(old(State()), u, clue, number, name, now)
              == if outcome.Pass? then Ok(State()) else Err(outcome.error)
      ensures outcome.Fail? ==> State() == old(State())
    {
      var role := GetUserRole(u);
      if role.None? {
        return Fail(UnknownUser(u));
      }
      if role.value != turnOrder[0] {
        return Fail(NotYourTurn);
      }
      var upper := Upper(clue);
      var n := ParseInt(number);
      if n.None? {
        return Fail(InvalidNumber(number));
      }
      ghost var s := State();
      UserRoleHeld(roles, u, turnOrder[0]);
      var current := turnOrder[0];
      AnnounceClue(ClueGiven(name, TeamOf(current), upper, n.value), n.value, now);
      GiveClueAccepted(s, u, clue, number, name, now);
      GiveClueAdvances(s, u, clue, number, name, now);
      return Pass;
    }

    /** give_clue once the clue is accepted: it is narrated, its number kept, and the turn ends. */
    method AnnounceClue(line: Line, amount: int, now: int)
      requires HasEveryRole(history) && |turnOrder| > 0
      modifies this
      ensures State() == Advance(old(State()).(history := AddLine(old(history), line), clueAmount := amount), now)
    {
      AddHistory(line);
      clueAmount := amount;
      NextTurn(now);
    }

    /** The tail of choose_word for an untapped card k: the guess and what follows it. */
    method PlayGuess(k: nat, role: Role, name: string, now: int)
      requires HasEveryRole(history) && |turnOrder| > 0 && k < |cards|
      modifies this
      ensures State() == Engine.Guess(old(State()), k, role, name, now)
    {
      ghost var s := old(State());
      var card := cards[k];
      cards := cards[k := card.(tapped := true)];
      guessCount := guessCount + 1;
      AddHistory(Guessed(name, card.word, card.kind));
      assert State() == Tapped(s, k, name);
      ResolveGuess(card.kind, role, now);
    }

    /** The tail of choose_word after the tap of a card of the given kind. */
    method ResolveGuess(kind: CardType, role: Role, now: int)
      requires HasEveryRole(history) && |turnOrder| > 0
      modifies this
      ensures State() == Engine.Resolve(old(State()), kind, role, now)
    {
      ghost var t := State();
      if GameStanding(t.cards, t.startingTeam) != Undecided {
        ResolveDecided(t, kind, role, now);
      } else {
        ResolveUndecided(t, kind, role, now);
      }
      if clueAmount != 0 && guessCount > clueAmount {
        var done := IsGameFinished(true);
        if done {
          EndGame();
          return;
        }
        AddHistory(MaxGuessesReached);
        NextTurn(now);
      } else if role == RedOperative && kind == RedCard {
        var done := IsGameFinished(true);
        if done {
          EndGame();
          return;
        }
      } else if role == BlueOperative && kind == BlueCard {
        var done := IsGameFinished(true);
        if done {
          EndGame();
          return;
        }
      } else {
        var done := IsGameFinished(true);
        if done {
          EndGame();
          return;
        }
        NextTurn(now);
      }
    }

    /**
     * choose_word. `viaButton` says whether the call came with a button
     * interaction; `confirmation` is the user's guess-confirmation setting.
     */
    method ChooseWord(word: string, u: UserId, viaButton: bool, confirmed: bool, confirmation: OnOff,
                      name: string, now: int) returns (reply: Result<Reply>)
      requires Valid() && Board.GetCard(cards, word).Some?
      modifies this
      ensures Valid()
      ensures Engine.ChooseWord(old(State()), word, u, viaButton, confirmed, confirmation, name, now)
              == if reply.Ok? then Ok(Move(reply.value, State())) else Err(reply.error)
      ensures reply.Err? ==> State() == old(State())
    {
      var k := GetCard(word);
      var card := cards[k.value];
      if finished {
        if card.kind != AssassinCard {
          return Err(GameOver);
        }
        return Ok(Rematch(Players(roles)));
      }
      var role := GetUserRole(u);
      if role.None? {
        return Err(UnknownUser(u));
      }
      if role.value != turnOrder[0] {
        return Err(NotYourTurn);
      }
      if viaButton && IsSpymaster(role.value) {
        return Ok(ClueForm);
      }
      if !confirmed && confirmation == On {
        return Ok(AskConfirmation(card.word));
      }
      ghost var s := State();
      PickCardKeepsValid(s, k.value, role.value, name, now);
      reply := PickCard(k.value, role.value, name, now);
    }

    /** The end of choose_word, once every check has passed. */
    method PickCard(k: nat, role: Role, name: string, now: int) returns (reply: Result<Reply>)
      requires HasEveryRole(history) && |turnOrder| > 0 && k < |cards|
      modifies this
      ensures Engine.PickCard(old(State()), k, role, name, now)
              == if reply.Ok? then Ok(Move(reply.value, State())) else Err(reply.error)
      ensures reply.Err? ==> State() == old(State())
    {
      if cards[k].tapped {
        if guessCount == 0 {
          return Err(NoGuessYet);
        }
        AddHistory(FinishedGuessing(name));
        NextTurn(now);
        return Ok(Played);
      }
      PlayGuess(k, role, name, now);
      return Ok(Played);
    }
  }
}
