/**
 * The in-memory side of a game's persistence: the index from Discord message
 * ids to game ids that saving and removing a game update, and the rule that
 * sorts stored games by how long they have been idle.
 */
module Storage {
  /** A Discord message id and a game's uuid. */
  type MessageId = int
  type GameId = string

  /** The message-to-game index. */
  type Index = map<MessageId, GameId>

  /** The index after a save: every message of the game points at it, every other entry is kept. */
  function Saved(index: Index, messages: seq<MessageId>, game: GameId): Index
  {
    map k | k in index.Keys + (set m | m in messages) :: if k in messages then game else index[k]
  }

  /** The index after a removal: the game's messages are gone, every other entry is kept. */
  function Removed(index: Index, messages: seq<MessageId>): Index
  {
    map k | k in index && k !in messages :: index[k]
  }

  /** The loop of save_to_file over the game's messages. */
  method SaveIndex(index: Index, messages: seq<MessageId>, game: GameId) returns (r: Index)
    ensures r == Saved(index, messages, game)
  {
    r := index;
    for i := 0 to |messages|
      invariant r == Saved(index, messages[..i], game)
    {
      assert messages[..i + 1] == messages[..i] + [messages[i]];
      SavedStep(index, messages[..i], messages[i], game);
      r := r[messages[i] := game];
    }
    assert messages[..|messages|] == messages;
  }

  /** Saving one more message is one more map update. */
  lemma SavedStep(index: Index, messages: seq<MessageId>, m: MessageId, game: GameId)
    ensures Saved(index, messages + [m], game) == Saved(index, messages, game)[m := game]
  {
    var a := Saved(index, messages + [m], game);
    var b := Saved(index, messages, game)[m := game];
    forall k | k in a
      ensures k in b && a[k] == b[k]
    {
    }
    assert a.Keys == b.Keys;
  }

  /** The loop of remove_from_file: each message is popped, and a missing one is no error. */
  method RemoveIndex(index: Index, messages: seq<MessageId>) returns (r: Index)
    ensures r == Removed(index, messages)
  {
    r := index;
    for i := 0 to |messages|
      invariant r == Removed(index, messages[..i])
    {
      assert messages[..i + 1] == messages[..i] + [messages[i]];
      RemovedStep(index, messages[..i], messages[i]);
      r := map k | k in r && k != messages[i] :: r[k];
    }
    assert messages[..|messages|] == messages;
  }

  /** Removing one more message drops one more key. */
  lemma RemovedStep(index: Index, messages: seq<MessageId>, m: MessageId)
    ensures Removed(index, messages + [m]) == map k | k in Removed(index, messages) && k != m :: Removed(index, messages)[k]
  {
  }

  /** After a save every message of the game leads to it, and nothing else changes. */
  lemma SavedMeaning(index: Index, messages: seq<MessageId>, game: GameId)
    ensures forall m :: m in messages ==> m in Saved(index, messages, game) && Saved(index, messages, game)[m] == game
    ensures forall k :: k in index && k !in messages ==> k in Saved(index, messages, game) && Saved(index, messages, game)[k] == index[k]
    ensures forall k :: k in Saved(index, messages, game) <==> k in index || k in messages
  {
  }

  /** After a removal no message of the game is indexed, and every other entry is kept. */
  lemma RemovedMeaning(index: Index, messages: seq<MessageId>)
    ensures forall m :: m in messages ==> m !in Removed(index, messages)
    ensures forall k :: k in Removed(index, messages) <==> k in index && k !in messages
    ensures forall k :: k in Removed(index, messages) ==> Removed(index, messages)[k] == index[k]
  {
  }

  /** Removing a game undoes saving it, when none of its messages were indexed before. */
  lemma RemoveUndoesSave(index: Index, messages: seq<MessageId>, game: GameId)
    requires forall m :: m in messages ==> m !in index
    ensures Removed(Saved(index, messages, game), messages) == index
  {
    var r := Removed(Saved(index, messages, game), messages);
    forall k | k in index
      ensures k in r && r[k] == index[k]
    {
      assert k !in messages;
    }
    assert r.Keys == index.Keys;
  }

  /** Saving a game again changes nothing. */
  lemma SaveIdempotent(index: Index, messages: seq<MessageId>, game: GameId)
    ensures Saved(Saved(index, messages, game), messages, game) == Saved(index, messages, game)
  {
  }

  /** Removing one game leaves every other game's messages pointing where they did. */
  lemma RemoveKeepsOtherGames(index: Index, messages: seq<MessageId>, game: GameId, k: MessageId)
    requires forall m :: m in messages ==> m in index ==> index[m] == game
    requires k in index && index[k] != game
    ensures k in Removed(index, messages) && Removed(index, messages)[k] == index[k]
  {
  }

  // ---------------------------------------------------------------------
  // Idle games

  /** One day, in seconds. */
  const DAY := 24 * 60 * 60

  datatype IdleAction = Keep | Warn | Delete

  /**
   * clean_up_old_games, per game and in whole seconds: a game last touched more
   * than two weeks ago is deleted; one whose last touch falls in the day
   * before the twelve-day mark gets a warning; any other is kept.
   */
  function Idle(lastInteraction: int, now: int): IdleAction
  {
    var twoWeeksAgo := now - 14 * DAY;
    var twelveDaysAgo := now - 12 * DAY;
    if lastInteraction < twoWeeksAgo then Delete
    else if 0 < twelveDaysAgo - lastInteraction < DAY then Warn
    else Keep
  }

  /** The classification by idle time: over 14 days deleted, strictly between 12 and 13 days warned, else kept. */
  lemma IdleMeaning(lastInteraction: int, now: int)
    ensures Idle(lastInteraction, now) == Delete <==> now - lastInteraction > 14 * DAY
    ensures Idle(lastInteraction, now) == Warn <==> 12 * DAY < now - lastInteraction < 13 * DAY
    ensures Idle(lastInteraction, now) == Keep <==>
              now - lastInteraction <= 12 * DAY || 13 * DAY <= now - lastInteraction <= 14 * DAY
  {
  }

  /** A game due for deletion stays due as time goes on. */
  lemma IdleDeleteStays(lastInteraction: int, now: int, later: int)
    requires now <= later
    requires Idle(lastInteraction, now) == Delete
    ensures Idle(lastInteraction, later) == Delete
  {
  }
}
