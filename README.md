# Codenames engine, modelled in Dafny

This project models the Codenames game that the Discord bot in
`libraries/codenames.py` runs for four players. The modelled parts are:

- **Setup lobby** (`GameSetup`). Players take one of the four roles (red and
  blue spymaster, red and blue operative) or join a pool with no role. When
  four players are present, the pool is dealt onto the empty roles at random
  and the game starts. The setup messages are deleted only at the end of the
  start, so a join can still reach a lobby that already has four players;
  a newcomer then makes five, and dealing the pool fails when the empty roles
  run out.
- **Board generation** (`Game.generate_cards`). Twenty-five distinct words are
  drawn from the lexicon and upper-cased. The starting team gets nine, the
  other team eight, one word is the assassin and seven are neutral. The cards
  are shuffled, and the turn order starts with the starting team's spymaster.
- **Turn engine** (`Game`).
  - `give_clue` records the clue and its number and passes the turn.
  - `choose_word` guesses a card. Choosing a card that was already guessed
    ends the turn.
  - `is_game_finished` decides the game: the assassin was revealed, or a team's
    cards are all guessed.
  - `end_game` and `next_turn` close the game and rotate the turn order. The
    history of each role is narrated and cleared when a new turn begins.
- **Renderers**. The button grid and the board image show a card's type only
  to a spymaster, to everyone once the game is finished, and for a card
  already guessed. Any other card looks neutral.
  - Button labels are centred with underscores.
  - The card menu lists the cards not yet guessed.
  - Cards sit on a 5×5 grid of a 1040×790 image.
  - Background and text colours follow the current team and the colours the
    user has set.
- **Small helpers**.
  - The on/off toggle.
  - The validation of a colour component typed into the colour form.
  - The default-colour fallback.
  - The message-to-game index updated on save and remove.
  - The rule that warns or deletes idle games.

Randomness, time and Discord user names are parameters:
- A shuffle, sample or choice takes a sequence of picks. Each step takes the
  element at `pick % length`, so every possible outcome of the source's draw
  is one choice of picks.
- Time is an integer number of seconds.

Each entity the source changes in place is a class whose methods are proved
against a function on values:
- `Setup.GameSetup` is proved against the `Registry` functions.
- `GameObject.Game` is proved against the `GameState` functions of `Engine`.

The game rules are proved as lemmas about those functions.

Files:
- `common.dfy`: roles, teams, card types, errors.
- `draw.dfy`: picks-driven shuffle, sample and choice, with multiset lemmas.
- `pytext.dfy`: Python's `int()` on a string, with the digits and whitespace
  of every Unicode script; decimal printing; ASCII `str.upper()`.
- `board.dfy`: cards, counts, board generation, turn order, word lookup.
- `setup.dfy`: the role registry and the `GameSetup` class.
- `engine.dfy`: the game state and its transitions.
- `game.dfy`: the `Game` class.
- `settings.dfy`: the user's settings.
- `render.dfy`: the renderers.
- `storage.dfy`: the message index and idle games.

## Model

| member | source | states |
|---|---|---|
| Common.RoleOrderDistinct | libraries/codenames.py:599-604 | the four roles of the registry, in their dict order, are distinct and cover every role |
| Board.Deal | libraries/codenames.py:168-177 | dealing a word list gives one untapped card per word, in order, whose word is the upper-cased word and whose type is the hand's type |
| Board.RepeatMultiset | libraries/codenames.py:860-873 | a hand of n cards of one type counts n of that type and none of any other |
| Board.SplitWords | libraries/codenames.py:853-858 | the 25 drawn words split into hands of 9, 8 and 7 plus one assassin, together a permutation of the drawn words |
| Board.DealtIsBoard | libraries/codenames.py:860-873 | the dealt cards are a fresh board: 25 untapped cards with distinct words, 9 of the starting team, 8 of the other, 1 assassin and 7 neutral; the words are a permutation of the upper-cased draw |
| Board.DealtKinds | libraries/codenames.py:860-873 | the dealt cards have the counts of each type that a board needs |
| Board.DealtWords | libraries/codenames.py:860-873 | the dealt words are the upper-cased hands in dealing order |
| Board.ShuffleKeepsBoard | libraries/codenames.py:875 | any permutation of a fresh board is a fresh board |
| Board.ShuffleKeepsWords | libraries/codenames.py:875 | after any permutation every card's word is still from the lexicon |
| Board.SampleKeepsDistinctImage | libraries/codenames.py:852 | 25 words sampled from a lexicon that is distinct after upper-casing stay distinct after upper-casing and come from the lexicon |
| Board.GenerateCards | libraries/codenames.py:851-876 | for every sequence of random picks, the generated cards form a fresh board whose words are upper-cased lexicon words |
| Board.DealCards | libraries/codenames.py:860-873 | the dealing loop produces the hands' cards in order: first team, second team, assassin, neutral |
| Board.InitialOrder | libraries/codenames.py:878-882 | the turn order is the starting team's spymaster and operative, then the other team's; the four roles are distinct |
| Board.GetMaxWordLength | libraries/codenames.py:844-849 | the loop returns the length of the longest word, 0 for no cards |
| Draw.SampleReaches | libraries/codenames.py:852-855 | every draw `random.sample` can make, any elements from distinct positions in any order, comes from some picks |
| Draw.ShuffleReaches | libraries/codenames.py:875 | every permutation `random.shuffle` can make comes from some picks |
| Draw.ChoiceReaches | libraries/codenames.py:857 | every element `random.choice` can return comes from some pick |
| Board.GetCard | libraries/codenames.py:1053-1056 | the first card with the word, or None exactly when no card has it |
| Board.GetCardUnique | libraries/codenames.py:1053-1056 | on a board with distinct words, the card found is the one card with that word |
| Board.TappedCountAppend | libraries/codenames.py:1208-1209 | the guessed count of a type over two parts of a board is the sum of the two counts |
| Board.TappedAtMostCount | libraries/codenames.py:1208-1209 | no more cards of a type are guessed than the board holds |
| Board.UntappedCountsZero | libraries/codenames.py:1208-1209 | on a board with no guessed cards, every guessed count is zero |
| Board.TappedAll | libraries/codenames.py:1145-1152 | the guessed count of a type equals the board's count of the type iff every card of the type is guessed |
| Board.CountLast | libraries/codenames.py:1145-1152 | the count of a type on a board is the count without its last card plus one if the last card has that type |
| Board.AllTappedLast | libraries/codenames.py:1145-1152 | every card of a type is guessed iff every one before the last is and the last is, when of that type |
| Board.TapCounts | libraries/codenames.py:1114 | tapping an untapped card raises the guessed count of its own type by one and no other |
| Board.TapKeepsBoard | libraries/codenames.py:1114 | tapping a card keeps the board's words and type counts |
| Setup.RemoveFirst | libraries/codenames.py:628-629 | `list.remove` takes out one occurrence: one element fewer, the multiset minus that element |
| Setup.Unfilled | libraries/codenames.py:660 | the unfilled roles are exactly the listed roles holding 0, and with the filled ones they make up the list |
| Setup.EmptyRegistry | libraries/codenames.py:599-605 | a new lobby is valid, counts no players and seats nobody |
| Setup.NoneFilled | libraries/codenames.py:657 | roles that all hold 0 count no players |
| Setup.FilledCountUpdate | libraries/codenames.py:657 | writing one role changes the filled count by the change in that role alone |
| Setup.ClearUserOne | libraries/codenames.py:631-633 | clearing a seated user empties exactly that user's role |
| Setup.ClearUserFrom | libraries/codenames.py:631-633 | a map that empties exactly the roles the user held, and keeps the others, is the cleared registry |
| Setup.ClearUserNone | libraries/codenames.py:631-633 | clearing a user who holds no role changes no role |
| Setup.RemoveFirstMembers | libraries/codenames.py:628-629 | removing a user from a pool without repeats removes that user only, and the pool stays without repeats |
| Setup.RemoveUserPlaces | libraries/codenames.py:627-633 | after `_remove_user_role` the user is neither in a role nor in the pool; every other player's place is unchanged |
| Setup.RemoveUserValid | libraries/codenames.py:627-633 | `_remove_user_role` keeps the lobby valid: no user twice, no user both seated and pooled |
| Setup.RemoveUserCount | libraries/codenames.py:627-633  | removing a user lowers the player count by one if they were present, else leaves it |
| Setup.JoinPoolMoves | libraries/codenames.py:637-641 | joining the random pool moves the user there from any role, keeps the lobby valid and counts a newcomer once |
| Setup.JoinSlotMoves | libraries/codenames.py:643-648 | taking a free role moves the user there from any other place, keeps the lobby valid and counts a newcomer once |
| Setup.JoinSlotPlaces | libraries/codenames.py:643-648 | after taking a free role the user sits there and nowhere else, and nobody else moves |
| Setup.JoinSlotCount | libraries/codenames.py:643-648  | taking a free role adds one player iff the user sat nowhere before |
| Setup.JoinSlotValid | libraries/codenames.py:647-648 | taking a free role keeps the lobby valid |
| Setup.SeatKeepsValid | libraries/codenames.py:648 | seating a user who holds no place in a free role keeps the lobby valid |
| Setup.JoinPlaces | libraries/codenames.py:635-648 | `join_role` fails iff the role is held by someone else, with the role-taken error; it changes nothing iff the user is already in that place; otherwise it places the user there, keeps the lobby valid and counts a newcomer once |
| Setup.LateJoinOverflows | libraries/codenames.py:635-663 | a newcomer joining a lobby of four makes five players, more random players than empty roles, so the dealing loop runs out of roles |
| Setup.FilledAndUnfilled | libraries/codenames.py:656-664 | the pool fits into the empty roles iff the player count is at most four |
| Setup.AssignEffect | libraries/codenames.py:662-664 | the dealing loop writes the i-th pooled user into the i-th empty role and leaves the other roles |
| Setup.AssignExtend | libraries/codenames.py:662-664 | one more step of the dealing loop writes the next pooled user into the next empty role |
| Setup.DistributeFills | libraries/codenames.py:659-664 | with four players, after any shuffle every role is held, seated players keep their roles, and each pooled user gets one of the empty roles |
| Setup.AssignFills | libraries/codenames.py:659-664 | dealing distinct new users onto exactly the empty roles fills every role with distinct users |
| Setup.GameSetup.constructor | libraries/codenames.py:599-606 | a new lobby has all four roles empty, an empty pool and the given time |
| Setup.GameSetup.RemoveUserRole | libraries/codenames.py:627-633 | the object's state becomes the registry with the user removed |
| Setup.GameSetup.JoinRole | libraries/codenames.py:635-654 | errors and no-ops leave the state; below four players the lobby is updated; at four the pool is dealt and every role of a valid lobby is filled; past four the dealing fails with no role left |
| Setup.GameSetup.DistributeRandomPlayers | libraries/codenames.py:659-663 | the pool is shuffled and dealt onto the empty roles in order as far as they go; a random player left without a role is the `pop` error |
| Setup.GameSetup.StartGame | libraries/codenames.py:706-709 | fewer than four players fails with not-enough-players and changes nothing; otherwise the pool is dealt, filling every role at exactly four players of a valid lobby and failing past four |
| Engine.AdvanceTimes | libraries/codenames.py:1188-1199 | repeated turns keep the length of the turn order |
| Engine.RoleOf | libraries/codenames.py:1047-1051 | the role found is held by the user, and none is found exactly when no listed role holds them |
| Engine.RotateStep | libraries/codenames.py:1196 | moving the first role to the end of an order rotated by k gives the order rotated by k+1 |
| Engine.Cycle | libraries/codenames.py:1196 | n moves of the first role to the end keep the order's length |
| Engine.CycleRotates | libraries/codenames.py:1196 | n moves of the first of four roles to the end rotate the order by n mod 4 |
| Engine.AdvanceTimesEffect | libraries/codenames.py:1188-1199 | n turns rotate the order n times, add n to the turn number and reset the guess count |
| Engine.RepeatedAdvance | libraries/codenames.py:1188-1199  | after n turns from the initial order the current order is the initial order rotated by n mod 4 |
| Engine.UserRoleHeld | libraries/codenames.py:1047-1051 | with every role held by a distinct player, `get_user_role` returns r iff the user holds r |
| Engine.UserRoleMissing | libraries/codenames.py:1047-1051 | `get_user_role` finds nothing iff no role holds the user (the source raises there) |
| Engine.PlayersAreRoleHolders | libraries/codenames.py:1087 | the rematch player list has the four distinct, non-zero role holders |
| Engine.NarrationKeepsValid | libraries/codenames.py:1068-1073  | narrating and recording the clue number keep the game state valid |
| Engine.ValidTurnStep | libraries/codenames.py:1196-1197 | one more turn rotates the order one step further and puts first the role the old turn number points at |
| Engine.ValidTurnHead | libraries/codenames.py:878-882  | the order has four roles and its first is the role of the initial order at (turn - 1) mod 4 |
| Engine.TurnPhase | libraries/codenames.py:1197 | odd turns are those where (turn - 1) mod 4 is even, and turns 1 and 2 mod 4 those where it is below 2 |
| Engine.InitialOrderRoles | libraries/codenames.py:878-882 | the initial order holds spymasters at even positions and the starting team in the first two |
| Engine.FreshHistories | libraries/codenames.py:1235-1237  | the histories after a new message to every role keep every role, each with no line |
| Engine.AdvanceKeepsValid | libraries/codenames.py:1188-1199  | `next_turn` keeps the state valid, puts the role for the new turn number first and leaves every role's history empty |
| Engine.CurrentRoleByTurn | libraries/codenames.py:1196-1197  | the current role is fixed by the turn number: odd turns are spymasters' and turns 1 and 2 mod 4 belong to the starting team |
| Engine.TeamCount | libraries/codenames.py:1162-1179 | a team holds 9 cards if it started and 8 otherwise |
| Engine.TeamFound | libraries/codenames.py:1162-1179 | a team's guessed count reaches its total iff every card of that team is guessed |
| Engine.StandingMeaning | libraries/codenames.py:1144-1181 | the game ends by the assassin iff the assassin card is guessed; it ends with a team's cards all guessed only then and with no assassin; the game goes on iff no assassin is guessed and both teams have a card left |
| Engine.CardsLeftBounds | libraries/codenames.py:1201-1212 | the cards left of a team lie between 0 and its total, and are 0 iff all its cards are guessed |
| Engine.FreshBoardUndecided | libraries/codenames.py:1144-1181  | a fresh board is undecided and shows 9 and 8 cards left |
| Engine.GiveClueGuards | libraries/codenames.py:1058-1067 | `give_clue` fails with the unknown-user error iff nobody holds the user, the not-your-turn error iff the user is not the current role, the invalid-number error iff the number does not parse, and succeeds otherwise |
| Engine.GiveClueAdvances | libraries/codenames.py:1068-1074 | after a clue the state is valid, the clue amount is the parsed number, the guess count is 0, the turn passes and history is cleared; the cards are unchanged |
| Engine.GiveClueAccepted | libraries/codenames.py:1068-1074 | a clue from the current role with a number is narrated with the team and upper-cased clue, sets the clue amount and ends the turn |
| Engine.ChooseWordWhenFinished | libraries/codenames.py:1082-1090 | in a finished game, a non-assassin card fails with the game-over error and the assassin starts a rematch without changing the game |
| Engine.ChooseWordGuards | libraries/codenames.py:1091-1103 | a running game rejects an unknown user and anyone but the current role; a change happens only for the current role, not a spymaster on the button path, and only once confirmed or with confirmation off |
| Engine.ChooseTappedCard | libraries/codenames.py:1106-1112 | choosing a guessed card fails before any guess this turn and otherwise ends the turn with the cards unchanged |
| Engine.ChooseReachesPick | libraries/codenames.py:1091-1105 | with every guard passed, `choose_word` is the pick of the named card by the current role |
| Engine.PickTappedCard | libraries/codenames.py:1106-1112 | picking a guessed card fails before the first guess and otherwise passes the turn with a valid state and the cards unchanged |
| Engine.ChooseUntappedCard | libraries/codenames.py:1114-1142 | choosing a card not yet guessed plays the guess |
| Engine.TapKeepsValid | libraries/codenames.py:1114-1117 | tapping a card and recording the guess keeps the state valid once `finished` reflects the new standing |
| Engine.NewBoardKeepsValid | libraries/codenames.py:1114-1117 | a state with the same players and turn and a valid board whose finished flag matches its standing is valid |
| Engine.SameWordsSameMax | libraries/codenames.py:844-849  | tapping leaves the longest word length unchanged |
| Engine.GuessWins | libraries/codenames.py:1114-1142  | a winning guess ends the game with no turn change; the history gains the guess, the verdict and the ending; the assassin's guess is reported as picked by the current operative's team and won by the other |
| Engine.DecidedByTap | libraries/codenames.py:1114-1142  | a deciding tap leaves a valid finished game with the card guessed, the turn kept and guess, verdict and ending narrated |
| Engine.DecidedStaysValid | libraries/codenames.py:1114-1117  | after a deciding tap, recording the verdict and ending the game keep the state valid |
| Engine.GuessDecided | libraries/codenames.py:1118-1141 | in every branch, a guess that decides the game records the standing and ends the game |
| Engine.GuessUndecided | libraries/codenames.py:1118-1142 | a guess that does not decide the game ends the turn when over the clue's budget (narrated) or not the team's own card; otherwise the operative guesses on |
| Engine.ResolveDecided | libraries/codenames.py:1118-1141 | after a deciding tap every branch records the verdict and ends the game |
| Engine.ResolveUndecided | libraries/codenames.py:1118-1142 | after a tap that decides nothing `is_game_finished` narrates nothing, and the turn ends over budget (narrated) or on a foreign card, else goes on |
| Engine.EndingNarration | libraries/codenames.py:1019-1021 | three narrated lines are added to every role's history in order |
| Engine.GuessEndsTurn | libraries/codenames.py:1118-1142  | the guess over budget or of a foreign card taps it and passes the turn with history cleared |
| Engine.GuessContinues | libraries/codenames.py:1125-1136 | a guess of the team's own card within budget taps it, counts it and keeps the turn |
| Engine.GuessKeepsValid | libraries/codenames.py:1114-1142 | every guess in a running game keeps the state valid |
| Engine.PickCardKeepsValid | libraries/codenames.py:1106-1142 | choosing any card in a running game keeps the state valid when it succeeds |
| GameObject.Game.constructor | libraries/codenames.py:778-809 | a new game is valid, has the lobby's roles, a random starting team, a fresh board of upper-cased lexicon words, the initial order, turn 1, zero counters and empty histories |
| GameObject.Game.AddHistory | libraries/codenames.py:1019-1021 | the line is appended to every role's history and nothing else changes |
| GameObject.AddLineToStep | libraries/codenames.py:1019-1021 | one more role reached by the loop gets the line, the others are as they were |
| GameObject.AddLineToAll | libraries/codenames.py:1019-1021 | once the loop has reached all four roles, every history has the line appended |
| GameObject.Game.SendNewMessages | libraries/codenames.py:1235-1237  | every role's history is emptied and nothing else changes |
| GameObject.ClearForStep | libraries/codenames.py:1254-1260 | one more role sent its message has its history emptied, the others are as they were |
| GameObject.ClearForAll | libraries/codenames.py:1254-1260 | once all four roles are sent their messages every history is empty |
| GameObject.Game.GetUserRole | libraries/codenames.py:1047-1051 | the loop returns the role the user holds, the first in dict order |
| GameObject.Game.GetCard | libraries/codenames.py:1053-1056 | the loop returns the first card with the word |
| GameObject.Game.IsGameFinished | libraries/codenames.py:1144-1181 | the result is whether the game is decided; with narration on, the verdict line is added |
| GameObject.Game.EndGame | libraries/codenames.py:1183-1186 | the game is finished and the ending is narrated |
| GameObject.Game.NextTurn | libraries/codenames.py:1188-1199 | the time is recorded, the guess count reset, the order rotated, the turn counted and history cleared |
| GameObject.Game.GiveClue | libraries/codenames.py:1058-1074 | the object makes the transition of `give_clue`, stays valid and is unchanged on an error |
| GameObject.Game.AnnounceClue | libraries/codenames.py:1068-1074 | the object narrates the clue, keeps its number and ends the turn |
| GameObject.Game.PlayGuess | libraries/codenames.py:1114-1142 | the object makes the transition of a guess |
| GameObject.Game.ResolveGuess | libraries/codenames.py:1118-1142 | after the tap the object ends the game, ends the turn or lets the player go on, as the rules of a guess say |
| GameObject.Game.ChooseWord | libraries/codenames.py:1080-1142 | the object makes the transition of `choose_word`, stays valid and is unchanged on an error |
| GameObject.Game.PickCard | libraries/codenames.py:1105-1142 | the object ends the turn on a guessed card (once a guess was made) or plays the guess |
| Settings.InvertOnOff | libraries/codenames.py:270-274 | the toggle always changes the setting |
| Settings.InvertTwice | libraries/codenames.py:270-274 | toggling twice restores the setting |
| Settings.GetColor | libraries/codenames.py:399-404 | a set colour is used as is; an unset one falls back to the type's default |
| Settings.GetCardColor | libraries/codenames.py:898-903 | a missing or unset entry falls back to the type's default; a set one is used |
| Settings.ColoursAgree | libraries/codenames.py:898-903  | the settings view and the board image show the same colour for each type |
| Settings.CheckColorConstraints | libraries/codenames.py:516-523 | a component passes iff it parses as an integer from 0 to 255; an unparsable one fails with the not-a-number error, an out-of-range one with the range error |
| Settings.SubmitColourAccepts | libraries/codenames.py:525-535 | the form accepts iff all three components pass, yields a valid colour of the parsed values, and reports red's error first |
| Settings.SubmitPrintedColour | libraries/codenames.py:525-535 | every valid colour typed back as its decimal components is accepted unchanged |
| Settings.CardColourValid | libraries/codenames.py:898-903  | with colours entered through the form, every card colour is a valid RGB value |
| PyText.ParseShow | libraries/codenames.py:1065 | `int()` reads back every integer's decimal text |
| PyText.ParseDecimal | libraries/codenames.py:1065 | `int()` reads back the decimal text of every natural number |
| PyText.ParseNegated | libraries/codenames.py:1065 | `int()` reads back the text of every negative number, minus sign first |
| PyText.ParseUnpadded | libraries/codenames.py:519 | text that neither starts nor ends in whitespace is parsed as it stands |
| PyText.ParseSkipsSpace | libraries/codenames.py:519 | a leading whitespace character does not change what `int()` returns |
| PyText.DigitNotSpace | libraries/codenames.py:519 | no digit of any script is whitespace, a sign or an underscore |
| PyText.ParseOneDigit | libraries/codenames.py:519 | one digit of any script parses as its decimal value |
| PyText.ParseArabicIndicDigit | libraries/codenames.py:519 | the Arabic-Indic digit three parses as 3 |
| PyText.ParseAfterNoBreakSpace | libraries/codenames.py:519 | a no-break space before a digit is skipped |
| PyText.ParseAfterSeparator | libraries/codenames.py:519 | the separator \x1c before a digit makes `int()` fail |
| PyText.Upper | libraries/codenames.py:175 | upper-casing keeps the length and leaves no lower-case ASCII letter |
| PyText.UpperIdempotent | libraries/codenames.py:175  | upper-casing a card's word again changes nothing |
| Render.ShownKindMeaning | libraries/codenames.py:1339-1355  | a card is shown in its own type iff the viewer sees all, it is guessed or it is neutral, and in any other case as neutral |
| Render.Underscores | libraries/codenames.py:186 | `"_" * n` is n underscores, none for n at most 0 |
| Render.WordFormattedShape | libraries/codenames.py:184-187 | the label is the word centred between equal runs of underscores, within one character of the length when the word fits, and the bare word when there is no room for a pair |
| Render.ButtonDisclosure | libraries/codenames.py:1339-1363 | the button's colour is that of the shown type; an emoji appears iff the card is guessed or is the assassin for a viewer who sees all; a card not yet guessed tells a restricted viewer only its word |
| Render.GuessedLabelLength | libraries/codenames.py:1347-1360  | a guessed card's label is one underscore short of the longest word for a full viewer and two short for the rest |
| Render.Buttons | libraries/codenames.py:1338-1363 | the button loop makes one button per card, in board order, each with the face the rule gives |
| Render.UntappedWords | libraries/codenames.py:1287-1289 | the menu has at most one option per card |
| Render.UntappedWordsMembers | libraries/codenames.py:1287-1289 | a word is offered iff some card not yet guessed has it |
| Render.UntappedWordsFresh | libraries/codenames.py:1287-1289 | before any guess the menu offers every word of the board in board order |
| Render.SelectOptions | libraries/codenames.py:1287-1289 | the option loop yields the words of the cards not yet guessed, in order |
| Render.EndTurnOfferedToOpponent | libraries/codenames.py:1326-1328 | as written, the other team's operative is offered an enabled End turn during a turn with a guess |
| Render.OnlyCurrentRoleActs | libraries/codenames.py:1313-1334 | with End turn tied to the current role, every enabled game control belongs to the current role, End turn needs a guess, and the menu offers the cards not yet guessed |
| Render.BoardSize | libraries/codenames.py:924-926 | the board image is 1040 by 790 |
| Render.CardInsideBoard | libraries/codenames.py:924-933 | each of the 25 cards lies inside the board |
| Render.CardsApart | libraries/codenames.py:928-933 | two different cards do not overlap |
| Render.DefaultTextColours | libraries/codenames.py:945-948  | default red, blue and assassin cards get light text and neutral cards dark text |
| Render.RenderersAgree | libraries/codenames.py:934-988  | the image background and the button colour both follow the shown type; the cover appears exactly on guessed cards; the image of a card not yet guessed does not depend on its type for a restricted viewer |
| Render.BackgroundShowsTeam | libraries/codenames.py:918-921 | the board background takes the colour of the current role's team, by default its built-in colour |
| Storage.SaveIndex | libraries/codenames.py:559-563 | the save loop gives the index with every message of the game pointing at it |
| Storage.RemoveIndex | libraries/codenames.py:571-575 | the remove loop gives the index without the game's messages |
| Storage.SavedStep | libraries/codenames.py:559-561 | saving one more message is one more update of the index |
| Storage.RemovedStep | libraries/codenames.py:571-573 | removing one more message drops that key too |
| Storage.SavedMeaning | libraries/codenames.py:559-561 | after a save each message of the game leads to it and other keys keep their game |
| Storage.RemovedMeaning | libraries/codenames.py:571-573 | after a removal none of the game's messages is indexed and every other entry is kept |
| Storage.RemoveUndoesSave | libraries/codenames.py:559-575  | removing a game undoes saving it when its messages were new to the index |
| Storage.SaveIdempotent | libraries/codenames.py:559-561 | saving twice is saving once |
| Storage.RemoveKeepsOtherGames | libraries/codenames.py:571-573 | removing a game keeps the entries of every other game |
| Storage.IdleMeaning | libraries/codenames.py:95-117 | a game idle over 14 days is deleted, one idle strictly between 12 and 13 days is warned, any other is kept |
| Storage.IdleDeleteStays | libraries/codenames.py:108 | a game due for deletion stays due later |

## Left out

- Discord I/O is not modelled: messages, embeds, modals, views and their sending, editing and deletion. The renderers are modelled as the values they put on the controls.
- JSON files are not modelled: `read_file_safe`, `save_to_file`, `remove_from_file`, the settings file, and every `load_json`/`to_dict`. Only the in-memory index updates are kept.
- Storage.SaveIndex: the index keys are Python ints. After a JSON round trip they become strings, so `remove_from_file` never pops an entry that was written before a reload. The model has a single key type and does not capture this.
- `end_game`'s call of `remove_from_file` is not modelled, for the same reason.
- PIL drawing in `generate_image` is left out: masks, colorize, compositing, borders, fonts and the font-shrinking loop, which depends on font metrics.
- The card is modelled as its background, text colour, word and cover (colour, alpha 128 or 255, mirrored for the assassin).
- Render.DefaultTextColours: the brightness comparison is written in integers scaled by 1000. Float rounding at exactly 150 is not captured.
- Randomness (`random.sample`, `random.shuffle`, `random.choice`) is replaced by explicit picks.
- Time (`time.time()`) is an integer parameter.
- Discord user names are a parameter.
- History text is a `Line` datatype carrying the values that fill each message; spelling and markup are left out.
- `get_history_for_role` is left out: its prompt lines are added only to the text displayed, never to the state.
- `get_embed`, `update_messages`, `send_new_messages_to_all_users` and `send_new_user_messages` only display state. Their one effect on state, emptying each role's history, is modelled in `Advance` and `Game.SendNewMessages`.
- `asyncio` interleaving of actions and `main.py`'s command wiring are left out. Each action runs to completion.
- `get_words()` is not part of this model. The lexicon is a parameter that must hold at least 25 words that stay distinct after upper-casing.
- Board.GenerateCards: with repeated lexicon words, the source's list comprehensions could drop more than one card's word. That case is excluded by the precondition.
- PyText.ParseInt: the digit and whitespace tables are those of Unicode 15.0, as in Python 3.12. Other Python versions differ by the digits of scripts added since.
- PyText.Upper: upper-casing is ASCII only. Python's Unicode case mapping (for example 'ß') is not modelled.
- GameObject.Game.ChooseWord requires the word to be on the board. The source dereferences `None` for an unknown word. Both view paths only send words taken from the board.
- Engine.GuessWins states the assassin narration only when the current role is an operative. A spymaster cannot reach a guess: the menu belongs to operatives, and the button path sends the clue form.
- The class methods require `Valid()`, or at least complete role and history maps and a non-empty turn order. Those are the invariants every constructed object keeps.
- The `custom_id` strings and their splitting on `_` are not modelled; actions are passed by value.
- The rematch flow after a finished game is modelled only as the `Rematch` reply with the player list. `GameSetup.send_new_user_messages` is I/O.
- The guess-confirmation view (`GuessConfirmation`) is modelled only as the `confirmed` flag of `choose_word`.
- The settings views (`VisualSettings`, `set_setting`) are left out beyond the colour validation and the toggle.

## Findings

| source | as written | input that shows it | evidently intended | confidence | as-written member | corrected member |
|---|---|---|---|---|---|---|
| libraries/codenames.py:1326-1328, 1385-1387 | in image mode, End turn is disabled only while no guess has been made; its handler narrates and calls `next_turn` with no turn check | red operative's turn with one guess made: the blue operative's view has End turn enabled, and clicking it ends the red team's turn | like every other game control, End turn is enabled only for the current role (and only after a guess) | high, not executed | Render.EndTurnOfferedToOpponent | Render.OnlyCurrentRoleActs |
