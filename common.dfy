/** Shared vocabulary of the Codenames engine: players, roles, teams, cards, errors. */
module Common {

  /** A chat-platform user id; real ids are positive. The engine uses 0 as "nobody" in the role slots. */
  type UserId = int

  datatype Option<T> = None | Some(value: T)

  /**
   * The user-facing errors the engine raises, plus the lookup failure of
   * get_user_role and the IndexError of popping from an empty list of free roles.
   */
  datatype GameError =
    | RoleTaken(role: Role)
    | NotEnoughPlayers
    | NoRoleLeft
    | NotYourTurn
    | InvalidNumber(text: string)
    | NoGuessYet
    | GameOver
    | UnknownUser(user: UserId)
    | ColorNotANumber(colorName: string, text: string)
    | ColorOutOfRange(colorName: string, value: int)

  datatype Result<T> = Ok(value: T) | Err(error: GameError)

  datatype Outcome = Pass | Fail(error: GameError)

  datatype Role = RedSpymaster | RedOperative | BlueSpymaster | BlueOperative

  datatype Team = Red | Blue

  datatype CardType = NeutralCard | RedCard | BlueCard | AssassinCard

  /** A board card: its word, its true type and whether it has been guessed ("tapped"). */
  datatype Card = Card(word: string, kind: CardType, tapped: bool)

  datatype OnOff = On | Off

  /** The order in which the role map lists its roles (the insertion order of the dict). */
  const ROLE_ORDER: seq<Role> := [RedSpymaster, RedOperative, BlueSpymaster, BlueOperative]

  /** The role order lists each role once. */
  lemma RoleOrderDistinct()
    ensures Distinct(ROLE_ORDER)
    ensures forall r: Role :: r in ROLE_ORDER
  {
    assert ROLE_ORDER == [RedSpymaster, RedOperative, BlueSpymaster, BlueOperative];
    forall r: Role
      ensures r in ROLE_ORDER
    {
      match r
      case RedSpymaster => assert ROLE_ORDER[0] == r;
      case RedOperative => assert ROLE_ORDER[1] == r;
      case BlueSpymaster => assert ROLE_ORDER[2] == r;
      case BlueOperative => assert ROLE_ORDER[3] == r;
    }
  }

  /** A role-keyed table with an entry for each of the four roles. */
  predicate HasEveryRole<V>(m: map<Role, V>)
  {
    forall r: Role :: r in m
  }

  /** The team a role plays for (the role-to-colour table). */
  function TeamOf(r: Role): Team
  {
    match r
    case RedSpymaster => Red
    case RedOperative => Red
    case BlueSpymaster => Blue
    case BlueOperative => Blue
  }

  predicate IsSpymaster(r: Role)
  {
    r == RedSpymaster || r == BlueSpymaster
  }

  function Other(t: Team): Team
  {
    if t == Red then Blue else Red
  }

  /** The card type that belongs to a team (a team colour doubles as a card type). */
  function TeamCard(t: Team): CardType
  {
    if t == Red then RedCard else BlueCard
  }

  function Spymaster(t: Team): Role
  {
    if t == Red then RedSpymaster else BlueSpymaster
  }

  function Operative(t: Team): Role
  {
    if t == Red then RedOperative else BlueOperative
  }

  predicate Distinct<T(==)>(s: seq<T>)
  {
    forall i, j :: 0 <= i < j < |s| ==> s[i] != s[j]
  }

  /** Every one of the four roles is held, by four different (non-empty) users. */
  predicate RolesFilled(roles: map<Role, UserId>)
  {
    && HasEveryRole(roles)
    && (forall r :: r in roles ==> roles[r] > 0)
    && (forall r1, r2 :: r1 in roles && r2 in roles && r1 != r2 ==> roles[r1] != roles[r2])
  }
}
