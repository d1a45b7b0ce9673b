/**
 * The role registry of a game being set up: four role slots (0 marks an empty
 * slot) and the list of users who asked for a random role.
 *
 * The registry's transitions are first stated as functions on a `Registry`
 * value; the `GameSetup` class then performs them in place and is proved to
 * agree with those functions.
 */
module Setup {
  import opened Common
  import opened Draw

  /** The user id stored in a slot nobody holds. */
  const EMPTY_SLOT: UserId := 0

  /** The most players a game has; reaching it starts the game. */
  const PLAYERS_NEEDED := 4

  const EMPTY_ROLES: map<Role, UserId> :=
    map[RedSpymaster := EMPTY_SLOT, RedOperative := EMPTY_SLOT, BlueSpymaster := EMPTY_SLOT, BlueOperative := EMPTY_SLOT]

  /** What a user asks to join: one role, or the random pool. */
  datatype Choice = Slot(role: Role) | RandomSlot

  datatype Registry = Registry(roles: map<Role, UserId>, pool: seq<UserId>)

  /** Every role has a slot, and nobody sits in two places. */
  predicate ValidRegistry(g: Registry)
  {
    && HasEveryRole(g.roles)
    && (forall r :: r in g.roles ==> g.roles[r] >= 0)
    && (forall r1, r2 :: r1 in g.roles && r2 in g.roles && r1 != r2 && g.roles[r1] != EMPTY_SLOT ==> g.roles[r1] != g.roles[r2])
    && Distinct(g.pool)
    && (forall i :: 0 <= i < |g.pool| ==> g.pool[i] > 0)
    && (forall i, r :: 0 <= i < |g.pool| && r in g.roles ==> g.pool[i] != g.roles[r])
  }

  /** User v sits at place c. */
  predicate PlacedAt(g: Registry, v: UserId, c: Choice)
  {
    match c
    case Slot(r) => r in g.roles && g.roles[r] == v
    case RandomSlot => v in g.pool
  }

  /** User v sits somewhere in the registry. */
  predicate Seated(g: Registry, v: UserId)
  {
    v in g.pool || exists r :: r in g.roles && g.roles[r] == v
  }

  /** `list.remove(x)`: the list without the first occurrence of x. */
  function RemoveFirst(s: seq<UserId>, x: UserId): (r: seq<UserId>)
    requires x in s
    ensures |r| == |s| - 1
    ensures multiset(r) == multiset(s) - multiset{x}
  {
    if s[0] == x then
      assert s == [x] + s[1..];
      s[1..]
    else
      assert s == [s[0]] + s[1..];
      [s[0]] + RemoveFirst(s[1..], x)
  }

  /** The role slots after every slot held by u is emptied. */
  function ClearUser(roles: map<Role, UserId>, u: UserId): map<Role, UserId>
  {
    map r | r in roles :: if roles[r] == u then EMPTY_SLOT else roles[r]
  }

  /** _remove_user_role: u leaves the random pool and every slot. */
  function RemoveUser(g: Registry, u: UserId): Registry
  {
    Registry(ClearUser(g.roles, u), if u in g.pool then RemoveFirst(g.pool, u) else g.pool)
  }

  /** join_role either returns early, leaving everything as it was, or produces a new registry. */
  datatype JoinEffect = Unchanged | Changed(after: Registry)

  /** join_role, without the messages it updates and before its start guard. */
  function Join(g: Registry, c: Choice, u: UserId): (r: Result<JoinEffect>)
    requires HasEveryRole(g.roles)
    ensures r.Ok? && r.value.Changed? ==> HasEveryRole(r.value.after.roles)
  {
    match c
    case RandomSlot =>
      if u in g.pool then Ok(Unchanged)
      else Ok(Changed(IntoPool(g, u)))
    case Slot(r) =>
      if g.roles[r] == u then Ok(Unchanged)
      else if g.roles[r] != EMPTY_SLOT then Err(RoleTaken(r))
      else Ok(Changed(IntoSlot(g, u, r)))
  }

  /** The number of roles in rs whose slot is held: the first half of get_player_count. */
  function FilledCount(roles: map<Role, UserId>, rs: seq<Role>): nat
    requires forall i :: 0 <= i < |rs| ==> rs[i] in roles
  {
    if rs == [] then 0
    else (if roles[rs[0]] != EMPTY_SLOT then 1 else 0) + FilledCount(roles, rs[1..])
  }

  /** get_player_count: the held slots plus the users waiting for a random role. */
  function PlayerCount(g: Registry): nat
    requires HasEveryRole(g.roles)
  {
    FilledCount(g.roles, ROLE_ORDER) + |g.pool|
  }

  /** The roles of rs whose slot is empty, in the order of rs. */
  function Unfilled(roles: map<Role, UserId>, rs: seq<Role>): (r: seq<Role>)
    requires forall i :: 0 <= i < |rs| ==> rs[i] in roles
    ensures forall x :: x in r <==> x in rs && roles[x] == EMPTY_SLOT
    ensures Distinct(rs) ==> Distinct(r)
    ensures |r| + FilledCount(roles, rs) == |rs|
  {
    if rs == [] then []
    else
      var rest := Unfilled(roles, rs[1..]);
      assert Distinct(rs) ==> Distinct(rs[1..]) && rs[0] !in rs[1..];
      if roles[rs[0]] == EMPTY_SLOT then [rs[0]] + rest else rest
  }

  /** Slot slots[i] goes to users[i], one after the other. */
  function Assign(roles: map<Role, UserId>, slots: seq<Role>, users: seq<UserId>): map<Role, UserId>
    requires |slots| == |users|
  {
    if slots == [] then roles
    else Assign(roles, slots[..|slots| - 1], users[..|users| - 1])[slots[|slots| - 1] := users[|users| - 1]]
  }

  /** How many of the random players distribute_random_players seats before the empty slots run out. */
  function Seatable(g: Registry): nat
    requires HasEveryRole(g.roles)
  {
    var free := |Unfilled(g.roles, ROLE_ORDER)|;
    if |g.pool| <= free then |g.pool| else free
  }

  /**
   * distribute_random_players: the random pool is shuffled and fills the empty
   * slots in role order, as far as they go; the pool keeps its shuffled order.
   */
  function Distribute(g: Registry, picks: seq<nat>): Registry
    requires HasEveryRole(g.roles)
  {
    var shuffled := Shuffle(g.pool, picks);
    var n := Seatable(g);
    Registry(Assign(g.roles, Unfilled(g.roles, ROLE_ORDER)[..n], shuffled[..n]), shuffled)
  }

  /** The empty registry a new setup starts from is valid and has nobody in it. */
  lemma EmptyRegistry()
    ensures ValidRegistry(Registry(EMPTY_ROLES, []))
    ensures PlayerCount(Registry(EMPTY_ROLES, [])) == 0
    ensures forall v :: v != EMPTY_SLOT ==> !Seated(Registry(EMPTY_ROLES, []), v)
  {
    forall r: Role
      ensures r in EMPTY_ROLES && EMPTY_ROLES[r] == EMPTY_SLOT
    {
      match r
      case RedSpymaster =>
      case RedOperative =>
      case BlueSpymaster =>
      case BlueOperative =>
    }
    NoneFilled(EMPTY_ROLES, ROLE_ORDER);
  }

  lemma NoneFilled(roles: map<Role, UserId>, rs: seq<Role>)
    requires forall i :: 0 <= i < |rs| ==> rs[i] in roles && roles[rs[i]] == EMPTY_SLOT
    ensures FilledCount(roles, rs) == 0
  {
  }

  /** Changing one slot changes the held count by what that slot gained or lost. */
  lemma {:induction false} FilledCountUpdate(roles: map<Role, UserId>, rs: seq<Role>, r: Role, v: UserId)
    requires forall i :: 0 <= i < |rs| ==> rs[i] in roles
    requires Distinct(rs) && r in roles
    ensures FilledCount(roles[r := v], rs)
            == FilledCount(roles, rs) - (if r in rs && roles[r] != EMPTY_SLOT then 1 else 0)
               + (if r in rs && v != EMPTY_SLOT then 1 else 0)
  {
    if rs != [] {
      assert Distinct(rs[1..]) && rs[0] !in rs[1..];
      FilledCountUpdate(roles, rs[1..], r, v);
    }
  }

  /** In a valid registry a user holds at most one slot, so leaving empties that one slot. */
  lemma ClearUserOne(g: Registry, u: UserId, r0: Role)
    requires ValidRegistry(g) && r0 in g.roles && g.roles[r0] == u && u != EMPTY_SLOT
    ensures ClearUser(g.roles, u) == g.roles[r0 := EMPTY_SLOT]
  {
  }

  /** A map that empties exactly the slots u held, and keeps the others, is ClearUser. */
  lemma ClearUserFrom(before: map<Role, UserId>, after: map<Role, UserId>, u: UserId)
    requires after.Keys == before.Keys
    requires forall r :: r in after ==> after[r] == if before[r] == u then EMPTY_SLOT else before[r]
    ensures after == ClearUser(before, u)
  {
  }

  lemma ClearUserNone(g: Registry, u: UserId)
    requires forall r :: r in g.roles ==> g.roles[r] != u
    ensures ClearUser(g.roles, u) == g.roles
  {
  }

  /** list.remove takes away the one copy of x from a list without repeats and nothing else. */
  lemma RemoveFirstMembers(s: seq<UserId>, x: UserId)
    requires x in s && Distinct(s)
    ensures x !in RemoveFirst(s, x)
    ensures forall v :: v != x ==> (v in RemoveFirst(s, x) <==> v in s)
    ensures Distinct(RemoveFirst(s, x))
  {
    var r := RemoveFirst(s, x);
    DistinctHasSingleCopies(s);
    assert multiset(r)[x] == 0;
    forall v | v != x
      ensures v in r <==> v in s
    {
      assert multiset(r)[v] == multiset(s)[v];
    }
    DistinctSubset(r, s);
  }

  /** After u has left, u sits nowhere and everyone else sits where they sat. */
  lemma RemoveUserPlaces(g: Registry, u: UserId)
    requires ValidRegistry(g) && u > 0
    ensures !Seated(RemoveUser(g, u), u)
    ensures forall v, c :: v != u && v != EMPTY_SLOT ==> (PlacedAt(RemoveUser(g, u), v, c) <==> PlacedAt(g, v, c))
  {
    var h := RemoveUser(g, u);
    if u in g.pool {
      RemoveFirstMembers(g.pool, u);
    }
    assert u !in h.pool;
    assert forall r :: r in h.roles ==> h.roles[r] != u;
    forall v, c | v != u && v != EMPTY_SLOT
      ensures PlacedAt(h, v, c) <==> PlacedAt(g, v, c)
    {
      match c
      case Slot(r) =>
      case RandomSlot =>
    }
  }

  lemma RemoveUserValid(g: Registry, u: UserId)
    requires ValidRegistry(g) && u > 0
    ensures ValidRegistry(RemoveUser(g, u))
  {
    var h := RemoveUser(g, u);
    if u in g.pool {
      RemoveFirstMembers(g.pool, u);
    }
    assert HasEveryRole(h.roles);
    assert forall r :: r in h.roles ==> h.roles[r] == EMPTY_SLOT || h.roles[r] == g.roles[r];
    forall i | 0 <= i < |h.pool|
      ensures h.pool[i] in g.pool
    {
      var v := h.pool[i];
      assert v in h.pool;
      if u in g.pool {
        assert v != u;
        assert v in RemoveFirst(g.pool, u);
      } else {
        assert h.pool == g.pool;
      }
    }
  }

  /** Leaving lowers the player count by one exactly when the user was seated. */
  lemma RemoveUserCount(g: Registry, u: UserId)
    requires ValidRegistry(g) && u > 0
    ensures PlayerCount(RemoveUser(g, u)) == PlayerCount(g) - (if Seated(g, u) then 1 else 0)
  {
    RoleOrderDistinct();
    if r0 :| r0 in g.roles && g.roles[r0] == u {
      ClearUserOne(g, u, r0);
      FilledCountUpdate(g.roles, ROLE_ORDER, r0, EMPTY_SLOT);
      assert forall i :: 0 <= i < |g.pool| ==> g.pool[i] != g.roles[r0];
    } else {
      ClearUserNone(g, u);
    }
  }

  /** The registry after u joins the random pool. */
  function IntoPool(g: Registry, u: UserId): Registry
  {
    var h := RemoveUser(g, u);
    h.(pool := h.pool + [u])
  }

  /** The registry after u takes the empty slot r. */
  function IntoSlot(g: Registry, u: UserId, r: Role): Registry
  {
    var h := RemoveUser(g, u);
    h.(roles := h.roles[r := u])
  }

  /** What a join that moves a user must achieve: u sits exactly at c and nobody else moves. */
  ghost predicate MovedTo(g: Registry, h: Registry, u: UserId, c: Choice)
  {
    && (forall d :: PlacedAt(h, u, d) <==> d == c)
    && (forall v, d :: v != u && v != EMPTY_SLOT ==> (PlacedAt(h, v, d) <==> PlacedAt(g, v, d)))
  }

  lemma JoinPoolMoves(g: Registry, u: UserId)
    requires ValidRegistry(g) && u > 0 && u !in g.pool
    ensures ValidRegistry(IntoPool(g, u)) && MovedTo(g, IntoPool(g, u), u, RandomSlot)
    ensures PlayerCount(IntoPool(g, u)) == PlayerCount(g) + (if Seated(g, u) then 0 else 1)
  {
    RemoveUserPlaces(g, u);
    RemoveUserValid(g, u);
    RemoveUserCount(g, u);
    var h := RemoveUser(g, u);
    var h' := IntoPool(g, u);
    assert Distinct(h'.pool);
    forall i, r | 0 <= i < |h'.pool| && r in h'.roles
      ensures h'.pool[i] != h'.roles[r] && h'.pool[i] > 0
    {
      if i < |h.pool| {
        assert h'.pool[i] == h.pool[i];
      }
    }
    forall v, d | v != u && v != EMPTY_SLOT
      ensures PlacedAt(h', v, d) <==> PlacedAt(h, v, d)
    {
      assert v in h'.pool <==> v in h.pool;
    }
    forall d
      ensures PlacedAt(h', u, d) <==> d == RandomSlot
    {
      assert u in h'.pool;
    }
  }

  lemma JoinSlotMoves(g: Registry, u: UserId, r: Role)
    requires ValidRegistry(g) && u > 0 && g.roles[r] == EMPTY_SLOT
    ensures ValidRegistry(IntoSlot(g, u, r)) && MovedTo(g, IntoSlot(g, u, r), u, Slot(r))
    ensures PlayerCount(IntoSlot(g, u, r)) == PlayerCount(g) + (if Seated(g, u) then 0 else 1)
  {
    JoinSlotValid(g, u, r);
    JoinSlotPlaces(g, u, r);
    JoinSlotCount(g, u, r);
  }

  /** Seating u in an empty slot puts u there and only there, and moves nobody else. */
  lemma JoinSlotPlaces(g: Registry, u: UserId, r: Role)
    requires ValidRegistry(g) && u > 0 && g.roles[r] == EMPTY_SLOT
    ensures MovedTo(g, IntoSlot(g, u, r), u, Slot(r))
  {
    RemoveUserPlaces(g, u);
    var h := RemoveUser(g, u);
    var h' := IntoSlot(g, u, r);
    forall v, d | v != u && v != EMPTY_SLOT
      ensures PlacedAt(h', v, d) <==> PlacedAt(h, v, d)
    {
    }
    forall d
      ensures PlacedAt(h', u, d) <==> d == Slot(r)
    {
      assert u !in h'.pool;
    }
  }

  /** Seating u in an empty slot adds a player exactly when u sat nowhere before. */
  lemma JoinSlotCount(g: Registry, u: UserId, r: Role)
    requires ValidRegistry(g) && u > 0 && g.roles[r] == EMPTY_SLOT
    ensures PlayerCount(IntoSlot(g, u, r)) == PlayerCount(g) + (if Seated(g, u) then 0 else 1)
  {
    RemoveUserPlaces(g, u);
    RemoveUserValid(g, u);
    var h := RemoveUser(g, u);
    RemoveUserCount(g, u);
    RoleOrderDistinct();
    FilledCountUpdate(h.roles, ROLE_ORDER, r, u);
  }

  lemma JoinSlotValid(g: Registry, u: UserId, r: Role)
    requires ValidRegistry(g) && u > 0 && g.roles[r] == EMPTY_SLOT
    ensures ValidRegistry(IntoSlot(g, u, r))
  {
    RemoveUserPlaces(g, u);
    RemoveUserValid(g, u);
    var h := RemoveUser(g, u);
    SeatKeepsValid(h, u, r);
  }

  /** Seating somebody who sits nowhere in an empty slot keeps the registry valid. */
  lemma SeatKeepsValid(h: Registry, u: UserId, r: Role)
    requires ValidRegistry(h) && u > 0 && h.roles[r] == EMPTY_SLOT && !Seated(h, u)
    ensures ValidRegistry(h.(roles := h.roles[r := u]))
  {
    var h' := h.(roles := h.roles[r := u]);
    forall r1, r2 | r1 in h'.roles && r2 in h'.roles && r1 != r2 && h'.roles[r1] != EMPTY_SLOT
      ensures h'.roles[r1] != h'.roles[r2]
    {
      if r1 == r {
        assert h'.roles[r2] == h.roles[r2];
      } else if r2 == r {
        assert h'.roles[r1] == h.roles[r1];
      }
    }
    forall i, r' | 0 <= i < |h'.pool| && r' in h'.roles
      ensures h'.pool[i] != h'.roles[r']
    {
      if r' == r {
        assert h.pool[i] in h.pool;
      }
    }
  }

  /**
   * join_role: a role held by somebody else is refused; joining the place one
   * already has changes nothing; otherwise the user ends up at exactly the
   * chosen place, nobody else moves, and the count rises by one for a newcomer.
   */
  lemma JoinPlaces(g: Registry, c: Choice, u: UserId)
    requires ValidRegistry(g) && u > 0
    ensures Join(g, c, u).Err? <==> c.Slot? && g.roles[c.role] != EMPTY_SLOT && g.roles[c.role] != u
    ensures Join(g, c, u).Err? ==> Join(g, c, u).error == RoleTaken(c.role)
    ensures Join(g, c, u) == Ok(Unchanged) <==> PlacedAt(g, u, c)
    ensures Join(g, c, u).Ok? && Join(g, c, u).value.Changed? ==>
              var h := Join(g, c, u).value.after;
              && ValidRegistry(h) && MovedTo(g, h, u, c)
              && PlayerCount(h) == PlayerCount(g) + (if Seated(g, u) then 0 else 1)
  {
    match c
    case RandomSlot =>
      if u !in g.pool {
        JoinPoolMoves(g, u);
        assert Join(g, c, u) == Ok(Changed(IntoPool(g, u)));
      }
    case Slot(r) =>
      if g.roles[r] == EMPTY_SLOT {
        JoinSlotMoves(g, u, r);
        assert Join(g, c, u) == Ok(Changed(IntoSlot(g, u, r)));
      }
  }

  /**
   * A newcomer who joins a lobby that already has four players makes five, more
   * than the distribution that follows can seat.
   */
  lemma LateJoinOverflows(g: Registry, c: Choice, u: UserId)
    requires ValidRegistry(g) && u > 0 && PlayerCount(g) == PLAYERS_NEEDED && !Seated(g, u)
    requires Join(g, c, u).Ok?
    ensures Join(g, c, u).value.Changed?
    ensures var h := Join(g, c, u).value.after;
            && PlayerCount(h) == PLAYERS_NEEDED + 1
            && |h.pool| > |Unfilled(h.roles, ROLE_ORDER)|
  {
    JoinPlaces(g, c, u);
    FilledAndUnfilled(Join(g, c, u).value.after);
  }

  /** The held slots and the empty slots make up all four roles. */
  lemma FilledAndUnfilled(g: Registry)
    requires HasEveryRole(g.roles)
    ensures |Unfilled(g.roles, ROLE_ORDER)| == PLAYERS_NEEDED - FilledCount(g.roles, ROLE_ORDER)
    ensures |g.pool| <= |Unfilled(g.roles, ROLE_ORDER)| <==> PlayerCount(g) <= PLAYERS_NEEDED
  {
  }

  /** Assigning a list of distinct slots: each listed slot gets its user, the others keep theirs. */
  lemma {:induction false} AssignEffect(roles: map<Role, UserId>, slots: seq<Role>, users: seq<UserId>)
    requires |slots| == |users| && Distinct(slots)
    requires forall i :: 0 <= i < |slots| ==> slots[i] in roles
    ensures Assign(roles, slots, users).Keys == roles.Keys
    ensures forall i :: 0 <= i < |slots| ==> Assign(roles, slots, users)[slots[i]] == users[i]
    ensures forall r :: r in roles && r !in slots ==> Assign(roles, slots, users)[r] == roles[r]
  {
    if slots != [] {
      var n := |slots| - 1;
      AssignEffect(roles, slots[..n], users[..n]);
      forall r | r in roles && r !in slots
        ensures r !in slots[..n]
      {
      }
    }
  }

  /** One more step of the dealing loop assigns the next slot to the next user. */
  lemma AssignExtend(roles: map<Role, UserId>, slots: seq<Role>, users: seq<UserId>, i: nat)
    requires i < |users| && i < |slots|
    ensures Assign(roles, slots[..i + 1], users[..i + 1]) == Assign(roles, slots[..i], users[..i])[slots[i] := users[i]]
  {
    assert slots[..i + 1][..i] == slots[..i] && users[..i + 1][..i] == users[..i];
  }

  /**
   * distribute_random_players with four players: every random player lands in
   * a slot that was empty, every slot is held, and held slots keep their user.
   */
  lemma DistributeFills(g: Registry, picks: seq<nat>)
    requires ValidRegistry(g) && PlayerCount(g) == PLAYERS_NEEDED
    ensures |g.pool| <= |Unfilled(g.roles, ROLE_ORDER)|
    ensures var d := Distribute(g, picks);
            && RolesFilled(d.roles)
            && (forall r :: r in g.roles && g.roles[r] != EMPTY_SLOT ==> d.roles[r] == g.roles[r])
            && (forall r :: r in g.roles && g.roles[r] == EMPTY_SLOT ==> d.roles[r] in g.pool)
            && (forall v :: v in g.pool ==> exists r :: r in g.roles && g.roles[r] == EMPTY_SLOT && d.roles[r] == v)
  {
    FilledAndUnfilled(g);
    RoleOrderDistinct();
    var slots := Unfilled(g.roles, ROLE_ORDER);
    var shuffled := Shuffle(g.pool, picks);
    assert Seatable(g) == |slots| == |shuffled|;
    assert slots[..|shuffled|] == slots && shuffled[..|shuffled|] == shuffled;
    ShuffleMembers(g.pool, picks);
    forall i | 0 <= i < |shuffled|
      ensures shuffled[i] in g.pool
    {
      assert shuffled[i] in shuffled;
    }
    AssignFills(g.roles, slots, shuffled);
    assert Distribute(g, picks).roles == Assign(g.roles, slots, shuffled);
  }

  /**
   * Handing the empty slots, in order, to as many distinct newcomers: every slot
   * becomes held by a different user, held slots keep theirs, and each newcomer
   * gets one of the slots that were empty.
   */
  lemma AssignFills(roles: map<Role, UserId>, slots: seq<Role>, users: seq<UserId>)
    requires HasEveryRole(roles) && (forall r :: r in roles ==> roles[r] >= 0)
    requires forall r1, r2 :: r1 in roles && r2 in roles && r1 != r2 && roles[r1] != EMPTY_SLOT ==> roles[r1] != roles[r2]
    requires Distinct(slots) && forall x :: x in slots <==> roles[x] == EMPTY_SLOT
    requires |users| == |slots| && Distinct(users)
    requires forall i :: 0 <= i < |users| ==> users[i] > 0
    requires forall i, r :: 0 <= i < |users| && r in roles ==> users[i] != roles[r]
    ensures var m := Assign(roles, slots, users);
            && RolesFilled(m)
            && (forall r :: r in roles && roles[r] != EMPTY_SLOT ==> m[r] == roles[r])
            && (forall r :: r in roles && roles[r] == EMPTY_SLOT ==> m[r] in users)
            && (forall v :: v in users ==> exists r :: r in roles && roles[r] == EMPTY_SLOT && m[r] == v)
  {
    AssignEffect(roles, slots, users);
    var m := Assign(roles, slots, users);
    forall r | r in roles && roles[r] == EMPTY_SLOT
      ensures m[r] in users && m[r] > 0
    {
      var i :| 0 <= i < |slots| && slots[i] == r;
    }
    forall v | v in users
      ensures exists r :: r in roles && roles[r] == EMPTY_SLOT && m[r] == v
    {
      var i :| 0 <= i < |users| && users[i] == v;
      assert m[slots[i]] == v;
    }
    forall r1, r2 | r1 in m && r2 in m && r1 != r2
      ensures m[r1] != m[r2]
    {
      if roles[r1] == EMPTY_SLOT && roles[r2] == EMPTY_SLOT {
        var i :| 0 <= i < |slots| && slots[i] == r1;
        var j :| 0 <= j < |slots| && slots[j] == r2;
        assert i != j;
      } else if roles[r1] == EMPTY_SLOT {
        var i :| 0 <= i < |slots| && slots[i] == r1;
        assert m[r2] == roles[r2];
      } else if roles[r2] == EMPTY_SLOT {
        var j :| 0 <= j < |slots| && slots[j] == r2;
        assert m[r1] == roles[r1];
      }
    }
  }

  /** join_role's reply when it does not raise: it returned early, updated the setup, or started the game. */
  datatype JoinReply = Ignored | Updated | Started

  /** A game being set up, holding its role slots and random pool in place. */
  class GameSetup {
    var roles: map<Role, UserId>
    var randomRole: seq<UserId>
    const lastInteraction: int

    function State(): Registry
      reads this
    {
      Registry(roles, randomRole)
    }

    /** A live setup: a valid registry of at most four players. */
    predicate Valid()
      reads this
    {
      ValidRegistry(State()) && PlayerCount(State()) <= PLAYERS_NEEDED
    }

    /** A new setup: all four slots empty and nobody in the random pool. */
    constructor(now: int)
      ensures State() == Registry(EMPTY_ROLES, []) && lastInteraction == now
      ensures Valid()
    {
      roles := EMPTY_ROLES;
      randomRole := [];
      lastInteraction := now;
      EmptyRegistry();
    }

    /** _remove_user_role. */
    method RemoveUserRole(u: UserId)
      requires HasEveryRole(roles)
      modifies this
      ensures State() == RemoveUser(old(State()), u)
    {
      if u in randomRole {
        randomRole := RemoveFirst(randomRole, u);
      }
      ghost var pool := randomRole;
      RoleOrderDistinct();
      for i := 0 to |ROLE_ORDER|
        invariant randomRole == pool
        invariant roles.Keys == old(roles).Keys
        invariant forall r :: r in roles ==>
                    roles[r] == if r in ROLE_ORDER[..i] && old(roles)[r] == u then EMPTY_SLOT else old(roles)[r]
      {
        var role := ROLE_ORDER[i];
        if roles[role] == u {
          roles := roles[role := EMPTY_SLOT];
        }
      }
      assert ROLE_ORDER[..|ROLE_ORDER|] == ROLE_ORDER;
      ClearUserFrom(old(roles), roles, u);
    }

    /**
     * join_role: a refused or ignored join changes nothing; a join that reaches
     * four players or more starts the game, which fails once there are more
     * random players than empty roles.
     */
    method JoinRole(c: Choice, u: UserId, picks: seq<nat>) returns (reply: Result<JoinReply>)
      requires HasEveryRole(roles) && u > 0
      modifies this
      ensures Join(old(State()), c, u).Err? ==> reply == Err(Join(old(State()), c, u).error) && State() == old(State())
      ensures Join(old(State()), c, u) == Ok(Unchanged) ==> reply == Ok(Ignored) && State() == old(State())
      ensures Join(old(State()), c, u).Ok? && Join(old(State()), c, u).value.Changed? ==>
                var h := Join(old(State()), c, u).value.after;
                && (PlayerCount(h) < PLAYERS_NEEDED ==> reply == Ok(Updated) && State() == h)
                && (PlayerCount(h) == PLAYERS_NEEDED ==> reply == Ok(Started) && State() == Distribute(h, picks))
                && (PlayerCount(h) > PLAYERS_NEEDED ==> reply == Err(NoRoleLeft) && State() == Distribute(h, picks))
      ensures old(Valid()) && reply == Ok(Started) ==> RolesFilled(roles)
      ensures old(Valid()) && reply != Ok(Started) && reply != Err(NoRoleLeft) ==> Valid()
    {
      ghost var g := State();
      if ValidRegistry(g) {
        JoinPlaces(g, c, u);
      }
      match c {
        case RandomSlot =>
          if u in randomRole {
            return Ok(Ignored);
          }
          RemoveUserRole(u);
          randomRole := randomRole + [u];
        case Slot(r) =>
          if roles[r] == u {
            return Ok(Ignored);
          }
          if roles[r] != EMPTY_SLOT {
            return Err(RoleTaken(r));
          }
          RemoveUserRole(u);
          roles := roles[r := u];
      }
      if PlayerCount(State()) >= PLAYERS_NEEDED {
        var started := StartGame(picks);
        if started.Fail? {
          return Err(started.error);
        }
        return Ok(Started);
      }
      return Ok(Updated);
    }

    /**
     * distribute_random_players: shuffle the pool, then hand out the empty slots
     * in role order; a random player left over when they run out is an IndexError.
     */
    method DistributeRandomPlayers(picks: seq<nat>) returns (outcome: Outcome)
      requires HasEveryRole(roles)
      modifies this
      ensures State() == Distribute(old(State()), picks)
      ensures outcome == if |old(randomRole)| <= |Unfilled(old(roles), ROLE_ORDER)| then Pass else Fail(NoRoleLeft)
    {
      var unfilledRoles := Unfilled(roles, ROLE_ORDER);
      ghost var slots := unfilledRoles;
      ghost var g := State();
      var shuffled := Shuffle(randomRole, picks);
      randomRole := shuffled;
      for i := 0 to |shuffled|
        invariant randomRole == shuffled && i <= |slots|
        invariant unfilledRoles == slots[i..]
        invariant roles == Assign(g.roles, slots[..i], shuffled[..i])
      {
        if unfilledRoles == [] {
          assert Seatable(g) == i && slots[..i] == slots;
          return Fail(NoRoleLeft);
        }
        AssignExtend(g.roles, slots, shuffled, i);
        roles := roles[unfilledRoles[0] := shuffled[i]];
        unfilledRoles := unfilledRoles[1..];
      }
      assert Seatable(g) == |shuffled| && shuffled[..|shuffled|] == shuffled;
      return Pass;
    }

    /** start_game: refuses below four players, otherwise seats the random players. */
    method StartGame(picks: seq<nat>) returns (outcome: Outcome)
      requires HasEveryRole(roles)
      modifies this
      ensures PlayerCount(old(State())) < PLAYERS_NEEDED ==> outcome == Fail(NotEnoughPlayers) && State() == old(State())
      ensures PlayerCount(old(State())) >= PLAYERS_NEEDED ==> State() == Distribute(old(State()), picks)
      ensures PlayerCount(old(State())) == PLAYERS_NEEDED ==> outcome == Pass
      ensures PlayerCount(old(State())) > PLAYERS_NEEDED ==> outcome == Fail(NoRoleLeft)
      ensures old(Valid()) && outcome == Pass ==> RolesFilled(roles)
    {
      if PlayerCount(State()) < PLAYERS_NEEDED {
        return Fail(NotEnoughPlayers);
      }
      FilledAndUnfilled(State());
      if ValidRegistry(State()) && PlayerCount(State()) == PLAYERS_NEEDED {
        DistributeFills(State(), picks);
      }
      outcome := DistributeRandomPlayers(picks);
    }
  }
}
