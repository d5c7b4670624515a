/**
 * The matchmaking coordinator: the user table, the two connection registries,
 * the games, and the handlers that the chat commands and the websocket frames
 * drive. Every handler is a check-then-mutate step over shared objects; a
 * Python exception on the way is a `Crash` reply, and whatever the handler
 * had changed before it stays changed.
 */
module Matchmaking {
  import opened Options
  import opened Text
  import opened Lists
  import opened Protocol
  import opened Connections

  datatype AuthState = NotAuth | AuthSuccess | AuthFailed

  datatype GameStatus = Idle | Started | Playing

  /** The Python exceptions a handler can run into. */
  datatype Fault =
    | BadHex            // `int(auth_id, 16)` raises ValueError
    | NoSuchUser        // `user_map[...]` raises KeyError
    | NoGameList        // `... in user.game_list` while it is still None
    | TargetHasNoGame   // `game_owner.game.rom_name` while that game is None
    | UserHasNoGame     // `user.game.address = ...` while the game is None
    | NoUserConnection  // `active_connections[ctx.author.id]` raises KeyError

  /** What a handler reports back to the command's caller. */
  datatype Reply =
    | Ok
    | MissingAuthId     // "Please enter a valid auth id"
    | UnknownAuthId     // code not pending, or already expired
    | NotAuthenticated  // author is not in the user table
    | AlreadyInGame
    | InvalidRomName
    | NoGame            // nothing to leave or to start
    | NotOwner
    | GameNotFound      // target is not in the user table
    | RomNotOwned
    | Crash(fault: Fault)

  class Game {
    var players: seq<User>
    const id: int
    const owner: User
    const romName: string
    var address: Option<string>
    var status: GameStatus

    constructor (players: seq<User>, id: int, owner: User, romName: string)
      ensures this.players == players && this.id == id && this.owner == owner && this.romName == romName
      ensures address == None && status == Idle
    {
      this.players := players;
      this.id := id;
      this.owner := owner;
      this.romName := romName;
      address := None;
      status := Idle;
    }
  }

  /** A Discord user known to the coordinator; profile attributes other than the id are not modelled. */
  class User {
    const id: int
    var authState: AuthState
    var game: Game?
    var gameList: Option<seq<string>>

    constructor (id: int)
      ensures this.id == id && authState == NotAuth && game == null && gameList == None
    {
      this.id := id;
      authState := NotAuth;
      game := null;
      gameList := None;
    }

    /** Marks the pairing code as confirmed; nothing else about the user changes. */
    method Confirm()
      modifies this
      ensures authState == AuthSuccess && game == old(game) && gameList == old(gameList)
    {
      authState := AuthSuccess;
    }
  }

  class Coordinator {
    /** Connections that are waiting for their pairing code to be confirmed, keyed by the code's value. */
    const authenticating: ConnectionManager
    /** Connections of users, keyed by user id. */
    const authenticated: ConnectionManager
    var userMap: map<int, User>
    /** Every user object the coordinator has made, including those since dropped from `userMap`. */
    ghost var Users: set<User>
    /** Every game object the coordinator has made, including those since abandoned. */
    ghost var Games: set<Game>

    /**
     * The cross-references between users and games: a user's game lists the
     * user, exactly once, and is a game whose owner is still in it; while an
     * owner is in its game, every listed player is in it too.
     */
    ghost predicate Valid()
      reads this, Users`game, Games`players
    {
      && authenticating != authenticated
      && userMap.Values <= Users
      && (forall k :: k in userMap ==> userMap[k].id == k)
      && (forall g :: g in Games ==> g.owner in Users && g.id == g.owner.id && NoDuplicates(g.players))
      && (forall g, i :: g in Games && 0 <= i < |g.players| ==> g.players[i] in Users)
      && (forall u :: u in Users && u.game != null ==> u.game in Games)
      && (forall u :: u in Users && u.game != null ==> u in u.game.players && u.game.owner.game == u.game)
      && (forall g, i :: g in Games && g.owner.game == g && 0 <= i < |g.players| ==> g.players[i].game == g)
    }

    /** The owner of any user's game is on that game's roster and still has the game. */
    lemma OwnerListed(u: User)
      requires Valid() && u in Users && u.game != null
      ensures u.game.owner in u.game.players && u.game.owner.game == u.game
    {
      var o := u.game.owner;
      assert o in Users && o.game != null;
    }

    /** Two distinct games whose owners still have them share no player. */
    lemma RostersDisjoint(g: Game, h: Game)
      requires Valid() && g in Games && h in Games && g != h && g.owner.game == g && h.owner.game == h
      ensures forall i, j :: 0 <= i < |g.players| && 0 <= j < |h.players| ==> g.players[i] != h.players[j]
    {
      forall i, j | 0 <= i < |g.players| && 0 <= j < |h.players|
        ensures g.players[i] != h.players[j]
      {
        assert g.players[i].game == g && h.players[j].game == h;
      }
    }

    constructor ()
      ensures Valid() && fresh(authenticating) && fresh(authenticated)
      ensures authenticating.active == map[] && authenticated.active == map[]
      ensures userMap == map[] && Users == {} && Games == {}
    {
      authenticating := new ConnectionManager();
      authenticated := new ConnectionManager();
      userMap := map[];
      Users := {};
      Games := {};
    }

    // -------------------------------------------------------------------------
    // Users and websockets
    // -------------------------------------------------------------------------

    /** What a finished OAuth login does to the user table: a fresh, unconfirmed user under `id`. */
    method AddUser(id: int) returns (u: User)
      requires Valid()
      modifies this
      ensures Valid() && fresh(u)
      ensures u.id == id && u.authState == NotAuth && u.game == null && u.gameList == None
      ensures userMap == old(userMap)[id := u]
      ensures Users == old(Users) + {u} && Games == old(Games)
    {
      u := new User(id);
      userMap := userMap[id := u];
      Users := Users + {u};
    }

    /** The pairing-timeout check: drops the user unless the pairing code was confirmed. */
    method RemoveUserIfNotAuthenticated(userId: int) returns (r: Reply)
      requires Valid()
      modifies this
      ensures Valid() && Users == old(Users) && Games == old(Games)
      ensures userId !in old(userMap) ==> r == Crash(NoSuchUser) && userMap == old(userMap)
      ensures userId in old(userMap) ==> r == Ok
      ensures userId in old(userMap) ==>
                (userId !in userMap <==> old(userMap[userId].authState) != AuthSuccess)
      ensures userMap == old(userMap) || userMap == old(userMap) - {userId}
    {
      if userId !in userMap {
        return Crash(NoSuchUser);
      }
      var user := userMap[userId];
      if user.authState != AuthSuccess {
        userMap := userMap - {userId};
      }
      r := Ok;
    }

    /** Opening `/ws/auth`: the connection is registered under the value of its fresh pairing code. */
    method OpenAuthSocket(ws: Conn, uuid: nat) returns (authId: string)
      requires Valid() && uuid < CodeSpace
      modifies authenticating
      ensures Valid()
      ensures authId == PairingCode(uuid) && ParseHexInt(authId) == Some(uuid as int)
      ensures authenticating.active == old(authenticating.active)[uuid := ws]
    {
      authId := PairingCode(uuid);
      var key := ParseHexInt(authId).value;
      authenticating.Connect(ws, key);
    }

    /** A frame on `/ws/auth`: `START AUTH` is answered with the login URL and the pairing code. */
    method AuthSocketFrame(ws: Conn, uuid: nat, data: string, loginUrl: string)
      requires uuid < CodeSpace
      modifies ws
      ensures StartsWith(data, StartAuthTag) ==>
                ws.outbox == old(ws.outbox) + [AuthUrlFrame(loginUrl), AuthIdFrame(PairingCode(uuid))]
      ensures !StartsWith(data, StartAuthTag) ==> ws.outbox == old(ws.outbox)
    {
      if StartsWith(data, StartAuthTag) {
        ws.SendText(AuthUrlFrame(loginUrl));
        ws.SendText(AuthIdFrame(PairingCode(uuid)));
      }
    }

    /** Closing `/ws/auth`. */
    method CloseAuthSocket(ws: Conn, uuid: nat)
      requires Valid() && uuid < CodeSpace
      modifies authenticating
      ensures Valid()
      ensures authenticating.active == old(authenticating.active) - {uuid}
    {
      authenticating.Disconnect(ws, PairingKey(uuid));
    }

    /** Opening `/ws/{user_id}`: the connection is registered and asked for its game list. */
    method OpenUserSocket(ws: Conn, userId: int)
      requires Valid()
      modifies authenticated, ws
      ensures Valid()
      ensures authenticated.active == old(authenticated.active)[userId := ws]
      ensures ws.outbox == old(ws.outbox) + [GameListRequest]
    {
      authenticated.Connect(ws, userId);
      ws.SendText(GameListRequest);
    }

    /** Closing `/ws/{user_id}`. */
    method CloseUserSocket(ws: Conn, userId: int)
      requires Valid()
      modifies authenticated
      ensures Valid()
      ensures authenticated.active == old(authenticated.active) - {userId}
    {
      authenticated.Disconnect(ws, userId);
    }

    // -------------------------------------------------------------------------
    // Frames from a user's connection
    // -------------------------------------------------------------------------

    /** The dispatcher for frames arriving on `/ws/{user_id}`. */
    method ProcessWsData(ws: Conn, data: string, userId: int) returns (r: Reply)
      requires Valid()
      modifies authenticated, Users, Games
      ensures Valid() && userMap == old(userMap) && Users == old(Users) && Games == old(Games)
      ensures userId !in userMap ==>
                && r == Crash(NoSuchUser) && unchanged(Users) && unchanged(Games)
                && authenticated.active == old(authenticated.active)
      ensures userId in userMap && ParseFrame(data).Logout? ==>
                && r == Ok && unchanged(Users) && unchanged(Games)
                && authenticated.active == old(authenticated.active) - {userId}
      ensures userId in userMap && ParseFrame(data).GameList? ==>
                && r == Ok && unchanged(Games) && authenticated.active == old(authenticated.active)
                && userMap[userId].gameList == Some(ParseFrame(data).roms)
                && userMap[userId].game == old(userMap[userId].game)
                && userMap[userId].authState == old(userMap[userId].authState)
                && unchanged(Users - {userMap[userId]})
      ensures userId in userMap && ParseFrame(data).ServerIp? ==>
                && unchanged(Users) && authenticated.active == old(authenticated.active)
                && (userMap[userId].game == null ==> r == Crash(UserHasNoGame) && unchanged(Games))
                && (userMap[userId].game != null ==>
                      && r == Ok
                      && userMap[userId].game.address == Some(ParseFrame(data).address)
                      && userMap[userId].game.players == old(userMap[userId].game.players)
                      && userMap[userId].game.status == old(userMap[userId].game.status)
                      && unchanged(Games - {userMap[userId].game}))
      ensures userId in userMap && (ParseFrame(data).Drop? || ParseFrame(data).Unmatched?) ==>
                && r == Ok && unchanged(Users) && unchanged(Games)
                && authenticated.active == old(authenticated.active)
    {
      if userId !in userMap {
        return Crash(NoSuchUser);
      }
      var user := userMap[userId];
      match ParseFrame(data)
      case Logout =>
        authenticated.Disconnect(ws, userId);
        r := Ok;
      case GameList(roms) =>
        RecordGameList(user, roms);
        r := Ok;
      case ServerIp(address) =>
        if user.game == null {
          return Crash(UserHasNoGame);
        }
        AnnounceAddress(user.game, address);
        r := Ok;
      case Drop =>
        r := Ok;
      case Unmatched =>
        r := Ok;
    }

    /** A `GAME LIST` frame replaces the user's list of owned ROMs and touches nothing else. */
    method RecordGameList(user: User, roms: seq<string>)
      requires Valid() && user in Users
      modifies user
      ensures Valid()
      ensures user.gameList == Some(roms) && user.game == old(user.game) && user.authState == old(user.authState)
    {
      user.gameList := Some(roms);
    }

    /** A `SERVER IP` frame records the host's address on its game and touches nothing else. */
    method AnnounceAddress(g: Game, address: string)
      requires Valid()
      modifies g
      ensures Valid()
      ensures g.address == Some(address) && g.players == old(g.players) && g.status == old(g.status)
    {
      g.address := Some(address);
    }

    // -------------------------------------------------------------------------
    // Chat commands
    // -------------------------------------------------------------------------

    /** `/cc`: confirms a pairing code on behalf of the command's author. */
    method ConfirmCode(authorId: int, authId: string) returns (r: Reply)
      requires Valid()
      modifies authenticating, authenticating.active.Values, Users
      ensures Valid() && userMap == old(userMap) && Users == old(Users) && Games == old(Games)
      ensures authenticated.active == old(authenticated.active)
      ensures authId == "" ==> r == MissingAuthId
      ensures authId != "" && ParseHexInt(authId).None? ==> r == Crash(BadHex)
      ensures authId == "" || ParseHexInt(authId).None? ==>
                && authenticating.active == old(authenticating.active)
                && unchanged(Users) && unchanged(old(authenticating.active.Values))
      ensures authId != "" && ParseHexInt(authId).Some? ==> ConfirmedKey(authorId, ParseHexInt(authId).value, old(authenticating.active), old(userMap), old(Users), r)
    {
      if authId == "" {
        return MissingAuthId;
      }
      var parsed := ParseHexInt(authId);
      if parsed.None? {
        return Crash(BadHex);
      }
      r := ConfirmKey(authorId, parsed.value);
    }

    /**
     * What `/cc` does once the code has parsed to `key`: an unknown key is
     * refused; otherwise the waiting connection leaves its registry and is
     * told the user id and the success, and then the author, looked up only
     * now, is marked as confirmed.
     */
    twostate predicate ConfirmedKey(
      authorId: int, key: int, pending: map<int, Conn>, table: map<int, User>, users: set<User>, r: Reply)
      reads authenticating, pending.Values, table.Values, users
    {
      && (key !in pending ==>
            && r == UnknownAuthId
            && authenticating.active == pending
            && unchanged(users) && unchanged(pending.Values))
      && (key in pending ==>
            var ws := pending[key];
            && authenticating.active == pending - {key}
            && ws.outbox == old(ws.outbox) + [UserIdFrame(authorId), AuthSuccessFrame]
            && unchanged(pending.Values - {ws})
            && (authorId in table ==>
                  var u := table[authorId];
                  && r == Ok
                  && u.authState == AuthSuccess && u.game == old(u.game) && u.gameList == old(u.gameList)
                  && unchanged(users - {u}))
            && (authorId !in table ==> r == Crash(NoSuchUser) && unchanged(users)))
    }

    /** `/cc` after the code has parsed to `key`. */
    method ConfirmKey(authorId: int, key: int) returns (r: Reply)
      requires Valid()
      modifies authenticating, authenticating.active.Values, Users
      ensures Valid() && userMap == old(userMap) && Users == old(Users) && Games == old(Games)
      ensures authenticated.active == old(authenticated.active)
      ensures ConfirmedKey(authorId, key, old(authenticating.active), old(userMap), old(Users), r)
    {
      if key !in authenticating.active {
        return UnknownAuthId;
      }
      var ws := CompletePairing(key, authorId);
      r := ConfirmAuthor(authorId);
    }

    /** The pairing half of `/cc`: the waiting socket leaves its registry and is sent the user id and the success. */
    method CompletePairing(key: int, authorId: int) returns (ws: Conn)
      requires key in authenticating.active
      modifies authenticating, authenticating.active.Values
      ensures ws == old(authenticating.active[key])
      ensures authenticating.active == old(authenticating.active) - {key}
      ensures ws.outbox == old(ws.outbox) + [UserIdFrame(authorId), AuthSuccessFrame]
      ensures unchanged(old(authenticating.active.Values) - {ws})
    {
      ws := authenticating.Pop(key);
      ws.SendText(UserIdFrame(authorId));
      ws.SendText(AuthSuccessFrame);
    }

    /** `user_map[ctx.author.id].auth_state = AUTH_SUCCESS`, a `KeyError` when the author is not in the table. */
    method ConfirmAuthor(authorId: int) returns (r: Reply)
      requires Valid()
      modifies Users
      ensures Valid() && userMap == old(userMap) && Users == old(Users) && Games == old(Games)
      ensures authorId !in userMap ==> r == Crash(NoSuchUser) && unchanged(Users)
      ensures authorId in userMap ==>
                var u := userMap[authorId];
                && r == Ok
                && u.authState == AuthSuccess && u.game == old(u.game) && u.gameList == old(u.gameList)
                && unchanged(Users - {u})
    {
      if authorId !in userMap {
        return Crash(NoSuchUser);
      }
      var user := userMap[authorId];
      user.Confirm();
      r := Ok;
    }

    /** A code can be spent once: whatever the first `/cc` with it did, the same code sent again is refused. */
    method ConfirmTwice(authorId: int, authId: string) returns (first: Reply, second: Reply)
      requires Valid()
      modifies authenticating, authenticating.active.Values, Users
      ensures Valid()
      ensures second != Ok
      ensures authId != "" && ParseHexInt(authId).Some? ==> second == UnknownAuthId
      ensures authId == "" || ParseHexInt(authId).None? ==> second == first
    {
      first := ConfirmCode(authorId, authId);
      assert authenticating.active.Values <= old(authenticating.active.Values);
      second := ConfirmCode(authorId, authId);
    }

    /** The author may create a game: known, in no game, and owning the named ROM. */
    ghost predicate CanCreate(authorId: int, romName: string)
      reads this, Users, Games
      requires Valid()
    {
      && authorId in userMap
      && userMap[authorId].game == null
      && romName != ""
      && userMap[authorId].gameList.Some?
      && romName in userMap[authorId].gameList.value
    }

    /** `/creategame`. */
    method CreateGame(authorId: int, romName: string) returns (r: Reply)
      requires Valid()
      modifies this, Users, authenticated.active.Values
      ensures Valid() && userMap == old(userMap) && Users == old(Users)
      ensures authenticated.active == old(authenticated.active)
      ensures authorId !in userMap ==> r == NotAuthenticated
      ensures authorId in userMap && old(userMap[authorId].game) != null ==> r == AlreadyInGame
      ensures authorId in userMap && old(userMap[authorId].game) == null && romName == "" ==> r == InvalidRomName
      ensures (authorId in userMap && old(userMap[authorId].game) == null && romName != ""
              && old(userMap[authorId].gameList).None?) ==> r == Crash(NoGameList)
      ensures (authorId in userMap && old(userMap[authorId].game) == null && romName != ""
              && old(userMap[authorId].gameList).Some? && romName !in old(userMap[authorId].gameList).value) ==>
                r == InvalidRomName
      ensures !old(CanCreate(authorId, romName)) ==>
                Games == old(Games) && unchanged(Users) && unchanged(old(authenticated.active.Values))
      ensures old(CanCreate(authorId, romName)) ==>
                var u := userMap[authorId];
                && u.game != null && fresh(u.game) && Games == old(Games) + {u.game}
                && u.game.players == [u] && u.game.owner == u && u.game.id == authorId
                && u.game.romName == romName && u.game.address == None && u.game.status == Idle
                && u.authState == old(u.authState) && u.gameList == old(u.gameList)
                && unchanged(Users - {u})
      ensures old(CanCreate(authorId, romName)) && authorId in authenticated.active ==>
                var ws := authenticated.active[authorId];
                && r == Ok
                && ws.outbox == old(ws.outbox) + [CreateGameFrame]
                && unchanged(old(authenticated.active.Values) - {ws})
      ensures old(CanCreate(authorId, romName)) && authorId !in authenticated.active ==>
                r == Crash(NoUserConnection) && unchanged(old(authenticated.active.Values))
    {
      if authorId !in userMap {
        return NotAuthenticated;
      }
      var user := userMap[authorId];
      if user.game != null {
        return AlreadyInGame;
      }
      if romName == "" {
        return InvalidRomName;
      }
      if user.gameList.None? {
        return Crash(NoGameList);
      }
      if romName !in user.gameList.value {
        return InvalidRomName;
      }
      var g := OpenGame(user, romName);
      if authorId !in authenticated.active {
        return Crash(NoUserConnection);
      }
      var ws := authenticated.active[authorId];
      ws.SendText(CreateGameFrame);
      r := Ok;
    }

    /** `user.game = Game(players=[user], ...)`: a fresh game owned by `user` and listing only `user`. */
    method OpenGame(user: User, romName: string) returns (g: Game)
      requires Valid() && user in Users && user.game == null
      modifies this, user
      ensures Valid() && fresh(g) && user.game == g
      ensures userMap == old(userMap) && Users == old(Users) && Games == old(Games) + {g}
      ensures g.players == [user] && g.owner == user && g.id == user.id && g.romName == romName
      ensures g.address == None && g.status == Idle
      ensures user.authState == old(user.authState) && user.gameList == old(user.gameList)
    {
      g := new Game([user], user.id, user, romName);
      user.game := g;
      Games := Games + {g};
    }

    /** The author may join the game of `gameId`: known, in no game, and owning that game's ROM. */
    ghost predicate CanJoin(authorId: int, gameId: Option<int>)
      reads this, Users, Games
      requires Valid()
    {
      && authorId in userMap
      && userMap[authorId].game == null
      && gameId.Some? && gameId.value in userMap
      && userMap[gameId.value].game != null
      && userMap[authorId].gameList.Some?
      && userMap[gameId.value].game.romName in userMap[authorId].gameList.value
    }

    /** `/joingame`: there is no check on the game's size or status. */
    method JoinGame(authorId: int, gameId: Option<int>) returns (r: Reply)
      requires Valid()
      modifies Users, Games, authenticated.active.Values
      ensures Valid() && userMap == old(userMap) && Users == old(Users) && Games == old(Games)
      ensures authenticated.active == old(authenticated.active)
      ensures authorId !in userMap ==> r == NotAuthenticated
      ensures authorId in userMap && old(userMap[authorId].game) != null ==> r == AlreadyInGame
      ensures (authorId in userMap && old(userMap[authorId].game) == null
              && !(gameId.Some? && gameId.value in userMap)) ==> r == GameNotFound
      ensures (authorId in userMap && old(userMap[authorId].game) == null
              && gameId.Some? && gameId.value in userMap && old(userMap[gameId.value].game) == null) ==>
                r == Crash(TargetHasNoGame)
      ensures (authorId in userMap && old(userMap[authorId].game) == null
              && gameId.Some? && gameId.value in userMap && old(userMap[gameId.value].game) != null
              && old(userMap[authorId].gameList).None?) ==> r == Crash(NoGameList)
      ensures (authorId in userMap && old(userMap[authorId].game) == null
              && gameId.Some? && gameId.value in userMap && old(userMap[gameId.value].game) != null
              && old(userMap[authorId].gameList).Some?
              && old(userMap[gameId.value].game.romName) !in old(userMap[authorId].gameList).value) ==>
                r == RomNotOwned
      ensures old(CanJoin(authorId, gameId)) && authorId !in authenticated.active ==> r == Crash(NoUserConnection)
      ensures r == Ok <==> old(CanJoin(authorId, gameId)) && authorId in authenticated.active
      ensures r != Ok ==> unchanged(Users) && unchanged(Games) && unchanged(old(authenticated.active.Values))
      ensures r == Ok ==>
                var u := userMap[authorId];
                var g := old(userMap[gameId.value].game);
                var ws := authenticated.active[authorId];
                && u.game == g
                && g.players == old(g.players) + [u]
                && g.address == old(g.address) && g.status == old(g.status)
                && unchanged(Games - {g})
                && u.authState == old(u.authState) && u.gameList == old(u.gameList)
                && unchanged(Users - {u})
                && ws.outbox == old(ws.outbox) + [JoinGameFrame(old(g.address))]
                && unchanged(old(authenticated.active.Values) - {ws})
    {
      var gameOwner: User? := if gameId.Some? && gameId.value in userMap then userMap[gameId.value] else null;
      if authorId !in userMap {
        return NotAuthenticated;
      }
      var user := userMap[authorId];
      if user.game != null {
        return AlreadyInGame;
      }
      if gameOwner == null {
        return GameNotFound;
      }
      var g := gameOwner.game;
      if g == null {
        return Crash(TargetHasNoGame);
      }
      if user.gameList.None? {
        return Crash(NoGameList);
      }
      if g.romName !in user.gameList.value {
        return RomNotOwned;
      }
      if authorId !in authenticated.active {
        return Crash(NoUserConnection);
      }
      var ws := authenticated.active[authorId];
      ws.SendText(JoinGameFrame(g.address));
      EnterGame(user, g);
      r := Ok;
    }

    /** `game_owner.game.players.append(user)` and then `user.game = game_owner.game`. */
    method EnterGame(user: User, g: Game)
      requires Valid() && user in Users && user.game == null && g in Games && g.owner.game == g
      modifies user, g
      ensures Valid()
      ensures user.game == g && user.authState == old(user.authState) && user.gameList == old(user.gameList)
      ensures g.players == old(g.players) + [user] && g.address == old(g.address) && g.status == old(g.status)
    {
      // Everyone listed in a game whose owner still has it has that game, so `user` is not listed yet.
      assert user !in g.players;
      var before := g.players;
      AppendFresh(before, user);
      g.players := before + [user];
      user.game := g;
      // Nobody who had a game is `user`, so every other cross-reference is as before.
      forall v | v in Users && v.game != null
        ensures v.game in Games && v in v.game.players && v.game.owner.game == v.game
      {
        if v != user {
          assert v.game == old(v.game) && old(v.game.owner.game) == v.game;
          assert v.game == g ==> v in before;
        }
      }
      forall h, k | h in Games && h.owner.game == h && 0 <= k < |h.players|
        ensures h.players[k].game == h
      {
        if h == g {
          if k < |before| {
            assert h.players[k] == before[k] && old(before[k].game) == g;
          }
        } else {
          assert old(h.owner.game) == h && old(h.players[k].game) == h;
        }
      }
    }

    /** `/leavegame`: an owner leaving clears the game of every player; anyone else just drops out of the roster. */
    method LeaveGame(authorId: int) returns (r: Reply)
      requires Valid()
      modifies Users, Games, authenticated.active.Values
      ensures Valid() && userMap == old(userMap) && Users == old(Users) && Games == old(Games)
      ensures authenticated.active == old(authenticated.active)
      ensures r != Ok ==> unchanged(Users) && unchanged(Games) && unchanged(old(authenticated.active.Values))
      ensures authorId !in userMap ==> r == NotAuthenticated
      ensures authorId in userMap ==>
                var u := userMap[authorId];
                var g := old(u.game);
                && (g == null ==> r == NoGame)
                && (g != null && authorId !in authenticated.active ==> r == Crash(NoUserConnection))
                && (g != null && authorId in authenticated.active ==>
                      r == Ok && Left(u, g, authenticated.active[authorId], Users, Games, authenticated.active.Values))
    {
      if authorId !in userMap {
        return NotAuthenticated;
      }
      var user := userMap[authorId];
      var g := user.game;
      if g == null {
        return NoGame;
      }
      if authorId !in authenticated.active {
        return Crash(NoUserConnection);
      }
      var ws := authenticated.active[authorId];
      LeaveWith(user, g, ws);
      r := Ok;
    }

    /**
     * The outcome of `u` leaving `g` after `LEAVE GAME` went down `ws`: `u`
     * has no game. If `u` owned `g`, exactly the players listed in `g` lost
     * their game, nobody has `g` any more, and no game changed. Otherwise `u`
     * left the roster by its first entry and no other user or game changed.
     */
    twostate predicate Left(u: User, g: Game, ws: Conn, users: set<User>, games: set<Game>, conns: set<Conn>)
      reads u, g, ws, users, games, conns
    {
      && u.game == null && u.authState == old(u.authState) && u.gameList == old(u.gameList)
      && ws.outbox == old(ws.outbox) + [LeaveGameFrame]
      && unchanged(conns - {ws})
      && (g.owner == u ==>
            && unchanged(games)
            && (forall v :: v in users ==> v.game == if v in old(g.players) then null else old(v.game))
            && (forall v :: v in users ==> v.game != g)
            && (forall v :: v in users ==> v.authState == old(v.authState) && v.gameList == old(v.gameList)))
      && (g.owner != u ==>
            && u in old(g.players)
            && g.players == RemoveFirst(old(g.players), u)
            && u !in g.players
            && g.address == old(g.address) && g.status == old(g.status)
            && unchanged(games - {g})
            && unchanged(users - {u}))
    }

    /** The body of `/leavegame` once the author, its game and its socket are known. */
    method LeaveWith(user: User, g: Game, ws: Conn)
      requires Valid() && user in Users && user.game == g && ws in authenticated.active.Values
      modifies Users, Games, ws
      ensures Valid() && Left(user, g, ws, Users, Games, authenticated.active.Values)
    {
      ws.SendText(LeaveGameFrame);
      assert Valid();
      if user == g.owner {
        Disband(user, g);
      } else {
        DropOut(user, g);
      }
    }

    /** The owner's `/leavegame`: every player of the game, the owner last, is left without a game. */
    method Disband(owner: User, g: Game)
      requires Valid() && owner in Users && owner.game == g && g.owner == owner
      modifies Users
      ensures Valid()
      ensures forall v :: v in Users ==> v.game == if v in g.players then null else old(v.game)
      ensures forall v :: v in Users ==> v.game != g
      ensures forall v :: v in Users ==> v.authState == old(v.authState) && v.gameList == old(v.gameList)
    {
      var players := g.players;
      ClearPlayers(players, owner);
      owner.game := null;
      // Every old player had `g` as its game, so what is left are the games nobody of `g` was in.
      assert forall v :: v in Users && v in players ==> old(v.game) == g;
      forall u | u in Users && u.game != null
        ensures u.game in Games && u in u.game.players && u.game.owner.game == u.game
      {
        assert u.game == old(u.game) && u.game != g;
        var o := u.game.owner;
        assert old(o.game) == u.game;
        assert o !in players;
      }
      forall h, k | h in Games && h.owner.game == h && 0 <= k < |h.players|
        ensures h.players[k].game == h
      {
        assert h != g;
        assert old(h.owner.game) == h;
        assert old(h.players[k].game) == h;
      }
    }

    /** The loop of an owner's leave: every listed player but the owner loses its game. */
    method ClearPlayers(players: seq<User>, owner: User)
      requires forall k :: 0 <= k < |players| ==> players[k] in Users
      modifies Users
      ensures forall v :: v in Users ==> v.authState == old(v.authState) && v.gameList == old(v.gameList)
      ensures forall v :: v in Users ==> v.game == if v in players && v != owner then null else old(v.game)
    {
      var i := 0;
      while i < |players|
        invariant 0 <= i <= |players|
        modifies Users
        invariant forall v :: v in Users ==> v.authState == old(v.authState) && v.gameList == old(v.gameList)
        invariant forall v :: v in Users ==> v.game == if v in players[..i] && v != owner then null else old(v.game)
      {
        var p := players[i];
        if p != owner {
          p.game := null;
        }
        assert players[..i + 1] == players[..i] + [p];
        i := i + 1;
      }
      assert players[..i] == players;
    }

    /** A player other than the owner leaving: its first entry in the roster is removed. */
    method DropOut(user: User, g: Game)
      requires Valid() && user in Users && user.game == g && g.owner != user
      modifies user, g
      ensures Valid()
      ensures user.game == null && user.authState == old(user.authState) && user.gameList == old(user.gameList)
      ensures user in old(g.players) && g.players == RemoveFirst(old(g.players), user) && user !in g.players
      ensures g.address == old(g.address) && g.status == old(g.status)
    {
      var before := g.players;
      RemoveFirstMembers(before, user);
      RemoveFirstNoDuplicates(before, user);
      g.players := RemoveFirst(before, user);
      user.game := null;
      // The owner stays, so every remaining player still has `g`, and nobody else's game changed.
      forall k | 0 <= k < |g.players|
        ensures g.players[k] in before && g.players[k] != user && g.players[k] in Users && g.players[k].game == g
      {
        assert g.players[k] in g.players;
      }
      forall u | u in Users && u.game == g
        ensures u in g.players
      {
        assert u != user && u in before;
      }
    }

    /** `/startgame`: only the owner may start, and the game becomes `Started`. */
    method StartGame(authorId: int) returns (r: Reply)
      requires Valid()
      modifies Games, authenticated.active.Values
      ensures Valid() && userMap == old(userMap) && Users == old(Users) && Games == old(Games)
      ensures unchanged(Users) && authenticated.active == old(authenticated.active)
      ensures authorId !in userMap ==> r == NotAuthenticated
      ensures authorId in userMap && userMap[authorId].game == null ==> r == NoGame
      ensures authorId in userMap && userMap[authorId].game != null && userMap[authorId].game.owner != userMap[authorId] ==>
                r == NotOwner
      ensures (authorId in userMap && userMap[authorId].game != null && userMap[authorId].game.owner == userMap[authorId]
              && authorId !in authenticated.active) ==> r == Crash(NoUserConnection)
      ensures r == Ok <==>
                && authorId in userMap && userMap[authorId].game != null
                && userMap[authorId].game.owner == userMap[authorId] && authorId in authenticated.active
      ensures r != Ok ==> unchanged(Games) && unchanged(old(authenticated.active.Values))
      ensures r == Ok ==>
                var g := userMap[authorId].game;
                var ws := authenticated.active[authorId];
                && g.status == Started
                && g.players == old(g.players) && g.address == old(g.address)
                && unchanged(Games - {g})
                && ws.outbox == old(ws.outbox) + [StartGameFrame]
                && unchanged(old(authenticated.active.Values) - {ws})
    {
      if authorId !in userMap {
        return NotAuthenticated;
      }
      var user := userMap[authorId];
      var g := user.game;
      if g == null {
        return NoGame;
      }
      if g.owner != user {
        return NotOwner;
      }
      if authorId !in authenticated.active {
        return Crash(NoUserConnection);
      }
      var ws := authenticated.active[authorId];
      ws.SendText(StartGameFrame);
      g.status := Started;
      r := Ok;
    }
  }

  /** The first half of a pairing: the user has logged in and the emulator's pairing socket is open. */
  method StartPairing(userId: int, uuid: nat) returns (c: Coordinator, ws: Conn, shown: string)
    requires uuid < CodeSpace
    ensures c.Valid() && fresh(c) && fresh(c.authenticating) && fresh(ws) && fresh(c.Users)
    ensures userId in c.userMap && c.userMap[userId].authState == NotAuth
    ensures c.authenticating.active == map[uuid as int := ws] && ws.outbox == []
    ensures shown != "" && ParseHexInt(shown) == Some(uuid as int)
  {
    c := new Coordinator();
    var u := c.AddUser(userId);
    assert c.Users == {u};
    ws := new Conn();
    shown := c.OpenAuthSocket(ws, uuid);
  }

  /**
   * A whole pairing: the user finishes the login, the emulator opens its
   * pairing socket, the user confirms the code it was shown, and the
   * timeout check that follows keeps the user.
   */
  method Pairing(userId: int, uuid: nat) returns (c: Coordinator, ws: Conn, shown: string, r: Reply, kept: Reply)
    requires uuid < CodeSpace
    ensures c.Valid()
    ensures r == Ok && kept == Ok
    ensures userId in c.userMap && c.userMap[userId].authState == AuthSuccess
    ensures c.authenticating.active == map[]
    ensures ws.outbox == [UserIdFrame(userId), AuthSuccessFrame]
  {
    c, ws, shown := StartPairing(userId, uuid);
    SingleConnection(uuid as int, ws);
    r := c.ConfirmCode(userId, shown);
    assert c.authenticating.active == map[uuid as int := ws] - {uuid as int};
    kept := c.RemoveUserIfNotAuthenticated(userId);
  }
}
