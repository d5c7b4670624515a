# Matchmaking coordinator model

A Dafny model of the in-memory matchmaking coordinator in `run.py`. The
coordinator pairs an emulator client with a Discord identity and runs game
lobbies for the users in the user table, paired or not. It keeps three
mutable tables:

- two connection registries (`ConnectionManager.active_connections`). The
  pre-auth registry is keyed by the value of the pairing code read as hex.
  The post-auth registry is keyed by user id.
- `user_map`, from user id to the user record, with each user's
  `auth_state`, `game` and `game_list`.
- the `Game` records, each with an ordered `players` list, an `owner`, an
  `address` and a `status`.

Modules, in dependency order:

- `Options` (`options.dfy`): the `Option` type.
- `Text` (`text.dfy`): the Python string behaviour the coordinator relies
  on. This is `str.startswith`, `str.split(",")` and `",".join(...)`,
  `int(s, 16)`, `uuid.UUID.hex`, and the decimal rendering of an `int`
  inside an f-string.
- `Lists` (`lists.dfy`): `list.remove` and duplicate-freedom.
- `Protocol` (`protocol.dfy`): the frame tags, the dispatcher's prefix
  parse of an inbound frame, and the outbound frames.
- `Connections` (`connections.dfy`): a websocket as an outbox of sent
  frames (`Conn`) and the registry (`ConnectionManager`).
- `Matchmaking` (`matchmaking.dfy`): the `Game` and `User` objects and the
  `Coordinator`, which holds the handlers.

The handlers are imperative methods on shared objects, as in the source:

- `user.game` aliases the game object its players share;
- the roster is a sequence field that the methods reassign;
- the owner leaving walks the roster with a loop.

Each handler states its rejection conditions in the order the source tests
them, and what each outcome leaves behind.

Each handler is modelled as one atomic step, and every handler keeps the
ghost invariant `Coordinator.Valid()`. While a user's `game` is set:

- the user is listed in that game's `players` exactly once;
- that game's owner still has the game;
- while an owner has its game, every listed player has it too.

A Python exception on the way through a handler becomes the reply
`Crash(fault)`. Whatever the handler changed before the exception stays
changed, as it does in the running program:

- `/creategame` sets `user.game` before it looks up the connection;
- `/cc` pops the code and sends its two frames before it looks up the user.

Object equality between users (`user == user.game.owner`, `_user != user`,
`players.remove(user)`) is modelled as identity, which is how these objects
are used.

The model follows the code as written, which does the following:

- `/joingame` checks neither capacity nor status;
- `/startgame` sets the status to `STARTED`, and nothing ever sets `PLAYING`;
- no drop command exists, and a `DROP` frame does nothing;
- `/cc` does not put the connection into the post-auth registry;
- a malformed code is an exception, not a refusal;
- `/creategame` sends `CREATE GAME` without the ROM name;
- `disconnect` ignores the connection it is given and removes by id;
- no lobby command checks `auth_state`, so a user who has logged in but not
  yet confirmed a code can create, join, leave and start games.

## Model

| member | source | states |
|---|---|---|
| Text.StartsWith | run.py:87-95 | `data.startswith(tag)` holds iff the frame is the tag followed by some rest |
| Text.ParseHexInt | run.py:170 | `int(s, 16)`, with `None` for the `ValueError`. The contract states that a blank string is a `ValueError`. The body strips white space and reads an optional sign, an optional `0x` and digits with single underscores between them; the lemmas below state each of these forms |
| Text.Split | run.py:90 | `data[9:].split(",")` has one more piece than the payload has commas, and no piece contains a comma |
| Text.JoinSplit | run.py:90 | joining the pieces of a split with `,` gives back the payload exactly |
| Text.SplitJoin | run.py:90 | splitting the `,`-join of a non-empty list of comma-free pieces gives back the pieces |
| Text.HexString | run.py:132 | the pairing code is exactly `width` characters, all lower-case hex digits, as `uuid4().hex` renders them |
| Text.HexStringValue | run.py:132-133 | the digits of the rendered code have the value the code was rendered from |
| Text.ParsePlainDigits | run.py:170 | `int(s, 16)` accepts a string of plain hex digits and yields its value |
| Text.ParseHexString | run.py:170 | `int(code, 16)` on a rendered pairing code gives back the number it was rendered from, so `/cc` looks up the key the socket was registered under |
| Text.ParsePlusDigits | run.py:170 | `int(s, 16)` reads a `+` in front of plain hex digits as their value |
| Text.ParseMinusDigits | run.py:170 | `int(s, 16)` reads a `-` in front of plain hex digits as the negated value |
| Text.DigitsValueSkip | run.py:170 | an underscore between digits adds nothing to their value |
| Text.ParseGroupedDigits | run.py:170 | `int(s, 16)` reads two runs of hex digits joined by one underscore as the digits run together |
| Text.ParsePrefixedDigits | run.py:170 | `int(s, 16)` accepts a `0x` prefix in front of plain hex digits and yields the same value |
| Text.ParsePaddedDigits | run.py:170 | `int(s, 16)` ignores any run of white space before and after plain hex digits |
| Text.SeparatorNotSkipped | run.py:170 | the separators U+001C..U+001F are not white space to `int()`: a code with one in front is a `ValueError` |
| Text.AliasesOfHexString | run.py:170 | the code with `0x` in front, or with any white space before and after it, names the same registry key |
| Text.NatString | run.py:174 | a natural number renders as non-empty decimal digits without a leading zero |
| Text.DecimalString | run.py:174 | `f"{id}"` is a minus sign and digits for a negative id, and digits alone otherwise |
| Text.NatStringValue | run.py:174 | the decimal digits of a natural number read back as that number |
| Text.DecimalRoundTrip | run.py:174 | the decimal rendering of an id reads back as that id |
| Lists.FirstIndex | run.py:216 | the position found holds the element and no earlier position does |
| Lists.RemoveFirst | run.py:216 | `players.remove(user)` drops exactly the first occurrence: one element shorter, with the order of the rest kept |
| Lists.RemoveFirstCount | run.py:216 | a removal takes one copy of the leaver out of the roster's multiset and keeps every other count |
| Lists.RemoveFirstMembers | run.py:216 | after a removal every other player is still listed and nobody new is |
| Lists.RemoveFirstNoDuplicates | run.py:216 | removing from a duplicate-free roster leaves it duplicate-free with the leaver gone |
| Lists.AppendFresh | run.py:256 | appending a player who is not yet listed keeps the roster duplicate-free |
| Protocol.ParseFrame | run.py:87-96 | the tags are tried in order `LOGOUT`, `GAME LIST`, `SERVER IP`, `DROP`, and each kind is chosen iff its tag prefixes the frame and no earlier tag does; a `GAME LIST` payload after 9 characters joins back to the text and has commas + 1 entries; a `SERVER IP` address is the text after 9 characters |
| Protocol.ParseFormat | run.py:87-96 | every frame a client can write is read back by the dispatcher as that frame |
| Protocol.PairingCode | run.py:132-133 | the shown code is 32 lower-case hex digits, and `int(code, 16)` reads it back as the uuid's value |
| Protocol.PairingKey | run.py:143 | the key the pairing socket is filed under, `int(code, 16)`, is the uuid's value |
| Protocol.AuthUrlFrame | run.py:140 | the frame is `AUTH URL` followed by the login URL |
| Protocol.AuthIdFrame | run.py:141 | the frame is `AUTH ID` followed by the pairing code |
| Protocol.UserIdFrame | run.py:174 | the frame is `USER ID` followed by the author's id in decimal |
| Protocol.JoinGameFrame | run.py:255 | the frame is `JOIN GAME` followed by the game's address, or by `None` when no address was announced |
| Protocol.UserIdFrameCarriesId | run.py:174 | the `USER ID` frame starts with its tag and the rest reads back as the author's id |
| Connections.Conn.constructor | run.py:128-129 | a new websocket has sent nothing |
| Connections.Conn.SendText | run.py:140-141 | `websocket.send_text` appends exactly the message to what the socket has sent; the handlers call it at run.py:140-141, 150, 174-175, 195, 210, 234 and 255 |
| Connections.ConnectionManager.constructor | run.py:60-61 | a registry starts empty |
| Connections.ConnectionManager.Connect | run.py:63-65 | after `connect(ws, id)` the registry maps `id` to `ws`, replacing any earlier entry and keeping every other key |
| Connections.ConnectionManager.Pop | run.py:173 | `active_connections.pop(key)` returns the registered socket and removes only that key |
| Connections.ConnectionManager.Disconnect | run.py:67-69 | `disconnect(_, id)` removes `id` and no other key, so it changes nothing when `id` is absent |
| Matchmaking.Game.constructor | run.py:30-37 | a new game has the given roster, id, owner and ROM, and no address, in status `IDLE` |
| Matchmaking.User.constructor | run.py:39-56 | a new user is `NOT_AUTH`, in no game, with no game list |
| Matchmaking.User.Confirm | run.py:177 | only `auth_state` changes, to `AUTH_SUCCESS` |
| Matchmaking.Coordinator.Valid | run.py:193-257 | the user–game cross-references every handler keeps: a user's game lists the user exactly once, that game's owner still has it, and while the owner has it every listed player has it too |
| Matchmaking.Coordinator.OwnerListed | run.py:211-214 | the owner of any user's game is on that roster and still has the game, so the owner's leave walks a roster that holds the owner |
| Matchmaking.Coordinator.RostersDisjoint | run.py:256-257 | two live games share no player, so a join never puts a user on two rosters |
| Matchmaking.Coordinator.constructor | run.py:78-80 | both registries and the user table start empty, and the invariant holds |
| Matchmaking.Coordinator.AddUser | run.py:121-122 | a finished login puts a fresh `NOT_AUTH` user with no game under its id, and the invariant holds |
| Matchmaking.Coordinator.RemoveUserIfNotAuthenticated | run.py:98-104 | the user is removed iff its `auth_state` is not `AUTH_SUCCESS`; no other entry changes; an absent user is a `KeyError` |
| Matchmaking.Coordinator.OpenAuthSocket | run.py:132-133 | the pairing socket is registered under `int(code, 16)`, which equals the random value the code renders, and no other key changes |
| Matchmaking.Coordinator.AuthSocketFrame | run.py:136-141 | `START AUTH` is answered with `AUTH URL<url>` and then `AUTH ID<code>`; any other frame sends nothing |
| Matchmaking.Coordinator.CloseAuthSocket | run.py:142-143 | closing the pairing socket removes its code's key and no other |
| Matchmaking.Coordinator.OpenUserSocket | run.py:149-150 | the user socket is registered under the user id and is sent exactly `GAME LIST` |
| Matchmaking.Coordinator.CloseUserSocket | run.py:155-156 | closing the user socket removes the user's key and no other |
| Matchmaking.Coordinator.ProcessWsData | run.py:82-96 | an unknown user is a `KeyError` with nothing changed. `LOGOUT` removes only this user's post-auth entry. `GAME LIST` sets only this user's `game_list`, to the split payload. `SERVER IP` sets only the address of the user's game, or crashes with nothing changed when there is no game. `DROP` and unmatched frames change nothing. The invariant holds throughout |
| Matchmaking.Coordinator.RecordGameList | run.py:89-90 | a `GAME LIST` frame sets only the user's `game_list`, and the invariant holds |
| Matchmaking.Coordinator.AnnounceAddress | run.py:93-94 | a `SERVER IP` frame sets only the game's `address`, and the invariant holds |
| Matchmaking.Coordinator.ConfirmCode | run.py:164-177 | an empty code is refused with nothing changed; a malformed one raises with nothing changed; past the parse the outcome is `ConfirmedKey` for the parsed key |
| Matchmaking.Coordinator.ConfirmKey | run.py:170-177 | an unknown key is refused with nothing changed. A known key is popped, and exactly that socket is sent `USER ID<author>` and then `AUTH SUCCESS`. Then the author alone becomes `AUTH_SUCCESS`, or, if the author is not in the table, the handler raises with no user changed |
| Matchmaking.Coordinator.CompletePairing | run.py:173-175 | the pending socket is popped, only its key leaves the registry, and it is sent `USER ID<author>` and then `AUTH SUCCESS` |
| Matchmaking.Coordinator.ConfirmAuthor | run.py:177 | the author in the table becomes `AUTH_SUCCESS` and nothing else changes; an author not in the table is a `KeyError` with no user changed |
| Matchmaking.Coordinator.ConfirmTwice | run.py:170-173 | a code that parsed can be confirmed at most once: the second `/cc` with it is refused as unknown, whatever the first did |
| Matchmaking.Coordinator.CreateGame | run.py:181-195 | rejects, with nothing changed, in order: unknown author, author already in a game, missing ROM name, no game list yet (a crash), ROM not in the game list. Otherwise the author's game is a fresh game `[author]`, owned by the author, with id the author's id, the ROM, no address, `IDLE`, and only the author changed. `CREATE GAME` is sent on the author's socket, or the handler crashes after the game is set when there is no socket. The invariant holds |
| Matchmaking.Coordinator.OpenGame | run.py:193 | the author's game becomes a fresh game `[author]`, owned by the author, with the author's id and the ROM, no address, `IDLE`; the invariant holds |
| Matchmaking.Coordinator.JoinGame | run.py:239-257 | rejects, with nothing changed, in order: unknown author, author in a game, unknown target, target without a game (a crash), no game list (a crash), ROM not owned, no socket (a crash). Success holds iff none of these: the author is appended at the end of the target's roster, the rest of the roster unchanged, and the author's `game` becomes that same game. `JOIN GAME<address>` is sent with the address before the join. The invariant holds |
| Matchmaking.Coordinator.EnterGame | run.py:256-257 | the author is appended to the roster of a game whose owner has it, its `game` becomes that game, and the invariant holds |
| Matchmaking.Coordinator.LeaveGame | run.py:199-217 | rejects an unknown author or one with no game with nothing changed, and crashes with nothing changed when there is no socket. Otherwise `LEAVE GAME` is sent and the author ends with no game. An owner leaving clears the game of exactly the listed players and nobody keeps the game. Anyone else leaving is removed by its first occurrence from the roster, and every other user and game stays as it was. The invariant holds |
| Matchmaking.Coordinator.LeaveWith | run.py:210-217 | `LEAVE GAME` is sent on the author's socket and no other; then the owner's or a player's leave, as `LeaveGame` states it; the invariant holds |
| Matchmaking.Coordinator.ClearPlayers | run.py:212-214 | the loop clears the game of every listed player except the owner and of nobody else, and keeps every user's other fields |
| Matchmaking.Coordinator.Disband | run.py:211-217 | the owner's leave: a user has no game afterwards iff it was on the roster, and otherwise keeps its game; the invariant holds |
| Matchmaking.Coordinator.DropOut | run.py:215-217 | a non-owner's leave: the roster loses the leaver's first occurrence, the leaver has no game, and the invariant holds |
| Matchmaking.Coordinator.StartGame | run.py:221-235 | rejects, with nothing changed, in order: unknown author, no game, not the owner, no socket (a crash). Success holds iff none of these: `START GAME` is sent and the game's status becomes `STARTED`, with only that game changed and no user changed |
| Matchmaking.StartPairing | run.py:121-133 | after a login and an opened pairing socket, the user is `NOT_AUTH` and the only pending key is the code's value, which `int(code, 16)` gives back |
| Matchmaking.Pairing | run.py:164-177 | after login, an opened pairing socket and `/cc` with the code shown, the user is `AUTH_SUCCESS`, no pairing is pending, the socket has received `USER ID<id>` and `AUTH SUCCESS`, and the timeout check keeps the user |

## Left out

- Concurrency: each handler runs as one atomic step. The interleavings that the awaits in run.py allow are not modelled: `/joingame` awaits at run.py:255 between its check at run.py:247 and its append at run.py:256, `/leavegame` at run.py:210, `/startgame` at run.py:234 and `/cc` at run.py:174-175. With those interleavings, two overlapping `/joingame` calls from one user can list the user twice, a state `Valid()` excludes. Likewise, an owner's `/leavegame` that completes during a player's await at run.py:210 makes run.py:211 raise `AttributeError`.

- The OAuth callback's HTTP exchange, the Discord API call and the direct message (run.py:106-120, 123-126) are network I/O. Only their effect on the user table is modelled, as `AddUser`.
- `asyncio.sleep(60)` and `create_task` are timing. The expiry check is an operation the caller invokes.
- `uuid.uuid4()` randomness: the 128-bit value is a parameter.
- The OAuth login URL built from the environment is a parameter of `AuthSocketFrame`.
- The websocket `accept()`, the receive loops and `WebSocketDisconnect` handling are modelled only by their registry effects. Opening registers the socket, the user socket is sent `GAME LIST`, and closing disconnects.
- `broadcast` (run.py:74-76) is never called, and it iterates the dict in an unspecified order.
- `send_personal_message` (run.py:71-72) is never called; `SendText` models `send_text` directly.
- `hello`, `hi`, `run_bot`, the `print` calls and the `ctx.respond` wording are UI and logging. Replies are the `Reply` values.
- The user's profile fields other than `id` (run.py:42-53) are never read by the core.
- Sending on a socket that has already closed is not modelled; a send always appends to the socket's outbox.
- `Text.ParseHexInt` models `int(s, 16)` for ASCII digits only. Python also accepts other Unicode decimal digits, and those are not modelled. White space is what `int()` skips: the C white space 9 to 13 and 32, and the Unicode white space above 127. The separators U+001C..U+001F, which `str.strip()` would remove, are not skipped.
- `/cc` with no argument (`auth_id = None`) is modelled as the empty code; both take the same branch.
- Dataclass `==` compares records field by field in Python. The model uses object identity, so two distinct user objects whose fields all agree count as different users here.
