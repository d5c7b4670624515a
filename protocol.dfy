/**
 * The text frames exchanged with the emulator client over its websockets:
 * the tags of the frames the client sends, their parse, and the frames the
 * coordinator sends back.
 */
module Protocol {
  import opened Options
  import opened Text

  const LogoutTag := "LOGOUT"
  const GameListTag := "GAME LIST"
  const ServerIpTag := "SERVER IP"
  const DropTag := "DROP"
  const StartAuthTag := "START AUTH"

  /** A frame from an authenticated connection, as the dispatcher tells them apart. */
  datatype Frame =
    | Logout
    | GameList(roms: seq<string>)
    | ServerIp(address: string)
    | Drop
    | Unmatched

  /**
   * The dispatcher's reading of a frame: the tags are tried in turn, the
   * first that prefixes the frame wins, and what follows the 9-character
   * `GAME LIST` or `SERVER IP` tag is its payload.
   */
  function ParseFrame(data: string): (f: Frame)
    ensures f.Logout? <==> StartsWith(data, LogoutTag)
    ensures f.GameList? <==> !StartsWith(data, LogoutTag) && StartsWith(data, GameListTag)
    ensures f.ServerIp? <==>
              !StartsWith(data, LogoutTag) && !StartsWith(data, GameListTag) && StartsWith(data, ServerIpTag)
    ensures f.Drop? <==>
              && !StartsWith(data, LogoutTag) && !StartsWith(data, GameListTag)
              && !StartsWith(data, ServerIpTag) && StartsWith(data, DropTag)
    ensures f.GameList? ==>
              && Join(f.roms, ',') == data[9..]
              && |f.roms| == Count(data[9..], ',') + 1
              && forall i :: 0 <= i < |f.roms| ==> ',' !in f.roms[i]
    ensures f.ServerIp? ==> f.address == data[9..]
  {
    if StartsWith(data, LogoutTag) then Logout
    else if StartsWith(data, GameListTag) then
      JoinSplit(data[9..], ',');
      GameList(Split(data[9..], ','))
    else if StartsWith(data, ServerIpTag) then ServerIp(data[9..])
    else if StartsWith(data, DropTag) then Drop
    else Unmatched
  }

  /** The frames a client can send so that each reads back as itself. */
  predicate Sendable(f: Frame) {
    f.GameList? ==> |f.roms| > 0 && forall i :: 0 <= i < |f.roms| ==> ',' !in f.roms[i]
  }

  /** The client's side: how it writes each frame. */
  function FormatFrame(f: Frame): string {
    match f
    case Logout => LogoutTag
    case GameList(roms) => GameListTag + Join(roms, ',')
    case ServerIp(address) => ServerIpTag + address
    case Drop => DropTag
    case Unmatched => ""
  }

  /** Every frame a client can send is read back by the dispatcher as the same frame. */
  lemma ParseFormat(f: Frame)
    requires Sendable(f)
    ensures ParseFrame(FormatFrame(f)) == f
  {
    var s := FormatFrame(f);
    match f
    case Logout =>
      assert s[..6] == LogoutTag;
    case GameList(roms) =>
      assert s[0] != LogoutTag[0];
      assert s[..9] == GameListTag;
      assert s[9..] == Join(roms, ',');
      SplitJoin(roms, ',');
    case ServerIp(address) =>
      assert s[0] != LogoutTag[0] && s[0] != GameListTag[0];
      assert s[..9] == ServerIpTag;
      assert s[9..] == address;
    case Drop =>
      assert s[0] != LogoutTag[0] && s[0] != GameListTag[0] && s[0] != ServerIpTag[0];
      assert s[..4] == DropTag;
    case Unmatched =>
  }

  // ---------------------------------------------------------------------------
  // Pairing codes
  // ---------------------------------------------------------------------------

  /** `uuid.UUID.hex` renders the 128 bits of a uuid as 32 hex digits. */
  const CodeDigits: nat := 32

  /** The number of distinct 128-bit values, 16 to the power 32. */
  const CodeSpace: nat := 0x1_0000_0000_0000_0000_0000_0000_0000_0000

  /** 16 to the power `CodeDigits` is `CodeSpace`, by squaring four times from 16 * 16. */
  lemma CodeSpaceIsPow16()
    ensures Pow16(CodeDigits) == CodeSpace
  {
    assert Pow16(2) == 0x100;
    Pow16Add(2, 2);
    assert Pow16(4) == 0x1_0000;
    Pow16Add(4, 4);
    assert Pow16(8) == 0x1_0000_0000;
    Pow16Add(8, 8);
    assert Pow16(16) == 0x1_0000_0000_0000_0000;
    Pow16Add(16, 16);
  }

  /**
   * The pairing code of the 128-bit value `uuid`, as it is shown to the user.
   * `int(code, 16)` reads it back as `uuid`, which is the key the pairing
   * socket is registered under.
   */
  function PairingCode(uuid: nat): (code: string)
    requires uuid < CodeSpace
    ensures |code| == CodeDigits
    ensures forall i :: 0 <= i < |code| ==> IsHexDigit(code[i]) && !('A' <= code[i] <= 'F')
    ensures ParseHexInt(code) == Some(uuid as int)
  {
    CodeSpaceIsPow16();
    ParseHexString(uuid, CodeDigits);
    HexString(uuid, CodeDigits)
  }

  /** `int(code, 16)` of the shown pairing code: the key its socket is filed under, which is the uuid's value. */
  function PairingKey(uuid: nat): (key: int)
    requires uuid < CodeSpace
    ensures key == uuid
  {
    ParseHexInt(PairingCode(uuid)).value
  }

  // ---------------------------------------------------------------------------
  // Frames the coordinator sends
  // ---------------------------------------------------------------------------

  const GameListRequest := "GAME LIST"
  const AuthSuccessFrame := "AUTH SUCCESS"
  const CreateGameFrame := "CREATE GAME"
  const LeaveGameFrame := "LEAVE GAME"
  const StartGameFrame := "START GAME"

  /** `f"AUTH URL{url}"`: the tag, then the login URL the client opens. */
  function AuthUrlFrame(url: string): (f: string)
    ensures StartsWith(f, "AUTH URL") && f[8..] == url
  {
    "AUTH URL" + url
  }

  /** `f"AUTH ID{auth_id}"`: the tag, then the pairing code the client shows. */
  function AuthIdFrame(authId: string): (f: string)
    ensures StartsWith(f, "AUTH ID") && f[7..] == authId
  {
    "AUTH ID" + authId
  }

  /** `f"USER ID{id}"`: the tag, then the user id in decimal. */
  function UserIdFrame(id: int): (f: string)
    ensures StartsWith(f, "USER ID") && f[7..] == DecimalString(id)
  {
    "USER ID" + DecimalString(id)
  }

  /** `f"JOIN GAME{address}"`: an address not yet announced renders as `None`. */
  function JoinGameFrame(address: Option<string>): (f: string)
    ensures StartsWith(f, "JOIN GAME")
    ensures address.Some? ==> f[9..] == address.value
    ensures address.None? ==> f[9..] == "None"
  {
    "JOIN GAME" + match address case Some(a) => a case None => "None"
  }

  /** The client reads its user id back out of the `USER ID` frame. */
  lemma UserIdFrameCarriesId(id: int)
    ensures StartsWith(UserIdFrame(id), "USER ID")
    ensures DecimalValue(UserIdFrame(id)[7..]) == id
  {
    var s := UserIdFrame(id);
    assert s[7..] == DecimalString(id);
    DecimalRoundTrip(id);
  }
}
