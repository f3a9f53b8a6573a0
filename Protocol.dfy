/** The frames a session writes to its connection, the command frames it
    reads, and the table that routes a command name to its handler
    (src/constant.ts, lines 31-52; src/index.ts, lines 137-153). */
module Protocol {
  import opened JsText

  const R_OK: int := 0
  const R_ERR_NO_CLIENT: int := -1
  const R_ERR_UNKNOWN: int := -2
  const R_ERR_NON_EXIST: int := -3
  const R_STAT_EVENT: int := 1

  const E_FRIEND_MESSAGE: int := 1
  const E_GROUP_MESSAGE: int := 2
  const E_FRIEND_ATTENTION: int := 3
  const E_GROUP_IMG_MESSAGE: int := 7
  const E_FRIEND_IMG_MESSAGE: int := 8

  /** One frame written to the connection. Constructor fields are named
      after the frame's JSON keys; where two frames share a key with
      different types (`name`, `id`, `idlist`) one of them is renamed. */
  datatype Reply =
    | StatusReply(status: int)
    | FriendMessage(sender: string, time: nat, text: string)
    | GroupMessage(sender: string, time: nat, text: string, name: string, id: nat)
    | FriendAttention(sender: string, time: nat)
    | FriendImageMessage(sender: string, time: nat, url: string)
    | GroupInfoReply(groupName: Option<string>, topic: string)
    | MemberListReply(list: seq<string>, owner: Option<string>, admin: seq<string>)
    | FriendListReply(list: seq<string>, friendIds: seq<nat>)
    | GroupListReply(namelist: seq<string>, idlist: seq<string>)
    | WhoAmIReply(selfName: Option<string>)
    | LookupReply(relation: string, ids: string)

  /** The `status` field of a frame; the reply to LOOKUP has none. */
  function StatusField(r: Reply): (s: Option<int>)
    ensures r.LookupReply? <==> s.None?
    ensures r.FriendMessage? || r.GroupMessage? || r.FriendAttention? || r.FriendImageMessage?
      ==> s == Some(R_STAT_EVENT)
  {
    match r
    case StatusReply(st) => Some(st)
    case FriendMessage(_, _, _) => Some(R_STAT_EVENT)
    case GroupMessage(_, _, _, _, _) => Some(R_STAT_EVENT)
    case FriendAttention(_, _) => Some(R_STAT_EVENT)
    case FriendImageMessage(_, _, _) => Some(R_STAT_EVENT)
    case LookupReply(_, _) => None
    case _ => Some(R_OK)
  }

  /** The `type` field of an event frame. */
  function EventType(r: Reply): (t: Option<int>)
    ensures t.Some? ==> StatusField(r) == Some(R_STAT_EVENT)
    ensures t.Some? <==> r.FriendMessage? || r.GroupMessage? || r.FriendAttention? || r.FriendImageMessage?
  {
    match r
    case FriendMessage(_, _, _) => Some(E_FRIEND_MESSAGE)
    case GroupMessage(_, _, _, _, _) => Some(E_GROUP_MESSAGE)
    case FriendAttention(_, _) => Some(E_FRIEND_ATTENTION)
    case FriendImageMessage(_, _, _) => Some(E_FRIEND_IMG_MESSAGE)
    case _ => None
  }

  /** A command frame: its `command` name and the fields the handlers read.
      `id` and `nickname` are `None` when the frame leaves them out. Any
      other string field the frame leaves out reads as `""`, which the
      handlers that read it treat as they treat `undefined`: both are falsy
      and neither matches a login method or a status name. The exception
      is `data`: an absent `data` makes the image sends throw, which this
      model does not capture. `uin` and
      `platform` are the numbers INIT converts its fields to. */
  datatype Request = Request(
    command: string,
    uin: nat,
    platform: nat,
    loginMethod: string,
    passwd: string,
    id: Option<string>,
    message: string,
    data: string,
    nickname: Option<string>,
    status: string)

  /** Outcomes decided outside the core: whether the client's send promise
      resolves, and the group introduction an HTTP query returns. */
  datatype Env = Env(sendOk: bool, topic: string)

  datatype Handler =
    | InitCmd | LoginCmd | USendCmd | USendImgCmd | GSendCmd | GSendImgCmd
    | USendShakeCmd | GInfoCmd | GmListCmd | FListCmd | GListCmd | WhoAmICmd
    | StatusCmd | LookupCmd | GoAheadCmd

  /** The name each handler is registered under in `callTable`. */
  function CommandName(h: Handler): string {
    match h
    case InitCmd => "INIT"
    case LoginCmd => "LOGIN"
    case USendCmd => "USEND"
    case USendImgCmd => "USEND_IMG"
    case GSendCmd => "GSEND"
    case GSendImgCmd => "GSEND_IMG"
    case USendShakeCmd => "USEND_SHAKE"
    case GInfoCmd => "GINFO"
    case GmListCmd => "GMLIST"
    case FListCmd => "FLIST"
    case GListCmd => "GLIST"
    case WhoAmICmd => "WHOAMI"
    case StatusCmd => "STATUS"
    case LookupCmd => "LOOKUP"
    case GoAheadCmd => "GOAHEAD"
  }

  /** `callTable[name]`: the handler registered under `name`, if any. */
  function CallTable(name: string): Option<Handler> {
    match name
    case "INIT" => Some(InitCmd)
    case "LOGIN" => Some(LoginCmd)
    case "USEND" => Some(USendCmd)
    case "USEND_IMG" => Some(USendImgCmd)
    case "GSEND" => Some(GSendCmd)
    case "GSEND_IMG" => Some(GSendImgCmd)
    case "USEND_SHAKE" => Some(USendShakeCmd)
    case "GINFO" => Some(GInfoCmd)
    case "GMLIST" => Some(GmListCmd)
    case "FLIST" => Some(FListCmd)
    case "GLIST" => Some(GListCmd)
    case "WHOAMI" => Some(WhoAmICmd)
    case "STATUS" => Some(StatusCmd)
    case "LOOKUP" => Some(LookupCmd)
    case "GOAHEAD" => Some(GoAheadCmd)
    case _ => None
  }

  /** The table routes exactly the registered names, each to its own
      handler. */
  lemma CallTableRoutesNames(name: string, h: Handler)
    ensures CallTable(name) == Some(h) <==> name == CommandName(h)
  {
  }

  /** `_statusCb`: the online-status code each accepted status name sets. */
  function OnlineStatusCode(status: string): (r: Option<int>)
    ensures r.Some? <==> status in {"busy", "online", "invisible"}
    ensures status == "busy" ==> r == Some(50)
    ensures status == "online" ==> r == Some(11)
    ensures status == "invisible" ==> r == Some(41)
  {
    match status
    case "busy" => Some(50)
    case "online" => Some(11)
    case "invisible" => Some(41)
    case _ => None
  }
}
