/** The oicq client as the core sees it. The library itself (login, message
    transport, list fetching) is not modelled: a client is the value of the
    lists it currently holds, in its own iteration order, and every call the
    core makes into it is recorded as an `AdapterCall`. */
module Adapter {
  import opened JsText
  import opened Names

  /** The client's own nickname, friend list (`fl`), group list (`gl`) and
      the member list of each group it has one for (`gml`). */
  datatype Client = Client(
    uin: nat,
    platform: nat,
    nickname: string,
    fl: seq<FriendInfo>,
    gl: seq<GroupInfo>,
    gml: map<nat, seq<MemberInfo>>)

  /** What `createClient(uin, { platform })` returns: no lists until the
      library has logged in and fetched them. */
  function NewClient(uin: nat, platform: nat): (c: Client)
    ensures c.uin == uin && c.platform == platform
    ensures c.fl == [] && c.gl == [] && c.gml == map[]
  {
    Client(uin, platform, "", [], [], map[])
  }

  /** `fl`, `gl` and each member list are maps keyed by id, so no id is
      listed twice, and a group's member list holds members of that group. */
  ghost predicate ClientValid(c: Client) {
    && (forall i, j :: 0 <= i < j < |c.fl| ==> c.fl[i].user_id != c.fl[j].user_id)
    && (forall i, j :: 0 <= i < j < |c.gl| ==> c.gl[i].group_id != c.gl[j].group_id)
    && (forall g :: g in c.gml ==> MembersOf(c.gml[g], g))
  }

  ghost predicate MembersOf(ms: seq<MemberInfo>, gid: nat) {
    && (forall i :: 0 <= i < |ms| ==> ms[i].group_id == gid)
    && (forall i, j :: 0 <= i < j < |ms| ==> ms[i].user_id != ms[j].user_id)
  }

  /** `fl.get(id)`: the friend with that id, if listed. */
  function FindFriend(fl: seq<FriendInfo>, id: nat): (r: Option<FriendInfo>)
    ensures r.Some? ==> r.value in fl && r.value.user_id == id
    ensures r.None? <==> forall i :: 0 <= i < |fl| ==> fl[i].user_id != id
  {
    if fl == [] then None
    else if fl[0].user_id == id then Some(fl[0])
    else FindFriend(fl[1..], id)
  }

  /** `gl.get(id)`: the group with that id, if listed. */
  function FindGroup(gl: seq<GroupInfo>, id: nat): (r: Option<GroupInfo>)
    ensures r.Some? ==> r.value in gl && r.value.group_id == id
    ensures r.None? <==> forall i :: 0 <= i < |gl| ==> gl[i].group_id != id
  {
    if gl == [] then None
    else if gl[0].group_id == id then Some(gl[0])
    else FindGroup(gl[1..], id)
  }

  /** `client?.getGroupMemberList(gid)`: the group's members, or nothing when
      there is no client, the id did not convert to a number, or the client
      holds no list for that group. */
  function GroupMembers(c: Option<Client>, gid: Option<nat>): (r: Option<seq<MemberInfo>>)
    ensures r.Some? <==> c.Some? && gid.Some? && gid.value in c.value.gml
  {
    if c.Some? && gid.Some? && gid.value in c.value.gml then Some(c.value.gml[gid.value]) else None
  }

  /** What a message sent through the client carries. */
  datatype Content =
    | TextContent(text: string)
    | ImageContent(base64: string)
    | PokeContent(kind: nat)

  /** A call the core makes into the client. */
  datatype AdapterCall =
    | Logout
    | Login(password: Option<string>)
    | SetOnlineStatus(code: int)
    | SendToFriend(user_id: nat, content: Content)
    | SendToGroup(group_id: Option<nat>, content: Content)
}
