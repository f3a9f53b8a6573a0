/** One connection's session, `AxonClient` (src/index.ts, lines 122-680):
    its tables and cache, the client it drives, the frames it writes and
    the calls it makes into the client. Every handler is a method whose
    postcondition ties the new state to the specification functions of
    the other modules. */
module Session {
  import opened JsText
  import opened Names
  import opened Adapter
  import opened Protocol
  import opened Directory
  import opened Relay
  import opened Lookup
  import opened Lists

  /** `client?.gl.get(Number(id))`. */
  function GroupFor(c: Option<Client>, id: Option<string>): (r: Option<GroupInfo>)
    ensures r.Some? ==> c.Some? && NumberOf(id) == Some(r.value.group_id) && r.value in c.value.gl
  {
    if c.None? then None
    else
      match NumberOf(id)
      case None => None
      case Some(n) => FindGroup(c.value.gl, n)
  }

  class AxonClient {
    var chatNickDupTable: map<nat, seq<string>>
    var memberInfoCache: seq<MemberInfo>
    var dmNickDupTable: seq<string>
    var client: Option<Client>
    /** The frames written to the connection, in order. */
    var out: seq<Reply>
    /** The calls made into the client, in order. */
    var calls: seq<AdapterCall>

    /** The client's lists are keyed by id, and the cache never holds a
        member twice. */
    ghost predicate Valid()
      reads this
    {
      && (client.Some? ==> ClientValid(client.value))
      && Distinct(memberInfoCache)
    }

    constructor()
      ensures Valid()
      ensures chatNickDupTable == map[] && memberInfoCache == [] && dmNickDupTable == []
      ensures client == None && out == [] && calls == []
    {
      chatNickDupTable := map[];
      memberInfoCache := [];
      dmNickDupTable := [];
      client := None;
      out := [];
      calls := [];
    }

    /** `buildChatNickDupTable(gid, noCache)`. */
    method BuildChatNickDupTable(gid: nat, noCache: bool)
      modifies this`chatNickDupTable
      ensures chatNickDupTable == ChatAfterBuild(old(chatNickDupTable), client, gid, noCache)
    {
      if !noCache && gid in chatNickDupTable {
        return;
      }
      var memberList := GroupMembers(client, Some(gid));
      if memberList.None? {
        return;
      }
      chatNickDupTable := chatNickDupTable - {gid};
      var nickDupList := ResolveAcctList(MemberAccounts(memberList.value));
      chatNickDupTable := chatNickDupTable[gid := nickDupList];
      assert chatNickDupTable == old(chatNickDupTable)[gid := nickDupList];
    }

    /** `buildDmNickDupTable()`. */
    method BuildDmNickDupTable()
      modifies this`dmNickDupTable
      ensures dmNickDupTable == DmAfterBuild(old(dmNickDupTable), client)
    {
      if |dmNickDupTable| != 0 {
        return;
      }
      if client.None? {
        return;
      }
      dmNickDupTable := ResolveAcctList(FriendAccounts(client.value.fl));
      dmNickDupTable := dmNickDupTable + [""];
    }

    /** `buildFriendAltName(k)`. */
    method BuildFriendAltName(k: FriendRef) returns (name: string)
      modifies this`dmNickDupTable
      ensures dmNickDupTable == DmAfterBuild(old(dmNickDupTable), client)
      ensures name == FriendAltName(dmNickDupTable, client, k)
    {
      BuildDmNickDupTable();
      var dupName: string;
      var id: nat;
      match k {
        case FriendId(fid) =>
          var f := if client.Some? then FindFriend(client.value.fl, fid) else None;
          if f.None? || f.value.nickname == "" {
            return GHOST_USER;
          }
          dupName, id := f.value.nickname, fid;
        case FriendNamed(uid, nick) =>
          dupName, id := nick, uid;
      }
      if dupName in dmNickDupTable {
        name := GenName(dupName, id);
      } else {
        name := dupName;
      }
    }

    /** `buildChatMemberAltName(gid, m)`. */
    method BuildChatMemberAltName(gid: nat, m: MemberInfo) returns (name: string)
      modifies this`chatNickDupTable
      ensures chatNickDupTable == ChatAfterBuild(old(chatNickDupTable), client, gid, false)
      ensures name == ChatMemberAltName(chatNickDupTable, gid, m)
    {
      BuildChatNickDupTable(gid, false);
      if gid !in chatNickDupTable {
        return WRONG_USER;
      }
      var dupNameList := chatNickDupTable[gid];
      if FixMemberName(m) in dupNameList {
        name := GenName(FixMemberName(m), m.user_id);
      } else {
        name := FixMemberName(m);
      }
    }

    /** `buildAltNameFriend(k)`: the first friend, in list order, that the
        decoder's test accepts. */
    method BuildAltNameFriend(k: string) returns (r: Option<FriendInfo>)
      ensures r == DecodeFriend(client, k)
    {
      var isDup := VerifyAltName(k);
      if client.None? {
        return None;
      }
      var fl := client.value.fl;
      var i := 0;
      while i < |fl|
        invariant 0 <= i <= |fl|
        invariant FriendByAltName(fl, k) == FriendByAltName(fl[i..], k)
      {
        var friend := fl[i];
        FriendByAltNameStep(fl, k, i);
        if isDup && EndsWith(NatToString(friend.user_id), SliceFrom(k, -4)) && friend.remark == StripRealName(k) {
          return Some(friend);
        } else if !isDup && friend.remark == k {
          return Some(friend);
        }
        i := i + 1;
      }
      return None;
    }

    /** The callback `_ePrivateMessage` runs on one element: a poke or a
        url-bearing image is written as its own event, under the sender's
        friend alternate name; any other element gives its text. */
    method PrivateElem(uid: nat, nick: string, time: nat, m: MessageElem, ghost built: seq<string>) returns (piece: string)
      requires DmAfterBuild(dmNickDupTable, client) == built
      modifies this`out, this`dmNickDupTable
      ensures out == old(out) + ElementEvent(m, FriendAltName(built, client, FriendNamed(uid, nick)), time)
      ensures dmNickDupTable == if PrivateTextElem(m) then old(dmNickDupTable) else built
      ensures piece == if PrivateTextElem(m) then TranslateMessageElem(m) else ""
    {
      if m.Poke? {
        var sender := BuildFriendAltName(FriendNamed(uid, nick));
        out := out + [FriendAttention(sender, time)];
        return "";
      }
      if (m.Image? || m.Flash?) && m.url.Some? && m.url.value != "" {
        var sender := BuildFriendAltName(FriendNamed(uid, nick));
        out := out + [FriendImageMessage(sender, time, m.url.value)];
        return "";
      }
      piece := TranslateMessageElem(m);
    }

    /** The `forEach` of `_ePrivateMessage`: writes the element events and
        returns the accumulated text. */
    method PrivateElems(uid: nat, nick: string, time: nat, ms: seq<MessageElem>) returns (text: string)
      modifies this`out, this`dmNickDupTable
      ensures var name := FriendAltName(DmAfterBuild(old(dmNickDupTable), client), client, FriendNamed(uid, nick));
        out == old(out) + PrivateEvents(ms, name, time)
      ensures var name := FriendAltName(DmAfterBuild(old(dmNickDupTable), client), client, FriendNamed(uid, nick));
        dmNickDupTable == if |PrivateEvents(ms, name, time)| == 0 then old(dmNickDupTable)
                          else DmAfterBuild(old(dmNickDupTable), client)
      ensures text == PrivateText(ms)
    {
      ghost var dm0 := dmNickDupTable;
      ghost var built := DmAfterBuild(dm0, client);
      ghost var name := FriendAltName(built, client, FriendNamed(uid, nick));
      DmBuildOnce(dm0, client);
      text := "";
      for i := 0 to |ms|
        invariant text == PrivateText(ms[..i])
        invariant out == old(out) + PrivateEvents(ms[..i], name, time)
        invariant dmNickDupTable == if |PrivateEvents(ms[..i], name, time)| == 0 then dm0 else built
        invariant DmAfterBuild(dmNickDupTable, client) == built
      {
        PrivateStep(ms, i, name, time);
        var piece := PrivateElem(uid, nick, time, ms[i], built);
        text := text + piece;
      }
      assert ms[..|ms|] == ms;
    }

    /** `_ePrivateMessage`: relays a private message from the friend
        `uid`/`nick` sent at `time`. Every frame names the sender by the
        friend alternate name; the friend table is built when the first
        frame is written. */
    method EPrivateMessage(uid: nat, nick: string, time: nat, ms: seq<MessageElem>)
      modifies this`out, this`dmNickDupTable
      ensures var name := FriendAltName(DmAfterBuild(old(dmNickDupTable), client), client, FriendNamed(uid, nick));
        out == old(out) + PrivateFrames(ms, name, time)
      ensures var name := FriendAltName(DmAfterBuild(old(dmNickDupTable), client), client, FriendNamed(uid, nick));
        dmNickDupTable == if |PrivateFrames(ms, name, time)| == 0 then old(dmNickDupTable)
                          else DmAfterBuild(old(dmNickDupTable), client)
    {
      ghost var dm0 := dmNickDupTable;
      ghost var built := DmAfterBuild(dm0, client);
      ghost var name := FriendAltName(built, client, FriendNamed(uid, nick));
      ghost var events := PrivateEvents(ms, name, time);
      DmBuildOnce(dm0, client);
      var text := PrivateElems(uid, nick, time, ms);
      assert dmNickDupTable == dm0 || dmNickDupTable == built;
      if text == "" || text == " " {
        assert PrivateFrames(ms, name, time) == events;
        return;
      }
      var sender := BuildFriendAltName(FriendNamed(uid, nick));
      assert dmNickDupTable == built;
      out := out + [FriendMessage(sender, time, text)];
      assert PrivateFrames(ms, name, time) == events + [FriendMessage(name, time, text)];
    }

    /** `_eGroupMessage`, its text path: relays the text of a message from
        `sender` in group `gid` named `groupName`; the group table is built
        when the frame is written. */
    method EGroupMessage(gid: nat, groupName: string, sender: MemberInfo, time: nat, ms: seq<MessageElem>)
      modifies this`out, this`chatNickDupTable
      ensures var name := ChatMemberAltName(ChatAfterBuild(old(chatNickDupTable), client, gid, false), gid, sender);
        out == old(out) + GroupTextFrame(ms, name, time, groupName, gid)
      ensures chatNickDupTable == if TextEmitted(GroupText(ms)) then ChatAfterBuild(old(chatNickDupTable), client, gid, false)
                                  else old(chatNickDupTable)
    {
      var text := "";
      for i := 0 to |ms|
        invariant text == GroupText(ms[..i])
        invariant out == old(out) && chatNickDupTable == old(chatNickDupTable)
      {
        GroupStep(ms, i);
        var m := ms[i];
        if !((m.Image? || m.Flash?) && m.url.Some? && m.url.value != "") {
          text := text + TranslateMessageElem(m);
        }
      }
      assert ms[..|ms|] == ms;
      if text == "" || text == " " {
        return;
      }
      var name := BuildChatMemberAltName(gid, sender);
      out := out + [GroupMessage(name, time, text, groupName, gid)];
    }

    /** `_initCb`: logs out a running client, creates a new one and
        acknowledges. The tables and the cache are kept. */
    method InitCb(uin: nat, platform: nat)
      requires Valid()
      modifies this`client, this`calls, this`out
      ensures Valid()
      ensures calls == old(calls) + (if old(client).Some? then [Logout] else [])
      ensures client == Some(NewClient(uin, platform))
      ensures out == old(out) + [StatusReply(R_OK)]
    {
      if client.Some? {
        calls := calls + [Logout];
      }
      client := Some(NewClient(uin, platform));
      out := out + [StatusReply(R_OK)];
    }

    /** `_loginCb`, the login call: with a password for method "0", by QR
        code for method "1". */
    method LoginCb(loginMethod: string, passwd: string)
      modifies this`calls
      ensures calls == old(calls) +
        if client.None? then []
        else if loginMethod == "0" && passwd != "" then [Login(Some(passwd))]
        else if loginMethod == "1" then [Login(None)]
        else []
    {
      if loginMethod == "0" && passwd != "" {
        if client.Some? {
          calls := calls + [Login(Some(passwd))];
        }
      } else if loginMethod == "1" {
        if client.Some? {
          calls := calls + [Login(None)];
        }
      }
    }

    /** `_goAheadCb`: continues a login. */
    method GoAheadCb()
      modifies this`calls
      ensures calls == old(calls) + if client.Some? then [Login(None)] else []
    {
      if client.Some? {
        calls := calls + [Login(None)];
      }
    }

    /** `_usendCb`, `_usendImgCb` and `_usendShakeCb`, which differ only in
        what they send. Without an `id`, `verifyAltName` throws on
        `undefined` and `handleData` swallows the error: nothing is written
        or sent. Otherwise -3 and no call when the alternate name decodes to
        no friend, else the send to that friend and its outcome: 0 when the
        promise resolves, -2 when it rejects. */
    method USendCb(id: Option<string>, content: Content, env: Env)
      modifies this`out, this`calls
      ensures id.None? ==> out == old(out) && calls == old(calls)
      ensures id.Some? ==> var f := DecodeFriend(client, id.value);
        && (f.None? ==> out == old(out) + [StatusReply(R_ERR_NON_EXIST)] && calls == old(calls))
        && (f.Some? ==>
              && out == old(out) + [StatusReply(if env.sendOk then R_OK else R_ERR_UNKNOWN)]
              && calls == old(calls) + [SendToFriend(f.value.user_id, content)])
    {
      if id.None? {
        return;
      }
      var friendInfo := BuildAltNameFriend(id.value);
      if friendInfo.None? {
        out := out + [StatusReply(R_ERR_NON_EXIST)];
        return;
      }
      if client.Some? {
        calls := calls + [SendToFriend(friendInfo.value.user_id, content)];
        out := out + [StatusReply(if env.sendOk then R_OK else R_ERR_UNKNOWN)];
      }
    }

    /** `_gsendCb` and `_gsendImgCb`: nothing at all without a client;
        otherwise the send to the group and its outcome, 0 or -2. */
    method GSendCb(id: Option<string>, content: Content, env: Env)
      modifies this`out, this`calls
      ensures client.None? ==> out == old(out) && calls == old(calls)
      ensures client.Some? ==>
        && out == old(out) + [StatusReply(if env.sendOk then R_OK else R_ERR_UNKNOWN)]
        && calls == old(calls) + [SendToGroup(NumberOf(id), content)]
    {
      if client.Some? {
        calls := calls + [SendToGroup(NumberOf(id), content)];
        out := out + [StatusReply(if env.sendOk then R_OK else R_ERR_UNKNOWN)];
      }
    }

    /** `_ginfoCb`: -3 for an unknown group, and then the group's reply in
        any case, its name absent when the group is unknown. */
    method GInfoCb(id: Option<string>, env: Env)
      modifies this`out
      ensures var g := GroupFor(client, id);
        out == old(out) + (if g.None? then [StatusReply(R_ERR_NON_EXIST)] else [])
          + [GroupInfoReply(if g.Some? then Some(g.value.group_name) else None, env.topic)]
    {
      var groupInfo := GroupFor(client, id);
      if groupInfo.None? {
        out := out + [StatusReply(R_ERR_NON_EXIST)];
      }
      out := out + [GroupInfoReply(if groupInfo.Some? then Some(groupInfo.value.group_name) else None, env.topic)];
    }

    /** The body of `_gmlistCb`'s loop for one member: caches it and names
        it as a friend when it is one, by its group otherwise. */
    method GmListMember(m: MemberInfo, ghost dmB: seq<string>, ghost tB: map<nat, seq<string>>) returns (altName: string)
      requires client.Some?
      requires DmAfterBuild(dmNickDupTable, client) == dmB
      requires ChatAfterBuild(chatNickDupTable, client, m.group_id, false) == tB
      modifies this`memberInfoCache, this`dmNickDupTable, this`chatNickDupTable
      ensures memberInfoCache == if m in old(memberInfoCache) then old(memberInfoCache) else old(memberInfoCache) + [m]
      ensures FindFriend(client.value.fl, m.user_id).Some? ==>
        dmNickDupTable == dmB && chatNickDupTable == old(chatNickDupTable)
      ensures FindFriend(client.value.fl, m.user_id).None? ==>
        chatNickDupTable == tB && dmNickDupTable == old(dmNickDupTable)
      ensures altName == MemberListName(dmB, tB, client.value, m)
    {
      if m !in memberInfoCache {
        memberInfoCache := memberInfoCache + [m];
      }
      var friendInfo := FindFriend(client.value.fl, m.user_id);
      if friendInfo.Some? {
        altName := BuildFriendAltName(FriendNamed(friendInfo.value.user_id, friendInfo.value.nickname));
      } else {
        altName := BuildChatMemberAltName(m.group_id, m);
      }
    }

    /** The loop of `_gmlistCb` over the members `ms` of group `gid`. */
    method GmListMembers(gid: nat, ms: seq<MemberInfo>) returns (nameList: seq<string>, owner: Option<string>, adminList: seq<string>)
      requires client.Some? && MembersOf(ms, gid)
      modifies this`memberInfoCache, this`dmNickDupTable, this`chatNickDupTable
      ensures var c := client.value;
        nameList == MemberListNames(DmAfterBuild(old(dmNickDupTable), client),
                                    ChatAfterBuild(old(chatNickDupTable), client, gid, false), c, ms)
      ensures |nameList| == |ms| && owner == OwnerName(ms, nameList) && adminList == AdminNames(ms, nameList)
      ensures memberInfoCache == CacheWith(old(memberInfoCache), ms)
      ensures dmNickDupTable == if AnyFriend(client.value, ms) then DmAfterBuild(old(dmNickDupTable), client)
                                else old(dmNickDupTable)
      ensures chatNickDupTable == if AnyStranger(client.value, ms) then ChatAfterBuild(old(chatNickDupTable), client, gid, false)
                                  else old(chatNickDupTable)
    {
      var c := client.value;
      ghost var cache0, dm0, t0 := memberInfoCache, dmNickDupTable, chatNickDupTable;
      ghost var dmB, tB := DmAfterBuild(dm0, client), ChatAfterBuild(t0, client, gid, false);
      DmBuildOnce(dm0, client);
      ChatTableCaching(t0, client, gid, false);
      nameList, adminList, owner := [], [], None;
      for i := 0 to |ms|
        invariant memberInfoCache == CacheWith(cache0, ms[..i])
        invariant |nameList| == i
        invariant nameList == MemberListNames(dmB, tB, c, ms[..i])
        invariant owner == OwnerName(ms[..i], nameList)
        invariant adminList == AdminNames(ms[..i], nameList)
        invariant dmNickDupTable == if AnyFriend(c, ms[..i]) then dmB else dm0
        invariant chatNickDupTable == if AnyStranger(c, ms[..i]) then tB else t0
        invariant DmAfterBuild(dmNickDupTable, client) == dmB
        invariant ChatAfterBuild(chatNickDupTable, client, gid, false) == tB
      {
        var member := ms[i];
        assert member.group_id == gid;
        GmListStep(dmB, tB, c, cache0, ms, nameList, i);
        var altName := GmListMember(member, dmB, tB);
        nameList := nameList + [altName];
        owner := if member.role == Owner then Some(altName) else owner;
        adminList := adminList + if member.role == Admin then [altName] else [];
      }
      assert ms[..|ms|] == ms;
    }

    /** `_gmlistCb`: caches the group's members and lists them under their
        alternate names, with the owner and the admins. A member who is a
        friend is named as a friend. */
    method GmListCb(id: Option<string>)
      requires Valid()
      modifies this`out, this`memberInfoCache, this`dmNickDupTable, this`chatNickDupTable
      ensures Valid() && old(out) <= out && old(memberInfoCache) <= memberInfoCache
      ensures MemberListEffect(id)
    {
      var gidOpt := NumberOf(id);
      var memberList := GroupMembers(client, gidOpt);
      if memberList.None? || client.None? {
        out := out + [StatusReply(R_ERR_NON_EXIST)];
        return;
      }
      var gid, ms := gidOpt.value, memberList.value;
      assert MembersOf(ms, gid);
      CacheWithSpec(memberInfoCache, ms);
      var nameList, owner, adminList := GmListMembers(gid, ms);
      AnyFriendIff(client.value, ms);
      AnyStrangerIff(client.value, ms);
      out := out + [MemberListReply(nameList, owner, adminList)];
    }

    /** `_flistCb`. The friend table is built by the first friend's name. */
    method FListCb()
      modifies this`out, this`dmNickDupTable
      ensures old(out) <= out
      ensures client.None? ==> out == old(out) + [StatusReply(R_ERR_NON_EXIST)] && dmNickDupTable == old(dmNickDupTable)
      ensures client.Some? ==> var fl := client.value.fl;
        && out == old(out) + [FriendListReply(FriendNames(DmAfterBuild(old(dmNickDupTable), client), client, fl), FriendIds(fl))]
        && dmNickDupTable == if |fl| == 0 then old(dmNickDupTable) else DmAfterBuild(old(dmNickDupTable), client)
    {
      if client.None? {
        out := out + [StatusReply(R_ERR_NON_EXIST)];
        return;
      }
      var fl := client.value.fl;
      ghost var dm0 := dmNickDupTable;
      ghost var built := DmAfterBuild(dm0, client);
      DmBuildOnce(dm0, client);
      var nameList: seq<string> := [];
      var idList: seq<nat> := [];
      for i := 0 to |fl|
        invariant out == old(out)
        invariant nameList == FriendNames(built, client, fl[..i])
        invariant idList == FriendIds(fl[..i])
        invariant dmNickDupTable == if i == 0 then dm0 else built
      {
        assert fl[..i + 1][..i] == fl[..i];
        var name := BuildFriendAltName(FriendNamed(fl[i].user_id, fl[i].nickname));
        nameList := nameList + [name];
        idList := idList + [fl[i].user_id];
      }
      assert fl[..|fl|] == fl;
      out := out + [FriendListReply(nameList, idList)];
    }

    /** `_glistCb`. */
    method GListCb()
      modifies this`out
      ensures client.None? ==> out == old(out) + [StatusReply(R_ERR_NON_EXIST)]
      ensures client.Some? ==>
        out == old(out) + [GroupListReply(GroupNames(client.value.gl), GroupIdStrings(client.value.gl))]
    {
      if client.None? {
        out := out + [StatusReply(R_ERR_NON_EXIST)];
        return;
      }
      var gl := client.value.gl;
      var nameList: seq<string> := [];
      var idList: seq<string> := [];
      for i := 0 to |gl|
        invariant nameList == GroupNames(gl[..i])
        invariant idList == GroupIdStrings(gl[..i])
      {
        assert gl[..i + 1][..i] == gl[..i];
        nameList := nameList + [gl[i].group_name];
        idList := idList + [NatToString(gl[i].group_id)];
      }
      assert gl[..|gl|] == gl;
      out := out + [GroupListReply(nameList, idList)];
    }

    /** `_whoamiCb`: the client's nickname, absent without a client. */
    method WhoAmICb()
      modifies this`out
      ensures out == old(out) + [WhoAmIReply(if client.Some? then Some(client.value.nickname) else None)]
    {
      out := out + [WhoAmIReply(if client.Some? then Some(client.value.nickname) else None)];
    }

    /** `_statusCb`: an accepted status is acknowledged even without a
        client; any other status writes nothing. */
    method StatusCb(status: string)
      modifies this`out, this`calls
      ensures status !in {"busy", "online", "invisible"} ==> out == old(out) && calls == old(calls)
      ensures status in {"busy", "online", "invisible"} ==> out == old(out) + [StatusReply(R_OK)]
      ensures status == "busy" ==> calls == old(calls) + if client.Some? then [SetOnlineStatus(50)] else []
      ensures status == "online" ==> calls == old(calls) + if client.Some? then [SetOnlineStatus(11)] else []
      ensures status == "invisible" ==> calls == old(calls) + if client.Some? then [SetOnlineStatus(41)] else []
    {
      var code := OnlineStatusCode(status);
      if code.Some? {
        if client.Some? {
          calls := calls + [SetOnlineStatus(code.value)];
        }
        out := out + [StatusReply(R_OK)];
      }
    }

    /** The search of `_lookupCb`: the members matching `nick`, then every
        cached entry of their ids, de-duplicated; the groups of the related
        members; their distinct ids. */
    method ComputeLookup(nick: string) returns (relation: string, ids: string)
      ensures LookupReply(relation, ids) == LookupReplyFor(memberInfoCache, client, nick)
    {
      var cache := memberInfoCache;
      var matched := MatchMembers(cache, nick);
      var expanded := ExpandMembers(cache, UserIds(matched));
      var related := Dedup(matched + expanded);
      var infoList := GroupsOf(ClientGroups(client), GroupIds(related));
      var relatedIds := Dedup(UserIds(related));
      relation := Join(GroupLabels(infoList), LIST_SEP);
      ids := Join(IdStrings(relatedIds), LIST_SEP);
    }

    /** `_lookupCb`. Without a `nickname`, `verifyAltName` throws on
        `undefined` and nothing is written. */
    method LookupCb(nick: Option<string>)
      modifies this`out
      ensures nick.None? ==> out == old(out)
      ensures nick.Some? ==> out == old(out) + [LookupReplyFor(memberInfoCache, client, nick.value)]
    {
      if nick.None? {
        return;
      }
      var relation, ids := ComputeLookup(nick.value);
      out := out + [LookupReply(relation, ids)];
    }

    /** The tables and the cache are as they were. */
    twostate predicate TablesKept()
      reads this
    {
      && chatNickDupTable == old(chatNickDupTable) && dmNickDupTable == old(dmNickDupTable)
      && memberInfoCache == old(memberInfoCache)
    }

    /** The whole new state after handler `h` of `callTable` has run on
        `req`: the frames it writes, the calls it makes, the client, the
        tables and the cache. */
    twostate predicate HandlerEffect(h: Handler, req: Request, env: Env)
      reads this
    {
      match h
      case InitCmd =>
        && client == Some(NewClient(req.uin, req.platform))
        && out == old(out) + [StatusReply(R_OK)]
        && calls == old(calls) + (if old(client).Some? then [Logout] else [])
        && TablesKept()
      case LoginCmd =>
        && client == old(client) && out == old(out) && TablesKept()
        && calls == old(calls) +
          if client.None? then []
          else if req.loginMethod == "0" && req.passwd != "" then [Login(Some(req.passwd))]
          else if req.loginMethod == "1" then [Login(None)]
          else []
      case GoAheadCmd =>
        && client == old(client) && out == old(out) && TablesKept()
        && calls == old(calls) + if client.Some? then [Login(None)] else []
      case StatusCmd =>
        && client == old(client) && TablesKept()
        && (req.status !in {"busy", "online", "invisible"} ==> out == old(out) && calls == old(calls))
        && (req.status in {"busy", "online", "invisible"} ==> out == old(out) + [StatusReply(R_OK)])
        && (req.status == "busy" ==> calls == old(calls) + if client.Some? then [SetOnlineStatus(50)] else [])
        && (req.status == "online" ==> calls == old(calls) + if client.Some? then [SetOnlineStatus(11)] else [])
        && (req.status == "invisible" ==> calls == old(calls) + if client.Some? then [SetOnlineStatus(41)] else [])
      case USendCmd => FriendSendEffect(TextContent(req.message), req, env)
      case USendImgCmd => FriendSendEffect(ImageContent(req.data), req, env)
      case USendShakeCmd => FriendSendEffect(PokeContent(0), req, env)
      case GSendCmd => GroupSendEffect(TextContent(req.message), req, env)
      case GSendImgCmd => GroupSendEffect(ImageContent(req.data), req, env)
      case GInfoCmd =>
        && client == old(client) && calls == old(calls) && TablesKept()
        && var g := GroupFor(client, req.id);
           out == old(out) + (if g.None? then [StatusReply(R_ERR_NON_EXIST)] else [])
             + [GroupInfoReply(if g.Some? then Some(g.value.group_name) else None, env.topic)]
      case GmListCmd => client == old(client) && calls == old(calls) && MemberListEffect(req.id)
      case FListCmd =>
        && client == old(client) && calls == old(calls)
        && chatNickDupTable == old(chatNickDupTable) && memberInfoCache == old(memberInfoCache)
        && (client.None? ==> out == old(out) + [StatusReply(R_ERR_NON_EXIST)] && dmNickDupTable == old(dmNickDupTable))
        && (client.Some? ==>
              var fl := client.value.fl;
              && out == old(out) + [FriendListReply(FriendNames(DmAfterBuild(old(dmNickDupTable), client), client, fl),
                                                    FriendIds(fl))]
              && dmNickDupTable == (if |fl| == 0 then old(dmNickDupTable) else DmAfterBuild(old(dmNickDupTable), client)))
      case GListCmd =>
        && client == old(client) && calls == old(calls) && TablesKept()
        && out == old(out) + if client.None? then [StatusReply(R_ERR_NON_EXIST)]
                             else [GroupListReply(GroupNames(client.value.gl), GroupIdStrings(client.value.gl))]
      case WhoAmICmd =>
        && client == old(client) && calls == old(calls) && TablesKept()
        && out == old(out) + [WhoAmIReply(if client.Some? then Some(client.value.nickname) else None)]
      case LookupCmd =>
        && client == old(client) && calls == old(calls) && TablesKept()
        && (req.nickname.None? ==> out == old(out))
        && (req.nickname.Some? ==> out == old(out) + [LookupReplyFor(memberInfoCache, client, req.nickname.value)])
    }

    /** What `_gmlistCb` leaves for the group numbered `Number(id)`: -3 and
        nothing else changed when the client has no member list for it;
        otherwise the reply listing the members' names, the owner and the
        admins. The cache then grows by the new members, and each table is
        built exactly when some member needs it: the friend table for a
        member who is a friend, the group's table for one who is not. */
    twostate predicate MemberListEffect(id: Option<string>)
      reads this
    {
      && (GroupMembers(client, NumberOf(id)).None? ==>
            out == old(out) + [StatusReply(R_ERR_NON_EXIST)] && TablesKept())
      && (GroupMembers(client, NumberOf(id)).Some? ==>
            var c, gid := client.value, NumberOf(id).value;
            var ms := c.gml[gid];
            var names := MemberListNames(DmAfterBuild(old(dmNickDupTable), client),
                                         ChatAfterBuild(old(chatNickDupTable), client, gid, false), c, ms);
            && out == old(out) + [MemberListReply(names, OwnerName(ms, names), AdminNames(ms, names))]
            && memberInfoCache == CacheWith(old(memberInfoCache), ms)
            && dmNickDupTable == (if exists k :: 0 <= k < |ms| && FindFriend(c.fl, ms[k].user_id).Some?
                                  then DmAfterBuild(old(dmNickDupTable), client) else old(dmNickDupTable))
            && chatNickDupTable == (if exists k :: 0 <= k < |ms| && FindFriend(c.fl, ms[k].user_id).None?
                                    then ChatAfterBuild(old(chatNickDupTable), client, gid, false)
                                    else old(chatNickDupTable)))
    }

    /** A send to the friend the frame's `id` decodes to. */
    twostate predicate FriendSendEffect(content: Content, req: Request, env: Env)
      reads this
    {
      && client == old(client) && TablesKept()
      && (req.id.None? ==> out == old(out) && calls == old(calls))
      && (req.id.Some? ==> var f := DecodeFriend(client, req.id.value);
            && (f.None? ==> out == old(out) + [StatusReply(R_ERR_NON_EXIST)] && calls == old(calls))
            && (f.Some? ==>
                  && out == old(out) + [StatusReply(if env.sendOk then R_OK else R_ERR_UNKNOWN)]
                  && calls == old(calls) + [SendToFriend(f.value.user_id, content)]))
    }

    /** A send to the group numbered by the frame's `id`. */
    twostate predicate GroupSendEffect(content: Content, req: Request, env: Env)
      reads this
    {
      && client == old(client) && TablesKept()
      && (client.None? ==> out == old(out) && calls == old(calls))
      && (client.Some? ==>
            && out == old(out) + [StatusReply(if env.sendOk then R_OK else R_ERR_UNKNOWN)]
            && calls == old(calls) + [SendToGroup(NumberOf(req.id), content)])
    }

    /** The handlers of `handleData` that drive the session: INIT, LOGIN,
        GOAHEAD and STATUS. */
    method HandleSession(h: Handler, req: Request, env: Env)
      requires Valid()
      requires h in {InitCmd, LoginCmd, GoAheadCmd, StatusCmd}
      modifies this`client, this`out, this`calls
      ensures HandlerEffect(h, req, env)
      ensures old(out) <= out && old(calls) <= calls
      ensures Valid()
    {
      match h {
        case InitCmd => InitCb(req.uin, req.platform);
        case LoginCmd => LoginCb(req.loginMethod, req.passwd);
        case GoAheadCmd => GoAheadCb();
        case StatusCmd => StatusCb(req.status);
      }
    }

    /** The send handlers of `handleData`: USEND, USEND_IMG, USEND_SHAKE,
        GSEND and GSEND_IMG. */
    method HandleSend(h: Handler, req: Request, env: Env)
      requires h in {USendCmd, USendImgCmd, USendShakeCmd, GSendCmd, GSendImgCmd}
      modifies this`out, this`calls
      ensures old(out) <= out && old(calls) <= calls
      ensures HandlerEffect(h, req, env)
    {
      match h {
        case USendCmd => USendCb(req.id, TextContent(req.message), env);
        case USendImgCmd => USendCb(req.id, ImageContent(req.data), env);
        case USendShakeCmd => USendCb(req.id, PokeContent(0), env);
        case GSendCmd => GSendCb(req.id, TextContent(req.message), env);
        case GSendImgCmd => GSendCb(req.id, ImageContent(req.data), env);
      }
    }

    /** GMLIST as `handleData` runs it, through `callTable`. */
    method HandleGmList(req: Request, env: Env)
      requires Valid()
      modifies this`out, this`memberInfoCache, this`dmNickDupTable, this`chatNickDupTable
      ensures HandlerEffect(GmListCmd, req, env)
      ensures old(out) <= out && old(memberInfoCache) <= memberInfoCache
      ensures Valid()
    {
      GmListCb(req.id);
    }

    /** FLIST as `handleData` runs it, through `callTable`. */
    method HandleFList(req: Request, env: Env)
      modifies this`out, this`dmNickDupTable
      ensures old(out) <= out
      ensures HandlerEffect(FListCmd, req, env)
    {
      FListCb();
    }

    /** The read-only handlers of `handleData`: GINFO, GLIST, WHOAMI and
        LOOKUP. */
    method HandleQuery(h: Handler, req: Request, env: Env)
      requires h in {GInfoCmd, GListCmd, WhoAmICmd, LookupCmd}
      modifies this`out
      ensures old(out) <= out
      ensures HandlerEffect(h, req, env)
    {
      match h {
        case GInfoCmd => GInfoCb(req.id, env);
        case GListCmd => GListCb();
        case WhoAmICmd => WhoAmICb();
        case LookupCmd => LookupCb(req.nickname);
      }
    }

    /** `handleData`: routes a command frame through `callTable` to its
        handler, and the new state is that handler's effect. A name the
        table does not hold changes nothing; frames, calls and the cache
        only ever grow. */
    method HandleData(req: Request, env: Env)
      requires Valid()
      modifies this
      ensures CallTable(req.command).None? ==> unchanged(this)
      ensures CallTable(req.command).Some? ==> HandlerEffect(CallTable(req.command).value, req, env)
      ensures old(out) <= out && old(calls) <= calls && old(memberInfoCache) <= memberInfoCache
      ensures Valid()
    {
      match CallTable(req.command) {
        case None =>
        case Some(h) =>
          if h in {InitCmd, LoginCmd, GoAheadCmd, StatusCmd} {
            HandleSession(h, req, env);
          } else if h in {USendCmd, USendImgCmd, USendShakeCmd, GSendCmd, GSendImgCmd} {
            HandleSend(h, req, env);
          } else if h == GmListCmd {
            HandleGmList(req, env);
          } else if h == FListCmd {
            HandleFList(req, env);
          } else {
            HandleQuery(h, req, env);
          }
      }
    }
  }

  /** The first loop of `_lookupCb`: the cached members the nickname
      matches, in cache order. */
  method MatchMembers(cache: seq<MemberInfo>, nick: string) returns (related: seq<MemberInfo>)
    ensures related == Matched(cache, nick)
  {
    var checkId := VerifyAltName(nick);
    var realName := if checkId then StripRealName(nick) else nick;
    related := [];
    for i := 0 to |cache|
      invariant related == Matched(cache[..i], nick)
    {
      assert cache[..i + 1][..i] == cache[..i];
      var m := cache[i];
      if checkId && FixMemberName(m) == realName && EndsWith(NatToString(m.user_id), SliceFrom(nick, -4)) {
        related := related + [m];
      } else if !checkId && FixMemberName(m) == realName {
        related := related + [m];
      }
    }
    assert cache[..|cache|] == cache;
  }

  /** The inner loop of `_lookupCb`: the cached entries with id `id`. */
  method MembersWithId(cache: seq<MemberInfo>, id: nat) returns (r: seq<MemberInfo>)
    ensures r == WithId(cache, id)
  {
    r := [];
    for j := 0 to |cache|
      invariant r == WithId(cache[..j], id)
    {
      assert cache[..j + 1][..j] == cache[..j];
      if cache[j].user_id == id {
        r := r + [cache[j]];
      }
    }
    assert cache[..|cache|] == cache;
  }

  /** The nested loops of `_lookupCb`: the entries of each id in turn. */
  method ExpandMembers(cache: seq<MemberInfo>, ids: seq<nat>) returns (r: seq<MemberInfo>)
    ensures r == Expand(cache, ids)
  {
    r := [];
    for k := 0 to |ids|
      invariant r == Expand(cache, ids[..k])
    {
      assert ids[..k + 1][..k] == ids[..k];
      var more := MembersWithId(cache, ids[k]);
      r := r + more;
    }
    assert ids[..|ids|] == ids;
  }

  /** The loop that fills `infoList`. */
  method GroupsOf(gl: Option<seq<GroupInfo>>, gids: seq<nat>) returns (infoList: seq<GroupInfo>)
    ensures infoList == RelatedGroups(gl, gids)
  {
    infoList := [];
    for k := 0 to |gids|
      invariant infoList == RelatedGroups(gl, gids[..k])
    {
      assert gids[..k + 1][..k] == gids[..k];
      var info := if gl.Some? then FindGroup(gl.value, gids[k]) else None;
      if info.Some? {
        infoList := infoList + [info.value];
      }
    }
    assert gids[..|gids|] == gids;
  }

  /** Visiting one more member in `_gmlistCb`'s loop. */
  lemma GmListStep(dm: seq<string>, t: map<nat, seq<string>>, c: Client, cache: seq<MemberInfo>,
                   ms: seq<MemberInfo>, names: seq<string>, i: nat)
    requires i < |ms| && |names| == i
    ensures MemberListNames(dm, t, c, ms[..i + 1]) == MemberListNames(dm, t, c, ms[..i]) + [MemberListName(dm, t, c, ms[i])]
    ensures forall alt :: OwnerName(ms[..i + 1], names + [alt])
                         == if ms[i].role == Owner then Some(alt) else OwnerName(ms[..i], names)
    ensures forall alt :: AdminNames(ms[..i + 1], names + [alt])
                         == AdminNames(ms[..i], names) + if ms[i].role == Admin then [alt] else []
    ensures CacheWith(cache, ms[..i + 1]) == var p := CacheWith(cache, ms[..i]); if ms[i] in p then p else p + [ms[i]]
    ensures AnyFriend(c, ms[..i + 1]) == (AnyFriend(c, ms[..i]) || FindFriend(c.fl, ms[i].user_id).Some?)
    ensures AnyStranger(c, ms[..i + 1]) == (AnyStranger(c, ms[..i]) || FindFriend(c.fl, ms[i].user_id).None?)
  {
    assert ms[..i + 1][..i] == ms[..i];
    forall alt ensures (names + [alt])[..i] == names {
      assert (names + [alt])[..i] == names;
    }
  }
}
