/** The lists FLIST, GLIST and GMLIST reply with (src/index.ts, lines
    522-608), as functions of the client's lists and the duplicate-name
    tables once built. Each list is defined element by element from the
    front, in the order the handlers' loops visit the client's lists. */
module Lists {
  import opened JsText
  import opened Names
  import opened Adapter
  import opened Directory

  /** FLIST's `list`: each friend's alternate name. */
  function FriendNames(dm: seq<string>, c: Option<Client>, fl: seq<FriendInfo>): (r: seq<string>)
    ensures |r| == |fl|
    decreases |fl|
  {
    if |fl| == 0 then []
    else
      var f := fl[|fl| - 1];
      FriendNames(dm, c, fl[..|fl| - 1]) + [FriendAltName(dm, c, FriendNamed(f.user_id, f.nickname))]
  }

  /** FLIST's `idlist`. */
  function FriendIds(fl: seq<FriendInfo>): (r: seq<nat>)
    ensures |r| == |fl|
    decreases |fl|
  {
    if |fl| == 0 then [] else FriendIds(fl[..|fl| - 1]) + [fl[|fl| - 1].user_id]
  }

  lemma {:induction false} FriendNamesAt(dm: seq<string>, c: Option<Client>, fl: seq<FriendInfo>, i: nat)
    requires i < |fl|
    ensures FriendNames(dm, c, fl)[i] == FriendAltName(dm, c, FriendNamed(fl[i].user_id, fl[i].nickname))
    ensures FriendIds(fl)[i] == fl[i].user_id
    decreases |fl|
  {
    if i < |fl| - 1 {
      FriendNamesAt(dm, c, fl[..|fl| - 1], i);
    }
  }

  /** Where the naming rule fails: the friend table is built once and
      never rebuilt, so a table built while the friend list was empty
      (just the `''` sentinel) stays in force. Two friends named Tom added
      later are both listed as `Tom`. */
  lemma StaleFriendTable(earlier: Client, c: Client)
    requires earlier.fl == []
    requires c.fl == [FriendInfo(11111, "Tom", "Tom"), FriendInfo(22222, "Tom", "Tom")]
    ensures DmAfterBuild([], Some(earlier)) == [""]
    ensures DmAfterBuild(DmAfterBuild([], Some(earlier)), Some(c)) == [""]
    ensures FriendNames([""], Some(c), c.fl) == ["Tom", "Tom"]
  {
  }

  /** The other half of the stale-table case: of the two friends listed as
      `Tom`, sending to `Tom` always reaches the first. */
  lemma StaleNameDecodesFirst(c: Client)
    requires c.fl == [FriendInfo(11111, "Tom", "Tom"), FriendInfo(22222, "Tom", "Tom")]
    ensures DecodeFriend(Some(c), "Tom") == Some(c.fl[0])
  {
  }

  /** FLIST lists each friend under the name the collision rule gives it,
      beside its id, and two friends under different names when nicknames
      hold no `#` and friends sharing one differ in their last four
      digits. */
  lemma FListEntries(c: Client, i: nat, j: nat)
    requires i < |c.fl| && j < |c.fl|
    ensures var names := FriendNames(DmAfterBuild([], Some(c)), Some(c), c.fl); var f := c.fl[i];
      && FriendIds(c.fl)[i] == f.user_id
      && names[i] == if f.nickname == "" || exists k :: 0 <= k < |c.fl| && k != i && c.fl[k].nickname == f.nickname
                     then GenName(f.nickname, f.user_id) else f.nickname
    ensures i != j && '#' !in c.fl[i].nickname && '#' !in c.fl[j].nickname
      && (c.fl[i].nickname == c.fl[j].nickname ==> Last4(c.fl[i].user_id) != Last4(c.fl[j].user_id))
      ==> FriendNames(DmAfterBuild([], Some(c)), Some(c), c.fl)[i] != FriendNames(DmAfterBuild([], Some(c)), Some(c), c.fl)[j]
  {
    var dm := DmAfterBuild([], Some(c));
    FriendNamesAt(dm, Some(c), c.fl, i);
    FriendNamesAt(dm, Some(c), c.fl, j);
    FriendAltNameRule(c, i);
    if i != j && '#' !in c.fl[i].nickname && '#' !in c.fl[j].nickname
      && (c.fl[i].nickname == c.fl[j].nickname ==> Last4(c.fl[i].user_id) != Last4(c.fl[j].user_id))
    {
      FriendAltNamesDistinct(c, i, j);
    }
  }

  /** GLIST's `namelist`. */
  function GroupNames(gl: seq<GroupInfo>): (r: seq<string>)
    ensures |r| == |gl|
    decreases |gl|
  {
    if |gl| == 0 then [] else GroupNames(gl[..|gl| - 1]) + [gl[|gl| - 1].group_name]
  }

  /** GLIST's `idlist`: the ids as decimal strings. */
  function GroupIdStrings(gl: seq<GroupInfo>): (r: seq<string>)
    ensures |r| == |gl|
    decreases |gl|
  {
    if |gl| == 0 then [] else GroupIdStrings(gl[..|gl| - 1]) + [NatToString(gl[|gl| - 1].group_id)]
  }

  lemma {:induction false} GroupListAt(gl: seq<GroupInfo>, i: nat)
    requires i < |gl|
    ensures GroupNames(gl)[i] == gl[i].group_name
    ensures GroupIdStrings(gl)[i] == NatToString(gl[i].group_id)
    decreases |gl|
  {
    if i < |gl| - 1 {
      GroupListAt(gl[..|gl| - 1], i);
    }
  }

  /** Round trip: an id GLIST reports, given back as the `id` of GINFO,
      GMLIST or GSEND, converts to the group's own id and finds that
      group. */
  lemma GroupIdRoundTrip(c: Client, i: nat)
    requires ClientValid(c) && i < |c.gl|
    ensures var id := ParseDecimal(GroupIdStrings(c.gl)[i]);
      id == Some(c.gl[i].group_id) && FindGroup(c.gl, id.value) == Some(c.gl[i])
  {
    GroupListAt(c.gl, i);
    ParseNatToString(c.gl[i].group_id);
    FindListedGroup(c.gl, i);
  }

  lemma FindListedGroup(gl: seq<GroupInfo>, i: nat)
    requires i < |gl|
    requires forall a, b :: 0 <= a < b < |gl| ==> gl[a].group_id != gl[b].group_id
    ensures FindGroup(gl, gl[i].group_id) == Some(gl[i])
  {
    if i > 0 {
      assert gl[0].group_id != gl[i].group_id;
      FindListedGroup(gl[1..], i - 1);
    }
  }

  /** The name GMLIST gives a member, once the friend table is `dm` and the
      group table `t`: a friend's alternate name for a member who is a
      friend, the group alternate name otherwise. */
  function MemberListName(dm: seq<string>, t: map<nat, seq<string>>, c: Client, m: MemberInfo): string {
    match FindFriend(c.fl, m.user_id)
    case Some(f) => FriendAltName(dm, Some(c), FriendNamed(f.user_id, f.nickname))
    case None => ChatMemberAltName(t, m.group_id, m)
  }

  /** GMLIST's `list`. */
  function MemberListNames(dm: seq<string>, t: map<nat, seq<string>>, c: Client, ms: seq<MemberInfo>): (r: seq<string>)
    ensures |r| == |ms|
    decreases |ms|
  {
    if |ms| == 0 then []
    else MemberListNames(dm, t, c, ms[..|ms| - 1]) + [MemberListName(dm, t, c, ms[|ms| - 1])]
  }

  /** GMLIST's `owner`: the name of the last member visited whose role is
      owner, if any. */
  function OwnerName(ms: seq<MemberInfo>, names: seq<string>): Option<string>
    requires |names| == |ms|
    decreases |ms|
  {
    if |ms| == 0 then None
    else if ms[|ms| - 1].role == Owner then Some(names[|ms| - 1])
    else OwnerName(ms[..|ms| - 1], names[..|ms| - 1])
  }

  /** GMLIST's `admin`: the names of the admins, in order. */
  function AdminNames(ms: seq<MemberInfo>, names: seq<string>): seq<string>
    requires |names| == |ms|
    decreases |ms|
  {
    if |ms| == 0 then []
    else AdminNames(ms[..|ms| - 1], names[..|ms| - 1]) + (if ms[|ms| - 1].role == Admin then [names[|ms| - 1]] else [])
  }

  lemma {:induction false} MemberListNameAt(dm: seq<string>, t: map<nat, seq<string>>, c: Client, ms: seq<MemberInfo>, i: nat)
    requires i < |ms|
    ensures MemberListNames(dm, t, c, ms)[i] == MemberListName(dm, t, c, ms[i])
    decreases |ms|
  {
    if i < |ms| - 1 {
      MemberListNameAt(dm, t, c, ms[..|ms| - 1], i);
    }
  }

  /** The owner reported is the name of the last owner in the list, and
      there is none exactly when no member is an owner. */
  lemma {:induction false} OwnerNameSpec(ms: seq<MemberInfo>, names: seq<string>)
    requires |names| == |ms|
    ensures OwnerName(ms, names).None? <==> forall k :: 0 <= k < |ms| ==> ms[k].role != Owner
    ensures OwnerName(ms, names).Some? ==> exists k :: (0 <= k < |ms| && ms[k].role == Owner
      && OwnerName(ms, names) == Some(names[k]) && forall j :: k < j < |ms| ==> ms[j].role != Owner)
    decreases |ms|
  {
    if |ms| > 0 && ms[|ms| - 1].role != Owner {
      var init, ninit := ms[..|ms| - 1], names[..|ms| - 1];
      OwnerNameSpec(init, ninit);
      assert forall k :: 0 <= k < |init| ==> init[k] == ms[k] && ninit[k] == names[k];
    }
  }

  /** The admin list holds the name of every admin and only those. */
  lemma {:induction false} AdminNamesSpec(ms: seq<MemberInfo>, names: seq<string>)
    requires |names| == |ms|
    ensures forall k :: 0 <= k < |ms| && ms[k].role == Admin ==> names[k] in AdminNames(ms, names)
    ensures forall x :: x in AdminNames(ms, names) ==>
      exists k :: 0 <= k < |ms| && ms[k].role == Admin && names[k] == x
    decreases |ms|
  {
    if |ms| > 0 {
      var init, ninit := ms[..|ms| - 1], names[..|ms| - 1];
      AdminNamesSpec(init, ninit);
      assert forall k :: 0 <= k < |init| ==> init[k] == ms[k] && ninit[k] == names[k];
    }
  }

  /** Some member of `ms` is a friend of the client. */
  predicate AnyFriend(c: Client, ms: seq<MemberInfo>)
    decreases |ms|
  {
    |ms| > 0 && (AnyFriend(c, ms[..|ms| - 1]) || FindFriend(c.fl, ms[|ms| - 1].user_id).Some?)
  }

  /** Some member of `ms` is not a friend of the client. */
  predicate AnyStranger(c: Client, ms: seq<MemberInfo>)
    decreases |ms|
  {
    |ms| > 0 && (AnyStranger(c, ms[..|ms| - 1]) || FindFriend(c.fl, ms[|ms| - 1].user_id).None?)
  }

  lemma {:induction false} AnyFriendIff(c: Client, ms: seq<MemberInfo>)
    ensures AnyFriend(c, ms) <==> exists k :: 0 <= k < |ms| && FindFriend(c.fl, ms[k].user_id).Some?
    decreases |ms|
  {
    if |ms| > 0 {
      var init := ms[..|ms| - 1];
      AnyFriendIff(c, init);
      assert forall k :: 0 <= k < |init| ==> init[k] == ms[k];
    }
  }

  lemma {:induction false} AnyStrangerIff(c: Client, ms: seq<MemberInfo>)
    ensures AnyStranger(c, ms) <==> exists k :: 0 <= k < |ms| && FindFriend(c.fl, ms[k].user_id).None?
    decreases |ms|
  {
    if |ms| > 0 {
      var init := ms[..|ms| - 1];
      AnyStrangerIff(c, init);
      assert forall k :: 0 <= k < |init| ==> init[k] == ms[k];
    }
  }

  /** A member of the group who is not a friend is listed under the name
      the group's collision rule gives it. */
  lemma GmListMemberName(dm: seq<string>, t: map<nat, seq<string>>, c: Client, gid: nat, i: nat)
    requires ClientValid(c) && gid !in t && gid in c.gml && i < |c.gml[gid]|
    requires FindFriend(c.fl, c.gml[gid][i].user_id).None?
    ensures var ms := c.gml[gid]; var m := ms[i];
      MemberListNames(dm, ChatAfterBuild(t, Some(c), gid, false), c, ms)[i]
        == if exists j :: 0 <= j < |ms| && j != i && FixMemberName(ms[j]) == FixMemberName(m)
           then GenName(FixMemberName(m), m.user_id) else FixMemberName(m)
  {
    var ms := c.gml[gid];
    assert MembersOf(ms, gid);
    MemberListNameAt(dm, ChatAfterBuild(t, Some(c), gid, false), c, ms, i);
    ChatMemberAltNameRule(t, c, gid, false, i);
  }
}
