/** The duplicate-name tables and the alternate-name codec, as functions of
    the tables' contents (src/index.ts, lines 155-230): what
    `buildDmNickDupTable` and `buildChatNickDupTable` leave in the tables,
    what the two encoders return given those tables, and the friend decoder.
    The lemmas state the scheme's promises: the collision rule, distinct
    names within a scope, the caching rules and the decode round trip, with
    the cases in which the source does not keep it. */
module Directory {
  import opened JsText
  import opened Names
  import opened Adapter

  /** Returned for a friend id that is not listed or has an empty nickname. */
  const GHOST_USER: string := "幽灵用户"
  /** Returned for a group that has no duplicate-name table. */
  const WRONG_USER: string := "错误用户"

  /** The id an account is listed under. */
  function AccountId(a: Account): nat {
    match a
    case FriendAccount(f) => f.user_id
    case MemberAccount(m) => m.user_id
  }

  /** The encoding both scopes share: the suffixed form for a name in the
      scope's duplicate list, the name itself otherwise. */
  function AltName(dups: seq<string>, name: string, id: nat): (r: string) {
    if name in dups then GenName(name, id) else name
  }

  /** `dmNickDupTable` after `buildDmNickDupTable()`: built from the friend
      list, with a `''` sentinel, only while empty and when there is a
      client. */
  function DmAfterBuild(dm: seq<string>, c: Option<Client>): seq<string> {
    if |dm| != 0 || c.None? then dm
    else ResolveAcctList(FriendAccounts(c.value.fl)) + [""]
  }

  /** `chatNickDupTable` after `buildChatNickDupTable(gid, noCache)`: a
      cached entry stays unless `noCache`; otherwise the entry is rebuilt
      from the group's member list when the client has one. */
  function ChatAfterBuild(t: map<nat, seq<string>>, c: Option<Client>, gid: nat, noCache: bool)
    : map<nat, seq<string>>
  {
    if !noCache && gid in t then t
    else
      match GroupMembers(c, Some(gid))
      case None => t
      case Some(ms) => t[gid := ResolveAcctList(MemberAccounts(ms))]
  }

  /** How `buildFriendAltName` is given the friend: by id, or as a record
      carrying the id and nickname. */
  datatype FriendRef = FriendId(id: nat) | FriendNamed(user_id: nat, nickname: string)

  /** What `buildFriendAltName(k)` returns once the friend table is `dm`. */
  function FriendAltName(dm: seq<string>, c: Option<Client>, k: FriendRef): string {
    match k
    case FriendId(id) =>
      var f := if c.Some? then FindFriend(c.value.fl, id) else None;
      if f.None? || f.value.nickname == "" then GHOST_USER
      else AltName(dm, f.value.nickname, id)
    case FriendNamed(uid, nick) => AltName(dm, nick, uid)
  }

  /** What `buildChatMemberAltName(gid, m)` returns once the group table is
      `t`. */
  function ChatMemberAltName(t: map<nat, seq<string>>, gid: nat, m: MemberInfo): string {
    if gid !in t then WRONG_USER else AltName(t[gid], FixMemberName(m), m.user_id)
  }

  /** The test `buildAltNameFriend(k)` applies to each friend. */
  predicate FriendMatches(f: FriendInfo, k: string) {
    if VerifyAltName(k) then
      EndsWith(NatToString(f.user_id), SliceFrom(k, -4)) && f.remark == StripRealName(k)
    else f.remark == k
  }

  /** The first friend, in list order, that the decoder accepts for `k`. */
  function FriendByAltName(fl: seq<FriendInfo>, k: string): (r: Option<FriendInfo>)
    ensures r.Some? ==> exists i :: (0 <= i < |fl| && fl[i] == r.value && FriendMatches(fl[i], k)
      && forall j :: 0 <= j < i ==> !FriendMatches(fl[j], k))
    ensures r.None? <==> forall i :: 0 <= i < |fl| ==> !FriendMatches(fl[i], k)
  {
    if fl == [] then None
    else if FriendMatches(fl[0], k) then Some(fl[0])
    else
      var r := FriendByAltName(fl[1..], k);
      assert forall i :: 0 < i < |fl| ==> fl[i] == fl[1..][i - 1];
      r
  }

  /** One step of the decoder's search: the first match from position `i`
      on is friend `i` when it matches, else the first match after it. */
  lemma FriendByAltNameStep(fl: seq<FriendInfo>, k: string, i: nat)
    requires i < |fl|
    ensures FriendByAltName(fl[i..], k)
         == if FriendMatches(fl[i], k) then Some(fl[i]) else FriendByAltName(fl[i + 1..], k)
  {
    assert fl[i..][1..] == fl[i + 1..];
  }

  /** `buildAltNameFriend(k)`: nothing without a client. */
  function DecodeFriend(c: Option<Client>, k: string): Option<FriendInfo> {
    if c.None? then None else FriendByAltName(c.value.fl, k)
  }

  /** Building the friend table a second time leaves it as it is. */
  lemma DmBuildOnce(dm: seq<string>, c: Option<Client>)
    ensures DmAfterBuild(DmAfterBuild(dm, c), c) == DmAfterBuild(dm, c)
  {
  }

  /** Once non-empty the friend table never changes, whatever the client
      holds; a successful build ends with the `''` sentinel. */
  lemma DmTableCaching(dm: seq<string>, c: Option<Client>, later: Option<Client>)
    ensures |dm| != 0 ==> DmAfterBuild(dm, later) == dm
    ensures |dm| == 0 && c.Some? ==>
      var built := DmAfterBuild(dm, c); |built| >= 1 && built[|built| - 1] == ""
  {
  }

  /** Without `noCache` a cached group is left alone; building twice is
      building once; no other group's entry changes. */
  lemma ChatTableCaching(t: map<nat, seq<string>>, c: Option<Client>, gid: nat, noCache: bool)
    ensures gid in t ==> ChatAfterBuild(t, c, gid, false) == t
    ensures ChatAfterBuild(ChatAfterBuild(t, c, gid, noCache), c, gid, noCache)
         == ChatAfterBuild(t, c, gid, noCache)
    ensures forall g :: g != gid ==>
      (g in ChatAfterBuild(t, c, gid, noCache) <==> g in t) &&
      (g in t ==> ChatAfterBuild(t, c, gid, noCache)[g] == t[g])
  {
  }

  /** Whether another account `j != i` of the scope shares account `i`'s
      effective name. */
  predicate SharedName(l: seq<Account>, i: nat)
    requires i < |l|
  {
    exists j :: 0 <= j < |l| && j != i && EffectiveName(l[j]) == EffectiveName(l[i])
  }

  /** The collision rule: built from the scope's accounts (and possibly
      extra names), the duplicate list holds account `i`'s name exactly
      when another account shares it or it is one of the extra names. */
  lemma InDupList(l: seq<Account>, extra: seq<string>, i: nat)
    requires i < |l|
    ensures EffectiveName(l[i]) in ResolveAcctList(l) + extra
       <==> SharedName(l, i) || EffectiveName(l[i]) in extra
  {
    var names := AllNames(l);
    var n := EffectiveName(l[i]);
    ResolveAcctListSpec(l);
    if Repeated(names, n) {
      var a, b :| 0 <= a < b < |names| && names[a] == n && names[b] == n;
      if a != i {
        assert EffectiveName(l[a]) == n;
      } else {
        assert EffectiveName(l[b]) == n;
      }
    }
    if SharedName(l, i) {
      var j :| 0 <= j < |l| && j != i && EffectiveName(l[j]) == n;
      assert names[i] == n && names[j] == n;
      if i < j {
        assert Repeated(names, n);
      } else {
        assert Repeated(names, n);
      }
    }
  }

  /** Two different `genName` results differ in the name or in the
      four-digit tail. */
  lemma GenNameInjective(n1: string, id1: nat, n2: string, id2: nat)
    ensures GenName(n1, id1) == GenName(n2, id2) <==> n1 == n2 && Last4(id1) == Last4(id2)
  {
    if GenName(n1, id1) == GenName(n2, id2) {
      StripGenName(n1, id1);
      StripGenName(n2, id2);
      var d1, d2 := Last4(id1), Last4(id2);
      assert GenName(n1, id1) == (n1 + "#") + d1;
      assert GenName(n2, id2) == (n1 + "#") + d2;
      assert d1 == GenName(n1, id1)[|n1 + "#"|..];
    }
  }

  /** Within one scope, two accounts get different alternate names when the
      names hold no `#` and accounts sharing a name differ in the last four
      digits of their ids. */
  lemma {:induction false} AltNamesDistinct(l: seq<Account>, extra: seq<string>, i: nat, j: nat)
    requires i < |l| && j < |l| && i != j
    requires '#' !in EffectiveName(l[i]) && '#' !in EffectiveName(l[j])
    requires EffectiveName(l[i]) == EffectiveName(l[j]) ==> Last4(AccountId(l[i])) != Last4(AccountId(l[j]))
    ensures var dups := ResolveAcctList(l) + extra;
      AltName(dups, EffectiveName(l[i]), AccountId(l[i])) != AltName(dups, EffectiveName(l[j]), AccountId(l[j]))
  {
    var dups := ResolveAcctList(l) + extra;
    var ni, nj := EffectiveName(l[i]), EffectiveName(l[j]);
    InDupList(l, extra, i);
    InDupList(l, extra, j);
    GenNameInjective(ni, AccountId(l[i]), nj, AccountId(l[j]));
    if ni == nj {
      assert SharedName(l, i);
    }
    var gi, gj := GenName(ni, AccountId(l[i])), GenName(nj, AccountId(l[j]));
    assert gi[|ni|] == '#';
    assert gj[|nj|] == '#';
  }

  /** A friend's alternate name: the nickname itself when it is non-empty
      and no other friend has it, `genName(nickname, id)` otherwise. */
  lemma FriendAltNameRule(c: Client, i: nat)
    requires i < |c.fl|
    ensures var f := c.fl[i];
      FriendAltName(DmAfterBuild([], Some(c)), Some(c), FriendNamed(f.user_id, f.nickname))
        == if f.nickname == "" || exists j :: 0 <= j < |c.fl| && j != i && c.fl[j].nickname == f.nickname
           then GenName(f.nickname, f.user_id) else f.nickname
  {
    var l := FriendAccounts(c.fl);
    InDupList(l, [""], i);
    if exists j :: 0 <= j < |c.fl| && j != i && c.fl[j].nickname == c.fl[i].nickname {
      var j :| 0 <= j < |c.fl| && j != i && c.fl[j].nickname == c.fl[i].nickname;
      assert EffectiveName(l[j]) == EffectiveName(l[i]);
    }
  }

  /** A friend with an empty nickname always gets a suffix. */
  lemma EmptyNicknameSuffixed(c: Client, uid: nat)
    ensures FriendAltName(DmAfterBuild([], Some(c)), Some(c), FriendNamed(uid, "")) == "#" + Last4(uid)
  {
  }

  /** Encoding a friend by id: the ghost name when the id is not listed or
      its nickname is empty, the same name as the friend record otherwise. */
  lemma FriendIdEncoding(dm: seq<string>, c: Option<Client>, id: nat)
    ensures c.None? ==> FriendAltName(dm, c, FriendId(id)) == GHOST_USER
    ensures c.Some? ==> match FindFriend(c.value.fl, id)
      case None => FriendAltName(dm, c, FriendId(id)) == GHOST_USER
      case Some(f) => (FriendAltName(dm, c, FriendId(id)) ==
        if f.nickname == "" then GHOST_USER else FriendAltName(dm, c, FriendNamed(f.user_id, f.nickname)))
  {
  }

  /** Friends listed by the client get distinct alternate names when
      nicknames hold no `#` and friends sharing one differ in the last four
      digits of their ids. */
  lemma FriendAltNamesDistinct(c: Client, i: nat, j: nat)
    requires i < |c.fl| && j < |c.fl| && i != j
    requires '#' !in c.fl[i].nickname && '#' !in c.fl[j].nickname
    requires c.fl[i].nickname == c.fl[j].nickname ==> Last4(c.fl[i].user_id) != Last4(c.fl[j].user_id)
    ensures var dm := DmAfterBuild([], Some(c));
      FriendAltName(dm, Some(c), FriendNamed(c.fl[i].user_id, c.fl[i].nickname))
        != FriendAltName(dm, Some(c), FriendNamed(c.fl[j].user_id, c.fl[j].nickname))
  {
    AltNamesDistinct(FriendAccounts(c.fl), [""], i, j);
  }

  /** The collision rule for the members of one group. */
  lemma MemberInDupList(ms: seq<MemberInfo>, i: nat)
    requires i < |ms|
    ensures FixMemberName(ms[i]) in ResolveAcctList(MemberAccounts(ms))
       <==> exists j :: 0 <= j < |ms| && j != i && FixMemberName(ms[j]) == FixMemberName(ms[i])
  {
    var l := MemberAccounts(ms);
    InDupList(l, [], i);
    assert ResolveAcctList(l) + [] == ResolveAcctList(l);
    if exists j :: 0 <= j < |ms| && j != i && FixMemberName(ms[j]) == FixMemberName(ms[i]) {
      var j :| 0 <= j < |ms| && j != i && FixMemberName(ms[j]) == FixMemberName(ms[i]);
      assert EffectiveName(l[j]) == EffectiveName(l[i]);
    }
  }

  /** A group member's alternate name once the group's table is built: the
      effective name when no other member of the group has it, else
      `genName(name, id)`. */
  lemma ChatMemberAltNameRule(t: map<nat, seq<string>>, c: Client, gid: nat, noCache: bool, i: nat)
    requires noCache || gid !in t
    requires gid in c.gml && i < |c.gml[gid]|
    ensures var ms := c.gml[gid]; var m := ms[i];
      ChatMemberAltName(ChatAfterBuild(t, Some(c), gid, noCache), gid, m)
        == if exists j :: 0 <= j < |ms| && j != i && FixMemberName(ms[j]) == FixMemberName(m)
           then GenName(FixMemberName(m), m.user_id) else FixMemberName(m)
  {
    var ms := c.gml[gid];
    MemberInDupList(ms, i);
    assert ChatAfterBuild(t, Some(c), gid, noCache)[gid] == ResolveAcctList(MemberAccounts(ms));
  }

  /** A group the client has no member list for, and no table yet, names
      every member with the error name. */
  lemma ChatMemberWithoutTable(t: map<nat, seq<string>>, c: Option<Client>, gid: nat, m: MemberInfo)
    requires gid !in t && GroupMembers(c, Some(gid)).None?
    ensures ChatMemberAltName(ChatAfterBuild(t, c, gid, false), gid, m) == WRONG_USER
  {
  }

  /** Members of one group get distinct alternate names under the same
      conditions as friends. */
  lemma ChatAltNamesDistinct(t: map<nat, seq<string>>, c: Client, gid: nat, i: nat, j: nat)
    requires gid !in t && gid in c.gml
    requires i < |c.gml[gid]| && j < |c.gml[gid]| && i != j
    requires '#' !in FixMemberName(c.gml[gid][i]) && '#' !in FixMemberName(c.gml[gid][j])
    requires FixMemberName(c.gml[gid][i]) == FixMemberName(c.gml[gid][j]) ==>
      Last4(c.gml[gid][i].user_id) != Last4(c.gml[gid][j].user_id)
    ensures var t' := ChatAfterBuild(t, Some(c), gid, false);
      ChatMemberAltName(t', gid, c.gml[gid][i]) != ChatMemberAltName(t', gid, c.gml[gid][j])
  {
    var ms := c.gml[gid];
    var l := MemberAccounts(ms);
    var dups := ResolveAcctList(l);
    assert dups + [] == dups;
    AltNamesDistinct(l, [], i, j);
    var t' := ChatAfterBuild(t, Some(c), gid, false);
    assert t'[gid] == dups;
    assert EffectiveName(l[i]) == FixMemberName(ms[i]) && AccountId(l[i]) == ms[i].user_id;
    assert EffectiveName(l[j]) == FixMemberName(ms[j]) && AccountId(l[j]) == ms[j].user_id;
  }

  lemma DecimalsOfExampleIds()
    ensures NatToString(1234) == "1234" && NatToString(5678) == "5678"
  {
    assert NatToString(12) == "12" && NatToString(123) == "123";
    assert NatToString(56) == "56" && NatToString(567) == "567";
  }

  lemma ExampleSuffixes()
    ensures GenName("Tom", 1234) == "Tom#1234" && GenName("Tom", 5678) == "Tom#5678"
  {
    DecimalsOfExampleIds();
    assert SliceFrom("1234", -4) == "1234";
    assert SliceFrom("5678", -4) == "5678";
  }

  /** The members of the example group: two named Tom, one named Ann. */
  predicate ExampleMembers(c: Client) {
    c.gml == map[10 := [MemberInfo(10, 1234, "Tom", "", Member),
                        MemberInfo(10, 5678, "Tom", "", Member),
                        MemberInfo(10, 4321, "Ann", "", Member)]]
  }

  lemma ExampleTom(t: map<nat, seq<string>>, c: Client, i: nat)
    requires 10 !in t && ExampleMembers(c) && i < 2
    ensures ChatMemberAltName(ChatAfterBuild(t, Some(c), 10, false), 10, c.gml[10][i])
      == GenName("Tom", c.gml[10][i].user_id)
  {
    var ms := c.gml[10];
    assert FixMemberName(ms[1 - i]) == FixMemberName(ms[i]);
    ChatMemberAltNameRule(t, c, 10, false, i);
  }

  lemma ExampleAnn(t: map<nat, seq<string>>, c: Client)
    requires 10 !in t && ExampleMembers(c)
    ensures ChatMemberAltName(ChatAfterBuild(t, Some(c), 10, false), 10, c.gml[10][2]) == "Ann"
  {
    ChatMemberAltNameRule(t, c, 10, false, 2);
  }

  /** The example group `{Tom#1234, Tom#5678, Ann}`: the two Toms are told
      apart by their ids, Ann keeps her name. */
  lemma ExampleGroup(t: map<nat, seq<string>>, c: Client)
    requires 10 !in t && ExampleMembers(c)
    ensures var t' := ChatAfterBuild(t, Some(c), 10, false);
      && ChatMemberAltName(t', 10, c.gml[10][0]) == "Tom#1234"
      && ChatMemberAltName(t', 10, c.gml[10][1]) == "Tom#5678"
      && ChatMemberAltName(t', 10, c.gml[10][2]) == "Ann"
  {
    ExampleSuffixes();
    ExampleTom(t, c, 0);
    ExampleTom(t, c, 1);
    ExampleAnn(t, c);
  }

  /** The decoder's suffix test against a `genName` result: a friend passes
      exactly when its id has the same last four digits. */
  lemma SuffixTest(name: string, id: nat, other: nat)
    requires id >= 1000
    ensures EndsWith(NatToString(other), SliceFrom(GenName(name, id), -4)) <==> Last4(other) == Last4(id)
  {
    var g := GenName(name, id);
    var d := Last4(id);
    assert g == name + "#" + d;
    assert SliceFrom(g, -4) == d;
    var s := NatToString(other);
    FourDigitsFrom1000(other);
    if EndsWith(s, d) {
      assert Last4(other) == s[|s| - 4..];
    }
  }

  /** The suffixed half of the round trip: among friends whose remark is
      their nickname, `genName(n, id)` for a four-digit id is accepted
      exactly for the friends named `n` with the same last four digits. */
  lemma SuffixedMatches(f: FriendInfo, n: string, id: nat)
    requires id >= 1000 && f.remark == f.nickname
    ensures FriendMatches(f, GenName(n, id)) <==> f.nickname == n && Last4(f.user_id) == Last4(id)
  {
    VerifyGenName(n, id);
    StripGenName(n, id);
    SuffixTest(n, id, f.user_id);
  }

  /** The first friend the decoder accepts is friend `i` when friend `i` is
      the only one it accepts. */
  lemma OnlyMatch(fl: seq<FriendInfo>, k: string, i: nat)
    requires i < |fl|
    requires forall j :: 0 <= j < |fl| ==> (FriendMatches(fl[j], k) <==> j == i)
    ensures FriendByAltName(fl, k) == Some(fl[i])
  {
    var r := FriendByAltName(fl, k);
    assert FriendMatches(fl[i], k);
    var m :| 0 <= m < |fl| && fl[m] == r.value && FriendMatches(fl[m], k)
      && forall j :: 0 <= j < m ==> !FriendMatches(fl[j], k);
  }

  /** Round trip: decoding a listed friend's alternate name gives that
      friend back, provided remarks equal nicknames, the nickname does not
      itself end in four digits, the id has four digits, and no other
      friend with the same nickname shares the id's last four digits. */
  lemma FriendRoundTrip(c: Client, i: nat)
    requires i < |c.fl|
    requires forall k :: 0 <= k < |c.fl| ==> c.fl[k].remark == c.fl[k].nickname
    requires !VerifyAltName(c.fl[i].nickname) && c.fl[i].user_id >= 1000
    requires forall k :: 0 <= k < |c.fl| && k != i && c.fl[k].nickname == c.fl[i].nickname ==>
      Last4(c.fl[k].user_id) != Last4(c.fl[i].user_id)
    ensures var f := c.fl[i];
      DecodeFriend(Some(c), FriendAltName(DmAfterBuild([], Some(c)), Some(c), FriendNamed(f.user_id, f.nickname)))
        == Some(f)
  {
    var f := c.fl[i];
    var n := f.nickname;
    var alt := FriendAltName(DmAfterBuild([], Some(c)), Some(c), FriendNamed(f.user_id, n));
    FriendAltNameRule(c, i);
    if alt == n {
      forall k | 0 <= k < |c.fl| ensures FriendMatches(c.fl[k], alt) <==> k == i {
      }
    } else {
      assert alt == GenName(n, f.user_id);
      forall k | 0 <= k < |c.fl| ensures FriendMatches(c.fl[k], alt) <==> k == i {
        SuffixedMatches(c.fl[k], n, f.user_id);
      }
    }
    OnlyMatch(c.fl, alt, i);
  }

  /** The last character of a decimal string is the last digit. */
  lemma LastDigit(n: nat)
    ensures var s := NatToString(n); s[|s| - 1] == DigitChar(n % 10)
  {
  }

  /** Where the round trip fails: a unique nickname that ends in four digits
      is sent as it is, but the decoder reads those digits as an id suffix
      and finds nobody. */
  lemma DigitNicknameNotDecoded(c: Client)
    requires c.fl == [FriendInfo(55555, "bob2024", "bob2024")]
    ensures FriendAltName(DmAfterBuild([], Some(c)), Some(c), FriendNamed(55555, "bob2024")) == "bob2024"
    ensures DecodeFriend(Some(c), "bob2024") == None
  {
    FriendAltNameRule(c, 0);
    DigitNicknameRejected(c.fl[0]);
  }

  lemma DigitNicknameRejected(f: FriendInfo)
    requires f == FriendInfo(55555, "bob2024", "bob2024")
    ensures !FriendMatches(f, "bob2024")
  {
    VerifyAltNameSpec("bob2024");
    assert "bob2024"[3..] == "2024";
    assert SliceFrom("bob2024", -4) == "2024";
    LastDigit(55555);
    assert !EndsWith(NatToString(55555), "2024");
  }

  /** Where the round trip fails: the encoder names a friend by nickname,
      the decoder matches the remark. */
  lemma RemarkNotDecoded(c: Client)
    requires c.fl == [FriendInfo(12345, "Tom", "old pal")]
    ensures FriendAltName(DmAfterBuild([], Some(c)), Some(c), FriendNamed(12345, "Tom")) == "Tom"
    ensures DecodeFriend(Some(c), "Tom") == None
  {
    FriendAltNameRule(c, 0);
    VerifyAltNameSpec("Tom");
  }
}
