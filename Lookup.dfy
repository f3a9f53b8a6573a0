/** The member cache that GMLIST grows and the search LOOKUP runs over it
    (src/index.ts, lines 532-535 and 634-671), as functions of the cache's
    contents. Each list function is defined element by element from the
    front, in the order the source's loops visit the cache. */
module Lookup {
  import opened JsText
  import opened Names
  import opened Adapter
  import opened Protocol
  import opened Directory

  /** The cache after the members `ms` are visited in order, each appended
      unless already present. */
  function CacheWith(cache: seq<MemberInfo>, ms: seq<MemberInfo>): seq<MemberInfo>
    decreases |ms|
  {
    if |ms| == 0 then cache
    else
      var c := CacheWith(cache, ms[..|ms| - 1]);
      if ms[|ms| - 1] in c then c else c + [ms[|ms| - 1]]
  }

  /** Caching keeps the old cache as a prefix, holds every visited member,
      adds nothing else, and never adds a member already present. */
  lemma {:induction false} CacheWithSpec(cache: seq<MemberInfo>, ms: seq<MemberInfo>)
    ensures cache <= CacheWith(cache, ms)
    ensures forall m :: m in CacheWith(cache, ms) <==> m in cache || m in ms
    ensures Distinct(cache) ==> Distinct(CacheWith(cache, ms))
    decreases |ms|
  {
    if |ms| > 0 {
      var init := ms[..|ms| - 1];
      CacheWithSpec(cache, init);
      assert ms == init + [ms[|ms| - 1]];
    }
  }

  /** The name the lookup compares with: the alternate name stripped of its
      suffix when it looks like one, the whole string otherwise. */
  function RealName(nick: string): (r: string)
    ensures !VerifyAltName(nick) ==> r == nick
  {
    if VerifyAltName(nick) then StripRealName(nick) else nick
  }

  /** The first loop's test: the effective name equals the real name and, in
      alternate-name form, the id ends with the nickname's last four
      characters. */
  predicate LookupMatches(m: MemberInfo, nick: string) {
    if VerifyAltName(nick) then
      FixMemberName(m) == RealName(nick) && EndsWith(NatToString(m.user_id), SliceFrom(nick, -4))
    else FixMemberName(m) == RealName(nick)
  }

  /** What the first loop pushes onto `related`. */
  function Matched(cache: seq<MemberInfo>, nick: string): (r: seq<MemberInfo>)
    ensures forall m :: m in r <==> m in cache && LookupMatches(m, nick)
    decreases |cache|
  {
    if |cache| == 0 then []
    else
      var init := cache[..|cache| - 1];
      var last := cache[|cache| - 1];
      assert cache == init + [last];
      Matched(init, nick) + (if LookupMatches(last, nick) then [last] else [])
  }

  /** What the inner loop pushes for one id. */
  function WithId(cache: seq<MemberInfo>, id: nat): (r: seq<MemberInfo>)
    ensures forall m :: m in r <==> m in cache && m.user_id == id
    decreases |cache|
  {
    if |cache| == 0 then []
    else
      var init := cache[..|cache| - 1];
      var last := cache[|cache| - 1];
      assert cache == init + [last];
      WithId(init, id) + (if last.user_id == id then [last] else [])
  }

  /** What the nested loops push, id by id. */
  function Expand(cache: seq<MemberInfo>, ids: seq<nat>): seq<MemberInfo>
    decreases |ids|
  {
    if |ids| == 0 then []
    else Expand(cache, ids[..|ids| - 1]) + WithId(cache, ids[|ids| - 1])
  }

  /** `ms.map(v => v.user_id)`. */
  function UserIds(ms: seq<MemberInfo>): (r: seq<nat>)
    ensures |r| == |ms| && forall i :: 0 <= i < |ms| ==> r[i] == ms[i].user_id
  {
    if ms == [] then [] else [ms[0].user_id] + UserIds(ms[1..])
  }

  /** `ms.map(v => v.group_id)`. */
  function GroupIds(ms: seq<MemberInfo>): (r: seq<nat>)
    ensures |r| == |ms| && forall i :: 0 <= i < |ms| ==> r[i] == ms[i].group_id
  {
    if ms == [] then [] else [ms[0].group_id] + GroupIds(ms[1..])
  }

  /** `related` after the de-duplicating filter. */
  function Related(cache: seq<MemberInfo>, nick: string): seq<MemberInfo> {
    var matched := Matched(cache, nick);
    Dedup(matched + Expand(cache, UserIds(matched)))
  }

  /** `infoList`: for each related member's group, in order, the group the
      client lists under that id; a missing group, or a missing client, is
      skipped. */
  function RelatedGroups(gl: Option<seq<GroupInfo>>, gids: seq<nat>): seq<GroupInfo>
    decreases |gids|
  {
    if |gids| == 0 then []
    else
      var init := RelatedGroups(gl, gids[..|gids| - 1]);
      var g := if gl.Some? then FindGroup(gl.value, gids[|gids| - 1]) else None;
      if g.Some? then init + [g.value] else init
  }

  /** `related_id`: the related members' ids, each once. */
  function LookupIds(cache: seq<MemberInfo>, nick: string): seq<nat> {
    Dedup(UserIds(Related(cache, nick)))
  }

  /** The separator both reply lists are joined with. */
  const LIST_SEP: string := "、"

  /** `${group_name}[${group_id}]`. */
  function GroupLabel(g: GroupInfo): string {
    g.group_name + "[" + NatToString(g.group_id) + "]"
  }

  function GroupLabels(gs: seq<GroupInfo>): (r: seq<string>)
    ensures |r| == |gs| && forall i :: 0 <= i < |gs| ==> r[i] == GroupLabel(gs[i])
  {
    if gs == [] then [] else [GroupLabel(gs[0])] + GroupLabels(gs[1..])
  }

  function IdStrings(ids: seq<nat>): (r: seq<string>)
    ensures |r| == |ids| && forall i :: 0 <= i < |ids| ==> r[i] == NatToString(ids[i])
  {
    if ids == [] then [] else [NatToString(ids[0])] + IdStrings(ids[1..])
  }

  function ClientGroups(c: Option<Client>): Option<seq<GroupInfo>> {
    if c.Some? then Some(c.value.gl) else None
  }

  /** The frame `_lookupCb` writes. */
  function LookupReplyFor(cache: seq<MemberInfo>, c: Option<Client>, nick: string): Reply {
    var related := Related(cache, nick);
    LookupReply(Join(GroupLabels(RelatedGroups(ClientGroups(c), GroupIds(related))), LIST_SEP),
                Join(IdStrings(LookupIds(cache, nick)), LIST_SEP))
  }

  /** The nested loops push exactly the cached members whose id is one of
      `ids`. */
  lemma {:induction false} ExpandSpec(cache: seq<MemberInfo>, ids: seq<nat>)
    ensures forall m :: m in Expand(cache, ids) <==> m in cache && m.user_id in ids
    decreases |ids|
  {
    if |ids| > 0 {
      var init := ids[..|ids| - 1];
      ExpandSpec(cache, init);
      assert ids == init + [ids[|ids| - 1]];
    }
  }

  /** The ids of a list are the ids of its members. */
  lemma UserIdsIn(ms: seq<MemberInfo>)
    ensures forall id :: id in UserIds(ms) <==> exists m :: m in ms && m.user_id == id
  {
    var r := UserIds(ms);
    forall id | id in r ensures exists m :: m in ms && m.user_id == id {
      var i :| 0 <= i < |r| && r[i] == id;
      assert ms[i] in ms;
    }
    forall id | exists m :: m in ms && m.user_id == id ensures id in r {
      var m :| m in ms && m.user_id == id;
      var i :| 0 <= i < |ms| && ms[i] == m;
      assert r[i] == id;
    }
  }

  /** Some cached member with id `id` passes the first loop's test. */
  predicate IdMatched(cache: seq<MemberInfo>, nick: string, id: nat) {
    exists m :: m in cache && LookupMatches(m, nick) && m.user_id == id
  }

  /** The related members are the cached members that share an id with a
      matched member, each listed once. */
  lemma RelatedSpec(cache: seq<MemberInfo>, nick: string)
    ensures forall m :: m in Related(cache, nick) <==> m in cache && IdMatched(cache, nick, m.user_id)
    ensures Distinct(Related(cache, nick))
  {
    var matched := Matched(cache, nick);
    var raw := matched + Expand(cache, UserIds(matched));
    DedupSpec(raw);
    ExpandSpec(cache, UserIds(matched));
    UserIdsIn(matched);
  }

  /** LOOKUP's ids are distinct, and they are exactly the ids of the cached
      members the first loop matches. */
  lemma LookupIdsSpec(cache: seq<MemberInfo>, nick: string)
    ensures Distinct(LookupIds(cache, nick))
    ensures forall id :: id in LookupIds(cache, nick) <==> IdMatched(cache, nick, id)
  {
    var related := Related(cache, nick);
    var ids := UserIds(related);
    RelatedSpec(cache, nick);
    DedupSpec(ids);
    UserIdsIn(related);
    forall id | IdMatched(cache, nick, id) ensures id in ids {
      var m :| m in cache && LookupMatches(m, nick) && m.user_id == id;
      assert m in related;
    }
  }

  /** The relation lists, for every related member in order, the group the
      client has under the member's group id; without a client it lists
      nothing. */
  lemma {:induction false} RelatedGroupsSpec(gl: Option<seq<GroupInfo>>, gids: seq<nat>)
    ensures gl.None? ==> RelatedGroups(gl, gids) == []
    ensures gl.Some? ==> forall g :: g in RelatedGroups(gl, gids) <==>
      exists i :: 0 <= i < |gids| && FindGroup(gl.value, gids[i]) == Some(g)
    decreases |gids|
  {
    if |gids| > 0 {
      var init := gids[..|gids| - 1];
      RelatedGroupsSpec(gl, init);
      assert forall i :: 0 <= i < |init| ==> init[i] == gids[i];
      if gl.Some? {
        var last := |gids| - 1;
        forall g | exists i :: 0 <= i < |gids| && FindGroup(gl.value, gids[i]) == Some(g)
          ensures g in RelatedGroups(gl, gids)
        {
          var i :| 0 <= i < |gids| && FindGroup(gl.value, gids[i]) == Some(g);
          if i < last {
            assert exists i :: 0 <= i < |init| && FindGroup(gl.value, init[i]) == Some(g);
          }
        }
      }
    }
  }

  /** The suffixed form of a name finds the members with that effective name
      whose ids share the four-digit tail. */
  lemma LookupSuffixed(m: MemberInfo, n: string, id: nat)
    requires id >= 1000
    ensures LookupMatches(m, GenName(n, id)) <==> FixMemberName(m) == n && Last4(m.user_id) == Last4(id)
  {
    VerifyGenName(n, id);
    StripGenName(n, id);
    SuffixTest(n, id, m.user_id);
  }

  /** A nickname not in alternate-name form is compared whole: LOOKUP
      reports exactly the ids of the cached members whose effective name it
      is. */
  lemma LookupPlainName(cache: seq<MemberInfo>, nick: string)
    requires !VerifyAltName(nick)
    ensures forall id :: id in LookupIds(cache, nick) <==>
      exists m :: m in cache && FixMemberName(m) == nick && m.user_id == id
  {
    LookupIdsSpec(cache, nick);
  }

  /** Round trip with the encoder: looking up the alternate name a cached
      member is shown under, in a scope whose duplicate list is `dups`,
      reports that member's id, provided a suffixed id has four digits and
      an unsuffixed name does not itself end in four digits. */
  lemma LookupFindsEncoded(cache: seq<MemberInfo>, m: MemberInfo, dups: seq<string>)
    requires m in cache
    requires FixMemberName(m) in dups ==> m.user_id >= 1000
    requires FixMemberName(m) !in dups ==> !VerifyAltName(FixMemberName(m))
    ensures m.user_id in LookupIds(cache, AltName(dups, FixMemberName(m), m.user_id))
  {
    var n := FixMemberName(m);
    var alt := AltName(dups, n, m.user_id);
    if n in dups {
      LookupSuffixed(m, n, m.user_id);
    }
    assert LookupMatches(m, alt);
    LookupIdsSpec(cache, alt);
  }
}
