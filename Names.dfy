/** The identities the adapter reports and the pure helpers of the
    alternate-name scheme (src/index.ts, lines 65-120): the effective name of
    a group member, the suffixed alternate name, the list of colliding names
    of a scope, and the two inverse helpers that strip and recognise the
    suffix. */
module Names {
  import opened JsText

  datatype Role = Owner | Admin | Member

  /** A friend as the adapter lists it: the fields the core reads. */
  datatype FriendInfo = FriendInfo(user_id: nat, nickname: string, remark: string)

  /** A group member as the adapter lists it; also the shape of the sender of
      a group message, with `group_id` the message's group. */
  datatype MemberInfo = MemberInfo(group_id: nat, user_id: nat, nickname: string, card: string, role: Role)

  datatype GroupInfo = GroupInfo(group_id: nat, group_name: string)

  /** An element of the list handed to `resolveAcctList`: friends carry no
      `card` field, members do. */
  datatype Account = FriendAccount(friend: FriendInfo) | MemberAccount(member: MemberInfo)

  /** `fixMemberName`: the group card when it is non-empty, else the nickname. */
  function FixMemberName(m: MemberInfo): (r: string)
    ensures m.card != "" ==> r == m.card
    ensures m.card == "" ==> r == m.nickname
  {
    if m.card == "" then m.nickname else m.card
  }

  /** The name `resolveAcctList` files an account under. */
  function EffectiveName(a: Account): (r: string)
    ensures a.MemberAccount? ==> r == FixMemberName(a.member)
    ensures a.FriendAccount? ==> r == a.friend.nickname
  {
    match a
    case FriendAccount(f) => f.nickname
    case MemberAccount(m) => FixMemberName(m)
  }

  function FriendAccounts(fl: seq<FriendInfo>): (r: seq<Account>)
    ensures |r| == |fl| && forall i :: 0 <= i < |fl| ==> r[i] == FriendAccount(fl[i])
  {
    if fl == [] then [] else [FriendAccount(fl[0])] + FriendAccounts(fl[1..])
  }

  function MemberAccounts(ms: seq<MemberInfo>): (r: seq<Account>)
    ensures |r| == |ms| && forall i :: 0 <= i < |ms| ==> r[i] == MemberAccount(ms[i])
  {
    if ms == [] then [] else [MemberAccount(ms[0])] + MemberAccounts(ms[1..])
  }

  /** The last four digits of `id.toString()`, or all of them when there are
      fewer (`slice(-4)`). */
  function Last4(id: nat): (d: string)
    ensures 1 <= |d| <= 4 && AllDigits(d) && '#' !in d
    ensures id >= 1000 <==> |d| == 4
    ensures EndsWith(NatToString(id), d)
    ensures id < 1000 ==> d == NatToString(id)
  {
    FourDigitsFrom1000(id);
    var s := NatToString(id);
    var d := SliceFrom(s, -4);
    assert forall i :: 0 <= i < |d| ==> d[i] == s[|s| - |d| + i];
    d
  }

  /** `genName`: the name, `#`, and the last four digits of the id. */
  function GenName(name: string, id: nat): (r: string) {
    name + "#" + SliceFrom(NatToString(id), -4)
  }

  /** `stripRealName`: everything before the last `#`, or the whole string
      when it has none. */
  function StripRealName(a: string): (r: string)
    ensures '#' !in a ==> r == a
  {
    if '#' in a then
      var parts := Split(a, '#');
      Join(parts[..|parts| - 1], "#")
    else a
  }

  /** Stripping undoes `genName` for every name, even one holding `#`. */
  lemma StripGenName(name: string, id: nat)
    ensures StripRealName(GenName(name, id)) == name
  {
    var d := Last4(id);
    assert GenName(name, id) == name + ['#'] + d;
    SplitAppend(name, d, '#');
    var parts := Split(name, '#') + [d];
    assert parts[..|parts| - 1] == Split(name, '#');
    JoinSplit(name, '#');
  }

  /** Reference definition: stripping keeps what precedes the last `#`. */
  lemma StripRealNameBeforeLastHash(a: string, i: int)
    requires IsLastOccurrence(a, '#', i)
    ensures StripRealName(a) == a[..i]
  {
    var b := a[i + 1..];
    assert '#' !in b by {
      forall j | 0 <= j < |b| ensures b[j] != '#' {
        assert b[j] == a[i + 1 + j];
      }
    }
    assert a == a[..i] + ['#'] + b;
    SplitAppend(a[..i], b, '#');
    var parts := Split(a[..i], '#') + [b];
    assert parts[..|parts| - 1] == Split(a[..i], '#');
    JoinSplit(a[..i], '#');
  }

  /** `t < '0' || t > '9'` on a string `t` of at most one character. */
  predicate OutsideDigits(t: string) {
    Less(t, "0") || Less("9", t)
  }

  /** `verifyAltName`: the four characters at positions -1 .. -4, taken with
      `slice`, are each compared with '0' and '9'. */
  predicate VerifyAltName(a: string) {
    if OutsideDigits(SliceFrom(a, -1)) then false
    else if OutsideDigits(Slice(a, -2, -1)) then false
    else if OutsideDigits(Slice(a, -3, -2)) then false
    else if OutsideDigits(Slice(a, -4, -3)) then false
    else true
  }

  lemma OutsideDigitsOne(t: string)
    requires |t| <= 1
    ensures OutsideDigits(t) <==> t == "" || !IsDigit(t[0])
  {
    if |t| == 1 {
      var c := t[0];
      assert t[1..] == "" && "0"[1..] == "" && "9"[1..] == "";
      assert "0"[0] == '0' && "9"[0] == '9';
      assert Less(t, "0") <==> c < '0';
      assert Less("9", t) <==> '9' < c;
    }
  }

  /** The character at position `-k` as the slice `verifyAltName` takes. */
  lemma SliceAtFromEnd(a: string, k: int)
    requires 2 <= k
    ensures k <= |a| ==> Slice(a, -k, -k + 1) == [a[|a| - k]]
    ensures k > |a| ==> Slice(a, -k, -k + 1) == ""
  {
  }

  /** `verifyAltName(a)` holds exactly when `a` has at least four characters
      and the last four are ASCII digits. */
  lemma VerifyAltNameSpec(a: string)
    ensures VerifyAltName(a) <==> |a| >= 4 && AllDigits(a[|a| - 4..])
  {
    var t1, t2, t3, t4 := SliceFrom(a, -1), Slice(a, -2, -1), Slice(a, -3, -2), Slice(a, -4, -3);
    SliceAtFromEnd(a, 2);
    SliceAtFromEnd(a, 3);
    SliceAtFromEnd(a, 4);
    OutsideDigitsOne(t1);
    OutsideDigitsOne(t2);
    OutsideDigitsOne(t3);
    OutsideDigitsOne(t4);
    if |a| >= 4 {
      var w := a[|a| - 4..];
      assert w[0] == a[|a| - 4] && w[1] == a[|a| - 3] && w[2] == a[|a| - 2] && w[3] == a[|a| - 1];
      assert t1 == [a[|a| - 1]];
    }
  }

  /** An alternate name made by `genName` is recognised as one exactly when
      the id has at least four digits. */
  lemma VerifyGenName(name: string, id: nat)
    ensures VerifyAltName(GenName(name, id)) <==> id >= 1000
  {
    var d := Last4(id);
    var g := GenName(name, id);
    assert g == name + "#" + d;
    VerifyAltNameSpec(g);
    if id >= 1000 {
      assert g[|g| - 4..] == d;
    } else if |g| >= 4 {
      var hash := |g| - |d| - 1;
      assert g[hash] == '#';
      assert g[|g| - 4..][hash - (|g| - 4)] == '#';
    }
  }

  /** The effective names of a list of accounts, in order (the `forEach`
      that fills `allNames`). */
  function AllNames(l: seq<Account>): (r: seq<string>)
    ensures |r| == |l| && forall i :: 0 <= i < |l| ==> r[i] == EffectiveName(l[i])
  {
    if l == [] then [] else [EffectiveName(l[0])] + AllNames(l[1..])
  }

  /** The filter of `resolveAcctList`: keep position `i` when it is both the
      first occurrence of its name and not the last one. */
  predicate KeptAt(names: seq<string>, i: nat)
    requires i < |names|
  {
    && (forall j :: 0 <= j < i ==> names[j] != names[i])
    && (exists j :: i < j < |names| && names[j] == names[i])
  }

  /** The filter's test as written, with `indexOf` and `lastIndexOf`. */
  lemma KeptAtIsFilterTest(names: seq<string>, i: nat)
    requires i < |names|
    ensures KeptAt(names, i) <==> IndexOf(names, names[i]) == i && LastIndexOf(names, names[i]) != i
  {
    var x := names[i];
    if LastIndexOf(names, x) != i {
      assert LastIndexOf(names, x) > i;
    }
  }

  function FilterFrom(names: seq<string>, i: nat): (r: seq<string>)
    decreases |names| - i
  {
    if i >= |names| then []
    else (if KeptAt(names, i) then [names[i]] else []) + FilterFrom(names, i + 1)
  }

  /** `name` occurs at two different positions of `names`. */
  predicate Repeated(names: seq<string>, name: string) {
    exists i, j :: 0 <= i < j < |names| && names[i] == name && names[j] == name
  }

  lemma KeptAtIff(names: seq<string>, k: nat)
    requires k < |names|
    ensures KeptAt(names, k) <==> IndexOf(names, names[k]) == k && Repeated(names, names[k])
  {
    var x := names[k];
    if IndexOf(names, x) == k && Repeated(names, x) {
      var i, j :| 0 <= i < j < |names| && names[i] == x && names[j] == x;
      assert LastIndexOf(names, x) >= j;
    }
  }

  /** What the filter keeps from position `i` on: each repeated name at its
      first occurrence, in order of first occurrence. */
  lemma {:induction false} FilterFromSpec(names: seq<string>, i: nat)
    ensures forall x :: x in FilterFrom(names, i) <==>
      exists k :: i <= k < |names| && KeptAt(names, k) && names[k] == x
    ensures forall a :: 0 <= a < |FilterFrom(names, i)| ==>
      var k := IndexOf(names, FilterFrom(names, i)[a]); i <= k < |names| && KeptAt(names, k)
    ensures forall a, b :: 0 <= a < b < |FilterFrom(names, i)| ==>
      IndexOf(names, FilterFrom(names, i)[a]) < IndexOf(names, FilterFrom(names, i)[b])
    decreases |names| - i
  {
    if i < |names| {
      FilterFromSpec(names, i + 1);
      var rest := FilterFrom(names, i + 1);
      if KeptAt(names, i) {
        var r := [names[i]] + rest;
        assert FilterFrom(names, i) == r;
        assert forall a :: 0 < a < |r| ==> r[a] == rest[a - 1];
        forall x | x in r
          ensures exists k :: i <= k < |names| && KeptAt(names, k) && names[k] == x
        {
          if x != names[i] {
            assert x in rest;
          }
        }
      }
    }
  }

  /** The names of `resolveAcctList` for a list of effective names. */
  function DupNames(names: seq<string>): (r: seq<string>) {
    FilterFrom(names, 0)
  }

  /** The duplicate list holds exactly the repeated names, each once, in
      order of first occurrence. */
  lemma DupNamesSpec(names: seq<string>)
    ensures forall x :: x in DupNames(names) <==> Repeated(names, x)
    ensures forall a, b :: 0 <= a < b < |DupNames(names)| ==>
      IndexOf(names, DupNames(names)[a]) < IndexOf(names, DupNames(names)[b])
    ensures Distinct(DupNames(names))
  {
    FilterFromSpec(names, 0);
    var r := FilterFrom(names, 0);
    forall x | Repeated(names, x) ensures x in r {
      var i, j :| 0 <= i < j < |names| && names[i] == x && names[j] == x;
      var k := IndexOf(names, x);
      KeptAtIff(names, k);
    }
    forall x | x in r ensures Repeated(names, x) {
      var k :| 0 <= k < |names| && KeptAt(names, k) && names[k] == x;
      KeptAtIff(names, k);
    }
  }

  /** `resolveAcctList`. */
  function ResolveAcctList(l: seq<Account>): seq<string> {
    DupNames(AllNames(l))
  }

  /** `resolveAcctList` returns the effective names that occur at least
      twice in `l`, each once, in order of first occurrence. */
  lemma ResolveAcctListSpec(l: seq<Account>)
    ensures forall x :: x in ResolveAcctList(l) <==> Repeated(AllNames(l), x)
    ensures forall a, b :: 0 <= a < b < |ResolveAcctList(l)| ==>
      IndexOf(AllNames(l), ResolveAcctList(l)[a]) < IndexOf(AllNames(l), ResolveAcctList(l)[b])
    ensures Distinct(ResolveAcctList(l))
  {
    DupNamesSpec(AllNames(l));
  }

  /** The text elements of a message, as the adapter delivers them. An
      absent `url` or `text` field is `None`. */
  datatype MessageElem =
    | Text(text: string)
    | Image(url: Option<string>)
    | Face(caption: Option<string>)
    | File
    | Video
    | At(display: Option<string>)
    | Flash(url: Option<string>)
    | Poke
    | Other(kind: string)

  /** A template-literal substitution `${x}` of an optional field. */
  function Templated(x: Option<string>): string {
    match x
    case Some(s) => s
    case None => "undefined"
  }

  /** `translateMessageElem`. */
  function TranslateMessageElem(m: MessageElem): (r: string)
    ensures r == "" <==> (m.Text? && m.text == "") || (m.At? && m.display == Some(""))
    ensures m.Text? ==> r == m.text
    ensures m.Image? || m.Flash? ==> EndsWith(r, Templated(m.url))
  {
    match m
    case Text(t) => t
    case Image(u) => "QQ图片:" + Templated(u)
    case Face(t) => "[" + Templated(t) + "]"
    case File => "收到QQ文件（本版本不支持查看）"
    case Video => "收到QQ视频（本版本不支持查看）"
    case At(t) => Templated(t)
    case Flash(u) => "QQ闪图:" + Templated(u)
    case Poke => "未知消息类型"
    case Other(_) => "未知消息类型"
  }
}
