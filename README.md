# axon-oicq: alternate names and identity tables

axon-oicq is a daemon that bridges a line-oriented JSON protocol to the QQ
messaging network through the `oicq` library. Every connection gets one
`AxonClient` session. The session turns the person behind a numeric QQ id
into a human-readable *alternate name*: the friend's nickname, or a group
member's card or nickname. When two accounts in the same scope share a
name, it adds the suffix `#` plus the last four digits of the id. Either
scope keeps a *duplicate-name table* to decide this: a list of colliding
names for the friend list, and a map from group id to colliding names for
the groups. Both are built lazily and cached. The session also runs the
inverse direction. It decodes an alternate name back to a friend, for
sending, and searches a cache of group members for LOOKUP.

This project models that core in Dafny:

- `JsText`: the JavaScript built-ins the codec relies on. These are
  `toString` of a non-negative integer, `slice` with negative positions,
  `endsWith`, `split`/`join`, `indexOf`/`lastIndexOf`, string `<`,
  `Number(s)` for decimal strings, and `filter`-based de-duplication.
- `Names`: the account records and the pure helpers `fixMemberName`,
  `genName`, `resolveAcctList`, `stripRealName`, `verifyAltName` and
  `translateMessageElem`.
- `Adapter`: the `oicq` client as a value, holding its friend list, group
  list and the member lists of groups, in iteration order. It also has the
  calls the core makes into it.
- `Protocol`: status and event codes, the frames written to the
  connection, command frames and the `callTable` dispatch table.
- `Directory`: the contents of both tables after a build, the two encoders,
  the friend decoder, and the lemmas about them. The lemmas cover the
  collision rule, distinctness within a scope, the caching rules, the
  decode round trip, and the cases where the round trip fails.
- `Relay`: what the private- and group-message handlers write, as
  functions of a message's elements.
- `Lists`: the replies of FLIST, GLIST and GMLIST.
- `Lookup`: the member cache and LOOKUP's search.
- `Session`: class `AxonClient`. Its fields are those of the source: the
  two tables, the member cache and the client. It also records the frames
  written (`out`) and the calls made into the client (`calls`). Every
  handler is a method whose postcondition gives the new state through the
  specification functions above.

Sequences stand for the source's `Map`s and arrays, in their iteration
order. Identities are compared by value. Where the client library, the
network or a promise decides an outcome, the method takes it as a
parameter (`Env`).

Three facts of the code shape the model:

- INIT logs out an existing client and replaces it. It does not reset the
  two duplicate-name tables or the member cache; they carry over to the
  new client (`src/index.ts:424-433`).
- The tables are built lazily, by the first name computed in their scope,
  and not when the client comes online (`src/index.ts:156-180`).
- The LOOKUP reply carries only `relation` and `id` (`src/index.ts:667-670`).
- Once built, a table is kept: the friend table is never rebuilt while it
  is non-empty (`src/index.ts:172`), and a cached group table
  (`src/index.ts:157`) is rebuilt only by the member-increase handler
  (`src/index.ts:321`), which is left out.
  The naming, distinctness and round-trip lemmas therefore speak of a
  table built from the list at hand. A table built earlier from another
  list can give two friends the same name (`Lists.StaleFriendTable`).

## Model

| member | source | states |
|---|---|---|
| Names.Last4 | src/index.ts:69-71 | The suffix `slice(-4)` of the id's decimal string has one to four digits and no `#`, and the id's string ends with it. It has four digits exactly when the id is at least 1000, and below 1000 it is the whole decimal string. |
| Names.StripRealName | src/index.ts:110-112 | A string without `#` is stripped to itself. |
| Names.StripGenName | src/index.ts:110-112 | Stripping inverts `genName` for every name, including names that contain `#`. |
| Names.StripRealNameBeforeLastHash | src/index.ts:110-112 | Reference definition by an independent route: stripping keeps exactly what precedes the last `#`. |
| Names.VerifyAltNameSpec | src/index.ts:114-120 | The four one-character comparisons hold exactly when the string has at least four characters and the last four are ASCII digits. |
| Names.VerifyGenName | src/index.ts:114-120 | A `genName` result is recognised as an alternate name exactly when the id is at least 1000. |
| Names.KeptAtIsFilterTest | src/index.ts:83-85 | The kept-position predicate is exactly the filter's test `indexOf(x) === i && lastIndexOf(x) !== i`. |
| Names.KeptAtIff | src/index.ts:83-85 | A position is kept exactly when it is the first occurrence of a name that occurs twice. |
| Names.FilterFromSpec | src/index.ts:83-85 | From any position on, the filter keeps the kept names and only those, in the order of their first occurrences. |
| Names.DupNamesSpec | src/index.ts:83-86 | The filtered list holds exactly the repeated names, once each, in order of first occurrence. |
| Names.ResolveAcctListSpec | src/index.ts:73-87 | `resolveAcctList` files a friend (which has no card) under its nickname and a member under its card, or its nickname when the card is empty. It returns the names filed at least twice, once each, in order of first occurrence. |
| Names.TranslateMessageElem | src/index.ts:89-108 | A text element translates to its text, and an image or flash element to a string ending in its url. The translation is empty only for an empty text or an empty `at`. |
| Directory.DmBuildOnce | src/index.ts:171-180 | Building the friend table a second time leaves it unchanged. |
| Directory.DmTableCaching | src/index.ts:171-180 | Once it is non-empty, the friend table never changes, whatever the client holds. A successful build ends with the `''` sentinel. |
| Directory.ChatTableCaching | src/index.ts:156-168 | Without `noCache`, a cached group's entry is left alone. Building twice is the same as building once, and other groups' entries never change. |
| Directory.InDupList | src/index.ts:196-201 | Collision rule: an account's name is in the scope's duplicate list exactly when another account shares it or it is one of the extra names. |
| Directory.GenNameInjective | src/index.ts:69-71 | Two `genName` results are equal exactly when the names and the four-digit tails are equal. |
| Directory.AltNamesDistinct | src/index.ts:196-216 | Within one scope, two accounts get different alternate names when their names hold no `#` and accounts sharing a name differ in their last four digits. |
| Directory.FriendAltNameRule | src/index.ts:183-204 | A friend is named by its nickname when that is non-empty and no other friend has it, and by `genName(nickname, id)` otherwise. This holds for the table as built from the current list; once built it is not rebuilt (see DmTableCaching), so a later list can be named by a stale table (see StaleFriendTable). |
| Directory.EmptyNicknameSuffixed | src/index.ts:179 | Because of the `''` sentinel, a friend with an empty nickname is always suffixed. |
| Directory.FriendIdEncoding | src/index.ts:189-192 | A friend id that is not listed, or whose nickname is empty, is named `幽灵用户`. Otherwise it gets the same name as the friend record. |
| Directory.FriendAltNamesDistinct | src/index.ts:183-204 | Listed friends get distinct alternate names under the conditions of `AltNamesDistinct`. This holds for the table as built from the current list; once built it is not rebuilt (see DmTableCaching), so a later list can be named by a stale table (see StaleFriendTable). |
| Directory.MemberInDupList | src/index.ts:166 | A member's effective name (`fixMemberName`: the card when it is non-empty, else the nickname) is in the group's duplicate list exactly when another member of the group has the same effective name. A card therefore collides with another member's nickname when that member has no card. |
| Directory.ChatMemberAltNameRule | src/index.ts:207-217 | Once the group table is built, a member is named by its effective name when no other member has it, and by `genName(name, id)` otherwise. |
| Directory.ChatMemberWithoutTable | src/index.ts:210-211 | A group with no member list and no table names every member `错误用户`. |
| Directory.ChatAltNamesDistinct | src/index.ts:207-217 | Members of one group get distinct alternate names under the conditions of `AltNamesDistinct`. This holds for a group table built from the current member list; once cached it is not rebuilt (see ChatTableCaching). |
| Directory.ExampleGroup | src/index.ts:207-217 | In the group {Tom 1234, Tom 5678, Ann 4321}, the names are `Tom#1234`, `Tom#5678` and `Ann`. |
| Directory.FriendByAltName | src/index.ts:225-229 | The decoder returns the first friend in list order that passes its test, and nothing exactly when no friend passes. |
| Directory.FriendByAltNameStep | src/index.ts:225-229 | One step of the search: the first match from a position on is the friend there if it matches, otherwise the first match after it. |
| Directory.SuffixTest | src/index.ts:226 | `endsWith(k.slice(-4))` on a suffixed name with a four-digit id accepts exactly the ids with the same last four digits. |
| Directory.SuffixedMatches | src/index.ts:226-227 | When remarks equal nicknames, `genName(n, id)` is accepted exactly for the friends named `n` whose ids share the last four digits. |
| Directory.OnlyMatch | src/index.ts:225-229 | When exactly one friend passes the test, the decoder returns that friend. |
| Directory.FriendRoundTrip | src/index.ts:183-230 | Decoding a listed friend's alternate name gives that friend back under four conditions: remarks equal nicknames, the nickname does not end in four digits, the id has four digits, and no namesake shares its last four digits. This holds for the table as built from the current list; once built it is not rebuilt (see DmTableCaching), so a later list can be named by a stale table (see StaleFriendTable). |
| Lists.StaleFriendTable | src/index.ts:171-180 | Where the naming rule fails: a friend table built while the friend list was empty holds only the `''` sentinel and is kept, so two friends named Tom added later are both listed as `Tom`. |
| Lists.StaleNameDecodesFirst | src/index.ts:220-230 | In that case, sending to `Tom` always reaches the first of the two friends. |
| Directory.DigitNicknameNotDecoded | src/index.ts:220-230 | Where the round trip fails: the unique nickname `bob2024` is sent as it is, but it decodes to nobody. |
| Directory.DigitNicknameRejected | src/index.ts:226-227 | The digits of `bob2024` are read as an id suffix that friend 55555 does not have. |
| Directory.RemarkNotDecoded | src/index.ts:227-228 | Where the round trip fails: the encoder uses the nickname, the decoder matches the remark. |
| Protocol.CallTableRoutesNames | src/index.ts:137-153 | `callTable` routes exactly the fifteen registered names, each to its own handler. |
| Relay.ElementEvent | src/index.ts:236-253 | An element produces at most one event, and produces one exactly when it is not kept as text. |
| Relay.PrivateStep | src/index.ts:235-256 | Visiting one more element appends its translation, if kept, to the text and its event to the events. |
| Relay.GroupStep | src/index.ts:273-288 | Visiting one more element appends its translation unless it is a url-bearing image. |
| Relay.PrivateTextAppend | src/index.ts:235-256 | The text of a concatenated message is the concatenation of the texts. |
| Relay.PrivateEventsAppend | src/index.ts:235-256 | The events of a concatenated message are the concatenation of the events. |
| Relay.GroupTextAppend | src/index.ts:273-288 | The group text of a concatenated message is the concatenation of the texts. |
| Relay.PrivateTextEmpty | src/index.ts:255-259 | The text is empty exactly when every element kept as text translates to nothing. |
| Relay.NonTextElems | src/index.ts:236-253 | The relayed-as-event elements are elements of the message that are not kept as text. |
| Relay.PrivateEventsAre | src/index.ts:236-253 | Each event is an attention event (code 3) or an image event (code 8) with a non-empty url. There is one per poke or url-bearing image, in element order. |
| Relay.PrivateFramesShape | src/index.ts:258-267 | The events come first. One more frame, a text event (code 1) with the text, follows exactly when the text is neither `''` nor `' '`. Every frame written carries an event type and status 1. |
| Relay.TextWithoutPokes | src/index.ts:270-288 | For a message without pokes, the private and group handlers accumulate the same text. |
| Relay.OnlyText | src/index.ts:232-268 | Two text elements relay their concatenation and no event. |
| Relay.PokeAlone | src/index.ts:236-242 | A lone poke relays the attention event and no text. |
| Lists.FriendNamesAt | src/index.ts:576-579 | FLIST's `list` and `idlist` hold each friend's alternate name and its id, position by position. |
| Lists.FListEntries | src/index.ts:567-587 | FLIST names each friend by the collision rule, beside its id. Two friends get different names under the distinctness conditions. This holds for the table as built from the current list; once built it is not rebuilt (see DmTableCaching), so a later list can be named by a stale table (see StaleFriendTable). |
| Lists.GroupListAt | src/index.ts:598-601 | GLIST's lists hold each group's name and its decimal id, position by position. |
| Lists.FindListedGroup | src/index.ts:507 | With distinct ids, the group found for a listed group's id is that group. |
| Lists.GroupIdRoundTrip | src/index.ts:600 | Converting an id GLIST reports back with `Number` gives the group's id, and that id finds the group. |
| Lists.MemberListNameAt | src/index.ts:537-548 | GMLIST's `list` names each member, in order, as a friend when it is one and by its group otherwise. |
| Lists.OwnerNameSpec | src/index.ts:550-553 | The owner reported is the last owner's name. It is absent exactly when no member is an owner. |
| Lists.AdminNamesSpec | src/index.ts:554-555 | The admin list holds every admin's name, and only admins' names. |
| Lists.AnyFriendIff | src/index.ts:537-543 | The step-by-step test that the loop keeps holds exactly when some member of the list is a friend. |
| Lists.AnyStrangerIff | src/index.ts:544-546 | The step-by-step test that the loop keeps holds exactly when some member of the list is not a friend. |
| Lists.GmListMemberName | src/index.ts:544-546 | A member who is not a friend is listed under the name its group's collision rule gives it. This holds for a group table built from the current member list; once cached it is not rebuilt (see ChatTableCaching). |
| Lookup.CacheWithSpec | src/index.ts:532-535 | Caching keeps the old cache as a prefix, holds every visited member and nothing else, and never adds a member that is already present. |
| Lookup.Matched | src/index.ts:640-646 | The first loop pushes exactly the cached members that match the name test. |
| Lookup.WithId | src/index.ts:650-653 | The inner loop pushes exactly the cached members with the given id. |
| Lookup.ExpandSpec | src/index.ts:649-654 | The nested loops push exactly the cached members whose id is a matched member's id. |
| Lookup.UserIds | src/index.ts:649 | `map(v => v.user_id)`, position by position. |
| Lookup.UserIdsIn | src/index.ts:665 | The mapped ids are exactly the ids of the members. |
| Lookup.RelatedSpec | src/index.ts:639-655 | `related` is the cached members sharing an id with some matched member, each once. |
| Lookup.LookupIdsSpec | src/index.ts:665-666 | The reported ids are pairwise distinct. They are exactly the ids of cached members whose effective name equals the stripped name and, in alternate-name form, whose id ends with the name's last four characters. |
| Lookup.RelatedGroupsSpec | src/index.ts:657-663 | `infoList` holds the client's group for each related member's group id. It is empty without a client. |
| Lookup.LookupSuffixed | src/index.ts:641-642 | A suffixed name with a four-digit id matches exactly the members with that effective name and the same last four digits. |
| Lookup.LookupFindsEncoded | src/index.ts:634-671 | Looking up the name a cached member gets in a group scope (its effective name, suffixed when it is in the scope's duplicate list) reports that member's id. Two conditions apply: a suffixed member's id has four digits, and an unsuffixed name does not itself end in four digits. This does not cover a member GMLIST shows under its friend name. |
| Lookup.LookupPlainName | src/index.ts:636-646 | A nickname not in alternate-name form is compared whole. LOOKUP reports exactly the ids of the cached members whose effective name it is. |
| Session.GroupFor | src/index.ts:507 | A group found for an id is a listed group whose id is the numeric value of that id. |
| Session.AxonClient.constructor | src/index.ts:123-129 | A session starts with empty tables and cache, and no client. |
| Session.AxonClient.BuildChatNickDupTable | src/index.ts:156-168 | The group table becomes its build from the member list. |
| Session.AxonClient.BuildDmNickDupTable | src/index.ts:171-180 | The friend table becomes its build from the friend list. |
| Session.AxonClient.BuildFriendAltName | src/index.ts:183-204 | The friend table is built, then the friend encoder's name is returned. |
| Session.AxonClient.BuildChatMemberAltName | src/index.ts:207-217 | The group table is built, then the member encoder's name is returned. |
| Session.AxonClient.BuildAltNameFriend | src/index.ts:220-230 | The search loop returns the decoder's first match, or nothing. |
| Session.AxonClient.PrivateElem | src/index.ts:236-255 | One element writes its event under the sender's built name or gives its text. The table is built only when an event is written. |
| Session.AxonClient.PrivateElems | src/index.ts:233-256 | The loop writes all element events and returns the text. The table is built exactly when an event is written. |
| Session.AxonClient.EPrivateMessage | src/index.ts:232-268 | The frames written are exactly the message's frames, under the sender's alternate name. The friend table is built exactly when a frame is written. |
| Session.AxonClient.EGroupMessage | src/index.ts:270-302 | The text frame is written when the text is neither `''` nor `' '`, naming the sender by the group table, which is built only then. |
| Session.AxonClient.InitCb | src/index.ts:424-433 | An existing client is logged out and replaced by a new client with the frame's uin and platform and no lists. The reply is 0, and the tables and cache are kept. |
| Session.AxonClient.LoginCb | src/index.ts:417-421 | Login is by password for method "0" with a password, by QR code for method "1", and not at all otherwise or without a client. |
| Session.AxonClient.GoAheadCb | src/index.ts:374-376 | GOAHEAD continues the login when there is a client. |
| Session.AxonClient.USendCb | src/index.ts:435-449 | A frame without `id` writes and sends nothing, because `verifyAltName` throws on `undefined`. A name that decodes to no friend gives -3 and no send. Otherwise the message goes to that friend, and the reply is 0 when the send resolves and -2 when it rejects. |
| Session.AxonClient.GSendCb | src/index.ts:468-487 | Without a client nothing is sent or written. Otherwise the message goes to the group numbered `Number(id)`, and the reply is 0 when the send resolves and -2 when it rejects. |
| Session.AxonClient.GInfoCb | src/index.ts:506-520 | An unknown group gives -3 and then a reply with no name. A known group gives its name and the topic. |
| Session.AxonClient.GmListMember | src/index.ts:532-546 | The member is cached unless present. It is named as a friend (building only the friend table) or by its group (building only that group's table). |
| Session.AxonClient.GmListMembers | src/index.ts:532-557 | The loop lists the members' names, owner and admins. It caches each member once and builds a table only when a member needs it. |
| Session.AxonClient.GmListCb | src/index.ts:522-565 | Its effect is `MemberListEffect`: without a member list the reply is -3 and nothing changes. Otherwise the reply lists the names, owner and admins. The cache grows by the new members, and each table is built exactly when some member needs it. |
| Session.AxonClient.FListCb | src/index.ts:567-587 | Without a client the reply is -3. Otherwise it lists each friend's alternate name and id, and the friend table is built when there is a friend. |
| Session.AxonClient.GListCb | src/index.ts:589-608 | Without a client the reply is -3. Otherwise it lists each group's name and decimal id. |
| Session.AxonClient.WhoAmICb | src/index.ts:610-615 | WHOAMI replies with the client's nickname, absent without a client. |
| Session.AxonClient.StatusCb | src/index.ts:617-632 | `busy`, `online` and `invisible` set online status 50, 11 and 41 when there is a client, and reply 0 even without one. Any other status writes and sets nothing. |
| Session.AxonClient.ComputeLookup | src/index.ts:634-669 | The loops compute exactly the LOOKUP reply of the cache and client. |
| Session.AxonClient.LookupCb | src/index.ts:634-671 | A frame without `nickname` writes nothing, because `verifyAltName` throws on `undefined`. Otherwise LOOKUP writes the reply for the current cache. |
| Session.AxonClient.HandleSession | src/index.ts:137-153 | INIT, LOGIN, GOAHEAD and STATUS have the effect of their handlers, as `HandlerEffect` spells out for each. |
| Session.AxonClient.HandleSend | src/index.ts:137-153 | USEND, USEND_IMG and USEND_SHAKE send the message, the image data or a poke to the decoded friend. GSEND and GSEND_IMG send the message or the image data to the group. Each has the effect of its handler. |
| Session.AxonClient.HandleGmList | src/index.ts:145 | GMLIST has the effect of `_gmlistCb`, including the table builds and the cache growth. |
| Session.AxonClient.HandleFList | src/index.ts:146 | FLIST has the effect of `_flistCb`, including the friend-table build. |
| Session.AxonClient.HandleQuery | src/index.ts:137-153 | GINFO, GLIST, WHOAMI and LOOKUP write their handlers' replies and change nothing else. |
| Session.AxonClient.HandleData | src/index.ts:674-680 | An unknown command name changes nothing. Any of the fifteen registered names leaves the whole state (frames, calls, client, tables, cache) as its handler's contract above gives it, spelled out per handler in `HandlerEffect`. Frames, calls and the cache only grow. |
| Session.MatchMembers | src/index.ts:640-646 | The first loop computes the matched members. |
| Session.MembersWithId | src/index.ts:650-653 | The inner loop computes the cached members with one id. |
| Session.ExpandMembers | src/index.ts:649-654 | The nested loops compute the members of every matched id, id by id. |
| Session.GroupsOf | src/index.ts:657-663 | The loop computes `infoList`, skipping ids with no group. |
| Session.GmListStep | src/index.ts:532-557 | GMLIST's lists, cache and table conditions each extend by one member per step of the loop. |

## Left out

- Command-line options, daemonizing, the server socket, ndjson framing and
  debug logging are left out: they are I/O plumbing.
- The teardown on socket close (logout and listener removal) and the error
  handler are left out for the same reason.
- `AsyncLock` serialisation is left out. Handlers are modelled as
  sequential calls, each running to completion.
- The `oicq` library itself is left out: login, logout, message sending,
  and fetching and refreshing lists. A client is the value of the lists it
  currently holds. A group whose member list cannot be fetched, or an id
  that `Number` turns into NaN, yields no list.
- The login-event listeners of LOGIN (online, error, QR code, slider,
  device) and the event binding they trigger are left out. They are the
  library's callbacks.
- A frame without `data` makes `Buffer.from` throw in USEND_IMG and
  GSEND_IMG, so nothing is sent. This is left out: the model reads the
  absent field as `""` and sends an empty image.
- GINFO's HTTP query is left out. Its topic is a parameter. This also
  drops a failure path: when `axios.get` rejects (`src/index.ts:512`),
  `_ginfoCb` writes nothing more, not even after the -3. Base64 image
  decoding is left out too: an image is sent as its base64 text.
- When this session's replies are written, relative to each other, is left
  out for send promises: the send reply comes right after the send.
- The group image events of `_eGroupMessage` are left out, along with the
  table build they trigger. Their `forEach` callback is `async`, so when
  they are written is not fixed. Only the text, which accumulates
  synchronously, is modelled.
- Session.AxonClient.EGroupMessage: it does not state the group-table build
  that a url-bearing image triggers, for the reason above.
- The invitation, member-increase, member-decrease and recall handlers are
  left out. They are not part of the alternate-name core.
- Identities are compared by value, not by object identity. This affects
  the cache's `includes` and LOOKUP's `indexOf`, and assumes the library
  hands out one object per member.
- Strings are sequences of characters, not UTF-16 code units. `Number(s)`
  is modelled only for decimal digit strings. For example, `Number("")` is
  0 in JavaScript but is NaN here.
- A command name inherited from `Object.prototype` is left out: `callTable`
  is taken to hold the fifteen names only.
- The `!friendInfo` check in `_gmlistCb` is left out. It cannot fail just
  after `has` holds.
- The data-directory resolution and the login-error codes in
  `src/constant.ts` are left out, and so is `src/interface.ts`, which holds
  only type declarations.
