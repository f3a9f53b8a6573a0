/** What the two message handlers write for one incoming message
    (src/index.ts, lines 232-302), as functions of the message's elements,
    the sender's alternate name and the message time. Each function is
    defined element by element from the front of the message, the order in
    which the handlers' `forEach` visits it. */
module Relay {
  import opened JsText
  import opened Names
  import opened Protocol

  /** An image or flash image whose `url` is present and non-empty: such an
      element is relayed as its own event instead of as text. */
  predicate HasUrl(m: MessageElem) {
    (m.Image? || m.Flash?) && m.url.Some? && m.url.value != ""
  }

  /** Whether a private message keeps an element as text: pokes and
      url-bearing images become events of their own. */
  predicate PrivateTextElem(m: MessageElem) {
    !m.Poke? && !HasUrl(m)
  }

  /** The `text` accumulated by `_ePrivateMessage` over a prefix of the
      elements. */
  function PrivateText(ms: seq<MessageElem>): string
    decreases |ms|
  {
    if |ms| == 0 then ""
    else PrivateText(ms[..|ms| - 1]) + (if PrivateTextElem(ms[|ms| - 1]) then TranslateMessageElem(ms[|ms| - 1]) else "")
  }

  /** The event frame `_ePrivateMessage` writes for one element, if any. */
  function ElementEvent(m: MessageElem, sender: string, time: nat): (r: seq<Reply>)
    ensures |r| <= 1
    ensures r != [] <==> !PrivateTextElem(m)
  {
    if m.Poke? then [FriendAttention(sender, time)]
    else if HasUrl(m) then [FriendImageMessage(sender, time, m.url.value)]
    else []
  }

  /** The event frames written while the elements are visited. */
  function PrivateEvents(ms: seq<MessageElem>, sender: string, time: nat): seq<Reply>
    decreases |ms|
  {
    if |ms| == 0 then []
    else PrivateEvents(ms[..|ms| - 1], sender, time) + ElementEvent(ms[|ms| - 1], sender, time)
  }

  /** The final text frame is written unless the text is `''` or `' '`. */
  predicate TextEmitted(text: string) {
    text != "" && text != " "
  }

  /** Every frame `_ePrivateMessage` writes, in order. */
  function PrivateFrames(ms: seq<MessageElem>, sender: string, time: nat): seq<Reply> {
    var text := PrivateText(ms);
    PrivateEvents(ms, sender, time) + (if TextEmitted(text) then [FriendMessage(sender, time, text)] else [])
  }

  /** The `text` accumulated by `_eGroupMessage`: only url-bearing images
      are taken out; a poke is translated like any other element. */
  function GroupText(ms: seq<MessageElem>): string
    decreases |ms|
  {
    if |ms| == 0 then ""
    else GroupText(ms[..|ms| - 1]) + (if HasUrl(ms[|ms| - 1]) then "" else TranslateMessageElem(ms[|ms| - 1]))
  }

  /** The text frame `_eGroupMessage` writes, if any, for a message of group
      `gid` named `groupName`. */
  function GroupTextFrame(ms: seq<MessageElem>, sender: string, time: nat, groupName: string, gid: nat): seq<Reply> {
    var text := GroupText(ms);
    if TextEmitted(text) then [GroupMessage(sender, time, text, groupName, gid)] else []
  }

  /** Visiting one more element of a message. */
  lemma PrivateStep(ms: seq<MessageElem>, i: nat, sender: string, time: nat)
    requires i < |ms|
    ensures PrivateText(ms[..i + 1])
         == PrivateText(ms[..i]) + (if PrivateTextElem(ms[i]) then TranslateMessageElem(ms[i]) else "")
    ensures PrivateEvents(ms[..i + 1], sender, time) == PrivateEvents(ms[..i], sender, time) + ElementEvent(ms[i], sender, time)
  {
    assert ms[..i + 1][..i] == ms[..i];
  }

  lemma GroupStep(ms: seq<MessageElem>, i: nat)
    requires i < |ms|
    ensures GroupText(ms[..i + 1]) == GroupText(ms[..i]) + (if HasUrl(ms[i]) then "" else TranslateMessageElem(ms[i]))
  {
    assert ms[..i + 1][..i] == ms[..i];
  }

  /** The text of a message made of two parts is the text of the first
      followed by the text of the second. */
  lemma {:induction false} PrivateTextAppend(a: seq<MessageElem>, b: seq<MessageElem>)
    ensures PrivateText(a + b) == PrivateText(a) + PrivateText(b)
    decreases |b|
  {
    if |b| > 0 {
      var init := b[..|b| - 1];
      assert (a + b)[..|a + b| - 1] == a + init;
      PrivateTextAppend(a, init);
    } else {
      assert a + b == a;
    }
  }

  lemma {:induction false} PrivateEventsAppend(a: seq<MessageElem>, b: seq<MessageElem>, sender: string, time: nat)
    ensures PrivateEvents(a + b, sender, time) == PrivateEvents(a, sender, time) + PrivateEvents(b, sender, time)
    decreases |b|
  {
    if |b| > 0 {
      var init := b[..|b| - 1];
      assert (a + b)[..|a + b| - 1] == a + init;
      PrivateEventsAppend(a, init, sender, time);
    } else {
      assert a + b == a;
    }
  }

  lemma {:induction false} GroupTextAppend(a: seq<MessageElem>, b: seq<MessageElem>)
    ensures GroupText(a + b) == GroupText(a) + GroupText(b)
    decreases |b|
  {
    if |b| > 0 {
      var init := b[..|b| - 1];
      assert (a + b)[..|a + b| - 1] == a + init;
      GroupTextAppend(a, init);
    } else {
      assert a + b == a;
    }
  }

  /** The private text is empty exactly when every element kept as text
      translates to nothing: an empty text element or an `at` with empty
      text. */
  lemma {:induction false} PrivateTextEmpty(ms: seq<MessageElem>)
    ensures PrivateText(ms) == "" <==>
      forall i :: 0 <= i < |ms| && PrivateTextElem(ms[i]) ==> TranslateMessageElem(ms[i]) == ""
    decreases |ms|
  {
    if |ms| > 0 {
      var init, last := ms[..|ms| - 1], ms[|ms| - 1];
      PrivateTextEmpty(init);
      var piece := if PrivateTextElem(last) then TranslateMessageElem(last) else "";
      assert PrivateText(ms) == PrivateText(init) + piece;
      assert PrivateText(ms) == "" <==> PrivateText(init) == "" && piece == "" by {
        assert |PrivateText(ms)| == |PrivateText(init)| + |piece|;
      }
      assert forall i :: 0 <= i < |init| ==> init[i] == ms[i];
    }
  }

  /** One event per poke and per url-bearing image, in element order: the
      `k`-th event belongs to the `k`-th element that is not kept as text. */
  lemma {:induction false} PrivateEventsAre(ms: seq<MessageElem>, sender: string, time: nat)
    ensures forall e :: e in PrivateEvents(ms, sender, time) ==>
      (e == FriendAttention(sender, time) && EventType(e) == Some(E_FRIEND_ATTENTION)) ||
      (e.FriendImageMessage? && e.sender == sender && e.time == time && e.url != ""
        && EventType(e) == Some(E_FRIEND_IMG_MESSAGE))
    ensures |PrivateEvents(ms, sender, time)| == |NonTextElems(ms)|
    ensures forall k :: 0 <= k < |NonTextElems(ms)| ==>
      [PrivateEvents(ms, sender, time)[k]] == ElementEvent(NonTextElems(ms)[k], sender, time)
    decreases |ms|
  {
    if |ms| > 0 {
      PrivateEventsAre(ms[..|ms| - 1], sender, time);
    }
  }

  /** The elements a private message relays as events, in order. */
  function NonTextElems(ms: seq<MessageElem>): (r: seq<MessageElem>)
    ensures forall m :: m in r ==> m in ms && !PrivateTextElem(m)
    decreases |ms|
  {
    if |ms| == 0 then []
    else
      var init := ms[..|ms| - 1];
      var r := NonTextElems(init);
      assert forall m :: m in init ==> m in ms;
      r + (if PrivateTextElem(ms[|ms| - 1]) then [] else [ms[|ms| - 1]])
  }

  /** The frames of a private message: its events, then a text event
      (code 1) exactly when the text is neither `''` nor `' '`. Every one
      is an event frame, with a type and status 1. */
  lemma PrivateFramesShape(ms: seq<MessageElem>, sender: string, time: nat)
    ensures var f := PrivateFrames(ms, sender, time); var ev := PrivateEvents(ms, sender, time);
      && ev <= f
      && (TextEmitted(PrivateText(ms)) <==> |f| == |ev| + 1)
      && (TextEmitted(PrivateText(ms)) ==>
            f[|f| - 1] == FriendMessage(sender, time, PrivateText(ms)) && EventType(f[|f| - 1]) == Some(E_FRIEND_MESSAGE))
    ensures forall e :: e in PrivateFrames(ms, sender, time) ==> EventType(e).Some? && StatusField(e) == Some(R_STAT_EVENT)
  {
    PrivateEventsAre(ms, sender, time);
  }

  /** A message without pokes has the same text in either handler. */
  lemma {:induction false} TextWithoutPokes(ms: seq<MessageElem>)
    requires forall i :: 0 <= i < |ms| ==> !ms[i].Poke?
    ensures PrivateText(ms) == GroupText(ms)
    decreases |ms|
  {
    if |ms| > 0 {
      var init := ms[..|ms| - 1];
      assert forall i :: 0 <= i < |init| ==> init[i] == ms[i];
      TextWithoutPokes(init);
    }
  }

  /** A message of text elements alone relays their concatenation and no
      event. */
  lemma OnlyText(a: string, b: string, sender: string, time: nat)
    requires TextEmitted(a + b)
    ensures PrivateFrames([Text(a), Text(b)], sender, time) == [FriendMessage(sender, time, a + b)]
  {
    var ms := [Text(a), Text(b)];
    assert ms[..1] == [Text(a)];
    assert [Text(a)][..0] == [];
    assert PrivateText([Text(a)]) == a;
    assert PrivateEvents([Text(a)], sender, time) == [];
    assert PrivateText(ms) == a + b;
    assert PrivateEvents(ms, sender, time) == [];
  }

  /** A poke alone writes the attention event and no text: the text a poke
      would translate to is never accumulated. */
  lemma PokeAlone(sender: string, time: nat)
    ensures PrivateFrames([Poke], sender, time) == [FriendAttention(sender, time)]
  {
    assert [Poke][..0] == [];
  }
}
