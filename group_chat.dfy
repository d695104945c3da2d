/**
 * The group chat window without its widgets: which polled messages it shows and
 * the last message id it has seen, the typing line, the edit rule and its
 * " (edited)" marker, reaction counters, the per-message tracking maps, the
 * add-member filter and the creator-only guards. The group store is an oracle.
 */
module GroupChat {
  import opened Wrappers
  import opened JavaText
  import MainFrame

  /** A row of the group's message table. */
  datatype GroupMessage = GroupMessage(id: int, sender: string, content: string)

  /* ------------------------------------ polling ------------------------------------ */

  /** The first loop of checkForNewMessages: newer than `last` and not the user's own, in table order. */
  function NewMessages(all: seq<GroupMessage>, last: int, me: string): seq<GroupMessage> {
    if |all| == 0 then []
    else
      var f := NewMessages(all[..|all| - 1], last, me);
      var m := all[|all| - 1];
      if m.id > last && m.sender != me then f + [m] else f
  }

  /** lastMessageId after the bubbles for `ms` were added: raised to each larger id in turn. */
  function MaxId(last: int, ms: seq<GroupMessage>): int {
    if |ms| == 0 then last
    else
      var l := MaxId(last, ms[..|ms| - 1]);
      if ms[|ms| - 1].id > l then ms[|ms| - 1].id else l
  }

  /** A polled message is shown exactly when it is newer than `last` and from someone else. */
  lemma {:induction false} NewMessagesMember(all: seq<GroupMessage>, last: int, me: string, m: GroupMessage)
    ensures m in NewMessages(all, last, me) <==> m in all && m.id > last && m.sender != me
  {
    if |all| > 0 {
      var init := all[..|all| - 1];
      NewMessagesMember(init, last, me, m);
      if m in init {
        assert m in all;
      }
      if m in all && m != all[|all| - 1] {
        var k :| 0 <= k < |all| && all[k] == m;
        assert init[k] == m;
      }
    }
  }

  /** The id never decreases, bounds every shown id, and is either the old one or a shown one. */
  lemma {:induction false} MaxIdSpec(last: int, ms: seq<GroupMessage>)
    ensures MaxId(last, ms) >= last
    ensures forall m :: m in ms ==> m.id <= MaxId(last, ms)
    ensures MaxId(last, ms) == last || exists m :: m in ms && m.id == MaxId(last, ms)
  {
    if |ms| > 0 {
      var init := ms[..|ms| - 1];
      MaxIdSpec(last, init);
      assert ms == init + [ms[|ms| - 1]];
      if MaxId(last, ms) != last && MaxId(last, ms) == MaxId(last, init) {
        var m :| m in init && m.id == MaxId(last, init);
        assert m in ms;
      }
    }
  }

  lemma {:induction false} NoNewMessages(all: seq<GroupMessage>, last: int, me: string)
    requires forall k :: 0 <= k < |all| ==> all[k].id <= last || all[k].sender == me
    ensures NewMessages(all, last, me) == []
  {
    if |all| > 0 {
      NoNewMessages(all[..|all| - 1], last, me);
    }
  }

  /** Polling the same table again right after a poll shows nothing new. */
  lemma PollAgainShowsNothing(all: seq<GroupMessage>, last: int, me: string)
    ensures NewMessages(all, MaxId(last, NewMessages(all, last, me)), me) == []
  {
    var ms := NewMessages(all, last, me);
    var next := MaxId(last, ms);
    MaxIdSpec(last, ms);
    forall k | 0 <= k < |all|
      ensures all[k].id <= next || all[k].sender == me
    {
      NewMessagesMember(all, last, me, all[k]);
      assert all[k] in all;
    }
    NoNewMessages(all, next, me);
  }

  /* ---------------------------------- typing line ---------------------------------- */

  /** The typing label: whether it shows, and its text. */
  datatype TypingLine = TypingLine(visible: bool, text: string)

  /** `order` is the set's iteration order: each member once. */
  ghost predicate Lists(order: seq<string>, s: set<string>) {
    (forall i, j :: 0 <= i < j < |order| ==> order[i] != order[j]) &&
    (forall x :: x in order <==> x in s)
  }

  /**
   * updateTypingDisplay over the typers in iteration order: hidden and empty for
   * nobody, the name for one, both names for two, and the count beyond that.
   */
  function TypingDisplay(order: seq<string>): (t: TypingLine)
    ensures t.visible <==> |order| > 0
    ensures !t.visible ==> t.text == ""
    ensures 1 <= |order| <= 2 ==> forall u :: u in order ==> Contains(t.text, u)
    ensures |order| >= 3 ==> StartsWith(t.text, IntToString(|order|))
  {
    if |order| == 0 then TypingLine(false, "")
    else if |order| == 1 then
      var text := order[0] + " is typing...";
      assert OccursAt(text, order[0], 0) by {
        assert text[..|order[0]|] == order[0];
      }
      TypingLine(true, text)
    else if |order| == 2 then
      var a := order[0];
      var b := order[1];
      var text := a + " and " + b + " are typing...";
      assert OccursAt(text, a, 0) by {
        assert text[..|a|] == a;
      }
      assert OccursAt(text, b, |a| + 5) by {
        assert text[|a| + 5..|a| + 5 + |b|] == b;
      }
      TypingLine(true, text)
    else
      var n := IntToString(|order|);
      var text := n + " users are typing...";
      assert text[..|n|] == n;
      TypingLine(true, text)
  }

  /** A duplicate-free sequence has as many elements as the set it lists. */
  lemma {:induction false} ListsCard(order: seq<string>, s: set<string>)
    requires Lists(order, s)
    ensures |s| == |order|
  {
    if |order| == 0 {
      assert s == {};
    } else {
      var last := order[|order| - 1];
      var init := order[..|order| - 1];
      assert last in s;
      assert Lists(init, s - {last}) by {
        forall x
          ensures x in init <==> x in s - {last}
        {
          if x in s - {last} {
            assert x in order;
            var k :| 0 <= k < |order| && order[k] == x;
            assert k < |order| - 1;
            assert init[k] == x;
          }
        }
      }
      ListsCard(init, s - {last});
    }
  }

  /** The typing line in terms of the set of typers. */
  lemma TypingDisplayOfSet(order: seq<string>, typing: set<string>)
    requires Lists(order, typing)
    ensures TypingDisplay(order).visible <==> typing != {}
    ensures |typing| == 1 ==> exists u :: typing == {u} && TypingDisplay(order).text == u + " is typing..."
    ensures |typing| == 2 ==>
              exists a, b :: (a != b && typing == {a, b} &&
                              TypingDisplay(order).text == a + " and " + b + " are typing...")
    ensures |typing| >= 3 ==> TypingDisplay(order).text == IntToString(|typing|) + " users are typing..."
  {
    ListsCard(order, typing);
    if |order| > 0 {
      assert order[0] in typing;
    }
    if |order| == 1 {
      assert typing == {order[0]};
    }
    if |order| == 2 {
      assert typing == {order[0], order[1]};
    }
  }

  /* ------------------------------------- edits ------------------------------------- */

  const HtmlTag: string := "<html>"
  const BodyTag: string := "<body style='width: 300px'>"
  const HtmlOpen: string := HtmlTag + BodyTag
  const BodyEnd: string := "</body>"
  const HtmlEnd: string := "</html>"
  const HtmlClose: string := BodyEnd + HtmlEnd
  const EditedSuffix: string := " (edited)"

  /** The message label's text for a message body. */
  function LabelText(content: string): string {
    HtmlOpen + content + HtmlClose
  }

  /**
   * stripEditedSuffix: "" for null; otherwise the text with every `<...>` run
   * removed and then one trailing " (edited)" cut off.
   */
  function StripEditedSuffix(text: Option<string>): (r: string)
    ensures text.None? ==> r == ""
    ensures text.Some? ==> StripTags(text.value) == r || StripTags(text.value) == r + EditedSuffix
    ensures NoTagLeft(r)
  {
    match text
    case None => ""
    case Some(t) =>
      var plain := StripTags(t);
      if EndsWith(plain, EditedSuffix) then
        var r := plain[..|plain| - |EditedSuffix|];
        assert plain == r + EditedSuffix;
        r
      else plain
  }

  lemma BodyTagDrops(rest: string)
    ensures StripTags(BodyTag + rest) == StripTags(rest)
  {
    assert forall i :: 1 <= i < |BodyTag| - 1 ==> BodyTag[i] != '>';
    StripTagsDropTag(BodyTag, rest);
  }

  /** The opening tags come off whatever follows them. */
  lemma OpenTagsDrop(rest: string)
    ensures StripTags(HtmlOpen + rest) == StripTags(rest)
  {
    assert HtmlOpen + rest == HtmlTag + (BodyTag + rest);
    StripTagsDropTag(HtmlTag, BodyTag + rest);
    BodyTagDrops(rest);
  }

  /** The closing tags strip off whatever precedes what follows them. */
  lemma CloseTagsDrop(rest: string)
    ensures StripTags(HtmlClose + rest) == StripTags(rest)
  {
    assert HtmlClose + rest == BodyEnd + (HtmlEnd + rest);
    assert forall i :: 1 <= i < |BodyEnd| - 1 ==> BodyEnd[i] != '>';
    assert forall i :: 1 <= i < |HtmlEnd| - 1 ==> HtmlEnd[i] != '>';
    StripTagsDropTag(BodyEnd, HtmlEnd + rest);
    StripTagsDropTag(HtmlEnd, rest);
  }

  /** The tags a label wraps around its body come off again. */
  lemma StripLabelThen(content: string, rest: string)
    requires forall i :: 0 <= i < |content| ==> content[i] != '<'
    ensures StripTags(LabelText(content) + rest) == content + StripTags(rest)
  {
    assert LabelText(content) + rest == HtmlOpen + (content + (HtmlClose + rest));
    OpenTagsDrop(content + (HtmlClose + rest));
    StripTagsPlainPrefix(content, HtmlClose + rest);
    CloseTagsDrop(rest);
  }

  lemma StripLabel(content: string)
    requires forall i :: 0 <= i < |content| ==> content[i] != '<'
    ensures StripTags(LabelText(content)) == content
  {
    StripLabelThen(content, "");
    assert LabelText(content) + "" == LabelText(content);
    assert content + "" == content;
  }

  /**
   * The edit branch: the new label body, or None when the edit is ignored (dialog
   * cancelled, blank after trimming, or the same as the current text).
   */
  function EditDisplay(current: string, updated: Option<string>): (d: Option<string>)
    ensures d.Some? <==>
              updated.Some? && Trim(updated.value) != "" &&
              Trim(updated.value) != StripEditedSuffix(Some(current))
    ensures d.Some? ==> d.value == Trim(updated.value) + EditedSuffix
  {
    if updated.None? then None
    else
      var u := Trim(updated.value);
      if u == "" || u == StripEditedSuffix(Some(current)) then None
      else Some(u + EditedSuffix)
  }

  /** A label holding a tag-free text and the marker strips back to that text. */
  lemma MarkedLabelReadsBack(u: string)
    requires forall i :: 0 <= i < |u| ==> u[i] != '<'
    ensures StripEditedSuffix(Some(LabelText(u + EditedSuffix))) == u
  {
    var d := u + EditedSuffix;
    assert forall i :: 0 <= i < |EditedSuffix| ==> EditedSuffix[i] != '<';
    assert forall i :: 0 <= i < |d| ==> d[i] != '<' by {
      forall i | 0 <= i < |d|
        ensures d[i] != '<'
      {
        if i >= |u| {
          assert d[i] == EditedSuffix[i - |u|];
        }
      }
    }
    StripLabel(d);
    assert EndsWith(d, EditedSuffix) by {
      assert d[|u|..] == EditedSuffix;
    }
    assert d[..|d| - |EditedSuffix|] == u;
  }

  /** After an accepted edit the label reads back, without the marker, as the trimmed new text. */
  lemma EditRoundTrip(current: string, updated: string)
    requires EditDisplay(current, Some(updated)).Some?
    requires forall i :: 0 <= i < |Trim(updated)| ==> Trim(updated)[i] != '<'
    ensures StripEditedSuffix(Some(LabelText(EditDisplay(current, Some(updated)).value))) == Trim(updated)
  {
    MarkedLabelReadsBack(Trim(updated));
  }

  /** Submitting the same text again is ignored: an edit is applied once. */
  lemma EditAgainIgnored(current: string, updated: string, again: string)
    requires EditDisplay(current, Some(updated)).Some?
    requires forall i :: 0 <= i < |Trim(updated)| ==> Trim(updated)[i] != '<'
    requires Trim(again) == Trim(updated)
    ensures EditDisplay(LabelText(EditDisplay(current, Some(updated)).value), Some(again)).None?
  {
    EditRoundTrip(current, updated);
  }

  /* ---------------------------------- reactions ---------------------------------- */

  /** A message label, by identity. */
  type Label = nat

  /** The reaction strip map's keys and the reaction count maps. */
  datatype Reactions = Reactions(strips: set<Label>, counts: map<Label, map<string, int>>)

  /** getOrDefault(emoji, 0) */
  function CountOf(c: map<string, int>, emoji: string): int {
    if emoji in c then c[emoji] else 0
  }

  /** counts.put(emoji, getOrDefault(emoji, 0) + 1), in Java int arithmetic. */
  function Bump(c: map<string, int>, emoji: string): (b: map<string, int>)
    ensures CountOf(b, emoji) == Wrap32(CountOf(c, emoji) + 1)
    ensures forall e :: e != emoji ==> CountOf(b, e) == CountOf(c, e)
    ensures b.Keys == c.Keys + {emoji}
  {
    c[emoji := Wrap32(CountOf(c, emoji) + 1)]
  }

  /** ensureReactionStrip: a label without a strip gets one and a fresh, empty count map. */
  function WithStrip(r: Reactions, l: Label): (w: Reactions)
    ensures l in w.strips
    ensures l in r.strips ==> w == r
    ensures r.strips <= r.counts.Keys ==> w.strips <= w.counts.Keys
    ensures forall k :: k != l ==> (k in w.strips <==> k in r.strips)
    ensures forall k :: k in r.counts && (k != l || l in r.strips) ==> k in w.counts && w.counts[k] == r.counts[k]
  {
    if l in r.strips then r else Reactions(r.strips + {l}, r.counts[l := map[]])
  }

  /** ensureReactionStrip twice is ensureReactionStrip once. */
  lemma WithStripIdempotent(r: Reactions, l: Label)
    ensures WithStrip(WithStrip(r, l), l) == WithStrip(r, l)
  {
  }

  /**
   * applyReaction: a label without a strip whose parent is a panel gets one first;
   * then the chosen emoji's count goes up by one.
   */
  function Reacted(r: Reactions, l: Label, emoji: string, inPanel: bool): Reactions {
    var w := if l !in r.strips && inPanel then WithStrip(r, l) else r;
    var c := if l in w.counts then w.counts[l] else map[];
    w.(counts := w.counts[l := Bump(c, emoji)])
  }

  /** On a label that has its strip a reaction adds exactly one to that emoji and touches nothing else. */
  lemma ReactionAddsOne(r: Reactions, l: Label, emoji: string, inPanel: bool)
    requires l in r.strips && l in r.counts
    requires 0 <= CountOf(r.counts[l], emoji) < IntMax
    ensures var n := Reacted(r, l, emoji, inPanel);
            n.strips == r.strips && l in n.counts &&
            CountOf(n.counts[l], emoji) == CountOf(r.counts[l], emoji) + 1 &&
            (forall e :: e != emoji ==> CountOf(n.counts[l], e) == CountOf(r.counts[l], e)) &&
            (forall k :: k != l ==> (k in n.counts <==> k in r.counts)) &&
            (forall k :: k != l && k in r.counts ==> n.counts[k] == r.counts[k])
  {
    assert IsInt32(CountOf(r.counts[l], emoji) + 1);
  }

  /* ----------------------------------- members ----------------------------------- */

  /** List.remove(Object): drops the first occurrence. */
  function RemoveFirst<T(==)>(s: seq<T>, x: T): (r: seq<T>)
    ensures x in s ==> |r| == |s| - 1
    ensures x !in s ==> r == s
  {
    if |s| == 0 then s
    else if s[0] == x then s[1..]
    else [s[0]] + RemoveFirst(s[1..], x)
  }

  predicate DistinctSeq<T(==)>(s: seq<T>) {
    forall i, j :: 0 <= i < j < |s| ==> s[i] != s[j]
  }

  lemma DistinctSnoc<T>(s: seq<T>, x: T)
    requires DistinctSeq(s) && x !in s
    ensures DistinctSeq(s + [x])
  {
    forall i, j | 0 <= i < j < |s + [x]|
      ensures (s + [x])[i] != (s + [x])[j]
    {
      if j == |s| {
        assert (s + [x])[i] == s[i];
      }
    }
  }

  /** In a duplicate-free sequence removing the first occurrence removes the element for good. */
  lemma {:induction false} RemoveFirstDistinct<T>(s: seq<T>, x: T)
    requires DistinctSeq(s)
    ensures DistinctSeq(RemoveFirst(s, x))
    ensures forall y :: y in RemoveFirst(s, x) <==> y in s && y != x
  {
    if |s| > 0 {
      assert DistinctSeq(s[1..]);
      RemoveFirstDistinct(s[1..], x);
      if s[0] != x {
        var r := [s[0]] + RemoveFirst(s[1..], x);
        assert s[0] !in s[1..] by {
          forall k | 0 <= k < |s[1..]|
            ensures s[1..][k] != s[0]
          {
            assert s[k + 1] != s[0];
          }
        }
        forall i, j | 0 <= i < j < |r|
          ensures r[i] != r[j]
        {
          if i == 0 {
            assert r[j] in RemoveFirst(s[1..], x);
          }
        }
      } else {
        assert s[0] !in s[1..] by {
          forall k | 0 <= k < |s[1..]|
            ensures s[1..][k] != s[0]
          {
            assert s[k + 1] != s[0];
          }
        }
      }
    }
  }

  /** The add-member dialog's candidates: every user not yet a member, in the users' order. */
  function Available(users: seq<string>, current: seq<string>): seq<string> {
    if |users| == 0 then []
    else
      var f := Available(users[..|users| - 1], current);
      var u := users[|users| - 1];
      if u !in current then f + [u] else f
  }

  /** A user is offered exactly when it is a user and not yet a member. */
  lemma {:induction false} AvailableMember(users: seq<string>, current: seq<string>, x: string)
    ensures x in Available(users, current) <==> x in users && x !in current
  {
    if |users| > 0 {
      var init := users[..|users| - 1];
      AvailableMember(init, current, x);
      if x in init {
        assert x in users;
      }
      if x in users && x != users[|users| - 1] {
        var k :| 0 <= k < |users| && users[k] == x;
        assert init[k] == x;
      }
    }
  }

  /** The filter loop of showAddMemberDialog. */
  method AvailableUsers(users: seq<string>, current: seq<string>) returns (available: seq<string>)
    ensures available == Available(users, current)
  {
    available := [];
    var i := 0;
    while i < |users|
      invariant 0 <= i <= |users|
      invariant available == Available(users[..i], current)
    {
      assert users[..i + 1][..i] == users[..i];
      if users[i] !in current {
        available := available + [users[i]];
      }
      i := i + 1;
    }
    assert users[..|users|] == users;
  }

  /** getOrDefault(label, -1) on the label-to-id map. */
  function IdOf(ids: map<Label, int>, l: Label): int {
    if l in ids then ids[l] else -1
  }

  /** The creator-only checks of removeSelectedMember and deleteGroup. */
  datatype Refusal = NotCreator | NoSelection | CannotRemoveCreator

  /** removeSelectedMember's guards in order; None when the removal may be confirmed. */
  function RemovalRefusal(creator: Option<string>, me: string, selected: Option<string>): (r: Option<Refusal>)
    ensures r.None? <==> creator == Some(me) && selected.Some? && selected.value != me
    ensures creator != Some(me) ==> r == Some(NotCreator)
  {
    if creator.None? || me != creator.value then Some(NotCreator)
    else if selected.None? then Some(NoSelection)
    else if selected.value == creator.value then Some(CannotRemoveCreator)
    else None
  }

  /* --------------------------------- bubbles in a row --------------------------------- */

  /** The labels `from`, `from + 1`, ..., which `n` bubbles added in a row receive. */
  function LabelRun(from: Label, n: nat): (r: seq<Label>)
    ensures |r| == n && forall k :: 0 <= k < n ==> r[k] == from + k
  {
    if n == 0 then [] else LabelRun(from, n - 1) + [from + n - 1]
  }

  /** The message labels and what the window keeps for each: the part of its state a bubble changes. */
  datatype Board = Board(labels: seq<Label>, ids: map<Label, int>, senders: map<Label, string>,
                         texts: map<Label, string>, editable: set<Label>, reactions: Reactions, next: Label)

  /**
   * One bubble for `m`: the next label, tracked with the id and sender of `m`,
   * showing its wrapped body, with a reaction strip, and with the message actions
   * when `own` holds.
   */
  function Placed(b: Board, m: GroupMessage, own: bool): Board {
    var l := b.next;
    Board(b.labels + [l], b.ids[l := m.id], b.senders[l := m.sender], b.texts[l := LabelText(m.content)],
          if own then b.editable + {l} else b.editable, WithStrip(b.reactions, l), l + 1)
  }

  /** The bubbles of `ms`, in order; in the history the messages `me` sent get the actions. */
  function PlacedAll(b: Board, ms: seq<GroupMessage>, history: bool, me: string): Board {
    if |ms| == 0 then b
    else
      var m := ms[|ms| - 1];
      Placed(PlacedAll(b, ms[..|ms| - 1], history, me), m, history && m.sender == me)
  }

  /** One more message shows one more bubble, after the others. */
  lemma PlacedAllSnoc(b: Board, last: int, ms: seq<GroupMessage>, k: nat, history: bool, me: string)
    requires k < |ms|
    ensures PlacedAll(b, ms[..k + 1], history, me)
      == Placed(PlacedAll(b, ms[..k], history, me), ms[k], history && ms[k].sender == me)
    ensures MaxId(last, ms[..k + 1]) == if ms[k].id > MaxId(last, ms[..k]) then ms[k].id else MaxId(last, ms[..k])
    ensures ms[..k + 1] == ms[..k] + [ms[k]]
  {
    assert ms[..k + 1][..k] == ms[..k];
  }

  /** Bubbles in a row take the next labels in order, each once. */
  lemma {:induction false} PlacedAllLabels(b: Board, ms: seq<GroupMessage>, history: bool, me: string)
    ensures var v := PlacedAll(b, ms, history, me);
      v.next == b.next + |ms| && v.labels == b.labels + LabelRun(b.next, |ms|)
    decreases |ms|
  {
    if |ms| > 0 {
      PlacedAllLabels(b, ms[..|ms| - 1], history, me);
    }
  }

  /**
   * The bubble of `ms[k]` has label `b.next + k`, tracked with that message's id
   * and sender and showing its body; it has the actions exactly when it is a
   * history message of `me`. Every older label keeps what it had.
   */
  lemma {:induction false} BubblesTracked(b: Board, ms: seq<GroupMessage>, history: bool, me: string, l: Label)
    ensures var v, k := PlacedAll(b, ms, history, me), l - b.next;
      if 0 <= k < |ms| then
        l in v.ids && v.ids[l] == ms[k].id && l in v.senders && v.senders[l] == ms[k].sender &&
        l in v.texts && v.texts[l] == LabelText(ms[k].content) &&
        (l in v.editable <==> l in b.editable || (history && ms[k].sender == me))
      else
        (l in v.ids <==> l in b.ids) && (l in b.ids ==> v.ids[l] == b.ids[l]) &&
        (l in v.senders <==> l in b.senders) && (l in b.senders ==> v.senders[l] == b.senders[l]) &&
        (l in v.texts <==> l in b.texts) && (l in b.texts ==> v.texts[l] == b.texts[l]) &&
        (l in v.editable <==> l in b.editable)
    decreases |ms|
  {
    if |ms| > 0 {
      var init := ms[..|ms| - 1];
      var m := ms[|ms| - 1];
      BubblesTracked(b, init, history, me, l);
      PlacedAllLabels(b, init, history, me);
      PlacedAt(PlacedAll(b, init, history, me), m, history && m.sender == me, l);
      if 0 <= l - b.next < |init| {
        assert init[l - b.next] == ms[l - b.next];
      }
    }
  }

  /** One bubble changes only what its own label has. */
  lemma PlacedAt(b: Board, m: GroupMessage, own: bool, l: Label)
    ensures var v := Placed(b, m, own);
      if l == b.next then
        l in v.ids && v.ids[l] == m.id && l in v.senders && v.senders[l] == m.sender &&
        l in v.texts && v.texts[l] == LabelText(m.content) && (l in v.editable <==> l in b.editable || own)
      else
        (l in v.ids <==> l in b.ids) && (l in b.ids ==> v.ids[l] == b.ids[l]) &&
        (l in v.senders <==> l in b.senders) && (l in b.senders ==> v.senders[l] == b.senders[l]) &&
        (l in v.texts <==> l in b.texts) && (l in b.texts ==> v.texts[l] == b.texts[l]) &&
        (l in v.editable <==> l in b.editable)
  {
  }

  /* ------------------------------------ the window ------------------------------------ */

  /** What the window asks of the group store. */
  datatype StoreCall =
    | UpdateMessage(messageId: int, text: string)
    | DeleteMessage(messageId: int)
    | RemoveMember(groupId: int, user: string)
    | DeleteGroup(groupId: int)

  /** How removeSelectedMember and deleteGroup end. */
  datatype Ending = Refused(why: Refusal) | Cancelled | Done | Failed

  class GroupChatFrame {
    const groupId: int
    const currentUser: string
    var groupCreator: Option<string>
    var lastMessageId: int
    /** messageLabels, and the maps keyed by label. */
    var labels: seq<Label>
    var labelIds: map<Label, int>
    var senders: map<Label, string>
    var strips: set<Label>
    var counts: map<Label, map<string, int>>
    /** The text each label was given. */
    var texts: map<Label, string>
    /** The labels with the message actions attached: the user's own messages. */
    var editable: set<Label>
    /** The bubbles added to the message panel, in order. */
    var shown: seq<GroupMessage>
    var typing: set<string>
    var typingLine: TypingLine
    /** membersModel */
    var members: seq<string>
    var closed: bool
    /** Every call made to the group store, in order. */
    var store: seq<StoreCall>
    /** Labels below this one exist already. */
    var nextLabel: Label

    /** Labels are tracked once each, in both maps, and are all older than nextLabel. */
    ghost predicate Tracked()
      reads this`labels, this`labelIds, this`senders, this`nextLabel
    {
      DistinctSeq(labels) &&
      (forall l :: l in labels ==> l < nextLabel) &&
      (forall l :: l in labelIds <==> l in labels) &&
      (forall l :: l in senders <==> l in labels)
    }

    /** Every label with a text is older than nextLabel, and the actions sit on such labels. */
    ghost predicate Texted()
      reads this`texts, this`editable, this`nextLabel
    {
      (forall l :: l in texts ==> l < nextLabel) && editable <= texts.Keys
    }

    ghost predicate Valid()
      reads this`labels, this`labelIds, this`senders, this`nextLabel, this`texts, this`editable, this`strips, this`counts
    {
      Tracked() && Texted() && strips <= counts.Keys
    }

    function ReactionState(): Reactions
      reads this`strips, this`counts
    {
      Reactions(strips, counts)
    }

    ghost function View(): Board
      reads this`labels, this`labelIds, this`senders, this`texts, this`editable, this`strips, this`counts, this`nextLabel
    {
      Board(labels, labelIds, senders, texts, editable, ReactionState(), nextLabel)
    }

    constructor (groupId: int, currentUser: string, creator: Option<string>)
      ensures this.groupId == groupId && this.currentUser == currentUser && groupCreator == creator
      ensures lastMessageId == 0 && labels == [] && shown == [] && store == [] && members == []
      ensures typing == {} && !closed
      ensures View() == Board([], map[], map[], map[], {}, Reactions({}, map[]), 0)
      ensures Valid()
    {
      this.groupId := groupId;
      this.currentUser := currentUser;
      groupCreator := creator;
      lastMessageId := 0;
      labels := [];
      labelIds := map[];
      senders := map[];
      strips := {};
      counts := map[];
      texts := map[];
      editable := {};
      shown := [];
      typing := {};
      typingLine := TypingLine(false, "");
      members := [];
      closed := false;
      store := [];
      nextLabel := 0;
    }

    /** ensureReactionStrip */
    method EnsureReactionStrip(l: Label)
      modifies this`strips, this`counts
      ensures ReactionState() == WithStrip(old(ReactionState()), l)
    {
      if l in strips {
        return;
      }
      strips := strips + {l};
      counts := counts[l := map[]];
    }

    /** applyReaction; `inPanel` is whether the label's parent is a panel. */
    method ApplyReaction(l: Label, emoji: string, inPanel: bool)
      modifies this`strips, this`counts
      ensures ReactionState() == Reacted(old(ReactionState()), l, emoji, inPanel)
    {
      if l !in strips && inPanel {
        EnsureReactionStrip(l);
      }
      var c := if l in counts then counts[l] else map[];
      counts := counts[l := Bump(c, emoji)];
    }

    /** trackMessageLabel: the label joins the list and both maps keyed by it. */
    method TrackMessageLabel(l: Label, id: int, sender: string)
      requires Valid() && l !in labels && l < nextLabel
      modifies this`labels, this`labelIds, this`senders
      ensures Valid()
      ensures labels == old(labels) + [l] && labelIds == old(labelIds)[l := id] && senders == old(senders)[l := sender]
    {
      DistinctSnoc(labels, l);
      labels := labels + [l];
      labelIds := labelIds[l := id];
      senders := senders[l := sender];
    }

    /**
     * addMessageBubbleWithTime (and addMessageBubble, which passes id -1): a new
     * label with the wrapped body, tracked with its id and sender, with a reaction
     * strip, and with the message actions attached when `own` holds.
     */
    method AddBubble(id: int, sender: string, content: string, own: bool) returns (l: Label)
      requires Valid()
      modifies this`shown, this`nextLabel, this`texts, this`editable, this`labels, this`labelIds, this`senders, this`strips, this`counts
      ensures Valid()
      ensures l == old(nextLabel) && nextLabel == l + 1 && l !in old(labels) && l !in old(texts)
      ensures labels == old(labels) + [l] && labelIds == old(labelIds)[l := id] && senders == old(senders)[l := sender]
      ensures texts == old(texts)[l := LabelText(content)]
      ensures editable == if own then old(editable) + {l} else old(editable)
      ensures ReactionState() == WithStrip(old(ReactionState()), l)
      ensures shown == old(shown) + [GroupMessage(id, sender, content)]
    {
      l := NewTextLabel(id, sender, content, own);
      TrackMessageLabel(l, id, sender);
      EnsureReactionStrip(l);
    }

    /** The bubble's label itself: fresh, showing the wrapped body, with the actions when `own` holds. */
    method NewTextLabel(id: int, sender: string, content: string, own: bool) returns (l: Label)
      requires Valid()
      modifies this`shown, this`nextLabel, this`texts, this`editable
      ensures Valid()
      ensures l == old(nextLabel) && nextLabel == l + 1 && l !in labels && l !in old(texts)
      ensures texts == old(texts)[l := LabelText(content)]
      ensures editable == if own then old(editable) + {l} else old(editable)
      ensures shown == old(shown) + [GroupMessage(id, sender, content)]
    {
      l := nextLabel;
      shown := shown + [GroupMessage(id, sender, content)];
      nextLabel := nextLabel + 1;
      assert Tracked();
      texts := texts[l := LabelText(content)];
      if own {
        editable := editable + {l};
      }
      assert Texted();
    }

    /** One bubble from a polled or loaded message, then lastMessageId raised to its id. */
    method ShowAndTrack(m: GroupMessage, own: bool)
      requires Valid()
      modifies this`shown, this`nextLabel, this`texts, this`editable, this`labels, this`labelIds, this`senders, this`strips, this`counts,
               this`lastMessageId
      ensures Valid()
      ensures shown == old(shown) + [m]
      ensures lastMessageId == (if m.id > old(lastMessageId) then m.id else old(lastMessageId))
      ensures View() == Placed(old(View()), m, own)
    {
      var _ := AddBubble(m.id, m.sender, m.content, own);
      if m.id > lastMessageId {
        lastMessageId := m.id;
      }
    }

    /**
     * Shows `ms` one by one, tracking the largest id; the labels change as
     * PlacedAll says (BubblesTracked spells it out). In the history the user's own
     * messages get the message actions; polled messages never do.
     */
    method ShowAll(ms: seq<GroupMessage>, history: bool)
      requires Valid()
      modifies this`shown, this`nextLabel, this`texts, this`editable, this`labels, this`labelIds, this`senders, this`strips, this`counts,
               this`lastMessageId
      ensures Valid()
      ensures shown == old(shown) + ms
      ensures lastMessageId == MaxId(old(lastMessageId), ms)
      ensures View() == PlacedAll(old(View()), ms, history, currentUser)
    {
      ghost var start, shown0, last0 := View(), shown, lastMessageId;
      var k := 0;
      while k < |ms|
        invariant 0 <= k <= |ms|
        invariant Valid()
        invariant shown == shown0 + ms[..k]
        invariant lastMessageId == MaxId(last0, ms[..k])
        invariant View() == PlacedAll(start, ms[..k], history, currentUser)
      {
        PlacedAllSnoc(start, last0, ms, k, history, currentUser);
        ShowAndTrack(ms[k], history && ms[k].sender == currentUser);
        assert View() == PlacedAll(start, ms[..k + 1], history, currentUser);
        k := k + 1;
      }
      assert ms[..|ms|] == ms;
    }

    /**
     * checkForNewMessages over the table `all`: the messages newer than lastMessageId
     * from other users are shown in table order, each tracked with its id and
     * sender, none with the message actions, and lastMessageId becomes the largest
     * id among them if that is larger.
     */
    method CheckForNewMessages(all: seq<GroupMessage>)
      requires Valid()
      modifies this`shown, this`nextLabel, this`texts, this`editable, this`labels, this`labelIds, this`senders, this`strips, this`counts,
               this`lastMessageId
      ensures Valid()
      ensures var news := NewMessages(all, old(lastMessageId), currentUser);
        shown == old(shown) + news && lastMessageId == MaxId(old(lastMessageId), news) &&
        View() == PlacedAll(old(View()), news, false, currentUser)
    {
      var newMessages: seq<GroupMessage> := [];
      var i := 0;
      while i < |all|
        invariant 0 <= i <= |all|
        invariant newMessages == NewMessages(all[..i], lastMessageId, currentUser)
      {
        assert all[..i + 1][..i] == all[..i];
        if all[i].id > lastMessageId && all[i].sender != currentUser {
          newMessages := newMessages + [all[i]];
        }
        i := i + 1;
      }
      assert all[..|all|] == all;
      ShowAll(newMessages, false);
    }

    /**
     * loadGroupHistory: every stored message is shown and tracked with its id and
     * sender, the user's own ones with the message actions, and the largest id kept.
     */
    method LoadGroupHistory(all: seq<GroupMessage>)
      requires Valid()
      modifies this`shown, this`nextLabel, this`texts, this`editable, this`labels, this`labelIds, this`senders, this`strips, this`counts,
               this`lastMessageId
      ensures Valid()
      ensures shown == old(shown) + all && lastMessageId == MaxId(old(lastMessageId), all)
      ensures View() == PlacedAll(old(View()), all, true, currentUser)
    {
      ShowAll(all, true);
    }

    /** updateTypingDisplay, with the set's iteration order given as `order`. */
    method UpdateTypingDisplay(order: seq<string>)
      requires Lists(order, typing)
      modifies this`typingLine
      ensures typingLine == TypingDisplay(order)
    {
      typingLine := TypingDisplay(order);
    }

    /** notifyUserTyping */
    method NotifyUserTyping(user: string, order: seq<string>)
      requires Lists(order, typing + {user})
      modifies this`typing, this`typingLine
      ensures typing == old(typing) + {user} && typingLine == TypingDisplay(order)
    {
      typing := typing + {user};
      UpdateTypingDisplay(order);
    }

    /** notifyUserStoppedTyping */
    method NotifyUserStoppedTyping(user: string, order: seq<string>)
      requires Lists(order, typing - {user})
      modifies this`typing, this`typingLine
      ensures typing == old(typing) - {user} && typingLine == TypingDisplay(order)
    {
      typing := typing - {user};
      UpdateTypingDisplay(order);
    }

    /**
     * The edit action on label `l`: an accepted edit rewrites the label and, when the
     * label has a stored id other than -1, sends the new body to the store.
     */
    method EditMessage(l: Label, updated: Option<string>)
      requires Valid() && l in editable
      modifies this`texts, this`store
      ensures var d := EditDisplay(old(texts)[l], updated);
              texts == (if d.Some? then old(texts)[l := LabelText(d.value)] else old(texts)) &&
              store == old(store) +
                (if d.Some? && l in labelIds && labelIds[l] != -1 then [UpdateMessage(labelIds[l], d.value)] else [])
    {
      var current := texts[l];
      if updated.None? {
        return;
      }
      var u := Trim(updated.value);
      if u == "" || u == StripEditedSuffix(Some(current)) {
        return;
      }
      var display := u + EditedSuffix;
      texts := texts[l := LabelText(display)];
      var msgId := IdOf(labelIds, l);
      if msgId != -1 {
        store := store + [UpdateMessage(msgId, display)];
      }
    }

    /** removeBubbleForLabel: the label leaves the list and every map keyed by it. */
    method RemoveBubbleForLabel(l: Label)
      requires Valid()
      modifies this`labels, this`labelIds, this`senders, this`strips, this`counts
      ensures Valid()
      ensures labels == RemoveFirst(old(labels), l) && l !in labels
      ensures labelIds == old(labelIds) - {l} && senders == old(senders) - {l}
      ensures strips == old(strips) - {l} && counts == old(counts) - {l}
    {
      RemoveFirstDistinct(labels, l);
      strips := strips - {l};
      counts := counts - {l};
      labelIds := labelIds - {l};
      senders := senders - {l};
      labels := RemoveFirst(labels, l);
    }

    /**
     * deleteLocalMessage as written: the id is looked up after removeBubbleForLabel
     * dropped it, so it is always -1 and the store is never asked to delete.
     */
    method DeleteLocalMessage(l: Label)
      requires Valid()
      modifies this`labels, this`labelIds, this`senders, this`strips, this`counts
      ensures Valid()
      ensures labels == RemoveFirst(old(labels), l) && l !in labels
      ensures labelIds == old(labelIds) - {l} && senders == old(senders) - {l}
      ensures strips == old(strips) - {l} && counts == old(counts) - {l}
      ensures store == old(store)
    {
      RemoveBubbleForLabel(l);
      var msgId := IdOf(labelIds, l);
      assert msgId == -1;
    }

    /** deleteLocalMessage with the id read before the label is dropped. */
    method DeleteLocalMessageIntended(l: Label)
      requires Valid()
      modifies this`labels, this`labelIds, this`senders, this`strips, this`counts, this`store
      ensures Valid()
      ensures labels == RemoveFirst(old(labels), l) && l !in labels
      ensures labelIds == old(labelIds) - {l} && senders == old(senders) - {l}
      ensures strips == old(strips) - {l} && counts == old(counts) - {l}
      ensures store == old(store) +
                (if l in old(labelIds) && old(labelIds)[l] != -1 then [DeleteMessage(old(labelIds)[l])] else [])
    {
      var msgId := IdOf(labelIds, l);
      RemoveBubbleForLabel(l);
      if msgId != -1 {
        store := store + [DeleteMessage(msgId)];
      }
    }

    /** notifyMemberJoined: a member is listed once. */
    method NotifyMemberJoined(member: string)
      modifies this`members
      ensures members == MainFrame.Added(old(members), member)
    {
      if member !in members {
        members := members + [member];
      }
    }

    /**
     * removeSelectedMember: the guards, the confirmation, then the store's answer
     * `removed`; only a successful removal takes the member off the list.
     */
    method RemoveSelectedMember(selected: Option<string>, confirmed: bool, removed: bool) returns (e: Ending)
      modifies this`members, this`store
      ensures var refusal := RemovalRefusal(groupCreator, currentUser, selected);
              e == (if refusal.Some? then Refused(refusal.value)
                    else if !confirmed then Cancelled
                    else if removed then Done else Failed)
      ensures store == old(store) + (if e == Done || e == Failed then [RemoveMember(groupId, selected.value)] else [])
      ensures members == (if e == Done then RemoveFirst(old(members), selected.value) else old(members))
    {
      var refusal := RemovalRefusal(groupCreator, currentUser, selected);
      if refusal.Some? {
        return Refused(refusal.value);
      }
      if !confirmed {
        return Cancelled;
      }
      store := store + [RemoveMember(groupId, selected.value)];
      if removed {
        members := RemoveFirst(members, selected.value);
        return Done;
      }
      return Failed;
    }

    /** deleteGroup: creator only, after confirmation; the window closes when the store succeeds. */
    method DeleteGroup(confirmed: bool, deleted: bool) returns (e: Ending)
      modifies this`store, this`closed
      ensures e == (if groupCreator != Some(currentUser) then Refused(NotCreator)
                    else if !confirmed then Cancelled
                    else if deleted then Done else Failed)
      ensures store == old(store) + (if e == Done || e == Failed then [StoreCall.DeleteGroup(groupId)] else [])
      ensures closed == (old(closed) || e == Done)
    {
      if groupCreator.None? || currentUser != groupCreator.value {
        return Refused(NotCreator);
      }
      if !confirmed {
        return Cancelled;
      }
      store := store + [StoreCall.DeleteGroup(groupId)];
      if deleted {
        closed := true;
        return Done;
      }
      return Failed;
    }
  }

  /** Deleting a message that came with a stored id never reaches the store as written. */
  method DeleteOfStoredMessageIsLost() returns (store: seq<StoreCall>)
    ensures store == []
  {
    var f := new GroupChatFrame(1, "me", Some("me"));
    var l := f.AddBubble(7, "me", "hi", true);
    f.DeleteLocalMessage(l);
    store := f.store;
  }

  /** With the id read first, the same deletion asks the store to delete message 7. */
  method DeleteOfStoredMessageIntended() returns (store: seq<StoreCall>)
    ensures store == [DeleteMessage(7)]
  {
    var f := new GroupChatFrame(1, "me", Some("me"));
    var l := f.AddBubble(7, "me", "hi", true);
    f.DeleteLocalMessageIntended(l);
    store := f.store;
  }

  /** A removal request never names the creator, and only the creator's own window sends one. */
  lemma RemovalNeverTargetsCreator(creator: Option<string>, me: string, selected: Option<string>)
    requires RemovalRefusal(creator, me, selected).None?
    ensures creator == Some(me) && selected.Some? && selected != creator
  {
  }
}
