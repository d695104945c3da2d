/**
 * What getBetweenTags and the delete, typing and reaction getters give back on
 * the messages their patterns describe. The element names of these messages are
 * parameters (`ExtensionTags`); the facts hold when the names of one message
 * differ from each other and none of them starts with `/`, so that no opening
 * tag can be read as a closing one.
 */
module PayloadFacts {
  import opened Wrappers
  import opened JavaText
  import opened Tags
  import opened Decode
  import opened DecodeRoundTrips

  /** `<…>` with no angle bracket inside: the shape of every named tag. */
  predicate Bracketed(w: string) {
    |w| >= 2 && w[0] == '<' && w[|w| - 1] == '>' && AllIn(w[1..|w| - 1], NotAngle)
  }

  /** A name that cannot be mistaken for the inside of a closing tag. */
  predicate Unslashed(n: string) {
    |n| > 0 && n[0] != '/'
  }

  /** The names of each extension message differ, and none starts with `/`. */
  predicate DistinctExtension(x: ExtensionTags) {
    x.delete != x.deleteBody && x.typing != x.typingState
    && x.reaction != x.reactionTarget && x.reaction != x.reactionEmoji
    && x.reactionTarget != x.reactionEmoji
    && Unslashed(x.delete) && Unslashed(x.deleteBody) && Unslashed(x.typing)
    && Unslashed(x.typingState) && Unslashed(x.reaction)
    && Unslashed(x.reactionTarget) && Unslashed(x.reactionEmoji)
  }

  lemma NamedBrackets(n: string)
    requires IsElementName(n)
    ensures Bracketed(OpenTag(n)) && Bracketed(CloseTag(n))
  {
    var c := CloseTag(n);
    assert c[1..|c| - 1] == "/" + n;
    AllInConcat("/", n, NotAngle);
  }

  /** Of two different bracketed strings, neither can begin inside the other. */
  lemma BracketsApart(w: string, u: string)
    requires Bracketed(w) && Bracketed(u) && w != u
    ensures NoStart(w, u)
  {
    CompatibleIff(w, u);
    if |w| < |u| {
      assert u[|w| - 1] != '>';
    } else if |u| < |w| {
      assert w[|u| - 1] != '>';
    } else {
      var k :| 0 <= k < |w| && w[k] != u[k];
    }
    NoStartAvoiding(w[1..], u);
  }

  /** The tags of two unslashed names: an opening tag is never a closing one, and different names give different tags. */
  lemma NamedApart(a: string, b: string)
    requires IsElementName(a) && IsElementName(b) && Unslashed(a) && Unslashed(b)
    ensures NoStart(OpenTag(a), CloseTag(b)) && NoStart(CloseTag(a), OpenTag(b))
    ensures a != b ==> NoStart(OpenTag(a), OpenTag(b)) && NoStart(CloseTag(a), CloseTag(b))
  {
    NamedBrackets(a);
    NamedBrackets(b);
    assert OpenTag(a)[1] != CloseTag(b)[1];
    assert CloseTag(a)[1] != OpenTag(b)[1];
    BracketsApart(OpenTag(a), CloseTag(b));
    BracketsApart(CloseTag(a), OpenTag(b));
    if a != b {
      var ca, cb := CloseTag(a), CloseTag(b);
      assert ca[2..|ca| - 1] == a && cb[2..|cb| - 1] == b;
      BracketsApart(OpenTag(a), OpenTag(b));
      BracketsApart(ca, cb);
    }
  }

  /**
   * extractContent of the element `open m close` after `x`, when neither tag can
   * begin inside `x` and the content has no angle bracket.
   */
  lemma ExtractFree(x: string, open: string, m: string, close: string, y: string)
    requires Bracketed(open) && Bracketed(close) && open != close
    requires NoStart(x, open) && NoStart(x, close) && AllIn(m, NotAngle)
    ensures ExtractContent(x + open + m + close + y, open, close) == Some(m)
  {
    FreePrefix(x, open, m, close);
    ExtractAfter(x, open, m, close, y);
  }

  /** No `close` begins before the end of an angle-free content. */
  lemma FreePrefix(x: string, open: string, m: string, close: string)
    requires Bracketed(open) && Bracketed(close) && open != close
    requires NoStart(x, close) && AllIn(m, NotAngle)
    ensures NoStart(x + open + m, close)
  {
    BracketsApart(open, close);
    FreeText(m, close);
    NoStartConcat(x, open, close);
    NoStartConcat(x + open, m, close);
  }

  lemma ExtractAfter(x: string, open: string, m: string, close: string, y: string)
    requires |open| > 0 && NoStart(x, open) && NoStart(x + open + m, close)
    ensures ExtractContent(x + open + m + close + y, open, close) == Some(m)
  {
    FirstOccurrence(x + open + m, close, y);
    FirstOfFive(x, open, m, close, y);
    ContentSlice(x, open, m, close, y);
    ExtractAt(x + open + m + close + y, open, close, |x|, |x| + |open| + |m|);
  }

  /* ---------------------------------- getBetweenTags ---------------------------------- */

  /**
   * getBetweenTags finds the content of the first element called `n`, when no
   * tag of that name begins before it and the content has no angle bracket.
   */
  lemma GetBetweenTagsOfElement(pre: string, n: string, t: string, post: string)
    requires IsElementName(n) && NoStart(pre, OpenTag(n)) && NoStart(pre, CloseTag(n))
    requires AllIn(t, NotAngle)
    ensures GetBetweenTags(pre + OpenTag(n) + t + CloseTag(n) + post, n) == Some(t)
  {
    NamedBrackets(n);
    ExtractFree(pre, OpenTag(n), t, CloseTag(n), post);
  }

  /* ------------------------------------- delete ------------------------------------- */

  /** The message the DELETE pattern describes, around the text `t`. */
  function DeleteText(x: ExtensionTags, t: string): string {
    OpenTag(x.delete) + OpenTag(x.deleteBody) + t + CloseTag(x.deleteBody) + CloseTag(x.delete)
  }

  /**
   * getDeletePayload gives back the text of a delete message when it has no line
   * terminator, and refuses the message otherwise.
   */
  lemma GetDeleteOfDeleteText(x: ExtensionTags, t: string)
    requires ValidExtension(x) && DistinctExtension(x) && AllIn(t, NotAngle)
    ensures GetDeletePayload(DeleteText(x, t), x) == if AllIn(t, Dot) then Some(DeletePayload(t)) else None
  {
    var od, ob, cb, cd := OpenTag(x.delete), OpenTag(x.deleteBody), CloseTag(x.deleteBody), CloseTag(x.delete);
    assert DeleteText(x, t) == (od + ob) + t + (cb + cd);
    WrappedParts(od + ob, t, cb + cd);
    if AllIn(t, Dot) {
      NamedApart(x.delete, x.deleteBody);
      NamedBrackets(x.deleteBody);
      ExtractFree(od, ob, t, cb, cd);
    }
  }

  /* ------------------------------------- typing ------------------------------------- */

  /**
   * getTypingPayload accepts exactly the ON and the OFF message, and its flag is
   * set exactly for the ON message.
   */
  lemma TypingPayloadOf(s: string, x: ExtensionTags)
    requires ValidExtension(x) && DistinctExtension(x)
    ensures GetTypingPayload(s, x)
      == if s == TypingText(x, true) then Some(TypingPayload(true))
         else if s == TypingText(x, false) then Some(TypingPayload(false))
         else None
  {
    if IsTyping(s, x) {
      var on := s == TypingText(x, true);
      TypingState(x, on);
    }
  }

  /** The state element of the typing message holds ON or OFF. */
  lemma TypingState(x: ExtensionTags, on: bool)
    requires ValidExtension(x) && DistinctExtension(x)
    ensures ExtractContent(TypingText(x, on), OpenTag(x.typingState), CloseTag(x.typingState))
      == Some(if on then "ON" else "OFF")
  {
    var v := if on then "ON" else "OFF";
    assert AllIn(v, NotAngle);
    NamedApart(x.typing, x.typingState);
    NamedBrackets(x.typingState);
    ExtractFree(OpenTag(x.typing), OpenTag(x.typingState), v, CloseTag(x.typingState), CloseTag(x.typing));
  }

  /* ------------------------------------- reaction ------------------------------------- */

  /** The message the REACTION pattern describes, for the target `t` and the emoji `e`. */
  function ReactionText(x: ExtensionTags, t: string, e: string): string {
    OpenTag(x.reaction) + OpenTag(x.reactionTarget) + t + CloseTag(x.reactionTarget)
    + OpenTag(x.reactionEmoji) + e + CloseTag(x.reactionEmoji) + CloseTag(x.reaction)
  }

  /**
   * getReactionPayload gives back the target and the emoji of a reaction message
   * when the target has no line terminator and the emoji is not empty, and
   * refuses the message otherwise.
   */
  lemma GetReactionOfReactionText(x: ExtensionTags, t: string, e: string)
    requires ValidExtension(x) && DistinctExtension(x) && AllIn(t, NotAngle) && AllIn(e, NotAngle)
    ensures GetReactionPayload(ReactionText(x, t, e), x)
      == if AllIn(t, Dot) && |e| > 0 then Some(ReactionPayload(t, e)) else None
  {
    ReactionShape(x, t, e);
    if AllIn(t, Dot) && |e| > 0 {
      ReactionTarget(x, t, e);
      ReactionEmoji(x, t, e);
    }
  }

  /** A reaction message has the REACTION shape exactly when its target has no line terminator and its emoji is not empty. */
  lemma ReactionShape(x: ExtensionTags, t: string, e: string)
    requires ValidExtension(x) && AllIn(t, NotAngle) && AllIn(e, NotAngle)
    ensures IsReaction(ReactionText(x, t, e), x) <==> AllIn(t, Dot) && |e| > 0
  {
    var open := OpenTag(x.reaction) + OpenTag(x.reactionTarget);
    var close := CloseTag(x.reactionEmoji) + CloseTag(x.reaction);
    var mid := CloseTag(x.reactionTarget) + OpenTag(x.reactionEmoji);
    var w := t + mid + e;
    ReactionGroups(x, t, e);
    WrappedParts(open, w, close);
    if AllIn(t, Dot) && |e| > 0 {
      SplitAfterTarget(t, mid, e);
    }
    if k :| 0 <= k < |w| && ReactionSplit(w, mid, k) {
      SplitBounds(t, mid, e, k);
    }
  }

  /** The split right after the target text. */
  lemma SplitAfterTarget(t: string, mid: string, e: string)
    requires AllIn(t, Dot) && AllIn(e, NotAngle) && |e| > 0
    ensures ReactionSplit(t + mid + e, mid, |t| + |mid|)
  {
    BodySlices(t, mid, e);
  }

  /**
   * Any split of `t + mid + e` puts `mid` at or after the end of `t`, as `mid`
   * starts with `<` and `t` has none; so `t` has no line terminator, and `e` is not empty.
   */
  lemma SplitBounds(t: string, mid: string, e: string, k: int)
    requires AllIn(t, NotAngle) && |mid| > 0 && mid[0] == '<'
    requires ReactionSplit(t + mid + e, mid, k)
    ensures AllIn(t, Dot) && |e| > 0
  {
    var w := t + mid + e;
    var p := k - |mid|;
    BodySlices(t, mid, e);
    assert w[p] == '<' by {
      assert w[p..k][0] == w[p];
    }
    assert p >= |t|;
    forall i | 0 <= i < |t| ensures InClass(t[i], Dot) {
      assert w[..p][i] == w[i];
    }
  }

  lemma ReactionGroups(x: ExtensionTags, t: string, e: string)
    ensures ReactionText(x, t, e)
      == (OpenTag(x.reaction) + OpenTag(x.reactionTarget))
         + (t + (CloseTag(x.reactionTarget) + OpenTag(x.reactionEmoji)) + e)
         + (CloseTag(x.reactionEmoji) + CloseTag(x.reaction))
  {
  }

  lemma BodySlices(t: string, mid: string, e: string)
    ensures var w := t + mid + e;
      w[..|t|] == t && w[|t|..|t| + |mid|] == mid && w[|t| + |mid|..] == e
      && forall i :: 0 <= i < |t| ==> w[i] == t[i]
  {
  }

  /** The target element of a reaction message holds the target. */
  lemma ReactionTarget(x: ExtensionTags, t: string, e: string)
    requires ValidExtension(x) && DistinctExtension(x) && AllIn(t, NotAngle)
    ensures ExtractContent(ReactionText(x, t, e), OpenTag(x.reactionTarget), CloseTag(x.reactionTarget)) == Some(t)
  {
    var rest := OpenTag(x.reactionEmoji) + e + CloseTag(x.reactionEmoji) + CloseTag(x.reaction);
    assert ReactionText(x, t, e)
      == OpenTag(x.reaction) + OpenTag(x.reactionTarget) + t + CloseTag(x.reactionTarget) + rest;
    NamedApart(x.reaction, x.reactionTarget);
    NamedBrackets(x.reactionTarget);
    ExtractFree(OpenTag(x.reaction), OpenTag(x.reactionTarget), t, CloseTag(x.reactionTarget), rest);
  }

  /** The emoji element of a reaction message holds the emoji. */
  lemma ReactionEmoji(x: ExtensionTags, t: string, e: string)
    requires ValidExtension(x) && DistinctExtension(x) && AllIn(t, NotAngle) && AllIn(e, NotAngle)
    ensures ExtractContent(ReactionText(x, t, e), OpenTag(x.reactionEmoji), CloseTag(x.reactionEmoji)) == Some(e)
  {
    var or, ot, ct := OpenTag(x.reaction), OpenTag(x.reactionTarget), CloseTag(x.reactionTarget);
    var oe, ce := OpenTag(x.reactionEmoji), CloseTag(x.reactionEmoji);
    NamedApart(x.reaction, x.reactionEmoji);
    NamedApart(x.reactionTarget, x.reactionEmoji);
    NamedBrackets(x.reactionEmoji);
    FreeText(t, oe);
    FreeText(t, ce);
    NoStartFour(or, ot, t, ct, oe);
    NoStartFour(or, ot, t, ct, ce);
    ExtractFree(or + ot + t + ct, oe, e, ce, CloseTag(x.reaction));
  }
}
