/**
 * What the decoders give back on the builders' output: round trips, the
 * messages they refuse, and the messages that a STOP keep-alive removes.
 */
module DecodeFacts {
  import opened Wrappers
  import opened JavaText
  import opened Tags
  import opened Encode
  import opened Peers
  import opened Decode

  /* ------------------------------ locating one field ------------------------------ */

  /** Matcher.find lands on `k` when a match begins there and none begins earlier. */
  lemma FindFromIs(s: string, p: FieldPattern, k: nat)
    requires MatchEndAt(s, p, k) >= 0
    requires forall j: nat :: j < k ==> MatchEndAt(s, p, j) < 0
    ensures FindFrom(s, p, 0) == k
  {
  }

  /**
   * In `h + open + v + close + rest`, with no `open` beginning inside `h`, the
   * first match of the field pattern is the field itself. For `.*` the greedy
   * run would reach into `rest`, so `rest` must hold no further `close`.
   */
  lemma FindField(s: string, h: string, p: FieldPattern, v: string, rest: string)
    requires s == h + p.open + v + p.close + rest
    requires |p.close| > 0 && p.close[0] == '<'
    requires NoStart(h, p.open)
    requires AllIn(v, p.chars) && (p.nonEmpty ==> |v| > 0)
    requires p.chars == Dot ==> NoStart(p.close[1..] + rest, p.close)
    ensures FindGroup(s, p) == Some(p.open + v + p.close)
  {
    FieldLayout(s, h, p, v, rest);
    FindFieldAt(s, p, |h|, |h| + |p.open| + |v|);
  }

  /** The first match of a field pattern, given by where its pieces occur. */
  lemma FindFieldAt(s: string, p: FieldPattern, i: nat, j: nat)
    requires OccursAt(s, p.open, i) && OccursAt(s, p.close, j) && i + |p.open| <= j
    requires forall k :: 0 <= k < i ==> !OccursAt(s, p.open, k)
    requires |p.close| > 0 && p.close[0] == '<'
    requires AllIn(s[i + |p.open|..j], p.chars) && (p.nonEmpty ==> i + |p.open| < j)
    requires p.chars == Dot ==> NoStart(s[j + 1..], p.close)
    ensures FindGroup(s, p) == Some(s[i..j + |p.close|])
  {
    if p.chars == Dot {
      NoLaterClose(s, j + 1, p.close);
    }
    FieldMatchAt(s, p, i, j);
    FirstMatchAt(s, p, i, j + |p.close|);
  }

  /** find lands on the match at `i` when `open` occurs nowhere before `i`. */
  lemma FirstMatchAt(s: string, p: FieldPattern, i: nat, e: nat)
    requires MatchEndAt(s, p, i) == e
    requires forall k :: 0 <= k < i ==> !OccursAt(s, p.open, k)
    ensures FindGroup(s, p) == Some(s[i..e])
  {
    NoMatchBefore(s, p, i);
    FindFromIs(s, p, i);
    GroupAt(s, p, i, e);
  }

  /** group(0) of the match that find lands on. */
  lemma GroupAt(s: string, p: FieldPattern, i: nat, e: nat)
    requires FindFrom(s, p, 0) == i && MatchEndAt(s, p, i) == e
    ensures FindGroup(s, p) == Some(s[i..e])
  {
  }

  /** No match can begin where its opening literal does not occur. */
  lemma NoMatchBefore(s: string, p: FieldPattern, n: nat)
    requires forall k :: 0 <= k < n ==> !OccursAt(s, p.open, k)
    ensures forall k: nat :: k < n ==> MatchEndAt(s, p, k) < 0
  {
  }

  /** Where the pieces of `h + open + v + close + rest` sit, as FindFieldAt needs them. */
  lemma FieldLayout(s: string, h: string, p: FieldPattern, v: string, rest: string)
    requires s == h + p.open + v + p.close + rest
    requires |p.close| > 0 && NoStart(h, p.open)
    requires AllIn(v, p.chars) && (p.nonEmpty ==> |v| > 0)
    requires p.chars == Dot ==> NoStart(p.close[1..] + rest, p.close)
    ensures var i, j := |h|, |h| + |p.open| + |v|;
      OccursAt(s, p.open, i) && OccursAt(s, p.close, j) && i + |p.open| <= j
      && (forall k :: 0 <= k < i ==> !OccursAt(s, p.open, k))
      && AllIn(s[i + |p.open|..j], p.chars) && (p.nonEmpty ==> i + |p.open| < j)
      && (p.chars == Dot ==> NoStart(s[j + 1..], p.close))
      && s[i..j + |p.close|] == p.open + v + p.close
  {
    Pieces(s, h, p.open, v, p.close, rest);
    NoStartNoOccurrence(h, p.open + v + p.close + rest, p.open);
  }

  /** The slices of `h + open + v + close + rest`. */
  lemma Pieces(s: string, h: string, open: string, v: string, close: string, rest: string)
    requires s == h + open + v + close + rest
    ensures var a := |h| + |open|; var j := a + |v|;
      OccursAt(s, open, |h|) && s[a..j] == v && OccursAt(s, close, j)
      && s[|h|..j + |close|] == open + v + close
      && (|close| > 0 ==> s[j + 1..] == close[1..] + rest)
      && s == h + (open + v + close + rest)
  {
    var a := |h| + |open|;
    var j := a + |v|;
    assert s[|h|..a] == open && s[a..j] == v && s[j..j + |close|] == close;
    assert s[|h|..j + |close|] == open + v + close;
  }

  /** No occurrence of `t` begins after `x` when none can begin inside `tail`. */
  lemma NoLaterClose(s: string, from: nat, t: string)
    requires from <= |s| && |t| > 0 && NoStart(s[from..], t)
    ensures forall q :: from <= q ==> !OccursAt(s, t, q)
  {
    var x, tail := s[..from], s[from..];
    assert s == x + tail;
    OccursAfter(x, tail, t);
    NoStartNoOccurrence(tail, [], t);
    assert tail + [] == tail;
  }

  /** The match of a field pattern at `i` whose content ends at `j`. */
  lemma FieldMatchAt(s: string, p: FieldPattern, i: nat, j: nat)
    requires OccursAt(s, p.open, i) && OccursAt(s, p.close, j) && i + |p.open| <= j
    requires |p.close| > 0 && p.close[0] == '<'
    requires AllIn(s[i + |p.open|..j], p.chars) && (p.nonEmpty ==> i + |p.open| < j)
    requires p.chars == Dot ==> forall q :: j < q ==> !OccursAt(s, p.close, q)
    ensures MatchEndAt(s, p, i) == j + |p.close|
  {
    var a := i + |p.open|;
    assert MatchSpan(s, p, i, j + |p.close|);
    var e := MatchEndAt(s, p, i);
    assert j + |p.close| <= e;
    if p.chars != Dot {
      assert s[j] == s[j..j + |p.close|][0];
      RunEndExact(s, a, j, p.chars);
      LongestMatch(s, p, i);
    }
  }

  /** extractContent on a lone element: its content. */
  lemma ExtractGroup(open: string, v: string, close: string)
    requires |open| > 0 && NoStart(open, close) && NoStart(v, close)
    ensures ExtractContent(open + v + close, open, close) == Some(v)
  {
    var s := open + v + close;
    NoStartConcat(open, v, close);
    assert s[..|open|] == open;
    IndexOfIsFirst(s, open, 0);
    FirstOccurrence(open + v, close, []);
    assert open + v + close + [] == s;
    ExtractAt(s, open, close, 0, |open| + |v|);
    assert s[|open|..|open| + |v|] == v;
  }

  /**
   * The first `t` after `x + m` when `m` holds no occurrence of the tag `t`:
   * as `t` has its `<` only in front, no occurrence straddles the end of `m`.
   */
  lemma FirstCloseAfter(x: string, m: string, t: string, y: string)
    requires IsTag(t) && NoStart(x, t) && !Contains(m, t)
    ensures IndexOf(x + m + t + y, t) == |x| + |m|
  {
    NoneInPrefix(x, m, t, y);
    NoneInMiddle(x, m, t, y);
    MiddleSlices(x, m, t, y);
    FirstAfterGap(x + m + t + y, t, |x|, |x| + |m|);
  }

  lemma NoneInPrefix(x: string, m: string, t: string, y: string)
    requires NoStart(x, t)
    ensures forall q :: 0 <= q < |x| ==> !OccursAt(x + m + t + y, t, q)
  {
    assert x + m + t + y == x + (m + t + y);
    NoStartNoOccurrence(x, m + t + y, t);
  }

  lemma NoneInMiddle(x: string, m: string, t: string, y: string)
    requires !Contains(m, t)
    ensures forall q :: |x| <= q && q + |t| <= |x| + |m| ==> !OccursAt(x + m + t + y, t, q)
  {
    MiddleSlices(x, m, t, y);
    NoneInside(x + m + t + y, m, t, |x|);
  }

  /** `t` at `k` is the first one when none occurs before `a` nor wholly inside `[a, k)`. */
  lemma FirstAfterGap(s: string, t: string, a: nat, k: nat)
    requires IsTag(t) && OccursAt(s, t, k) && a <= k
    requires forall q :: 0 <= q < a ==> !OccursAt(s, t, q)
    requires forall q :: a <= q && q + |t| <= k ==> !OccursAt(s, t, q)
    ensures IndexOf(s, t) == k
  {
    NoStraddle(s, t, k);
    IndexOfIsFirst(s, t, k);
  }

  /** No occurrence lies wholly inside a slice that contains none. */
  lemma NoneInside(s: string, m: string, t: string, a: nat)
    requires a + |m| <= |s| && s[a..a + |m|] == m && !Contains(m, t)
    ensures forall q :: a <= q && q + |t| <= a + |m| ==> !OccursAt(s, t, q)
  {
    forall q | a <= q && q + |t| <= a + |m| ensures !OccursAt(s, t, q) {
      var i := q - a;
      assert !OccursAt(m, t, i);
      forall e | i <= e < i + |t| ensures m[e] == s[a + e] {
        assert m[e] == s[a..a + |m|][e];
      }
      assert m[i..i + |t|] == s[q..q + |t|];
    }
  }

  /** An occurrence of a tag at `k` rules out any other that overlaps its `<`. */
  lemma NoStraddle(s: string, t: string, k: nat)
    requires IsTag(t) && OccursAt(s, t, k)
    ensures forall q :: k - |t| < q < k ==> !OccursAt(s, t, q)
  {
    TagShape(t);
    forall q | k - |t| < q < k ensures !OccursAt(s, t, q) {
      assert s[k] == '<';
      if 0 <= q && q + |t| <= |s| {
        assert s[q..q + |t|][k - q] == '<' != t[k - q];
      }
    }
  }
}
