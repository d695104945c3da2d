/**
 * The parts of java.lang.String, java.lang.Integer and java.util.regex that the
 * chat protocol relies on. A Java int is an unbounded integer here and is
 * reduced to 32 bits explicitly (Wrap32) wherever Java arithmetic would wrap.
 */
module JavaText {
  import opened Wrappers

  /* ---------------- character classes of the protocol's patterns ---------------- */

  /** The characters the regex `.` does not match (java.util.regex without DOTALL). */
  predicate IsLineTerminator(c: char) {
    c == '\n' || c == '\r' || c == '\U{85}' || c == '\U{2028}' || c == '\U{2029}'
  }

  /** The three character classes that occur in the protocol's patterns. */
  datatype CharClass =
    | Dot       // `.`
    | NotAngle  // `[^<>]`
    | Digit     // `[0-9]`

  predicate InClass(c: char, k: CharClass) {
    match k
    case Dot => !IsLineTerminator(c)
    case NotAngle => c != '<' && c != '>'
    case Digit => '0' <= c <= '9'
  }

  /** `s` matches `k*`. */
  predicate AllIn(s: string, k: CharClass) {
    forall i :: 0 <= i < |s| ==> InClass(s[i], k)
  }

  /** End of the longest run of `k` characters starting at `from` (what a greedy `k*` consumes). */
  function RunEnd(s: string, from: nat, k: CharClass): (e: nat)
    requires from <= |s|
    ensures from <= e <= |s|
    ensures AllIn(s[from..e], k)
    ensures e < |s| ==> !InClass(s[e], k)
    decreases |s| - from
  {
    if from < |s| && InClass(s[from], k) then
      var e := RunEnd(s, from + 1, k);
      assert s[from..e] == [s[from]] + s[from + 1..e];
      e
    else
      from
  }

  lemma AllInConcat(a: string, b: string, k: CharClass)
    ensures AllIn(a + b, k) <==> AllIn(a, k) && AllIn(b, k)
  {
    if AllIn(a, k) && AllIn(b, k) {
      forall i | 0 <= i < |a + b| ensures InClass((a + b)[i], k) {
        if i >= |a| {
          assert (a + b)[i] == b[i - |a|];
        }
      }
    }
    if AllIn(a + b, k) {
      forall i | 0 <= i < |a| ensures InClass(a[i], k) {
        assert (a + b)[i] == a[i];
      }
      forall i | 0 <= i < |b| ensures InClass(b[i], k) {
        assert (a + b)[|a| + i] == b[i];
      }
    }
  }

  /** A run of `k` characters starting at `from` never reaches past RunEnd. */
  lemma RunBound(s: string, from: nat, j: nat, k: CharClass)
    requires from <= j <= |s| && AllIn(s[from..j], k)
    ensures j <= RunEnd(s, from, k)
  {
    forall i | from <= i < j ensures InClass(s[i], k) {
      assert s[from..j][i - from] == s[i];
    }
  }

  /** A shorter run inside a run is a run. */
  lemma RunPrefix(s: string, from: nat, j: nat, hi: nat, k: CharClass)
    requires from <= j <= hi <= |s| && AllIn(s[from..hi], k)
    ensures AllIn(s[from..j], k)
  {
    forall i | 0 <= i < j - from ensures InClass(s[from..j][i], k) {
      assert s[from..j][i] == s[from..hi][i];
    }
  }

  /** The run from `from` ends exactly at `j` when `s[from..j]` is in `k` and `s[j]` is not. */
  lemma RunEndExact(s: string, from: nat, j: nat, k: CharClass)
    requires from <= j <= |s| && AllIn(s[from..j], k)
    requires j < |s| ==> !InClass(s[j], k)
    ensures RunEnd(s, from, k) == j
  {
    RunBound(s, from, j, k);
    var e := RunEnd(s, from, k);
    forall i | from <= i < e ensures InClass(s[i], k) {
      assert s[from..e][i - from] == s[i];
    }
  }

  /** The run from `from` stops at or before any character outside `k`. */
  lemma RunStops(s: string, from: nat, d: nat, k: CharClass)
    requires from <= d < |s| && !InClass(s[d], k)
    ensures RunEnd(s, from, k) <= d
  {
    var e := RunEnd(s, from, k);
    forall i | from <= i < e ensures InClass(s[i], k) {
      assert s[from..e][i - from] == s[i];
    }
  }

  /* ---------------------------- occurrences of a string ---------------------------- */

  predicate OccursAt(s: string, t: string, i: int) {
    0 <= i && i + |t| <= |s| && s[i..i + |t|] == t
  }

  /** String.contains */
  predicate Contains(s: string, t: string) {
    exists i :: 0 <= i <= |s| - |t| && OccursAt(s, t, i)
  }

  /** String.startsWith */
  predicate StartsWith(s: string, p: string) {
    |p| <= |s| && s[..|p|] == p
  }

  /** String.endsWith */
  predicate EndsWith(s: string, p: string) {
    |p| <= |s| && s[|s| - |p|..] == p
  }

  /** String.indexOf(t, from): the first occurrence of `t` at or after `from`, or -1. */
  function IndexOfFrom(s: string, t: string, from: nat): (r: int)
    ensures r == -1 || (from <= r && OccursAt(s, t, r))
    ensures forall i :: from <= i && (r == -1 || i < r) ==> !OccursAt(s, t, i)
    decreases |s| - from
  {
    if from + |t| > |s| then -1
    else if s[from..from + |t|] == t then from
    else IndexOfFrom(s, t, from + 1)
  }

  /** String.indexOf(t) */
  function IndexOf(s: string, t: string): int {
    IndexOfFrom(s, t, 0)
  }

  /** The last occurrence of `t` starting in [lo, hi], or -1: where a greedy `X*t` ends its backtracking. */
  function LastIndexIn(s: string, t: string, lo: nat, hi: int): (r: int)
    ensures r == -1 || (lo <= r <= hi && OccursAt(s, t, r))
    ensures forall j :: lo <= j <= hi && r < j ==> !OccursAt(s, t, j)
    decreases hi - lo + 1
  {
    if hi < lo then -1
    else if OccursAt(s, t, hi) then hi
    else LastIndexIn(s, t, lo, hi - 1)
  }

  lemma IndexOfIsFirst(s: string, t: string, k: nat)
    requires OccursAt(s, t, k)
    requires forall i :: 0 <= i < k ==> !OccursAt(s, t, i)
    ensures IndexOf(s, t) == k
  {
  }

  /** An occurrence inside `s[a..b]` is an occurrence in `s`. */
  lemma OccursInSlice(s: string, t: string, a: nat, b: nat, k: nat)
    requires a <= b <= |s| && OccursAt(s[a..b], t, k)
    ensures OccursAt(s, t, a + k)
  {
    forall d | 0 <= d < |t| ensures s[a + k + d] == t[d] {
      assert s[a..b][k..k + |t|][d] == t[d];
    }
  }

  lemma ContainsIffIndexOf(s: string, t: string)
    ensures Contains(s, t) <==> IndexOf(s, t) >= 0
  {
    if IndexOf(s, t) >= 0 {
      assert OccursAt(s, t, IndexOf(s, t));
    }
  }

  /** `a` and `b` agree on their common length: one is a prefix of the other. */
  predicate Compatible(a: string, b: string)
    decreases |a|
  {
    |a| == 0 || |b| == 0 || (a[0] == b[0] && Compatible(a[1..], b[1..]))
  }

  /** No occurrence of `t` can begin inside `x`, whatever text follows `x`. */
  predicate NoStart(x: string, t: string)
    decreases |x|
  {
    |x| == 0 || (!Compatible(x, t) && NoStart(x[1..], t))
  }

  lemma {:induction false} CompatibleIff(a: string, b: string)
    ensures Compatible(a, b) <==> forall k :: 0 <= k < |a| && k < |b| ==> a[k] == b[k]
    decreases |a|
  {
    if |a| > 0 && |b| > 0 {
      CompatibleIff(a[1..], b[1..]);
      if a[0] == b[0] && Compatible(a[1..], b[1..]) {
        forall k | 0 <= k < |a| && k < |b| ensures a[k] == b[k] {
          if k > 0 {
            assert a[1..][k - 1] == a[k] && b[1..][k - 1] == b[k];
          }
        }
      }
      if forall k :: 0 <= k < |a| && k < |b| ==> a[k] == b[k] {
        forall k | 0 <= k < |a| - 1 && k < |b| - 1 ensures a[1..][k] == b[1..][k] {
          assert a[k + 1] == b[k + 1];
        }
      }
    }
  }

  lemma {:induction false} NoStartIff(x: string, t: string)
    ensures NoStart(x, t) <==> forall q :: 0 <= q < |x| ==> !Compatible(x[q..], t)
    decreases |x|
  {
    if |x| > 0 {
      NoStartIff(x[1..], t);
      forall q | 1 <= q < |x| ensures x[1..][q - 1..] == x[q..] {
      }
      assert x[0..] == x;
    }
  }

  /** An occurrence of `t` that starts inside `x` is compatible with the rest of `x`. */
  lemma CompatibleOfOccurrence(x: string, z: string, t: string, q: nat)
    requires q < |x| && OccursAt(x + z, t, q)
    ensures Compatible(x[q..], t)
  {
    CompatibleIff(x[q..], t);
    forall k | 0 <= k < |x[q..]| && k < |t| ensures x[q..][k] == t[k] {
      assert (x + z)[q..q + |t|][k] == (x + z)[q + k];
    }
  }

  lemma NoStartNoOccurrence(x: string, z: string, t: string)
    requires NoStart(x, t)
    ensures forall q :: 0 <= q < |x| ==> !OccursAt(x + z, t, q)
  {
    NoStartIff(x, t);
    forall q | 0 <= q < |x| ensures !OccursAt(x + z, t, q) {
      if OccursAt(x + z, t, q) {
        CompatibleOfOccurrence(x, z, t, q);
      }
    }
  }

  /** An occurrence at or after the end of `x` is an occurrence in `z`. */
  lemma OccursAfter(x: string, z: string, t: string)
    ensures forall q :: |x| <= q ==> (OccursAt(x + z, t, q) <==> OccursAt(z, t, q - |x|))
  {
    forall q | |x| <= q ensures OccursAt(x + z, t, q) <==> OccursAt(z, t, q - |x|) {
      if q + |t| <= |x| + |z| {
        assert (x + z)[q..q + |t|] == z[q - |x|..q - |x| + |t|];
      }
    }
  }

  lemma {:induction false} CompatiblePrefix(a: string, b: string, t: string)
    requires Compatible(a + b, t)
    ensures Compatible(a, t)
  {
    CompatibleIff(a + b, t);
    CompatibleIff(a, t);
    forall k | 0 <= k < |a| && k < |t| ensures a[k] == t[k] {
      assert (a + b)[k] == a[k];
    }
  }

  lemma NoStartConcat(x: string, z: string, t: string)
    requires NoStart(x, t) && NoStart(z, t)
    ensures NoStart(x + z, t)
  {
    NoStartIff(x, t);
    NoStartIff(z, t);
    NoStartIff(x + z, t);
    forall q | 0 <= q < |x + z| ensures !Compatible((x + z)[q..], t) {
      if q < |x| {
        assert (x + z)[q..] == x[q..] + z;
        if Compatible(x[q..] + z, t) {
          CompatiblePrefix(x[q..], z, t);
        }
      } else {
        assert (x + z)[q..] == z[q - |x|..];
      }
    }
  }

  /** A string without the first character of `t` cannot hold the start of an occurrence. */
  lemma {:induction false} NoStartAvoiding(x: string, t: string)
    requires |t| > 0
    requires forall i :: 0 <= i < |x| ==> x[i] != t[0]
    ensures NoStart(x, t)
    decreases |x|
  {
    if |x| > 0 {
      NoStartAvoiding(x[1..], t);
    }
  }

  lemma NoStartNotContains(x: string, t: string)
    requires |t| > 0 && NoStart(x, t)
    ensures !Contains(x, t)
  {
    NoStartNoOccurrence(x, [], t);
    assert x + [] == x;
  }

  /** The first occurrence of `t` in `x + t + y` is the one right after `x`. */
  lemma FirstOccurrence(x: string, t: string, y: string)
    requires NoStart(x, t)
    ensures IndexOf(x + t + y, t) == |x|
  {
    NoStartNoOccurrence(x, t + y, t);
    assert x + t + y == x + (t + y);
    assert (x + t + y)[|x|..|x| + |t|] == t;
    IndexOfIsFirst(x + t + y, t, |x|);
  }

  /** The second and third parts of `x + m + t + y` as slices. */
  lemma MiddleSlices(x: string, m: string, t: string, y: string)
    ensures var s := x + m + t + y; var k := |x| + |m|;
      s[|x|..k] == m && s[k..k + |t|] == t
  {
    var s := x + m + t + y;
    var k := |x| + |m|;
    assert s[|x|..k] == m;
    assert s[k..k + |t|] == t;
  }

  /** `m` as a slice of `x + o + m + c + y`. */
  lemma ContentSlice(x: string, o: string, m: string, c: string, y: string)
    ensures var s := x + o + m + c + y; var a := |x| + |o|; s[a..a + |m|] == m
  {
    var s := x + o + m + c + y;
    var a := |x| + |o|;
    assert s[a..a + |m|] == m;
  }

  /** The first `o` in `x + o + m + c + y` is the one after `x`. */
  lemma FirstOfFive(x: string, o: string, m: string, c: string, y: string)
    requires NoStart(x, o)
    ensures IndexOf(x + o + m + c + y, o) == |x|
  {
    assert x + o + m + c + y == x + o + (m + c + y);
    FirstOccurrence(x, o, m + c + y);
  }

  /** The occurrence of `t` right after `x` is its only one in `x + t + y`. */
  lemma OnlyOccurrence(x: string, t: string, y: string)
    requires |t| > 0 && NoStart(x, t) && NoStart(t[1..] + y, t)
    ensures forall q :: OccursAt(x + t + y, t, q) <==> q == |x|
  {
    forall q | q != |x|
      ensures !OccursAt(x + t + y, t, q)
    {
      if q < |x| {
        NoOccurrenceBefore(x, t, y, q);
      } else {
        NoOccurrenceAfter(x, t, y, q);
      }
    }
    assert (x + t + y)[|x|..|x| + |t|] == t;
  }

  lemma NoOccurrenceBefore(x: string, t: string, y: string, q: int)
    requires NoStart(x, t) && q < |x|
    ensures !OccursAt(x + t + y, t, q)
  {
    NoStartNoOccurrence(x, t + y, t);
    assert x + t + y == x + (t + y);
  }

  lemma NoOccurrenceAfter(x: string, t: string, y: string, q: int)
    requires |t| > 0 && NoStart(t[1..] + y, t) && q > |x|
    ensures !OccursAt(x + t + y, t, q)
  {
    var z := t[1..] + y;
    assert x + t + y == (x + [t[0]]) + z;
    OccursAfter(x + [t[0]], z, t);
    NoStartNoOccurrence(z, [], t);
    assert z + [] == z;
  }

  /* ------------------------------------ trim ------------------------------------ */

  function TrimStart(s: string): (r: string)
    ensures |r| <= |s| && r == s[|s| - |r|..]
    ensures forall i :: 0 <= i < |s| - |r| ==> s[i] <= ' '
    ensures |r| > 0 ==> r[0] > ' '
  {
    if |s| > 0 && s[0] <= ' ' then TrimStart(s[1..]) else s
  }

  function TrimEnd(s: string): (r: string)
    ensures |r| <= |s| && r == s[..|r|]
    ensures forall i :: |r| <= i < |s| ==> s[i] <= ' '
    ensures |r| > 0 ==> r[|r| - 1] > ' '
  {
    if |s| > 0 && s[|s| - 1] <= ' ' then TrimEnd(s[..|s| - 1]) else s
  }

  /** `r` is `s[i..i + |r|]` and everything of `s` around it is at or below U+0020. */
  predicate TrimmedAt(s: string, r: string, i: int) {
    0 <= i <= |s| - |r| && r == s[i..i + |r|]
    && (forall k :: 0 <= k < i ==> s[k] <= ' ')
    && (forall k :: i + |r| <= k < |s| ==> s[k] <= ' ')
  }

  /** String.trim: removes every leading and trailing character at or below U+0020. */
  function Trim(s: string): (r: string)
    ensures exists i :: TrimmedAt(s, r, i)
    ensures |r| > 0 ==> r[0] > ' ' && r[|r| - 1] > ' '
  {
    var a := TrimStart(s);
    var r := TrimEnd(a);
    TrimmedOfParts(s, a, r);
    r
  }

  /** A right-trimmed suffix of `s` that follows only blanks is trimmed at the suffix's start. */
  lemma TrimmedOfParts(s: string, a: string, r: string)
    requires |a| <= |s| && a == s[|s| - |a|..] && forall k :: 0 <= k < |s| - |a| ==> s[k] <= ' '
    requires |r| <= |a| && r == a[..|r|] && forall k :: |r| <= k < |a| ==> a[k] <= ' '
    ensures TrimmedAt(s, r, |s| - |a|)
  {
    var i := |s| - |a|;
    assert r == s[i..i + |r|];
    forall k | i + |r| <= k < |s|
      ensures s[k] <= ' '
    {
      assert s[k] == a[k - i];
    }
  }

  /* ---------------------------------- UTF-16 ---------------------------------- */

  /** The UTF-16 code units of one character: itself below U+10000, otherwise a surrogate pair. */
  function Utf16Units(c: char): (u: seq<int>)
    ensures 1 <= |u| <= 2 && forall i :: 0 <= i < |u| ==> 0 <= u[i] < 0x1_0000
    ensures |u| == 1 <==> c as int < 0x1_0000
  {
    if c as int < 0x1_0000 then [c as int]
    else
      var v := c as int - 0x1_0000;
      [0xD800 + v / 0x400, 0xDC00 + v % 0x400]
  }

  /** The `char` sequence of a Java String: the UTF-16 code units of its characters, in order. */
  function Utf16(s: string): (u: seq<int>)
    ensures |s| <= |u| <= 2 * |s|
    ensures |u| == |s| <==> forall i :: 0 <= i < |s| ==> s[i] as int < 0x1_0000
  {
    if |s| == 0 then []
    else
      var p := s[..|s| - 1];
      assert forall i :: 0 <= i < |p| ==> p[i] == s[i];
      Utf16(p) + Utf16Units(s[|s| - 1])
  }

  /* ------------------------------- int <-> decimal ------------------------------- */

  const IntMin: int := -0x8000_0000
  const IntMax: int := 0x7fff_ffff

  predicate IsInt32(x: int) {
    IntMin <= x <= IntMax
  }

  /** Two's-complement reduction to 32 bits, as Java int arithmetic and (int) casts do. */
  function Wrap32(x: int): (r: int)
    ensures IsInt32(r)
    ensures IsInt32(x) ==> r == x
    ensures (r - x) % 0x1_0000_0000 == 0
  {
    (x - IntMin) % 0x1_0000_0000 + IntMin
  }

  /** Value of a string of ASCII digits, most significant digit first. */
  function DigitsValue(d: string): nat
    requires AllIn(d, Digit)
  {
    if |d| == 0 then 0 else DigitsValue(d[..|d| - 1]) * 10 + (d[|d| - 1] as int - '0' as int)
  }

  /**
   * Integer.parseInt: an optional sign and at least one ASCII digit, inside the int
   * range; None is the NumberFormatException.
   */
  function ParseInt(s: string): (r: Option<int>)
    ensures r.Some? ==> IsInt32(r.value)
  {
    if |s| == 0 then None
    else
      var digits := if s[0] == '-' || s[0] == '+' then s[1..] else s;
      if |digits| == 0 || !AllIn(digits, Digit) then None
      else
        var n: int := DigitsValue(digits);
        var v := if s[0] == '-' then -n else n;
        if IsInt32(v) then Some(v) else None
  }

  /** Decimal digits of `n`, most significant first. */
  function DecimalOfNat(n: nat): (r: string)
    ensures |r| > 0 && AllIn(r, Digit)
    ensures DigitsValue(r) == n
  {
    if n < 10 then
      [('0' as int + n) as char]
    else
      var p := DecimalOfNat(n / 10);
      var r := p + [('0' as int + n % 10) as char];
      assert r[..|r| - 1] == p;
      r
  }

  /** Integer.toString, also what `"" + n` produces for an int `n`. */
  function IntToString(n: int): (r: string)
    ensures |r| > 0
  {
    if n < 0 then "-" + DecimalOfNat(-n) else DecimalOfNat(n)
  }

  /** Integer.parseInt undoes Integer.toString on every int. */
  lemma ParseIntToString(n: int)
    requires IsInt32(n)
    ensures ParseInt(IntToString(n)) == Some(n)
  {
    var s := IntToString(n);
    if n < 0 {
      assert s[1..] == DecimalOfNat(-n);
    } else {
      assert InClass(s[0], Digit);
    }
  }

  /** On a plain digit string parseInt is the digits' value, failing only past IntMax. */
  lemma ParseIntDigits(d: string)
    requires |d| > 0 && AllIn(d, Digit)
    ensures ParseInt(d) == if DigitsValue(d) <= IntMax then Some(DigitsValue(d)) else None
  {
    assert InClass(d[0], Digit);
  }

  /* ------------------------------------ split ------------------------------------ */

  /** The pieces `t` separates, joined back with `t`. */
  function Join(ps: seq<string>, t: string): string
    requires |ps| > 0
  {
    if |ps| == 1 then ps[0] else ps[0] + t + Join(ps[1..], t)
  }

  /** The text before the first occurrence of `t` does not contain `t`. */
  lemma BeforeFirst(s: string, t: string)
    requires |t| > 0 && IndexOf(s, t) >= 0
    ensures !Contains(s[..IndexOf(s, t)], t)
  {
    var i := IndexOf(s, t);
    forall j | 0 <= j <= i - |t| ensures !OccursAt(s[..i], t, j) {
      if OccursAt(s[..i], t, j) {
        assert s[..i][j..j + |t|] == s[j..j + |t|];
        assert OccursAt(s, t, j);
      }
    }
  }

  lemma AroundOccurrence(s: string, t: string, i: nat)
    requires OccursAt(s, t, i)
    ensures s == s[..i] + t + s[i + |t|..]
  {
    assert s == s[..i] + s[i..i + |t|] + s[i + |t|..];
  }

  /** The text between successive leftmost occurrences of `t`, before Java drops trailing empties. */
  function SplitPieces(s: string, t: string): (ps: seq<string>)
    requires |t| > 0
    ensures |ps| > 0
    ensures forall i :: 0 <= i < |ps| ==> !Contains(ps[i], t)
    ensures Join(ps, t) == s
    ensures |ps| == 1 <==> !Contains(s, t)
    decreases |s|
  {
    var i := IndexOf(s, t);
    ContainsIffIndexOf(s, t);
    if i < 0 then
      [s]
    else
      var rest := SplitPieces(s[i + |t|..], t);
      var ps := [s[..i]] + rest;
      BeforeFirst(s, t);
      AroundOccurrence(s, t, i);
      assert ps[1..] == rest;
      ps
  }

  function DropTrailingEmpty(ps: seq<string>): (r: seq<string>)
    ensures |r| <= |ps| && r == ps[..|r|]
    ensures |r| > 0 ==> r[|r| - 1] != ""
    ensures forall i :: |r| <= i < |ps| ==> ps[i] == ""
  {
    if |ps| > 0 && ps[|ps| - 1] == "" then DropTrailingEmpty(ps[..|ps| - 1]) else ps
  }

  /**
   * String.split(t) for a `t` without regex metacharacters: no occurrence gives
   * `[s]`; otherwise the pieces with trailing empty strings removed.
   */
  function Split(s: string, t: string): (r: seq<string>)
    requires |t| > 0
    ensures !Contains(s, t) ==> r == [s]
    ensures Contains(s, t) ==> r == DropTrailingEmpty(SplitPieces(s, t))
  {
    var ps := SplitPieces(s, t);
    if |ps| == 1 then ps else DropTrailingEmpty(ps)
  }

  /* ----------------------------- fixed replacements ----------------------------- */

  /** s.replaceAll("^/+", ""): removes the leading run of `/`. */
  function DropLeadingSlashes(s: string): (r: string)
    ensures |r| <= |s| && r == s[|s| - |r|..]
    ensures forall i :: 0 <= i < |s| - |r| ==> s[i] == '/'
    ensures |r| > 0 ==> r[0] != '/'
  {
    if |s| > 0 && s[0] == '/' then
      var r := DropLeadingSlashes(s[1..]);
      assert s[|s| - |r|..] == s[1..][|s| - 1 - |r|..];
      assert forall i :: 1 <= i < |s| - |r| ==> s[i] == s[1..][i - 1];
      r
    else s
  }

  /** s.replace(c, ""): removes every occurrence of the character `c`, keeping the others in order. */
  function RemoveChar(s: string, c: char): (r: string)
    ensures forall i :: 0 <= i < |r| ==> r[i] != c
    ensures (forall i :: 0 <= i < |s| ==> s[i] != c) ==> r == s
    ensures |r| <= |s|
  {
    if |s| == 0 then ""
    else
      var rest := RemoveChar(s[1..], c);
      if s[0] == c then rest else [s[0]] + rest
  }

  /** The first `>` at or after `from`, or |s| when there is none. */
  function CloseFrom(s: string, from: nat): (j: nat)
    requires from <= |s|
    ensures from <= j <= |s|
    ensures j < |s| ==> s[j] == '>'
    ensures forall k :: from <= k < j ==> s[k] != '>'
    decreases |s| - from
  {
    if from == |s| || s[from] == '>' then from else CloseFrom(s, from + 1)
  }

  /**
   * s.replaceAll("<[^>]*>", ""): scanning from the left, a `<` with a `>` somewhere
   * after it is deleted together with everything up to the first such `>`; any other
   * character is kept and the scan moves on by one.
   */
  function StripTags(s: string): (r: string)
    ensures |r| <= |s|
    ensures forall x :: x in r ==> x in s
    ensures NoTagLeft(r)
    decreases |s|
  {
    if |s| == 0 then ""
    else
      var j := CloseFrom(s, 1);
      if s[0] == '<' && j < |s| then
        var r := StripTags(s[j + 1..]);
        assert forall x :: x in s[j + 1..] ==> x in s;
        r
      else
        var t := StripTags(s[1..]);
        assert forall x :: x in s[1..] ==> x in s;
        var r := [s[0]] + t;
        assert s[0] == '<' ==> forall k :: 0 <= k < |t| ==> t[k] != '>' by {
          if s[0] == '<' {
            forall k | 0 <= k < |t|
              ensures t[k] != '>'
            {
              assert t[k] in s[1..];
            }
          }
        }
        assert forall k :: 1 <= k < |r| ==> r[k] == t[k - 1];
        r
  }

  /** No `<` is followed by a `>` in `r`. */
  predicate NoTagLeft(r: string) {
    forall i, j :: 0 <= i < j < |r| && r[i] == '<' ==> r[j] != '>'
  }

  /** Text without `<` is left as it is. */
  lemma {:induction false} StripTagsPlain(s: string)
    requires forall i :: 0 <= i < |s| ==> s[i] != '<'
    ensures StripTags(s) == s
  {
    if |s| > 0 {
      StripTagsPlain(s[1..]);
    }
  }

  /** A leading character other than `<` is kept. */
  lemma StripTagsCons(c: char, rest: string)
    requires c != '<'
    ensures StripTags([c] + rest) == [c] + StripTags(rest)
  {
    assert ([c] + rest)[1..] == rest;
  }

  /** Text without `<` in front of the rest is kept as it is. */
  lemma {:induction false} StripTagsPlainPrefix(p: string, rest: string)
    requires forall i :: 0 <= i < |p| ==> p[i] != '<'
    ensures StripTags(p + rest) == p + StripTags(rest)
  {
    if |p| > 0 {
      PrefixCons(p, rest);
      StripTagsCons(p[0], p[1..] + rest);
      StripTagsPlainPrefix(p[1..], rest);
      PrefixCons(p, StripTags(rest));
    } else {
      EmptyPrefix(p, rest);
      EmptyPrefix(p, StripTags(rest));
    }
  }

  lemma PrefixCons(p: string, u: string)
    requires |p| > 0
    ensures p + u == [p[0]] + (p[1..] + u)
  {
  }

  lemma EmptyPrefix(p: string, u: string)
    requires |p| == 0
    ensures p + u == u
  {
  }

  /** A leading `<...>` run is deleted whole. */
  lemma StripTagsDropTag(tag: string, rest: string)
    requires |tag| >= 2 && tag[0] == '<' && tag[|tag| - 1] == '>'
    requires forall i :: 1 <= i < |tag| - 1 ==> tag[i] != '>'
    ensures StripTags(tag + rest) == StripTags(rest)
  {
    var s := tag + rest;
    assert s[|tag| - 1] == '>';
    assert forall i :: 1 <= i < |tag| - 1 ==> s[i] != '>';
    assert CloseFrom(s, 1) == |tag| - 1;
    assert s[|tag|..] == rest;
  }
}
