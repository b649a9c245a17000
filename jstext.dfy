/**
 * The JavaScript string operations the services rely on: the whitespace class
 * `\s` (which is also the set `String.prototype.trim` strips), `trim`, literal
 * global replacement, ASCII case-insensitive comparison and `join`.
 * A string is a sequence of characters, one per UTF-16 code unit.
 */
module JsText {

  /** The characters matched by `\s` and removed by `trim`. */
  predicate IsWs(c: char) {
    c in WsChars
  }

  const WsChars: set<char> := {
    ' ', '\t', '\n', '\U{B}', '\U{C}', '\r', '\U{A0}', '\U{1680}',
    '\U{2000}', '\U{2001}', '\U{2002}', '\U{2003}', '\U{2004}', '\U{2005}',
    '\U{2006}', '\U{2007}', '\U{2008}', '\U{2009}', '\U{200A}',
    '\U{2028}', '\U{2029}', '\U{202F}', '\U{205F}', '\U{3000}', '\U{FEFF}'
  }

  /** Every character is whitespace (the empty string included). */
  predicate IsBlank(s: string) {
    forall i :: 0 <= i < |s| ==> IsWs(s[i])
  }

  /** No whitespace at either end. */
  predicate Trimmed(s: string) {
    s == [] || (!IsWs(s[0]) && !IsWs(s[|s| - 1]))
  }

  /** The length of the leading whitespace run. */
  function LeadingWs(s: string): (n: nat)
    ensures n <= |s| && IsBlank(s[..n])
    ensures n < |s| ==> !IsWs(s[n])
  {
    if |s| > 0 && IsWs(s[0]) then
      var n := 1 + LeadingWs(s[1..]);
      assert s[..n] == [s[0]] + s[1..][..n - 1];
      n
    else 0
  }

  /** The length of the trailing whitespace run. */
  function TrailingWs(s: string): (n: nat)
    ensures n <= |s| && IsBlank(s[|s| - n..])
    ensures n < |s| ==> !IsWs(s[|s| - n - 1])
  {
    if |s| > 0 && IsWs(s[|s| - 1]) then
      var n := 1 + TrailingWs(s[..|s| - 1]);
      assert s[|s| - n..] == s[..|s| - 1][|s| - n..] + [s[|s| - 1]];
      n
    else 0
  }

  /**
   * `s.trim()`: the part of `s` left after removing whitespace at both ends.
   * The result is the middle of `s` between two blank runs, it is trimmed, and
   * it is empty exactly when `s` is blank.
   */
  function Trim(s: string): (r: string)
    ensures LeadingWs(s) + |r| <= |s|
    ensures r == s[LeadingWs(s)..LeadingWs(s) + |r|]
    ensures IsBlank(s[..LeadingWs(s)]) && IsBlank(s[LeadingWs(s) + |r|..])
    ensures Trimmed(r)
    ensures r == [] <==> IsBlank(s)
  {
    var a := LeadingWs(s);
    var rest := s[a..];
    var t := TrailingWs(rest);
    var r := rest[..|rest| - t];
    SliceOfSuffix(s, a, |r|);
    if r == [] then
      BlankSplit(s, a);
      r
    else
      assert r[0] == s[a] && r[|r| - 1] == rest[|rest| - t - 1];
      r
  }

  /** Blank on both sides of `k` is blank. */
  lemma BlankSplit(s: string, k: nat)
    requires k <= |s| && IsBlank(s[..k]) && IsBlank(s[k..])
    ensures IsBlank(s)
  {
    forall i | 0 <= i < |s| ensures IsWs(s[i]) {
      if i < k {
        assert s[..k][i] == s[i];
      } else {
        assert s[k..][i - k] == s[i];
      }
    }
  }

  /** Slicing a suffix is slicing the whole. */
  lemma SliceOfSuffix(s: string, a: nat, k: nat)
    requires a + k <= |s|
    ensures s[a..][..k] == s[a..a + k] && s[a..][k..] == s[a + k..]
  {
  }


  /** Trimming a trimmed string changes nothing. */
  lemma TrimmedFixed(s: string)
    requires Trimmed(s)
    ensures Trim(s) == s
  {
    var r := Trim(s);
    if s != [] {
      assert LeadingWs(s) == 0;
    }
  }

  /** `trim` is determined by any split of `s` into blank, trimmed, blank. */
  lemma TrimUnique(s: string, pre: string, mid: string, post: string)
    requires s == pre + mid + post
    requires IsBlank(pre) && IsBlank(post) && Trimmed(mid)
    ensures Trim(s) == mid
  {
    BlankConcat(pre, mid);
    BlankConcat(pre + mid, post);
    if mid != [] {
      assert s[..|pre|] == pre;
      LeadingWsAt(s, |pre|);
      assert forall i :: |pre| + |mid| <= i < |s| ==> IsWs(s[i]) by {
        forall i | |pre| + |mid| <= i < |s| ensures IsWs(s[i]) { assert s[i] == post[i - |pre| - |mid|]; }
      }
      TrimEndsAt(s, |mid|);
      assert Trim(s) == s[|pre|..|pre| + |mid|];
    }
  }

  /** The leading whitespace run ends at the first non-whitespace character. */
  lemma LeadingWsAt(s: string, k: nat)
    requires k < |s| && IsBlank(s[..k]) && !IsWs(s[k])
    ensures LeadingWs(s) == k
  {
    var n := LeadingWs(s);
    assert forall i :: 0 <= i < k ==> IsWs(s[i]) by {
      forall i | 0 <= i < k ensures IsWs(s[i]) { assert s[..k][i] == s[i]; }
    }
    assert forall i :: 0 <= i < n ==> IsWs(s[i]) by {
      forall i | 0 <= i < n ensures IsWs(s[i]) { assert s[..n][i] == s[i]; }
    }
  }

  /** The trimmed part ends at the last non-whitespace character. */
  lemma TrimEndsAt(s: string, m: nat)
    requires 0 < m && LeadingWs(s) + m <= |s| && !IsWs(s[LeadingWs(s) + m - 1])
    requires forall i :: LeadingWs(s) + m <= i < |s| ==> IsWs(s[i])
    ensures |Trim(s)| == m
  {
    var n := LeadingWs(s);
    var rest := s[n..];
    TrailingWsAt(rest, |rest| - m);
  }

  /** The trailing whitespace run starts after the last non-whitespace character. */
  lemma TrailingWsAt(s: string, j: nat)
    requires j < |s| && !IsWs(s[|s| - j - 1])
    requires forall i :: |s| - j <= i < |s| ==> IsWs(s[i])
    ensures TrailingWs(s) == j
  {
    var t := TrailingWs(s);
    assert forall i :: |s| - t <= i < |s| ==> IsWs(s[i]) by {
      forall i | |s| - t <= i < |s| ensures IsWs(s[i]) { assert s[|s| - t..][i - (|s| - t)] == s[i]; }
    }
  }

  /** Trimming ignores whitespace added at the end. */
  lemma TrimBlankTail(s: string, tail: string)
    requires IsBlank(tail)
    ensures Trim(s + tail) == Trim(s)
  {
    var n := LeadingWs(s);
    var t := Trim(s);
    var u := s + tail;
    if t == [] {
      BlankConcat(s, tail);
    } else {
      SliceOfConcat(s, tail, 0, n);
      SliceOfConcat(s, tail, n, n + |t|);
      assert u[n] == s[n] && u[n + |t| - 1] == t[|t| - 1];
      LeadingWsAt(u, n);
      BlankAfter(s, tail, n + |t|);
      TrimEndsAt(u, |t|);
    }
  }

  /** A slice inside the first part of a concatenation. */
  lemma SliceOfConcat(s: string, tail: string, i: nat, j: nat)
    requires i <= j <= |s|
    ensures (s + tail)[i..j] == s[i..j]
  {
  }

  /** Past a blank stretch of `s`, `s + tail` is blank when `tail` is. */
  lemma BlankAfter(s: string, tail: string, k: nat)
    requires k <= |s| && IsBlank(s[k..]) && IsBlank(tail)
    ensures forall i :: k <= i < |s + tail| ==> IsWs((s + tail)[i])
  {
    forall i | k <= i < |s + tail| ensures IsWs((s + tail)[i]) {
      if i < |s| {
        assert (s + tail)[i] == s[k..][i - k];
      } else {
        assert (s + tail)[i] == tail[i - |s|];
      }
    }
  }

  /**
   * Trimming two texts that meet at non-whitespace characters, joined by one
   * space, is joining their trimmed forms by that space.
   */
  lemma TrimAroundSpace(a: string, b: string)
    requires a != [] && !IsWs(a[|a| - 1])
    requires b != [] && !IsWs(b[0])
    ensures Trim(a + " " + b) == Trim(a) + " " + Trim(b)
  {
    var ta := Trim(a);
    var tb := Trim(b);
    var pre := a[..LeadingWs(a)];
    var post := b[|tb|..];
    TrimKeepsEnd(a);
    TrimKeepsStart(b);
    assert a == pre + ta;
    var mid := ta + " " + tb;
    assert mid[0] == ta[0] && mid[|mid| - 1] == tb[|tb| - 1];
    calc {
      a + " " + b;
      (pre + ta) + " " + (tb + post);
      { assert (pre + ta) + " " == pre + (ta + " "); }
      (pre + (ta + " ")) + (tb + post);
      { assert (pre + (ta + " ")) + (tb + post) == pre + (ta + " " + tb) + post; }
      pre + mid + post;
    }
    TrimUnique(a + " " + b, pre, mid, post);
  }

  /** A string ending in a non-whitespace character trims to everything after its leading run. */
  lemma TrimKeepsEnd(a: string)
    requires a != [] && !IsWs(a[|a| - 1])
    ensures LeadingWs(a) < |a| && Trim(a) == a[LeadingWs(a)..]
  {
    LeadingWsShort(a);
    TrimEndsAt(a, |a| - LeadingWs(a));
  }

  lemma LeadingWsShort(a: string)
    requires a != [] && !IsWs(a[|a| - 1])
    ensures LeadingWs(a) < |a|
  {
  }

  /** A string starting with a non-whitespace character is its trim followed by its trailing run. */
  lemma TrimKeepsStart(b: string)
    requires b != [] && !IsWs(b[0])
    ensures Trim(b) != [] && b == Trim(b) + b[|Trim(b)|..]
  {
    assert !IsBlank(b);
    assert LeadingWs(b) == 0;
    var r := Trim(b);
    assert r == b[..|r|];
  }

  lemma BlankConcat(a: string, b: string)
    ensures IsBlank(a + b) <==> IsBlank(a) && IsBlank(b)
  {
    if IsBlank(a) && IsBlank(b) {
      forall i | 0 <= i < |a + b| ensures IsWs((a + b)[i]) {
        if i >= |a| { assert (a + b)[i] == b[i - |a|]; }
      }
    }
    if IsBlank(a + b) {
      forall i | 0 <= i < |b| ensures IsWs(b[i]) { assert (a + b)[|a| + i] == b[i]; }
      forall i | 0 <= i < |a| ensures IsWs(a[i]) { assert (a + b)[i] == a[i]; }
    }
  }

  /** The end of the whitespace run starting at `q` (the greedy `\s+`). */
  function WsRunEnd(s: string, q: nat): (e: nat)
    requires q <= |s|
    ensures q <= e <= |s| && IsBlank(s[q..e])
    ensures e < |s| ==> !IsWs(s[e])
    decreases |s| - q
  {
    if q < |s| && IsWs(s[q]) then
      var e := WsRunEnd(s, q + 1);
      assert s[q..e] == [s[q]] + s[q + 1..e];
      e
    else q
  }

  /** Whether `pat` occurs in `s` at position `i`. */
  predicate OccursAt(s: string, i: nat, pat: string) {
    i + |pat| <= |s| && s[i..i + |pat|] == pat
  }

  /**
   * `s.replace(/pat/g, rep)` for a literal pattern: the leftmost occurrence is
   * replaced, then the search goes on after it.
   */
  function ReplaceAll(s: string, pat: string, rep: string): (r: string)
    requires pat != []
    ensures (forall i :: 0 <= i < |s| ==> !OccursAt(s, i, pat)) ==> r == s
    ensures |rep| <= |pat| ==> |r| <= |s|
    decreases |s|
  {
    if s == [] then []
    else if OccursAt(s, 0, pat) then rep + ReplaceAll(s[|pat|..], pat, rep)
    else
      var r := [s[0]] + ReplaceAll(s[1..], pat, rep);
      assert forall i :: 0 <= i < |s| - 1 && OccursAt(s[1..], i, pat) ==> OccursAt(s, i + 1, pat);
      r
  }

  /** ASCII lower case: what the `i` flag of a regular expression compares, for ASCII letters. */
  function Lower(c: char): char {
    if 'A' <= c <= 'Z' then (c as int + 32) as char else c
  }

  /** `pat` (lower case ASCII) occurs at `i` in `s`, ignoring ASCII case. */
  predicate OccursAtCI(s: string, i: nat, pat: string) {
    i + |pat| <= |s| && forall k :: 0 <= k < |pat| ==> Lower(s[i + k]) == pat[k]
  }

  /** A suffix is its first character followed by the rest. */
  lemma SliceCons(s: string, i: nat)
    requires i < |s|
    ensures s[i..] == [s[i]] + s[i + 1..]
  {
  }

  /** `xs.join(sep)`. */
  function Join(xs: seq<string>, sep: string): (r: string)
    ensures |xs| == 1 ==> r == xs[0]
    ensures xs == [] ==> r == []
  {
    if xs == [] then []
    else if |xs| == 1 then xs[0]
    else xs[0] + sep + Join(xs[1..], sep)
  }

  /** Joining a concatenation joins the two joins with one more separator. */
  lemma {:induction false} JoinAppend(xs: seq<string>, ys: seq<string>, sep: string)
    requires xs != [] && ys != []
    ensures Join(xs + ys, sep) == Join(xs, sep) + sep + Join(ys, sep)
    decreases |xs|
  {
    assert (xs + ys)[0] == xs[0];
    if |xs| == 1 {
      assert (xs + ys)[1..] == ys;
    } else {
      assert (xs + ys)[1..] == xs[1..] + ys;
      JoinAppend(xs[1..], ys, sep);
    }
  }

  /** The join starts with the first part's first character and ends with the last part's last. */
  lemma JoinEnds(xs: seq<string>, sep: string)
    requires xs != []
    ensures xs[0] != [] ==> Join(xs, sep) != [] && Join(xs, sep)[0] == xs[0][0]
    ensures xs[|xs| - 1] != [] ==>
      Join(xs, sep) != [] && Join(xs, sep)[|Join(xs, sep)| - 1] == xs[|xs| - 1][|xs[|xs| - 1]| - 1]
  {
    if |xs| > 1 {
      var last := xs[|xs| - 1];
      assert xs == xs[..|xs| - 1] + [last];
      JoinAppend(xs[..|xs| - 1], [last], sep);
    }
  }

  /** The join of two or more parts is the join of all but the last, the separator and the last. */
  lemma JoinLast(xs: seq<string>, sep: string)
    requires |xs| >= 2
    ensures Join(xs, sep) == Join(xs[..|xs| - 1], sep) + sep + xs[|xs| - 1]
  {
    assert xs == xs[..|xs| - 1] + [xs[|xs| - 1]];
    JoinAppend(xs[..|xs| - 1], [xs[|xs| - 1]], sep);
  }

  /** A blank last part does not change the trimmed join. */
  lemma TrimJoinBlankLast(xs: seq<string>, sep: string)
    requires |xs| >= 2 && IsBlank(sep) && IsBlank(xs[|xs| - 1])
    ensures Trim(Join(xs, sep)) == Trim(Join(xs[..|xs| - 1], sep))
  {
    var a := Join(xs[..|xs| - 1], sep);
    JoinLast(xs, sep);
    TrimBlankTail(a + sep, xs[|xs| - 1]);
    TrimBlankTail(a, sep);
  }

  /** A decimal digit. */
  predicate IsDigit(c: char) {
    '0' <= c <= '9'
  }

  /** `String(n)` for a non-negative integer: its decimal digits, most significant first. */
  function NatToString(n: nat): (r: string)
    ensures |r| >= 1 && forall i :: 0 <= i < |r| ==> IsDigit(r[i])
    decreases n
  {
    if n < 10 then [('0' as int + n) as char]
    else NatToString(n / 10) + [('0' as int + n % 10) as char]
  }

  /** The number a string of decimal digits denotes. */
  function DigitsValue(s: string): nat
    requires forall i :: 0 <= i < |s| ==> IsDigit(s[i])
  {
    if s == [] then 0
    else
      assert IsDigit(s[|s| - 1]);
      10 * DigitsValue(s[..|s| - 1]) + (s[|s| - 1] as int - '0' as int)
  }

  /** Reading the digits back gives the number: `String(n)` loses nothing. */
  lemma {:induction false} NatToStringRoundTrip(n: nat)
    ensures DigitsValue(NatToString(n)) == n
    decreases n
  {
    if n >= 10 {
      var r := NatToString(n);
      assert r[..|r| - 1] == NatToString(n / 10);
      NatToStringRoundTrip(n / 10);
    }
  }

  /** Distinct numbers print differently. */
  lemma NatToStringInjective(m: nat, n: nat)
    requires NatToString(m) == NatToString(n)
    ensures m == n
  {
    NatToStringRoundTrip(m);
    NatToStringRoundTrip(n);
  }
}
