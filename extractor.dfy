/**
 * The article extractor (src/services/gemini.ts): `extractTextFromHtml`, which
 * turns a fetched page into a title and plain text with a fixed chain of
 * regular expressions, and the guard and record of `extractArticle`.
 *
 * Each regular expression is modelled as an exact scanner: where a match
 * starts, where it ends, and what it captures. The `i` flag compares ASCII
 * letters without case, which is all it does for these ASCII patterns.
 */
module Extractor {
  import opened Wrappers
  import opened Types
  import opened JsText
  import Speech

  /** The first index at or after `from` holding `c`. */
  function IndexOf(s: string, c: char, from: nat): (r: Option<nat>)
    ensures r.Some? ==> from <= r.value < |s| && s[r.value] == c
    ensures r.Some? ==> forall m :: from <= m < r.value ==> s[m] != c
    ensures r.None? ==> forall m :: from <= m < |s| ==> s[m] != c
    decreases |s| - from
  {
    if from >= |s| then None
    else if s[from] == c then Some(from)
    else IndexOf(s, c, from + 1)
  }

  /** The first index at or after `from` where `pat` occurs, ignoring ASCII case. */
  function FindCI(s: string, pat: string, from: nat): (r: Option<nat>)
    ensures r.Some? ==> from <= r.value && OccursAtCI(s, r.value, pat)
    ensures r.Some? ==> forall m :: from <= m < r.value ==> !OccursAtCI(s, m, pat)
    ensures r.None? ==> forall m :: from <= m ==> !OccursAtCI(s, m, pat)
    decreases |s| - from
  {
    if from + |pat| > |s| then None
    else if OccursAtCI(s, from, pat) then Some(from)
    else FindCI(s, pat, from + 1)
  }

  /** The characters of `\w`, which decide the word boundary `\b`. */
  predicate IsWordChar(c: char) {
    ('a' <= c <= 'z') || ('A' <= c <= 'Z') || ('0' <= c <= '9') || c == '_'
  }

  // ---------------------------------------------------------------------------
  // Removing whole elements: /<tag\b[^<]*(?:(?!<\/tag>)<[^<]*)*<\/tag>/gi
  // ---------------------------------------------------------------------------

  /** The elements removed with their content, in the order they are removed. */
  const RemovedTags: seq<string> := ["script", "style", "noscript", "nav", "header", "footer", "aside"]

  /**
   * Where an element match starting at `i` ends: the opening name, a word
   * boundary after it, then everything up to and including the first closing
   * tag. The body may hold `<` anywhere except where a closing tag starts, so
   * the match ends at the first closing tag; without one there is no match.
   */
  function ElementEnd(s: string, tag: string, i: nat): (r: Option<nat>)
    ensures r.Some? ==> i < r.value <= |s|
    ensures r.Some? ==> OccursAtCI(s, i, "<" + tag) && r.value >= |tag| + 3 && OccursAtCI(s, r.value - |tag| - 3, "</" + tag + ">")
  {
    var open := "<" + tag;
    var close := "</" + tag + ">";
    if !OccursAtCI(s, i, open) then None
    else if i + |open| < |s| && IsWordChar(s[i + |open|]) then None
    else match FindCI(s, close, i + |open|)
      case None => None
      case Some(k) => Some(k + |close|)
  }

  /** The global replacement of element matches by one space, scanning from `i`. */
  function RemoveFrom(s: string, tag: string, i: nat): (r: string)
    requires i <= |s|
    ensures |r| <= |s| - i
    ensures (forall m :: i <= m < |s| ==> ElementEnd(s, tag, m).None?) ==> r == s[i..]
    decreases |s| - i
  {
    if i == |s| then []
    else match ElementEnd(s, tag, i)
      case Some(e) => " " + RemoveFrom(s, tag, e)
      case None =>
        var r := [s[i]] + RemoveFrom(s, tag, i + 1);
        SliceCons(s, i);
        r
  }

  /** `s.replace(<element regex for tag>, " ")` */
  function RemoveElements(s: string, tag: string): (r: string)
    ensures |r| <= |s|
  {
    RemoveFrom(s, tag, 0)
  }

  /** The seven removals of `extractTextFromHtml`, in order. */
  function RemoveAll(s: string, tags: seq<string>): (r: string)
    ensures |r| <= |s|
    decreases |tags|
  {
    if tags == [] then s else RemoveAll(RemoveElements(s, tags[0]), tags[1..])
  }

  // ---------------------------------------------------------------------------
  // Captures: /<title[^>]*>([^<]+)<\/title>/i and /<tag[^>]*>([\s\S]*?)<\/tag>/i
  // ---------------------------------------------------------------------------

  /** The two capturing expressions: the page title and a block element. */
  datatype Pattern = TitlePattern | BlockPattern(tag: string)

  function Close(p: Pattern): string {
    match p
    case TitlePattern => "</title>"
    case BlockPattern(tag) => "</" + tag + ">"
  }

  /**
   * The capture of a match starting at `i`. For the title: the opening name,
   * the first `>`, then a non-empty run without `<` that must be followed by
   * the closing tag. For a block: the opening name, the first `>`, then the
   * shortest run up to a closing tag.
   */
  function CaptureAt(p: Pattern, s: string, i: nat): Option<string> {
    match p
    case TitlePattern => TitleCaptureAt(s, i)
    case BlockPattern(tag) => BlockCaptureAt(s, tag, i)
  }

  function TitleCaptureAt(s: string, i: nat): (r: Option<string>)
    ensures r.Some? ==> r.value != [] && forall m :: 0 <= m < |r.value| ==> r.value[m] != '<'
  {
    if !OccursAtCI(s, i, "<title") then None
    else
      match IndexOf(s, '>', i + 6)
      case None => None
      case Some(j) =>
        match IndexOf(s, '<', j + 1)
        case None => None
        case Some(k) =>
          if k > j + 1 && OccursAtCI(s, k, "</title>") then Some(s[j + 1..k]) else None
  }

  function BlockCaptureAt(s: string, tag: string, i: nat): (r: Option<string>)
    ensures r.Some? ==> forall m: nat :: !OccursAtCI(r.value, m, "</" + tag + ">")
  {
    var close := "</" + tag + ">";
    if !OccursAtCI(s, i, "<" + tag) then None
    else
      match IndexOf(s, '>', i + 1 + |tag|)
      case None => None
      case Some(j) =>
        match FindCI(s, close, j + 1)
        case None => None
        case Some(k) =>
          var c := s[j + 1..k];
          assert forall m: nat :: !OccursAtCI(c, m, close) by {
            forall m: nat ensures !OccursAtCI(c, m, close) {
              if m + |close| <= |c| {
                assert !OccursAtCI(s, j + 1 + m, close);
                var t :| 0 <= t < |close| && Lower(s[j + 1 + m + t]) != close[t];
                assert c[m + t] == s[j + 1 + m + t];
              }
            }
          }
          Some(c)
  }

  /** The capture of a match at each position of `s`. */
  function Captures(p: Pattern, s: string): (caps: seq<Option<string>>)
    ensures |caps| == |s|
  {
    seq(|s|, m requires 0 <= m < |s| => CaptureAt(p, s, m))
  }

  /** The leftmost position at or after `from` holding a capture. */
  function FirstSome(caps: seq<Option<string>>, from: nat): (r: Option<nat>)
    ensures r.Some? ==> from <= r.value < |caps| && caps[r.value].Some?
    ensures r.Some? ==> forall m :: from <= m < r.value ==> caps[m].None?
    ensures r.None? ==> forall m :: from <= m < |caps| ==> caps[m].None?
    decreases |caps| - from
  {
    if from >= |caps| then None
    else if caps[from].Some? then Some(from)
    else FirstSome(caps, from + 1)
  }

  /** The leftmost position at or after `from` where a match starts. */
  function FirstMatch(p: Pattern, s: string, from: nat): (r: Option<nat>)
    ensures r.Some? ==> from <= r.value < |s| && CaptureAt(p, s, r.value).Some?
    ensures r.Some? ==> forall m :: from <= m < r.value ==> CaptureAt(p, s, m).None?
    ensures r.None? ==> forall m :: from <= m < |s| ==> CaptureAt(p, s, m).None?
  {
    var caps := Captures(p, s);
    var r := FirstSome(caps, from);
    assert forall m :: 0 <= m < |s| ==> caps[m] == CaptureAt(p, s, m);
    r
  }

  /** `s.match(re)?.[1]`: the capture of the leftmost match. */
  function Match(p: Pattern, s: string): Option<string> {
    match FirstMatch(p, s, 0)
    case None => None
    case Some(i) => CaptureAt(p, s, i)
  }

  /** The title: the trimmed capture of the first `<title>` match, or "Untitled". */
  function Title(html: string): (t: string)
    ensures Trimmed(t)
  {
    match Match(TitlePattern, html)
    case Some(c) => Trim(c)
    case None => "Untitled"
  }

  /** The title comes from the leftmost `<title>` match. */
  lemma TitleIsFirstMatch(html: string, i: nat)
    requires CaptureAt(TitlePattern, html, i).Some?
    requires forall m :: 0 <= m < i ==> CaptureAt(TitlePattern, html, m).None?
    ensures Title(html) == Trim(CaptureAt(TitlePattern, html, i).value)
  {
    var here := CaptureAt(TitlePattern, html, i);
    assert i < |html| by { assert TitleCaptureAt(html, i) == here; }
    var r := FirstMatch(TitlePattern, html, 0);
    assert r.Some? && r.value == i;
    assert Match(TitlePattern, html) == here;
  }

  /** Without a `<title>` match the title is "Untitled". */
  lemma TitleDefault(html: string)
    requires forall m :: 0 <= m < |html| ==> CaptureAt(TitlePattern, html, m).None?
    ensures Title(html) == "Untitled"
  {
  }

  /**
   * `articleMatch?.[1] || mainMatch?.[1] || cleaned`: the first `<article>`
   * capture unless it is missing or empty, then the first `<main>` capture on
   * the same terms, then the whole cleaned page.
   */
  function SelectContent(cleaned: string): (r: string)
    ensures var a := Match(BlockPattern("article"), cleaned);
      a.Some? && a.value != [] ==> r == a.value
    ensures var a := Match(BlockPattern("article"), cleaned); var m := Match(BlockPattern("main"), cleaned);
      (a.None? || a.value == []) && m.Some? && m.value != [] ==> r == m.value
    ensures var a := Match(BlockPattern("article"), cleaned); var m := Match(BlockPattern("main"), cleaned);
      (a.None? || a.value == []) && (m.None? || m.value == []) ==> r == cleaned
  {
    var a := Match(BlockPattern("article"), cleaned);
    var m := Match(BlockPattern("main"), cleaned);
    if a.Some? && a.value != [] then a.value
    else if m.Some? && m.value != [] then m.value
    else cleaned
  }

  // ---------------------------------------------------------------------------
  // Tag stripping: /<[^>]+>/g
  // ---------------------------------------------------------------------------

  /** A tag starts at `i`: `<`, then at least one character before the first `>`. */
  predicate TagAt(s: string, i: nat) {
    i < |s| && s[i] == '<' && IndexOf(s, '>', i + 1).Some? && IndexOf(s, '>', i + 1).value >= i + 2
  }

  /** No tag remains. */
  predicate NoTag(s: string) {
    forall i :: 0 <= i < |s| ==> !TagAt(s, i)
  }

  /** The global replacement of tags by one space, scanning from `i`. */
  function StripFrom(s: string, i: nat): (r: string)
    requires i <= |s|
    ensures |r| <= |s| - i
    ensures i < |s| && s[i] != '<' ==> r != [] && r[0] == s[i]
    ensures (forall m :: i <= m < |s| ==> s[m] != '>') ==> r == s[i..]
    decreases |s| - i
  {
    if i == |s| then []
    else if TagAt(s, i) then " " + StripFrom(s, IndexOf(s, '>', i + 1).value + 1)
    else
      var r := [s[i]] + StripFrom(s, i + 1);
      SliceCons(s, i);
      r
  }

  /** `s.replace(/<[^>]+>/g, " ")` */
  function StripTags(s: string): (r: string)
    ensures |r| <= |s|
    ensures (forall m :: 0 <= m < |s| ==> s[m] != '>') ==> r == s
  {
    StripFrom(s, 0)
  }

  /** Putting a character in front shifts every search by one. */
  lemma {:induction false} IndexOfCons(x: char, s: string, c: char, from: nat)
    ensures IndexOf([x] + s, c, from + 1) ==
      (match IndexOf(s, c, from) case None => None case Some(j) => Some(j + 1))
    decreases |s| - from
  {
    if from < |s| {
      assert ([x] + s)[from + 1] == s[from];
      if s[from] != c {
        IndexOfCons(x, s, c, from + 1);
      }
    }
  }

  /** A tag in `[x] + s` past the first character is a tag in `s`. */
  lemma TagAtCons(x: char, s: string, i: nat)
    ensures TagAt([x] + s, i + 1) <==> TagAt(s, i)
  {
    IndexOfCons(x, s, '>', i + 1);
    if i < |s| {
      assert ([x] + s)[i + 1] == s[i];
    }
  }

  /** After stripping, no tag remains. */
  lemma {:induction false} StripLeavesNoTag(s: string, i: nat)
    requires i <= |s|
    ensures NoTag(StripFrom(s, i))
    decreases |s| - i
  {
    if i < |s| {
      var r := StripFrom(s, i);
      var x := if TagAt(s, i) then ' ' else s[i];
      var next := if TagAt(s, i) then IndexOf(s, '>', i + 1).value + 1 else i + 1;
      var rest := StripFrom(s, next);
      StripLeavesNoTag(s, next);
      assert r == [x] + rest;
      forall m | 0 <= m < |r| ensures !TagAt(r, m) {
        if m > 0 {
          TagAtCons(x, rest, m - 1);
        } else if x == '<' {
          IndexOfCons(x, rest, '>', 0);
          match IndexOf(s, '>', i + 1)
          case None =>
            assert rest == s[i + 1..];
            assert IndexOf(rest, '>', 0).None?;
          case Some(j) =>
            assert j == i + 1;
            assert rest[0] == '>';
        }
      }
    }
  }

  // ---------------------------------------------------------------------------
  // Entities
  // ---------------------------------------------------------------------------

  /** The entity replacements, applied one after another in this order. */
  const Entities: seq<(string, string)> := [
    ("&nbsp;", " "), ("&amp;", "&"), ("&lt;", "<"), ("&gt;", ">"),
    ("&quot;", "\""), ("&#39;", "'"), ("&rsquo;", "'"), ("&lsquo;", "'"),
    ("&rdquo;", "\""), ("&ldquo;", "\""), ("&mdash;", "\U{2014}"), ("&ndash;", "\U{2013}")
  ]

  /** Every replacement has a non-empty pattern starting with `&` and a shorter replacement. */
  predicate EntityList(es: seq<(string, string)>) {
    forall k :: 0 <= k < |es| ==> es[k].0 != [] && es[k].0[0] == '&' && |es[k].1| <= |es[k].0|
  }

  /** The replacements applied in order. */
  function DecodeWith(s: string, es: seq<(string, string)>): (r: string)
    requires EntityList(es)
    ensures |r| <= |s|
    ensures (forall m :: 0 <= m < |s| ==> s[m] != '&') ==> r == s
    decreases |es|
  {
    if es == [] then s
    else
      assert forall m :: 0 <= m < |s| && OccursAt(s, m, es[0].0) ==> s[m] == '&' by {
        forall m | 0 <= m < |s| && OccursAt(s, m, es[0].0) ensures s[m] == '&' {
          assert s[m..m + |es[0].0|][0] == s[m];
        }
      }
      DecodeWith(ReplaceAll(s, es[0].0, es[0].1), es[1..])
  }

  function DecodeEntities(s: string): (r: string)
    ensures |r| <= |s|
    ensures (forall m :: 0 <= m < |s| ==> s[m] != '&') ==> r == s
  {
    DecodeWith(s, Entities)
  }

  /** `&amp;` is decoded before `&lt;`, so a double-escaped `&amp;lt;` ends as `<`. */
  lemma DoubleEscapedLessThan()
    ensures DecodeEntities("&amp;lt;") == "<"
  {
    EntitiesFrom(0);
    assert Entities[0..] == Entities;
    DecodeStep("&amp;lt;", 0);
    NbspAbsent();
    AmpDecoded();
  }

  /** From `&amp;` on, `&amp;lt;` decodes to `<`. */
  lemma AmpDecoded()
    ensures EntityList(Entities[1..]) && DecodeWith("&amp;lt;", Entities[1..]) == "<"
  {
    DecodeStep("&amp;lt;", 1);
    AmpFirst();
    LtDecoded();
  }

  /** From `&lt;` on, `&lt;` decodes to `<`. */
  lemma LtDecoded()
    ensures EntityList(Entities[2..]) && DecodeWith("&lt;", Entities[2..]) == "<"
  {
    DecodeStep("&lt;", 2);
    LtSecond();
    DecodeRest("<");
  }

  lemma EntitiesFrom(k: nat)
    requires k <= |Entities|
    ensures EntityList(Entities[k..])
  {
    assert forall i :: 0 <= i < |Entities| - k ==> Entities[k..][i] == Entities[k + i];
  }

  /** Decoding from the `k`-th replacement on applies that one, then the rest. */
  lemma DecodeStep(s: string, k: nat)
    requires k < |Entities|
    ensures EntityList(Entities[k..]) && EntityList(Entities[k + 1..])
    ensures DecodeWith(s, Entities[k..]) ==
      DecodeWith(ReplaceAll(s, Entities[k].0, Entities[k].1), Entities[k + 1..])
  {
    EntitiesFrom(k);
    EntitiesFrom(k + 1);
    assert Entities[k..][0] == Entities[k];
    assert Entities[k..][1..] == Entities[k + 1..];
  }

  /** A text without `&` is left alone by the replacements after `&lt;`. */
  lemma DecodeRest(s: string)
    requires forall m :: 0 <= m < |s| ==> s[m] != '&'
    ensures EntityList(Entities[3..]) && DecodeWith(s, Entities[3..]) == s
  {
    EntitiesFrom(3);
  }

  lemma NbspAbsent()
    ensures ReplaceAll("&amp;lt;", "&nbsp;", " ") == "&amp;lt;"
  {
    var s0 := "&amp;lt;";
    forall m | 0 <= m < |s0| ensures !OccursAt(s0, m, "&nbsp;") {
      if m + 6 <= |s0| {
        assert s0[m..m + 6][1] == s0[m + 1] != "&nbsp;"[1];
      }
    }
  }

  lemma AmpFirst()
    ensures ReplaceAll("&amp;lt;", "&amp;", "&") == "&lt;"
  {
    var s0 := "&amp;lt;";
    assert OccursAt(s0, 0, "&amp;") by { assert s0[0..5] == "&amp;"; }
    assert s0[5..] == "lt;";
    var t := "lt;";
    forall m | 0 <= m < |t| ensures !OccursAt(t, m, "&amp;") { }
  }

  lemma LtSecond()
    ensures ReplaceAll("&lt;", "&lt;", "<") == "<"
  {
    var s1 := "&lt;";
    assert OccursAt(s1, 0, "&lt;") by { assert s1[0..4] == "&lt;"; }
    assert s1[4..] == [];
  }

  // ---------------------------------------------------------------------------
  // Whitespace: .replace(/\s+/g, " ").trim()
  // ---------------------------------------------------------------------------

  /** Every whitespace character is a plain space. */
  predicate SpacesOnly(s: string) {
    forall m :: 0 <= m < |s| && IsWs(s[m]) ==> s[m] == ' '
  }

  /** No two whitespace characters are adjacent. */
  predicate NoDoubleWs(s: string) {
    forall m :: 0 <= m < |s| - 1 ==> !(IsWs(s[m]) && IsWs(s[m + 1]))
  }

  /** The global replacement of whitespace runs by one space, scanning from `i`. */
  function CollapseFrom(s: string, i: nat): (r: string)
    requires i <= |s|
    ensures |r| <= |s| - i
    ensures i < |s| ==> r != [] && r[0] == (if IsWs(s[i]) then ' ' else s[i])
    ensures SpacesOnly(r) && NoDoubleWs(r)
    decreases |s| - i
  {
    if i == |s| then []
    else if IsWs(s[i]) then
      var rest := CollapseFrom(s, WsRunEnd(s, i));
      var r := " " + rest;
      assert forall m :: 1 <= m < |r| ==> r[m] == rest[m - 1];
      r
    else
      var rest := CollapseFrom(s, i + 1);
      var r := [s[i]] + rest;
      assert forall m :: 1 <= m < |r| ==> r[m] == rest[m - 1];
      r
  }

  /** The cleaned text: whitespace runs collapsed to one space, then trimmed. */
  function Normalize(s: string): (r: string)
    ensures Trimmed(r) && SpacesOnly(r) && NoDoubleWs(r)
    ensures |r| <= |s|
  {
    var c := CollapseFrom(s, 0);
    var r := Trim(c);
    var a := LeadingWs(c);
    assert forall m :: 0 <= m < |r| ==> r[m] == c[a + m];
    r
  }

  // ---------------------------------------------------------------------------
  // Paragraphs: .split(/\.\s+/).filter((p) => p.length > 50).join(". ")
  // ---------------------------------------------------------------------------

  /** The separator `\.\s+` starts at `q`. */
  predicate DotAt(s: string, q: nat) {
    q + 1 < |s| && s[q] == '.' && IsWs(s[q + 1])
  }

  lemma NoDoubleWsSlice(s: string, a: nat, b: nat)
    requires a <= b <= |s|
    ensures NoDoubleWs(s) ==> NoDoubleWs(s[a..b])
  {
    if NoDoubleWs(s) {
      forall m | 0 <= m < b - a - 1 ensures !(IsWs(s[a..b][m]) && IsWs(s[a..b][m + 1])) {
        assert s[a..b][m] == s[a + m] && s[a..b][m + 1] == s[a + m + 1];
      }
    }
  }

  /** `s.split(/\.\s+/)` continued from a piece starting at `p`, the search standing at `q`. */
  function SplitDotFrom(s: string, p: nat, q: nat): (r: seq<string>)
    requires p <= q <= |s|
    ensures |r| >= 1
    ensures NoDoubleWs(s) ==> forall k :: 0 <= k < |r| ==> NoDoubleWs(r[k])
    decreases |s| - q
  {
    if q == |s| then
      NoDoubleWsSlice(s, p, |s|);
      [s[p..]]
    else if DotAt(s, q) then
      NoDoubleWsSlice(s, p, q);
      [s[p..q]] + SplitDotFrom(s, WsRunEnd(s, q + 1), WsRunEnd(s, q + 1))
    else SplitDotFrom(s, p, q + 1)
  }

  function SplitPeriods(s: string): (r: seq<string>)
    ensures |r| >= 1
    ensures NoDoubleWs(s) ==> forall k :: 0 <= k < |r| ==> NoDoubleWs(r[k])
  {
    SplitDotFrom(s, 0, 0)
  }

  /** On cleaned text every separator is exactly ". ", so joining with ". " undoes the split. */
  lemma {:induction false} SplitDotJoin(s: string, p: nat, q: nat)
    requires p <= q <= |s|
    requires SpacesOnly(s) && NoDoubleWs(s)
    ensures Join(SplitDotFrom(s, p, q), ". ") == s[p..]
    decreases |s| - q
  {
    if q < |s| {
      if DotAt(s, q) {
        var e := WsRunEnd(s, q + 1);
        assert e == q + 2 by {
          if q + 2 < |s| {
            assert !IsWs(s[q + 2]);
          }
        }
        var rest := SplitDotFrom(s, e, e);
        SplitDotJoin(s, e, e);
        assert ([s[p..q]] + rest)[1..] == rest;
        assert s[q..q + 2] == ". ";
        assert s[p..] == s[p..q] + ". " + s[q + 2..];
      } else {
        SplitDotJoin(s, p, q + 1);
      }
    }
  }

  lemma SplitPeriodsJoin(s: string)
    requires SpacesOnly(s) && NoDoubleWs(s)
    ensures Join(SplitPeriods(s), ". ") == s
  {
    SplitDotJoin(s, 0, 0);
  }

  /** `.filter((p) => p.length > 50)` */
  function Keep(ps: seq<string>): (r: seq<string>)
    ensures |r| <= |ps|
    ensures forall x :: x in r <==> x in ps && |x| > 50
  {
    if ps == [] then []
    else
      var rest := Keep(ps[1..]);
      assert forall x :: x in ps <==> x == ps[0] || x in ps[1..];
      if |ps[0]| > 50 then [ps[0]] + rest else rest
  }

  /** The filter works piece by piece and keeps the order. */
  lemma {:induction false} KeepAppend(a: seq<string>, b: seq<string>)
    ensures Keep(a + b) == Keep(a) + Keep(b)
  {
    if a == [] {
      assert a + b == b;
    } else {
      assert (a + b)[0] == a[0];
      assert (a + b)[1..] == a[1..] + b;
      KeepAppend(a[1..], b);
    }
  }

  /** The paragraphs of cleaned text, or the text itself when no fragment is long enough. */
  function Content(text: string): string {
    var paragraphs := Join(Keep(SplitPeriods(text)), ". ");
    if paragraphs != [] then paragraphs else text
  }

  /**
   * When no fragment is longer than 50 characters the content is the text
   * itself; otherwise it is the long fragments joined by ". ".
   */
  lemma ContentFallback(text: string)
    ensures Keep(SplitPeriods(text)) == [] ==> Content(text) == text
    ensures Keep(SplitPeriods(text)) != [] ==> Content(text) == Join(Keep(SplitPeriods(text)), ". ")
  {
    var kept := Keep(SplitPeriods(text));
    if kept != [] {
      assert kept[0] in kept;
      JoinEnds(kept, ". ");
    }
  }

  /** A string of two or more characters without two adjacent whitespace characters is not blank. */
  lemma NotBlankWhenLong(s: string)
    requires |s| >= 2 && NoDoubleWs(s)
    ensures !IsBlank(s)
  {
    assert !(IsWs(s[0]) && IsWs(s[1]));
  }

  /** Non-empty content of cleaned text is never blank. */
  lemma ContentNonBlank(text: string)
    requires Trimmed(text) && NoDoubleWs(text)
    ensures Content(text) != [] ==> !IsBlank(Content(text))
  {
    var ps := SplitPeriods(text);
    var kept := Keep(ps);
    if kept != [] {
      assert kept[0] in kept;
      NotBlankWhenLong(kept[0]);
      if |kept| > 1 {
        assert Join(kept, ". ") == kept[0] + (". " + Join(kept[1..], ". "));
        BlankConcat(kept[0], ". " + Join(kept[1..], ". "));
      }
    }
  }

  // ---------------------------------------------------------------------------
  // extractTextFromHtml and extractArticle
  // ---------------------------------------------------------------------------

  /** What `extractTextFromHtml` returns. */
  datatype Extracted = Extracted(title: string, content: string)

  /** The cleaned text of the chosen part of the page. */
  function CleanText(html: string): (r: string)
    ensures Trimmed(r) && SpacesOnly(r) && NoDoubleWs(r)
  {
    var cleaned := RemoveAll(html, RemovedTags);
    Normalize(DecodeEntities(StripTags(SelectContent(cleaned))))
  }

  /**
   * `extractTextFromHtml`: a trimmed title; as content, the fragments of the
   * cleaned text longer than 50 characters joined by ". ", or the cleaned text
   * itself when there are none; content that is not empty is not blank either.
   */
  function ExtractTextFromHtml(html: string): (r: Extracted)
    ensures Trimmed(r.title) && r.title == Title(html)
    ensures Keep(SplitPeriods(CleanText(html))) == [] ==> r.content == CleanText(html)
    ensures Keep(SplitPeriods(CleanText(html))) != [] ==>
      r.content == Join(Keep(SplitPeriods(CleanText(html))), ". ")
    ensures r.content != [] ==> !IsBlank(r.content)
  {
    var text := CleanText(html);
    ContentFallback(text);
    ContentNonBlank(text);
    Extracted(Title(html), Content(text))
  }

  /** How fetching the page ended. */
  datatype FetchOutcome = Response(ok: bool, status: int, body: string) | NetworkFailure(message: string)

  /** Why `extractArticle` threw. */
  datatype ExtractError =
    | FetchFailed(status: int)       // "Failed to fetch URL: <status>"
    | FetchError(message: string)    // the error `fetch` itself threw
    | NoContent                      // "Could not extract article content from this URL"

  /** The least content length `extractArticle` accepts. */
  const MinContentLength: nat := 100

  /**
   * `extractArticle(url)` once the page is fetched: a failed fetch is passed
   * on, content shorter than 100 characters is refused, and otherwise the
   * article carries the extractor's title and content and the given url.
   */
  function ExtractArticle(url: string, fetched: FetchOutcome): (r: Result<Article, ExtractError>)
    ensures fetched.NetworkFailure? ==> r == Failure(FetchError(fetched.message))
    ensures fetched.Response? && !fetched.ok ==> r == Failure(FetchFailed(fetched.status))
    ensures fetched.Response? && fetched.ok ==>
      (r.Success? <==> |ExtractTextFromHtml(fetched.body).content| >= MinContentLength)
    ensures r.Failure? && fetched.Response? && fetched.ok ==> r.error == NoContent
    ensures r.Success? ==> fetched.Response? && fetched.ok
    ensures r.Success? ==> r.value.url == url && |r.value.content| >= MinContentLength
    ensures r.Success? ==> r.value.title == Title(fetched.body)
    ensures r.Success? ==> r.value.content == ExtractTextFromHtml(fetched.body).content
    ensures r.Success? ==> r.value.author.None? && r.value.language.None?
    // an extracted article always has something to read
    ensures r.Success? ==> |Speech.Chunks(r.value.content)| > 0
  {
    match fetched
    case NetworkFailure(message) => Failure(FetchError(message))
    case Response(ok, status, body) =>
      if !ok then Failure(FetchFailed(status))
      else
        var e := ExtractTextFromHtml(body);
        if |e.content| < MinContentLength then Failure(NoContent)
        else
          ContentNonBlank(CleanText(body));
          Speech.ChunksEmptyIffBlank(e.content);
          Success(Article(e.title, None, e.content, url, None))
  }
}
