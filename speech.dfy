/**
 * The on-device speech service (src/services/speech.ts): the sentence chunker
 * `splitIntoChunks` and the completion contract of `speak`.
 */
module Speech {
  import opened Wrappers
  import opened Types
  import opened JsText

  /** `CHUNK_SIZE`: the character budget the chunker packs sentences into. */
  const ChunkSize: nat := 500

  predicate IsTerminator(c: char) {
    c == '.' || c == '!' || c == '?'
  }

  /** A position where the separator `(?<=[.!?])\s+` starts: whitespace right after a terminator. */
  predicate BoundaryAt(s: string, q: nat) {
    0 < q < |s| && IsTerminator(s[q - 1]) && IsWs(s[q])
  }

  /**
   * The shape of a split of `s` whose first piece starts at `p`: at least one
   * piece, the first a slice of `s` from `p` (all of `s[p..]` when it is the
   * only one); every piece but the last ends with a terminator; every piece
   * after the first is empty or starts with a non-whitespace character.
   */
  predicate SplitShape(s: string, p: nat, r: seq<string>)
    requires p <= |s|
  {
    && |r| >= 1
    && p + |r[0]| <= |s| && r[0] == s[p..p + |r[0]|]
    && (|r| == 1 ==> r[0] == s[p..])
    && (forall k :: 0 <= k < |r| - 1 ==> r[k] != [] && IsTerminator(r[k][|r[k]| - 1]))
    && (forall k :: 1 <= k < |r| ==> r[k] == [] || !IsWs(r[k][0]))
  }

  /** `s.split(/(?<=[.!?])\s+/)` continued from a piece starting at `p`, the search standing at `q`. */
  function SplitFrom(s: string, p: nat, q: nat): (r: seq<string>)
    requires p <= q <= |s|
    requires p == 0 || IsWs(s[p - 1])
    ensures SplitShape(s, p, r)
    decreases |s| - q
  {
    if q == |s| then
      assert s[p..p + |s[p..]|] == s[p..];
      [s[p..]]
    else if BoundaryAt(s, q) then
      var e := WsRunEnd(s, q);
      assert IsWs(s[e - 1]) by { assert s[q..e][e - 1 - q] == s[e - 1]; }
      var rest := SplitFrom(s, e, e);
      ConsPiece(s, p, q, e, rest);
      [s[p..q]] + rest
    else SplitFrom(s, p, q + 1)
  }

  lemma TerminatorNotWs(c: char)
    requires IsTerminator(c)
    ensures !IsWs(c)
  {
  }

  /** The piece before a boundary, put in front of the split after the whitespace run. */
  lemma ConsPiece(s: string, p: nat, q: nat, e: nat, rest: seq<string>)
    requires p <= q < e <= |s| && BoundaryAt(s, q)
    requires p == 0 || IsWs(s[p - 1])
    requires e < |s| ==> !IsWs(s[e])
    requires SplitShape(s, e, rest)
    ensures SplitShape(s, p, [s[p..q]] + rest)
  {
    TerminatorNotWs(s[q - 1]);
    var piece := s[p..q];
    assert piece != [] && piece[|piece| - 1] == s[q - 1];
    assert rest[0] == [] || rest[0][0] == s[e];
    var r := [piece] + rest;
    assert r[0] == piece;
    assert forall k :: 1 <= k < |r| ==> r[k] == rest[k - 1];
  }

  /**
   * The pieces `r` tile `s[p..]`: each piece is the slice that starts where the
   * previous whitespace run ended, the last one runs to the end of `s`, and
   * between two pieces lies a non-empty, maximal whitespace run. So
   * `s[p..] == r[0] + gap0 + r[1] + gap1 + ... + r[|r| - 1]` with blank gaps.
   */
  predicate Tiles(s: string, p: nat, r: seq<string>)
    requires p <= |s|
    decreases |s| - p, |r|
  {
    && |r| >= 1
    && p + |r[0]| <= |s| && r[0] == s[p..p + |r[0]|]
    && if |r| == 1 then p + |r[0]| == |s|
       else
         var b := p + |r[0]|;
         b < |s| && IsWs(s[b]) && Tiles(s, WsRunEnd(s, b), r[1..])
  }

  /** The split from `p` tiles `s[p..]`: no character of the text is lost or reordered. */
  lemma {:induction false} SplitFromTiles(s: string, p: nat, q: nat)
    requires p <= q <= |s|
    requires p == 0 || IsWs(s[p - 1])
    ensures Tiles(s, p, SplitFrom(s, p, q))
    decreases |s| - q
  {
    if q == |s| {
    } else if BoundaryAt(s, q) {
      var e := WsRunEnd(s, q);
      assert IsWs(s[e - 1]) by { assert s[q..e][e - 1 - q] == s[e - 1]; }
      SplitFromTiles(s, e, e);
      var r := SplitFrom(s, p, q);
      assert r == [s[p..q]] + SplitFrom(s, e, e);
      assert r[1..] == SplitFrom(s, e, e);
    } else {
      SplitFromTiles(s, p, q + 1);
    }
  }

  /** The sentences `text.split(/(?<=[.!?])\s+/)` yields; `[""]` for the empty text. */
  function Sentences(text: string): (r: seq<string>)
    ensures |r| >= 1
  {
    SplitFrom(text, 0, 0)
  }

  /** Every sentence but the last holds a non-whitespace character. */
  predicate WellFormed(ps: seq<string>) {
    forall k :: 0 <= k < |ps| - 1 ==> !IsBlank(ps[k])
  }

  lemma SentencesTile(text: string)
    ensures Tiles(text, 0, Sentences(text))
  {
    SplitFromTiles(text, 0, 0);
  }

  lemma SentencesWellFormed(text: string)
    ensures WellFormed(Sentences(text))
    ensures !IsBlank(text) ==> !IsBlank(Sentences(text)[0])
  {
    var ps := Sentences(text);
    forall k | 0 <= k < |ps| - 1 ensures !IsBlank(ps[k]) {
      assert !IsWs(ps[k][|ps[k]| - 1]);
    }
  }

  /** `currentChunk += (currentChunk ? " " : "") + sentence` */
  function Append(current: string, sentence: string): string {
    current + (if current != [] then " " else []) + sentence
  }

  /** The buffer the loop builds from a run of sentences. */
  function Glue(group: seq<string>): string {
    if group == [] then [] else Append(Glue(group[..|group| - 1]), group[|group| - 1])
  }

  /** The concatenation of a sequence of groups. */
  function Flatten(groups: seq<seq<string>>): seq<string> {
    if groups == [] then [] else Flatten(groups[..|groups| - 1]) + groups[|groups| - 1]
  }

  /** The groups already flushed and the group in the buffer. */
  datatype Packing = Packing(closed: seq<seq<string>>, open: seq<string>)

  /**
   * The grouping the loop of `splitIntoChunks` makes of a sentence sequence:
   * a sentence starts a new group exactly when the buffer is non-empty and the
   * buffer's length plus the sentence's exceeds `CHUNK_SIZE`.
   */
  function Pack(ps: seq<string>): Packing {
    if ps == [] then Packing([], []) else Step(Pack(ps[..|ps| - 1]), ps[|ps| - 1])
  }

  /** One iteration of the loop: sentence `s` arrives at the buffer. */
  function Step(pk: Packing, s: string): Packing {
    var current := Glue(pk.open);
    if |current| + |s| > ChunkSize && current != [] then Packing(pk.closed + [pk.open], [s])
    else Packing(pk.closed, pk.open + [s])
  }

  /** The groups that become chunks: every flushed group, and the last buffer unless it is blank. */
  function Select(pk: Packing): seq<seq<string>> {
    if IsBlank(Glue(pk.open)) then pk.closed else pk.closed + [pk.open]
  }

  function Groups(text: string): seq<seq<string>> {
    Select(Pack(Sentences(text)))
  }

  /** Each group's buffer, trimmed. */
  function Render(groups: seq<seq<string>>): seq<string> {
    seq(|groups|, j requires 0 <= j < |groups| => Trim(Glue(groups[j])))
  }

  /** What `splitIntoChunks(text)` returns. */
  function Chunks(text: string): seq<string> {
    Render(Groups(text))
  }

  lemma GlueSnoc(group: seq<string>, s: string)
    ensures Glue(group + [s]) == Append(Glue(group), s)
  {
    assert (group + [s])[..|group|] == group;
  }

  lemma RenderSnoc(groups: seq<seq<string>>, g: seq<string>)
    ensures Render(groups + [g]) == Render(groups) + [Trim(Glue(g))]
  {
    var r := Render(groups + [g]);
    assert forall j :: 0 <= j < |groups| ==> r[j] == Render(groups)[j];
  }

  /** One step of the packing: what happens to the buffer when sentence `s` arrives. */
  lemma PackSnoc(ps: seq<string>, s: string)
    ensures Pack(ps + [s]) == Step(Pack(ps), s)
  {
    assert (ps + [s])[..|ps|] == ps;
  }

  lemma PackPrefix(ps: seq<string>, i: nat)
    requires i < |ps|
    ensures Pack(ps[..i + 1]) == Step(Pack(ps[..i]), ps[i])
  {
    assert ps[..i + 1][..i] == ps[..i];
  }

  /** `splitIntoChunks`: the loop over the sentences, pushing trimmed buffers. */
  method SplitIntoChunks(text: string) returns (chunks: seq<string>)
    ensures chunks == Chunks(text)
  {
    chunks := [];
    var sentences := Sentences(text);
    var current := "";
    for i := 0 to |sentences|
      invariant chunks == Render(Pack(sentences[..i]).closed)
      invariant current == Glue(Pack(sentences[..i]).open)
    {
      var sentence := sentences[i];
      ghost var prev := Pack(sentences[..i]);
      PackPrefix(sentences, i);
      if |current| + |sentence| > ChunkSize && current != "" {
        assert Step(prev, sentence) == Packing(prev.closed + [prev.open], [sentence]);
        RenderSnoc(prev.closed, prev.open);
        GlueSnoc([], sentence);
        chunks := chunks + [Trim(current)];
        current := sentence;
      } else {
        assert Step(prev, sentence) == Packing(prev.closed, prev.open + [sentence]);
        GlueSnoc(prev.open, sentence);
        current := current + (if current != "" then " " else "") + sentence;
      }
    }
    assert sentences[..|sentences|] == sentences;
    ghost var pk := Pack(sentences);
    if Trim(current) != "" {
      RenderSnoc(pk.closed, pk.open);
      chunks := chunks + [Trim(current)];
    }
  }

  lemma FlattenSnoc(groups: seq<seq<string>>, g: seq<string>)
    ensures Flatten(groups + [g]) == Flatten(groups) + g
  {
    var r := Render(groups + [g]);
    assert forall j :: 0 <= j < |groups| ==> r[j] == Render(groups)[j];
  }

  /** A buffer is blank exactly when every sentence in it is. */
  lemma {:induction false} GlueBlank(group: seq<string>)
    ensures IsBlank(Glue(group)) <==> forall k :: 0 <= k < |group| ==> IsBlank(group[k])
  {
    if group != [] {
      var init := group[..|group| - 1];
      var s := group[|group| - 1];
      GlueBlank(init);
      var sp: string := if Glue(init) != [] then " " else [];
      assert Glue(group) == Glue(init) + sp + s;
      BlankConcat(Glue(init) + sp, s);
      BlankConcat(Glue(init), sp);
      assert forall k :: 0 <= k < |init| ==> init[k] == group[k];
    }
  }

  /** The groups, in order, are exactly the sentences, and no group is empty. */
  lemma {:induction false} PackCovers(ps: seq<string>)
    ensures Flatten(Pack(ps).closed) + Pack(ps).open == ps
    ensures ps != [] ==> Pack(ps).open != []
    ensures forall j :: 0 <= j < |Pack(ps).closed| ==> Pack(ps).closed[j] != []
  {
    if ps != [] {
      var init := ps[..|ps| - 1];
      var s := ps[|ps| - 1];
      PackCovers(init);
      assert Pack(ps) == Step(Pack(init), s);
      var prev := Pack(init);
      StepCovers(prev, s);
    }
  }

  lemma StepCovers(pk: Packing, s: string)
    ensures Flatten(Step(pk, s).closed) + Step(pk, s).open == Flatten(pk.closed) + pk.open + [s]
    ensures Step(pk, s).open != []
    ensures (forall j :: 0 <= j < |pk.closed| ==> pk.closed[j] != []) && (pk.closed != [] ==> pk.open != []) ==>
      forall j :: 0 <= j < |Step(pk, s).closed| ==> Step(pk, s).closed[j] != []
  {
    var current := Glue(pk.open);
    if |current| + |s| > ChunkSize && current != [] {
      FlattenSnoc(pk.closed, pk.open);
    }
  }

  /** When a sentence arrives, the buffer is empty or holds a non-blank sentence. */
  lemma OpenNonBlank(ps: seq<string>)
    requires WellFormed(ps) && ps != []
    ensures var pk := Pack(ps[..|ps| - 1]); pk.open == [] || !IsBlank(Glue(pk.open))
  {
    var init := ps[..|ps| - 1];
    var pk := Pack(init);
    PackCovers(init);
    if pk.open != [] {
      var k := |Flatten(pk.closed)|;
      assert pk.open[0] == init[k] == ps[k];
      GlueBlank(pk.open);
    }
  }

  /** Within a group, each sentence was appended because it fit: buffer plus sentence within `CHUNK_SIZE`. */
  predicate Fits(group: seq<string>) {
    forall m :: 1 <= m < |group| ==> |Glue(group[..m])| + |group[m]| <= ChunkSize
  }

  lemma {:induction false} PackFits(ps: seq<string>)
    requires WellFormed(ps)
    ensures forall j :: 0 <= j < |Pack(ps).closed| ==> Fits(Pack(ps).closed[j])
    ensures Fits(Pack(ps).open)
  {
    if ps != [] {
      var init := ps[..|ps| - 1];
      var s := ps[|ps| - 1];
      assert WellFormed(init) by {
        forall k | 0 <= k < |init| - 1 ensures !IsBlank(init[k]) { assert init[k] == ps[k]; }
      }
      PackFits(init);
      assert Pack(ps) == Step(Pack(init), s);
      var prev := Pack(init);
      if !(|Glue(prev.open)| + |s| > ChunkSize && Glue(prev.open) != []) {
        OpenNonBlank(ps);
        var g := prev.open + [s];
        forall m | 1 <= m < |g| ensures |Glue(g[..m])| + |g[m]| <= ChunkSize {
          if m < |prev.open| {
            assert g[..m] == prev.open[..m];
          } else {
            assert g[..m] == prev.open;
          }
        }
      }
    }
  }

  /** Each flushed group was flushed because the sentence after it would not fit. */
  predicate Greedy(pk: Packing) {
    forall j :: 0 <= j < |pk.closed| ==>
      (pk.closed + [pk.open])[j + 1] != [] && |Glue(pk.closed[j])| + |(pk.closed + [pk.open])[j + 1][0]| > ChunkSize
  }

  /** A group is flushed only when the next sentence would not fit in it. */
  lemma {:induction false} PackGreedy(ps: seq<string>)
    ensures Greedy(Pack(ps))
  {
    if ps != [] {
      var init := ps[..|ps| - 1];
      var s := ps[|ps| - 1];
      PackGreedy(init);
      PackCovers(init);
      assert Pack(ps) == Step(Pack(init), s);
      StepGreedy(Pack(init), s);
    }
  }

  lemma StepGreedy(pk: Packing, s: string)
    requires pk.closed != [] ==> pk.open != []
    requires forall j :: 0 <= j < |pk.closed| ==> pk.closed[j] != []
    requires Greedy(pk)
    ensures Greedy(Step(pk, s))
  {
    var nx := Step(pk, s);
    var current := Glue(pk.open);
    if |current| + |s| > ChunkSize && current != [] {
      forall j | 0 <= j < |nx.closed|
        ensures (nx.closed + [nx.open])[j + 1] != [] && |Glue(nx.closed[j])| + |(nx.closed + [nx.open])[j + 1][0]| > ChunkSize
      {
        if j < |pk.closed| {
          assert nx.closed[j] == pk.closed[j];
          assert (nx.closed + [nx.open])[j + 1] == (pk.closed + [pk.open])[j + 1];
        } else {
          assert nx.closed[j] == pk.open;
          assert (nx.closed + [nx.open])[j + 1] == [s];
        }
      }
    } else {
      forall j | 0 <= j < |nx.closed|
        ensures (nx.closed + [nx.open])[j + 1] != [] && |Glue(nx.closed[j])| + |(nx.closed + [nx.open])[j + 1][0]| > ChunkSize
      {
        assert nx.closed[j] == pk.closed[j];
        if j + 1 < |pk.closed| {
          assert (nx.closed + [nx.open])[j + 1] == (pk.closed + [pk.open])[j + 1];
        } else {
          assert (nx.closed + [nx.open])[j + 1] == pk.open + [s];
          assert (pk.closed + [pk.open])[j + 1] == pk.open;
        }
      }
    }
  }

  /** Every flushed group holds a non-blank sentence. */
  lemma {:induction false} PackClosedNonBlank(ps: seq<string>)
    requires WellFormed(ps)
    ensures forall j :: 0 <= j < |Pack(ps).closed| ==> !IsBlank(Glue(Pack(ps).closed[j]))
  {
    if ps != [] {
      var init := ps[..|ps| - 1];
      var s := ps[|ps| - 1];
      assert WellFormed(init) by {
        forall k | 0 <= k < |init| - 1 ensures !IsBlank(init[k]) { assert init[k] == ps[k]; }
      }
      PackClosedNonBlank(init);
      assert Pack(ps) == Step(Pack(init), s);
      OpenNonBlank(ps);
    }
  }

  /** A group of two or more sentences is at most `CHUNK_SIZE` + 1 long, and each of its sentences at most `CHUNK_SIZE`. */
  lemma FitsBound(group: seq<string>)
    requires Fits(group) && |group| >= 2
    ensures |Glue(group)| <= ChunkSize + 1
    ensures forall m :: 0 <= m < |group| ==> |group[m]| <= ChunkSize
  {
    var n := |group|;
    assert group[..n][..n - 1] == group[..n - 1];
    assert group[..n] == group;
    assert Glue(group[..1]) == group[0] by { assert group[..1][..0] == []; }
  }

  /** No chunk is empty, and every chunk is trimmed. */
  lemma ChunksTrimmedNonEmpty(text: string)
    ensures forall j :: 0 <= j < |Chunks(text)| ==> Chunks(text)[j] != [] && Trimmed(Chunks(text)[j])
  {
    var ps := Sentences(text);
    SentencesWellFormed(text);
    SelectNonBlank(ps);
    var g := Select(Pack(ps));
    var c := Render(g);
    forall j | 0 <= j < |c|
      ensures c[j] != [] && Trimmed(c[j])
    {
      assert c[j] == Trim(Glue(g[j]));
    }
  }

  /** There are no chunks exactly when the text is empty or all whitespace. */
  lemma ChunksEmptyIffBlank(text: string)
    ensures Chunks(text) == [] <==> IsBlank(text)
  {
    var ps := Sentences(text);
    var pk := Pack(ps);
    SentencesWellFormed(text);
    PackCovers(ps);
    if IsBlank(text) {
      NoBoundaryInBlank(text);
      NoBoundarySplit(text, 0, 0);
      assert ps == [text];
      PackSnoc([], text);
      assert [] + [text] == [text];
      assert pk.open == [text];
      GlueSnoc([], text);
    } else if pk.closed == [] {
      assert pk.open == ps;
      GlueBlank(ps);
    }
  }

  lemma NoBoundaryInBlank(text: string)
    requires IsBlank(text)
    ensures forall k :: 0 <= k < |text| ==> !BoundaryAt(text, k)
  {
  }

  /** Scanning a stretch without a boundary does not change the split. */
  lemma {:induction false} SkipSplit(s: string, p: nat, q: nat, k: nat)
    requires p <= q <= k <= |s|
    requires p == 0 || IsWs(s[p - 1])
    requires forall i :: q <= i < k ==> !BoundaryAt(s, i)
    ensures SplitFrom(s, p, q) == SplitFrom(s, p, k)
    decreases k - q
  {
    if q < k {
      SkipSplit(s, p, q + 1, k);
    }
  }

  lemma NoBoundarySplit(s: string, p: nat, q: nat)
    requires p <= q <= |s|
    requires p == 0 || IsWs(s[p - 1])
    requires forall i :: q <= i < |s| ==> !BoundaryAt(s, i)
    ensures SplitFrom(s, p, q) == [s[p..]]
  {
    SkipSplit(s, p, q, |s|);
  }

  /**
   * The chunks are the trimmed buffers of consecutive runs of sentences; in
   * order, the runs are the whole sentence sequence, except that a blank last
   * sentence may be dropped. No sentence is cut.
   */
  lemma ChunksCoverSentences(text: string)
    ensures |Chunks(text)| == |Groups(text)|
    ensures forall j :: 0 <= j < |Groups(text)| ==> Groups(text)[j] != [] && Chunks(text)[j] == Trim(Glue(Groups(text)[j]))
    ensures Flatten(Groups(text)) == Sentences(text) ||
      (Flatten(Groups(text)) == Sentences(text)[..|Sentences(text)| - 1] && IsBlank(Sentences(text)[|Sentences(text)| - 1]))
  {
    SentencesWellFormed(text);
    SelectCovers(Sentences(text));
  }

  lemma SelectCovers(ps: seq<string>)
    requires WellFormed(ps) && ps != []
    ensures forall j :: 0 <= j < |Select(Pack(ps))| ==> Select(Pack(ps))[j] != []
    ensures Flatten(Select(Pack(ps))) == ps || (Flatten(Select(Pack(ps))) == ps[..|ps| - 1] && IsBlank(ps[|ps| - 1]))
  {
    var pk := Pack(ps);
    PackCovers(ps);
    if IsBlank(Glue(pk.open)) {
      GlueBlank(pk.open);
      var k := |Flatten(pk.closed)|;
      assert pk.open[0] == ps[k];
      assert k == |ps| - 1;
      assert ps[..|ps| - 1] == Flatten(pk.closed);
    } else {
      FlattenSnoc(pk.closed, pk.open);
    }
  }

  /**
   * A chunk made of two or more sentences has at most `CHUNK_SIZE` + 1 = 501
   * characters: the test that decides whether a sentence still fits does not
   * count the space put before it. A sentence longer than `CHUNK_SIZE` is
   * always a chunk on its own.
   */
  lemma ChunkSizeBound(text: string)
    ensures forall j :: 0 <= j < |Groups(text)| && |Groups(text)[j]| >= 2 ==> |Chunks(text)[j]| <= ChunkSize + 1
    ensures forall j, m :: 0 <= j < |Groups(text)| && 0 <= m < |Groups(text)[j]| && |Groups(text)[j][m]| > ChunkSize ==>
      Groups(text)[j] == [Groups(text)[j][m]]
  {
    SentencesWellFormed(text);
    PackFits(Sentences(text));
    forall j | 0 <= j < |Groups(text)| && |Groups(text)[j]| >= 2
      ensures |Chunks(text)[j]| <= ChunkSize + 1
      ensures forall m :: 0 <= m < |Groups(text)[j]| ==> |Groups(text)[j][m]| <= ChunkSize
    {
      FitsBound(Groups(text)[j]);
    }
  }

  /**
   * The packing is greedy: within a chunk every sentence fitted when it was
   * added, and a chunk was closed only because the sentence that opens the next
   * one did not fit.
   */
  lemma ChunksGreedy(text: string)
    ensures forall j :: 0 <= j < |Groups(text)| ==> Fits(Groups(text)[j])
    ensures forall j :: 1 <= j < |Groups(text)| ==>
      Groups(text)[j] != [] && |Glue(Groups(text)[j - 1])| + |Groups(text)[j][0]| > ChunkSize
  {
    var ps := Sentences(text);
    var pk := Pack(ps);
    SentencesWellFormed(text);
    PackFits(ps);
    PackGreedy(ps);
    forall j | 1 <= j < |Groups(text)|
      ensures Groups(text)[j] != [] && |Glue(Groups(text)[j - 1])| + |Groups(text)[j][0]| > ChunkSize
    {
      assert Groups(text)[j - 1] == pk.closed[j - 1];
      assert Groups(text)[j] == (pk.closed + [pk.open])[j];
    }
  }

  /**
   * The 501 bound is reached: two sentences of 500 characters in all, joined by
   * one space, make one chunk of 501 characters.
   */
  lemma ChunkCanExceedSizeByOne(a: string, b: string)
    requires |a| + |b| == ChunkSize && a != [] && b != []
    requires a[|a| - 1] == '.'
    requires forall i :: 0 <= i < |a| ==> !IsWs(a[i])
    requires forall i :: 0 <= i < |b| ==> !IsWs(b[i])
    ensures Chunks(a + " " + b) == [a + " " + b]
    ensures |Chunks(a + " " + b)[0]| == ChunkSize + 1
  {
    var t := a + " " + b;
    TwoSentences(a, b);
    PackTwo(a, b);
    assert Trim(t) == t by {
      assert t[0] == a[0] && t[|t| - 1] == b[|b| - 1];
      TrimmedFixed(t);
    }
    assert Groups(t) == [[a, b]];
    RenderSnoc([], [a, b]);
  }

  /** A text made of a sentence ending in '.', one space and a word splits into those two. */
  lemma TwoSentences(a: string, b: string)
    requires a != [] && a[|a| - 1] == '.'
    requires forall i :: 0 <= i < |a| ==> !IsWs(a[i])
    requires forall i :: 0 <= i < |b| ==> !IsWs(b[i])
    ensures Sentences(a + " " + b) == [a, b]
  {
    var t := a + " " + b;
    var n := |a|;
    assert forall i :: 0 <= i < n ==> t[i] == a[i];
    assert forall i :: n + 1 <= i < |t| ==> t[i] == b[i - n - 1];
    SkipSplit(t, 0, 0, n);
    assert BoundaryAt(t, n);
    assert WsRunEnd(t, n + 1) == n + 1;
    assert WsRunEnd(t, n) == n + 1;
    NoBoundarySplit(t, n + 1, n + 1);
    assert t[..n] == a && t[n + 1..] == b;
  }

  /** Two sentences of `CHUNK_SIZE` characters in all share one buffer. */
  lemma PackTwo(a: string, b: string)
    requires |a| + |b| == ChunkSize && a != []
    ensures Pack([a, b]) == Packing([], [a, b])
    ensures Glue([a, b]) == a + " " + b
  {
    var ps := [a, b];
    assert ps[..1] == [a] && ps[..0] == [] && ps[..2] == ps;
    GlueSnoc([], a);
    assert Glue([a]) == a by { assert [] + [a] == [a]; }
    PackPrefix(ps, 0);
    assert Pack([a]) == Packing([], [a]);
    PackPrefix(ps, 1);
    assert Pack(ps) == Step(Packing([], [a]), b);
    GlueSnoc([a], b);
    assert [a] + [b] == ps;
  }

  /**
   * The shape of a split: every piece but the last is non-empty and ends with
   * a non-whitespace character; every piece but the first is empty or starts
   * with one.
   */
  predicate Shaped(ps: seq<string>) {
    && (forall k :: 0 <= k < |ps| - 1 ==> ps[k] != [] && !IsWs(ps[k][|ps[k]| - 1]))
    && (forall k :: 1 <= k < |ps| ==> ps[k] == [] || !IsWs(ps[k][0]))
  }

  lemma ShapedPrefix(ps: seq<string>)
    requires Shaped(ps) && ps != []
    ensures Shaped(ps[..|ps| - 1])
  {
    var init := ps[..|ps| - 1];
    assert forall k :: 0 <= k < |init| ==> init[k] == ps[k];
  }

  lemma SentencesShaped(text: string)
    ensures Shaped(Sentences(text))
  {
  }

  /** The buffer of a group is its sentences joined by single spaces. */
  lemma {:induction false} GlueJoin(group: seq<string>)
    requires |group| <= 1 || group[0] != []
    ensures Glue(group) == Join(group, " ")
  {
    if |group| > 1 {
      var init := group[..|group| - 1];
      var s := group[|group| - 1];
      GlueJoin(init);
      JoinEnds(init, " ");
      assert group == init + [s];
      JoinAppend(init, [s], " ");
    }
  }

  /**
   * Trimming each group's buffer and joining the results with single spaces is
   * trimming the single-space join of all the sentences in the groups.
   */
  lemma {:induction false} JoinGroups(groups: seq<seq<string>>)
    requires forall j :: 0 <= j < |groups| ==> groups[j] != [] && !IsBlank(Glue(groups[j]))
    requires Shaped(Flatten(groups))
    ensures Join(Render(groups), " ") == Trim(Join(Flatten(groups), " "))
  {
    if groups != [] {
      var init := groups[..|groups| - 1];
      var g := groups[|groups| - 1];
      var f := Flatten(init);
      assert g != [] && !IsBlank(Glue(g));
      assert forall j :: 0 <= j < |init| ==> init[j] == groups[j];
      ShapedConcat(f, g);
      GlueJoin(g);
      assert init + [g] == groups;
      RenderSnoc(init, g);
      if init == [] {
        assert f + g == g;
      } else {
        assert init[|init| - 1] == groups[|init| - 1];
        assert |f| >= |init[|init| - 1]|;
        JoinGroups(init);
        JoinStep(f, g, Render(init));
      }
    }
  }

  /** What the shape of a concatenation says about its two parts. */
  lemma ShapedConcat(f: seq<string>, g: seq<string>)
    requires Shaped(f + g) && g != [] && !IsBlank(Glue(g))
    ensures Shaped(f)
    ensures |g| <= 1 || g[0] != []
    ensures g[0] != []
    ensures f != [] ==> f[|f| - 1] != [] && !IsWs(f[|f| - 1][|f[|f| - 1]| - 1])
    ensures f != [] ==> !IsWs(g[0][0])
  {
    assert forall k :: 0 <= k < |f| ==> f[k] == (f + g)[k];
    assert forall k :: 0 <= k < |g| ==> g[k] == (f + g)[|f| + k];
    if |g| == 1 {
      assert g[..0] == [];
    }
  }

  /** Adding one group to the end. */
  lemma JoinStep(f: seq<string>, g: seq<string>, r: seq<string>)
    requires f != [] && f[|f| - 1] != [] && !IsWs(f[|f| - 1][|f[|f| - 1]| - 1])
    requires g != [] && g[0] != [] && !IsWs(g[0][0])
    requires r != [] && Join(r, " ") == Trim(Join(f, " "))
    requires Glue(g) == Join(g, " ")
    ensures Join(r + [Trim(Glue(g))], " ") == Trim(Join(f + g, " "))
  {
    JoinAppend(f, g, " ");
    JoinEnds(f, " ");
    JoinEnds(g, " ");
    TrimAroundSpace(Join(f, " "), Join(g, " "));
    JoinAppend(r, [Trim(Glue(g))], " ");
  }

  /**
   * Joining the chunks with single spaces gives the trimmed single-space join of
   * the sentences: the chunker keeps every sentence, in order.
   */
  lemma ChunksJoinSentences(text: string)
    ensures Join(Chunks(text), " ") == Trim(Join(Sentences(text), " "))
  {
    SentencesWellFormed(text);
    SentencesShaped(text);
    JoinSelect(Sentences(text));
  }

  /** Every group that becomes a chunk is non-empty and has a non-blank buffer. */
  lemma SelectNonBlank(ps: seq<string>)
    requires WellFormed(ps) && ps != []
    ensures forall j :: 0 <= j < |Select(Pack(ps))| ==>
      Select(Pack(ps))[j] != [] && !IsBlank(Glue(Select(Pack(ps))[j]))
  {
    var pk := Pack(ps);
    PackClosedNonBlank(ps);
    PackCovers(ps);
    var g := Select(pk);
    forall j | 0 <= j < |g|
      ensures g[j] != [] && !IsBlank(Glue(g[j]))
    {
      if j < |pk.closed| {
        assert g[j] == pk.closed[j];
      } else {
        assert g[j] == pk.open;
      }
    }
  }

  lemma JoinSelect(ps: seq<string>)
    requires WellFormed(ps) && Shaped(ps) && ps != []
    ensures Join(Render(Select(Pack(ps))), " ") == Trim(Join(ps, " "))
  {
    SelectNonBlank(ps);
    SelectCovers(ps);
    JoinCovered(ps, Select(Pack(ps)));
  }

  /** The join property for any grouping that covers the sentences, perhaps without a blank last one. */
  lemma JoinCovered(ps: seq<string>, groups: seq<seq<string>>)
    requires Shaped(ps) && ps != []
    requires forall j :: 0 <= j < |groups| ==> groups[j] != [] && !IsBlank(Glue(groups[j]))
    requires Flatten(groups) == ps || (Flatten(groups) == ps[..|ps| - 1] && IsBlank(ps[|ps| - 1]))
    ensures Join(Render(groups), " ") == Trim(Join(ps, " "))
  {
    if Flatten(groups) == ps {
      JoinGroups(groups);
    } else if groups == [] {
      assert |ps| == 1;
      TrimBlankTail([], ps[0]);
    } else {
      ShapedPrefix(ps);
      JoinGroups(groups);
      assert |Flatten(groups)| >= |groups[|groups| - 1]| > 0;
      TrimJoinBlankLast(ps, " ");
    }
  }

  /** What `Speech.speak` hands to the engine: US English, `rate: options.rate || 1`, pitch 1. */
  datatype Utterance = Utterance(text: string, language: string, rate: real, pitch: real)

  function SpeechRequest(text: string, rate: Option<PlaybackSpeed>): (u: Utterance)
    ensures u.text == text && u.language == "en-US" && u.pitch == 1.0
    ensures rate.None? ==> u.rate == 1.0
    ensures rate.Some? ==> u.rate == Rate(rate.value)
  {
    Utterance(text, "en-US", if rate.Some? then Rate(rate.value) else 1.0, 1.0)
  }

  /** How the engine ends an utterance. */
  datatype EngineEvent = EngineDone | EngineStopped | EngineError

  /** The settlement of the promise `speak` returns, and which callbacks ran. */
  datatype Settlement = Settlement(resolved: bool, rejected: bool, onDoneRan: bool, onStoppedRan: bool)

  /**
   * `speak` always resolves and never rejects, however the engine ends the
   * utterance; `onDone` runs only when it finished and `onStopped` only when it
   * was stopped.
   */
  function Speak(event: EngineEvent): (r: Settlement)
    ensures r.resolved && !r.rejected
    ensures r.onDoneRan <==> event == EngineDone
    ensures r.onStoppedRan <==> event == EngineStopped
  {
    match event
    case EngineDone => Settlement(true, false, true, false)
    case EngineStopped => Settlement(true, false, false, true)
    case EngineError => Settlement(true, false, false, false)
  }
}
