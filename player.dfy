/**
 * The playback hook (src/hooks/useArticlePlayer.ts): the article, its chunks,
 * and the play / pause / resume / stop / speed / skip transitions.
 *
 * React state and the ref that shadows it are one field here: the hook always
 * writes them together. The playback loop of `playFromIndex` awaits one
 * `speak` per chunk; `settles` says how many of those utterances settle
 * (finish, are stopped or fail: `speak` resolves on all three) before the next
 * event reaches the hook, and `loopAt` is the chunk whose utterance the loop
 * is then awaiting. The utterances handed to the engine are logged in
 * `spoken`.
 */
module Player {
  import opened Wrappers
  import opened Types
  import opened JsText
  import Speech
  import Extractor

  /** What the hook shows as `error`. */
  datatype PlayerError =
    | EmptyUrl                                      // "Please enter a URL"
    | ExtractFailed(cause: Extractor.ExtractError)  // the message of the error `extractArticle` threw

  /** Everything the hook holds. */
  datatype PlayerState = PlayerState(
    url: string,
    article: Option<Article>,
    isLoading: bool,
    isPlaying: bool,
    isPaused: bool,
    speed: PlaybackSpeed,
    index: int,
    totalChunks: nat,
    error: Option<PlayerError>,
    chunks: seq<string>,
    loopAt: Option<nat>,
    spoken: seq<Speech.Utterance>)

  /** `Math.min(currentIndexRef.current + 1, chunksRef.current.length - 1)` */
  function SkipForwardIndex(index: int, count: nat): (r: int)
    ensures 0 <= index < count ==> index <= r < count && (index + 1 < count ==> r == index + 1)
    ensures count == 0 && index >= -1 ==> r == -1
  {
    if index + 1 < count - 1 then index + 1 else count - 1
  }

  /** `Math.max(currentIndexRef.current - 1, 0)` */
  function SkipBackIndex(index: int): (r: int)
    ensures 0 <= r
    ensures index >= 1 ==> r == index - 1
    ensures index <= 1 ==> r == 0
  {
    if index - 1 > 0 then index - 1 else 0
  }

  /** Skipping back undoes skipping forward, and the other way round, away from the ends. */
  lemma SkipsUndo(index: int, count: nat)
    ensures 0 <= index < count - 1 ==> SkipBackIndex(SkipForwardIndex(index, count)) == index
    ensures 1 <= index < count ==> SkipForwardIndex(SkipBackIndex(index), count) == index
  {
  }

  /** The utterances for a run of chunks at one speed. */
  function Utterances(texts: seq<string>, speed: PlaybackSpeed): (r: seq<Speech.Utterance>)
    ensures |r| == |texts|
    ensures forall k :: 0 <= k < |texts| ==> r[k] == Speech.SpeechRequest(texts[k], Some(speed))
  {
    seq(|texts|, k requires 0 <= k < |texts| => Speech.SpeechRequest(texts[k], Some(speed)))
  }

  /** The chunks from `from` on. */
  function Tail(chunks: seq<string>, from: nat): seq<string> {
    if from < |chunks| then chunks[from..] else []
  }

  /**
   * The loop of `playFromIndex` from chunk `from`: each chunk becomes the
   * current index and is spoken at the current speed. When the utterances run
   * out of `settles` first, the loop waits on the last one it started; when
   * the chunks run out, playing ends and the index returns to 0.
   */
  function RunFrom(st: PlayerState, from: nat, settles: nat): PlayerState
    requires st.isPlaying && st.loopAt.None?
  {
    var ahead := Tail(st.chunks, from);
    if settles < |ahead| then
      st.(index := from + settles, loopAt := Some(from + settles),
          spoken := st.spoken + Utterances(ahead[..settles + 1], st.speed))
    else
      st.(isPlaying := false, index := 0, spoken := st.spoken + Utterances(ahead, st.speed))
  }

  /** The state the hook starts in. */
  function Initial(): PlayerState {
    PlayerState("", None, false, false, false, Normal, 0, 0, None, [], None, [])
  }

  /** What holds of the hook between events. */
  predicate Inv(st: PlayerState) {
    && -1 <= st.index
    && (|st.chunks| > 0 ==> 0 <= st.index < |st.chunks|)
    && (|st.chunks| == 0 ==> st.index <= 0)
    && (st.totalChunks == 0 || st.totalChunks == |st.chunks|)
    && (st.article.Some? ==> st.chunks == Speech.Chunks(st.article.value.content) && st.totalChunks == |st.chunks|)
    && (st.isPlaying <==> st.loopAt.Some?)
    && (st.isPlaying ==> |st.chunks| > 0)
    && !st.isLoading
  }

  /**
   * `extract`, given what `extractArticle` makes of the fetched page: a
   * blank url only sets an error. Otherwise the article, total
   * and error are cleared; on success the article is kept, its content is
   * chunked and the index returns to 0; on failure the error is shown and the
   * previous chunks stay in place.
   */
  function ExtractSpec(st: PlayerState, outcome: Result<Article, Extractor.ExtractError>): PlayerState {
    if IsBlank(st.url) then st.(error := Some(EmptyUrl))
    else
      match outcome
      case Success(a) =>
        st.(article := Some(a), error := None, isLoading := false, chunks := Speech.Chunks(a.content),
            totalChunks := |Speech.Chunks(a.content)|, index := 0)
      case Failure(e) =>
        st.(article := None, error := Some(ExtractFailed(e)), isLoading := false, totalChunks := 0)
  }

  /** `playFromIndex(start)`: nothing without chunks; otherwise playing, unpaused, and the loop from `start`. */
  function PlayFromSpec(st: PlayerState, start: int, settles: nat): PlayerState
    requires st.chunks != [] ==> 0 <= start
  {
    if st.chunks == [] then st
    else RunFrom(st.(isPlaying := true, isPaused := false, loopAt := None), start as nat, settles)
  }

  /** `play`: the loop from the stored index. */
  function PlaySpec(st: PlayerState, settles: nat): PlayerState
    requires Inv(st)
  {
    PlayFromSpec(st, st.index, settles)
  }

  /** The awaited utterance settles and the loop goes on with the next chunk. */
  function SettleSpec(st: PlayerState, settles: nat): PlayerState
    requires st.isPlaying && st.loopAt.Some?
  {
    RunFrom(st.(loopAt := None), st.loopAt.value + 1, settles)
  }

  /**
   * `stop`: playing and paused are cleared; the awaited utterance is stopped,
   * so the loop wakes up, sees that playing is off and leaves without touching
   * the index.
   */
  function StopSpec(st: PlayerState): PlayerState {
    st.(isPlaying := false, isPaused := false, loopAt := None)
  }

  /** A restart: the running loop is abandoned and a new one starts at `start`. */
  function RestartSpec(st: PlayerState, start: int, settles: nat): PlayerState
    requires st.chunks != [] ==> 0 <= start
  {
    PlayFromSpec(st.(loopAt := None), start, settles)
  }

  /** `setSpeed`: the speed is always recorded; playback restarts at the current chunk only when playing and not paused. */
  function SetSpeedSpec(st: PlayerState, speed: PlaybackSpeed, settles: nat): PlayerState
    requires Inv(st)
  {
    var st1 := st.(speed := speed);
    if st.isPlaying && !st.isPaused then RestartSpec(st1, st.index, settles) else st1
  }

  /** `skipForward`: when idle only the index moves; when playing, playback restarts at the new index. */
  function SkipForwardSpec(st: PlayerState, settles: nat): PlayerState
    requires Inv(st)
  {
    var n := SkipForwardIndex(st.index, |st.chunks|);
    if st.isPlaying then RestartSpec(st, n, settles) else st.(index := n)
  }

  /** `skipBack`: when idle only the index moves; when playing, playback restarts at the new index. */
  function SkipBackSpec(st: PlayerState, settles: nat): PlayerState
    requires Inv(st)
  {
    var n := SkipBackIndex(st.index);
    if st.isPlaying then RestartSpec(st, n, settles) else st.(index := n)
  }

  // ---------------------------------------------------------------------------
  // What the transitions promise
  // ---------------------------------------------------------------------------

  /**
   * The loop speaks the chunks from `from` on, one utterance per chunk, in
   * order and at the current speed; it speaks `settles` + 1 of them unless the
   * chunks run out first.
   */
  lemma RunSpeaksInOrder(st: PlayerState, from: nat, settles: nat)
    requires st.isPlaying && st.loopAt.None?
    ensures var r := RunFrom(st, from, settles);
      && |st.spoken| <= |r.spoken|
      && r.spoken[..|st.spoken|] == st.spoken
      && (forall k :: |st.spoken| <= k < |r.spoken| ==>
            from + k - |st.spoken| < |st.chunks| &&
            r.spoken[k] == Speech.SpeechRequest(st.chunks[from + k - |st.spoken|], Some(st.speed)))
      && |r.spoken| - |st.spoken| == (if settles < |Tail(st.chunks, from)| then settles + 1 else |Tail(st.chunks, from)|)
  {
    var r := RunFrom(st, from, settles);
    var ahead := Tail(st.chunks, from);
    assert forall k :: 0 <= k < |ahead| ==> ahead[k] == st.chunks[from + k];
  }

  /**
   * While the loop runs the index is the chunk being spoken; when the chunks
   * run out, playing stops and the index is back at 0.
   */
  lemma RunIndexIsSpokenChunk(st: PlayerState, from: nat, settles: nat)
    requires st.isPlaying && st.loopAt.None?
    ensures var r := RunFrom(st, from, settles);
      r.isPlaying ==>
        && r.loopAt == Some(r.index as nat)
        && 0 <= r.index < |st.chunks|
        && r.index == from + settles
        && |r.spoken| > 0 && r.spoken[|r.spoken| - 1].text == st.chunks[r.index]
    ensures var r := RunFrom(st, from, settles);
      !r.isPlaying ==> r.index == 0 && r.loopAt.None? && |r.spoken| == |st.spoken| + |Tail(st.chunks, from)|
  {
  }

  /** `play` after `stop` starts again with the chunk that was playing: stop keeps the index. */
  lemma StopThenPlayResumes(st: PlayerState, settles: nat)
    requires Inv(st) && st.isPlaying
    ensures Inv(StopSpec(st)) && StopSpec(st).index == st.index
    ensures var p := PlaySpec(StopSpec(st), settles);
      |p.spoken| > |st.spoken| && p.spoken[|st.spoken|].text == st.chunks[st.index]
  {
    var s := StopSpec(st);
    RunSpeaksInOrder(s.(isPlaying := true, isPaused := false, loopAt := None), st.index as nat, settles);
  }

  /** `play` after the last chunk finished starts again from the first chunk. */
  lemma PlayAfterCompletionStartsOver(st: PlayerState, from: nat, settles: nat, settles2: nat)
    requires Inv(st) && st.isPlaying
    requires !SettleSpec(st, settles).isPlaying
    ensures var done := SettleSpec(st, settles);
      Inv(done) && done.index == 0 &&
      var p := PlaySpec(done, settles2);
      |p.spoken| > |done.spoken| && p.spoken[|done.spoken|].text == st.chunks[0]
  {
    var done := SettleSpec(st, settles);
    RunSpeaksInOrder(done.(isPlaying := true, isPaused := false, loopAt := None), 0, settles2);
  }

  /** Playing starts with the chunk at the stored index, unpaused. */
  lemma PlayStartsAtIndex(st: PlayerState, settles: nat)
    requires Inv(st) && !st.isPlaying && st.chunks != []
    ensures var p := PlaySpec(st, settles);
      !p.isPaused && |p.spoken| > |st.spoken| && p.spoken[|st.spoken|].text == st.chunks[st.index]
  {
    RunSpeaksInOrder(st.(isPlaying := true, isPaused := false, loopAt := None), st.index as nat, settles);
  }

  /** Without chunks, `play` changes nothing. */
  lemma PlayWithoutChunks(st: PlayerState, start: int, settles: nat)
    requires st.chunks == []
    ensures PlayFromSpec(st, start, settles) == st
  {
  }

  /**
   * The skips clamp to the chunk range. When idle only the index changes;
   * when playing, playback restarts unpaused at the new index.
   */
  lemma SkipsClampAndRestart(st: PlayerState, settles: nat)
    requires Inv(st)
    ensures var f := SkipForwardSpec(st, settles); var b := SkipBackSpec(st, settles);
      && (!st.isPlaying ==> f == st.(index := SkipForwardIndex(st.index, |st.chunks|)))
      && (!st.isPlaying ==> b == st.(index := SkipBackIndex(st.index)))
      && (st.chunks != [] ==> 0 <= SkipForwardIndex(st.index, |st.chunks|) < |st.chunks|)
      && (st.chunks != [] ==> 0 <= SkipBackIndex(st.index) < |st.chunks|)
      && (st.chunks == [] ==> SkipForwardIndex(st.index, 0) == -1)
    ensures st.isPlaying ==>
      var f := SkipForwardSpec(st, settles);
      var n := SkipForwardIndex(st.index, |st.chunks|);
      !f.isPaused && |f.spoken| > |st.spoken| && f.spoken[|st.spoken|].text == st.chunks[n]
    ensures st.isPlaying ==>
      var b := SkipBackSpec(st, settles);
      var n := SkipBackIndex(st.index);
      !b.isPaused && |b.spoken| > |st.spoken| && b.spoken[|st.spoken|].text == st.chunks[n]
  {
    if st.isPlaying {
      var n := SkipForwardIndex(st.index, |st.chunks|);
      RunSpeaksInOrder(st.(isPlaying := true, isPaused := false, loopAt := None), n as nat, settles);
      var m := SkipBackIndex(st.index);
      RunSpeaksInOrder(st.(isPlaying := true, isPaused := false, loopAt := None), m as nat, settles);
    }
  }

  /**
   * `setSpeed` always records the speed. Playing and not paused, it restarts
   * at the current chunk at the new rate; otherwise nothing else changes.
   */
  lemma SetSpeedRestartsOnlyWhenPlaying(st: PlayerState, speed: PlaybackSpeed, settles: nat)
    requires Inv(st)
    ensures SetSpeedSpec(st, speed, settles).speed == speed
    ensures !(st.isPlaying && !st.isPaused) ==> SetSpeedSpec(st, speed, settles) == st.(speed := speed)
    ensures st.isPlaying && !st.isPaused ==>
      var r := SetSpeedSpec(st, speed, settles);
      |r.spoken| > |st.spoken| && r.spoken[|st.spoken|].text == st.chunks[st.index] &&
      r.spoken[|st.spoken|].rate == Rate(speed)
  {
    if st.isPlaying && !st.isPaused {
      RunSpeaksInOrder(st.(speed := speed, isPlaying := true, isPaused := false, loopAt := None), st.index as nat, settles);
    }
  }

  /**
   * After `extract`: a blank url only sets the error. A successful
   * extraction leaves at least one chunk, the chunks of the content, the total
   * equal to their number and the index at 0; a failed one leaves no article,
   * a total of 0, the error, and the previous chunks.
   */
  lemma ExtractOutcome(st: PlayerState, outcome: Result<Article, Extractor.ExtractError>, fetched: Extractor.FetchOutcome)
    requires Inv(st) && outcome == Extractor.ExtractArticle(st.url, fetched)
    ensures IsBlank(st.url) ==> ExtractSpec(st, outcome) == st.(error := Some(EmptyUrl))
    ensures !IsBlank(st.url) && ExtractSpec(st, outcome).article.Some? ==>
      var r := ExtractSpec(st, outcome);
      && r.chunks == Speech.Chunks(r.article.value.content)
      && 0 < r.totalChunks == |r.chunks|
      && r.index == 0 && r.error.None?
      && r.article.value.url == st.url
    ensures !IsBlank(st.url) && ExtractSpec(st, outcome).article.None? ==>
      var r := ExtractSpec(st, outcome);
      r.totalChunks == 0 && r.error.Some? && r.chunks == st.chunks && r.index == st.index
  {
  }

  /** `extract` keeps the invariant whenever an extracted article has at least one chunk. */
  lemma ExtractKeepsInv(st: PlayerState, outcome: Result<Article, Extractor.ExtractError>)
    requires Inv(st) && (outcome.Success? ==> |Speech.Chunks(outcome.value.content)| > 0)
    ensures Inv(ExtractSpec(st, outcome))
  {
  }

  /** The loop leaves the hook in a consistent state, whether it waits or runs out of chunks. */
  lemma RunKeepsInv(st: PlayerState, from: nat, settles: nat)
    requires st.isPlaying && st.loopAt.None? && Inv(st.(loopAt := Some(0)))
    ensures Inv(RunFrom(st, from, settles))
  {
  }

  /** Starting or restarting playback at a valid chunk keeps the invariant. */
  lemma RestartKeepsInv(st: PlayerState, start: int, settles: nat)
    requires Inv(st.(isPlaying := false, loopAt := None)) && (st.isPlaying ==> st.chunks != [])
    requires st.chunks != [] ==> 0 <= start < |st.chunks|
    ensures Inv(RestartSpec(st, start, settles))
  {
    if st.chunks != [] {
      RunKeepsInv(st.(isPlaying := true, isPaused := false, loopAt := None), start as nat, settles);
    }
  }

  /** The awaited utterance settling keeps the invariant. */
  lemma SettleKeepsInv(st: PlayerState, settles: nat)
    requires Inv(st) && st.isPlaying
    ensures Inv(SettleSpec(st, settles))
  {
    RunKeepsInv(st.(loopAt := None), st.loopAt.value + 1, settles);
  }

  /** `play`, `setSpeed` and the skips keep the invariant. */
  lemma RestartsKeepInv(st: PlayerState, speed: PlaybackSpeed, settles: nat)
    requires Inv(st)
    ensures !st.isPlaying ==> Inv(PlaySpec(st, settles))
    ensures Inv(SetSpeedSpec(st, speed, settles))
    ensures Inv(SkipForwardSpec(st, settles)) && Inv(SkipBackSpec(st, settles))
  {
    RestartKeepsInv(st, st.index, settles);
    RestartKeepsInv(st.(speed := speed), st.index, settles);
    RestartKeepsInv(st, SkipForwardIndex(st.index, |st.chunks|), settles);
    RestartKeepsInv(st, SkipBackIndex(st.index), settles);
  }

  // ---------------------------------------------------------------------------
  // The hook as an object
  // ---------------------------------------------------------------------------

  class ArticlePlayer {
    var url: string
    var article: Option<Article>
    var isLoading: bool
    var isPlaying: bool
    var isPaused: bool
    var speed: PlaybackSpeed
    var index: int
    var totalChunks: nat
    var error: Option<PlayerError>
    var chunks: seq<string>
    var loopAt: Option<nat>
    var spoken: seq<Speech.Utterance>

    function State(): PlayerState
      reads this
    {
      PlayerState(url, article, isLoading, isPlaying, isPaused, speed, index, totalChunks, error, chunks, loopAt, spoken)
    }

    predicate Valid()
      reads this
    {
      Inv(State())
    }

    constructor ()
      ensures State() == Initial() && Valid()
    {
      url := "";
      article := None;
      isLoading := false;
      isPlaying := false;
      isPaused := false;
      speed := Normal;
      index := 0;
      totalChunks := 0;
      error := None;
      chunks := [];
      loopAt := None;
      spoken := [];
    }

    method SetUrl(u: string)
      requires Valid()
      modifies this
      ensures Valid() && State() == old(State()).(url := u)
    {
      url := u;
    }

    /**
     * `extract`; `outcome` is what `extractArticle(url)` resolved or rejected
     * with. `Extractor.ExtractArticle` guarantees what is required of it: an
     * extracted article splits into at least one chunk.
     */
    method Extract(outcome: Result<Article, Extractor.ExtractError>)
      requires Valid() && (outcome.Success? ==> |Speech.Chunks(outcome.value.content)| > 0)
      modifies this
      ensures State() == ExtractSpec(old(State()), outcome)
      ensures Valid()
    {
      ExtractKeepsInv(State(), outcome);
      if IsBlank(url) {
        error := Some(EmptyUrl);
        return;
      }
      isLoading := true;
      error := None;
      article := None;
      totalChunks := 0;
      if outcome.Success? {
        article := Some(outcome.value);
        var split := Speech.SplitIntoChunks(outcome.value.content);
        chunks := split;
        totalChunks := |split|;
        index := 0;
      } else {
        error := Some(ExtractFailed(outcome.error));
      }
      isLoading := false;
    }

    /** The loop of `playFromIndex`, from chunk `from`, until it awaits an utterance or runs out of chunks. */
    method RunLoop(from: nat, settles: nat)
      requires isPlaying && loopAt.None?
      modifies this
      ensures State() == RunFrom(old(State()), from, settles)
    {
      ghost var st := State();
      ghost var ahead := Tail(chunks, from);
      var i := from;
      var left: nat := settles;
      var said := spoken;
      var waitAt: Option<nat> := None;
      assert from < |chunks| ==> |ahead| == |chunks| - from;
      while i < |chunks| && isPlaying && waitAt.None?
        modifies {}
        invariant from <= i && (i <= |chunks| || i == from)
        invariant i - from <= |ahead|
        invariant left + (i - from) == settles
        invariant waitAt.None? ==> said == st.spoken + Utterances(ahead[..i - from], speed)
        invariant waitAt.Some? ==> (
          && waitAt.value == i < |chunks| && left == 0
          && said == st.spoken + Utterances(ahead[..i + 1 - from], speed))
        decreases |chunks| - i, if waitAt.None? then 1 else 0
      {
        UtterancesSnoc(chunks, from, i, speed);
        said := said + [Speech.SpeechRequest(chunks[i], Some(speed))];
        if left == 0 {
          waitAt := Some(i);
        } else {
          left := left - 1;
          i := i + 1;
        }
      }
      spoken := said;
      if waitAt.Some? {
        index := i;
        loopAt := waitAt;
      } else {
        assert i - from == |ahead|;
        assert ahead[..i - from] == ahead;
        isPlaying := false;
        index := 0;
      }
    }

    method PlayFromIndex(start: int, settles: nat)
      requires loopAt.None? && (chunks != [] ==> 0 <= start)
      modifies this
      ensures State() == PlayFromSpec(old(State()), start, settles)
    {
      if chunks == [] {
        return;
      }
      isPlaying := true;
      isPaused := false;
      RunLoop(start as nat, settles);
    }

    method Play(settles: nat)
      requires Valid() && !isPlaying
      modifies this
      ensures Valid() && State() == PlaySpec(old(State()), settles)
    {
      RestartsKeepInv(State(), speed, settles);
      PlayFromIndex(index, settles);
    }

    /** The utterance the loop awaits settles. */
    method ChunkSettled(settles: nat)
      requires Valid() && isPlaying
      modifies this
      ensures Valid() && State() == SettleSpec(old(State()), settles)
    {
      ghost var st := State();
      SettleKeepsInv(st, settles);
      var next := loopAt.value + 1;
      loopAt := None;
      assert State() == st.(loopAt := None);
      RunLoop(next, settles);
      assert State() == SettleSpec(st, settles);
    }

    method Pause()
      requires Valid()
      modifies this
      ensures Valid() && State() == old(State()).(isPaused := true)
    {
      isPaused := true;
    }

    method Resume()
      requires Valid()
      modifies this
      ensures Valid() && State() == old(State()).(isPaused := false)
    {
      isPaused := false;
    }

    method Stop()
      requires Valid()
      modifies this
      ensures Valid() && State() == StopSpec(old(State()))
    {
      isPlaying := false;
      loopAt := None;
      isPaused := false;
    }

    method SetSpeed(newSpeed: PlaybackSpeed, settles: nat)
      requires Valid()
      modifies this
      ensures Valid() && State() == SetSpeedSpec(old(State()), newSpeed, settles)
    {
      RestartsKeepInv(State(), newSpeed, settles);
      var restart := isPlaying && !isPaused;
      speed := newSpeed;
      if restart {
        loopAt := None;
        PlayFromIndex(index, settles);
      }
    }

    method SkipForward(settles: nat)
      requires Valid()
      modifies this
      ensures Valid() && State() == SkipForwardSpec(old(State()), settles)
    {
      RestartsKeepInv(State(), speed, settles);
      var newIndex := SkipForwardIndex(index, |chunks|);
      if isPlaying {
        loopAt := None;
        PlayFromIndex(newIndex, settles);
      } else {
        index := newIndex;
      }
    }

    method SkipBack(settles: nat)
      requires Valid()
      modifies this
      ensures Valid() && State() == SkipBackSpec(old(State()), settles)
    {
      RestartsKeepInv(State(), speed, settles);
      var newIndex := SkipBackIndex(index);
      if isPlaying {
        loopAt := None;
        PlayFromIndex(newIndex, settles);
      } else {
        index := newIndex;
      }
    }
  }

  /** One more chunk spoken extends the utterance log by one. */
  lemma UtterancesSnoc(chunks: seq<string>, from: nat, i: nat, speed: PlaybackSpeed)
    requires from <= i < |chunks|
    ensures Utterances(Tail(chunks, from)[..i + 1 - from], speed) ==
      Utterances(Tail(chunks, from)[..i - from], speed) + [Speech.SpeechRequest(chunks[i], Some(speed))]
  {
    var t := Tail(chunks, from);
    assert t[..i + 1 - from][i - from] == chunks[i];
  }
}
