/**
 * Saved articles (src/services/articleStorage.ts): the index kept under the
 * `saved_articles` key, the audio saved with each article (one file per chunk
 * on native, one IndexedDB entry on the web), and the lookups over the index.
 * The key/value store, the file system and IndexedDB are fields holding their
 * contents; the speech server's answers, the fresh id and the clock are
 * parameters.
 */
module ArticleStorage {
  import opened Wrappers
  import opened Types
  import opened JsText
  import GoogleTts

  /** `getSavedArticles`: the stored list, or nothing when the key is empty or cannot be read. */
  function GetSavedArticles(stored: Stored<seq<SavedArticle>>): (r: seq<SavedArticle>)
    ensures stored.Present? ==> r == stored.value
    ensures !stored.Present? ==> r == []
  {
    if stored.Present? then stored.value else []
  }

  /** `articles.some(a => a.url === url)` */
  function AnyWithUrl(articles: seq<SavedArticle>, url: string): (r: bool)
    ensures r <==> exists a :: a in articles && a.url == url
  {
    if articles == [] then false
    else articles[0].url == url || AnyWithUrl(articles[1..], url)
  }

  /** `isArticleSaved` */
  function IsArticleSaved(stored: Stored<seq<SavedArticle>>, url: string): (r: bool)
    ensures r <==> exists a :: a in GetSavedArticles(stored) && a.url == url
  {
    AnyWithUrl(GetSavedArticles(stored), url)
  }

  /** `articles.find(a => a.id === id)`: the first entry with that id. */
  function FindById(articles: seq<SavedArticle>, id: string): (r: Option<SavedArticle>)
    ensures r.None? <==> forall a :: a in articles ==> a.id != id
    ensures r.Some? ==> exists k :: (0 <= k < |articles| && articles[k] == r.value && r.value.id == id &&
      forall j :: 0 <= j < k ==> articles[j].id != id)
  {
    if articles == [] then None
    else if articles[0].id == id then Some(articles[0])
    else
      var r := FindById(articles[1..], id);
      if r.Some? then
        var k :| 0 <= k < |articles[1..]| && articles[1..][k] == r.value && r.value.id == id &&
          forall j :: 0 <= j < k ==> articles[1..][j].id != id;
        assert articles[k + 1] == r.value;
        r
      else r
  }

  /** `loadSavedArticle`: the first entry with that id, or null. */
  function LoadSavedArticle(stored: Stored<seq<SavedArticle>>, id: string): (r: Option<SavedArticle>)
    ensures r.None? <==> forall a :: a in GetSavedArticles(stored) ==> a.id != id
    ensures r.Some? ==> exists k :: (0 <= k < |GetSavedArticles(stored)| && GetSavedArticles(stored)[k] == r.value &&
      r.value.id == id && forall j :: 0 <= j < k ==> GetSavedArticles(stored)[j].id != id)
  {
    FindById(GetSavedArticles(stored), id)
  }

  /** `articles.filter(a => a.id !== id)` */
  function RemoveById(articles: seq<SavedArticle>, id: string): (r: seq<SavedArticle>)
    ensures forall a :: a in r <==> a in articles && a.id != id
    ensures |r| <= |articles|
    ensures (forall a :: a in articles ==> a.id != id) ==> r == articles
  {
    if articles == [] then []
    else if articles[0].id == id then RemoveById(articles[1..], id)
    else [articles[0]] + RemoveById(articles[1..], id)
  }

  /** Filtering keeps the order: it works piecewise on a concatenation. */
  lemma {:induction false} RemoveByIdAppend(xs: seq<SavedArticle>, ys: seq<SavedArticle>, id: string)
    ensures RemoveById(xs + ys, id) == RemoveById(xs, id) + RemoveById(ys, id)
    decreases |xs|
  {
    if xs == [] {
      assert xs + ys == ys;
    } else {
      assert (xs + ys)[0] == xs[0];
      assert (xs + ys)[1..] == xs[1..] + ys;
      RemoveByIdAppend(xs[1..], ys, id);
    }
  }

  /** Deleting an article just saved under a fresh id gives back the index as it was. */
  lemma DeleteUndoesSave(record: SavedArticle, existing: seq<SavedArticle>)
    requires forall a :: a in existing ==> a.id != record.id
    ensures RemoveById([record] + existing, record.id) == existing
  {
    RemoveByIdAppend([record], existing, record.id);
  }

  /** Whether `path` lies in directory `dir`. */
  predicate InDir(dir: string, path: string) {
    |dir| <= |path| && path[..|dir|] == dir
  }

  /** `deleteAsync(dir)`: every file in `dir` is gone; the others stay. */
  function RemoveDir(files: map<string, string>, dir: string): (r: map<string, string>)
    ensures forall p :: p in r <==> p in files && !InDir(dir, p)
    ensures forall p :: p in r ==> r[p] == files[p]
  {
    map p | p in files && !InDir(dir, p) :: files[p]
  }

  /** `${AUDIO_DIR}${id}/` */
  function ArticleDir(audioDir: string, id: string): string {
    audioDir + id + "/"
  }

  /** `${articleDir}chunk_${i}.mp3` */
  function ChunkPath(articleDir: string, i: nat): (r: string)
    ensures InDir(articleDir, r)
  {
    articleDir + "chunk_" + NatToString(i) + ".mp3"
  }

  /** Different chunks of an article are saved to different files. */
  lemma ChunkPathsDistinct(articleDir: string, i: nat, j: nat)
    requires i != j
    ensures ChunkPath(articleDir, i) != ChunkPath(articleDir, j)
  {
    var p := articleDir + "chunk_";
    var a := NatToString(i);
    var b := NatToString(j);
    if ChunkPath(articleDir, i) == ChunkPath(articleDir, j) {
      assert p + a + ".mp3" == p + b + ".mp3";
      assert |a| == |b|;
      assert a == (p + a + ".mp3")[|p|..|p| + |a|];
      assert b == (p + b + ".mp3")[|p|..|p| + |b|];
      NatToStringInjective(i, j);
    }
  }

  /** The paths of the first `n` chunks, in chunk order. */
  function ChunkPaths(articleDir: string, n: nat): (r: seq<string>)
    ensures |r| == n && forall i :: 0 <= i < n ==> r[i] == ChunkPath(articleDir, i)
  {
    seq(n, i requires 0 <= i => ChunkPath(articleDir, i))
  }

  /** The files after the clips are written one by one, clip `i` to chunk `i`'s path. */
  function WithClips(files: map<string, string>, articleDir: string, audio: seq<string>): map<string, string>
    decreases |audio|
  {
    if audio == [] then files
    else WithClips(files, articleDir, audio[..|audio| - 1])[ChunkPath(articleDir, |audio| - 1) := audio[|audio| - 1]]
  }

  /** Writing one more clip: it goes to the next chunk's path. */
  lemma WithClipsSnoc(files: map<string, string>, articleDir: string, audio: seq<string>, clip: string)
    ensures WithClips(files, articleDir, audio + [clip]) == WithClips(files, articleDir, audio)[ChunkPath(articleDir, |audio|) := clip]
  {
    assert (audio + [clip])[..|audio|] == audio;
  }

  /** The paths and progress reports grow by one entry per chunk. */
  lemma ChunkPathsAndProgressSnoc(articleDir: string, i: nat, n: nat)
    ensures ChunkPaths(articleDir, i + 1) == ChunkPaths(articleDir, i) + [ChunkPath(articleDir, i)]
    ensures Progresses(i + 1, n) == Progresses(i, n) + [SaveProgress(i + 1, n)]
  {
  }

  /** After the writes, each chunk's file holds that chunk's clip and every other file is as before. */
  lemma {:induction false} WithClipsContents(files: map<string, string>, articleDir: string, audio: seq<string>)
    ensures forall i :: 0 <= i < |audio| ==>
      ChunkPath(articleDir, i) in WithClips(files, articleDir, audio) &&
      WithClips(files, articleDir, audio)[ChunkPath(articleDir, i)] == audio[i]
    ensures forall p :: p in files && !InDir(articleDir, p) ==>
      p in WithClips(files, articleDir, audio) && WithClips(files, articleDir, audio)[p] == files[p]
    decreases |audio|
  {
    if audio != [] {
      var n := |audio| - 1;
      WithClipsContents(files, articleDir, audio[..n]);
      forall i | 0 <= i < n
        ensures ChunkPath(articleDir, i) != ChunkPath(articleDir, n)
      {
        ChunkPathsDistinct(articleDir, i, n);
      }
    }
  }

  /** Deleting the article's directory also removes every clip written into it. */
  lemma {:induction false} RemoveDirWithClips(files: map<string, string>, articleDir: string, audio: seq<string>)
    ensures RemoveDir(WithClips(files, articleDir, audio), articleDir) == RemoveDir(files, articleDir)
    decreases |audio|
  {
    if audio != [] {
      RemoveDirWithClips(files, articleDir, audio[..|audio| - 1]);
    }
  }

  /** `{ current, total }` */
  datatype SaveProgress = SaveProgress(current: nat, total: nat)

  /** The progress reports for the first `k` of `n` chunks: `(1, n)`, …, `(k, n)`. */
  function Progresses(k: nat, n: nat): (r: seq<SaveProgress>)
    ensures |r| == k && forall i :: 0 <= i < k ==> r[i] == SaveProgress(i + 1, n)
  {
    seq(k, i requires 0 <= i => SaveProgress(i + 1, n))
  }

  /** The answer of `synthesizeSpeech` for each chunk, the server answering chunk `i` with `responses[i]`. */
  function Outcomes(chunks: seq<string>, voiceId: string, apiKey: string, responses: seq<GoogleTts.TtsResponse>): (r: seq<Result<string, GoogleTts.SynthError>>)
    requires |responses| == |chunks|
    ensures |r| == |chunks|
    ensures forall i :: 0 <= i < |chunks| ==> r[i] == GoogleTts.SynthesizeSpeech(chunks[i], voiceId, apiKey, responses[i])
  {
    seq(|chunks|, i requires 0 <= i < |chunks| => GoogleTts.SynthesizeSpeech(chunks[i], voiceId, apiKey, responses[i]))
  }

  /** Synthesizing chunks in order up to the first failure: every clip, or where it failed and why. */
  datatype Synthesis = AllSynthesized(audio: seq<string>) | FailedAt(index: nat, error: GoogleTts.SynthError)

  /** The chunks synthesized one after the other, stopping at the first failure. */
  function SynthesizeAll(outcomes: seq<Result<string, GoogleTts.SynthError>>): Synthesis
    decreases |outcomes|
  {
    if outcomes == [] then AllSynthesized([])
    else
      var n := |outcomes| - 1;
      match SynthesizeAll(outcomes[..n])
      case FailedAt(k, e) => FailedAt(k, e)
      case AllSynthesized(audio) =>
        match outcomes[n]
        case Failure(e) => FailedAt(n, e)
        case Success(clip) => AllSynthesized(audio + [clip])
  }

  /**
   * Either every chunk was synthesized, clip `i` being chunk `i`'s audio, or
   * synthesis stopped at the first chunk that failed, with that chunk's error.
   */
  lemma {:induction false} SynthesizeAllMeaning(outcomes: seq<Result<string, GoogleTts.SynthError>>)
    ensures var s := SynthesizeAll(outcomes);
      s.AllSynthesized? ==> (|s.audio| == |outcomes| &&
        forall i :: 0 <= i < |outcomes| ==> outcomes[i] == Success(s.audio[i]))
    ensures var s := SynthesizeAll(outcomes);
      s.FailedAt? ==> (s.index < |outcomes| && outcomes[s.index] == Failure(s.error) &&
        forall i :: 0 <= i < s.index ==> outcomes[i].Success?)
    decreases |outcomes|
  {
    if outcomes != [] {
      var n := |outcomes| - 1;
      SynthesizeAllMeaning(outcomes[..n]);
    }
  }

  /** Once a prefix of the chunks fails, the whole synthesis fails there. */
  lemma {:induction false} FailureSticks(outcomes: seq<Result<string, GoogleTts.SynthError>>, k: nat)
    requires k <= |outcomes|
    requires SynthesizeAll(outcomes[..k]).FailedAt?
    ensures SynthesizeAll(outcomes) == SynthesizeAll(outcomes[..k])
    decreases |outcomes| - k
  {
    if k < |outcomes| {
      var n := |outcomes| - 1;
      assert outcomes[..n][..k] == outcomes[..k];
      FailureSticks(outcomes[..n], k);
    } else {
      assert outcomes[..k] == outcomes;
    }
  }

  /** Synthesizing one more chunk extends the synthesis of the prefix. */
  lemma SynthesizeStep(outcomes: seq<Result<string, GoogleTts.SynthError>>, i: nat)
    requires i < |outcomes|
    ensures SynthesizeAll(outcomes[..i + 1]) ==
      match SynthesizeAll(outcomes[..i])
      case FailedAt(k, e) => FailedAt(k, e)
      case AllSynthesized(audio) =>
        match outcomes[i]
        case Failure(e) => FailedAt(i, e)
        case Success(clip) => AllSynthesized(audio + [clip])
  {
    assert outcomes[..i + 1][..i] == outcomes[..i];
  }

  /** The index entry `saveArticle` builds. */
  function Record(article: Article, id: string, audioFiles: seq<string>, voiceId: string, now: int): SavedArticle {
    SavedArticle(id, article.url, article.title, article.content, article.language, audioFiles, voiceId, now)
  }

  /**
   * The device's storage as `articleStorage` sees it. `audioDir` is
   * `AUDIO_DIR`: the `saved_audio/` directory on native, empty on the web.
   */
  class ArticleStore {
    const web: bool
    const audioDir: string
    /** The `saved_articles` key. */
    var index: Stored<seq<SavedArticle>>
    /** Native files: path to base64 contents. */
    var files: map<string, string>
    /** The IndexedDB `audio` store: article id to its clips. */
    var webAudio: map<string, seq<string>>

    constructor (web: bool, audioDir: string, index: Stored<seq<SavedArticle>>, files: map<string, string>, webAudio: map<string, seq<string>>)
      ensures this.web == web && this.audioDir == audioDir && this.index == index
      ensures this.files == files && this.webAudio == webAudio
    {
      this.web := web;
      this.audioDir := audioDir;
      this.index := index;
      this.files := files;
      this.webAudio := webAudio;
    }

    /** `getWebAudioData`: the clips stored for an id on the web; null on native, for an unknown id, or when the read fails. */
    function WebAudioData(id: string, readFails: bool): (r: Option<seq<string>>)
      reads this
      ensures r.Some? <==> web && !readFails && id in webAudio
      ensures r.Some? ==> r.value == webAudio[id]
    {
      if !web || readFails then None
      else if id in webAudio then Some(webAudio[id])
      else None
    }

    /**
     * The native loop of `saveArticle`: progress before each chunk, then its
     * synthesis (`outcomes[i]`) and its file; on the first failure the
     * article's directory is deleted.
     */
    static method SaveClipsToFiles(outcomes: seq<Result<string, GoogleTts.SynthError>>, files0: map<string, string>, articleDir: string)
      returns (synthesis: Synthesis, files: map<string, string>, audioFiles: seq<string>, progress: seq<SaveProgress>)
      ensures synthesis == SynthesizeAll(outcomes)
      ensures synthesis.AllSynthesized? ==>
        && audioFiles == ChunkPaths(articleDir, |outcomes|)
        && files == WithClips(files0, articleDir, synthesis.audio)
        && progress == Progresses(|outcomes|, |outcomes|)
      ensures synthesis.FailedAt? ==>
        && files == RemoveDir(files0, articleDir)
        && progress == Progresses(synthesis.index + 1, |outcomes|)
    {
      files := files0;
      audioFiles := [];
      progress := [];
      var audio: seq<string> := [];
      var i := 0;
      while i < |outcomes|
        invariant 0 <= i <= |outcomes|
        invariant SynthesizeAll(outcomes[..i]) == AllSynthesized(audio) && |audio| == i
        invariant audioFiles == ChunkPaths(articleDir, i)
        invariant files == WithClips(files0, articleDir, audio)
        invariant progress == Progresses(i, |outcomes|)
      {
        progress := progress + [SaveProgress(i + 1, |outcomes|)];
        var clip := outcomes[i];
        SynthesizeStep(outcomes, i);
        if clip.Failure? {
          RemoveDirWithClips(files0, articleDir, audio);
          files := RemoveDir(files, articleDir);
          FailureSticks(outcomes, i + 1);
          synthesis := FailedAt(i, clip.error);
          return;
        }
        var filePath := ChunkPath(articleDir, i);
        WithClipsSnoc(files0, articleDir, audio, clip.value);
        ChunkPathsAndProgressSnoc(articleDir, i, |outcomes|);
        files := files[filePath := clip.value];
        audioFiles := audioFiles + [filePath];
        audio := audio + [clip.value];
        i := i + 1;
      }
      assert outcomes[..i] == outcomes;
      synthesis := AllSynthesized(audio);
    }

    /** The web loop of `saveArticle`: progress before each chunk, then its synthesis, kept in memory. */
    static method SaveClipsInMemory(outcomes: seq<Result<string, GoogleTts.SynthError>>)
      returns (synthesis: Synthesis, progress: seq<SaveProgress>)
      ensures synthesis == SynthesizeAll(outcomes)
      ensures synthesis.AllSynthesized? ==> progress == Progresses(|outcomes|, |outcomes|)
      ensures synthesis.FailedAt? ==> progress == Progresses(synthesis.index + 1, |outcomes|)
    {
      progress := [];
      var audioData: seq<string> := [];
      var i := 0;
      while i < |outcomes|
        invariant 0 <= i <= |outcomes|
        invariant SynthesizeAll(outcomes[..i]) == AllSynthesized(audioData)
        invariant progress == Progresses(i, |outcomes|)
      {
        progress := progress + [SaveProgress(i + 1, |outcomes|)];
        var clip := outcomes[i];
        SynthesizeStep(outcomes, i);
        if clip.Failure? {
          FailureSticks(outcomes, i + 1);
          synthesis := FailedAt(i, clip.error);
          return;
        }
        assert (audioData + [clip.value])[..|audioData|] == audioData;
        audioData := audioData + [clip.value];
        i := i + 1;
      }
      assert outcomes[..i] == outcomes;
      synthesis := AllSynthesized(audioData);
    }

    /**
     * `saveArticle` under the fresh id `id` at time `now`. When every chunk is
     * synthesized the new record is put in front of the index, with one file
     * per chunk on native and the clips stored under the id on the web. When a
     * chunk fails, its error is returned, the index is not written, and on
     * native the article's directory is deleted.
     */
    method Save(article: Article, chunks: seq<string>, voiceId: string, apiKey: string,
                id: string, now: int, responses: seq<GoogleTts.TtsResponse>)
      returns (result: Result<SavedArticle, GoogleTts.SynthError>, progress: seq<SaveProgress>)
      requires |responses| == |chunks|
      modifies this
      ensures match SynthesizeAll(Outcomes(chunks, voiceId, apiKey, responses))
        case AllSynthesized(audio) =>
          && result == Success(Record(article, id, if web then [] else ChunkPaths(ArticleDir(audioDir, id), |chunks|), voiceId, now))
          && index == Present([result.value] + GetSavedArticles(old(index)))
          && progress == Progresses(|chunks|, |chunks|)
          && (web ==> files == old(files) && webAudio == old(webAudio)[id := audio])
          && (!web ==> files == WithClips(old(files), ArticleDir(audioDir, id), audio) && webAudio == old(webAudio))
        case FailedAt(k, e) =>
          && result == Failure(e)
          && index == old(index)
          && progress == Progresses(k + 1, |chunks|)
          && webAudio == old(webAudio)
          && (web ==> files == old(files))
          && (!web ==> files == RemoveDir(old(files), ArticleDir(audioDir, id)))
    {
      var outcomes := Outcomes(chunks, voiceId, apiKey, responses);
      var audioFiles: seq<string> := [];
      var synthesis;
      if !web {
        var written;
        synthesis, written, audioFiles, progress := SaveClipsToFiles(outcomes, files, ArticleDir(audioDir, id));
        files := written;
      } else {
        synthesis, progress := SaveClipsInMemory(outcomes);
        if synthesis.AllSynthesized? {
          webAudio := webAudio[id := synthesis.audio];
        }
      }
      if synthesis.FailedAt? {
        result := Failure(synthesis.error);
        return;
      }
      var savedArticle := Record(article, id, audioFiles, voiceId, now);
      var existing := GetSavedArticles(index);
      index := Present([savedArticle] + existing);
      result := Success(savedArticle);
    }

    /**
     * `deleteSavedArticle`: for a known id its audio is deleted (a failed
     * deletion is ignored) and every entry with the id leaves the index; an
     * unknown id changes nothing.
     */
    method Delete(id: string, deletionFails: bool)
      modifies this
      ensures FindById(GetSavedArticles(old(index)), id).None? ==>
        index == old(index) && files == old(files) && webAudio == old(webAudio)
      ensures FindById(GetSavedArticles(old(index)), id).Some? ==>
        && index == Present(RemoveById(GetSavedArticles(old(index)), id))
        && webAudio == (if web && !deletionFails then old(webAudio) - {id} else old(webAudio))
        && files == (if !web && !deletionFails then RemoveDir(old(files), ArticleDir(audioDir, id)) else old(files))
    {
      var articles := GetSavedArticles(index);
      var article := FindById(articles, id);
      if article.Some? {
        if web {
          if !deletionFails {
            webAudio := webAudio - {id};
          }
        } else {
          if !deletionFails {
            files := RemoveDir(files, ArticleDir(audioDir, id));
          }
        }
        var updated := RemoveById(articles, id);
        index := Present(updated);
      }
    }
  }

  /**
   * After a successful save the new article is saved, loads by its id when the
   * id was fresh, and the earlier entries follow it in their old order.
   */
  lemma SavedArticleIsFound(record: SavedArticle, existing: seq<SavedArticle>)
    requires forall a :: a in existing ==> a.id != record.id
    ensures IsArticleSaved(Present([record] + existing), record.url)
    ensures LoadSavedArticle(Present([record] + existing), record.id) == Some(record)
    ensures GetSavedArticles(Present([record] + existing))[1..] == existing
  {
    assert record in [record] + existing;
  }
}
