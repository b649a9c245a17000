# speech-url in Dafny

speech-url is a mobile and web app that reads web articles aloud. The user enters a
URL. The app fetches the page and extracts a title and plain text with a fixed chain of
regular expressions. It splits the text into chunks of about 500 characters and speaks
them one after another. Playback can be paused, resumed, stopped, sped up or slowed
down, and skipped forward and back. An article can also be saved together with its
audio, which Google Cloud Text-to-Speech synthesizes one chunk at a time. Native builds
keep that audio in the file system and the web build keeps it in IndexedDB.

This project models the core of the app and proves what it promises:

- `speech.dfy` (module `Speech`) covers the sentence chunker `splitIntoChunks` and how
  `speak` settles. It proves that the chunks keep every sentence in order and are
  trimmed and non-empty. There are no chunks exactly when the text is blank. The
  packing is greedy. A chunk is at most 501 characters, not 500: the fit test does
  not count the joining space, and a lemma exhibits a 501-character chunk.
- `extractor.dfy` (module `Extractor`) covers `extractTextFromHtml` and `extractArticle`.
  Each regular expression is an exact scanner. The choice between `<article>`,
  `<main>` and the whole page follows the `||` chain exactly. After stripping, no tag
  is left. The cleaned text is trimmed with single spaces. The 100-character guard is
  modelled, and an extracted article always splits into at least one chunk.
- `player.dfy` (module `Player`) covers the playback hook `useArticlePlayer`. It is a
  class whose methods are proved against transition functions on a `PlayerState`
  value, and an invariant is kept across every transition. The lemmas cover
  resume-after-stop, restart-after-completion, the clamped skips and the restart
  on a speed change.
- `google_tts.dfy` (module `GoogleTts`) covers the voice catalog, the voice lookup
  and request of `synthesizeSpeech`, and the result of `validateApiKey`. It also
  covers the module's playback handles, as a class whose methods keep the handles
  consistent.
- `article_storage.dfy` (module `ArticleStorage`) covers the saved-articles index and
  the audio saved with it, through the native and the web paths of `saveArticle` and
  `deleteSavedArticle`.
- `voice_storage.dfy` (module `VoiceStorage`) covers the per-language voice
  preferences.
- `types.dfy`, `jstext.dfy` and `wrappers.dfy` hold the shared records, the parts of
  JavaScript's string semantics used here (`\s`, `trim`, `String(n)`, joins) and
  `Option`/`Result`.

The network, the clock, the id generator, storage reads and the speech engine's
progress are parameters. A fetch is a `FetchOutcome`, a server answer is a
`TtsResponse`, and a storage key holds a `Stored` value. The player's `settles`
argument counts how many utterances settle before the next event reaches the hook.

## Model

| member | source | states |
|---|---|---|
| Speech.SplitIntoChunks | src/services/speech.ts:6-26 | the loop over the sentences returns exactly `Chunks(text)`, the packing the lemmas below describe |
| Speech.ChunksJoinSentences | src/services/speech.ts:6-26 | joining the chunks with single spaces gives the trimmed single-space join of the sentences: no sentence is lost, cut or reordered |
| Speech.ChunksCoverSentences | src/services/speech.ts:8-23 | the chunks are the trimmed buffers of consecutive non-empty runs of sentences that cover the split, except that a blank last sentence may be dropped |
| Speech.ChunksTrimmedNonEmpty | src/services/speech.ts:14-23 | every chunk is non-empty and trimmed |
| Speech.ChunksEmptyIffBlank | src/services/speech.ts:6-26 | there are no chunks exactly when the text is empty or all whitespace |
| Speech.ChunkSizeBound | src/services/speech.ts:4-18 | a chunk of two or more sentences has at most CHUNK_SIZE + 1 characters, and a sentence longer than CHUNK_SIZE is a chunk on its own |
| Speech.ChunksGreedy | src/services/speech.ts:12-19 | every sentence in a chunk fitted when it was appended, and a chunk is closed only when the next sentence does not fit |
| Speech.ChunkCanExceedSizeByOne | src/services/speech.ts:13-17 | two sentences of 500 characters in all, joined by a space, form one chunk of 501 characters |
| Speech.TwoSentences | src/services/speech.ts:8 | the split at `(?<=[.!?])\s+` separates a sentence ending in '.' from the word after one space |
| Speech.SentencesWellFormed | src/services/speech.ts:8 | every sentence but the last holds a non-whitespace character, and a non-blank text starts with a non-blank sentence |
| Speech.SplitFrom | src/services/speech.ts:8 | the first piece is a slice of the text from the start (the whole text when it is the only piece); every piece but the last ends with a terminator, and every piece after the first is empty or starts with a non-whitespace character |
| Speech.SplitFromTiles | src/services/speech.ts:8 | the pieces tile the rest of the text: each piece is the slice that starts where the whitespace run after the previous piece ends, the last runs to the end of the text, and between two pieces lies a non-empty, maximal whitespace run; no character is lost or reordered |
| Speech.SentencesTile | src/services/speech.ts:8 | the sentences with the separating whitespace runs rebuild the whole text |
| Speech.PackCovers | src/services/speech.ts:12-19 | the flushed groups followed by the buffer are exactly the sentences, and no group is empty |
| Speech.PackFits | src/services/speech.ts:13-17 | within every group each sentence fitted the buffer it joined |
| Speech.PackGreedy | src/services/speech.ts:13-15 | a group is flushed only when the sentence after it would overflow it |
| Speech.GlueBlank | src/services/speech.ts:17-21 | a buffer is blank exactly when every sentence in it is blank |
| Speech.GlueJoin | src/services/speech.ts:17 | the buffer is its sentences joined by single spaces |
| Speech.SpeechRequest | src/services/speech.ts:37-40 | the utterance is US English at pitch 1, at the given speed's rate or at 1 without one |
| Speech.Speak | src/services/speech.ts:28-55 | the promise always resolves and never rejects; onDone runs exactly when the utterance finished and onStopped exactly when it was stopped |
| Types.Rate | src/types/index.ts:8 | every speed is a rate between 0.5 and 2, and only the normal speed is rate 1 |
| JsText.Trim | src/services/speech.ts:14 | the result is the slice of the text between a blank prefix and a blank suffix; it is trimmed, and empty exactly when the text is blank |
| JsText.TrimUnique | src/services/speech.ts:14 | a text made of blank, trimmed and blank parts trims to its middle part |
| JsText.NatToStringRoundTrip | src/services/googleTts.ts:150 | the decimal digits of a number read back as that number |
| JsText.NatToStringInjective | src/services/googleTts.ts:150 | different numbers have different decimal strings |
| Extractor.ExtractTextFromHtml | src/services/gemini.ts:17-68 | the title is trimmed (the first `<title>` capture, else "Untitled"); the content is the fragments of the cleaned text longer than 50 characters joined by ". ", or the cleaned text itself when no fragment is that long; non-empty content is never blank |
| Extractor.Title | src/services/gemini.ts:19-20 | the title is always trimmed |
| Extractor.TitleIsFirstMatch | src/services/gemini.ts:19-20 | the title is the trimmed capture of the leftmost `<title>` match |
| Extractor.TitleDefault | src/services/gemini.ts:20 | without a `<title>` match the title is "Untitled" |
| Extractor.FirstMatch | src/services/gemini.ts:19-37 | the match found is the leftmost position with a capture, and when there is none no position has one |
| Extractor.ElementEnd | src/services/gemini.ts:24-33 | an element match starts with the opening name and ends just after a closing tag |
| Extractor.RemoveFrom | src/services/gemini.ts:24-33 | removal never lengthens the text and leaves a text without element matches unchanged |
| Extractor.RemoveAll | src/services/gemini.ts:23-33 | the seven removals never lengthen the page |
| Extractor.TitleCaptureAt | src/services/gemini.ts:19 | a title capture is non-empty and contains no '<' |
| Extractor.BlockCaptureAt | src/services/gemini.ts:36-37 | a block capture stops at the first closing tag: it contains none |
| Extractor.SelectContent | src/services/gemini.ts:36-39 | the first `<article>` capture unless it is missing or empty, then the first `<main>` capture on the same terms, then the whole cleaned page |
| Extractor.StripTags | src/services/gemini.ts:43 | stripping never lengthens the text and leaves a text without '>' unchanged |
| Extractor.StripLeavesNoTag | src/services/gemini.ts:43 | after `/<[^>]+>/g` is replaced, no tag remains |
| Extractor.DecodeEntities | src/services/gemini.ts:45-56 | decoding never lengthens the text and leaves a text without '&' unchanged |
| Extractor.DoubleEscapedLessThan | src/services/gemini.ts:45-47 | `&amp;` is decoded before `&lt;`, so `&amp;lt;` ends as `<` |
| Extractor.CollapseFrom | src/services/gemini.ts:58 | after whitespace runs are collapsed, every whitespace character is a space and no two are adjacent |
| Extractor.Normalize | src/services/gemini.ts:58-59 | the cleaned text is trimmed, uses only single spaces, and is no longer than its input |
| Extractor.SplitDotJoin | src/services/gemini.ts:63 | on cleaned text, joining the `\.\s+` pieces with ". " gives the text back |
| Extractor.SplitPeriodsJoin | src/services/gemini.ts:63 | the split of the whole cleaned text joins back to it |
| Extractor.Keep | src/services/gemini.ts:64 | exactly the pieces longer than 50 characters are kept |
| Extractor.KeepAppend | src/services/gemini.ts:64 | the filter works piece by piece and keeps the order |
| Extractor.ContentFallback | src/services/gemini.ts:62-67 | when no piece is longer than 50 characters the content is the text itself; otherwise it is the long pieces joined by ". " |
| Extractor.ContentNonBlank | src/services/gemini.ts:62-67 | non-empty content of cleaned text is never blank |
| Extractor.CleanText | src/services/gemini.ts:42-59 | the text handed to the paragraph split is trimmed, with only single spaces |
| Extractor.ExtractArticle | src/services/gemini.ts:70-83 | a failed fetch is passed on; content shorter than 100 characters is refused; otherwise the article has the extractor's title and content and the given url, and splits into at least one chunk |
| Player.SkipForwardIndex | src/hooks/useArticlePlayer.ts:137-140 | from a valid index the next index stays in range and moves by one unless at the last chunk; with no chunks it is -1 |
| Player.SkipBackIndex | src/hooks/useArticlePlayer.ts:152 | the previous index is never negative and moves back by one unless at the first chunk |
| Player.SkipsUndo | src/hooks/useArticlePlayer.ts:136-161 | away from the ends, skipping back undoes skipping forward and the other way round |
| Player.RunSpeaksInOrder | src/hooks/useArticlePlayer.ts:81-90 | the loop speaks the chunks from its start on, one utterance each, in order and at the current speed, settles + 1 of them unless the chunks run out |
| Player.RunIndexIsSpokenChunk | src/hooks/useArticlePlayer.ts:81-97 | while the loop waits, the index is the chunk being spoken; when the chunks run out, playing stops and the index returns to 0 |
| Player.StopThenPlayResumes | src/hooks/useArticlePlayer.ts:100-119 | stop keeps the index, so a later play speaks the chunk that was playing first |
| Player.PlayAfterCompletionStartsOver | src/hooks/useArticlePlayer.ts:92-102 | after the last chunk finishes, play starts again at the first chunk |
| Player.PlayStartsAtIndex | src/hooks/useArticlePlayer.ts:74-102 | play unpauses and first speaks the chunk at the stored index |
| Player.PlayWithoutChunks | src/hooks/useArticlePlayer.ts:75 | without chunks, play changes nothing |
| Player.SkipsClampAndRestart | src/hooks/useArticlePlayer.ts:136-161 | the skips stay in range; when idle only the index changes, and when playing, playback restarts unpaused at the new index |
| Player.SetSpeedRestartsOnlyWhenPlaying | src/hooks/useArticlePlayer.ts:121-134 | the speed is always recorded; playing and unpaused, the current chunk is spoken again at the new rate; otherwise nothing else changes |
| Player.ExtractOutcome | src/hooks/useArticlePlayer.ts:48-72 | a blank url only sets the error; success leaves the content's chunks, a positive total equal to their number and index 0; failure leaves no article, a total of 0, the error, and the previous chunks |
| Player.ExtractKeepsInv | src/hooks/useArticlePlayer.ts:48-72 | extract keeps the hook's invariant |
| Player.RunKeepsInv | src/hooks/useArticlePlayer.ts:81-97 | the playback loop keeps the hook's invariant |
| Player.RestartKeepsInv | src/hooks/useArticlePlayer.ts:74-98 | starting playback at a valid chunk keeps the hook's invariant |
| Player.SettleKeepsInv | src/hooks/useArticlePlayer.ts:87-97 | an utterance settling keeps the hook's invariant |
| Player.RestartsKeepInv | src/hooks/useArticlePlayer.ts:100-161 | play, setSpeed and the skips keep the hook's invariant |
| Player.ArticlePlayer.constructor | src/hooks/useArticlePlayer.ts:33-46 | the hook starts empty, idle, at speed 1 and index 0 |
| Player.ArticlePlayer.SetUrl | src/hooks/useArticlePlayer.ts:33 | only the url changes |
| Player.ArticlePlayer.Extract | src/hooks/useArticlePlayer.ts:48-72 | the new state is the extract transition of the old one, and the invariant holds |
| Player.ArticlePlayer.RunLoop | src/hooks/useArticlePlayer.ts:81-97 | the loop's new state is `RunFrom` of the old one |
| Player.ArticlePlayer.PlayFromIndex | src/hooks/useArticlePlayer.ts:74-98 | the new state is the playFromIndex transition of the old one |
| Player.ArticlePlayer.Play | src/hooks/useArticlePlayer.ts:100-102 | the new state is the play transition, and the invariant holds |
| Player.ArticlePlayer.ChunkSettled | src/hooks/useArticlePlayer.ts:87-97 | the awaited utterance settling resumes the loop at the next chunk, and the invariant holds |
| Player.ArticlePlayer.Pause | src/hooks/useArticlePlayer.ts:104-107 | only the paused flag is set |
| Player.ArticlePlayer.Resume | src/hooks/useArticlePlayer.ts:109-112 | only the paused flag is cleared |
| Player.ArticlePlayer.Stop | src/hooks/useArticlePlayer.ts:114-119 | playing and paused are cleared, and the index is kept |
| Player.ArticlePlayer.SetSpeed | src/hooks/useArticlePlayer.ts:121-134 | the new state is the setSpeed transition, and the invariant holds |
| Player.ArticlePlayer.SkipForward | src/hooks/useArticlePlayer.ts:136-149 | the new state is the skipForward transition, and the invariant holds |
| Player.ArticlePlayer.SkipBack | src/hooks/useArticlePlayer.ts:151-161 | the new state is the skipBack transition, and the invariant holds |
| GoogleTts.VoicesForLanguage | src/services/googleTts.ts:26-45 | five voices for Swedish and six otherwise; they are exactly the catalog voices with the language's code |
| GoogleTts.CatalogIdsUnique | src/services/googleTts.ts:26-41 | no two catalog voices share an id |
| GoogleTts.FindVoice | src/services/googleTts.ts:52 | the voice found has the id, and none is found exactly when no voice has it |
| GoogleTts.SynthesisRequest | src/services/googleTts.ts:52-76 | an unknown voice id fails with VoiceNotFound; otherwise the request carries the text, the voice, its catalog language code, MP3 and rate 1.0 |
| GoogleTts.SynthesizeSpeech | src/services/googleTts.ts:47-89 | an unknown voice fails before any request; a response that is not ok fails with the server's non-empty message, else "Failed to synthesize speech"; otherwise the audio content is returned |
| GoogleTts.VoiceNotFoundIffUnknown | src/services/googleTts.ts:52-55 | synthesis fails with VoiceNotFound exactly when the catalog has no voice with that id |
| GoogleTts.LanguageVoicesAccepted | src/services/googleTts.ts:43-76 | every voice offered for a language is accepted, and its request carries that language's code |
| GoogleTts.MessageOr | src/services/googleTts.ts:83 | a present non-empty message is the result; an absent or empty one gives the fallback |
| GoogleTts.ValidateApiKey | src/services/googleTts.ts:226-245 | valid exactly when the probe's response is ok; otherwise the server's non-empty message, else (absent or empty) `Error <status>`, or the thrown message, or "Network error" |
| GoogleTts.TempFilesDistinct | src/services/googleTts.ts:150 | clips played at different times get different temporary files |
| GoogleTts.AudioPlayback.constructor | src/services/googleTts.ts:91-93 | no handle is held at start |
| GoogleTts.AudioPlayback.PlayAudio | src/services/googleTts.ts:95-182 | web: a new element plays the data URL; native: the previous file is deleted and the clip is written to a fresh temporary file that a new sound plays |
| GoogleTts.AudioPlayback.PlaybackFinished | src/services/googleTts.ts:112-181 | when a clip ends, every handle is released and the native temporary file is deleted |
| GoogleTts.AudioPlayback.StopAudio | src/services/googleTts.ts:184-206 | every handle is released and the temporary file deleted |
| GoogleTts.AudioPlayback.PauseAudio | src/services/googleTts.ts:208-215 | whichever handle is present is paused; nothing else changes |
| GoogleTts.AudioPlayback.ResumeAudio | src/services/googleTts.ts:217-224 | whichever handle is present plays again; nothing else changes |
| ArticleStorage.GetSavedArticles | src/services/articleStorage.ts:77-86 | the stored list, or the empty list when the key is empty or unreadable |
| ArticleStorage.AnyWithUrl | src/services/articleStorage.ts:90 | true exactly when some entry has the url |
| ArticleStorage.IsArticleSaved | src/services/articleStorage.ts:88-91 | true exactly when some saved article has the url |
| ArticleStorage.FindById | src/services/articleStorage.ts:175 | the first entry with the id, and none exactly when no entry has it |
| ArticleStorage.LoadSavedArticle | src/services/articleStorage.ts:201-204 | the first saved article with the id (no earlier entry has it), and null exactly when none has it |
| ArticleStorage.RemoveById | src/services/articleStorage.ts:196 | exactly the entries with another id remain, and without a match the list is unchanged |
| ArticleStorage.RemoveByIdAppend | src/services/articleStorage.ts:196 | the filter works piecewise and keeps the order |
| ArticleStorage.DeleteUndoesSave | src/services/articleStorage.ts:166-197 | deleting an article just saved under a fresh id gives back the index as it was |
| ArticleStorage.SavedArticleIsFound | src/services/articleStorage.ts:166-168 | after a save the article is saved, loads by its id, and the earlier entries follow in their old order |
| ArticleStorage.RemoveDir | src/services/articleStorage.ts:131 | deleting a directory removes exactly the files in it and leaves the others as they were |
| ArticleStorage.ChunkPath | src/services/articleStorage.ts:122 | a chunk's file lies in the article's directory |
| ArticleStorage.ChunkPathsDistinct | src/services/articleStorage.ts:122 | different chunks go to different files |
| ArticleStorage.ChunkPaths | src/services/articleStorage.ts:113-128 | one path per chunk, in chunk order |
| ArticleStorage.WithClipsContents | src/services/articleStorage.ts:113-128 | after the writes each chunk's file holds that chunk's audio and every file outside the directory is unchanged |
| ArticleStorage.RemoveDirWithClips | src/services/articleStorage.ts:129-137 | deleting the directory also removes every clip written into it |
| ArticleStorage.Progresses | src/services/articleStorage.ts:114 | the progress reports are (1, n), …, (k, n) |
| ArticleStorage.Outcomes | src/services/articleStorage.ts:116-120 | one `synthesizeSpeech` answer per chunk, in order |
| ArticleStorage.SynthesizeAllMeaning | src/services/articleStorage.ts:113-150 | either every chunk was synthesized and clip i is chunk i's audio, or synthesis stopped at the first failing chunk with its error |
| ArticleStorage.FailureSticks | src/services/articleStorage.ts:113-150 | once a chunk fails, nothing after it is synthesized |
| ArticleStorage.ArticleStore.SaveClipsToFiles | src/services/articleStorage.ts:107-137 | progress before each chunk, one file per synthesized chunk, and the article's directory deleted at the first failure |
| ArticleStorage.ArticleStore.SaveClipsInMemory | src/services/articleStorage.ts:139-150 | progress before each chunk, and the clips collected in order up to the first failure |
| ArticleStorage.ArticleStore.Save | src/services/articleStorage.ts:93-171 | on success the record goes in front of the index, with one file per chunk on native and the clips stored under the id on the web; on a failure the error is returned, the index is not written, and on native the article's directory is deleted |
| ArticleStorage.ArticleStore.Delete | src/services/articleStorage.ts:173-199 | for a known id its audio is deleted unless deletion fails, and its entries leave the index; an unknown id changes nothing |
| ArticleStorage.ArticleStore.WebAudioData | src/services/articleStorage.ts:206-213 | the clips stored for the id on the web, and null on native, for an unknown id or when the read fails |
| ArticleStorage.ArticleStore.constructor | src/services/articleStorage.ts:7-10 | the store holds the given index, files and web audio |
| VoiceStorage.Load | src/services/voiceStorage.ts:11-21 | the stored preferences, or no voice for either language when the key is empty or unreadable |
| VoiceStorage.WithVoice | src/services/voiceStorage.ts:28 | the language gets the voice and the other language keeps its own |
| VoiceStorage.SaveVoiceForLanguage | src/services/voiceStorage.ts:23-30 | afterwards the language has the voice and the other language keeps its loaded value |
| VoiceStorage.Clear | src/services/voiceStorage.ts:32-34 | afterwards loading gives the defaults |
| VoiceStorage.SaveThenLoad | src/services/voiceStorage.ts:11-30 | a saved voice loads back, and saves for the two languages commute |
| VoiceStorage.SaveOverwrites | src/services/voiceStorage.ts:23-30 | saving the same language twice keeps only the later voice |
| VoiceStorage.ClearThenSave | src/services/voiceStorage.ts:23-34 | after clearing, a save records only that language's voice |

## Notes on the code

The model follows the code in each of these cases.

- Chunk length: `CHUNK_SIZE` is 500 (src/services/speech.ts:4), yet a chunk of several sentences can reach 501 characters. The fit test at src/services/speech.ts:13 compares the buffer and the next sentence with the limit but ignores the space that joins them. `Speech.ChunkSizeBound` states 501, and `Speech.ChunkCanExceedSizeByOne` reaches it.
- Deleting a saved article: a failed removal of the audio (IndexedDB entry or audio directory) is caught and ignored (src/services/articleStorage.ts:180-192), and the index entry is removed anyway (src/services/articleStorage.ts:196-197). `ArticleStorage.ArticleStore.Delete` does the same.
- Content choice: the code takes the capture of the first `<article>` match and falls back when that capture is empty. It does not search for a later non-empty `<article>` (src/services/gemini.ts:36-39). `Extractor.SelectContent` does the same.
- Languages: the extractor returns no language, and the saved record copies `article.language` as it is (src/services/articleStorage.ts:160), so the field is optional here.

## Left out

- Characters outside the Basic Multilingual Plane: a string is a sequence of UTF-16 code units, and surrogate pairs are not treated specially.
- Regular expressions with the `i` flag compare ASCII letters only. That is exact for these all-ASCII patterns.
- Fetching the page (`fetchPageContent`), HTTP and JSON decoding are not modelled. A fetch is a `FetchOutcome`, a server answer is a `TtsResponse` or a `Probe`, and a storage key is a `Stored` value. A response body whose `json()` throws is not modelled.
- Player.ArticlePlayer.Extract takes the outcome of `extractArticle(url)` as a parameter instead of fetching. `Player.ExtractOutcome` connects it to `Extractor.ExtractArticle`.
- Player: React's asynchronous state updates and re-renders are not modelled. The state and the ref that shadows it are one field, and `isLoading` is only true while a fetch is in flight, so it is false between events.
- Player: a restart after `setSpeed` or a skip while playing lets the old loop run on until its `speak` settles, beside the new loop. The model drops the old loop at once. This is atomic restart, not the interleaving of two loops.
- Player.ArticlePlayer.Stop: the `await SpeechService.stop()` between clearing the ref and clearing the React state is not modelled; the method is atomic.
- Player.ArticlePlayer.Play requires that nothing is playing. The play/pause button calls `play` only then (src/components/PlaybackControls.tsx:37-45).
- Player: error messages are constructors (`EmptyUrl`, `ExtractFailed`), not strings.
- Speech: the native speech engine (`expo-speech`) is an `EngineEvent`. Its `stop`, `pause`, `resume`, `isSpeaking`, `testVoice` and voice listing are not modelled.
- Speech rates and the speaking rate are `real`. Floating point is not modelled.
- GoogleTts: `configureAudio`, the expo-av and HTML audio objects, and logging are not modelled. A playback handle is a value, and the file system is a map from path to base64 contents.
- GoogleTts.AudioPlayback.PlayAudio: `Date.now()` is the parameter `now`, and `onDone` callbacks are not modelled.
- ArticleStorage: `generateId` (clock plus `Math.random`) and `Date.now()` are parameters. Failures of file writes, directory creation and IndexedDB writes are not modelled, and neither is the directory creation itself.
- ArticleStorage.ArticleStore.Save: a thrown synthesis error is a `Failure` result.
- ArticleStorage: the stored index is assumed to parse to an array, or to fail to parse. A value that parses to something else, such as "null", makes `some`, `find` and `filter` throw (src/services/articleStorage.ts:81, 90, 175, 203); a `Stored` value cannot express that case.
- VoiceStorage: the stored JSON is assumed to have the `VoicePreferences` shape, and a failed `setItem` is not modelled.
- `apiKeyStorage.ts`, `geminiKeyStorage.ts` and the UI components are not part of this model. The one exception is the play/pause rule quoted above.
- Summarization, language detection and the content-mode choice of the UI are not part of this model.
