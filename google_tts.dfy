/**
 * The Google Cloud Text-to-Speech client (src/services/googleTts.ts): the
 * fixed voice catalog, the voice lookup and request of `synthesizeSpeech`,
 * the result of `validateApiKey`, and the module-level playback handles.
 * The HTTP exchange is a parameter: the response the server gives.
 */
module GoogleTts {
  import opened Wrappers
  import opened Types
  import opened JsText

  datatype Gender = Male | Female

  datatype GoogleVoice = GoogleVoice(id: string, name: string, languageCode: string, gender: Gender)

  const SwedishVoices: seq<GoogleVoice> := [
    GoogleVoice("sv-SE-Wavenet-A", "Swedish Female 1", "sv-SE", Female),
    GoogleVoice("sv-SE-Wavenet-B", "Swedish Female 2", "sv-SE", Female),
    GoogleVoice("sv-SE-Wavenet-C", "Swedish Female 3", "sv-SE", Female),
    GoogleVoice("sv-SE-Wavenet-D", "Swedish Male 1", "sv-SE", Male),
    GoogleVoice("sv-SE-Wavenet-E", "Swedish Male 2", "sv-SE", Male)
  ]

  const EnglishVoices: seq<GoogleVoice> := [
    GoogleVoice("en-US-Wavenet-A", "English Male 1", "en-US", Male),
    GoogleVoice("en-US-Wavenet-B", "English Male 2", "en-US", Male),
    GoogleVoice("en-US-Wavenet-C", "English Female 1", "en-US", Female),
    GoogleVoice("en-US-Wavenet-D", "English Male 3", "en-US", Male),
    GoogleVoice("en-US-Wavenet-E", "English Female 2", "en-US", Female),
    GoogleVoice("en-US-Wavenet-F", "English Female 3", "en-US", Female)
  ]

  /** Every voice `synthesizeSpeech` accepts: the Swedish list, then the English one. */
  const Catalog: seq<GoogleVoice> := SwedishVoices + EnglishVoices

  /** The language code the voices of a language carry. */
  function LanguageCode(language: Language): string {
    match language
    case Sv => "sv-SE"
    case En => "en-US"
  }

  /** `getGoogleVoicesForLanguage`: the five Swedish voices for Swedish, the six English ones otherwise. */
  function VoicesForLanguage(language: Language): (r: seq<GoogleVoice>)
    ensures |r| == (if language == Sv then 5 else 6)
    ensures forall v :: v in r ==> v in Catalog && v.languageCode == LanguageCode(language)
    ensures forall v :: v in Catalog && v.languageCode == LanguageCode(language) ==> v in r
  {
    var r := if language == Sv then SwedishVoices else EnglishVoices;
    VoicesOfLanguage(language, r);
    r
  }

  lemma VoicesOfLanguage(language: Language, r: seq<GoogleVoice>)
    requires r == if language == Sv then SwedishVoices else EnglishVoices
    ensures forall v :: v in r ==> v in Catalog && v.languageCode == LanguageCode(language)
    ensures forall v :: v in Catalog && v.languageCode == LanguageCode(language) ==> v in r
  {
    CatalogLanguages();
  }

  /** The catalog is the Swedish voices followed by the English ones, each list in its own language. */
  lemma CatalogLanguages()
    ensures forall i :: 0 <= i < |SwedishVoices| ==> SwedishVoices[i].languageCode == "sv-SE"
    ensures forall i :: 0 <= i < |EnglishVoices| ==> EnglishVoices[i].languageCode == "en-US"
    ensures forall v :: v in Catalog ==> v in SwedishVoices || v in EnglishVoices
    ensures forall v :: v in SwedishVoices || v in EnglishVoices ==> v in Catalog
    ensures "sv-SE" != "en-US"
  {
    assert "sv-SE"[0] != "en-US"[0];
  }

  /** No two voices of the catalog share an id, so a voice id names one voice. */
  lemma CatalogIdsUnique()
    ensures forall i, j :: 0 <= i < j < |Catalog| ==> Catalog[i].id != Catalog[j].id
  {
    forall i, j | 0 <= i < j < |Catalog|
      ensures Catalog[i].id != Catalog[j].id
    {
      // the ids differ in their language prefix or in their last letter
      var a := Catalog[i].id;
      var b := Catalog[j].id;
      if i < 5 <= j {
        assert a[0] != b[0];
      } else {
        assert a[14] != b[14];
      }
    }
  }

  /** `Array.prototype.find` by id: the first voice with that id. */
  function FindVoice(voices: seq<GoogleVoice>, id: string): (r: Option<GoogleVoice>)
    ensures r.Some? ==> r.value in voices && r.value.id == id
    ensures r.None? <==> forall v :: v in voices ==> v.id != id
  {
    if voices == [] then None
    else if voices[0].id == id then Some(voices[0])
    else FindVoice(voices[1..], id)
  }

  /** The body and key of the `text:synthesize` request. */
  datatype TtsRequest = TtsRequest(
    apiKey: string,
    text: string,
    languageCode: string,
    name: string,
    audioEncoding: string,
    speakingRate: real)

  /**
   * The server's answer: whether it was ok, the `error.message` of an error
   * body if it has one, and the `audioContent` of a success body.
   */
  datatype TtsResponse = TtsResponse(ok: bool, errorMessage: Option<string>, audioContent: string)

  /** Why `synthesizeSpeech` threw. */
  datatype SynthError =
    | VoiceNotFound(voiceId: string)   // "Voice not found: <id>"
    | ApiFailed(message: string)       // the server's message, or "Failed to synthesize speech"

  /** JavaScript's `message || fallback`: an absent or empty message gives the fallback. */
  function MessageOr(message: Option<string>, fallback: string): (r: string)
    ensures message.Some? && message.value != [] ==> r == message.value
    ensures !(message.Some? && message.value != []) ==> r == fallback
    ensures fallback != [] ==> r != []
  {
    if message.Some? && message.value != [] then message.value else fallback
  }

  /** The request `synthesizeSpeech` sends, or why it sends none. */
  function SynthesisRequest(text: string, voiceId: string, apiKey: string): (r: Result<TtsRequest, SynthError>)
    ensures r.Failure? <==> (forall v :: v in Catalog ==> v.id != voiceId)
    ensures r.Failure? ==> r.error == VoiceNotFound(voiceId)
    ensures r.Success? ==>
      && r.value.speakingRate == 1.0
      && r.value.audioEncoding == "MP3"
      && r.value.text == text && r.value.name == voiceId && r.value.apiKey == apiKey
      && exists v :: v in Catalog && v.id == voiceId && r.value.languageCode == v.languageCode
  {
    match FindVoice(Catalog, voiceId)
    case None => Failure(VoiceNotFound(voiceId))
    case Some(voice) => Success(TtsRequest(apiKey, text, voice.languageCode, voiceId, "MP3", 1.0))
  }

  /**
   * `synthesizeSpeech` given the server's response: an unknown voice fails
   * before any request; a response that is not ok fails with the server's
   * message; otherwise the base64 audio is returned.
   */
  function SynthesizeSpeech(text: string, voiceId: string, apiKey: string, response: TtsResponse): (r: Result<string, SynthError>)
    ensures SynthesisRequest(text, voiceId, apiKey).Failure? ==> r == Failure(VoiceNotFound(voiceId))
    ensures SynthesisRequest(text, voiceId, apiKey).Success? ==>
      (r.Success? <==> response.ok) &&
      (r.Success? ==> r.value == response.audioContent) &&
      (r.Failure? ==> r.error == ApiFailed(MessageOr(response.errorMessage, "Failed to synthesize speech"))) &&
      (r.Failure? ==> r.error.message != [])
  {
    match SynthesisRequest(text, voiceId, apiKey)
    case Failure(e) => Failure(e)
    case Success(_) =>
      if !response.ok then Failure(ApiFailed(MessageOr(response.errorMessage, "Failed to synthesize speech")))
      else Success(response.audioContent)
  }

  /** Whether `synthesizeSpeech` accepts a voice id depends only on the catalog, not on text, key or server. */
  lemma VoiceNotFoundIffUnknown(text: string, voiceId: string, apiKey: string, response: TtsResponse)
    ensures SynthesizeSpeech(text, voiceId, apiKey, response) == Failure(VoiceNotFound(voiceId)) <==>
      FindVoice(Catalog, voiceId).None?
  {
  }

  /** Every voice of either language is accepted, and its request carries that language's code. */
  lemma LanguageVoicesAccepted(language: Language, v: GoogleVoice, text: string, apiKey: string)
    requires v in VoicesForLanguage(language)
    ensures SynthesisRequest(text, v.id, apiKey).Success?
    ensures SynthesisRequest(text, v.id, apiKey).value.languageCode == LanguageCode(language)
  {
    CatalogIdsUnique();
    var w := FindVoice(Catalog, v.id).value;
    var i :| 0 <= i < |Catalog| && Catalog[i] == v;
    var j :| 0 <= j < |Catalog| && Catalog[j] == w;
    assert i == j;
  }

  /** How the `voices` probe of `validateApiKey` ended. */
  datatype Probe =
    | ProbeResponse(ok: bool, status: nat, errorMessage: Option<string>)
    | ProbeThrew(isError: bool, message: string)   // a thrown `Error` and its message, or another value

  /** `{ valid, error? }` */
  datatype Validation = Validation(valid: bool, error: Option<string>)

  /**
   * `validateApiKey`: valid exactly when the probe's response is ok. Otherwise
   * the error is the server's message, else `Error <status>`; when the probe
   * threw, the thrown message, or "Network error" for a non-`Error` value.
   */
  function ValidateApiKey(probe: Probe): (r: Validation)
    ensures r.valid <==> probe.ProbeResponse? && probe.ok
    ensures r.valid ==> r.error.None?
    ensures !r.valid ==> r.error.Some?
    ensures probe.ProbeResponse? && !probe.ok ==>
      r.error.value != [] &&
      (probe.errorMessage.Some? && probe.errorMessage.value != [] ==> r.error.value == probe.errorMessage.value) &&
      (probe.errorMessage.None? || probe.errorMessage.value == [] ==> r.error.value == "Error " + NatToString(probe.status))
    ensures probe.ProbeThrew? ==> r.error.value == (if probe.isError then probe.message else "Network error")
  {
    match probe
    case ProbeResponse(ok, status, errorMessage) =>
      if ok then Validation(true, None)
      else Validation(false, Some(MessageOr(errorMessage, "Error " + NatToString(status))))
    case ProbeThrew(isError, message) =>
      Validation(false, Some(if isError then message else "Network error"))
  }

  /** A native sound loaded from a file, playing or paused. */
  datatype Sound = Sound(uri: string, paused: bool)

  /** A web `Audio` element over a data URL, playing or paused, and its position. */
  datatype WebAudio = WebAudio(src: string, paused: bool, atStart: bool)

  /** The temporary file `playAudio` writes for a clip, named after the clock. */
  function TempFile(cacheDirectory: string, now: nat): string {
    cacheDirectory + "tts_audio_" + NatToString(now) + ".mp3"
  }

  /**
   * The module's playback handles, `currentSound`, `currentTempFile` and
   * `currentWebAudio`, with the cache directory the temporary files live in.
   * On the web only the audio element is used; on native only the sound and
   * its file.
   */
  class AudioPlayback {
    const web: bool
    const cacheDirectory: string
    var currentSound: Option<Sound>
    var currentTempFile: Option<string>
    var currentWebAudio: Option<WebAudio>
    var cache: map<string, string>

    predicate Valid()
      reads this
    {
      && (web ==> currentSound.None? && currentTempFile.None?)
      && (!web ==> currentWebAudio.None?)
      && (currentSound.Some? ==> currentTempFile == Some(currentSound.value.uri))
      && (currentTempFile.Some? ==> currentTempFile.value in cache)
    }

    constructor (web: bool, cacheDirectory: string)
      ensures this.web == web && this.cacheDirectory == cacheDirectory
      ensures currentSound.None? && currentTempFile.None? && currentWebAudio.None? && cache == map[]
      ensures Valid()
    {
      this.web := web;
      this.cacheDirectory := cacheDirectory;
      currentSound := None;
      currentTempFile := None;
      currentWebAudio := None;
      cache := map[];
    }

    /**
     * `playAudio`: on the web the previous element is dropped and a new one
     * plays the data URL; on native the previous sound is unloaded, its file
     * deleted, and the clip written to a fresh temporary file that a new sound
     * plays.
     */
    method PlayAudio(base64Audio: string, now: nat)
      requires Valid()
      modifies this
      ensures Valid()
      ensures web ==>
        && currentWebAudio == Some(WebAudio("data:audio/mp3;base64," + base64Audio, false, true))
        && cache == old(cache)
      ensures !web ==>
        && currentTempFile == Some(TempFile(cacheDirectory, now))
        && currentSound == Some(Sound(TempFile(cacheDirectory, now), false))
        && cache == (if old(currentTempFile).Some? then old(cache) - {old(currentTempFile).value} else old(cache))
                      [TempFile(cacheDirectory, now) := base64Audio]
    {
      if web {
        if currentWebAudio.Some? {
          currentWebAudio := None;
        }
        currentWebAudio := Some(WebAudio("data:audio/mp3;base64," + base64Audio, false, true));
        return;
      }
      if currentSound.Some? {
        currentSound := None;
      }
      if currentTempFile.Some? {
        cache := cache - {currentTempFile.value};
        currentTempFile := None;
      }
      var tempFile := TempFile(cacheDirectory, now);
      cache := cache[tempFile := base64Audio];
      currentTempFile := Some(tempFile);
      currentSound := Some(Sound(tempFile, false));
    }

    /** The clip ended (the web element's `onended`/`onerror`, or the native status callback). */
    method PlaybackFinished()
      requires Valid()
      modifies this
      ensures Valid()
      ensures currentSound.None? && currentTempFile.None? && currentWebAudio.None?
      ensures web ==> cache == old(cache)
      ensures !web ==> cache == (if old(currentTempFile).Some? then old(cache) - {old(currentTempFile).value} else old(cache))
    {
      if web {
        currentWebAudio := None;
        return;
      }
      if currentTempFile.Some? {
        cache := cache - {currentTempFile.value};
        currentTempFile := None;
      }
      currentSound := None;
    }

    /** `stopAudio`: every handle is released and the temporary file deleted. */
    method StopAudio()
      requires Valid()
      modifies this
      ensures Valid()
      ensures currentSound.None? && currentTempFile.None? && currentWebAudio.None?
      ensures cache == (if old(currentTempFile).Some? then old(cache) - {old(currentTempFile).value} else old(cache))
    {
      if currentWebAudio.Some? {
        currentWebAudio := None;
      }
      if currentSound.Some? {
        currentSound := None;
      }
      if currentTempFile.Some? {
        cache := cache - {currentTempFile.value};
        currentTempFile := None;
      }
    }

    /** `pauseAudio`: whichever handle is present is paused; nothing else changes. */
    method PauseAudio()
      requires Valid()
      modifies this
      ensures Valid()
      ensures currentWebAudio == (if old(currentWebAudio).Some? then Some(old(currentWebAudio).value.(paused := true)) else None)
      ensures currentSound == (if old(currentSound).Some? then Some(old(currentSound).value.(paused := true)) else None)
      ensures currentTempFile == old(currentTempFile) && cache == old(cache)
    {
      if currentWebAudio.Some? {
        currentWebAudio := Some(currentWebAudio.value.(paused := true));
      }
      if currentSound.Some? {
        currentSound := Some(currentSound.value.(paused := true));
      }
    }

    /** `resumeAudio`: whichever handle is present plays again; nothing else changes. */
    method ResumeAudio()
      requires Valid()
      modifies this
      ensures Valid()
      ensures currentWebAudio == (if old(currentWebAudio).Some? then Some(old(currentWebAudio).value.(paused := false)) else None)
      ensures currentSound == (if old(currentSound).Some? then Some(old(currentSound).value.(paused := false)) else None)
      ensures currentTempFile == old(currentTempFile) && cache == old(cache)
    {
      if currentWebAudio.Some? {
        currentWebAudio := Some(currentWebAudio.value.(paused := false));
      }
      if currentSound.Some? {
        currentSound := Some(currentSound.value.(paused := false));
      }
    }
  }

  /** Clips played at different times go to different temporary files. */
  lemma TempFilesDistinct(cacheDirectory: string, m: nat, n: nat)
    requires m != n
    ensures TempFile(cacheDirectory, m) != TempFile(cacheDirectory, n)
  {
    var p := cacheDirectory + "tts_audio_";
    var a := NatToString(m);
    var b := NatToString(n);
    if TempFile(cacheDirectory, m) == TempFile(cacheDirectory, n) {
      assert p + a + ".mp3" == p + b + ".mp3";
      assert |a| == |b|;
      assert a == (p + a + ".mp3")[|p|..|p| + |a|];
      assert b == (p + b + ".mp3")[|p|..|p| + |b|];
      NatToStringInjective(m, n);
    }
  }
}
