/**
 * The chosen voice per language (src/services/voiceStorage.ts), kept under the
 * `voice_preferences` key. The key's contents are a `Stored` value: missing,
 * unreadable, or the parsed preferences.
 */
module VoiceStorage {
  import opened Wrappers
  import opened Types

  /** `DEFAULT_PREFERENCES`: no voice chosen for either language. */
  const Defaults := VoicePreferences(None, None)

  /** `loadVoicePreferences`: the stored preferences, or the defaults when the key is empty or cannot be read. */
  function Load(stored: Stored<VoicePreferences>): (r: VoicePreferences)
    ensures stored.Present? ==> r == stored.value
    ensures !stored.Present? ==> r.en.None? && r.sv.None?
  {
    if stored.Present? then stored.value else Defaults
  }

  /** The voice chosen for `language`. */
  function Voice(p: VoicePreferences, language: Language): Option<string> {
    match language
    case En => p.en
    case Sv => p.sv
  }

  /** `{ ...current, [language]: voiceId }` */
  function WithVoice(p: VoicePreferences, language: Language, voiceId: string): (r: VoicePreferences)
    ensures Voice(r, language) == Some(voiceId)
    ensures forall other :: other != language ==> Voice(r, other) == Voice(p, other)
  {
    match language
    case En => p.(en := Some(voiceId))
    case Sv => p.(sv := Some(voiceId))
  }

  /** `saveVoiceForLanguage`: what the key holds afterwards. */
  function SaveVoiceForLanguage(stored: Stored<VoicePreferences>, language: Language, voiceId: string): (r: Stored<VoicePreferences>)
    ensures r.Present?
    ensures Voice(r.value, language) == Some(voiceId)
    ensures forall other :: other != language ==> Voice(r.value, other) == Voice(Load(stored), other)
  {
    Present(WithVoice(Load(stored), language, voiceId))
  }

  /** `clearVoicePreferences`: the key is removed. */
  function Clear(stored: Stored<VoicePreferences>): (r: Stored<VoicePreferences>)
    ensures Load(r) == Defaults
  {
    Missing
  }

  /** A saved voice loads back; saving for both languages keeps both, in either order. */
  lemma SaveThenLoad(stored: Stored<VoicePreferences>, language: Language, voiceId: string, other: Language, otherId: string)
    requires other != language
    ensures Voice(Load(SaveVoiceForLanguage(stored, language, voiceId)), language) == Some(voiceId)
    ensures var both := SaveVoiceForLanguage(SaveVoiceForLanguage(stored, language, voiceId), other, otherId);
      Voice(Load(both), language) == Some(voiceId) && Voice(Load(both), other) == Some(otherId)
    ensures SaveVoiceForLanguage(SaveVoiceForLanguage(stored, language, voiceId), other, otherId) ==
      SaveVoiceForLanguage(SaveVoiceForLanguage(stored, other, otherId), language, voiceId)
  {
  }

  /** Saving the same language twice keeps only the later choice. */
  lemma SaveOverwrites(stored: Stored<VoicePreferences>, language: Language, first: string, second: string)
    ensures SaveVoiceForLanguage(SaveVoiceForLanguage(stored, language, first), language, second) ==
      SaveVoiceForLanguage(stored, language, second)
  {
  }

  /** After clearing, a save records only that one language's voice. */
  lemma ClearThenSave(stored: Stored<VoicePreferences>, language: Language, voiceId: string, other: Language)
    requires other != language
    ensures Voice(Load(SaveVoiceForLanguage(Clear(stored), language, voiceId)), other).None?
  {
  }
}
