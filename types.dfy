/**
 * The records shared by the services and the player hook (src/types/index.ts).
 * `Language`, `SavedArticle` and `VoicePreferences` are used by the services but
 * not declared in that file; they are declared here from their use.
 */
module Types {
  import opened Wrappers

  /** The two languages the app reads aloud. */
  datatype Language = En | Sv

  /** `PlaybackSpeed = 0.5 | 0.75 | 1 | 1.25 | 1.5 | 2`: a closed set, one constructor per value. */
  datatype PlaybackSpeed = Half | ThreeQuarters | Normal | OneAndAQuarter | OneAndAHalf | Double

  /** The rate each speed stands for. */
  function Rate(s: PlaybackSpeed): (r: real)
    ensures 0.5 <= r <= 2.0
    ensures r == 1.0 <==> s == Normal
  {
    match s
    case Half => 0.5
    case ThreeQuarters => 0.75
    case Normal => 1.0
    case OneAndAQuarter => 1.25
    case OneAndAHalf => 1.5
    case Double => 2.0
  }

  /**
   * An extracted article. The declared type has no language; the saved record
   * copies `article.language`, so the field is kept here as optional and is
   * absent on every article the extractor builds.
   */
  datatype Article = Article(
    title: string,
    author: Option<string>,
    content: string,
    url: string,
    language: Option<Language>)

  /** One entry of the saved-articles index: `audioFiles` holds the paths of the chunks' audio on native and is empty on the web. */
  datatype SavedArticle = SavedArticle(
    id: string,
    url: string,
    title: string,
    content: string,
    language: Option<Language>,
    audioFiles: seq<string>,
    voiceId: string,
    savedAt: int)

  /** The voice chosen per language; `None` is JSON `null`. */
  datatype VoicePreferences = VoicePreferences(en: Option<string>, sv: Option<string>)

  /**
   * What a read of one key/value-storage key followed by `JSON.parse` yields:
   * nothing (null or the empty string), a failure (the read or the parse threw),
   * or the parsed value.
   */
  datatype Stored<+T> = Missing | Unreadable | Present(value: T)
}
