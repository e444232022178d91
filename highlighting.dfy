/**
 * The interface to the tree-sitter highlighter, whose internals are not part
 * of this model: languages, highlight configurations, the event stream and
 * the highlighter's error kinds.
 */
module Highlighting {
  import Catalog

  /** A byte of the source text handed to the highlighter. */
  newtype byte = x: int | 0 <= x < 256

  /** A language the crate can highlight; only its identity matters here. */
  datatype Lang = Lang(name: string)

  /**
   * A highlight configuration, reduced to what the renderer decides about
   * it: the grammar it was loaded for and the highlight names it was
   * configured against (empty until `configure` runs).
   */
  datatype HighlightConfiguration = HighlightConfiguration(grammar: Lang, names: seq<string>)

  /** One event of the stream the highlighter produces. */
  datatype HighlightEvent =
    | Source(start: nat, end: nat)
    | HighlightStart(attr: nat)
    | HighlightEnd

  /** The highlighter's failure kinds. */
  datatype Error = Cancelled | InvalidLanguage | Unknown

  datatype Result<T> = Success(value: T) | Failure(error: Error)

  /**
   * What one call of `HtmlRenderer::render` does to the renderer's line
   * buffer: the decorated lines it appends (all of them, or those written
   * before it stopped) and whether it succeeded.
   */
  datatype HtmlOutput = HtmlOutput(lines: seq<string>, outcome: Result<()>)

  /** `lang.config()`: the configuration of a freshly loaded grammar. */
  function LangConfig(lang: Lang): HighlightConfiguration
  {
    HighlightConfiguration(lang, [])
  }

  /** `HighlightConfiguration::configure`: binds attribute indices to `names`. */
  function Configure(c: HighlightConfiguration, names: seq<string>): HighlightConfiguration
  {
    c.(names := names)
  }

  /** What the renderer builds for `lang`: its grammar bound to the attribute catalog. */
  function Configured(lang: Lang): HighlightConfiguration
  {
    Configure(LangConfig(lang), Catalog.HighlightNames)
  }
}
