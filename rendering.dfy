/**
 * The HTML renderer: a style table built once from a theme, a per-language
 * configuration cache filled on first use and never evicted, and `Render`,
 * which highlights a source, decorates it through the style table and
 * writes the line table.
 */
module Rendering {
  import Catalog
  import Styles
  import opened Highlighting
  import Table
  import Text

  class Renderer {
    /** Attribute index to inline decoration; fixed once `new` has run. */
    const cssClasses: map<nat, string>
    /** The theme's style map the table was built from. */
    ghost const styleMap: map<nat, Styles.Style>
    /** The configuration cache, keyed by language. */
    var configs: map<Lang, HighlightConfiguration>
    /** Every language whose configuration was built, in the order built. */
    ghost var built: seq<Lang>
    /** The `HtmlRenderer`'s line buffer: the decorated lines it holds. */
    var buffered: seq<string>

    /**
     * The style table matches the theme; the cache holds exactly the
     * languages built so far, each built once and bound to the catalog.
     */
    ghost predicate Valid()
      reads this
    {
      && Styles.IsStyleTable(cssClasses, styleMap)
      && (forall l :: l in configs <==> l in built)
      && (forall i, j :: 0 <= i < j < |built| ==> built[i] != built[j])
      && (forall l :: l in configs ==> configs[l] == Configured(l))
    }

    /** `Renderer::new`: the style table from `theme` and an empty cache. */
    constructor (theme: Styles.Theme)
      ensures Valid()
      ensures styleMap == theme.styleMap
      ensures Styles.IsStyleTable(cssClasses, theme.styleMap)
      ensures configs == map[] && built == [] && buffered == []
    {
      var css := Styles.BuildStyleTable(theme.styleMap);
      cssClasses := css;
      styleMap := theme.styleMap;
      configs := map[];
      built := [];
      buffered := [];
    }

    /**
     * The cache step of `render`: the cached configuration when there is
     * one, otherwise a new one built, configured against the catalog and
     * inserted. Other languages' entries are left alone.
     */
    method ConfigFor(lang: Lang) returns (config: HighlightConfiguration)
      requires Valid()
      modifies this
      ensures Valid()
      ensures lang in configs && config == configs[lang]
      ensures config.grammar == lang && config.names == Catalog.HighlightNames
      ensures lang in old(configs) ==> configs == old(configs) && built == old(built)
      ensures lang !in old(configs) ==>
                configs == old(configs)[lang := config] && built == old(built) + [lang]
      ensures buffered == old(buffered)
    {
      if lang in configs {
        config := configs[lang];
      } else {
        var loaded := LangConfig(lang);
        loaded := Configure(loaded, Catalog.HighlightNames);
        configs := configs[lang := loaded];
        built := built + [lang];
        config := configs[lang];
      }
    }

    /**
     * `Renderer::render` as written. `highlight` stands for
     * `Highlighter::highlight` and `renderHtml` for one call of
     * `HtmlRenderer::render`, which appends to the line buffer without
     * clearing it; the table is then written from everything the buffer
     * holds. A failure of either is returned with no HTML; the cache entry
     * made by this call, and any lines appended before the failure, stay.
     */
    method RenderAsWritten(
      lang: Lang,
      source: seq<byte>,
      highlight: (HighlightConfiguration, seq<byte>) -> Result<seq<HighlightEvent>>,
      renderHtml: (seq<HighlightEvent>, seq<byte>, nat -> string) -> HtmlOutput)
      returns (r: Result<string>)
      requires Valid()
      modifies this
      ensures Valid()
      ensures lang in configs && configs[lang] == Configured(lang)
      ensures lang in old(configs) ==> configs == old(configs) && built == old(built)
      ensures lang !in old(configs) ==>
                configs == old(configs)[lang := Configured(lang)] && built == old(built) + [lang]
      ensures highlight(configs[lang], source).Failure? ==>
                r == Failure(highlight(configs[lang], source).error) && buffered == old(buffered)
      ensures highlight(configs[lang], source).Success? ==>
                var out := renderHtml(highlight(configs[lang], source).value, source,
                                      Styles.DecorationFn(cssClasses));
                && buffered == old(buffered) + out.lines
                && r == if out.outcome.Success? then Success(Table.TableHtml(buffered))
                        else Failure(out.outcome.error)
    {
      var config := ConfigFor(lang);
      var events := highlight(config, source);
      if events.Failure? {
        return Failure(events.error);
      }
      var out := renderHtml(events.value, source, Styles.DecorationFn(cssClasses));
      buffered := buffered + out.lines;
      if out.outcome.Failure? {
        return Failure(out.outcome.error);
      }
      var html := Table.WriteTable(buffered);
      r := Success(html);
    }

    /**
     * `Renderer::render` with the line buffer cleared first (the
     * `HtmlRenderer::reset` the code leaves out), so that the table holds
     * exactly the lines of this call.
     */
    method Render(
      lang: Lang,
      source: seq<byte>,
      highlight: (HighlightConfiguration, seq<byte>) -> Result<seq<HighlightEvent>>,
      renderHtml: (seq<HighlightEvent>, seq<byte>, nat -> string) -> HtmlOutput)
      returns (r: Result<string>)
      requires Valid()
      modifies this
      ensures Valid()
      ensures lang in configs && configs[lang] == Configured(lang)
      ensures lang in old(configs) ==> configs == old(configs) && built == old(built)
      ensures lang !in old(configs) ==>
                configs == old(configs)[lang := Configured(lang)] && built == old(built) + [lang]
      ensures highlight(configs[lang], source).Failure? ==>
                r == Failure(highlight(configs[lang], source).error) && buffered == []
      ensures highlight(configs[lang], source).Success? ==>
                var out := renderHtml(highlight(configs[lang], source).value, source,
                                      Styles.DecorationFn(cssClasses));
                && buffered == out.lines
                && r == if out.outcome.Success? then Success(Table.TableHtml(out.lines))
                        else Failure(out.outcome.error)
    {
      buffered := [];
      r := RenderAsWritten(lang, source, highlight, renderHtml);
    }
  }

  /**
   * Two renders of the same language and source on one renderer give the
   * same result, and build at most one configuration between them.
   */
  method RenderTwice(
    renderer: Renderer,
    lang: Lang,
    source: seq<byte>,
    highlight: (HighlightConfiguration, seq<byte>) -> Result<seq<HighlightEvent>>,
    renderHtml: (seq<HighlightEvent>, seq<byte>, nat -> string) -> HtmlOutput)
    returns (first: Result<string>, second: Result<string>)
    requires renderer.Valid()
    modifies renderer
    ensures renderer.Valid()
    ensures first == second
    ensures renderer.built == if lang in old(renderer.configs) then old(renderer.built)
                              else old(renderer.built) + [lang]
  {
    first := renderer.Render(lang, source, highlight, renderHtml);
    second := renderer.Render(lang, source, highlight, renderHtml);
  }

  /**
   * Without the reset, a second render of the same language and source
   * whose HTML rendering succeeds with a line that is not all whitespace
   * returns a longer table than the first: the buffer still holds the
   * first call's lines.
   */
  method RenderTwiceAsWritten(
    renderer: Renderer,
    lang: Lang,
    source: seq<byte>,
    highlight: (HighlightConfiguration, seq<byte>) -> Result<seq<HighlightEvent>>,
    renderHtml: (seq<HighlightEvent>, seq<byte>, nat -> string) -> HtmlOutput)
    returns (first: Result<string>, second: Result<string>)
    requires renderer.Valid()
    modifies renderer
    ensures renderer.Valid()
    ensures highlight(Configured(lang), source).Success? ==>
              var out := renderHtml(highlight(Configured(lang), source).value, source,
                                    Styles.DecorationFn(renderer.cssClasses));
              out.outcome.Success? && (exists k :: 0 <= k < |out.lines| && Text.TrimEnd(out.lines[k]) != []) ==>
                && first.Success? && second.Success?
                && |first.value| < |second.value|
                && first != second
  {
    ghost var before := renderer.buffered;
    first := renderer.RenderAsWritten(lang, source, highlight, renderHtml);
    ghost var middle := renderer.buffered;
    second := renderer.RenderAsWritten(lang, source, highlight, renderHtml);
    var events := highlight(Configured(lang), source);
    if events.Success? {
      var out := renderHtml(events.value, source, Styles.DecorationFn(renderer.cssClasses));
      if out.outcome.Success? && out.lines != [] {
        assert middle == before + out.lines;
        assert renderer.buffered == middle + out.lines;
        Table.TableGrows(middle, out.lines);
      }
    }
  }
}
