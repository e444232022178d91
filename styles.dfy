/**
 * The style resolver in inline-style mode: the table from attribute index
 * to the `style="color: …"` fragment built from a theme, and the lookup
 * the HTML renderer calls for every highlighted span.
 */
module Styles {
  import opened Wrappers

  /** A theme's resolved style for one attribute. */
  datatype Style = Style(color: string, bold: bool, italic: bool)

  /** An already parsed theme; only its style map is used by the renderer. */
  datatype Theme = Theme(styleMap: map<nat, Style>)

  const StylePrefix: string := "style=\"color: "
  const StyleSuffix: string := "\""

  /** The inline decoration for a span coloured `color`. */
  function InlineStyle(color: string): string {
    StylePrefix + color + StyleSuffix
  }

  /** Reads the colour back out of an inline decoration. */
  function ParseInlineStyle(fragment: string): (r: Option<string>)
    ensures r.Some? ==> |r.value| + |StylePrefix| + |StyleSuffix| == |fragment|
  {
    if |fragment| >= |StylePrefix| + |StyleSuffix|
       && fragment[..|StylePrefix|] == StylePrefix
       && fragment[|fragment| - |StyleSuffix|..] == StyleSuffix
    then Some(fragment[|StylePrefix|..|fragment| - |StyleSuffix|])
    else None
  }

  /** Every inline decoration carries its colour and nothing else. */
  lemma InlineStyleRoundTrip(color: string)
    ensures ParseInlineStyle(InlineStyle(color)) == Some(color)
  {
    var f := InlineStyle(color);
    assert f[..|StylePrefix|] == StylePrefix;
    assert f[|f| - |StyleSuffix|..] == StyleSuffix;
    assert f[|StylePrefix|..|f| - |StyleSuffix|] == color;
  }

  /** Different colours give different decorations. */
  lemma InlineStyleInjective(c1: string, c2: string)
    requires InlineStyle(c1) == InlineStyle(c2)
    ensures c1 == c2
  {
    InlineStyleRoundTrip(c1);
    InlineStyleRoundTrip(c2);
  }

  /**
   * `css` is the table `Renderer::new` builds from `styleMap`: the same
   * indices, each with the inline style of its colour.
   */
  ghost predicate IsStyleTable(css: map<nat, string>, styleMap: map<nat, Style>) {
    && css.Keys == styleMap.Keys
    && forall i :: i in css ==> css[i] == InlineStyle(styleMap[i].color)
  }

  /** The loop of `Renderer::new`: one insert per key of the style map. */
  method BuildStyleTable(styleMap: map<nat, Style>) returns (css: map<nat, string>)
    ensures IsStyleTable(css, styleMap)
  {
    css := map[];
    var pending := styleMap.Keys;
    while pending != {}
      invariant pending <= styleMap.Keys
      invariant css.Keys == styleMap.Keys - pending
      invariant forall i :: i in css ==> css[i] == InlineStyle(styleMap[i].color)
      decreases pending
    {
      var index :| index in pending;
      css := css[index := InlineStyle(styleMap[index].color)];
      pending := pending - {index};
    }
  }

  /** The style table depends on the colours only, never on bold or italic. */
  lemma StyleTableIgnoresFlags(css: map<nat, string>, m1: map<nat, Style>, m2: map<nat, Style>)
    requires IsStyleTable(css, m1)
    requires m1.Keys == m2.Keys
    requires forall i :: i in m1 ==> m1[i].color == m2[i].color
    ensures IsStyleTable(css, m2)
  {
  }

  /** At most one table fits a style map. */
  lemma StyleTableUnique(css1: map<nat, string>, css2: map<nat, string>, styleMap: map<nat, Style>)
    requires IsStyleTable(css1, styleMap) && IsStyleTable(css2, styleMap)
    ensures css1 == css2
  {
  }

  /**
   * The decoration callback: the stored fragment for a styled index and the
   * empty fragment for any other, so a missing entry is never an error.
   */
  function Decoration(css: map<nat, string>, attr: nat): string {
    if attr in css then css[attr] else []
  }

  /** The callback as the value handed to the HTML renderer. */
  function DecorationFn(css: map<nat, string>): nat -> string {
    (attr: nat) => Decoration(css, attr)
  }

  /**
   * Over a table built from a theme, a styled index is decorated with its
   * theme colour and an unstyled one gets no decoration.
   */
  lemma ThemeDecoration(css: map<nat, string>, styleMap: map<nat, Style>, attr: nat)
    requires IsStyleTable(css, styleMap)
    ensures attr in styleMap ==> Decoration(css, attr) == InlineStyle(styleMap[attr].color)
    ensures attr in styleMap ==> ParseInlineStyle(Decoration(css, attr)) == Some(styleMap[attr].color)
    ensures attr !in styleMap <==> Decoration(css, attr) == []
  {
    if attr in styleMap {
      InlineStyleRoundTrip(styleMap[attr].color);
    }
  }
}
