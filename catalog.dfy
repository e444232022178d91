/**
 * The attribute catalog: the fixed, ordered list of highlight names the
 * highlighter is configured against. An attribute index is a position in
 * this list.
 */
module Catalog {

  const HighlightNames: seq<string> := [
    "attribute",
    "comment",
    "constant",
    "constant.numeric",
    "constant.builtin",
    "constant.character.escape",
    "constructor",
    "function",
    "function.builtin",
    "function.macro",
    "keyword",
    "keyword.control",
    "keyword.control.import",
    "keyword.directive",
    "label",
    "namespace",
    "operator",
    "keyword.operator",
    "special",
    "string",
    "type",
    "variable",
    "variable.builtin",
    "variable.parameter",
    "variable.other.member",
    "markup.heading",
    "markup.raw.inline",
    "markup.bold",
    "markup.italic",
    "markup.list",
    "markup.quote",
    "markup.link.url",
    "markup.link.text",
    "diff.plus",
    "diff.delta",
    "diff.minus",
    "info",
    "hint",
    "warning",
    "error"
  ]
}
