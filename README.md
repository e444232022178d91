# tree-painter HTML renderer, modelled in Dafny

This project models the rendering component of tree-painter
(`lib/src/renderer.rs`). The component turns source text into an HTML table
coloured by a theme. It has four parts:

- **Style table** (`Renderer::new`). Each attribute index the theme styles
  maps to the inline fragment `style="color: <color>"`.
- **Decoration lookup.** The HTML renderer calls this closure for every
  highlighted span. It returns the stored fragment for a styled index and
  the empty fragment for any other index, so a missing entry is never an
  error.
- **Configuration cache** (`configs`). It maps each language to its
  highlight configuration. The configuration is built and configured
  against the 40-name attribute catalog the first time a language is
  rendered. It is never rebuilt, replaced or evicted.
- **Line-table serialiser.** It writes a fixed header, then one `<tr>` row
  per decorated line, then a fixed footer. Each row holds the 0-based line
  number and the line with its trailing whitespace removed (`trim_end`).

The tree-sitter highlighter is treated as an oracle. `Renderer.Render`
takes two function parameters: `highlight` stands for
`Highlighter::highlight`, and `renderHtml` stands for one call of
`HtmlRenderer::render`, given as the decorated lines that call appends to the
renderer's line buffer together with its success or failure. Either one may
fail. The line buffer (`HtmlRenderer` in the `renderer` field) is a field of
the `Renderer` class, `buffered`, and the table is written from what
`lines()` returns, which is the whole buffer. A highlight
configuration is reduced to the grammar it was loaded for and the names it
was configured against.

Files:

- `catalog.dfy`: the attribute catalog.
- `highlighting.dfy`: the highlighter interface (languages, configurations,
  events, errors).
- `styles.dfy`: the style table and the lookup.
- `text.dfy`: `trim_end`, decimal line numbers and concatenation.
- `table.dfy`: the serialiser.
- `rendering.dfy`: the `Renderer` class.
- `wrappers.dfy`: `Option`.

The model follows the code on these points:

- The cell attributes are written without quotes (`class=line-number`,
  `class=tsc-line`).
- There is no configuration-error path. `lang.config()` and `configure`
  return no error in this file, so an unknown-language error is not modelled.
- Line numbers are 0-based.
- `render` never clears the line buffer, so each call appends to the lines
  earlier calls left behind (see "## Findings"). `RenderAsWritten` models
  this behaviour. `Render` clears the buffer first, as a reset before each
  render evidently intends, and the rest of the model uses `Render`.

## Model

| member | source | states |
|---|---|---|
| `Styles.BuildStyleTable` | lib/src/renderer.rs:59-66 | the table built by the insert loop has exactly the theme's style-map keys, and each key maps to `style="color: ` + that entry's colour + `"` |
| `Rendering.Renderer.constructor` | lib/src/renderer.rs:58-73 | `new` leaves a style table whose keys are the style map's keys and whose values are the inline colour fragments; the configuration cache starts empty |
| `Styles.InlineStyleRoundTrip` | lib/src/renderer.rs:64 | the colour can be read back out of every inline fragment |
| `Styles.InlineStyleInjective` | lib/src/renderer.rs:64 | different colours give different fragments |
| `Styles.StyleTableIgnoresFlags` | lib/src/renderer.rs:61-66 | the table depends only on the colours; bold and italic do not change it |
| `Styles.StyleTableUnique` | lib/src/renderer.rs:59-66 | a style map determines at most one style table |
| `Styles.ThemeDecoration` | lib/src/renderer.rs:97-100 | over a table built from a theme, a styled index is decorated with its own theme colour; an index gets the empty fragment if and only if the theme does not style it |
| `Rendering.Renderer.ConfigFor` | lib/src/renderer.rs:81-89 | afterwards the cache has `lang`, and the returned configuration is its entry, loaded for `lang` and configured against the catalog; a cached entry is returned as it is, with no build; otherwise exactly one build is logged and only `lang`'s entry is added; other languages' entries never change |
| `Rendering.Renderer.RenderAsWritten` | lib/src/renderer.rs:76-129 | the cache step as in `ConfigFor`; a highlighter failure is returned as that error with the line buffer untouched; otherwise the HTML renderer's lines, rendered with the style-table lookup, are appended to the buffer (even when it fails), a renderer failure is returned as that error, and on success the result is the line table of the whole buffer |
| `Rendering.Renderer.Render` | lib/src/renderer.rs:76-129 | as `RenderAsWritten`, but the buffer is cleared first: afterwards it holds only this call's lines, and a successful result is the line table of exactly those lines |
| `Rendering.RenderTwice` | lib/src/renderer.rs:81-111 | with the buffer cleared, two renders of the same language and source give the same result; between them they build the configuration at most once, and only if it was not cached before |
| `Rendering.RenderTwiceAsWritten` | lib/src/renderer.rs:94-111 | as written, when the HTML rendering succeeds with a line that is not all whitespace, the second of two identical renders returns a strictly longer table than the first, so the results differ |
| `Table.TableGrows` | lib/src/renderer.rs:111-118 | a table of more lines is strictly longer than the table of a prefix of them |
| `Table.WriteTable` | lib/src/renderer.rs:102-126 | the string the loop writes is the header, then one row per line in order, then the footer |
| `Table.RowsSpec` | lib/src/renderer.rs:111-118 | there are as many rows as lines; row `i` is made from index `i` and `trim_end` of line `i` |
| `Table.RowsReadBack` | lib/src/renderer.rs:111-118 | read back cell by cell, row `i` has line number `i` in the `line-number` cell and the trimmed line `i` in the `tsc-line` cell |
| `Table.RowRoundTrip` | lib/src/renderer.rs:114 | every row reads back as its line number and its content |
| `Table.RowAt` | lib/src/renderer.rs:102-126 | row `i` comes after the header and rows `0..i-1`, and before rows `i+1..` and the footer |
| `Text.TrimEndSpec` | lib/src/renderer.rs:115 | `trim_end` gives a prefix of the line that does not end in whitespace, and the part it removes is all whitespace |
| `Text.TrimEndIsShortest` | lib/src/renderer.rs:115 | `trim_end` removes the whole trailing whitespace run and nothing else |
| `Text.TrimEndIdempotent` | lib/src/renderer.rs:115 | trimming twice gives the same result as trimming once |
| `Text.TrimEndIgnoresTrailingWhitespace` | lib/src/renderer.rs:115 | adding whitespace to the end of a line does not change its trimmed form |
| `Text.DecimalRoundTrip` | lib/src/renderer.rs:114 | the printed line number is a non-empty run of digits with no leading zero, and it reads back as the index |
| `Text.DecimalInjective` | lib/src/renderer.rs:114 | different indices print as different line numbers |

## Findings

| source | as written | input that shows it | evidently intended | confidence | as-written member | corrected member |
|---|---|---|---|---|---|---|
| lib/src/renderer.rs:94-111 | `render` calls `self.renderer.render(...)` on the `HtmlRenderer` created once in `new` and never calls its `reset()`, then tables every line `lines()` returns | two `render` calls on one `Renderer` with the same language and the source `let x = 1;\n`: the first table has one row holding `let x = 1;`; the second call's lines are appended to that buffer, so the second table also holds the first call's text (the line splitting of the HTML renderer puts both copies into one row) and differs from the first | each call tables only its own lines, so identical calls give identical HTML | medium, not executed; relies on `HtmlRenderer::render` appending without clearing, which is library code not part of this model | `Rendering.RenderTwiceAsWritten` (with `Rendering.Renderer.RenderAsWritten`) | `Rendering.RenderTwice` (with `Rendering.Renderer.Render`) |

## Left out

- The tree-sitter highlighter is not modelled: `Highlighter::highlight`, `HtmlRenderer::render` and `HtmlRenderer::lines`. They are foreign library code. `Render` takes them as function parameters, so they are deterministic functions of their inputs that may return any result or failure. How the HTML renderer wraps spans in the decoration, and how it splits the output into lines, is therefore not modelled.
- `Rendering.RenderTwiceAsWritten`: the conclusion covers only a rendering with a line that is not all whitespace. When every line is whitespace, the HTML renderer's joining of lines where two calls' output meet can make both tables the same, and that joining is not modelled.
- `Rendering.Renderer.RenderAsWritten`: the buffer after a call is modelled as the earlier lines followed by the lines this call appends. How `HtmlRenderer` splits its byte buffer into lines where the two calls' output meet is not modelled, because that code is not part of this model. What a failed call leaves is whatever lines the oracle says it appended.
- `Lang::config()` and `HighlightConfiguration::configure` are foreign code not shown in this file. The model reduces a configuration to the grammar and the names it is bound to.
- The injection callback `foo` is not modelled. It always returns `None`.
- The theme type and theme parsing are not modelled. A theme is its style map. The map's colour is an opaque string, and bold and italic are carried but unused.
- CSS-class mode and stylesheet generation are not modelled. This file has neither.
- `Highlight`'s `usize` and the `{i}` index are unbounded naturals. No render can reach the `usize` limit.
- Decorations are modelled as character strings, not as the byte slices `as_bytes()` hands over. The bytes handed over are the UTF-8 encoding of the modelled string.
- The conversion of the highlighter's error into the crate's error by `?` is treated as the identity. The crate's error type is not part of this model.
- The `.unwrap()` calls on `writeln!` into a `String` never fail, so output writing is total. `self.configs.get(lang).unwrap()` after the insert is modelled by the map lookup, which is proved to be in the map.
- Thread safety is not modelled. `render` takes `&mut self`, and there is no concurrency.
