# iconfont-preview: a Dafny model of the glyph pipeline

This project models the logic of the iconfont-preview VS Code extension, which
previews icon fonts in an editor tab. It covers two parts.

- **The extension host** (`TTFEditorProvider`). It walks the parsed font's glyph
  table and turns every glyph with a truthy `unicode` into the HTML numeric
  character reference `&#x<lower-case hex>;`. It also copies the document's bytes
  into a fresh `Uint8Array` and builds the 32-character script nonce.
- **The webview script** (`load-ttf.js`). It builds one `item-content` block per
  reference. Each block has a left cell (`v.replace('&', '&#38')`) and a right
  cell (`v.replace('&#x', '\\u').replace(';', '')`). On a click, `copy`
  unescapes the cell's `innerHTML` (`replace('&amp;', '&')`), puts the value on
  the clipboard through a temporary `<input>` on `document.body`, shows
  "copied!", detaches the handler, and restores the cell from a 500 ms timer.

Modules:

- `Options` holds the optional value.
- `Hex` models `Number.prototype.toString(16)` and its parse back.
- `JsString` models `indexOf` and `replace` with a string pattern, which rewrites
  the first occurrence only.
- `TtfPreview` models `src/ttfPreview.ts`.
- `LoadTtf` models `media/load-ttf.js`.

The parsed font is a glyph table: a sequence whose entry `i` is glyph `i`'s
`unicode`, with `None` for `undefined`. `Math.random` is a caller-supplied
sequence of alphabet indices. The 500 ms delay is the explicit `TimerFire` step.
Whether `copy` is supported is a parameter.

Two facts about the browser are modelling assumptions, written as functions:

- `ParsedText` is the text that the HTML parser makes of a cell's markup. The
  only character reference it decodes is the `&#38` that the left cell inserts.
- `SerializeText` is what reading `innerHTML` returns. It escapes `&`, `<`, `>`
  and the no-break space.

The `Cell.innerHTML` field holds the read-back `innerHTML`. A third assumption,
listed under "Left out", covers writing such a string back.

Where the code and the design description disagree, the model follows the code:

- When a glyph has several codepoints, the code does not take the last one. It
  reads the single `glyph.unicode` field.
- The font is not re-encoded to TTF. The raw buffer is base64-encoded.
- A parse failure does not produce an error view. It is logged, and the list
  posted to the webview stays empty (`ResolveNames`).
- Escape and unescape are not inverses on their own. `Unescape(LeftCell(v))` is
  not `v`, because the escape writes `&#38` and the unescape looks for `&amp;`.
  The round trip closes only through the browser's parse and serialise
  (`LeftCellCopyRoundTrip`).
- The restore timer does not restore the cell's earlier inline style. It always
  writes `cursor: pointer;`, so the inline style after a cycle is
  `cursor: pointer;` even if it was empty before.

## Model

| member | source | states |
|---|---|---|
| `Hex.ToHex` | src/ttfPreview.ts:36 | `toString(16)` yields a non-empty string of lower-case hex digits; it has no leading zero unless it is "0", and it is one digit exactly when the value is below 16 |
| `Hex.ParseToHex` | src/ttfPreview.ts:36 | parsing the hex digits in base 16 gives back the number |
| `Hex.ToHexParse` | src/ttfPreview.ts:36 | every canonical hex string is what `toString(16)` writes for its value, so rendering is a bijection onto canonical strings |
| `JsString.IndexOfFrom` | media/load-ttf.js:17-25 | `indexOf` returns the first index at or after `from` where the pattern occurs, or none when it occurs nowhere there |
| `JsString.ReplaceFirst` | media/load-ttf.js:17-25 | `replace` with a string pattern rewrites only the first occurrence; with no occurrence the string is unchanged |
| `TtfPreview.GlyphRefs` | src/ttfPreview.ts:33-38 | the walk's result, in index order; it has no more entries than glyphs, and none when no glyph is truthy (`GlyphRefsByIndex` and `KeptIndicesExact` give every entry) |
| `TtfPreview.GlyphRef` | src/ttfPreview.ts:36 | the entry is `&#x`, then canonical hex digits that parse back to the codepoint, then `;`; it has no leading zero for a non-zero codepoint |
| `TtfPreview.KeptIndicesExact` | src/ttfPreview.ts:33-37 | the kept glyph indices are exactly the truthy glyphs (present and non-zero), each once, in ascending order, and there are at most as many as glyphs |
| `TtfPreview.GlyphRefsByIndex` | src/ttfPreview.ts:33-38 | entry `k` of the result is the reference of the `k`-th kept glyph, and there is one entry per kept glyph |
| `TtfPreview.GlyphRefsFilter` | src/ttfPreview.ts:33-38 | there are no more entries than glyphs; every entry is the reference of some truthy glyph, and every truthy glyph's reference is emitted |
| `TtfPreview.OneMappedGlyph` | src/ttfPreview.ts:33-38 | a table with one glyph at U+E001 and one unmapped glyph yields exactly `["&#xe001;"]` |
| `TtfPreview.ExtractGlyphRefs` | src/ttfPreview.ts:28-38 | the loop's `unicodeName` equals `GlyphRefs` of the whole table |
| `TtfPreview.ResolveNames` | src/ttfPreview.ts:30-43 | if parsing fails the posted list is empty; otherwise it is the extracted list |
| `TtfPreview.NodeBufferToArrayBuffer` | src/ttfPreview.ts:85-93 | returns a new array of the same length that equals the input element by element; the input is not modified |
| `TtfPreview.GetNonce` | src/ttfPreview.ts:129-136 | the nonce has 32 characters, and character `i` is the alphabet character at the `i`-th random index |
| `LoadTtf.Unescape` | media/load-ttf.js:25 | only the first `&amp;` becomes `&`, which shortens the string by 4; a string without `&amp;` is unchanged |
| `LoadTtf.UnescapeNoAmp` | media/load-ttf.js:25 | a string without `&` is left unchanged by the unescape |
| `LoadTtf.LeftCell` | media/load-ttf.js:17 | `v.replace('&', '&#38')`: without a `&` the cell is `v`; with one it is three characters longer (`LeftCellFirstAmp` says where) |
| `LoadTtf.RightCell` | media/load-ttf.js:18 | `v.replace('&#x', '\\u').replace(';', '')`: without `&#x` and `;` the cell is `v` (`RightCellOfRef` gives it for a reference) |
| `LoadTtf.LeftCellFirstAmp` | media/load-ttf.js:17 | the left cell is `v` with only its first `&` replaced by `&#38`, and every other character kept; without a `&` it is `v` |
| `LoadTtf.RightCellOfRef` | media/load-ttf.js:18 | for `v = "&#x" + h + ";"` with `h` hex digits, the right cell is a backslash, `u`, then `h`, with no `&`, `#` or `;` left |
| `LoadTtf.ReplaceRefPrefix` | media/load-ttf.js:18 | the first rewrite turns the leading `&#x` of a reference into a backslash and `u` |
| `LoadTtf.DropFinalSemicolon` | media/load-ttf.js:18 | the second rewrite drops a final `;` when it is the only one |
| `LoadTtf.LeftCellCopyRoundTrip` | media/load-ttf.js:17-25 | the left cell's markup is `&#38#x` + h + `;`; it displays the reference itself, reads back as `&amp;#x` + h + `;`, and unescapes to exactly `v` |
| `LoadTtf.RightCellCopyRoundTrip` | media/load-ttf.js:18-25 | the right cell reads back as a backslash, `u`, `h`, and the unescape leaves it unchanged |
| `LoadTtf.CopyGlyphRef` | media/load-ttf.js:14-25 | for every reference the host emits, copying the left cell yields the reference, and copying the right cell yields a backslash, `u` and the codepoint's hex digits |
| `LoadTtf.ItemMarkup` | media/load-ttf.js:14-20 | each name's block opens with `<div class="item-content">` |
| `LoadTtf.Join` | media/load-ttf.js:20 | `join(sep)` starts with the first element (`JoinTiles` gives the whole layout) |
| `LoadTtf.JoinTiles` | media/load-ttf.js:20 | `join(sep)` lays the elements out in order, at their offsets, with `sep` between neighbours and nothing after the last |
| `LoadTtf.JoinSuffix` | media/load-ttf.js:20 | from element `k` on, the joined string is the join of the elements from `k` on |
| `LoadTtf.JoinBlockAt` | media/load-ttf.js:20 | an element known to be `b` stands at its offset in the joined string, and the last one ends it |
| `LoadTtf.JoinNewlineAt` | media/load-ttf.js:20 | joining with "\n" puts a newline character just before each element but the first |
| `LoadTtf.ContentMarkup` | media/load-ttf.js:14-20 | the content assigned to `innerHTML`; with at least one name it opens with `<div class="item-content">` (its layout is given by the four lemmas below) |
| `LoadTtf.ContentMarkupBlockAt` | media/load-ttf.js:14-20 | the content holds `ItemMarkup(names[k])`, the block for name `k`, at offset `k` of the layout |
| `LoadTtf.ContentMarkupNext` | media/load-ttf.js:14-20 | block `k + 1` starts one character after `ItemMarkup(names[k])` ends |
| `LoadTtf.ContentMarkupNewline` | media/load-ttf.js:14-20 | that one character is a newline |
| `LoadTtf.ContentMarkupEnd` | media/load-ttf.js:14-20 | the content ends where `ItemMarkup` of the last name ends |
| `LoadTtf.ContentMarkupEmpty` | media/load-ttf.js:14-20 | with no names the content is empty |
| `LoadTtf.Remove` | media/load-ttf.js:52 | `removeChild(n)` takes `n` itself out at its first index and keeps the other children in order; without `n` the list is unchanged |
| `LoadTtf.RemoveAppended` | media/load-ttf.js:45-52 | removing a node just appended, which was not there before, restores the child list |
| `LoadTtf.Body.CreateInput` | media/load-ttf.js:42-44 | creates a read-only input holding the content, with a new identity |
| `LoadTtf.Body.AppendChild` | media/load-ttf.js:45 | the node is added at the end of the body's children |
| `LoadTtf.Body.RemoveChild` | media/load-ttf.js:52 | the node's first occurrence is taken out of the children |
| `LoadTtf.Body.CopyToClipboard` | media/load-ttf.js:41-53 | the body's children are as before, whether or not `copy` is supported; the copy command is issued exactly when it is supported |
| `LoadTtf.Cell.constructor` | media/load-ttf.js:17-18 | a rendered cell reads back its markup, has its copy handler, no inline style and no pending timer |
| `LoadTtf.Cell.Copy` | media/load-ttf.js:23-32 | returns the unescaped `innerHTML`; afterwards the text is "copied!", `onclick` is null, the cursor is default, a restore of the old text and handler is scheduled, and the body is as before |
| `LoadTtf.Cell.Click` | media/load-ttf.js:28-31 | a click runs `copy` only while the handler is attached; a click in between changes nothing |
| `LoadTtf.Cell.TimerFire` | media/load-ttf.js:33-37 | the oldest pending restore puts back the saved text and handler and sets the pointer cursor |
| `LoadTtf.CopyCycle` | media/load-ttf.js:23-38 | after a click, a second click and the timer, the cell is idle with the text and handler from before the click; the first click copied the unescaped text |
| `LoadTtf.CopyLeftCellOfGlyph` | media/load-ttf.js:17-38 | a full cycle on a glyph's left cell copies exactly that glyph's reference |

## Left out

- The VS Code host API is not modelled, because it is host plumbing: editor registration, webview options, `postMessage`, `asWebviewUri`, `TTFDocument.create` and `readFile`.
- `openType.parse` and all font decoding are not modelled; they are a third-party library. The glyph table stands in for `result.glyphs`. The case where `glyphs.get(i)` throws is not modelled either.
- The base64 encoding with `Buffer` and the `FileReader`/`Blob` use in the webview are library calls.
- The HTML and CSP page built by `getHtmlForWebView` is not modelled; it is a static template.
- `document.execCommand`, `queryCommandSupported`, the selection (`setSelectionRange(0, 999)`) and the real clipboard are DOM side effects. The model keeps the child list of the body and a flag for whether the copy command ran.
- Real-time scheduling with `setTimeout` is replaced by the explicit `TimerFire` step. The race between `postMessage` and the webview's `onload` listener is timing and is not modelled.
- `Math.random` is replaced by the caller's sequence of indices.
- Console logging is not modelled.
- `JsString.ReplaceFirst`: does not model the `$` patterns of a replacement string, because no replacement string in the source contains `$`.
- `LoadTtf.ParsedText` and `LoadTtf.SerializeText` are modelling assumptions, not a model of the HTML parser. They are only claimed for cell markup with at most one `&`, and that one in `&#38#`.
- `LoadTtf.Cell.Copy` and `LoadTtf.Cell.TimerFire` write a string read from `innerHTML` straight back into the field. This assumes that writing a read-back string and reading it again gives the same string; the model does not derive it from `ParsedText` and `SerializeText`.
- Codepoints are unbounded naturals. The model does not cap them at the Unicode range; `toString(16)` behaves the same for every non-negative integer.
