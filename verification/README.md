# Diagram styler codec, modelled in Dafny

The diagram styler is a browser editor for sequence diagrams. Under its panels
sits a small codec, and this project models that codec:

- **Share links.** The editor session is turned into a URL-safe token and back.
  The diagram text is shortened with a table of keyword shortcuts. The
  non-default session fields are added to a minimal record, which is
  serialised. The result is compressed with LZW, and the codes are packed into
  7-bit groups. The bytes are written in URL-safe base64. When compression
  throws, a UTF-8/base64 fallback marked with a leading `b` is used instead.
- **Saved files.** The export record, the validation and defaults of the
  import, and the default configuration name.
- **PlantUML to Mermaid.** The line-by-line converter, and the detector that
  decides whether a text is PlantUML.
- **Entity extraction.** The participant list and the message list that the
  editors read from Mermaid text, and the updates the participant and tooltip
  editors make to their maps.

Every operation is a pure function over immutable values. Strings are
sequences of characters and bytes are integers in `0..255`. Each regular
expression of the source is an explicit search: lazy captures try the
shortest length first, greedy ones the longest, and alternatives are tried in
the order written. Failure is an `Option`/`Result` value, never a precondition.
JSON, the clock and the browser are parameters.

Modules, leaves first:

- `Wrappers`: `Option`/`Result`.
- `JsString`: `trim`, `split`, `join`, `includes`, `replace(/\s+/g, ' ')`
  and ASCII lower-casing.
- `Shortcuts`: `CODE_SHORTCUTS`, `compressCode` and `decompressCode`.
- `Lzw`: `lzwCompress` and `lzwDecompress`.
- `Packing`: the variable-length integer packing, with the 32-bit `>>`, `&`
  and `|` written out.
- `Base64`: `btoa`, `atob` and the URL-safe alphabet.
- `Utf8`: `encodeURIComponent`/`decodeURIComponent` on the fallback path.
- `UrlCodec`: `compressForUrl`, `decompressFromUrl` and the corrected codec.
- `Share`: the theme check, `generateShareUrl`, `parseFromUrl`, the export and
  import of files, and `generateConfigName`.
- `Participants`: `parseParticipantsFromMermaid` and the participant map
  updates.
- `Messages`: `parseMessagesFromMermaid` and the tooltip map update.
- `PlantUml`: the classifier, the emitter, `convertPlantUmlToMermaid` and
  `isPlantUml`.
- `PlantUmlMessages`: what the three message patterns do with a line.
- `PlantUmlLines`: declarations, notes, blocks and detection.

## Model

| member | source | states |
|---|---|---|
| Shortcuts.TableIsWellFormed | lib/save-load.ts:245-268 | Every shortcut starts with `~` and has no other `~`. No long form contains `~`. |
| Shortcuts.NormalizeLinesSplit | lib/save-load.ts:273 | The normalised code holds exactly the trimmed, non-blank lines of the input, in order, and nothing else. |
| Shortcuts.ReplaceRoundTrip | lib/save-load.ts:276 | `split(p).join(r)` is undone by `split(r).join(p)` when the text has no `r` to begin with. |
| Shortcuts.TableRoundTrip | lib/save-load.ts:275-287 | Substituting the table forwards, then undoing it in reverse order, gives back the text, provided no shortcut clashes with text already present. |
| Shortcuts.CodeRoundTrip | lib/save-load.ts:270-290 | `decompressCode(compressCode(code))` is the line-normalised code whenever no shortcut clashes. |
| Shortcuts.CompressCode | lib/save-load.ts:270-279 | Shortening keeps every line break of the normalised code. |
| Shortcuts.DecompressCode | lib/save-load.ts:281-290 | Text without `~` comes back unchanged, since every shortcut starts with `~`. Expanding keeps every line break. |
| Shortcuts.CollisionCounterexample | lib/save-load.ts:245-290 | `actorLog` clashes with the table: it is shortened to `~ALog`, which holds the shortcut of `alt` and expands to `altog`. |
| Lzw.Encode | lib/save-load.ts:109-121 | The dictionary grows by one entry per emitted code, and every dictionary code is below its size. Code `j` is below `256 + j`. The pending phrase is empty only for empty input. A first character above U+00FF gives an undefined code. |
| Lzw.LzwCompress | lib/save-load.ts:102-128 | Empty input gives no codes. Code `j` is below `256 + j`. A first character above U+00FF yields an undefined code. |
| Lzw.FirstCode | lib/save-load.ts:105-119 | The first code is the first character's own code when that character is Latin-1. |
| Lzw.DecodeStep | lib/save-load.ts:140-155 | A code is accepted exactly when it is in the dictionary or is the next free code. Otherwise it is the "Invalid compressed data" error. An accepted code adds one entry and only appends to the output. |
| Lzw.DecodeSucceedsIff | lib/save-load.ts:140-150 | Decoding succeeds if and only if each code `i` after the first lies in `0..255+i`. |
| Lzw.LzwDecompress | lib/save-load.ts:130-138 | No codes decode to the character U+0000, which is what `String.fromCharCode(undefined)` gives. |
| Lzw.RoundTrip | lib/save-load.ts:102-158 | Every non-empty Latin-1 text compresses to defined codes that decompress to the same text. |
| Packing.ToInt32 | lib/save-load.ts:168-173 | The 32-bit wrap of the shift operators stays in the int32 range and agrees with the input modulo 2^32. |
| Packing.PackOneForm | lib/save-load.ts:164-175 | A code below 128 is one byte. A code below 16384 is a flagged high group followed by the low 7 bits. Larger codes are three bytes, high group first. |
| Packing.PackOneBytesBelow256 | lib/save-load.ts:171 | Every packed byte fits in a byte if and only if the code is below 2^22. |
| Packing.PackUndefined | lib/save-load.ts:164-174 | An undefined code packs as `[128, 128, 0]`, which is how `undefined` behaves under `<`, `>>` and `&`. |
| Packing.PackOne | lib/save-load.ts:164-175 | Each code becomes one to three bytes. Every byte but the last has bit 7 set, and the last is below 128, so the reader knows where the code ends. |
| Packing.UnpackPack | lib/save-load.ts:182-207 | Reading the packed bytes back gives, code by code, the value with its 7-bit groups in reverse order. |
| Packing.PackSwapExample | lib/save-load.ts:193-204 | The code 128 is packed as `[129, 0]` and read back as 1. |
| Packing.PackRoundTripSmall | lib/save-load.ts:161-207 | Codes below 128 survive packing and reading unchanged. |
| Packing.Unpack | lib/save-load.ts:191-206 | The reader yields at most one number per byte and at least one for non-empty input. Every number is an int32 value. |
| Packing.UnpackMsbFirstPack | lib/save-load.ts:196-201 | A reader that takes the groups most significant first gives back every code below 2^21 unchanged. |
| Base64.Btoa | lib/save-load.ts:177-178 | `btoa` succeeds exactly on code units below 256, and its output has a length that is a multiple of 4. |
| Base64.Atob | lib/save-load.ts:188 | Whatever `atob` returns on success is a string of bytes. |
| Base64.AtobBtoa | lib/save-load.ts:188 | `atob` undoes `btoa` on every byte string. |
| Base64.TokenAlphabet | lib/save-load.ts:178 | The URL-safe token holds no `+`, `/` or `=`. |
| Base64.TokenRoundTrip | lib/save-load.ts:183-186 | Mapping the alphabet back and re-padding to a multiple of 4 restores the standard base64 text. |
| Base64.TokenDecodes | lib/save-load.ts:183-189 | The bytes read from a token are the bytes that were written. |
| Utf8.DecodeEncode | lib/save-load.ts:217-234 | The UTF-8 bytes of the fallback path decode back to the original text. |
| UrlCodec.CompressForUrl | lib/save-load.ts:210-223 | The token never holds `+`, `/` or `=`. When the LZW path fails, the token starts with the `b` marker. |
| UrlCodec.DecompressFromUrl | lib/save-load.ts:226-242 | A token starting with `b` is decoded by the fallback path alone. Any other token that is not base64, or whose codes the LZW reader rejects, gives the empty text instead of an exception. |
| UrlCodec.FallbackRoundTrip | lib/save-load.ts:214-235 | Text that takes the fallback path decodes back to itself. |
| UrlCodec.MarkerIff | lib/save-load.ts:218-229 | A token starts with `b` if and only if the fallback was used or the text's first character is one of `l`, `m`, `n`, `o`. |
| UrlCodec.MarkerCounterexample | lib/save-load.ts:229-235 | The text "l" becomes the token "bA", which the decoder takes for a fallback token and turns into the empty text. |
| UrlCodec.SmallCodeRoundTrip | lib/save-load.ts:210-242 | A Latin-1 text whose codes are all below 128 and whose first character is not `l`..`o` round-trips. |
| UrlCodec.EmptyText | lib/save-load.ts:137 | The empty text becomes the empty token, and the empty token decodes to U+0000. |
| UrlCodec.PairCounterexample | lib/save-load.ts:196-201 | "aaa" compresses to the codes 97 and 256, and the link decodes to "a\U{2}". |
| UrlCodec.WideCharCounterexample | lib/save-load.ts:112-124 | "\U{100}" takes the LZW path, not the fallback, and comes back as "\0\U{2}". |
| UrlCodec.CompressForUrlFixed | lib/save-load.ts:210-223 | Text with a character above U+00FF always takes the `b` fallback. |
| UrlCodec.FixedRoundTrip | lib/save-load.ts:210-242 | With the reader fixed and wide characters routed to the fallback, a text round-trips if it is non-empty, has fewer than 2^21 − 257 characters, and does not start with a character in `l`..`o`. |
| Share.MinimalFields | lib/save-load.ts:304-321 | The record always carries the code. It never carries the Mermaid mode, the default theme or an empty map. |
| Share.IsDefaultTheme | lib/save-load.ts:293-296 | A missing theme counts as the default. A present one is compared with the default colour by colour, in the key order `JSON.stringify` writes. That comparison holds exactly when the theme is the default theme, i.e. when a reader filling in the default for a missing theme would see the default. |
| Share.ThemeOmittedIff | lib/save-load.ts:293-315 | The theme is left out of the record exactly when `isDefaultTheme` holds. Otherwise it is carried unchanged. |
| Share.DefaultThemeRestored | components/diagram-styler/color-designer.tsx:26-36 | A session without a theme, or with the default one, is restored with the nine default colours. |
| Share.ShareRoundTrip | lib/save-load.ts:343-351 | If no shortcut clashes with the normalised code, restoring the minimal record gives the session back. The code comes back line-normalised, and a missing theme comes back as the default. |
| Share.ShareUrl | lib/save-load.ts:299-327 | The link is the page address, then `?d=`, then a token with no `+`, `/` or `=`. |
| Share.ParseFromUrlWith | lib/save-load.ts:330-355 | No session is produced without a non-empty `d` parameter, and a restored session always has a theme. |
| Share.ParseFromUrl | lib/save-load.ts:330-355 | `parseFromUrl` with the codec as written: there is no session without a non-empty `d`, and every session has a theme. |
| Share.ShareLinkRoundTrip | lib/save-load.ts:299-355 | A share link made by `generateShareUrl` and read by `parseFromUrl` gives the session back, using the corrected codec. This needs four things: no shortcut clashes with the normalised code, the JSON parser inverts the serialiser on the record, and the serialised record starts with `{` and has fewer than 2^21 − 257 characters. |
| Share.ExportConfig | lib/save-load.ts:47-54 | A non-empty custom name yields a non-empty name for the saved file. |
| Share.ImportFromJson | lib/save-load.ts:70-99 | Every failure is "Invalid JSON file". A file that parses and holds non-empty code is accepted, and only such a file is. A success takes its code and theme from the file. A missing syntax mode becomes Mermaid, and missing tooltips or participants become empty maps. |
| Share.ImportExport | lib/save-load.ts:47-99 | Importing an exported file gives the session back. An empty diagram is rejected. |
| Share.DownloadName | lib/save-load.ts:62 | The download name ends in `.json`. Every other character is a lower-case letter, a digit or `-`, and it is `-` exactly where the name had a non-alphanumeric character. |
| Share.FileStemIdempotent | lib/save-load.ts:62 | Sanitising a sanitised name changes nothing. |
| Share.FirstParticipant | lib/save-load.ts:38 | The position found is the leftmost at which `participant\s+(\w+)` matches, and the capture is what matches there. |
| Share.NameIsFirst | lib/save-load.ts:29-42 | The name comes from the first line that has a title or a participant. |
| Share.NameDefault | lib/save-load.ts:43 | Without such a line the name is "Diagram - " followed by the date. |
| Share.TitleLine | lib/save-load.ts:34-36 | A `title` line names the configuration after its text. |
| Share.ParticipantLine | lib/save-load.ts:38-41 | A `participant` line names it after the participant. |
| Share.NameFromLines | lib/save-load.ts:31-43 | The name is the date name or the name some line gives. |
| Share.GenerateConfigName | lib/save-load.ts:29-44 | The configuration name is the date name or the name some line of the code gives. |
| Participants.ParseParticipantsLoop | components/diagram-styler/participant-editor.tsx:23-68 | The loop with its seen-set computes the reference definition, and the result has no duplicates. |
| Participants.ParseParticipants | components/diagram-styler/participant-editor.tsx:23-68 | No name appears twice in the list. |
| Participants.AddUnseen | components/diagram-styler/participant-editor.tsx:37-63 | Adding names through the seen-set agrees with the set-free definition, and the seen-set stays the set of names so far. |
| Participants.Collect | components/diagram-styler/participant-editor.tsx:23-68 | The list never holds a name twice. |
| Participants.CollectMembers | components/diagram-styler/participant-editor.tsx:23-68 | A name is in the list exactly when some line offers it. |
| Participants.ParsePrefix | components/diagram-styler/participant-editor.tsx:28-65 | Appending lines never reorders or removes names already found: order of first appearance is kept. |
| Participants.DeclAlias | components/diagram-styler/participant-editor.tsx:32-36 | `participant x as y` declares `x`, not the alias. |
| Participants.DeclPlain | components/diagram-styler/participant-editor.tsx:32-36 | `participant x` declares all of `x`, provided no `as` with white space on both sides occurs inside `x`. |
| Participants.WordsNoAlias | components/diagram-styler/participant-editor.tsx:32-33 | A name made of word characters holds no ` as `, so a declaration of it keeps it whole. |
| Participants.NoDeclaration | components/diagram-styler/participant-editor.tsx:32-33 | A line that opens with word characters followed by `-` matches neither declaration pattern. |
| Participants.SimpleMessage | components/diagram-styler/participant-editor.tsx:50-55 | `f->>to:rest` (or another of the four arrows) yields the sender and the receiver. |
| Participants.NoMessageWithoutDash | components/diagram-styler/participant-editor.tsx:50 | A line without `-` never matches the message pattern. |
| Participants.MessageLine | components/diagram-styler/participant-editor.tsx:28-64 | A message line contributes its sender, then its receiver. |
| Participants.SelfMessage | components/diagram-styler/participant-editor.tsx:50-63 | A message from a participant to itself lists that participant once. |
| Participants.SaveParticipant | components/diagram-styler/participant-editor.tsx:89-104 | Saving sets the edited key's record, with its id and name set to the key and missing form fields as "". All other keys are untouched. Nothing changes when no participant is being edited. |
| Participants.FormFor | components/diagram-styler/participant-editor.tsx:79-87 | The edit form opens with all three fields filled in. A participant with no record gets empty fields. |
| Participants.ClearParticipant | components/diagram-styler/participant-editor.tsx:106-110 | Clearing removes the key and keeps every other entry. |
| Participants.SaveUnchanged | components/diagram-styler/participant-editor.tsx:79-101 | Opening a record in the form and saving it unchanged gives the same map. |
| Participants.ClearUndoesSave | components/diagram-styler/participant-editor.tsx:89-110 | Clearing a key after saving it leaves the map as clearing it before would. |
| Participants.SaveKeepsKeyed | components/diagram-styler/participant-editor.tsx:89-110 | Saving and clearing keep every record's id and name equal to its key. |
| Messages.CaptureSound | components/diagram-styler/tooltip-editor.tsx:213-214 | A match splits the line into sender, arrow, receiver, colon, white space and text, with each part of the shape its group allows. |
| Messages.CaptureComplete | components/diagram-styler/tooltip-editor.tsx:213-214 | Every line of that shape matches, with those parts as the groups. |
| Messages.RequestOrResponse | components/diagram-styler/tooltip-editor.tsx:213-216 | No line matches both the request and the response pattern. |
| Messages.ParseMessagesLoop | components/diagram-styler/tooltip-editor.tsx:204-240 | The loop with its running index computes the reference definition. |
| Messages.IdsDistinct | components/diagram-styler/tooltip-editor.tsx:219-235 | The message ids are pairwise distinct. |
| Messages.ParseLinesAppend | components/diagram-styler/tooltip-editor.tsx:209-237 | Appending lines keeps the earlier messages, and numbering continues from the count so far. |
| Messages.ParseMessages | components/diagram-styler/tooltip-editor.tsx:204-240 | Every message has a non-empty sender and text, all three parts are trimmed, and the receiver has no colon. |
| Messages.RequestLine | components/diagram-styler/tooltip-editor.tsx:213-225 | `f->>to: m` parses to the single request `msg-0` from `f` to `to` saying `m`. |
| Messages.SaveTooltip | components/diagram-styler/tooltip-editor.tsx:42-56 | Other ids are untouched. The id keeps a tooltip if and only if the edited value is not blank. |
| Messages.StartEdit | components/diagram-styler/tooltip-editor.tsx:37-40 | The editor opens with text only for a message that has a tooltip. When stored tooltips are non-empty, it opens empty exactly for a message without one. |
| Messages.SaveThenEdit | components/diagram-styler/tooltip-editor.tsx:37-56 | Reopening a saved tooltip shows the trimmed value, or "" when it was blank. |
| Messages.EditUnchanged | components/diagram-styler/tooltip-editor.tsx:37-56 | Opening a tooltip and saving it unchanged gives the same map. |
| Messages.SaveKeepsWellFormed | components/diagram-styler/tooltip-editor.tsx:42-53 | Stored tooltips stay trimmed and non-empty. |
| PlantUml.DeclLine | lib/plantuml-to-mermaid.ts:38-54 | A declaration keeps its keyword, has a non-empty name without quotes made of the line's characters, and any alias is a word. |
| PlantUml.Classify | lib/plantuml-to-mermaid.ts:13-152 | A declaration comes only from a line that starts with `participant` or `actor` and a space. A block comes only from a line that starts with its keyword. |
| PlantUml.NoteMatch | lib/plantuml-to-mermaid.ts:70 | A one-line note has a colon, a position of `left`, `right` or `over` in any case, word participants, and a non-empty one-line text. |
| PlantUml.MessageLine | lib/plantuml-to-mermaid.ts:174-233 | A message keeps the arrow of the pattern that took it. Its parts are trimmed and on one line. |
| PlantUml.ArrowFromSound | lib/plantuml-to-mermaid.ts:174 | The arrow alternative found is one of the pattern's and matches on its own at that spot. |
| PlantUml.EmitLinesClean | lib/plantuml-to-mermaid.ts:13-234 | Every output line is indented by four spaces and holds no line break. |
| PlantUml.ConvertLines | lib/plantuml-to-mermaid.ts:5-236 | The output's lines are `sequenceDiagram` followed by the per-line output, one at most per input line, each indented. |
| PlantUml.Convert | lib/plantuml-to-mermaid.ts:5-236 | The output always opens with `sequenceDiagram`, and an empty input gives just that header. |
| PlantUml.IsPlantUml | lib/plantuml-to-mermaid.ts:242-247 | A blank text is never taken for PlantUML. |
| PlantUmlMessages.ClassifyReachesMessages | lib/plantuml-to-mermaid.ts:16-152 | A line that starts with neither `@`, `N` nor a lower-case letter reaches the message patterns. |
| PlantUmlMessages.MessageOf | lib/plantuml-to-mermaid.ts:174 | `f a to : m` matches with the parts `f`, `a`, `to`, `m` when `a` is the first alternative that fits. |
| PlantUmlMessages.MessageNone | lib/plantuml-to-mermaid.ts:193 | A pattern none of whose arrows occurs in the line's arrow does not match. |
| PlantUmlMessages.DashedMessage | lib/plantuml-to-mermaid.ts:174-189 | Each dashed arrow becomes `-->>`. The ends are swapped for `<<--` and `<<-`. |
| PlantUmlMessages.SolidMessage | lib/plantuml-to-mermaid.ts:192-209 | `->`, `->>` and `<<` are missed by the dashed pattern and become `->>`, swapped for `<<`. |
| PlantUmlMessages.DoubleHeadedShortArrow | lib/plantuml-to-mermaid.ts:174-193 | `<<-` belongs to the solid pattern, yet the dashed pattern takes it first and emits a swapped `-->>`. |
| PlantUmlMessages.ReturnArrowDropped | lib/plantuml-to-mermaid.ts:174-233 | A single-headed return arrow `<-` or `<--` matches no pattern, and the line produces nothing. |
| PlantUmlMessages.DashedInText | lib/plantuml-to-mermaid.ts:174-189 | `A -> B : x --> y : z` is taken by the dashed pattern, with sender `A -> B : x`, and becomes `    A -> B : x-->>y: z`. |
| PlantUmlMessages.LenientCovered | lib/plantuml-to-mermaid.ts:213 | On a line without line terminators, whatever the lenient pattern matches, the dashed or the solid one matches too. |
| PlantUmlMessages.LenientUnreachable | lib/plantuml-to-mermaid.ts:211-233 | On such a line the lenient branch never decides. |
| PlantUmlMessages.LenientReachable | lib/plantuml-to-mermaid.ts:212-232 | `A\r<->B:m` is taken only by the lenient pattern and becomes `    B->>A: m`. |
| PlantUmlLines.BlockEchoed | lib/plantuml-to-mermaid.ts:97-152 | A line that starts with a block keyword and its space is echoed, indented. |
| PlantUmlLines.BareBlockLine | lib/plantuml-to-mermaid.ts:91-112 | `else` and `end` are echoed, and `end note` is skipped. |
| PlantUmlLines.PlainDeclEchoed | lib/plantuml-to-mermaid.ts:38-62 | `participant name` or `actor name` is echoed with the name's white-space runs collapsed. |
| PlantUmlLines.UnquotedAliasKept | lib/plantuml-to-mermaid.ts:38-54 | Without quotes, `as alias` is swallowed into the name. |
| PlantUmlLines.QuotedDecl | lib/plantuml-to-mermaid.ts:38-54 | `keyword "name" as alias` yields the name and the alias. |
| PlantUmlLines.QuotedDeclEmitted | lib/plantuml-to-mermaid.ts:38-60 | It becomes `keyword alias as name`. |
| PlantUmlLines.NoteOverPair | lib/plantuml-to-mermaid.ts:70-75 | `note over a, b: m` becomes `Note over a,b: m`. |
| PlantUmlLines.NoteSide | lib/plantuml-to-mermaid.ts:70-81 | `note left of a: m` and `note right of a: m` keep their side. |
| PlantUmlLines.NoteHeaderSkipped | lib/plantuml-to-mermaid.ts:85-89 | The head of a note without a colon is skipped. |
| PlantUmlLines.StartTagDetected | lib/plantuml-to-mermaid.ts:242-244 | A text that starts, after white space, with `@startuml` is PlantUML. |
| PlantUmlLines.MermaidNotDetected | lib/plantuml-to-mermaid.ts:242-247 | A text that opens with `sequenceDiagram` and holds `->>` is not PlantUML. |
| PlantUmlLines.ConvertedNotDetected | lib/plantuml-to-mermaid.ts:5-247 | Once a line is a message, the converter's output is not taken for PlantUML again. |

## Left out

- Browser I/O is left out: `FileReader`, `Blob`, object URLs, the download anchor, `copyToClipboard`, `window.location` and `URLSearchParams`. The `d` parameter and the page address are plain arguments.
- `new Date()` is not modelled: the ISO time stamps and `toLocaleDateString()` are string parameters.
- `JSON.stringify`/`JSON.parse` are parameters. The share round trip assumes the parser inverts the serialiser on the record at hand. Comparing themes by `JSON.stringify` is modelled as comparing the nine colours in key order (Share.Colours). For themes written in key order, that is what comparing the serialised texts amounts to. The parser yields only well-typed fields, so Share.ImportFromJson does not see what `!config.code` and the `||` defaults also do to `0`, `null`, `false` or values of the wrong type; an empty code is modelled.
- JavaScript strings are UTF-16. The model's characters are Unicode scalar values, so lone surrogates (`encodeURIComponent` throws URIError and the fallback returns "") cannot be written. Lzw.FromCharCode turns a code in 0xD800..0xDFFF into U+FFFD, where `String.fromCharCode` gives a lone surrogate; only a crafted token's first code can reach it. A character above U+FFFF is one character, as `for…of` sees it. The download name's `replace(/[^a-zA-Z0-9]/g, '-')` works per UTF-16 code unit, so it writes two dashes for such a character where Share.DownloadName writes one.
- `String.fromCharCode(...bytes)` throws RangeError on very long arrays, which would send the text to the fallback. That argument-count limit is not modelled.
- The converter's `participants`/`actors` arrays and its `messagePatterns` list are left out: they are filled or declared but never read, so they change no output.
- Both editors' `handleClearAll` and `handleCancelEdit` only reset state to constants, and both are left out. Rendering, the color designer's UI and `PRESET_THEMES` are left out; only `ColorTheme` and `DEFAULT_THEME` are modelled.
- PlantUml.IsPlantUml: lower-cases ASCII letters only. The other characters that `toLowerCase` maps into ASCII cannot complete any of the five tested words. The Kelvin sign becomes `k`, which none of the words has, and a dotted capital I becomes `i` followed by a combining dot.
- PlantUmlMessages.DashedMessage: proved only for lines written `from arrow to : text` with one space on each side, where the sender, receiver and text hold no `-`, `<` or line terminator, the receiver holds no `:`, and the sender's first character is not `@`, `N` or a lower-case letter. The classifier itself covers every line. When the text does hold an arrow, the dashed pattern can take a solid message (DashedInText).
- PlantUmlMessages.SolidMessage: proved under the same restrictions as DashedMessage. `<<-` is left to DoubleHeadedShortArrow. A solid message whose text holds `-->` followed later by `:` goes to the dashed pattern instead (DashedInText).
- PlantUmlMessages.DoubleHeadedShortArrow: proved under the same restrictions as DashedMessage.
- PlantUmlMessages.ReturnArrowDropped: proved under the same restrictions as DashedMessage. The source's comments and its unused pattern list mention return arrows, but the code as written drops them, and the model keeps the code's behaviour. A `<-` or `<--` line whose text holds `-->` followed later by `:` is not dropped: the dashed pattern takes it.
- Participants.DeclPlain: requires that no `as` with white space on both sides occurs inside the name, which is where the lazy capture would stop (DeclAlias). This also excludes an `as` just before trailing white space, which the pattern would not take as an alias. A trimmed line never ends in white space.
- UrlCodec.FixedRoundTrip: excludes the empty text, a first character in `l`..`o`, and texts of 2^21 − 257 characters or more. The empty text decodes to U+0000 (EmptyText). The first-character case is the marker collision (MarkerCounterexample). Share records are JSON objects and start with `{`, so neither occurs for share links. The length bound keeps every LZW code below 2^21, the limit of the three-byte packing.
- Share.ShareRoundTrip: requires that no shortcut clashes with the normalised code. Shortcuts.CollisionCounterexample shows a code for which the round trip fails.
- Share.ShareLinkRoundTrip: requires no shortcut clash, a serialised record that starts with `{`, and one of fewer than 2^21 − 257 characters, for the reasons given for ShareRoundTrip and UrlCodec.FixedRoundTrip.
- Lzw.RoundTrip: stated for Latin-1 text. Wider characters have no seed code (WideCharCounterexample).

## Findings

| source | as written | input that shows it | evidently intended | confidence | as-written member | corrected member |
|---|---|---|---|---|---|---|
| lib/save-load.ts:196-201 | `base64ToNumbers` places the first 7-bit group at shift 0, but `numbersToBase64` writes the most significant group first, so every code of 128 or more comes back with its groups reversed | "aaa": the codes 97 and 256 are read back as 97 and 2, and the link opens as "a\U{2}" | read the groups most significant first | high; not executed | UrlCodec.PairCounterexample | Packing.UnpackMsbFirstPack |
| lib/save-load.ts:112-124 | `dict.get(w)!` is `undefined` for a character above U+00FF and nothing throws, so the UTF-8 fallback in `compressForUrl` never runs | "\U{100}": the codes are undefined and 256, and the link opens as "\0\U{2}" | send text that is not Latin-1 to the fallback | high; not executed | UrlCodec.WideCharCounterexample | UrlCodec.FixedRoundTrip |
