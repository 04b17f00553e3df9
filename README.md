# YouTube transcript highlighter: a Dafny model of the injector

This project models the logic of the user script `vanilla_javascript/injector.js`.
The script lets a reader mark a context phrase and then an expression on a page,
with two keyboard shortcuts. It highlights every occurrence of both, in two
CSS highlight layers. It keeps the pairs in `localStorage`, under a per-page
key or under a global key. It also merges translation records that an outside
tool passes to `window.injectGPTTranslations`. The parts modelled are these:

- **Range locator** (`Locator`): `findTextRanges` over the page's text nodes. The
  page is modelled as a sequence of strings, and `String.prototype.indexOf`
  as `JsString.IndexOf`.
- **Highlight renderer** (`Highlighter` for the specification, `Injector.Session.Render`
  for the loop): it rebuilds both layers and `activeExpressionRanges` from the pairs
  and the pending context.
- **Translation map** (`Translations`): `translationData`, a JavaScript `Map`.
  It is modelled as an insertion-ordered list of entries, because `Array.from(values())`
  fixes the order of the saved records.
- **Persistence** (`Persistence`): `getStorageKeyForCurrentUrl`, the two record
  shapes and the fallback order of `loadAndRestoreState`.
- **Session** (`Injector.Session`): the module variables as fields, plus
  `localStorage` and `CSS.highlights`. Its methods are `saveState`, `loadAndRestoreState`,
  the three shortcut branches of the `keydown` handler, and the injection entry point.

The page's text nodes (`doc`), the selection string, whether the selection is
collapsed, the URL parts, and whether a storage write succeeds are all
parameters. So is the block text found by `closest`: it is the block's
untrimmed `textContent`, and the commit trims it (line 227).

Reset is gated by the collapsed-selection check at line 202, like the other
shortcuts. A load that finds no usable record leaves the state as it was
(lines 161-172).

Loading follows line 152 as written: each stored record is `set` under its
`expression` exactly as stored, not trimmed and not filtered for truthiness.
Injection (line 263) stores records under the trimmed expression, so the two
disagree on an untrimmed expression; see "## Findings". The restore that
injection's rule implies is kept beside it as `Persistence.RestoreIntended`.

## Model

| member | source | states |
|---|---|---|
| JsString.TrimStartSpec | vanilla_javascript/injector.js:206 | trimming the start leaves a suffix that does not start with whitespace; everything dropped is ECMAScript whitespace |
| JsString.TrimEndSpec | vanilla_javascript/injector.js:206 | trimming the end leaves a prefix that does not end with whitespace; everything dropped is whitespace |
| JsString.Trim | vanilla_javascript/injector.js:263 | `trim` is never longer than its input and the result has no whitespace at either end |
| JsString.TrimSlice | vanilla_javascript/injector.js:263 | `trim` returns a slice `s[a..b]` of its input, and every character before `a` and from `b` on is whitespace |
| JsString.TrimIdempotent | vanilla_javascript/injector.js:263 | trimming a trimmed string changes nothing |
| JsString.IndexOf | vanilla_javascript/injector.js:33 | `indexOf` returns -1 or a position at or after `from` where the needle occurs |
| JsString.IndexOfFirst | vanilla_javascript/injector.js:33 | `indexOf` returns -1 only when no occurrence starts at or after `from`, and otherwise no occurrence lies between `from` and its result (the first one) |
| JsString.Contains | vanilla_javascript/injector.js:115 | `includes` holds exactly when the needle occurs somewhere |
| Locator.FindTextRanges | vanilla_javascript/injector.js:26-42 | the loop over text nodes returns exactly `Locate(doc, needle)`, and nothing for an empty needle |
| Locator.ScanNode | vanilla_javascript/injector.js:32-39 | the `indexOf` loop over one text node returns exactly that node's greedy matches `NodeRanges(n, node, needle, 0)` |
| Locator.NodeRangesSound | vanilla_javascript/injector.js:33-38 | each match in a node starts at or after the cursor, has end = start + needle length, and covers the needle |
| Locator.NodeRangesOrdered | vanilla_javascript/injector.js:33-39 | the matches in a node go left to right without overlap, because the cursor moves past each hit |
| Locator.NodeRangesComplete | vanilla_javascript/injector.js:33-39 | an occurrence in a node is returned exactly when no returned match strictly covers its start (greedy leftmost) |
| Locator.LocateUpToNode | vanilla_javascript/injector.js:31-40 | the ranges of node n in the result are exactly that node's greedy matches |
| Locator.LocateUpToOrdered | vanilla_javascript/injector.js:31-40 | ranges follow node order, then offset order within a node |
| Locator.LocateSound | vanilla_javascript/injector.js:31-39 | every located range covers `needle` exactly: `doc[n][s..e] == needle` and `e == s + |needle|` |
| Locator.LocateOrdered | vanilla_javascript/injector.js:31-39 | located ranges are strictly ordered by node, then by start, and do not overlap |
| Locator.LocateComplete | vanilla_javascript/injector.js:31-39 | an occurrence of a non-empty needle is located exactly when it does not start strictly inside a located range |
| Highlighter.ActiveSpansMirrorExpressionLayer | vanilla_javascript/injector.js:55-59 | the tooltip spans are the expression layer, range for range and in order |
| Highlighter.ActiveSpansSound | vanilla_javascript/injector.js:53-60 | every active span covers its own text, and that text is the expression of some pair |
| Highlighter.ContextRangesSound | vanilla_javascript/injector.js:53-54 | every range from the pairs' contexts covers the context of some pair |
| Highlighter.ExpressionRangesSound | vanilla_javascript/injector.js:55-57 | every range of the expression layer covers the expression of some pair |
| Highlighter.ContextLayerSound | vanilla_javascript/injector.js:53-64 | every range of the context layer covers some pair's context or the pending context |
| Translations.Values | vanilla_javascript/injector.js:130 | `Array.from(values())` lists the records in entry order |
| Translations.Get | vanilla_javascript/injector.js:86 | `get` finds a record exactly when some entry has the key, and the record is that entry's |
| Translations.Set | vanilla_javascript/injector.js:263 | after `set`, the key maps to the new record and other keys are unchanged; a present key keeps its position, a new one is appended |
| Translations.SetKeepsDistinct | vanilla_javascript/injector.js:152 | `set` never makes a key occur twice |
| Translations.SetKeepsWellKeyed | vanilla_javascript/injector.js:262-264 | setting a truthy record under its trimmed expression keeps keys distinct and each record under its trimmed expression |
| Translations.UpsertAllWellKeyed | vanilla_javascript/injector.js:261-265 | the upsert loop preserves that invariant |
| Translations.UpsertAllDistinct | vanilla_javascript/injector.js:261-265 | the upsert loop keeps the keys distinct, whatever the map held before |
| Translations.UpsertAllSelfKeyed | vanilla_javascript/injector.js:261-265 | when every truthy injected expression is already trimmed, the upsert loop keeps every record under its own expression |
| Translations.SetKeepsSelfKeyed | vanilla_javascript/injector.js:152 | setting a record under its own expression keeps every record under its own expression |
| Translations.SetAllDistinct | vanilla_javascript/injector.js:152 | the restore loop keeps the keys distinct |
| Translations.SetAllValuesRestores | vanilla_javascript/injector.js:150-153 | setting the saved values of a map with distinct keys, each record under its own expression, into an empty map rebuilds the same map, entry for entry and in order |
| Translations.UpsertAllSkips | vanilla_javascript/injector.js:261-265 | items not keyed k, including every item with a falsy expression, leave the entry for k unchanged |
| Translations.UpsertAllLatestWins | vanilla_javascript/injector.js:261-265 | the record under k is the last item whose trimmed truthy expression is k |
| Translations.UpsertValuesRestores | vanilla_javascript/injector.js:261-265 | upserting the saved values of a well-keyed map into an empty one rebuilds the same map, entry for entry and in order (the corrected restore) |
| Persistence.ReplaceSlashDot | vanilla_javascript/injector.js:121 | same length, every `/` and `.` becomes `-`, other characters stay, and neither `/` nor `.` remains |
| Persistence.PrefixedIsNotGlobal | vanilla_javascript/injector.js:15-16 | no key with the URL prefix equals the global key |
| Persistence.StorageKey | vanilla_javascript/injector.js:113-122 | the key starts with the prefix and is never the global key; on a youtube.com `/watch` page with a non-empty `v` it is prefix + `youtube-` + v; otherwise it is prefix + host + path with `/` and `.` replaced, containing neither |
| Persistence.SaveRestoreRoundTrip | vanilla_javascript/injector.js:124-158 | what is saved under the page key is read back by a fresh load of the same URL, line 152 as written: same pairs in order, same translation map, key = URL key, for every map whose records sit under their own expressions with distinct keys |
| Persistence.IntendedSaveRestoreRoundTrip | vanilla_javascript/injector.js:124-158 | the same round trip for the corrected restore, for every well-keyed map the injector builds |
| Persistence.GlobalSaveRestoreRoundTrip | vanilla_javascript/injector.js:124-172 | with no per-page object, the bare pairs saved under the global key are restored and the key becomes global; translations are untouched |
| Persistence.ResetRestoreFallsBack | vanilla_javascript/injector.js:161-172 | once the page record is removed, loading adopts the global bare array if there is one, and otherwise leaves the state unchanged |
| Persistence.AsWrittenReloadLosesTrimmedKey | vanilla_javascript/injector.js:152 | as written, a record injected as " brown" is found under "brown" before a reload and not after; the corrected restore finds it again |
| Injector.Session.constructor | vanilla_javascript/injector.js:19-23 | the initial state: no pairs, no context, an empty map, no spans, the global key |
| Injector.Session.Render | vanilla_javascript/injector.js:44-68 | layers = `Highlights(doc, pairs, context)` and spans = `ActiveSpans(doc, pairs)`, computed from these alone; both are empty with no pairs and no truthy context |
| Injector.RenderTwice | vanilla_javascript/injector.js:44-68 | a second render reproduces the first (idempotence) |
| Injector.Session.Save | vanilla_javascript/injector.js:124-140 | writes the per-page object under a prefixed key and the bare pairs otherwise; a failed write leaves the store unchanged |
| Injector.Session.UpsertTranslations | vanilla_javascript/injector.js:261-265 | the map becomes `UpsertAll` of the old map and the items; keys stay distinct, and a well-keyed map stays well keyed |
| Injector.Session.RestoreTranslations | vanilla_javascript/injector.js:152 | the map becomes `SetAll` of the old map and the stored records, each set under its raw expression; keys stay distinct |
| Injector.Session.Load | vanilla_javascript/injector.js:142-173 | the state becomes `Restore` of the old state: a page object is adopted (pairs, records set under their raw expressions, URL key), else a global bare array (pairs, global key), else nothing changes; it re-renders exactly when something was adopted |
| Injector.Session.SetContext | vanilla_javascript/injector.js:209-215 | the pending context becomes the trimmed selection and is rendered; nothing else changes |
| Injector.Session.CommitExpression | vanilla_javascript/injector.js:218-240 | appends exactly one pair (pending context, or the trimmed block text), clears the context, renders, saves and requests the prompt; with no context and no block, nothing changes |
| Injector.Session.Reset | vanilla_javascript/injector.js:243-252 | removes the record at the current key, empties pairs, context and translations, sets the global key, and clears both layers |
| Injector.Session.KeyDown | vanilla_javascript/injector.js:200-253 | a collapsed selection or a non-shortcut key changes nothing, reset included; each shortcut has its branch's effect on the trimmed selection |
| Injector.Session.InjectTranslations | vanilla_javascript/injector.js:256-269 | a non-array argument changes nothing; otherwise truthy records are upserted under their trimmed expression, the key becomes the URL key and the per-page object is saved there; keys stay distinct, and a well-keyed map stays well keyed |
| Injector.ReloadAfterInject | vanilla_javascript/injector.js:256-269 | after a saved injection of records whose truthy expressions are already trimmed, into a map whose records sit under their own expressions, a fresh session that loads the same URL has the same pairs and translation map, and the URL key |

## Left out

- Tooltip hit-testing and rendering (lines 71-110): they depend on `getClientRects` and on floating-point pixel coordinates.
- Toasts, `alert`, style injection and the `trustedTypes` policy (lines 176-185, 271-292, 306-310): these are DOM side effects with no state the model keeps.
- Clipboard prompt (lines 186-197): the text and the asynchronous `navigator.clipboard` write are not modelled. The model records only that a commit requests a prompt listing the current pairs (`clipboardPrompt`).
- Bootstrap (lines 295-303, 311): it clicks the transcript button and uses `setTimeout`.
- JSON parsing and serialising: records are stored as parsed values (`StoredValue`). A value that fails to parse and a value of any other shape are both `Malformed`.
- `URLSearchParams`, `TreeWalker` and `Element.closest`: the `v` parameter, the text nodes and the block text are inputs.
- `selection.removeAllRanges` and `preventDefault`: the selection and the event are not state here.
- Partial effects of exceptions during a load: a `null` item in a stored translation list makes line 152 throw after `highlightPairs` has been replaced. Stored items here are always records, so this case cannot arise.
- A missing `expression` and an empty one are both the empty string, since both are falsy. A needle that is absent and one that is empty are likewise both the empty string.
- Locator.FindTextRanges and JsString.IndexOf: offsets count Unicode scalar values, while JavaScript's `indexOf`, `length` and `Range.setStart` count UTF-16 code units. In a node `"😀ab"` the needle `"ab"` is at (n, 2, 4) in the page and at (n, 1, 3) in the model. Lone surrogates, which a JavaScript string can hold, cannot be written as a `string` at all.
- Injector.Session.InjectTranslations: the throwing items are not modelled. A `null` item throws at `item.expression`, and a truthy non-string expression throws at `.trim()`. Either stops the `forEach` with the map partly updated and skips the key switch and the save (lines 266-268). Items here are always records with string expressions.
- Injector.Session.RestoreTranslations: a missing `expression` and an empty one are both the key `""` here, while the JavaScript map keeps the keys `undefined` and `""` apart.
- Persistence.SaveRestoreRoundTrip: holds only for maps whose records sit under their own expressions. As written, line 152 breaks the round trip for any record injected with an untrimmed expression (see "## Findings").
- Injector.ReloadAfterInject: assumes every truthy injected expression is already trimmed and the map already has each record under its own expression. Otherwise the reloaded map differs, as "## Findings" shows.
- JsString.IndexOf: requires `from <= |s|`; the JavaScript clamp of a larger start is not modelled, because the locator never passes one.

## Findings

| source | as written | input that shows it | evidently intended | confidence | as-written member | corrected member |
|---|---|---|---|---|---|---|
| vanilla_javascript/injector.js:152 | restored records are set under their raw `expression`, but injection (line 263) sets them under `expression.trim()` | inject `[{expression: " brown", definition: "color"}]`, save, reload: `translationData.get("brown")` is found before the reload and missing after it | restore each record the way injection stores it: under its trimmed truthy expression | medium, not executed | Persistence.AsWrittenReloadLosesTrimmedKey | Persistence.IntendedSaveRestoreRoundTrip |

The model follows the code: `Persistence.Restore`, `Injector.Session.Load` and `Injector.Session.RestoreTranslations` set the stored records under their raw expressions. The corrected restore, which re-injects the stored records under their trimmed truthy expressions, is `Persistence.RestoreIntended`, and `Persistence.IntendedSaveRestoreRoundTrip` proves its round trip for every map the injector builds.
