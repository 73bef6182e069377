# privacy-inspector popup: storage reader and display model

A Dafny model of the logic in the privacy-inspector browser-extension popup
(`popup.js`). The popup reads a page's storage and renders a list of entries
for each bucket. This model covers two parts of it:

- **The storage reader**, `getStorageData`. It runs in the page and builds
  three plain objects. Two come from loops over `localStorage` and
  `sessionStorage` (`key(i)`, then `getItem`). The third comes from parsing
  `document.cookie`: split on `;`, split each segment on `=`, trim the
  pieces, skip empty keys, default a missing value to `''`, and let a later
  segment overwrite an earlier one with the same key.
- **The display derivation**, `displayStorageType` / `displayData`. For each
  entry it records the key, whether the value is shown as an image (it
  starts with `data:image/`), what the value cell shows (the whole value
  for an image, a text preview shortened to 100 characters plus `...`
  otherwise), and the length of the full value. An empty bucket gets one
  "No items found" placeholder. The model produces a list of display items
  instead of HTML text.

Strings are sequences of UTF-16 code units (`JsStrings.JsString`). All the
JavaScript operations involved (`length`, `substring`, `startsWith`, `split`,
`trim`) count and cut in code units, so a value's `length` here is the
number the popup prints. `trim` removes exactly the WhiteSpace and
LineTerminator code units of ECMAScript, listed in `JsStrings.IsJsWhitespace`.

A Web Storage area is an input: the sequence of pairs
`(storage.key(i), storage.getItem(storage.key(i)))` for `i` from 0 to
`length - 1`. The cookie header is the string `document.cookie` returns.
Reading the page, the tab and the DOM is not modelled.

Modules:

- `JsStrings` (`js_strings.dfy`): code units, `Split`/`Join`, `Trim`.
- `StorageReader` (`storage_reader.dfy`): the storage loop, the cookie
  parser and `getStorageData`.
- `StorageDisplay` (`storage_display.dfy`): display items and the bucket loop.
- `PropertyAssignment` (`property_assignment.dfy`): the object-assignment
  behaviour described under Findings.

## Model

| member | source | states |
|---|---|---|
| `JsStrings.Split` | popup.js:77-78 | `split` with a one-character separator always gives at least one piece, and no piece contains the separator |
| `JsStrings.JoinSplit` | popup.js:77-78 | Joining the pieces of a split with the separator gives back the original string |
| `JsStrings.SplitJoin` | popup.js:77-78 | Splitting a join of separator-free pieces gives back exactly those pieces, so the split is that unique decomposition |
| `JsStrings.SplitAtFirstSeparator` | popup.js:78 | The first piece ends at the first separator: `split(a + sep + t) == [a] + split(t)` when `a` has no separator |
| `JsStrings.Trim` | popup.js:78 | The result of `trim` neither starts nor ends with whitespace and is no longer than the input |
| `JsStrings.TrimOf` | popup.js:78 | Reference definition of trim: whitespace `a` and `b` around an unpadded middle `m` trim to exactly `m` |
| `JsStrings.TrimIsSlice` | popup.js:78 | The result of `trim` is a contiguous slice of the input with only whitespace cut off on either side |
| `JsStrings.TrimIdempotent` | popup.js:78 | Trimming twice gives the same as trimming once |
| `StorageReader.ReadStorage` | popup.js:65-74 | The local/session loop's map has exactly the enumerated keys, each bound to the value of its last pair. It has at most one entry per index. With distinct keys (as Web Storage gives) it has exactly one entry per index, each bound to that index's value |
| `StorageReader.ReadsExactlyUnique` | popup.js:65-74 | The specification of the loop fixes the map completely: two maps that both satisfy it are equal |
| `StorageReader.EmptyStorageReadsEmpty` | popup.js:65-74 | The map read from an area is empty exactly when the area enumerates no pairs |
| `StorageReader.CookieSegments` | popup.js:77 | `document.cookie.split(';')` gives at least one segment (an empty header is one empty segment), and no segment contains `;`; `JoinSplit` shows the segments rejoin to the header |
| `StorageReader.SegmentKey` | popup.js:78-79 | A segment's key is unpadded and contains no `=` |
| `StorageReader.SegmentValue` | popup.js:78-80 | A segment's value is unpadded and contains no `=` |
| `StorageReader.SegmentWithoutEquals` | popup.js:78-80 | A segment with no `=` has its trimmed text as key and the empty string as value |
| `StorageReader.SegmentWithOneEquals` | popup.js:78-80 | In `a=b` the key is `trim(a)` and the value is `trim(b)` |
| `StorageReader.SegmentDropsAfterSecondEquals` | popup.js:78 | In `a=b=t` the value is `trim(b)`, whatever `t` is: text after a second `=` is dropped |
| `StorageReader.SegmentPairs` | popup.js:77-80 | The pairs the cookie loop stores (one per segment with a non-empty key) all have non-empty, unpadded, `=`-free keys and unpadded values, and there are no more of them than segments |
| `StorageReader.ParseCookies` | popup.js:77-82 | The parsed cookie map is the copy of the stored pairs into an empty object. Every key is non-empty, unpadded and `=`-free, every value is unpadded, and an empty header gives an empty map |
| `StorageReader.ParsedJarClean` | popup.js:77-80 | In any parsed cookie map, every key is non-empty, unpadded and `=`-free, every value is unpadded, and an empty header gives an empty map |
| `StorageReader.CookieKeys` | popup.js:77-80 | A key is in the parsed map exactly when it is the non-empty trimmed key of some segment (both directions) |
| `StorageReader.LastSegmentWins` | popup.js:77-80 | When a key occurs in several segments, the map holds the value of the last such segment |
| `StorageReader.LastSegmentPair` | popup.js:77-80 | The pair stored for the last segment with a key is the last stored pair with that key |
| `StorageReader.SegmentOfPair` | popup.js:77-80 | Every stored pair is the trimmed key and value of some segment |
| `StorageReader.PairOfSegment` | popup.js:77-80 | Every segment with a non-empty key yields a stored pair |
| `StorageReader.GetStorageData` | popup.js:57-85 | The snapshot's local and session buckets satisfy the storage-loop specification, its cookie bucket satisfies the cookie-parse specification, and every cookie key is non-empty and unpadded |
| `StorageDisplay.IsImage` | popup.js:101 | A value is shown as an image exactly when it starts with `data:image/`; the truthiness test adds nothing, since an empty value never has the prefix |
| `StorageDisplay.Preview` | popup.js:110 | A value of at most 100 code units is shown unchanged; a longer one is shown as its first 100 code units followed by `...` |
| `StorageDisplay.DeriveItem` | popup.js:100-114 | An item is an image exactly when its value starts with `data:image/` (so empty values are text). A text item's preview is the shortened value, while an image shows the whole value. The length is that of the full value. An empty value is text with an empty preview and length 0 |
| `StorageDisplay.PreviewShape` | popup.js:110 | A preview is the value when the value has at most 100 code units. Otherwise it is 103 code units long and keeps the first 100. It equals the value only in those cases, or when a 103-unit value already ends in `...` |
| `StorageDisplay.PreviewIdempotent` | popup.js:110 | Shortening a preview again changes nothing |
| `StorageDisplay.ImageValueShownWhole` | popup.js:101-114 | A value `data:image/...` is an image item whose preview is the whole untruncated value and whose length counts every code unit |
| `StorageDisplay.DisplayStorageType` | popup.js:93-119 | An empty bucket shows exactly the single placeholder. Otherwise the bucket shows one item per key, with no key repeated and every key present, each derived from its key and value. The placeholder appears exactly when the bucket is empty |
| `StorageDisplay.DisplayData` | popup.js:87-91 | Each bucket of the snapshot is rendered by the bucket specification |
| `StorageDisplay.EmptyAreaShowsPlaceholder` | popup.js:97-98 | Read then rendered, a storage area shows exactly the placeholder when it enumerates no pairs, and never shows it otherwise |
| `StorageDisplay.CookieViewKeysClean` | popup.js:77-82 | Every cookie item shown has a non-empty unpadded key, and an empty cookie header is shown as the placeholder |
| `PropertyAssignment.AssignProperty` | popup.js:67 | Assigning a string property on an object made by `{}` acts as a plain map update on every key except `__proto__`, whose presence and value stay as they were |
| `PropertyAssignment.ObjectFromEntries` | popup.js:58-68 | The bucket built as written, by assignment into `{}`, never has the key `__proto__` |
| `PropertyAssignment.PlainReadsExactly` | popup.js:65-74 | A loop of plain map updates meets the storage-loop specification |
| `PropertyAssignment.AsWrittenDropsOnlyProto` | popup.js:65-68 | The bucket as written equals the plain-update map with only the key `__proto__` removed |
| `PropertyAssignment.AsWrittenAgainstReader` | popup.js:65-74 | For every enumeration, the bucket as written is the corrected reader's map minus `__proto__` |
| `PropertyAssignment.ProtoKeyDropped` | popup.js:67 | An area holding one item named `__proto__` gives an empty bucket as written, while the corrected reader keeps the item |

## Left out

- DOM and event wiring is not modelled: tab switching, the refresh and clear-all buttons, the delete buttons, the image modal (`openImage`, `closeModal`) and the outside-click handler. It is user interface only.
- `loadStorageData`, `deleteStorageItem` and `clearAllStorage` are not modelled. They are asynchronous calls into `chrome.tabs` and `chrome.scripting`. Their deletions are single calls whose effect on cookies the browser decides. This leaves out the `results[0].result` test and the error messages.
- `escapeHtml` is not modelled. It relies on the browser's serialisation of DOM text, which cannot be seen here. Previews and keys are modelled before escaping.
- Assembling the HTML text is not modelled, including the quote escaping of the `openImage` argument. The model produces display items instead.
- `DisplayStorageType`: does not fix the order of the items. JavaScript's `Object.entries` lists array-index keys in ascending order first, then the other keys in insertion order. The model accepts any order.
- `ReadStorage`: takes each stored value as a string. `getItem` of an enumerated key never returns `null`, so `null` values are not represented.
- privacy.js is not part of this model. It is window-closing and history-navigation code driven by timers.

## Findings

| source | as written | input that shows it | evidently intended | confidence | as-written member | corrected member |
|---|---|---|---|---|---|---|
| popup.js:67 | `data.local[key] = ...` (also `data.session[key]`, line 73, and `data.cookies[key]`, line 80) on an object made by `{}`. A key `__proto__` hits the setter inherited from `Object.prototype`, which ignores a string, so the entry is lost | local storage holding one item named `__proto__`: the bucket comes out empty and the popup shows "No items found" (`PropertyAssignment.ProtoKeyDropped`). The same happens to a cookie `__proto__=1` | Every enumerated key appears in the bucket bound to its value | high; not executed | `PropertyAssignment.ObjectFromEntries` | `StorageReader.ReadStorage` |

`PropertyAssignment.AsWrittenAgainstReader` shows that `__proto__` is the only
key lost. The cookie bucket is the same loop over the segment pairs, so the
lemma covers it too. The rest of the model uses the corrected reader.
