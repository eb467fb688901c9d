# Vinyl archive catalogue: a Dafny model of the feed-to-screen pipeline

The catalogue page of the shop (`src/App.js`) reads a published spreadsheet
feed and turns it into the list of records the visitor sees. This project
models that pipeline as pure functions over immutable values and proves what
each step promises:

1. **Normalisation** (`getData`, src/App.js:76-84): each row's cell list is zipped
   against the column ids into an object from id to value; a `null` cell gives
   `undefined`, a later cell under a repeated id overwrites an earlier one, and
   a cell past the last column lands under the key `"undefined"`.
2. **Inclusion rule** (src/App.js:86): a row is kept when `A` and `B` are truthy and
   `G > 0`, with JavaScript's truthiness and its string-to-number conversion
   for the comparison.
3. **Most recent first** (src/App.js:99): the kept rows are reversed before they are
   stored as page state; while that list is empty the page shows its loading
   heading (src/App.js:109).
4. **Live search** (src/App.js:127): a row is shown when the lower-cased search text
   occurs in the lower-cased `C` or `B`. A number or boolean in `C` (or in `B`,
   when `C` does not match) makes the callback throw, which the model returns as
   `Throw` instead of excluding it by a precondition.
5. **Image class name** (src/App.js:45-49): `"Image"`, or `"Image "` followed by a
   truthy string `className`.

Modules: `Seqs` (filter, reverse, subsequence), `JsString` (`toLowerCase`,
`includes`, `padStart`, `trim`), `JsValue` (cell values, truthiness, `> 0`,
completions), `Feed` (steps 1-3), `Search` (step 4), `Image` (step 5) and
`Example` (a three-row feed carried through the whole pipeline).

The pipeline starts from the already parsed `table` (column descriptors and
cell rows); the network fetch and the envelope stripping are outside the
model, and the search text is a parameter.

The inclusion rule tests `G`. A malformed feed makes `JSON.parse` throw inside
`getData`, so the stored list stays empty and the loading heading stays up.

## Model

| member | source | states |
|---|---|---|
| Feed.AssignKeys | src/App.js:79-82 | after the `forEach` over the first `n` cells, the row object has exactly the keys `headings[idx]` those cells wrote (`"undefined"` past the last column) |
| Feed.AssignValues | src/App.js:80-82 | each key holds `cell?.v` of the last cell that wrote it; a `null` cell reads as `undefined` |
| Feed.NormaliseZips | src/App.js:76-84 | normalisation gives one row per feed row at the same position, and that row maps a cell's column id to the cell's value unless a later cell overwrites it; it has no other keys |
| Feed.ZipWithDistinctIds | src/App.js:76-84 | with distinct column ids and no more cells than columns, column `idx`'s id maps to cell `idx`'s value and the id of a column without a cell reads as `undefined` |
| Feed.KeepMeans | src/App.js:86 | a kept row has truthy `A` and `B`; a row missing `A`, `B` or `G`, or with `G` = 0, `A` = 0 or `B` = "" is dropped; a numeric `G` of a kept row is positive |
| Feed.GetDataFilters | src/App.js:78-89 | `getData` returns exactly the normalised rows passing the rule, in feed order (a subsequence), each as often as in the feed, never more rows than the feed |
| Feed.GetData | src/App.js:78-89 | `getData` never returns more rows than the feed has, every row it returns passes the inclusion rule, and they appear in feed order (a subsequence of the normalised rows) |
| Feed.Catalogue | src/App.js:98-99 | reversing the stored list gives back `getData`'s list in feed order |
| Feed.CatalogueReverses | src/App.js:98-99 | the stored list has the length of `getData`'s result, element `i` is its element `n-1-i`, it is a permutation of it, and reversing it again gives feed order back |
| Feed.CatalogueMembership | src/App.js:86-99 | a feed row is in the stored list exactly when it passes the rule; a row with falsy `A` or `B` never is |
| Feed.LoadingWhileNothingKept | src/App.js:93-109 | once the feed has arrived the loading heading is shown exactly when no feed row passes the inclusion rule |
| JsValue.FalsyValues | src/App.js:46 | exactly `undefined`/`null`, `""`, `0` and `false` are falsy, as the `className ?` test and the `o.A && o.B` test read them |
| JsValue.GreaterThanZero | src/App.js:86 | `G > 0` is false for `undefined`/`null`, is `n > 0` for a number and the boolean itself for a boolean; a string passes only when its trimmed text is `Infinity` or `+Infinity`, a `0x`/`0o`/`0b` integer with a non-zero digit after the prefix, or an unsigned or plus-signed numeral with a non-zero decimal digit |
| JsValue.StringPositiveShape | src/App.js:86 | a string that converts to a positive number trims to one of those positive numeral shapes |
| JsValue.UnsignedPositiveShape | src/App.js:86 | an unsigned decimal literal converting to a positive number is `Infinity` or holds a non-zero digit |
| JsValue.DigitStringGreaterThanZero | src/App.js:86 | a string of decimal digits passes `> 0` exactly when one digit is not 0 |
| JsValue.NegatedDigitStringNotGreaterThanZero | src/App.js:86 | a minus sign followed by digits never passes `> 0`, `"-0"` included |
| JsValue.DecimalGreaterThanZero | src/App.js:86 | a decimal literal `digits.digits` (either side may be empty, not both) passes `> 0` exactly when one of its digits is not 0 |
| JsValue.BlankNotGreaterThanZero | src/App.js:86 | text made only of white space and line terminators, the empty string included, never passes `> 0` |
| JsValue.DigitlessNotGreaterThanZero | src/App.js:86 | text whose trimmed form has no decimal digit and is not `Infinity` or `+Infinity` never passes `> 0` |
| JsString.TrimRemovesOnlyTrimmable | src/App.js:86 | the white space ignored around a numeral is white space only, and what remains is a contiguous slice of the text |
| JsString.Includes | src/App.js:127 | the empty needle is always found, and a needle that is found is no longer than the text |
| JsString.IncludesIffOccurs | src/App.js:127 | `includes` is true exactly when the needle occurs at some position of the text |
| JsString.Lower | src/App.js:127 | `toLowerCase` keeps the length, maps each character through the letter mapping, leaves no upper-case letter and changes no other character |
| JsString.LowerIdempotent | src/App.js:127 | lower-casing leaves no upper-case letter, so lower-casing twice is lower-casing once |
| JsString.PadStart | src/App.js:47 | `padStart` reaches the target length by prepending spaces only, and the original string is the suffix |
| Search.OptionalIncludes | src/App.js:127 | `v?.toLowerCase().includes(q)` is false for an absent value, true exactly when `q` occurs in the lower-cased string, and throws for a number or boolean |
| Search.Shows | src/App.js:127 | the callback throws exactly when `C` is a number/boolean, or `C` does not match and `B` is a number/boolean; otherwise it is true exactly when the search matches `C` or `B` |
| Search.SearchFilter | src/App.js:127 | the filter throws exactly when some row's callback throws; otherwise it is the order-preserving filter of the rows on display |
| Search.DisplayedIffMatches | src/App.js:127 | a row whose `B` and `C` are strings or absent never throws and is shown exactly when the lower-cased search occurs in lower-cased `C` or `B`; with neither field it is never shown |
| Search.EmptySearchShowsStringRows | src/App.js:94-127 | with the initial empty search, a row whose `C` is a string, or whose `C` is absent and `B` a string or absent, does not throw and is shown exactly when `B` or `C` is a string |
| Search.EmptySearchShowsStringList | src/App.js:94-127 | on such rows the initial empty search does not throw and keeps exactly the rows with a string `B` or `C` |
| Search.LongerSearchNarrows | src/App.js:127 | text containing a shorter text (case-insensitively) shows no row the shorter text hides |
| Search.SearchableNeverThrows | src/App.js:127 | a list of rows whose `B` and `C` are strings or absent never makes the search throw |
| Search.SearchFilterKeepsOrder | src/App.js:127 | a successful search is a subsequence of the list, no longer than it, holding exactly the displayed rows |
| Search.SearchIdempotent | src/App.js:127 | searching the result again with the same text changes nothing |
| Search.ReverseKeepsThrowing | src/App.js:99-127 | some row of the reversed list throws exactly when some row of the list does |
| Search.SearchCommutesWithReverse | src/App.js:99-127 | searching the most-recent-first list gives the matches in feed order, reversed |
| Search.DisplayedCatalogue | src/App.js:96-127 | once the feed has arrived the page lists the matching kept rows most recent first, each passing the inclusion rule, without throwing when every kept row is searchable |
| Image.ClassName | src/App.js:45-49 | the class is `"Image"` for a falsy `className`, `"Image " + className` for a non-empty string, and a truthy number or boolean throws; it always starts with `Image` |
| Image.ClassNameOneSeparator | src/App.js:45-49 | for a non-empty class name without ASCII whitespace (tab, line feed, form feed, carriage return, space) the result holds exactly one such separator, the space at index 5, so it names exactly two classes |
| Seqs.Filter | src/App.js:86 | `filter` keeps exactly the elements passing the test, in order, with their multiplicities |
| Seqs.Reverse | src/App.js:99 | `reverse` puts element `n-1-i` at position `i` |
| Seqs.FilterIdempotent | src/App.js:127 | filtering twice with one test is filtering once |
| Seqs.FilterReverse | src/App.js:99-127 | filtering commutes with reversal |
| Seqs.ReversePermutes | src/App.js:99 | reversal neither adds, drops nor duplicates an element |
| Example.ExampleCatalogue | src/App.js:76-99 | of a feed with an untitled row, a row with `G` = 0 and a complete row, only the complete row is stored |
| Example.ExampleSearch | src/App.js:127 | searching that list for `BLUE` keeps the row titled "Kind of Blue", found through `B`: its `C` is "Miles Davis", which does not match |

## Left out

- The network fetch and `response.text()` (src/App.js:64-68): I/O; the model starts from the parsed table.
- The envelope-stripping regular expression and `JSON.parse` (src/App.js:69-74): library behaviour; a parse failure rejects the `getData` promise, which the page never handles, so the stored list stays empty.
- The `useImage` hook and the loading/error/alt-text branches of `Image` (src/App.js:7-43): asynchronous module loading inside React state.
- JSX rendering of the cards, the alt text and price templates, the router, `Main`, `App` and the analytics component (src/App.js:106-187 apart from lines 109 and 127): user interface and third-party components.
- React state updates: the search text is a parameter and `data.reverse()` is modelled as a value, not as the in-place mutation of the array it is.
- JsString.LowerChar: by assumption only Basic Latin and basic Cyrillic letters are lowered, not the full Unicode case mapping, and every character is assumed to be one UTF-16 code unit.
- JsValue.GreaterThanZero: for a string its contract states only the shape a positive numeral must have (`JsValue.StringPositiveShape`); the exact answer is proved for digit strings, decimal literals, minus-signed digits, blank text and digit-free text, not for every numeral with an exponent or radix prefix. Only the sign of ToNumber is modelled; spreadsheet numbers are exact reals, so floating-point rounding, `NaN` numbers and the underflow of strings such as `"1e-400"` to 0 are not.
- JsValue.Value: `null` and `undefined` are one value, `Absent`; they differ nowhere in this pipeline.
- JsValue.Completion: a thrown `TypeError` carries no message, and which row of a search threw first is not recorded.
- Property keys with special meaning to JavaScript objects (`__proto__`) are treated as ordinary keys.
