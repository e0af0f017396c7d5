# Album store search and ordering, in Dafny

This project models the album store of the Plex music player
(`src/renderer/stores/album-store/index.js`). The store holds:

- the search query;
- the chosen order;
- the albums of the current library section;
- the albums that currently match;
- the `isLoading` and `isFiltering` flags.

It also holds:

- the setters the search box, the order shortcuts and the fetch call use;
- `filterSet`, which turns the search string into a predicate set;
- the recompute step, which keeps the albums that `match` accepts under that set, sorts them with `OrderFn[order]` and stores them as the matches.

The model has five modules:

- `QueryParser` (`query_parser.dfy`) is `filterSet`. Three global replacements run in order, each on the text the previous one left:
  - bare `(\w+):(\w+)`;
  - double-quoted `(\w+):"([^"]+)"`;
  - single-quoted `(\w+):'([^']+)'`.

  Each pass is a left-to-right scan that takes the leftmost match, deletes it and hands its key and value to the callback. The matches are characterised three ways: by a declarative `IsMatch`, by the engine's own search (`MatchAt`), and by what a pass leaves behind (`Gaps`). The callback's writes `predicates[key] = value` are a fold over the captures. The trimmed remainder and the predicates are merged the way `{ query, ...predicates }` merges them.
- `FreeText` (`free_text.dfy`) proves that the free text `filterSet` leaves holds no occurrence of any of the three patterns. A deletion never joins the text around it into a new occurrence: every match starts where no word character precedes it, a bare value takes the whole word run, and an occurrence a later pass could expose was already removed by an earlier one. The proof follows the indices each pass keeps (`Next`, `KeptText`, `Kept`).
- `QueryExamples` (`query_examples.dfy`) gives what `filterSet` returns for each typical shape of query. Keys, values and words are arbitrary, so each lemma covers every query of its shape.
- `Ordering` (`ordering.dfy`) contains:
  - the sort, a stable insertion sort;
  - the registry of named comparators (`OrderFn`);
  - the comparator `Array.prototype.sort` uses when `OrderFn[order]` is `undefined`, which compares the elements' string forms.
- `Store` (`album_store.dfy`) contains:
  - the filter, together with the loop method standing for `async.filter`;
  - the `AlbumStore` class with its fields and setters;
  - the recompute pass.

The album type, `match` and the comparators in `OrderFn` are defined in `./support` and `models`, which are not part of this model. They are type and function parameters here: `matchFn`, `orderFn` and `display`, where `display` stands for `String(album)`.

Behaviour of the code worth knowing:

- Keys are stored exactly as typed. The code does not lower-case them.
- A predicate whose key is `query` replaces the free text, because the predicates are spread after it.
- A match whose key is `__proto__` is removed from the text but records nothing. Assigning a string to `__proto__` of a plain object has no effect.
- The bare pass runs first, so in `t:"a b:c"` it takes `b:c` out of the quoted value. The double-quoted pass then records `t = "a "`.
- An unbalanced quote matches nothing and stays in the free text.

## Model

| member | source | states |
|---|---|---|
| QueryParser.WordEnd | src/renderer/stores/album-store/index.js:135 | `\w+` takes the whole run of word characters from i: every character before the result is a word character, and the one at the result is not |
| QueryParser.QuoteEnd | src/renderer/stores/album-store/index.js:135 | `[^"]+` / `[^']+` run to the first closing quote: no quote before the result, a quote at it unless the text ends |
| QueryParser.MatchAt | src/renderer/stores/album-store/index.js:135 | the regex engine tried at one index: a reported match starts there and ends within the text; MatchAtSound and MatchAtComplete show it reports a match exactly when one starts there, the longest bare one or the only quoted one |
| QueryParser.MatchAtComplete | src/renderer/stores/album-store/index.js:135 | whenever a match of the pattern starts at i, the engine reports one there with the same key; for a bare value it is the longest, for a quoted value it is that very match |
| QueryParser.Scan | src/renderer/stores/album-store/index.js:137-139 | one global `replace` whose callback returns `''`: the text shrinks and every capture lies inside the scanned part; ScanCapturesAreMatches, ScanDeletesCaptures and ScanIsLeftmost pin the result down completely |
| QueryParser.ScanCapturesAreMatches | src/renderer/stores/album-store/index.js:137-139 | the captures of one pass are ordered and disjoint, and each is the match the engine reports at its start |
| QueryParser.ScanDeletesCaptures | src/renderer/stores/album-store/index.js:137-139 | the text a pass returns is its input with exactly the captured spans deleted (the callback returns `''`) |
| QueryParser.ScanIsLeftmost | src/renderer/stores/album-store/index.js:137-139 | no match starts at any position the pass did not capture: every occurrence the global scan can reach is replaced |
| QueryParser.ScanWithoutMatch | src/renderer/stores/album-store/index.js:137-139 | a text in which the pattern never occurs is returned unchanged and yields no captures |
| QueryParser.Assign | src/renderer/stores/album-store/index.js:138 | `predicates[key] = value`: the key then holds the value, unless it is `__proto__`, in which case the predicates are left exactly as they were; every other key keeps its value and no key is lost |
| QueryParser.Record | src/renderer/stores/album-store/index.js:137-138 | the callback's writes over a pass's matches: no key is lost, and every key present was there before or is carried by a capture; RecordLastWins and RecordKeeps give each key's value |
| QueryParser.RecordLastWins | src/renderer/stores/album-store/index.js:137-138 | after the callback's writes, a key holds the value of the last capture that carries it |
| QueryParser.RecordKeeps | src/renderer/stores/album-store/index.js:137-138 | a key that no capture carries, or `__proto__`, keeps what it had (and stays absent if it was absent) |
| QueryParser.RecordAppend | src/renderer/stores/album-store/index.js:134-142 | recording the captures of one pass and then the next is recording their concatenation: the three passes share one `predicates` object |
| QueryParser.RecordOver | src/renderer/stores/album-store/index.js:144 | recording over an existing map is that map overridden by what the captures record, which is the spread of `predicates` after `query` |
| QueryParser.Trim | src/renderer/stores/album-store/index.js:144 | `trim()` returns a slice of its input that neither starts nor ends with white space or a line terminator, and everything cut off on both sides is white space or a line terminator |
| QueryParser.FilterSet | src/renderer/stores/album-store/index.js:144 | the keys are `query` plus every predicate key; `query` holds the trimmed remainder unless a predicate named `query` replaces it; every other predicate keeps its value |
| QueryParser.RunPasses | src/renderer/stores/album-store/index.js:134-142 | the `_.reduce` over the passes: the text only shrinks and no recorded key is lost; ParseInThreePasses spells out the three passes |
| QueryParser.Parse | src/renderer/stores/album-store/index.js:134-144 | the free text is no longer than the query; ParseInThreePasses, ParseLastWins, ParseOnlyMatchedKeys, ParseWithoutPattern and FreeText.ParseLeavesNoPattern give its free text and predicates |
| QueryParser.ParseInThreePasses | src/renderer/stores/album-store/index.js:134-142 | the reduce is bare, then double-quoted, then single-quoted, each on the text the previous one left; the free text is the trimmed remainder and the predicates are every capture recorded in that order |
| QueryParser.ParseLastWins | src/renderer/stores/album-store/index.js:137-138 | a key given more than once holds the value of its last capture in application order |
| QueryParser.ParseOnlyMatchedKeys | src/renderer/stores/album-store/index.js:137-138 | a key that no pass captured (or `__proto__`) is not among the predicates |
| QueryParser.ParseWithoutPattern | src/renderer/stores/album-store/index.js:141-144 | a query in which none of the three patterns occurs gives no predicates, and the filter set is `{ query: query.trim() }` |
| FreeText.ScanIsKeptText | src/renderer/stores/album-store/index.js:136-139 | the text one pass leaves is exactly the characters at the indices its scan steps onto and finds no match at, in order |
| FreeText.ScanKept | src/renderer/stores/album-store/index.js:136-139 | the characters a pass keeps come from increasing indices of its input and no match of any length starts at any of them; between two neighbouring kept characters, a kept word character is followed by the next input character and a skipped stretch starts with a word character; after a stretch the bare pass skips, the next kept character is not a word character |
| FreeText.BarePassLeavesNone | src/renderer/stores/album-store/index.js:134-139 | the text the bare pass leaves holds no `\w:\w`, so no occurrence of `(\w+):(\w+)` |
| FreeText.QuotedPassKeepsBareFree | src/renderer/stores/album-store/index.js:134-139 | a quoted pass over text without a bare occurrence leaves none |
| FreeText.QuotedPassLeavesNone | src/renderer/stores/album-store/index.js:134-139 | a quoted pass over text without a bare occurrence leaves no occurrence of its own pattern, nor of the other quoted pattern when its input had none |
| FreeText.RemainderLeavesNone | src/renderer/stores/album-store/index.js:134-142 | after the three passes in their order, no occurrence of any of the three patterns is left |
| FreeText.ParseLeavesNoPattern | src/renderer/stores/album-store/index.js:134-144 | for every query, no substring of the free text `query.trim()` matches any of the three patterns: nothing that looks like a predicate is left in it |
| QueryExamples.LonePredicate | src/renderer/stores/album-store/index.js:134-144 | `k:v` gives an empty free text and `k = v`; a key `query` replaces the free text and a key `__proto__` records nothing |
| QueryExamples.FreeTextThenPredicate | src/renderer/stores/album-store/index.js:134-144 | `w k:v` gives free text `w` and `k = v` |
| QueryExamples.RepeatedKey | src/renderer/stores/album-store/index.js:137-138 | `k:v1 k:v2` gives an empty free text and `k = v2` |
| QueryExamples.QuotedThenFreeText | src/renderer/stores/album-store/index.js:134-144 | `k:"v" w`, where v is any non-empty text without a double quote or colon, gives `k = v` with its spaces and free text `w` |
| QueryExamples.BarePredicateInsideQuotes | src/renderer/stores/album-store/index.js:134-142 | `k1:"a k2:v2"` gives `k2 = v2` from the bare pass, then `k1 = "a "` from the double-quoted pass, and an empty free text |
| QueryExamples.UnbalancedQuote | src/renderer/stores/album-store/index.js:134-144 | `k:"v` with no closing quote matches no pass and comes back whole, trimmed, as the free text |
| Ordering.Insert | src/renderer/stores/album-store/index.js:45 | one insertion step of the sort: one element longer; InsertPermutes, InsertSorted and InsertStable give its contents, order and stability |
| Ordering.Sort | src/renderer/stores/album-store/index.js:45 | `matches.sort(...)` keeps the length; SortPermutes, SortSorted, SortStable and SortUnique characterise it completely |
| Ordering.SortPermutes | src/renderer/stores/album-store/index.js:45 | sorting the matches keeps every album exactly as often as before |
| Ordering.SortSorted | src/renderer/stores/album-store/index.js:45 | with a consistent comparator the sorted matches are in comparator order |
| Ordering.SortStable | src/renderer/stores/album-store/index.js:45 | with a consistent comparator, albums the comparator ranks equal keep their relative order |
| Ordering.SortUnique | src/renderer/stores/album-store/index.js:45 | with a consistent comparator, any sorted, stable permutation of the input is the model's result, so every stable engine returns the same sequence as the model |
| Ordering.SortDeterministic | src/renderer/stores/album-store/index.js:45 | when the comparator ties only identical albums, the sorted matches depend only on which albums match, not on the order they arrive in |
| Ordering.StringLessTrichotomy | src/renderer/stores/album-store/index.js:45 | string `<` is a strict total order: exactly one of equal, less or greater holds |
| Ordering.StringLessTransitive | src/renderer/stores/album-store/index.js:45 | string `<` is transitive |
| Ordering.DefaultCompare | src/renderer/stores/album-store/index.js:45 | `sort(undefined)` compares string forms: two albums tie exactly when their string forms are equal, and one goes first exactly when its string form is less |
| Ordering.DefaultCompareConsistent | src/renderer/stores/album-store/index.js:45 | `sort(undefined)` compares string forms, and that comparison is antisymmetric and transitive |
| Ordering.Lookup | src/renderer/stores/album-store/index.js:45 | `OrderFn[this.order]` is a comparator exactly when the order names one, and then it is that comparator |
| Ordering.ComparatorFor | src/renderer/stores/album-store/index.js:45 | the comparator the sort uses: `OrderFn[order]` when the order names one, the string-form comparison otherwise |
| Ordering.ComparatorForConsistent | src/renderer/stores/album-store/index.js:45 | `OrderFn[order]` is used when the order names a comparator and the default comparison otherwise; either way the sort's comparator is consistent if the registry's are |
| Store.Filter | src/renderer/stores/album-store/index.js:39-43 | the albums the iteratee accepts: never more than there are; FilterCounts gives exactly which and how many, FilterAlbums their order |
| Store.Matching | src/renderer/stores/album-store/index.js:39-43 | the albums `match` accepts under the filter set of a query: never more than the albums; FilterCounts and Recompute say which |
| Store.FilterCounts | src/renderer/stores/album-store/index.js:39-43 | the filtered albums hold each accepted album exactly as often as the albums do, and nothing else |
| Store.FilterAlbums | src/renderer/stores/album-store/index.js:39-43 | the loop returns the albums `match` accepts, in their original order, and an album is in the result exactly when it is among the albums and accepted |
| Store.ClearedQueryKeepsAll | src/renderer/stores/album-store/index.js:116-119 | after `clearFilter()` the filter set is `{ query: '' }`, and when `match` accepts every album under it the matches are all the albums, sorted |
| Store.AlbumStore.constructor | src/renderer/stores/album-store/index.js:21-27 | both flags start false and both album lists start empty; `query` is the stored query or `''`, and `order` is the stored order or the first key of `OrderFn`, and with no stored order the sort uses `OrderFn`'s first comparator |
| Store.AlbumStore.SetIsFiltering | src/renderer/stores/album-store/index.js:96-99 | sets `isFiltering` to the given value and changes no other field |
| Store.AlbumStore.SetIsLoading | src/renderer/stores/album-store/index.js:101-104 | sets `isLoading` to the given value and changes no other field |
| Store.AlbumStore.SetMatches | src/renderer/stores/album-store/index.js:106-109 | replaces the contents of `matches` by the given albums and changes no other field |
| Store.AlbumStore.SetAlbums | src/renderer/stores/album-store/index.js:111-114 | replaces the contents of `albums` by the given albums and changes no other field |
| Store.AlbumStore.SetQuery | src/renderer/stores/album-store/index.js:121-124 | sets `query` to the given text and changes no other field |
| Store.AlbumStore.SetOrder | src/renderer/stores/album-store/index.js:126-129 | sets `order` to the given value and changes no other field |
| Store.AlbumStore.ClearFilter | src/renderer/stores/album-store/index.js:116-119 | `setQuery('')`: the query is empty, the filter set is `{ query: '' }`, nothing else changes |
| Store.AlbumStore.BeginPass | src/renderer/stores/album-store/index.js:38 | a pass starts by raising `isFiltering`; nothing else changes |
| Store.AlbumStore.CompletePass | src/renderer/stores/album-store/index.js:44-47 | the filtered albums, sorted with the comparator of the current order, become the matches, and `isFiltering` goes down |
| Store.AlbumStore.Recompute | src/renderer/stores/album-store/index.js:37-49 | after a pass, the matches are the albums `match` accepts under the current filter set, each as often as among the albums, sorted by the current order. When the comparators are consistent they are in order and stable. `isFiltering` ends false, and the query, order, albums and `isLoading` are unchanged |

## Left out

- MobX reactivity is not modelled: `@observable`, `@computed`, `@action` and the `autorun` wrappers with their `500` argument. A recompute is the explicit method `Recompute`, run to completion. When the autorun re-runs, and how an older pass interleaves with a newer one, is not modelled. The code has no debounce or cancellation of its own.
- Persistence is not modelled. That covers the first autorun writing `query` and `order` through `setItem`, `serialize`, `deserialize` and `sectionAlbumsKey`. The stored values reach the constructor as the optional `storedQuery` and `storedOrder` parameters.
- `fetch` (lines 86-94) is a network call through the connection and is not modelled. Its effect on the store goes through `SetIsLoading` and `SetAlbums`, which are modelled.
- The `mousetrap` shortcuts (lines 53-55) are UI bindings and are not modelled. Each of them calls `setOrder` with a key of `OrderFn`.
- `match`, the comparators in `OrderFn`, the `Album` model and `String(album)` are defined in `./support` and `models`, which are not part of this model. They are parameters.
- `async.filter` is modelled as a sequential loop. Its iteratee calls `done` synchronously, and the callback's error argument is never set.
- Ordering.DefaultCompare, Ordering.StringLess: strings are sequences of Unicode scalar values, while JavaScript strings are UTF-16 code units. Lone surrogates cannot be written. The default comparison orders supplementary characters by code point, not by UTF-16 unit.
- Ordering.Sort: `Array.prototype.sort` is modelled as a stable insertion sort. For a consistent comparator a stable sort has exactly one possible result (SortUnique), so the model agrees with any stable engine. For an inconsistent comparator the result of the real sort is implementation-defined, and the model gives one particular order.
- Ordering.Lookup: `OrderFn[order]` is a lookup among the registry's own keys, and an order that names an inherited `Object.prototype` member is treated as absent, so the string comparison is used. The code looks such a name up on the prototype instead. With `toString` it calls that function as the comparator; its result converts to NaN, so every pair ties and the filtered order stays. With `__proto__` it passes an object that is not callable, so `sort` throws a TypeError. With `hasOwnProperty` or `valueOf` the function runs with an undefined `this` and throws a TypeError.
- Store.AlbumStore.constructor: requires `OrderFn` to be a valid object (distinct keys, each naming a comparator) with at least one key, because the default order is its first key. With an empty `OrderFn`, `order` would start as `undefined`, which a `string` field cannot hold.
- Store.AlbumStore.Recompute: `match` and the comparators are total functions here, so they never throw. In the code nothing around lines 39-46 catches an exception from `match` (line 42) or from a comparator inside `sort` (line 45). Such an exception ends that autorun run before line 46, so `matches` keeps its old contents and `isFiltering` stays true. The code does not count an album whose `match` throws as a non-match; it abandons the whole pass, and the model does not capture that.
- `src/stores/account/index.js` is not part of this model. It is login and device fetch over the network.
- The React views are not part of this model.
