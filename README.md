# Vote poll leaderboard: a Dafny model

On each refresh the poll runs five steps:

1. It downloads a published spreadsheet as CSV text.
2. It parses the text into rows.
3. It tallies the answers in column 1 of every row after the header.
4. It ranks the tally into a top ten and gives each ranked game an image.
5. It pads the list with placeholders until ten slots are filled.

An image is chosen by this priority chain:

1. A hard-coded override.
2. The image cache.
3. A page-summary lookup over nine candidate titles.
4. A default image.

This project models that refresh, `fetchSheet` in `src/App.jsx`, with the padding that follows it, and proves what the code promises about it.

The modules follow the steps of the refresh:

| module | file | models |
|---|---|---|
| `Wrappers`, `Seqs` | `jstext.dfy` | an `Option` type; facts about sequences without repeats |
| `JsText` | `jstext.dfy` | `String.prototype.trim`, `split` with a one-character separator, `join` and the ECMAScript whitespace class |
| `Rows` | `rows.dfy` | the line parser, with a scanner for the regular expression `^[^,]*,\s*"([^"]*)"` |
| `Tally` | `tally.dfy` | the counting loop (`CountVotes`, `CountRow`, `CountAnswer`) and its specification `VoteCounts` / `KeyCreationOrder` |
| `Ranking` | `ranking.dfy` | `Object.entries` key order, the stable descending sort and `slice(0, 10)` |
| `Images` | `images.dfy` | the cache as a class updated in place; the per-game resolver, the search loops and resolving the whole list; the specification functions `ChosenImage`, `CacheAfter`, `Queried` and `CacheAfterAll` |
| `Display` | `display.dfy` | the placeholder-padding loop |
| `Poll` | `poll.dfy` | the whole refresh, with its specification `Aggregate` |

Three things the code depends on cannot be seen or are not defined in the source. They are parameters of the model, bundled in the `Host` datatype:

- the page-summary request, as a function from a title to `Threw`, `NotOk` or `Ok(thumbnail)`;
- `toUpperCase`;
- `toLowerCase`.

The override table and the default image are a `Fallbacks` value. `Images.AppFallbacks` holds the app's own five overrides and the app's default URL, and `Poll` uses exactly those.

## Behaviour worth knowing

The model follows `App.jsx` exactly, including these points:

- Line 0 of the sheet is always the header, and it is never counted. So the text `ts,"Roblox, Phasmophobia"` followed by `ts,"Roblox"` counts only Roblox, once.
- An exception during the remote search stops the search and gives the default image. It does not just skip to the next candidate, because one `try` wraps both loops (`src/App.jsx:108-162`).
- Equal counts keep `Object.entries` order. That order puts integer-like keys first, in ascending numeric order, and keeps the other keys in creation order. It is not always first-seen order.
- The placeholder's name is `"En attente..."`.
- The whole text is trimmed before it is split into lines. Separately dropping a trailing empty line does not happen.

## Model

| member | source | states |
|---|---|---|
| JsText.TrimShape | src/App.jsx:60 | trim removes only a whitespace prefix and a whitespace suffix; the result neither starts nor ends with whitespace |
| JsText.TrimStartShape | src/App.jsx:60 | the leading part of trim removes exactly the leading whitespace, and what remains starts with a non-space |
| JsText.TrimEndShape | src/App.jsx:60 | the trailing part of trim removes exactly the trailing whitespace, and what remains ends with a non-space |
| JsText.TrimIdempotent | src/App.jsx:83 | a string already without surrounding whitespace is unchanged by trim |
| JsText.Split | src/App.jsx:61 | split always yields at least one piece |
| JsText.SplitJoin | src/App.jsx:61 | joining the pieces of a split with the same separator gives back the input: no character is lost |
| JsText.SplitPiecesFree | src/App.jsx:82 | no piece of a split contains the separator |
| JsText.SplitFirstPiece | src/App.jsx:82 | a separator-free prefix followed by the separator comes out as the first piece, and the rest splits on its own |
| JsText.SplitNoSeparator | src/App.jsx:82 | a string without the separator splits into itself alone |
| Rows.Lines | src/App.jsx:59-61 | the sheet always has at least one line, the header |
| Rows.IndexOf | src/App.jsx:67 | the result is the first position at or after the start that holds the character, or none when no such position exists |
| Rows.SkipSpace | src/App.jsx:64 | the greedy `\s*`: every skipped character is whitespace and the character it stops at is not |
| Rows.MatchSound | src/App.jsx:64 | whenever the scanner reports a match, the line matches `^[^,]*,\s*"([^"]*)"` with that comma, and the answer is the text between the quotes |
| Rows.MatchComplete | src/App.jsx:64-68 | whenever the line matches the pattern, the scanner finds that match, with group 1 between the quotes |
| Rows.NoMatchComplete | src/App.jsx:64-65 | a line that does not match the pattern is not recognised |
| Rows.ParseRows | src/App.jsx:59-73 | one cell list per line, header included |
| Rows.QuotedAnswerCell | src/App.jsx:65-69 | a matching line gives exactly [trimmed text before the first comma, text between the quotes], whatever commas the quotes hold |
| Rows.UnquotedCells | src/App.jsx:71-72 | a non-matching line gives one trimmed cell per comma-separated field |
| Rows.BlankTextIsHeaderOnly | src/App.jsx:59-62 | a text that is blank once trimmed is a single empty header row |
| Tally.CountVotes | src/App.jsx:74-89 | the loop over rows 1.. builds exactly the counter of every data token and the order in which its keys were created |
| Tally.CountRow | src/App.jsx:78-88 | a row adds the tokens of cell 1 when cell 1 exists and is non-empty, and nothing otherwise |
| Tally.CountAnswer | src/App.jsx:85-87 | the forEach adds one per token, creating a new key at the end of the key order |
| Tally.TallyStep | src/App.jsx:86 | one increment keeps the counter and key order equal to those of the tokens seen so far plus this one |
| Tally.CountsOfAppend | src/App.jsx:86 | one more token adds one vote to that name, starting from 0 for a new key, and changes nothing else |
| Tally.CountsAreOccurrences | src/App.jsx:76-89 | a name is in the tally exactly when it is a data token, and its count is its number of occurrences, at least one |
| Tally.KeyOrderMatchesCounts | src/App.jsx:76-89 | the key creation order lists each name of the tally exactly once |
| Tally.FirstSeenSpec | src/App.jsx:86 | the creation order holds exactly the distinct tokens, once each |
| Tally.OccurrencesPositive | src/App.jsx:86 | a token has a positive count exactly when it occurs |
| Tally.HeaderOnlyIsEmpty | src/App.jsx:77 | a sheet with no data row gives an empty tally and no keys |
| Tally.HeaderNeverCounts | src/App.jsx:74-77 | replacing the header row never changes the tokens counted |
| Tally.SilentRowChangesNothing | src/App.jsx:79 | inserting a data row whose cell 1 is missing, empty or only commas and blanks leaves the tally and key order as they were |
| Tally.TokensWellFormed | src/App.jsx:81-84 | every counted token is non-empty, trimmed and free of commas |
| Tally.AnswerTokenWellFormed | src/App.jsx:81-84 | every token of one answer cell is non-empty, trimmed and free of commas |
| Tally.NonEmptyMembers | src/App.jsx:84 | the filter keeps exactly the non-empty strings |
| Tally.RepeatedAnswerTokens | src/App.jsx:81-84 | the answer "A, B, A" yields the tokens A, B, A |
| Tally.RepeatedAnswerCountsTwice | src/App.jsx:77-89 | a data row answering "A, B, A" gives A two votes and B one: each occurrence counts |
| Ranking.IndexKeys | src/App.jsx:90 | keeps exactly the keys that are array indices |
| Ranking.NameKeys | src/App.jsx:90 | keeps exactly the keys that are not array indices |
| Ranking.SortIndicesPermutation | src/App.jsx:90 | ordering the index keys is a permutation |
| Ranking.SortIndicesAscending | src/App.jsx:90 | index keys come out in ascending numeric order |
| Ranking.EntriesOrderPermutation | src/App.jsx:90 | Object.entries lists every created key exactly as many times as it was created |
| Ranking.EntriesOrderSpec | src/App.jsx:90 | integer-like keys come first and ascending, the other keys follow in creation order, and no key appears twice |
| Ranking.SortPermutation | src/App.jsx:91 | the sort is a permutation of the entries |
| Ranking.SortNames | src/App.jsx:91 | the sort is a permutation of the entries' names |
| Ranking.SortNonIncreasing | src/App.jsx:91 | after the sort, votes never increase |
| Ranking.SortStable | src/App.jsx:91 | the sort is stable: for every vote count, the entries with that count keep their relative order |
| Ranking.RankLength | src/App.jsx:90-93 | the ranking has min(10, number of names) entries |
| Ranking.RankCounts | src/App.jsx:90-93 | every ranked entry carries its name's count |
| Ranking.RankNamesDistinct | src/App.jsx:90-93 | no name is ranked twice |
| Ranking.RankIsTop | src/App.jsx:90-93 | a name left out has no more votes than the last entry of a full ranking |
| Ranking.RankShape | src/App.jsx:90-93 | length min(10, n); votes non-increasing; counts as tallied; names distinct; nothing better left out |
| Ranking.RankTiesKeepEntriesOrder | src/App.jsx:90-92 | the ranked entries with a given count are the first ones with that count in Object.entries order |
| Images.AppFallbacksNonEmpty | src/App.jsx:36-47 | the app overrides exactly five names, and none of its override or default images is empty |
| Images.FirstDecisive | src/App.jsx:126-146 | the first title whose response is an exception or a usable image, or none when there is no such title |
| Images.FirstDecisiveIs | src/App.jsx:126-146 | the search stops at the first decisive title |
| Images.FirstDecisiveNone | src/App.jsx:126-146 | with no decisive title the search runs through all of them |
| Images.ImageCache.constructor | src/App.jsx:96 | the new cache starts as a copy of the stored one |
| Images.ImageCache.Set | src/App.jsx:101 | setting a key replaces only that key |
| Images.ResolveGame | src/App.jsx:98-163 | one game gets the image ChosenImage gives (override, else cache, else search, else default); the cache becomes CacheAfter; the titles looked up are Queried |
| Images.SearchGroups | src/App.jsx:126-146 | the group loop stops at the first group with an image or an exception; its outcome and its titles looked up are those of the flat search over the nine titles |
| Images.SearchGroup | src/App.jsx:127-144 | while nothing before was decisive, the titles of one group are looked up in order up to the first exception or usable thumbnail |
| Images.ResolveAll | src/App.jsx:97-164 | every game in order gets the image it would get from the cache before the list; the cache ends as CacheAfterAll |
| Images.CacheAfterAllStep | src/App.jsx:97-164 | resolving one more game applies one more cache update |
| Images.NotYetResolved | src/App.jsx:97-164 | for distinct names, a game sees its own key as it was before the list |
| Images.UntouchedKey | src/App.jsx:97-164 | resolving other names never adds, removes or changes a key |
| Images.CandidateOrder | src/App.jsx:111-123 | the nine titles, in order: "(video game)", "(game)" and bare, each as-is, upper-cased and lower-cased |
| Images.OverrideWins | src/App.jsx:99-103 | an override is the image, nothing is looked up, and the cache records the override |
| Images.CacheShortCircuits | src/App.jsx:104-107 | a cached name without an override is served from the cache, with no lookup and the cache unchanged |
| Images.FirstUsableCandidateWins | src/App.jsx:126-157 | when candidate k is the first usable one and none before it threw, its thumbnail is the image, exactly k+1 titles are looked up, and the cache records it |
| Images.ExceptionGivesDefault | src/App.jsx:158-162 | an exception before any usable candidate gives the default image, stops the lookups at that title, and caches the default |
| Images.NoUsableCandidateGivesDefault | src/App.jsx:148-156 | with no usable candidate and no exception all nine titles are looked up, and the default image is chosen and cached |
| Images.FallbackNeverFires | src/App.jsx:148-151 | the second look at the overrides never changes the image, because the remote path only runs for names without an override |
| Images.ImagesNonEmpty | src/App.jsx:99-162 | with non-empty fallbacks and cache, every chosen image is non-empty and the cache stays so |
| Images.CacheAfterAllNonEmpty | src/App.jsx:96-168 | resolving the ranked list keeps every cached image non-empty, so the cache saved for the next page load is again fit for it |
| Images.CacheAfterSpec | src/App.jsx:99-162 | after one name the cache holds the old keys plus the name; the name maps to its image; other keys are unchanged |
| Images.ResolutionCommutes | src/App.jsx:97-98 | resolving two different names in either order gives the same images and the same cache |
| Images.CacheAfterAllKeys | src/App.jsx:97-164 | after the list, the cache holds the old keys plus every ranked name |
| Images.CacheAfterAllImages | src/App.jsx:97-164 | after a list of distinct names, each name maps to the image chosen against the cache before the list |
| Images.CacheAfterAllOthers | src/App.jsx:97-164 | keys outside the ranked names keep their images |
| Display.Pad | src/App.jsx:183-191 | exactly max(10, n) entries: the given games unchanged first, then placeholders ("En attente...", 0 votes, the default image, marked as placeholder) |
| Poll.AggregateShape | src/App.jsx:59-93 | the ranking of a sheet has min(10, names) entries, non-increasing, each a tallied name with its count of at least one, no name twice, and nothing better left out |
| Poll.AggregateEmpty | src/App.jsx:74-93 | a header-only or blank sheet ranks nothing |
| Poll.RefreshImagesNonEmpty | src/App.jsx:96-168 | with a loaded cache without empty images, every ranked game of the refresh gets a non-empty image and the saved cache has no empty image |
| Poll.FetchSheet | src/App.jsx:59-164 | the refresh returns the ranking of the text, each game with its chosen image and not a placeholder; the cache ends as resolving the ranked names in order leaves it |
| Poll.Leaderboard | src/App.jsx:59-191 | exactly ten slots: the ranked games with their images first, placeholders after |

## Left out

- The React component, its state hooks (setTopGames, setLoading, setImageCache) and the rendering are not modelled, because they only display the result.
- Downloading the sheet is not modelled. The cache-busting URL, `fetch` and `res.text()` are replaced by a `text` parameter. A failed download aborts the refresh before the parser runs.
- Loading the image cache from localStorage and saving it back are not modelled. `FetchSheet` takes the loaded cache and leaves the cache it would save.
- The 100-second `setInterval`, and overlapping refreshes, are left out. Only one refresh is modelled.
- Every refresh in a session starts from the cache loaded at startup, not from the previous refresh's cache. `fetchSheet` is created once inside `useEffect(..., [])` (src/App.jsx:49-50, 180), so it keeps reading the first render's `imageCache` (src/App.jsx:35, 96). The state update at src/App.jsx:167 is never read by a later refresh; the copy saved at src/App.jsx:168 is read only at the next page load. The model covers one refresh and does not capture this across refreshes.
- `Promise.all` is modelled as a loop that resolves the ranked games one after the other. The ranked names are distinct and every resolution reads and writes only its own cache key, so `Images.ResolutionCommutes` shows the order does not matter.
- The page-summary request is the `Host.lookup` parameter: its URL, `encodeURIComponent`, its headers and JSON parsing are not modelled. Every exception that the loop, `fetch` or `json()` can raise is collapsed into a `Threw` response at the title being looked up. The lookup is a function, so a title that appears twice among the nine candidates gets the same answer both times. For example, for a name already in lower case, candidates 0 and 2 are the same string. The source sends a separate request each time (src/App.jsx:113, 115, 128), and the two requests could get different answers.
- `toUpperCase` and `toLowerCase` are `Host` parameters, because Unicode case mapping is not modelled.
- The regular-expression engine is not modelled. A hand-written scanner stands in for it, and `Rows.MatchSound` and `Rows.MatchComplete` prove it equivalent to the pattern.
- Strings are sequences of Unicode scalar values, not UTF-16 code units.
- Vote counts are unbounded naturals, not double-precision numbers.
- Keys inherited from `Object.prototype` are not modelled. In the source, a name such as `constructor` or `toString` would read an inherited value from `voteCounts` or `knownImages`. In the model, every object is a map with no inherited keys.
- JavaScript falsiness: an empty thumbnail counts as no thumbnail, and a missing cell as an empty one. A missing `isPlaceholder` on a ranked game is modelled as `false`.
- The `loading` flag and the console logging are not modelled, because neither affects the result.
