# Redirect tooling of the Bitrise documentation site, in Dafny

This project models the redirect tooling of the Bitrise documentation site and
proves properties of the model. It covers four pieces.

- **Redirect-chain analyser** (`redirect_chains.dfy`, `redirect_groups.dfy`).
  It takes the site's redirect map, where each source path points to a target
  path or URL. It follows every source hop by hop until one of three things
  happens: the hop is an external URL, the hop returns to a path already on the
  chain, or the hop reaches a path with no redirect of its own. In the last case
  it looks the path up in the built site.
  - Each chain becomes a result of one of four kinds: `circular`, `external`,
    `valid` or `missing_file`.
  - The report groups the valid, external and missing results by final target
    and sorts each list of groups by its number of sources.
  - The file system is a `Disk` parameter. It has two parts: `join`, which
    stands for `path.join(outPath, ·)`, and `fileExists`.
  - The map's key order (`Object.entries`) is a `keys` sequence next to the map.
- **Cloudflare bulk-redirect expansion** (`cloudflare.dfy`). Every entry of the
  map becomes the list items uploaded to Cloudflare:
  - a key without a leading slash becomes none;
  - a wildcard key becomes one subpath item;
  - a page key becomes two items, without and with `.html`;
  - an `/en/` page key becomes six items, adding `/ja/` and legacy `/jp/` variants.
- **Markdown redirect table** (`redirect_table.dfy`). The lines of `redirect.md`
  are split into trimmed, non-empty cells. Rows are kept by the row test exactly
  as written, including its operator precedence. A non-blank line with fewer
  than two cells makes the whole read throw.
- **Page injection middleware** (`middleware.dfy`). The site build rewrites
  every HTML page of its output. It puts the font links just before a page's
  first `</head>`. It puts a script tag just before the first `</body>`; the
  tag loads `index.js`, with one `../` for each directory level of the page.

`text.dfy` holds the JavaScript string operations these rely on: `startsWith`,
`endsWith`, `split` on one character, `trim`, `indexOf`, and `replace` with a
string pattern. `wrappers.dfy` holds `Option` and `Result`.

Where the source updates state step by step, the model is a method proved
equal to a function:
- `FindRedirectChains`, `FollowSource`, `GroupByTarget` (the `forEach` into a
  dictionary) and `BuildRedirectsToUpload` have loops with their invariants;
- `GroupRedirectsByTarget` and `ExpandEntryCallback` are straight-line
  methods; in the latter the shared `options` object is reassigned between
  pushes.

The properties are lemmas about those functions.

## Model

| member | source | states |
|---|---|---|
| RedirectChains.CheckFileInOutFirstHit | redirect_analyzer.js:30-49 | The probe paths are the target with one leading `/` removed, then that path without `.html` when it ends in `.html`. The target is found iff some probe path exists; the path reported is the first one that exists; on a miss the path reported is the first probe path. |
| RedirectChains.OfKinds | redirect_analyzer.js:184 | Filtering by kind keeps only results of those kinds, all taken from the input. |
| RedirectChains.OfKindsMember | redirect_analyzer.js:184 | A result is kept by the filter iff it is in the input and of one of the kinds. |
| RedirectChains.OfKindsAppend | redirect_analyzer.js:56-123 | Filtering a concatenation is the concatenation of the filtered parts, so the arrays keep the order in which results are produced. |
| RedirectChains.OfKindsSplit | redirect_analyzer.js:67-117 | Each result is of exactly one kind: the four filtered lists add up to all results. |
| RedirectChains.SourceStep | redirect_analyzer.js:59-117 | Processing one source appends its result, if any, to the right array: the pushed result, or the external result added after the loop. It also hands back the walk's `chainVisited`. |
| RedirectChains.FollowSource | redirect_analyzer.js:59-117 | The outer loop's body for an unvisited source leaves the two arrays equal to the filtered results with that source's result added. It returns the walk's `chainVisited`. The inner `while` loop terminates, because each hop adds to `chainVisited` a new path drawn from the source and the map's values. |
| RedirectChains.FindRedirectChains | redirect_analyzer.js:51-126 | `chains` is the results of the outer loop over the keys, in order, that are circular, valid or external. `invalidRedirects` is the missing-file results, in order. |
| RedirectChains.FollowExit | redirect_analyzer.js:64-106 | The walk keeps a distinct chain linked by the map and only extends the chain. It ends by its condition (an empty or external target), at a repeated path, or at a path with no hop. |
| RedirectChains.TraceShape | redirect_analyzer.js:59-122 | A source records no result iff its own target is the empty string, and then marks only itself visited. Otherwise the paths it marks visited are exactly the paths of its chain. |
| RedirectChains.ChainStartsAtSourceAndIsLinked | redirect_analyzer.js:59-81 | Every recorded chain starts with its source, and `redirects[chain[i]] == chain[i + 1]` along it. |
| RedirectChains.ChainDrawnFromTargets | redirect_analyzer.js:59-106 | Every path on a chain is the source or a value of the map. |
| RedirectChains.CircularExactlyOnRepeat | redirect_analyzer.js:65-73 | A chain is circular iff it repeats a path. Then it has at least two paths, all but the last are distinct, and the last equals an earlier one. |
| RedirectChains.SelfRedirectIsCircular | redirect_analyzer.js:65-73 | A self-redirect `A -> A` gives the circular chain `[A, A]`. |
| RedirectChains.ExternalExactlyAtExternalHop | redirect_analyzer.js:26-28 | A chain is external iff its last path has a hop and that hop is an external URL. That URL is both `finalTarget` and `externalUrl`, and no path after the source is external. |
| RedirectChains.TerminalClassification | redirect_analyzer.js:80-103 | A chain that is neither circular nor external ends at a path with no hop, which is its `finalTarget`. It is valid iff checkFileInOut finds that path, and then `finalFile` is the path found. Otherwise it is a missing file with that path and the path that was tried. |
| RedirectChains.ScanStepKeepsInvariant | redirect_analyzer.js:56-123 | One more key keeps the outer loop's invariant. `visited` is the paths of all chains plus the keys processed so far. Each result is the walk of its own source. No source lies on an earlier result's chain. |
| RedirectChains.ScanFacts | redirect_analyzer.js:56-123 | The outer loop's invariant holds after any number of keys. |
| RedirectChains.ResultsAreWalksOfKeys | redirect_analyzer.js:56-123 | Every result is the walk of a key whose target is not empty. |
| RedirectChains.VisitedKeysNotRestarted | redirect_analyzer.js:57 | A key that lies on an earlier result's chain is never started again, so result sources are all different. |
| RedirectChains.KeyOnSomeChainStep | redirect_analyzer.js:56-123 | After one more key, a key with a non-empty target that was on a chain is still on one, and the new key is on one too. |
| RedirectChains.EveryKeyOnSomeChain | redirect_analyzer.js:56-123 | No key is dropped: every key whose target is not empty lies on the chain of some result. |
| RedirectChains.HopSharedByTwoChains | redirect_analyzer.js:57-122 | A key walked first as a source still appears inside a later source's chain. With `/b -> /c` and `/a -> /b` in that order, the chains are `[/b, /c]` and `[/a, /b, /c]`. |
| RedirectChains.ExternalUrlCanBeTheSource | redirect_analyzer.js:59-117 | A key that is itself a protocol-relative URL pointing to itself is reported as external, with that URL as its own source. |
| RedirectGroups.NewGroup | redirect_analyzer.js:133-139 | A group created for a result has that result's target and no sources yet. Its kind matches the result's kind. |
| RedirectGroups.Bucket | redirect_analyzer.js:131-145 | The results collected for a target all end at that target. |
| RedirectGroups.Targets | redirect_analyzer.js:130-145 | The dictionary's keys, in insertion order, are distinct. They are exactly the targets some result ends at. |
| RedirectGroups.GroupedStep | redirect_analyzer.js:131-145 | One `forEach` callback keeps the dictionary and its insertion order equal to the reference grouping of the results read so far. |
| RedirectGroups.GroupedValues | redirect_analyzer.js:187 | `Object.values` of the dictionary in insertion order is the reference grouping. |
| RedirectGroups.GroupByTarget | redirect_analyzer.js:130-145 | The dictionary pass yields one group per target, in first-appearance order, holding that target's results in order. |
| RedirectGroups.GroupTargets | redirect_analyzer.js:130-145 | There are as many groups as targets, and group `k` belongs to target `k`. |
| RedirectGroups.GroupsOfSnocExisting | redirect_analyzer.js:141-144 | A result whose target already has a group adds one entry to that group and changes nothing else. |
| RedirectGroups.GroupsOfSnocNew | redirect_analyzer.js:133-144 | A result with a new target appends a new group holding only that result. |
| RedirectGroups.GroupsCountEveryResultOnce | redirect_analyzer.js:141-144 | The groups hold as many sources as there were results. |
| RedirectGroups.BucketMembers | redirect_analyzer.js:131-145 | A target's results are exactly the results that end there. |
| RedirectGroups.BucketHead | redirect_analyzer.js:133-139 | A target's results start with the first result that ends there. |
| RedirectGroups.GroupTargetsDistinct | redirect_analyzer.js:133 | There is one group per target. |
| RedirectGroups.EveryResultInItsGroup | redirect_analyzer.js:141-144 | Every result is an entry of the group of its final target. |
| RedirectGroups.GroupEntriesAreResults | redirect_analyzer.js:141-144 | Every group is non-empty. Each entry is a result ending at the group's target, with `source` equal to `chain[0]`. |
| RedirectGroups.GroupEntryIsResult | redirect_analyzer.js:141-144 | Any entry of a target's group is the entry of a result that ends at that target. |
| RedirectGroups.GroupDetailFromFirstResult | redirect_analyzer.js:133-139 | A group's kind and its `finalFile`, `externalUrl` or `missingFile` come from the first result that reached its target. |
| RedirectGroups.GroupsInFirstAppearanceOrder | redirect_analyzer.js:130-145 | The targets met in any prefix of the results lead the final list of targets, so groups come in first-appearance order. |
| RedirectGroups.TargetsGrow | redirect_analyzer.js:133-139 | Reading one more result only appends to the list of targets. |
| RedirectGroups.InsertPermutes | redirect_analyzer.js:187 | Inserting a group adds exactly that group and its sources. |
| RedirectGroups.InsertOfSize | redirect_analyzer.js:187 | Inserting a group puts it ahead of all groups of its own size, and leaves the other sizes' order alone. |
| RedirectGroups.InsertSorted | redirect_analyzer.js:187 | Inserting into a list sorted by decreasing size keeps it sorted. |
| RedirectGroups.SortBySizeIsSorted | redirect_analyzer.js:187-189 | After the sort, the number of sources never increases along the list. |
| RedirectGroups.SortBySizeIsPermutation | redirect_analyzer.js:187-189 | The sort returns the same groups, each as often, with the same total. |
| RedirectGroups.SortBySizeIsStable | redirect_analyzer.js:187-189 | Groups of equal size keep their relative order. |
| RedirectGroups.InsertDistinct | redirect_analyzer.js:187 | Inserting a group with a new target keeps targets distinct. |
| RedirectGroups.SortBySizeKeepsTargetsDistinct | redirect_analyzer.js:187-189 | Sorting keeps one group per target. |
| RedirectGroups.SortedGroupsShape | redirect_analyzer.js:130-145 | After the pass and the sort, the groups are sorted by decreasing size and have distinct targets. Every group is one of the reference groups. |
| RedirectGroups.SortedGroupsCount | redirect_analyzer.js:141-144 | After the sort, the groups still hold every result exactly once. |
| RedirectGroups.SortedGroupsPlace | redirect_analyzer.js:141-144 | After the sort, every result is still an entry of the group of its target. |
| RedirectGroups.OfKindsGroupable | redirect_analyzer.js:131 | The valid and the external results of `chains` can be grouped: none is circular and each has a first path. |
| RedirectGroups.GroupRedirectsByTarget | redirect_analyzer.js:128-192 | The method's report holds three things. The first is the valid, external and missing groups, each from a dictionary pass and each sorted. The second is the circular chains in order. The third is the reference report. |
| RedirectGroups.GroupsOfOneKind | redirect_analyzer.js:131-175 | Every group of a pass has that pass's kind. |
| RedirectGroups.ReportListsShape | redirect_analyzer.js:186-191 | Each list comes largest first, has one group per target, and holds only groups of its own kind. |
| RedirectGroups.ReportCountsEveryChainOnce | redirect_analyzer.js:128-190 | Nothing is lost or counted twice. When `chains` holds no missing file, the valid groups, external groups and circular list together hold every chain once. The missing groups hold every invalid redirect once. |
| RedirectGroups.ReportPlacesEveryChain | redirect_analyzer.js:128-190 | Each valid or external chain is in the group of its target, in the matching list. Each invalid redirect is in its missing group. The circular list is exactly the circular chains. |
| RedirectGroups.AnalysisFeedsReport | redirect_analyzer.js:52-125 | The two arrays the analysis returns always meet the grouping's input requirement. Their chains are non-empty, `chains` holds no missing file, and `invalidRedirects` holds only missing files. |
| RedirectGroups.ChainKindsNotMissing | redirect_analyzer.js:67-103 | The results sent to `chains` are never missing-file results. |
| Cloudflare.ExpandEntryCallback | cloudflare.js:194-274 | The callback pushes exactly the entry's reference items. The `options` object is copied at each push, and the locale target is written between the second and third push. |
| Cloudflare.BuildRedirectsToUpload | cloudflare.js:192-274 | The `forEach` over the keys builds the concatenation of every key's items, in key order. |
| Cloudflare.UploadListSnoc | cloudflare.js:194-274 | One more key appends exactly that key's items. |
| Cloudflare.UploadListInKeyOrder | cloudflare.js:194-274 | The items of a concatenation of key lists are the concatenation of their items, so items come key by key in order. |
| Cloudflare.ItemCount | cloudflare.js:195-274 | An entry gives no items iff its key has a first character that is not `/`. Otherwise a wildcard gives 1 item, an `/en/` page 6 and any other page 2. |
| Cloudflare.CommonFields | cloudflare.js:201-207 | Every item has status 301, keeps the query string, has a target, and has a source URL under `https://docs.bitrise.io`. |
| Cloudflare.FieldsAt | cloudflare.js:201-207 | The same facts, for the item at index `k`. |
| Cloudflare.TargetPrefixRule | cloudflare.js:201-202 | Every item has a target. For a target without an `http(s)://` scheme, the item's target starts with the documentation host. For an absolute target, the item's target is a prefix of the given target. |
| Cloudflare.TargetAt | cloudflare.js:201-202 | The same facts, for the item at index `k`. |
| Cloudflare.PageTargetsRule | cloudflare.js:224-243 | The page and locale targets of a site-relative target lie under the host. An absolute target is used unchanged by both. |
| Cloudflare.PageItemAt | cloudflare.js:224-271 | Page items have neither subpath matching nor suffix preservation. The first two have the page target; the rest have the locale target. |
| Cloudflare.StripHtmlRestores | cloudflare.js:229-235 | Removing a trailing `.html` loses nothing else: adding it back gives the key. |
| Cloudflare.WildcardEntry | cloudflare.js:208-222 | A wildcard key gives exactly one item. Its source is the key without `*` under the host, and it matches subpaths. It preserves the path suffix iff the target ends in `$1`; the target with `$1` put back is the prefixed target. |
| Cloudflare.PageEntry | cloudflare.js:223-238 | A page key gives first the page without `.html`, then with it, both to the same target, and one of them is the key itself. No item of the entry matches subpaths. |
| Cloudflare.PageSources | cloudflare.js:229-235 | One of the two sources of a page pair is the key itself. |
| Cloudflare.PageItemsPlain | cloudflare.js:223-271 | No item of a page entry sets subpath matching or suffix preservation. |
| Cloudflare.LocaleVariants | cloudflare.js:240-271 | An `/en/` page adds `/ja/` and `/jp/` items, each without and then with `.html`, for 6 items in all. These four items use the target rewritten to `/ja/` iff the target is site-relative and under `/en/`. The first two keep the target as given. |
| Cloudflare.LocaleItems | cloudflare.js:240-271 | The six items of an `/en/` page are the page pair, then the `/ja/` pair, then the `/jp/` pair. |
| Cloudflare.LocaleTargetRule | cloudflare.js:241-243 | The locale target is the host plus `/ja/` plus the rest of the target when the target is a site-relative `/en/` path. Otherwise it is the page target. It differs from the page target exactly in the first case. |
| RedirectTable.NonBlankMembers | redirect.js:6 | The lines kept are exactly the lines `trim` does not empty. |
| RedirectTable.TrimmedCellsMembers | redirect.js:7 | The cells are exactly the non-empty trimmed pieces. |
| RedirectTable.TrimAll | redirect.js:7 | Each piece is trimmed, and none is lost. |
| RedirectTable.CellsAreClean | redirect.js:7 | Every cell is non-empty, trimmed and free of the pipe character. |
| RedirectTable.RowRoundTrip | redirect.js:7 | Reading a row written with a pipe before and after every cell gives back its clean cells, so leading and trailing pipes add no cells. |
| RedirectTable.TrimmedCellsOfClean | redirect.js:7 | Clean cells pass the trim-and-drop step unchanged. |
| RedirectTable.RowIsOneLine | redirect.js:5 | A written row holds no line break. |
| RedirectTable.MapCellsAt | redirect.js:7 | Row `i` holds the cells of line `i`. |
| RedirectTable.Then | redirect.js:5-8 | Reading two parts in turn succeeds iff both succeed, with the first part's rows first. The first failure wins. |
| RedirectTable.NonBlankAppend | redirect.js:6 | Dropping blank lines keeps the order of the file. |
| RedirectTable.KeepRowsAppend | redirect.js:8 | The row filter over two parts is the first part's result, then the second's. |
| RedirectTable.ParseConcat | redirect.js:5-8 | Reading two texts joined by a line break reads the first and then the second. Rows keep file order, and the first line that throws decides the error. |
| RedirectTable.KeepRowsOne | redirect.js:8 | A row with fewer than two cells throws with that row. Otherwise the row is kept or dropped by the row test. |
| RedirectTable.ParseLine | redirect.js:5-8 | A blank line gives nothing. A line with fewer than two cells throws. Otherwise the line's row is kept iff it passes the test. |
| RedirectTable.BlankLinesIgnored | redirect.js:6 | A blank line between two parts of the file changes nothing. |
| RedirectTable.KeepRowsFails | redirect.js:8 | The filter fails iff some row has fewer than two cells, and then it fails with the first such row. |
| RedirectTable.ShortLineGivesShortRow | redirect.js:6-8 | A non-blank line with fewer than two cells gives a short row. |
| RedirectTable.ShortRowFromShortLine | redirect.js:6-8 | A short row comes from a non-blank line with fewer than two cells. |
| RedirectTable.ParseFailsExactlyOnShortRow | redirect.js:5-8 | Reading throws iff some non-blank line has fewer than two cells. |
| RedirectTable.ParseErrorIsFirstShortRow | redirect.js:5-8 | A failed read reports the first short row in line order. |
| RedirectTable.KeepRowsRows | redirect.js:8 | A successful filter keeps exactly the rows that pass the test, all of which have at least two cells. |
| RedirectTable.ParsedRowsComeFromLines | redirect.js:5-8 | Every row read passes the test, has clean cells, and is the cells of a non-blank line of the file. |
| RedirectTable.EveryTargetLineRead | redirect.js:5-8 | In a successful read, each non-blank line whose cells pass the test gives a row. |
| RedirectTable.PairRowKept | redirect.js:8 | A two-cell row whose target starts with `https` or `/` is read as that pair. |
| RedirectTable.NonTargetRowDropped | redirect.js:8 | A two-cell row whose target starts with neither is dropped. |
| RedirectTable.HeaderRowDropped | redirect.js:8 | The table's header row, with cells `Source` and `Target`, is dropped. |
| RedirectTable.SeparatorRowDropped | redirect.js:8 | The separator row, with two `---` cells, is dropped. |
| RedirectTable.OneLineRowReadsAs | redirect.js:5-7 | A written row is one non-blank line with exactly its cells. |
| RedirectTable.ThreeCellRows | redirect.js:8 | Because `&&` binds tighter than the or-operator, a three-cell row is kept iff its second cell starts with `/`. |
| RedirectTable.SingleCellLineThrows | redirect.js:8 | A line with a single cell makes the whole read throw. |
| RedirectTable.PipeOnlyLineThrows | redirect.js:7-8 | A line holding only one pipe character has no cells and makes the whole read throw. |
| RedirectTable.IntendedRowsMembers | redirect.js:8 | The intended filter keeps exactly the rows that pass the intended test. |
| RedirectTable.IntendedTableRowsArePairs | redirect.js:5-8 | The intended table holds exactly the two-cell rows of non-blank lines whose target starts with `https` or `/`. |
| RedirectTable.KeepRowsOfPairs | redirect.js:8 | On two-cell rows the row test as written and the intended test agree. |
| RedirectTable.IntendedAgreesOnPairTables | redirect.js:5-8 | When every non-blank line has exactly two cells, the code as written reads the intended table. |
| RedirectTable.IntendedTableDropsOddRows | redirect.js:8 | The intended test drops the three-cell row the code keeps, and the one-cell row the code throws on. |
| Middleware.ParentDirsShape | middleware.js:8 | The prefix is `depth` copies of `../`. |
| Middleware.ScriptSource | middleware.js:7-9 | The script tag is fixed text around a `src` that is exactly `depth` copies of `../` followed by `index.js`. |
| Middleware.ScriptAtRoot | middleware.js:7-9 | At depth 0 the tag loads `index.js` alone. |
| Middleware.ScriptLength | middleware.js:7-9 | Each extra level lengthens the tag by three characters. |
| Middleware.StylesShape | middleware.js:1-5 | The styles begin and end with a line break and hold no `b`, so no `</body>`. |
| Middleware.MarkersApart | middleware.js:13-14 | A `</body>` never overlaps a `</head>`. |
| Middleware.BodyCloseAfterStyles | middleware.js:13-14 | After the styles go in before a `</head>`, the `</body>`s are exactly the old ones, moved along past the insertion. |
| Middleware.FirstBodyCloseAfterStyles | middleware.js:13-14 | The first `</body>` after the styles are in is the page's own first `</body>`. |
| Middleware.InjectionMatchesReference | middleware.js:11-15 | The rewritten page is the page with the styles before its first `</head>` and the script before its first `</body>`. Everything else is unchanged, and a missing marker skips that insertion. |
| Middleware.ReplaceTwice | middleware.js:11-15 | The two `replace` calls insert any snippets where the reference does, as long as the first snippet starts with a line break and holds no `b`. |
| Middleware.InjectionAfterHead | middleware.js:13-14 | Once the styles are in before the first `</head>`, the script goes before the page's own first `</body>`. |
| Middleware.InjectedLength | middleware.js:11-15 | The page grows by exactly the length of each snippet whose marker is present. A page without either marker is left unchanged. |
| Text.Split | redirect.js:5-7 | `split` on one character gives at least one piece, and no piece holds the separator. Joining the pieces gives back the string. |
| Text.SplitJoin | redirect.js:5-7 | Splitting undoes joining when no piece holds the separator. |
| Text.SplitAround | redirect.js:5 | Splitting around one separator splits each side on its own. |
| Text.Trim | redirect.js:6-7 | `trim` is a slice of the string with only white space before and after it, and it neither starts nor ends with white space; so it removes exactly the leading and trailing white space. It is empty iff the string is all white space, and it leaves an already trimmed string unchanged. |
| Text.IndexFrom | middleware.js:13-14 | `indexOf` finds the first occurrence at or after the start index, or reports that there is none. |
| Text.IndexOfIsFirst | middleware.js:13-14 | The first occurrence is what `indexOf` finds. |
| Text.ReplaceFirstInserts | middleware.js:13-14 | Replacing a marker with a snippet followed by that marker inserts the snippet before the first occurrence only. A string without the marker is unchanged. |

## Left out

- Reading `redirects.json` and `redirect.md`, writing to stdout and stderr, and the Cloudflare API calls around the expansion. Those are I/O and network. The map, the file text and the key order are inputs.
- The report's HTML and console output.
- The file system. `path.join(outPath, ·)` and `fileExists` are the two fields of the `Disk` parameter, and any value of them is allowed. `fileExists` already turns probe errors into "absent".
- JavaScript objects used as dictionaries. The key order is an input. The model does not capture how engines put integer-like keys first, and it leaves out inherited keys such as `constructor`.
- Redirect values that are not strings. `redirects[x]` is truthy exactly when `x` is a key whose value is not the empty string.
- Strings are sequences of characters, with no UTF-16 surrogate handling.
- Text.ReplaceFirst: only replacement texts without `$` patterns are modelled. That holds for the two replacement texts used here.
- Middleware.GetCustomScript: the depth is a natural number. A negative depth, where `Array(depth)` throws, is not modelled.
- RedirectGroups.SortBySize: the engine's sort is modelled as a stable insertion sort. Since the sort is stable and the comparator only looks at the number of sources, its result is fixed.
- RedirectGroups.GroupRedirectsByTarget: requires non-empty chains and only missing-file results as invalid redirects. AnalysisFeedsReport proves that the analysis always passes such arguments. Other arguments, where JavaScript would read `undefined` fields, are not modelled.
- RedirectTable.ParseRedirectTable: on a throw, the error holds the cells of the row that threw rather than the TypeError message.
- RedirectChains.ExternalExactlyAtExternalHop: states that no path after the source is an external URL, not that the URL is absent from the whole chain. The source itself can be that URL (ExternalUrlCanBeTheSource).
- A key can appear on more than one chain (HopSharedByTwoChains). Only the sources of the results are distinct.
- The analyser has none of the following, and neither does the model:
  - a `.html`-tolerant lookup of the next hop (the lookup at redirect_analyzer.js:80 is exact);
  - separate handling of targets containing `$1`;
  - a probe-error kind (redirect_analyzer.js:21-23 reads errors as "absent");
  - a secondary sort key (redirect_analyzer.js:187-189).
- The analyser does not check that sources start with `/`, and neither does the model. The Cloudflare expansion skips keys whose first character is not `/`, but not the empty key.

## Findings

| source | as written | input that shows it | evidently intended | confidence | as-written member | corrected member |
|---|---|---|---|---|---|---|
| redirect.js:8 | The row test is `parts.length === 2 && A or B`, where A is "the second cell starts with `https`" and B is "it starts with `/`". Since `&&` binds tighter, it reads as `(length is 2 and A) or B`. | A non-blank line with a single cell, such as a `# Redirects` heading, makes `parts[1]` undefined, so B throws and the whole read fails; so does a line holding only one pipe character. A row with the three cells `a`, `/b`, `c` is kept. | `parts.length === 2 && (A or B)`: exactly two cells, and no line can throw | not executed | RedirectTable.ParseRedirectTable | RedirectTable.IntendedTable |
