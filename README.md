# Stars: a Dafny model of the starred-repositories report

Stars lists the repositories a GitHub user has starred, as a Markdown table with one row per programming language. This project models the in-memory part of that pipeline and proves what it computes.

The pipeline in `services/fetch.go` works in these steps:

- **Fetcher.** `NewGitHubFetcher` builds the fetcher from option setters. It refuses a missing token, then a missing user name.
- **Page count.** `ParseRawLinkHeader` reads the number of pages from the `Link` header of the first response. This is a header in the style of section 3 of RFC 8288 (Web Linking), read by position.
- **Collector.** The receive loop of `GetUserAllStarredRepositories` appends the pages as they arrive. It stops when the count reaches the page count, or at the deadline. One sender per page means at most the page count of pages ever arrive.
- **Grouping.** `GroupByProgrammingLanguage` files every repository under its language. A repository with no language goes under `Others`.
- **Rows.** `Covert2Slice` builds one row per language, in ascending byte order of the language. A row holds the number of repositories and their `[ [name](url) ]` links joined with `", "`. It uses `GetMapKeyASC` and `GetInnerReposStr`.
- **Composition.** `GetUsersStars` chains the steps above.

The older generator in `main.go` does the same job differently:

- It reads pages from index 0 until the first empty page.
- It groups repositories into a map it fills in place. Only a missing (`null`) language goes to `Others`; an empty language string is a key of its own.
- It writes a header line `Language|⭐️|Repos`, a separator line `---|---|---`, and one line `language|count|links` per language in ascending order.

## Modules

- `wrappers.dfy` (`Wrappers`): `Option` and `Result`.
- `text.dfy` (`Text`): the standard-library behaviour the pipeline relies on:
  - `strings.Split` with a one-character separator, and `strings.Join`;
  - the byte-wise order of `sort.Strings`, as code-point lexicographic order on strings;
  - `SortedOf`, the ascending listing of a set of keys;
  - `SortStrings`, an in-place sort with the contract of `sort.Strings`.
- `strconv.dfy` (`Strconv`): `strconv.Itoa`, and `strconv.Atoi` with Go's 64-bit syntax and range errors.
- `link_header.dfy` (`LinkHeader`): `ParseRawLinkHeader`, with the regular expression `\<(\S+)\>` modelled as leftmost-longest matching.
- `grouping.dfy` (`Grouping`): the specification shared by both groupers:
  - concatenation of pages;
  - the keys of a list of items and the bucket of each key;
  - the map from keys to buckets.
- `services.dfy` (`Services`): `services/fetch.go`.
- `legacy.dfy` (`Legacy`): `main.go`.

Each loop of the source is a method whose `ensures` ties its result to a specification function. The properties are proved about those functions:

- grouping is a partition;
- the keys come out in ascending order;
- count cells read back as the counts;
- the order in which pages arrive does not change what is grouped.

`GetMapKeyASC` and `PrintAsMarkdown` sort keys in place in an `array`.

## Model

| member | source | states |
|---|---|---|
| Text.Split | services/fetch.go:112 | `strings.Split` on one character gives one more part than there are separators, and no part holds the separator |
| Text.JoinSplit | services/fetch.go:112 | joining the parts of a split with the separator gives back the string |
| Text.SplitJoin | services/fetch.go:236 | splitting a join of separator-free parts gives back the parts |
| Text.Join | services/fetch.go:236 | `strings.Join`: no parts give `""`, and the result starts with the first part; `JoinSplit`, `SplitJoin` and `JoinAppend` pin the rest |
| Text.SplitPrefix | services/fetch.go:112 | a separator-free prefix followed by the separator is the first part of the split |
| Text.SplitNoSeparator | services/fetch.go:112 | a string without the separator splits into itself alone |
| Text.JoinAppend | services/fetch.go:236 | joining one more part adds the separator and the part, or just the part when it is the first |
| Text.LessIrreflexive | services/fetch.go:227 | no string sorts before itself |
| Text.LessTransitive | services/fetch.go:227 | the byte order of `sort.Strings` is transitive |
| Text.LessTotal | services/fetch.go:227 | of two different strings one sorts before the other |
| Text.LessAsymmetric | services/fetch.go:227 | two strings never sort before each other |
| Text.LessOrEqualTransitive | services/fetch.go:227 | the non-strict order is transitive |
| Text.SortedDistinctIsStrict | services/fetch.go:227 | a sorted list without repeats is strictly ascending |
| Text.DistinctByMultiset | services/fetch.go:227 | a permutation of a list without repeats has no repeats |
| Text.CountAtMostOne | services/fetch.go:224-226 | a list without repeats holds each string at most once |
| Text.MinimumExists | services/fetch.go:227 | every non-empty set of strings has a least element |
| Text.SortedOf | services/fetch.go:223-229 | the ascending listing of a key set is strictly ascending and holds exactly the keys |
| Text.StrictlySortedUnique | services/fetch.go:227 | two strictly ascending lists with the same elements are equal |
| Text.AscendingListingIsSortedOf | services/fetch.go:223-229 | every strictly ascending listing of a key set is the ascending listing |
| Text.SortedListingIsSortedOf | main.go:43-44 | sorting a repeat-free listing of the keys gives the ascending listing |
| Text.SortStrings | services/fetch.go:227 | `sort.Strings` leaves the array sorted and a permutation of what it held |
| Strconv.Digits | services/fetch.go:215 | the decimal digits of a count are non-empty and all digits, in canonical form: a leading zero only for the count 0 |
| Strconv.DigitsValue | services/fetch.go:215 | the digits Itoa writes denote the number |
| Strconv.Itoa | services/fetch.go:215 | the canonical decimal form of a count: digits only for a non-negative number, a minus sign then digits for a negative one, and no leading zero after the sign for a non-zero number |
| Strconv.ScanDigits | services/fetch.go:121 | Atoi's digit loop gives 0 on a syntax error, the 64-bit unsigned maximum on overflow, and otherwise at least the value read so far |
| Strconv.ScanDigitsValue | services/fetch.go:121 | on digits, the loop returns their value, or a range error once it passes the unsigned 64-bit maximum |
| Strconv.ParseUint64 | services/fetch.go:121 | the unsigned step of Atoi: the empty string is a syntax error with 0, a range error gives the unsigned 64-bit maximum, and no result exceeds it |
| Strconv.Atoi | services/fetch.go:121 | `strconv.Atoi` always returns a 64-bit value, and 0 on a syntax error |
| Strconv.AtoiItoa | services/fetch.go:121 | Atoi reads back every 64-bit number Itoa writes |
| Strconv.AtoiClampsLarge | services/fetch.go:121-125 | a number above the 64-bit maximum gives a range error with the clamped maximum as value |
| Strconv.AtoiSyntaxError | services/fetch.go:121-125 | a non-digit among the first 20 characters after the sign is a syntax error with value 0, however long the string |
| LinkHeader.RunEnd | services/fetch.go:113 | the run of non-space characters (`\S`, Go's RE2 classes) ends at a space or the end |
| LinkHeader.LastClose | services/fetch.go:113-115 | finds the last `>` in a range, and reports none only when there is none |
| LinkHeader.FindFrom | services/fetch.go:113-115 | the match of `\<(\S+)\>` is a real match, the leftmost, then the longest; no match means none exists |
| LinkHeader.FindSubmatch | services/fetch.go:113-115 | group 1 is the inside of a match of the expression, and there is none only when no match exists |
| LinkHeader.LastLinkURL | services/fetch.go:112-115 | a URL is read only from a header with a comma, and it is a non-empty run without spaces |
| LinkHeader.CommaFreeIsOneSegment | services/fetch.go:112 | a header without a comma splits into itself alone |
| LinkHeader.ParseRawLinkHeader | services/fetch.go:110-127 | on a header with a `<url>` in its second segment, the page count is a 64-bit value |
| LinkHeader.ParseRawLinkHeaderOrZero | services/fetch.go:116-126 | the corrected parser is non-zero only for a page value Atoi accepts in full, and then returns that value |
| LinkHeader.FindSubmatchOfLink | services/fetch.go:113-115 | the regular expression extracts the URL of a link `<url>; rel="..."` |
| LinkHeader.LastLinkIsSecondByPosition | services/fetch.go:112-115 | the URL read is that of the second comma-separated link, whatever its `rel` |
| LinkHeader.ParseTwoLinkHeader | services/fetch.go:110-127 | on a two-link header the count is Atoi of the second URL's `page` value, or 0 when the URL does not parse |
| LinkHeader.ExampleHeaderGives63 | services/fetch_test.go:75-80 | the example header with `page=63` in its last link gives 63 |
| LinkHeader.UnparsableURLGivesZero | services/fetch_test.go:82-93 | a URL that does not parse gives 0 |
| LinkHeader.NonNumericPageGivesZero | services/fetch_test.go:95-106 | a `page` value with a non-digit among its first 20 characters after the sign, such as `a` or `a` followed by 30 digits, gives 0 |
| LinkHeader.SingleSegmentPanics | services/fetch_test.go:108-114 | a header without a comma, the empty header among them, is outside the parser's domain (it panics) |
| LinkHeader.HugePageIsClamped | services/fetch.go:121-126 | as written, a `page` value above the 64-bit maximum gives the maximum instead of 0 |
| LinkHeader.OrZeroIsZeroOnEveryError | services/fetch.go:116-126 | the corrected parser gives 0 on every error and agrees with the written one except on range errors |
| LinkHeader.OrZeroReadsPageNumber | services/fetch.go:121-125 | the corrected parser reads back every 64-bit page number |
| Grouping.FlattenLength | services/fetch.go:176 | the aggregate is as long as the merged pages together |
| Grouping.FlattenAppend | services/fetch.go:176 | appending one page adds its repositories at the end |
| Grouping.FlattenConcat | services/fetch.go:176 | the aggregate of two runs of pages is the first followed by the second |
| Grouping.FlattenMember | main.go:88 | every repository of every page is in the aggregate |
| Grouping.FlattenPermutation | services/fetch.go:171-185 | pages arriving in another order give the same repositories |
| Grouping.FlattenRemoveAt | services/fetch.go:176 | taking one page out of the arrivals takes exactly its repositories out of the aggregate |
| Grouping.KeysOfAppend | services/fetch.go:196 | one more repository adds its key to the keys |
| Grouping.BucketAppend | services/fetch.go:196-203 | one more repository is appended to the bucket of its key only |
| Grouping.GroupOfAppend | main.go:97-101 | one more repository creates its bucket when the key is new and appends to it otherwise |
| Grouping.BucketConcat | services/fetch.go:190-205 | the bucket of two runs of repositories is the first run's bucket followed by the second's |
| Grouping.BucketMembership | services/fetch.go:190-205 | an entry is in a bucket exactly when it is the entry of a repository with that key |
| Grouping.BucketNonEmpty | services/fetch.go:190-205 | a bucket is non-empty exactly when some repository has its key |
| Grouping.SumOfSizesAppend | services/fetch.go:196-203 | one more repository adds one to the listed buckets per listing of its key |
| Grouping.ListedOnce | services/fetch.go:223-229 | a repeat-free key list lists a key once or not at all |
| Grouping.PartitionSizes | services/fetch.go:188-207 | listing each key once, the bucket sizes add up to the number of repositories |
| Grouping.EmptySums | services/fetch.go:189 | no repositories, no entries in any bucket |
| Grouping.BucketPermutation | services/fetch.go:190-205 | the contents of a bucket do not depend on the order of the repositories |
| Grouping.BucketRemoveAt | services/fetch.go:196-203 | taking one repository out takes exactly its entry out of the bucket of its key, and nothing out of the others |
| Grouping.KeysOfPermutation | services/fetch.go:190-205 | the keys do not depend on the order of the repositories |
| Services.GitHubFetcher.constructor | services/fetch.go:58-62 | a new fetcher has an empty token and user name |
| Services.GitHubFetcher.Apply | services/fetch.go:45-55 | `WithToken` sets the token only, `WithUserName` the user name only |
| Services.NewGitHubFetcher | services/fetch.go:57-77 | no token gives `Missing Github token` first, then no user name gives `Missing user name`; otherwise the fetcher holds the token and name the setters leave |
| Services.LastTokenSetterWins | services/fetch.go:64-66 | the last token setter decides the token |
| Services.LastUserNameSetterWins | services/fetch.go:64-66 | the last user-name setter decides the user name |
| Services.NoTokenSetterMeansNoToken | services/fetch_test.go:18-25 | setting only a user name leaves the token empty, so the fetcher is refused |
| Services.NoUserNameSetterMeansNoUserName | services/fetch_test.go:27-34 | setting only a token leaves the user name empty |
| Services.FinalToken | services/fetch.go:64-66 | the token the setters leave: empty when no setter sets it, otherwise the value of some `WithToken` among them; `LastTokenSetterWins` pins which one |
| Services.FinalUserName | services/fetch.go:64-66 | the user name the setters leave: empty when no setter sets it, otherwise the value of some `WithUserName` among them; `LastUserNameSetterWins` pins which one |
| Services.MergedPages | services/fetch.go:142-185 | with at most one page per requested page, the count check never cuts the merge short: the loop merges exactly the pages that arrive before the deadline, never more than the page count, and the check fires exactly when every page has arrived |
| Services.GetUserAllStarredRepositories | services/fetch.go:142-185 | the aggregate is the merged pages concatenated in arrival order, and empty for a page count of 0 |
| Services.CollectedLength | services/fetch.go:176-180 | the aggregate is as long as the merged pages together, and at most the page count of pages are merged |
| Services.TimelyPagesCollected | services/fetch.go:142-185 | the aggregate is every page that arrives before the deadline, in arrival order; with a page count of 0 no page is requested and the aggregate is empty |
| Services.AllPagesInTime | services/fetch.go:171-185 | when all pages arrive in time, the aggregate holds every repository of every page, whatever the arrival order |
| Services.LanguageKey | services/fetch.go:191-195 | an empty language is filed under `Others`, any other verbatim, so the key is never empty and is `Others` exactly for `""` and `Others` |
| Services.Entry | services/fetch.go:196-202 | the entry copies the name and link, and keeps the language, so an entry's own key is its repository's key |
| Services.GroupByProgrammingLanguage | services/fetch.go:188-207 | the map holds, for each language that occurs, its repositories' entries in input order, with no language filed as `Others` |
| Services.GroupingIsPartition | services/fetch.go:188-207 | each repository is in the bucket of its language, every entry belongs where it is, no bucket is empty, and the sizes add up to the input |
| Services.OthersKeepsLanguage | services/fetch.go:192-202 | entries under `Others` keep the repository's own language, empty or literally `Others` |
| Services.GroupingKeepsOrder | services/fetch.go:196-203 | repositories processed later come later in their bucket |
| Services.KeysOfAppendAll | services/fetch.go:190-205 | the languages of two runs of repositories are the languages of each |
| Services.GroupingIndependentOfArrivalOrder | services/fetch.go:171-207 | the arrival order of pages changes neither the languages nor what is in each bucket |
| Services.GetInnerReposStr | services/fetch.go:231-237 | the items are each entry's `[ [name](url) ]` link joined with `", "` in bucket order |
| Services.ItemsOfAppend | services/fetch.go:231-237 | an empty bucket gives `""`; each further entry adds `", "` and its link |
| Services.Star | services/fetch.go:234 | `MarkdownStar`: the name, then the link, between the fixed `[ [`, `](` and `) ]` pieces, eight characters more than the two |
| Services.GetMapKeyASC | services/fetch.go:223-229 | every key once, strictly ascending, and nothing else, so as many keys as the map has |
| Services.Covert2Slice | services/fetch.go:209-221 | one row per language in strictly ascending order, each with the decimal count and the items of its bucket |
| Services.RowsOfListing | services/fetch.go:209-221 | rows built in order from a strictly ascending listing of the keys are the report's rows, one per key |
| Services.StarsReadBack | services/fetch.go:215 | the `Stars` cell reads back as the number of entries |
| Services.ExampleKeysAscending | services/fetch_test.go:36-46 | the keys `a`, `#`, `1`, `z` come out as `#`, `1`, `a`, `z` |
| Services.ExampleRows | services/fetch_test.go:218-255 | one Go and two JavaScript entries give a Go row with `1` and a JavaScript row with `2` and both links |
| Services.GetUsersStars | services/fetch.go:79-85 | the rows are those of the grouped aggregate of the pages counted in the link header, in ascending language order |
| Legacy.FirstEmpty | main.go:70-86 | the loop stops at a page index before which no page is empty, at an empty page or past the last one |
| Legacy.LegacyKey | main.go:89-92 | a null language is filed under `Others`, any other verbatim, so the key is `Others` exactly for null and for `Others` |
| Legacy.ToRepos | main.go:93-96 | the entry keeps the full name as `Name` and the link as `URI` |
| Legacy.GetCustomerGithubStars | main.go:65-107 | the map groups exactly the repositories of the pages before the first empty page |
| Legacy.NextPage | main.go:84-86 | an empty page ends the loop exactly at the first empty page; a non-empty one extends what was read by that page |
| Legacy.FilePage | main.go:88-102 | filing a page's repositories in order turns the grouping of what was read into the grouping of that and the page |
| Legacy.FileRepository | main.go:89-101 | creating a new bucket or appending to an existing one extends the grouping by one repository |
| Legacy.EveryRepositoryCounted | main.go:88-101 | the bucket sizes add up to the number of repositories read |
| Legacy.LaterPagesIgnored | main.go:84-86 | pages after the first empty one change nothing |
| Legacy.EarlierPagesGrouped | main.go:88-101 | every repository of a page before the first empty one is in the bucket of its key |
| Legacy.EmptyLanguageIsItsOwnKey | main.go:89-92 | a null language goes to `Others`; an empty language is its own key, unlike in `services/fetch.go` |
| Legacy.GetInnerReposStr | main.go:57-63 | the items are each entry's `[ [Name](URI) ]` link joined with `", "` in list order |
| Legacy.SameItemsAsServices | main.go:57-63 | the legacy items are those `services/fetch.go` writes for the same repositories |
| Legacy.SortMapByKeyAlphabatAsc | main.go:50-55 | every key once, in no particular order |
| Legacy.PrintMarkdownHeader | main.go:34-36 | the header line is `Language`, the star emoji and `Repos`, separated by bars |
| Legacy.PrintMarkdownColumn | main.go:38-40 | the separator line has three `---` cells |
| Legacy.Line | main.go:46 | `MarkdownColumn`: the first cell, a bar, the other two cells and a newline, three characters more than the cells; `LineCells` splits it back |
| Legacy.SortedKeys | main.go:43-44 | the keys, each once, strictly ascending |
| Legacy.PrintAsMarkdown | main.go:42-48 | one line per key, in ascending order, with the key, the decimal count and the items |
| Legacy.WriteReport | main.go:27-32 | the output is the report of the grouping of the pages before the first empty one |
| Legacy.ReportOpensWithHeader | main.go:29-30 | the first two lines of the output are the header and the separator |
| Legacy.ReportLineAt | main.go:42-48 | the line of each language follows the lines of the languages that sort before it and precedes those that sort after it |
| Legacy.LineCells | main.go:18 | a line splits back at its bars into its three cells |
| Legacy.CountHasNoBar | main.go:46 | a decimal count holds no bar character |
| Legacy.HeaderCells | main.go:34-36 | the header has the cells `Language`, the star and `Repos` |
| Legacy.SeparatorCells | main.go:38-40 | the separator has three `---` cells |
| Legacy.LanguageLineCells | main.go:46 | a language line has three cells: the key, a count that reads back as the bucket size, and the items |
| Legacy.TableAppend | main.go:45-47 | each key adds its line after those of the keys before it |
| Legacy.TableNext | main.go:45-47 | the next listed key adds the line built from its own bucket in the map: the name, the count and the joined links |
| Legacy.ListedKeysTable | main.go:43-44 | the table of a strictly ascending listing of exactly the map's keys is the table of the sorted keys |
| Legacy.TableConcat | main.go:45-47 | the lines of two runs of keys are the first run's lines followed by the second's |
| Legacy.TableLineAt | main.go:45-47 | the line of each listed key sits between the lines of the keys listed before and after it |
| Legacy.LineThenRest | main.go:18 | a line whose cells hold no newline splits off as one line |

## Left out

- HTTP requests, response headers and JSON decoding are left out. This covers `GetUserStarredRepositoriesTotalPage`, the body of the page-fetching goroutines, `GetURI` and `http.Get` in `main.go`. Pages are inputs.
- The goroutines, the buffered channel and the one-minute deadline of the collector are left out. The pages come as a sequence in arrival order, and the deadline is the number of pages that arrive before it. With a page count of 0 the real loop returns only when the minute is up.
- `url.Parse` and `Query().Get("page")` are a function parameter (`PageQuery`), because they are library behaviour.
- Logging and `log.Fatalf` are left out: process exit on transport or decode errors is not modelled.
- Printing to standard output is left out. The lines `main.go` prints are produced as strings: `Legacy.Report(m)` is what `main` prints for the map `m`, and `Legacy.WriteReport` is `main` with the pages as input.
- `services/print.go` (template output) is not part of this model.
- Decoding into a reused slice of maps in `main.go`, and the panics of its type assertions on non-string names, are not modelled. Repositories arrive already decoded, with the language as an option.
- `Legacy.GetCustomerGithubStars`: what the server returns for page index 0 is part of the page input. The loop starts at index 0, but the model does not say which GitHub page that is.
- `Text.SortStrings`: it is an insertion sort with the contract of `sort.Strings` (sorted and a permutation). Go's own algorithm is not modelled.
- `Services.GetUsersStars`: it reads the page count with the corrected parser (see Findings), and it requires a non-negative count, because a negative one makes the channel allocation panic. The as-written count on a huge page value, 9223372036854775807, makes the same allocation, `make(chan UserStarredRepositories, totalPage)` at services/fetch.go:142, panic too, so the program as written crashes end to end on such a header.
- `Services.GetUsersStars`: it also requires a link header with a second link. A user whose stars fit on one page gets a response without a `Link` header, and `ParseRawLinkHeader` panics on the empty header (`LinkHeader.SingleSegmentPanics`); the source's tests expect that panic, so the model keeps it as a precondition.
- `Services.FetcherOption`: only the two setters the source defines, `WithToken` and `WithUserName`, are modelled. A caller can pass any `func(*GitHubFetcher)` as an option, and such caller-defined options are not modelled.
- `Services.GetUserAllStarredRepositories`: it is a function of the channel's output order and does not model interleavings.

## Findings

| source | as written | input that shows it | evidently intended | confidence | as-written member | corrected member |
|---|---|---|---|---|---|---|
| services/fetch.go:121-125 | `totalPage, err = strconv.Atoi(...)` assigns the result before the error check, and the bare `return` then returns it. On a range error Atoi's value is the clamped 64-bit bound, so that value is returned. The caller then passes it to `make(chan UserStarredRepositories, totalPage)` at services/fetch.go:142, which panics on a buffer that large, so the program crashes instead of reporting no pages. | a last link whose `page` value is `9223372036854775808` (2^63) gives 9223372036854775807 pages | 0 on every parse error, as for an unparsable URL or a non-numeric page | medium; not executed | LinkHeader.HugePageIsClamped | LinkHeader.ParseRawLinkHeaderOrZero |
