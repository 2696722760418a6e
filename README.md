# CSV search server core, modelled in Dafny

This project models the core of a small CSV search server:

- the CSV parser, which splits every line at each comma followed by an even number of double quotes up to the end of the line (on a line with balanced quotes, these are the commas outside quoted spans) and drops lines whose width differs from the header's;
- the search over a parsed table, which resolves a column identifier (a 32-bit integer, or a header name) and keeps the rows whose fields contain a search term;
- the broadband-data cache, which keys string payloads by "state-county", expires them a fixed time after their write and holds at most a fixed number of them;
- the holder of the currently loaded CSV file.

Modules:

- `Common` (common.dfy): `Option`, `Result` and `Outcome` values, and order-preserving subsequences.
- `CsvParsing` (csv_parser.dfy): the comma-split rule as functions over a line, and `Parse` as a loop over the lines.
- `CsvSearch` (search.dfy): column resolution as a function, and the `Search` class with the row scan as a loop.
- `Caching` (broadband_cache.dfy): the cache contents as a `Store` value with `Put` and `Lookup`, and the `BroadbandCache` class whose fields `PutData` and `InvalidateAll` reassign.
- `Server` (csv_holder.dfy): the `CsvHolder` class.

Java's `null` is `None`. Exceptions and printed diagnostics are error variants of the result.

Points worth noting about the code's behaviour:

- A quoted field keeps its quote characters. The split in the parser does not remove them, and neither does the identity row creator. The project's own test `testRegexErrors` (src/test/java/edu/brown/cs/student/TestSuite.java:276-306) expects them removed, and its comment says that it fails because the pattern "is not perfect"; the kept quotes are the only difference between its expectations and what the code returns, and `QuotedCommaExample` states what the code does.
- On a line with unbalanced quotes the split rule still counts the quotes after each comma: `a,"b,c` splits into `a,"b` and `c`, so the comma outside quotes does not split and the one after the unclosed quote does (`UnbalancedQuoteExample`).
- The header line is parsed again by the loop, so with headers on it is the first output row.
- The column-name lookup is case-sensitive. The lower-casing calls in `determineColumnIndex` discard their results.

## Model

| member | source | states |
|---|---|---|
| CsvParsing.FirstSeparatorFrom | src/main/java/edu/brown/cs/student/main/parser/CsvParser.java:45-49 | the result is the first position at or after `from` holding a comma followed by an even number of quote characters, or none when there is no such position |
| CsvParsing.PiecesCutAtSeparators | src/main/java/edu/brown/cs/student/main/parser/CsvParser.java:49 | cutting a line at its separators loses nothing: joining the pieces with commas gives the line back, and the joints are exactly the separator commas |
| CsvParsing.Split | src/main/java/edu/brown/cs/student/main/parser/CsvParser.java:49 | the split of one line by `String.split` with the quote-aware pattern: the pieces between separators, with trailing empty pieces dropped unless the line has no separator; its properties are stated by `PiecesCutAtSeparators` and `SplitDropsTrailingEmptyPieces` |
| CsvParsing.SplitDropsTrailingEmptyPieces | src/main/java/edu/brown/cs/student/main/parser/CsvParser.java:49 | `String.split` with the quote-aware pattern: a line without separators is one field; otherwise the fields are the pieces up to the last non-empty one, and only empty pieces are dropped |
| CsvParsing.TrailingCommaDropped | src/main/java/edu/brown/cs/student/main/parser/CsvParser.java:49-53 | `Virgo,` splits to the one field `Virgo`: the trailing empty field is dropped |
| CsvParsing.LoneCommaHasNoFields | src/main/java/edu/brown/cs/student/main/parser/CsvParser.java:49 | a lone comma splits to no fields at all |
| CsvParsing.EmptyLineIsOneEmptyField | src/main/java/edu/brown/cs/student/main/parser/CsvParser.java:49 | the empty line splits to one empty field |
| CsvParsing.QuotedCommaExample | src/main/java/edu/brown/cs/student/main/parser/CsvParser.java:49 | a comma inside quotes does not split, and the quotes stay in the field |
| CsvParsing.UnbalancedQuoteExample | src/main/java/edu/brown/cs/student/main/parser/CsvParser.java:49 | `a,"b,c` splits into `a,"b` and `c`: a comma splits iff an even number of quotes follows it, whether or not the quotes balance |
| CsvParsing.SplitAll | src/main/java/edu/brown/cs/student/main/parser/CsvParser.java:48-50 | one row per line, each the split of that line, in order |
| CsvParsing.Parse | src/main/java/edu/brown/cs/student/main/parser/CsvParser.java:36-68 | the loop returns exactly the kept rows of the lines judged against the header width (nothing for an empty input), never more rows than lines |
| CsvParsing.KeptRowsAppend | src/main/java/edu/brown/cs/student/main/parser/CsvParser.java:48-59 | filtering lines distributes over concatenation, so rows keep the order of their lines |
| CsvParsing.WithoutHeadersEveryLineIsARow | src/main/java/edu/brown/cs/student/main/parser/CsvParser.java:48-59 | without headers every line yields exactly one row, in input order |
| CsvParsing.HeaderLineIsFirstRow | src/main/java/edu/brown/cs/student/main/parser/CsvParser.java:43-56 | with headers the header line is itself the first output row |
| CsvParsing.KeptPlusMalformedIsAllLines | src/main/java/edu/brown/cs/student/main/parser/CsvParser.java:52-57 | every line is either kept or recorded as malformed, so the two counts add up to the number of lines |
| CsvParsing.KeptIffHeaderWidth | src/main/java/edu/brown/cs/student/main/parser/CsvParser.java:52-57 | with headers every kept row has the header's field count, and every line of that field count yields a kept row |
| CsvParsing.MalformedIffOtherWidth | src/main/java/edu/brown/cs/student/main/parser/CsvParser.java:52-57 | with headers the lines recorded as malformed are exactly the lines whose field count differs from the header's |
| CsvParsing.ParsedRowsAreSubsequence | src/main/java/edu/brown/cs/student/main/parser/CsvParser.java:55-56 | the output rows are an order-preserving subsequence of the split lines, each row unchanged |
| CsvParsing.UniformWidthKeepsEveryLine | src/main/java/edu/brown/cs/student/main/parser/CsvParser.java:52-57 | when all lines have the header's width, every line is a row and none is malformed |
| CsvSearch.ContainsIffOccurs | src/main/java/edu/brown/cs/student/main/parser/Search.java:89-101 | `contains` holds iff the term starts at some position of the text; the empty term is in every text |
| CsvSearch.ParseInt32 | src/main/java/edu/brown/cs/student/main/parser/Search.java:53 | `Integer.parseInt`: a result lies in the 32-bit range, and only an optional sign followed by at least one digit parses |
| CsvSearch.ParseInt32Exactly | src/main/java/edu/brown/cs/student/main/parser/Search.java:53 | the text parses to `n` iff it is an optional sign and digits, `n` is a 32-bit integer, and the text without `+`, leading zeros and a `-` before zero is the decimal text of `n`: "007" and "+7" give 7, "12x" and "2147483648" give nothing |
| CsvSearch.ParseInt32OfDecimal | src/main/java/edu/brown/cs/student/main/parser/Search.java:53 | every 32-bit integer is read back from its decimal text, negative ones included |
| CsvSearch.NonNumericIdentifier | src/main/java/edu/brown/cs/student/main/parser/Search.java:52-54 | text that starts with neither a digit nor a sign is not a number |
| CsvSearch.IndexOf | src/main/java/edu/brown/cs/student/main/parser/Search.java:61 | `List.indexOf`: -1 iff the element is absent, otherwise the first position holding it |
| CsvSearch.DetermineColumnIndex | src/main/java/edu/brown/cs/student/main/parser/Search.java:49-71 | no column: -1 and no diagnostic; a number: that number unchanged, whatever its range; a name with headers and data: the first exactly equal header position, or -1 with "name not found"; otherwise -1 with "invalid identifier" |
| CsvSearch.FirstOutOfRange | src/main/java/edu/brown/cs/student/main/parser/Search.java:87-98 | the first row whose width the index does not fit (every earlier row fits it), or the row count |
| CsvSearch.AnyFieldMatchesExactly | src/main/java/edu/brown/cs/student/main/parser/Search.java:99-106 | unscoped search returns exactly the rows with some field containing the term, in input order |
| CsvSearch.AnyFieldMatchesCounts | src/main/java/edu/brown/cs/student/main/parser/Search.java:99-106 | unscoped search returns a matching row as many times as it occurs in the input, and a row without a match never |
| CsvSearch.AnyFieldMatchesAppend | src/main/java/edu/brown/cs/student/main/parser/Search.java:86-107 | the unscoped result for two blocks of rows is the result for the first block followed by the result for the second |
| CsvSearch.AnyFieldMatchesOneRow | src/main/java/edu/brown/cs/student/main/parser/Search.java:99-106 | one row is returned iff some field of it contains the term |
| CsvSearch.ColumnMatchesExactly | src/main/java/edu/brown/cs/student/main/parser/Search.java:87-91 | over rows the index fits, scoped search returns exactly the rows whose field at the index contains the term, in order |
| CsvSearch.ColumnMatchesCounts | src/main/java/edu/brown/cs/student/main/parser/Search.java:87-91 | scoped search returns a row whose field at the index contains the term as many times as it occurs in the input, and any other row never |
| CsvSearch.ColumnMatchesAppend | src/main/java/edu/brown/cs/student/main/parser/Search.java:86-98 | the scoped result for two blocks of rows is the result for the first block followed by the result for the second |
| CsvSearch.ColumnMatchesOneRow | src/main/java/edu/brown/cs/student/main/parser/Search.java:87-91 | one row is returned iff its field at the index exists and contains the term |
| CsvSearch.MatchingRows | src/main/java/edu/brown/cs/student/main/parser/Search.java:82-109 | what `getMatchingRows` returns: with a column, the scoped matches among the rows before the first row the index does not fit; without one, the unscoped matches of all rows; its properties are stated by the lemmas below |
| CsvSearch.StopReason | src/main/java/edu/brown/cs/student/main/parser/Search.java:92-97 | the diagnostic printed before the scoped scan's `break`: none when unscoped or when every row fits, otherwise "too large" or "too small"; stated by `ScopedSearchStops` |
| CsvSearch.MatchingRowsIsSubsequence | src/main/java/edu/brown/cs/student/main/parser/Search.java:85-108 | the result is always an order-preserving subsequence of the input rows, so never longer than the input and made only of input rows |
| CsvSearch.ScopedSearchStops | src/main/java/edu/brown/cs/student/main/parser/Search.java:87-98 | scoped search keeps the matches before the first row the index does not fit, each as often as it occurs there, and stops there with "too large" iff the index is at least that row's width, "too small" otherwise |
| CsvSearch.NegativeIndexFindsNothing | src/main/java/edu/brown/cs/student/main/parser/Search.java:92-97 | a negative index stops the scan at the first row as "too small" and returns nothing |
| CsvSearch.UnknownColumnNameFindsNothing | src/main/java/edu/brown/cs/student/main/parser/Search.java:55-97 | an unknown header name resolves to -1 with "name not found", and the scoped scan then returns nothing |
| CsvSearch.UnscopedSearchExample | src/main/java/edu/brown/cs/student/main/parser/Search.java:99-106 | of the rows `RI,White` and `MA,Black`, a search for `Whi` over all columns returns only the first |
| CsvSearch.Search.constructor | src/main/java/edu/brown/cs/student/main/parser/Search.java:31-36 | the four request fields hold the constructor's arguments |
| CsvSearch.Search.GetMatchingRows | src/main/java/edu/brown/cs/student/main/parser/Search.java:82-109 | the loop's rows and stop diagnostic equal the specification functions above, so the result is a subsequence of the input |
| CsvSearch.Search.SearchFor | src/main/java/edu/brown/cs/student/main/parser/Search.java:115-151 | a file name without `data/` is refused with no rows; an unreadable file gives no rows; otherwise the rows are those of parse, resolve, filter, with the diagnostics, and are a subsequence of the parsed rows; an empty result after the search carries the "no matches in the specified columns" notice when a column was given and "no matches" otherwise, and a non-empty one no notice |
| Caching.GenerateKey | src/main/java/edu/brown/cs/student/main/server/Caching/BroadbandCache.java:74-76 | the key is the state code, a dash and the county, and splits back into them at the state code's length |
| Caching.KeyDeterminesPairWithoutDash | src/main/java/edu/brown/cs/student/main/server/Caching/BroadbandCache.java:74-76 | when the state codes contain no dash, equal keys mean equal pairs |
| Caching.KeyCollision | src/main/java/edu/brown/cs/student/main/server/Caching/BroadbandCache.java:74-76 | the pairs ("a-b", "c") and ("a", "b-c") have the same key |
| Caching.CollidingPairsShareEntry | src/main/java/edu/brown/cs/student/main/server/Caching/BroadbandCache.java:38-76 | a payload put under ("a-b", "c") is read back under ("a", "b-c") |
| Caching.Lookup | src/main/java/edu/brown/cs/student/main/server/Caching/BroadbandCache.java:57 | `getIfPresent`: the payload of a present entry that has not expired, nothing otherwise; its properties are stated by `PutThenGet`, `OverwriteReplaces` and `PutLeavesOtherKeys` |
| Caching.Put | src/main/java/edu/brown/cs/student/main/server/Caching/BroadbandCache.java:42 | `cache.put` under the builder's policy at lines 26-27: expired entries go, the entry is written as the newest, and the oldest writes are evicted down to the capacity; its properties are stated by `PutPreservesWellFormed`, `EvictKeepsNewest` and `PutThenGet` |
| Caching.LiveKeysExactly | src/main/java/edu/brown/cs/student/main/server/Caching/BroadbandCache.java:26-27 | the write order restricted to live entries: exactly the live keys, no duplicates when there were none |
| Caching.RemoveKeyExactly | src/main/java/edu/brown/cs/student/main/server/Caching/BroadbandCache.java:42 | the write order without one key: exactly the other keys, no duplicates when there were none |
| Caching.EvictKeepsNewest | src/main/java/edu/brown/cs/student/main/server/Caching/BroadbandCache.java:26-27 | eviction keeps the newest `maxSize` writes and drops exactly the entries of the older ones |
| Caching.PutPreservesWellFormed | src/main/java/edu/brown/cs/student/main/server/Caching/BroadbandCache.java:26-42 | every put keeps the keys unique, the write order equal to the stored keys, and at most `maxSize` entries |
| Caching.EntryCountBounded | src/main/java/edu/brown/cs/student/main/server/Caching/BroadbandCache.java:26-27 | a well-formed cache holds at most `maxSize` entries |
| Caching.PutThenGet | src/main/java/edu/brown/cs/student/main/server/Caching/BroadbandCache.java:38-58 | a get after a put of the same key returns the payload while less than the expiry time has passed since the write, and nothing afterwards |
| Caching.OverwriteReplaces | src/main/java/edu/brown/cs/student/main/server/Caching/BroadbandCache.java:38-58 | a second put of the same key replaces the first payload |
| Caching.PutLeavesOtherKeys | src/main/java/edu/brown/cs/student/main/server/Caching/BroadbandCache.java:42 | a put never changes the payload another key reads; at most that key loses its entry |
| Caching.LiveKeysAllLive | src/main/java/edu/brown/cs/student/main/server/Caching/BroadbandCache.java:27 | when no entry has expired, the live write order is the whole write order |
| Caching.RemoveAbsentKey | src/main/java/edu/brown/cs/student/main/server/Caching/BroadbandCache.java:42 | removing a key that is not there leaves the write order unchanged |
| Caching.PurgeWhileLive | src/main/java/edu/brown/cs/student/main/server/Caching/BroadbandCache.java:27 | when no entry has expired, purging changes nothing |
| Caching.PutNewKeyWhileLive | src/main/java/edu/brown/cs/student/main/server/Caching/BroadbandCache.java:26-42 | a new key with nothing expired is appended to the write order; a full cache first loses its oldest write |
| Caching.SecondWrite | src/main/java/edu/brown/cs/student/main/server/Caching/BroadbandCache.java:26-42 | two distinct writes within the expiry time into a cache of two both stay |
| Caching.ThirdWrite | src/main/java/edu/brown/cs/student/main/server/Caching/BroadbandCache.java:26-42 | a third distinct write into a full cache of two evicts the oldest and keeps the other two |
| Caching.EvictionByWriteOrder | src/main/java/edu/brown/cs/student/main/server/Caching/BroadbandCache.java:26-27 | with room for two, three distinct writes and no expiry, the first key reads nothing and the other two read their payloads |
| Caching.BroadbandCache.constructor | src/main/java/edu/brown/cs/student/main/server/Caching/BroadbandCache.java:25-28 | a new cache is empty and well formed, with the given expiry time and capacity |
| Caching.BroadbandCache.PutData | src/main/java/edu/brown/cs/student/main/server/Caching/BroadbandCache.java:38-43 | an empty state code, county or payload fails and changes nothing; otherwise the contents become those of a put under the pair's key, and stay well formed |
| Caching.BroadbandCache.GetData | src/main/java/edu/brown/cs/student/main/server/Caching/BroadbandCache.java:53-58 | an empty state code or county fails; otherwise the live payload under the pair's key, if any |
| Caching.BroadbandCache.InvalidateAll | src/main/java/edu/brown/cs/student/main/server/Caching/BroadbandCache.java:63-65 | the cache becomes empty, so every later get reads nothing |
| Caching.EvictionBySize | src/main/java/edu/brown/cs/student/main/testing/TestCache.java:43-58 | a cache of two written with CA, NY and TX at one instant reads nothing for CA and the payload for NY and TX |
| Caching.ReadBeforeAndAfterExpiry | src/main/java/edu/brown/cs/student/main/testing/TestCache.java:18-41 | a payload put with an expiry time of 1 is read back at the same instant and reads nothing 2 time units later |
| Caching.OverwriteAndClear | src/main/java/edu/brown/cs/student/main/testing/TestCache.java:60-113 | a second put of the same pair replaces the payload, a cleared cache reads nothing, and empty arguments fail on put and get; the test passes `null` there, which the model replaces by the empty string that putData and getData reject (src/main/java/edu/brown/cs/student/main/server/Caching/BroadbandCache.java:39-40 and 54-55) |
| Server.CsvHolder.constructor | src/main/java/edu/brown/cs/student/main/server/CSVHolder.java:5-8 | a new holder is not loaded and has no path |
| Server.CsvHolder.LoadCsvAsWritten | src/main/java/edu/brown/cs/student/main/server/CSVHolder.java:17-20 | as written, any path, `null` included, is recorded and the holder is loaded |
| Server.CsvHolder.LoadCsv | src/main/java/edu/brown/cs/student/main/server/CSVHolder.java:17-20 | with the null check: a `null` path fails and changes nothing; another path replaces the current one; a loaded holder stays loaded |
| Server.CsvHolder.GetCsvFilePath | src/main/java/edu/brown/cs/student/main/server/CSVHolder.java:22-27 | fails iff nothing is loaded, otherwise the path of the latest load |
| Server.CsvHolder.IsCsvLoaded | src/main/java/edu/brown/cs/student/main/server/CSVHolder.java:29-31 | whether a file is loaded |
| Server.FreshHolder | src/main/java/edu/brown/cs/student/main/testing/TestCSVHolder.java:18-43 | a new holder reports not loaded, and its getter fails |
| Server.LoadTwice | src/main/java/edu/brown/cs/student/main/testing/TestCSVHolder.java:18-28 | loading p then q: loaded, the first read gives p, the second gives q and no longer p |
| Server.NullPathAsWritten | src/main/java/edu/brown/cs/student/main/testing/TestCSVHolder.java:45-50 | as written, loading `null` succeeds and the getter returns `null` |
| Server.NullPathRejected | src/main/java/edu/brown/cs/student/main/testing/TestCSVHolder.java:45-50 | with the null check, loading `null` fails and the holder stays unloaded |

## Left out

- The HTTP route handlers, the server start-up and the console entry point. They are routing, query-parameter extraction and JSON shaping.
- The census-API helpers (real and mock). They make network calls and scrape responses.
- The older static cache in src/main/java/edu/brown/cs/student/main/server/BroadbandCache.java. The Caching version supersedes it.
- File access. The parser reads its input as a given sequence of lines. In `SearchFor` a file that cannot be opened or read is `None`, reported as `FileUnreadable` with no rows. Path normalisation and existence checks in the load handler are not modelled.
- Output to standard error and standard output. Each diagnostic and notice is a result variant instead (`ColumnError`, `RangeError`, `NoMatchNotice`, `SearchReport`). The malformed-line list is a local of `Parse` (`malformedRows`) that the source never returns; the loop invariant ties it to the specification function `MalformedLines`, and `Parse` does not return it either.
- The row creator. It is the identity on the list of fields, so a row is the split of its line.
- `FactoryFailureException` and `IOException` from the parser. They cannot arise with the identity creator and lines given as a sequence.
- The `CSVHolder` singleton. The model has a constructor instead of `getInstance`.
- CsvSearch.ParseInt32: accepts only ASCII digits. Java's `Integer.parseInt` also accepts other Unicode decimal digits.
- The cache statistics (`stats`, `recordStats`). They are counters with no effect on what the cache returns.
- Caching.Put: evicts the oldest write first. The cache library evicts by its own size heuristic, which approximates least-recently-used by access. The two can agree only when there are no reads between the writes, and even then only for a small capacity such as the tests' capacity of 2: the library splits a larger capacity across segments and may evict an entry before the limit is reached. That small, read-free case is the scenario `EvictionByWriteOrder` and `EvictionBySize` state.
- Caching.BroadbandCache.GetData: a read leaves the contents unchanged. The library may also clean up expired entries during a read, but that cannot change what any later read returns.
- Caching.BroadbandCache.constructor: takes a `nat` expiry time and capacity. The library rejects negative values with an exception; the time unit is folded into the time values, which are an explicit `now` parameter instead of a clock.
- Thread safety of the cache.
- `null` strings given to the cache, the parser and the search. The cache's empty-argument checks are modelled; a `null` argument, which throws `NullPointerException` in Java, is not.

## Findings

| source | as written | input that shows it | evidently intended | confidence | as-written member | corrected member |
|---|---|---|---|---|---|---|
| src/main/java/edu/brown/cs/student/main/server/CSVHolder.java:17-20 | `loadCSV` records any path and marks the holder loaded, `null` included, after which `getCSVFilePath` returns `null` | `loadCSV(null)` | a `null` path is refused with a `NullPointerException` ("filepath cannot be null"), as src/main/java/edu/brown/cs/student/main/testing/TestCSVHolder.java:45-50 expects, and the holder is unchanged | medium, not executed | Server.NullPathAsWritten | Server.NullPathRejected |
