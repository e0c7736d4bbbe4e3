# Search engine core, modelled in Dafny

A Dafny model of the core of a three-service book search engine:

- **ingestion** downloads a Project Gutenberg book, splits it into a header and a body at the
  `*** START OF` / `*** END OF` markers, and announces the book id on a message queue;
- **indexing** listens on that queue, reads the book's header and body from the datalake
  directory named after the id, extracts title / author / language / year from the header,
  builds a word-position inverted index of the body and writes both to the SQLite datamart;
- **search** answers queries from a local command line: plain terms with `author:`,
  `language:` and `year:` filters, `phrase:"…"`, `range:start=…,end=…[,q=…]` and
  `bool:a AND b`, all evaluated over the `books` table.

Each Java class of the core is one module:

| module | Java class | form |
|---|---|---|
| `Indexing` | `Indexer` | class `Indexer` over the datamart; pure tokenizer and index |
| `IndexingDatamart` | indexing `DatamartSQLite` | class `Datamart` with the schema flag and the two tables as maps |
| `MetadataExtractor` | `MetadataExtractor` | regex matches as explicit scans; extraction methods with their loops |
| `SearchDatamart` | search `DatamartSQLite` | class `Datamart` over the rows of `books` in table order |
| `AdvancedSearch` | `AdvancedSearchEngine` | class `SearchEngine`; results as filters of the table |
| `LocalCli` | `LocalCli` | query parsing, display and dispatch |
| `IngestionController` | `IngestionController.downloadBook` | the header/body split loop |
| `Broker` | retry loops of the two messaging classes | attempts as an oracle sequence |
| `EventPublisher` | `EventPublisher` | class `Publisher` with connection, session, producer |
| `IndexingEventConsumer` | `IndexingEventConsumer` | class `Consumer`; the message callback |

Supporting modules give Java's library semantics explicitly: `JavaString` (`trim`, `isBlank`,
`toLowerCase`, `contains`, `indexOf`, `replace`, `String.join`), `JavaSplit` (`String.split`
with its dropped trailing empty strings and kept leading one), `JavaInt` (`Integer.toString`
and `Integer.parseInt` on 32-bit values, with their round trip) and `Wrappers` (`Option`,
standing for a Java `null`).

The file system, the database and the broker are values the model is handed:

- the datalake is a sequence of directories in `Files.walk` order, each holding an optional
  `header.txt` and `body.txt`;
- the indexing datamart is a schema flag, a `books` map keyed by book id and an `inverted_index`
  map keyed by (term, book id); while the schema is missing every write fails and is
  swallowed, so it changes nothing;
- the search datamart is the sequence of `books` rows in the order SQLite returns them;
- a broker is a sequence of attempts, each saying how many of the calls of a connection
  attempt succeed before one throws; attempts past the sequence fail.

Where the behaviour of the code is subtle the model keeps it: the tokenizer keeps the leading
empty token that `split("\\s+")` yields for text starting with punctuation, so positions count
it (`Indexing.LeadingEmptyTokenIndex`); a directory named `007` is never found for book 7;
directory names of length 2 or 8 are never indexed by `rebuildAll`; and in `downloadBook`
an end marker on the line right after the start marker makes the body fall back to the
lines after the first fifty (`IngestionController.AdjacentMarkers`).


## Model

| member | source | states |
|---|---|---|
| Indexing.Normalize | indexing-service/src/main/java/es/ulpgc/searchengine/indexing/Indexer.java:117-118 | lower-casing and replacing every character outside `[a-záéíóúüñ\s]` by a space keeps the length and leaves only index letters and whitespace |
| Indexing.Tokens | indexing-service/src/main/java/es/ulpgc/searchengine/indexing/Indexer.java:117-119 | every token of `split("\\s+")` of the normalised text consists of index letters only |
| Indexing.PositionsOfSpec | indexing-service/src/main/java/es/ulpgc/searchengine/indexing/Indexer.java:121-124 | a word's position list holds exactly the positions where the word occurs, each below the token count, strictly increasing |
| Indexing.PartialIndexStep | indexing-service/src/main/java/es/ulpgc/searchengine/indexing/Indexer.java:121-124 | one loop iteration appends position i to the list of a word longer than two letters (creating the list when absent) and changes nothing else |
| Indexing.IndexLoopStep | indexing-service/src/main/java/es/ulpgc/searchengine/indexing/Indexer.java:121-124 | the `trim()` of each token changes nothing, so the iteration is the step above |
| Indexing.BuildInvertedIndex | indexing-service/src/main/java/es/ulpgc/searchengine/indexing/Indexer.java:115-127 | the loop builds exactly the inverted index of the text |
| Indexing.InvertedIndexSpec | indexing-service/src/main/java/es/ulpgc/searchengine/indexing/Indexer.java:117-125 | every key is longer than two letters and made of index letters; position i is listed under w iff token i is w; lists are increasing; every long token is a key |
| Indexing.LeadingEmptyToken | indexing-service/src/main/java/es/ulpgc/searchengine/indexing/Indexer.java:117-119 | text starting with punctuation yields a leading empty token at position 0 |
| Indexing.LeadingEmptyTokenIndex | indexing-service/src/main/java/es/ulpgc/searchengine/indexing/Indexer.java:117-125 | so ".cat" indexes "cat" at position 1 and nothing else |
| Indexing.FindBookDirectory | indexing-service/src/main/java/es/ulpgc/searchengine/indexing/Indexer.java:129-135 | a found directory is named `String.valueOf(bookId)` |
| Indexing.FindBookDirectorySpec | indexing-service/src/main/java/es/ulpgc/searchengine/indexing/Indexer.java:129-135 | a directory is found iff one carries the name, and it is the first such in walk order |
| Indexing.Candidates | indexing-service/src/main/java/es/ulpgc/searchengine/indexing/Indexer.java:137-148 | the candidate list is no longer than the directory list |
| Indexing.CandidatesSpec | indexing-service/src/main/java/es/ulpgc/searchengine/indexing/Indexer.java:139-146 | a directory is a candidate iff its name is all digits, non-empty, and neither 8 nor 2 characters long |
| Indexing.SafeParseInt | indexing-service/src/main/java/es/ulpgc/searchengine/indexing/Indexer.java:150-153 | the `parseInt` value when it parses, exactly -1 when `parseInt` throws |
| Indexing.UnparsableCandidateSkipped | indexing-service/src/main/java/es/ulpgc/searchengine/indexing/Indexer.java:66-69 | a candidate whose name `parseInt` rejects reads as -1, so it is neither indexed nor counted and the tables are unchanged |
| Indexing.OverflowingDigits | indexing-service/src/main/java/es/ulpgc/searchengine/indexing/Indexer.java:150-153 | an all-digit name beyond the `int` range, such as "99999999999", makes `parseInt` throw |
| Indexing.OverflowingCandidate | indexing-service/src/main/java/es/ulpgc/searchengine/indexing/Indexer.java:137-153 | such a name passes the directory filter, yet `rebuildAll` skips it without writing |
| Indexing.ReindexSpec | indexing-service/src/main/java/es/ulpgc/searchengine/indexing/Indexer.java:44-46 | with a schema: the book's row is the new one, its postings are exactly the new index rendered, all other rows and postings are untouched |
| Indexing.ReindexIdempotent | indexing-service/src/main/java/es/ulpgc/searchengine/indexing/Indexer.java:42-51 | indexing an unchanged book twice gives the same tables as once |
| Indexing.ReindexWithoutSchema | indexing-service/src/main/java/es/ulpgc/searchengine/indexing/Indexer.java:44-46 | without a schema the three writes change nothing |
| Indexing.RebuildCount | indexing-service/src/main/java/es/ulpgc/searchengine/indexing/Indexer.java:66-69 | the success count never exceeds the number of candidates seen |
| Indexing.RebuildNext | indexing-service/src/main/java/es/ulpgc/searchengine/indexing/Indexer.java:66-69 | a failing candidate leaves the count unchanged and the loop goes on; a success adds one |
| Indexing.Indexer.IndexBook | indexing-service/src/main/java/es/ulpgc/searchengine/indexing/Indexer.java:25-57 | returns true iff the directory, header and body exist and the body is not blank; the tables are reindexed then and unchanged otherwise |
| Indexing.Indexer.IndexDocument | indexing-service/src/main/java/es/ulpgc/searchengine/indexing/Indexer.java:21-23 | same result and effect as `indexBook` |
| Indexing.Indexer.IndexCandidate | indexing-service/src/main/java/es/ulpgc/searchengine/indexing/Indexer.java:67-68 | a directory whose name parses to an id above 0 is indexed; others are skipped |
| Indexing.Indexer.RebuildAll | indexing-service/src/main/java/es/ulpgc/searchengine/indexing/Indexer.java:59-77 | returns the number of candidates that indexed successfully, between 0 and the candidate count, with every candidate processed in order |
| IndexingDatamart.PostingRows | indexing-service/src/main/java/es/ulpgc/searchengine/indexing/repository/DatamartSQLite.java:115-124 | one row per term of the index, keyed by (term, bookId), holding the rendered positions |
| IndexingDatamart.WithoutBookOfWritten | indexing-service/src/main/java/es/ulpgc/searchengine/indexing/repository/DatamartSQLite.java:91-131 | deleting a book's postings after writing them restores the postings held before |
| IndexingDatamart.UpsertBookSpec | indexing-service/src/main/java/es/ulpgc/searchengine/indexing/repository/DatamartSQLite.java:60-89 | row bookId holds exactly the given values and every other row is unchanged |
| IndexingDatamart.DeletePostingsSpec | indexing-service/src/main/java/es/ulpgc/searchengine/indexing/repository/DatamartSQLite.java:91-102 | exactly the postings of bookId are removed |
| IndexingDatamart.InsertPostingsSpec | indexing-service/src/main/java/es/ulpgc/searchengine/indexing/repository/DatamartSQLite.java:104-131 | each term gets its (term, bookId) row, overwriting one with the same key; all other rows are kept |
| IndexingDatamart.InsertEmptyIndex | indexing-service/src/main/java/es/ulpgc/searchengine/indexing/repository/DatamartSQLite.java:115-126 | an empty index writes nothing |
| IndexingDatamart.Datamart.InitSchema | indexing-service/src/main/java/es/ulpgc/searchengine/indexing/repository/DatamartSQLite.java:29-58 | `CREATE TABLE IF NOT EXISTS`: only the schema flag is set and existing rows survive, so a second call changes nothing |
| IndexingDatamart.Datamart.InsertOrUpdateBook | indexing-service/src/main/java/es/ulpgc/searchengine/indexing/repository/DatamartSQLite.java:60-89 | the upsert, or nothing without a schema |
| IndexingDatamart.Datamart.DeleteIndexForBook | indexing-service/src/main/java/es/ulpgc/searchengine/indexing/repository/DatamartSQLite.java:91-102 | the delete, or nothing without a schema |
| IndexingDatamart.Datamart.InsertIndex | indexing-service/src/main/java/es/ulpgc/searchengine/indexing/repository/DatamartSQLite.java:104-131 | the batch built entry by entry equals the posting rows, written over the table |
| IndexingDatamart.Datamart.GetBookContent | indexing-service/src/main/java/es/ulpgc/searchengine/indexing/repository/DatamartSQLite.java:152-166 | the stored content when the row exists, `null` otherwise |
| MetadataExtractor.LineEndSpec | indexing-service/src/main/java/es/ulpgc/searchengine/indexing/MetadataExtractor.java:47 | a `.` run stops exactly at the first line terminator |
| MetadataExtractor.LastQuoteSpec | indexing-service/src/main/java/es/ulpgc/searchengine/indexing/MetadataExtractor.java:50 | the greedy `(.+)"` backs off to the last quote of the line |
| MetadataExtractor.LetterPairSpec | indexing-service/src/main/java/es/ulpgc/searchengine/indexing/MetadataExtractor.java:110 | the lazy `.*?` stops where the first two-letter run starts |
| MetadataExtractor.LetterRunEndSpec | indexing-service/src/main/java/es/ulpgc/searchengine/indexing/MetadataExtractor.java:110 | the greedy `[a-zA-Z]{2,}` takes the whole letter run |
| MetadataExtractor.FirstMatchFromSpec | indexing-service/src/main/java/es/ulpgc/searchengine/indexing/MetadataExtractor.java:56-57 | `find()` reports the leftmost match |
| MetadataExtractor.CollapseSpacesShape | indexing-service/src/main/java/es/ulpgc/searchengine/indexing/MetadataExtractor.java:169 | after collapsing, no two whitespace characters are adjacent and every one is a space |
| MetadataExtractor.FirstTrueSpec | indexing-service/src/main/java/es/ulpgc/searchengine/indexing/MetadataExtractor.java:54-65 | the first true verdict, with every earlier one false |
| MetadataExtractor.FirstAcceptedFromSpec | indexing-service/src/main/java/es/ulpgc/searchengine/indexing/MetadataExtractor.java:54-65 | the pattern chain stops at the first pattern whose trimmed group passes the validator |
| MetadataExtractor.ChosenSpec | indexing-service/src/main/java/es/ulpgc/searchengine/indexing/MetadataExtractor.java:54-65 | a chosen candidate is the trimmed group of the first accepted pattern; none is chosen only when no pattern is accepted |
| MetadataExtractor.FirstTitleLineSpec | indexing-service/src/main/java/es/ulpgc/searchengine/indexing/MetadataExtractor.java:67-77 | the fallback takes the first trimmed line that is non-empty, does not start with "Author:", "Language:" or "***", and has a `String.length()` of 6 to 199 UTF-16 code units |
| MetadataExtractor.FirstKeptYearSpec | indexing-service/src/main/java/es/ulpgc/searchengine/indexing/MetadataExtractor.java:128-143 | no kept year match lies before the reported one |
| MetadataExtractor.FieldOr | indexing-service/src/main/java/es/ulpgc/searchengine/indexing/MetadataExtractor.java:16-18 | the trimmed value when it is present and not blank, the default otherwise |
| MetadataExtractor.NewMeta | indexing-service/src/main/java/es/ulpgc/searchengine/indexing/MetadataExtractor.java:15-20 | null or blank title/author become "Unknown" and language "en"; other values are stored trimmed; the year is kept |
| MetadataExtractor.ReplaceControlsShape | indexing-service/src/main/java/es/ulpgc/searchengine/indexing/MetadataExtractor.java:168 | no \r, \n or \t remains and other characters are kept |
| MetadataExtractor.CollapsedIsSpaced | indexing-service/src/main/java/es/ulpgc/searchengine/indexing/MetadataExtractor.java:168-169 | the collapsed text has single plain spaces only |
| MetadataExtractor.SliceSpaced | indexing-service/src/main/java/es/ulpgc/searchengine/indexing/MetadataExtractor.java:170 | a slice of such text keeps that shape |
| MetadataExtractor.TrimKeepsSpaced | indexing-service/src/main/java/es/ulpgc/searchengine/indexing/MetadataExtractor.java:170 | trimming it leaves no whitespace at either end |
| MetadataExtractor.CleanTextIsClean | indexing-service/src/main/java/es/ulpgc/searchengine/indexing/MetadataExtractor.java:166-171 | `cleanText` output has no control characters, no leading or trailing whitespace, no two adjacent whitespace characters |
| MetadataExtractor.CollapseNoop | indexing-service/src/main/java/es/ulpgc/searchengine/indexing/MetadataExtractor.java:169 | collapsing text with single plain spaces changes nothing |
| MetadataExtractor.CleanTextNoop | indexing-service/src/main/java/es/ulpgc/searchengine/indexing/MetadataExtractor.java:166-171 | `cleanText` leaves clean text unchanged |
| MetadataExtractor.CleanTextIdempotent | indexing-service/src/main/java/es/ulpgc/searchengine/indexing/MetadataExtractor.java:166-171 | `cleanText` is idempotent |
| MetadataExtractor.FirstAccepted | indexing-service/src/main/java/es/ulpgc/searchengine/indexing/MetadataExtractor.java:54-65 | the loop over the pattern array returns the chosen candidate |
| MetadataExtractor.ExtractTitle | indexing-service/src/main/java/es/ulpgc/searchengine/indexing/MetadataExtractor.java:45-79 | the cleaned first accepted candidate (3 to 199 UTF-16 code units, no "gutenberg", "project" or "ebook"), else the cleaned first fallback line, else "Unknown" |
| MetadataExtractor.ExtractAuthor | indexing-service/src/main/java/es/ulpgc/searchengine/indexing/MetadataExtractor.java:81-104 | the cleaned first accepted candidate (3 to 99 UTF-16 code units, no "gutenberg", "project" or "unknown"), else "Unknown" |
| MetadataExtractor.ExtractLanguage | indexing-service/src/main/java/es/ulpgc/searchengine/indexing/MetadataExtractor.java:106-126 | the cleaned, lower-cased first candidate of 1 to 20 UTF-16 code units, else "en" |
| MetadataExtractor.ExtractYear | indexing-service/src/main/java/es/ulpgc/searchengine/indexing/MetadataExtractor.java:128-144 | the first word-bounded year match at most 2024, else -1; always -1 or in [1000, 2024] |
| MetadataExtractor.NoYearInsideMatch | indexing-service/src/main/java/es/ulpgc/searchengine/indexing/MetadataExtractor.java:129-131 | after a match the scan resumes past its four digits |
| MetadataExtractor.YearAtLowerBound | indexing-service/src/main/java/es/ulpgc/searchengine/indexing/MetadataExtractor.java:129 | a match reads as at least 1000 |
| MetadataExtractor.YearOfRange | indexing-service/src/main/java/es/ulpgc/searchengine/indexing/MetadataExtractor.java:134-143 | the year is -1 or in [1000, 2024] |
| MetadataExtractor.KeptYearsFirst | indexing-service/src/main/java/es/ulpgc/searchengine/indexing/MetadataExtractor.java:140-142 | the first element of the kept list is the first kept match |
| MetadataExtractor.Extract | indexing-service/src/main/java/es/ulpgc/searchengine/indexing/MetadataExtractor.java:23-43 | the header lines joined with "\n" give the metadata; the text fields are non-empty and the year is -1 or in [1000, 2024] |
| MetadataExtractor.NoChoiceInEmpty | indexing-service/src/main/java/es/ulpgc/searchengine/indexing/MetadataExtractor.java:54-65 | no pattern matches an empty header |
| MetadataExtractor.EmptyHeaderDefaults | indexing-service/src/main/java/es/ulpgc/searchengine/indexing/MetadataExtractor.java:15-20 | an empty header gives ("Unknown", "Unknown", "en", -1) |
| MetadataExtractor.WideTitleRejected | indexing-service/src/main/java/es/ulpgc/searchengine/indexing/MetadataExtractor.java:152-153 | a title of 100 characters outside the Basic Multilingual Plane has `length()` 200, so `isValidTitle` rejects it |
| JavaString.Utf16Length | indexing-service/src/main/java/es/ulpgc/searchengine/indexing/MetadataExtractor.java:73-74 | `String.length()` counts UTF-16 code units: at least the number of characters and at most twice it |
| JavaString.Utf16LengthBmp | indexing-service/src/main/java/es/ulpgc/searchengine/indexing/MetadataExtractor.java:162-163 | the length equals the number of characters exactly when every character lies in the Basic Multilingual Plane |
| JavaString.Utf16LengthWide | indexing-service/src/main/java/es/ulpgc/searchengine/indexing/MetadataExtractor.java:118 | characters outside the Basic Multilingual Plane count two each |
| MetadataExtractor.TitleLineExample | indexing-service/src/main/java/es/ulpgc/searchengine/indexing/MetadataExtractor.java:47 | "Title: (.+)" matches in any ASCII case and captures the rest of the line |
| MetadataExtractor.YearWordBoundaryExample | indexing-service/src/main/java/es/ulpgc/searchengine/indexing/MetadataExtractor.java:129 | a year followed by a letter is no whole word, so the next one is taken |
| SearchDatamart.FilterMembers | search-service/src/main/java/es/ulpgc/searchengine/search/repository/DatamartSQLite.java:71-104 | a row is kept iff it is in the table and passes the test |
| SearchDatamart.FilterConcat | search-service/src/main/java/es/ulpgc/searchengine/search/repository/DatamartSQLite.java:71-104 | filtering keeps table order |
| SearchDatamart.YearRangeSpec | search-service/src/main/java/es/ulpgc/searchengine/search/repository/DatamartSQLite.java:74-84 | a row is returned iff its year lies in the inclusive range |
| SearchDatamart.YearRangeEmpty | search-service/src/main/java/es/ulpgc/searchengine/search/repository/DatamartSQLite.java:77 | an inverted range returns nothing |
| SearchDatamart.Datamart.AllBooks | search-service/src/main/java/es/ulpgc/searchengine/search/repository/DatamartSQLite.java:44-69 | every row, in table order |
| SearchDatamart.Datamart.QueryByYearRange | search-service/src/main/java/es/ulpgc/searchengine/search/repository/DatamartSQLite.java:71-104 | the rows in range, in table order |
| AdvancedSearch.SearchedSpec | search-service/src/main/java/es/ulpgc/searchengine/search/AdvancedSearchEngine.java:14-39 | a row is returned iff its content contains the term and it passes each given filter (author substring, language ignoring case, year text equal), ignoring case |
| AdvancedSearch.SearchEmptyTerm | search-service/src/main/java/es/ulpgc/searchengine/search/AdvancedSearchEngine.java:20-21 | the empty term with no filters returns the whole table |
| AdvancedSearch.BlankFiltersIgnored | search-service/src/main/java/es/ulpgc/searchengine/search/AdvancedSearchEngine.java:23-29 | blank author and language filters change nothing |
| AdvancedSearch.OperandSearch | search-service/src/main/java/es/ulpgc/searchengine/search/AdvancedSearchEngine.java:47-50 | each operand's test selects what a search for the trimmed operand finds |
| AdvancedSearch.BooleanResultSpec | search-service/src/main/java/es/ulpgc/searchengine/search/AdvancedSearchEngine.java:45-55 | fails iff the query splits into no operands; otherwise returns exactly the rows every operand's search finds |
| AdvancedSearch.EveryOperandFinds | search-service/src/main/java/es/ulpgc/searchengine/search/AdvancedSearchEngine.java:49-52 | a row passes all operand tests iff every operand's search finds it |
| AdvancedSearch.BooleanKeepsFirstOrder | search-service/src/main/java/es/ulpgc/searchengine/search/AdvancedSearchEngine.java:47-52 | the result is a filter of the first operand's results, in their order |
| AdvancedSearch.BooleanSingleOperand | search-service/src/main/java/es/ulpgc/searchengine/search/AdvancedSearchEngine.java:46-47 | a single operand gives exactly that search |
| AdvancedSearch.BooleanWithoutOperands | search-service/src/main/java/es/ulpgc/searchengine/search/AdvancedSearchEngine.java:46-47 | "AND" splits into no operands and `terms[0]` throws |
| AdvancedSearch.RangeResultSpec | search-service/src/main/java/es/ulpgc/searchengine/search/AdvancedSearchEngine.java:57-68 | a row is returned iff its year is in range and, for a non-blank term, its content contains the term; no other filter applies |
| AdvancedSearch.SearchEngine.Search | search-service/src/main/java/es/ulpgc/searchengine/search/AdvancedSearchEngine.java:14-39 | the loop returns the matching rows in table order |
| AdvancedSearch.SearchEngine.SearchPhrase | search-service/src/main/java/es/ulpgc/searchengine/search/AdvancedSearchEngine.java:41-43 | exactly `search` with the phrase |
| AdvancedSearch.SearchEngine.BooleanSearch | search-service/src/main/java/es/ulpgc/searchengine/search/AdvancedSearchEngine.java:45-55 | the first search narrowed by `retainAll` with each further one |
| AdvancedSearch.SearchEngine.SearchByYearRange | search-service/src/main/java/es/ulpgc/searchengine/search/AdvancedSearchEngine.java:57-68 | the range rows, narrowed by the term when it is not blank |
| LocalCli.TrimToNull | search-service/src/main/java/es/ulpgc/searchengine/search/LocalCli.java:211-215 | none iff null or trimming leaves nothing, else the trimmed text |
| LocalCli.TrimToNullIdempotent | search-service/src/main/java/es/ulpgc/searchengine/search/LocalCli.java:211-215 | applying it twice equals once |
| LocalCli.ParseIntOrNull | search-service/src/main/java/es/ulpgc/searchengine/search/LocalCli.java:206-209 | a value exactly when the trimmed text parses as an int, and then that value |
| LocalCli.ParseIntOrNullRoundTrip | search-service/src/main/java/es/ulpgc/searchengine/search/LocalCli.java:206-209 | the text of any int reads back as that int |
| LocalCli.TailAfterNone | search-service/src/main/java/es/ulpgc/searchengine/search/LocalCli.java:181-182 | no tail iff the prefix occurs nowhere in the lower-cased input |
| LocalCli.TailAfterFirst | search-service/src/main/java/es/ulpgc/searchengine/search/LocalCli.java:181-183 | the tail is the trimmed text after the first occurrence |
| LocalCli.ExtractQuotedSpec | search-service/src/main/java/es/ulpgc/searchengine/search/LocalCli.java:180-189 | null iff the prefix is absent or nothing follows it; otherwise the text between the first two quotes when the tail opens with one closed at index > 1, else the whole tail |
| LocalCli.PhraseRoundTrip | search-service/src/main/java/es/ulpgc/searchengine/search/LocalCli.java:180-189 | `phrase:"p"` gives back p for a non-empty p without quotes |
| LocalCli.ExtractQuotedClosed | search-service/src/main/java/es/ulpgc/searchengine/search/LocalCli.java:184-186 | a tail opening with a quote closed further on yields the text between them |
| LocalCli.SplitOnceJoin | search-service/src/main/java/es/ulpgc/searchengine/search/LocalCli.java:199 | `split("=", 2)`: key, "=" and value give the part back, and the key holds no "=" |
| LocalCli.PartsMapKeys | search-service/src/main/java/es/ulpgc/searchengine/search/LocalCli.java:197-202 | keys are exactly the trimmed, lower-cased keys of the parts holding "=" |
| LocalCli.PartsMapLastWins | search-service/src/main/java/es/ulpgc/searchengine/search/LocalCli.java:197-202 | a key maps to the trimmed value of the last part naming it |
| LocalCli.ExtractRange | search-service/src/main/java/es/ulpgc/searchengine/search/LocalCli.java:191-204 | the loop builds the map of the pairs after "range:", empty without it |
| LocalCli.FilterStep | search-service/src/main/java/es/ulpgc/searchengine/search/LocalCli.java:80-92 | a token that sets no filter leaves the state as it was; `remaining` never grows |
| LocalCli.AuthorTokenCut | search-service/src/main/java/es/ulpgc/searchengine/search/LocalCli.java:82-83 | an author token makes `remaining` the trimmed result of `replace(token, "")` |
| LocalCli.LanguageTokenCut | search-service/src/main/java/es/ulpgc/searchengine/search/LocalCli.java:85-86 | a language token makes `remaining` the trimmed result of `replace(token, "")` |
| LocalCli.YearTokenCut | search-service/src/main/java/es/ulpgc/searchengine/search/LocalCli.java:88-90 | a well-formed year token makes `remaining` the trimmed result of `replace(token, "")` |
| LocalCli.FilterStepRemoves | search-service/src/main/java/es/ulpgc/searchengine/search/LocalCli.java:81-90 | for an author, language or well-formed year token, `remaining` becomes the trimmed concatenation of the pieces between the token's non-overlapping left-to-right occurrences |
| JavaSplit.RemoveAllJoin | search-service/src/main/java/es/ulpgc/searchengine/search/LocalCli.java:83 | `replace(token, "")` is the concatenation of the pieces between non-overlapping occurrences of the token, found left to right |
| JavaSplit.LiteralFieldsJoin | search-service/src/main/java/es/ulpgc/searchengine/search/LocalCli.java:83 | joining those pieces with the token gives the original text back, so exactly those occurrences are deleted |
| LocalCli.ScanAuthor | search-service/src/main/java/es/ulpgc/searchengine/search/LocalCli.java:81-83 | author is the value (original case) of the last author token, unchanged without one |
| LocalCli.ScanLanguage | search-service/src/main/java/es/ulpgc/searchengine/search/LocalCli.java:84-86 | language is the value of the last language token, unchanged without one |
| LocalCli.ScanYear | search-service/src/main/java/es/ulpgc/searchengine/search/LocalCli.java:87-91 | year is the parsed value of the last well-formed year token, unchanged without one |
| LocalCli.MalformedYearIgnored | search-service/src/main/java/es/ulpgc/searchengine/search/LocalCli.java:87-91 | a malformed year token leaves year and `remaining` unchanged |
| LocalCli.Classify | search-service/src/main/java/es/ulpgc/searchengine/search/LocalCli.java:95-112 | the query has exactly its mode's fields set and carries the filters |
| LocalCli.ModePrecedence | search-service/src/main/java/es/ulpgc/searchengine/search/LocalCli.java:95-112 | phrase, then range (both years parse), then bool, then basic: each mode iff the earlier ones do not apply |
| LocalCli.ParseQuery | search-service/src/main/java/es/ulpgc/searchengine/search/LocalCli.java:74-113 | the token loop and mode decision give the query of the input |
| LocalCli.ExampleQuery | search-service/src/main/java/es/ulpgc/searchengine/search/LocalCli.java:74-113 | "love author:Austen year:1813" is basic with term "love", author "Austen", year 1813 and no language |
| LocalCli.DisplayRangeRoundTrip | search-service/src/main/java/es/ulpgc/searchengine/search/LocalCli.java:173-175 | a range without a term shows as "start-end", from which both years read back |
| LocalCli.ExecuteWellFormed | search-service/src/main/java/es/ulpgc/searchengine/search/LocalCli.java:115-135 | execution fails only for a boolean query without operands |
| LocalCli.ParsedQueryRuns | search-service/src/main/java/es/ulpgc/searchengine/search/LocalCli.java:60-62 | every parsed line runs unless its boolean expression has no operands |
| LocalCli.ExecuteRangeSpec | search-service/src/main/java/es/ulpgc/searchengine/search/LocalCli.java:121-131 | a range query returns the rows in range whose own content contains the term, when one is given |
| LocalCli.Execute | search-service/src/main/java/es/ulpgc/searchengine/search/LocalCli.java:115-135 | dispatch by mode to the engine and datamart |
| LocalCli.RangeAsWrittenKeepsNonMatching | search-service/src/main/java/es/ulpgc/searchengine/search/LocalCli.java:121-129 | as written, the range filter keeps a book that lacks the term when another book with the same metadata has it |
| LocalCli.OwnHitKeptAsWritten | search-service/src/main/java/es/ulpgc/searchengine/search/LocalCli.java:124-128 | as written, a row whose own content contains the term is always kept, since the search under its own metadata finds it |
| LocalCli.IntendedWithinAsWritten | search-service/src/main/java/es/ulpgc/searchengine/search/LocalCli.java:121-129 | for a non-blank term every row of the intended range result is also in the as-written result: the code only adds rows |
| IngestionController.FirstWithSpec | ingestion-service/src/main/java/es/ulpgc/searchengine/ingestion/IngestionController.java:30-37 | the first marked line, with no marked line before it |
| IngestionController.FirstWithPrefix | ingestion-service/src/main/java/es/ulpgc/searchengine/ingestion/IngestionController.java:30-37 | a marked line found in a prefix is the first of the whole list |
| IngestionController.StartAfterStep | ingestion-service/src/main/java/es/ulpgc/searchengine/ingestion/IngestionController.java:32 | only the first start marker sets `start` |
| IngestionController.StopsAt | ingestion-service/src/main/java/es/ulpgc/searchengine/ingestion/IngestionController.java:33-36 | stopping at the first end marker fixes `end` and `start` |
| IngestionController.SplitLines | ingestion-service/src/main/java/es/ulpgc/searchengine/ingestion/IngestionController.java:29-42 | the scan with its early `break` and the two slices give the header and body |
| IngestionController.SplitBook | ingestion-service/src/main/java/es/ulpgc/searchengine/ingestion/IngestionController.java:28-42 | the same after `split("\n")` |
| IngestionController.EndIndexSpec | ingestion-service/src/main/java/es/ulpgc/searchengine/ingestion/IngestionController.java:33-36 | `end` is the first end-marker line, or the line count |
| IngestionController.StartIndexSpec | ingestion-service/src/main/java/es/ulpgc/searchengine/ingestion/IngestionController.java:29-37 | `start` is -1 iff no line up to the first end marker holds the start marker; else one past the first one, which is no later than `end` |
| IngestionController.EndIndexIs | ingestion-service/src/main/java/es/ulpgc/searchengine/ingestion/IngestionController.java:33-36 | the first end-marker line determines `end` |
| IngestionController.StartIndexIs | ingestion-service/src/main/java/es/ulpgc/searchengine/ingestion/IngestionController.java:32 | the first start-marker line determines `start` |
| IngestionController.MarkedBook | ingestion-service/src/main/java/es/ulpgc/searchengine/ingestion/IngestionController.java:32-42 | markers in order with a line between: the header ends with the start line, the body lies strictly between, and together they are the lines before `end` |
| IngestionController.StartWithoutEnd | ingestion-service/src/main/java/es/ulpgc/searchengine/ingestion/IngestionController.java:32-42 | a start marker without an end marker: header and body together are all lines |
| IngestionController.AdjacentMarkers | ingestion-service/src/main/java/es/ulpgc/searchengine/ingestion/IngestionController.java:39-42 | markers on consecutive lines: the body falls back to the lines after the first 50 |
| IngestionController.NoStartFallback | ingestion-service/src/main/java/es/ulpgc/searchengine/ingestion/IngestionController.java:39-42 | without a start marker: the first min(50, n) lines and the rest, together all lines |
| IngestionController.EndBeforeStart | ingestion-service/src/main/java/es/ulpgc/searchengine/ingestion/IngestionController.java:33-42 | an end marker before any start marker: `start` stays -1 and nothing is lost |
| IngestionController.BothMarkersOnOneLine | ingestion-service/src/main/java/es/ulpgc/searchengine/ingestion/IngestionController.java:32-42 | both markers on one line: `start` = i + 1 > `end` = i and the body falls back |
| Broker.FirstSuccessSpec | ingestion-service/src/main/java/es/ulpgc/searchengine/ingestion/messaging/EventPublisher.java:25-46 | the first successful attempt, every earlier one failed |
| Broker.ConnectsSpec | ingestion-service/src/main/java/es/ulpgc/searchengine/ingestion/messaging/EventPublisher.java:25-47 | connected iff one of the first 20 attempts succeeds |
| Broker.AttemptsSpec | ingestion-service/src/main/java/es/ulpgc/searchengine/ingestion/messaging/EventPublisher.java:29-43 | success after k failures ends the loop after k + 1 attempts, at most 20 |
| Broker.OnlyTwentyAttempts | ingestion-service/src/main/java/es/ulpgc/searchengine/ingestion/messaging/EventPublisher.java:25 | answers beyond the twentieth attempt are never used |
| EventPublisher.MessageRoundTrip | ingestion-service/src/main/java/es/ulpgc/searchengine/ingestion/messaging/EventPublisher.java:60 | the event text `String.valueOf(bookId)` parses back to bookId |
| EventPublisher.MessageInjective | ingestion-service/src/main/java/es/ulpgc/searchengine/ingestion/messaging/EventPublisher.java:60 | different books give different event texts |
| EventPublisher.Publisher.constructor | ingestion-service/src/main/java/es/ulpgc/searchengine/ingestion/messaging/EventPublisher.java:15-19 | runs `init`: a producer exists iff some attempt succeeded; nothing sent |
| EventPublisher.Publisher.Init | ingestion-service/src/main/java/es/ulpgc/searchengine/ingestion/messaging/EventPublisher.java:22-50 | at most 20 attempts, one retry per failure, stop at the first success; producer set iff an attempt succeeded, with its session and connection |
| EventPublisher.Publisher.PublishBookIngested | ingestion-service/src/main/java/es/ulpgc/searchengine/ingestion/messaging/EventPublisher.java:53-68 | no producer: nothing sent; otherwise the decimal id is sent when the broker accepts it; a refusal is swallowed; the fields are unchanged |
| IndexingEventConsumer.MessageId | indexing-service/src/main/java/es/ulpgc/searchengine/indexing/messaging/IndexingEventConsumer.java:36 | an id is read only as an int |
| IndexingEventConsumer.PublishedEventIsRead | indexing-service/src/main/java/es/ulpgc/searchengine/indexing/messaging/IndexingEventConsumer.java:36 | every published event text reads back as its book id |
| IndexingEventConsumer.Consumer.Run | indexing-service/src/main/java/es/ulpgc/searchengine/indexing/messaging/IndexingEventConsumer.java:18-55 | at most 20 attempts, one retry per failure, returns at the first registration; listening iff an attempt succeeded |
| IndexingEventConsumer.Consumer.OnMessage | indexing-service/src/main/java/es/ulpgc/searchengine/indexing/messaging/IndexingEventConsumer.java:34-42 | the indexer is called once with the id iff the text parses; otherwise the tables are unchanged; nothing escapes |

## Left out

- Console, HTTP and file I/O: `main`, `printHelp`, `printResults`, the HTTP routes, the
  download, `Files.readAllLines`, `Files.walk` and the writes of `header.txt`/`body.txt` are
  not modelled; their results are parameters (the datalake, the lines, the table).
- Logging, `Thread.sleep` between retries and `synchronized` are left out; the model is
  sequential.
- SQL failures other than a missing schema, JDBC connections and prepared statements are not
  modelled; the search datamart's `initSchema` and `queryRaw` are not part of this model.
- `getStatus`, `getDatalakeStats`, `getStats` and the control module are not part of this model.
- Unicode: `toLowerCase`, `isWhitespace` and the regex classes are modelled for ASCII and
  Latin-1 only; `equalsIgnoreCase` is modelled as equality after lower-casing both sides.
- JavaInt.ParseInt: accepts ASCII digits only, while `Integer.parseInt` also accepts other
  Unicode decimal digits through `Character.digit`; `year:` tokens, range bounds and queue
  message ids written with such digits read as unparsable in the model.
- MetadataExtractor.ExtractYear: the `\b` around a year uses the word-character test of Java
  up to version 18 (any letter or digit, or `_`); under Java 19 and later, where `\b` sees only
  ASCII word characters, a year right after a non-ASCII letter (as in "é1850") is found
  there but not in the model.
- JMS internals are left out: acknowledgement modes, the listener thread, message ordering and
  redelivery; a send either reaches the queue or throws.
- EventPublisher.Publisher.Init: `brokerUrl` and `queueName` are kept as fields but do not
  influence the broker's answers, which the model takes as given.
- IngestionController.SplitBook: only the header/body split of `downloadBook` is modelled,
  not the download status codes or the saving of the two parts.
- LocalCli.Execute: its range branch with a term is the corrected one; the code as written
  is `LocalCli.RangeAsWritten` (see Findings).
- LocalCli.DisplayRangeRoundTrip: stated for a non-negative start year only, since a minus
  sign in the start year makes the first `-` of the display ambiguous.

## Findings

| source | as written | input that shows it | evidently intended | confidence | as-written member | corrected member |
|---|---|---|---|---|---|---|
| search-service/src/main/java/es/ulpgc/searchengine/search/LocalCli.java:121-131 | a range query with `q=` keeps a row when `search(term, row author, row language, row year)` finds any book: its lower-cased content contains the term, its author contains the row's author ignoring case, its language equals the row's language ignoring case (a blank row author or language drops that test) and its year equals the row's; so a row lacking the term is kept too, while rows that contain it are always kept, and the code only adds rows to the intended result | two rows with the same author, language and year, contents "love" and "war", query `range:start=…,end=…,q=love`: both rows are returned | keep only rows whose own content contains the term, as `searchByYearRange` does | not executed | LocalCli.RangeAsWrittenKeepsNonMatching | LocalCli.ExecuteRangeSpec |
