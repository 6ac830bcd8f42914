# GitHub Data Dive, modelled in Dafny

GitHub Data Dive is a small Streamlit application. It searches GitHub for
repositories by topic and turns the results into a table. It stores the table
in a PostgreSQL table `github_repos` and draws reports from it. This project
models the deterministic core of that program and proves properties about it.
The core has three parts.

- **Extraction** (`github_data_extraction.py`). Modelled in `extraction.dfy` on
  top of the generic frame operations of `frames.dfy`. The part modelled is
  what happens after the search:
  - each result becomes a 12-field record, with at most 500 per topic,
    topic-major;
  - exact duplicate rows are dropped, keeping first occurrences;
  - the index is renumbered;
  - missing cells are filled with `"Unknown"`.
- **Query text** (`app.py`). Modelled in `queries.dfy` and `schema.dfy`. It
  covers:
  - splitting the typed topic list;
  - the `query_filter` built from the chosen topics and years;
  - the nine report queries that embed that filter;
  - the column list of `CREATE TABLE github_repos`.
- **Loader** (`postgresql_connector.py`). Modelled in `loader.dfy`. It covers:
  - the `INSERT` statement and its parameter tuples;
  - the connection life cycle of `create_connection`, `close_connection`,
    `execute_query`, `load_df` and `read_sql`.

  The database is an oracle. It either accepts a connection or not, and it
  answers each statement with a table or an error. Each operation returns its
  Python result together with a trace of events. A session state machine
  (`Loader.Step`, `Loader.Replay`) gives the trace its meaning. It tracks which
  rows are pending in the open transaction and which are committed.

Shared pieces:

- `wrappers.dfy`: `Option` for Python's `None` and `Result` for an escaping
  exception.
- `text.dfy`: Python's `str.split`, `str.strip` (with the full `isspace`
  set), `str.join` and `str(int)`, plus lemmas about where a word can occur
  in a text.

Three behaviours of the code are worth stating plainly:

- **A failed search ends the whole extraction.** The search is lazy: its
  requests are made while the loop reads a topic's results page by page.
  The exception raised while a topic's results are fetched escapes the topic
  loop, so no partial table survives. This is `Extraction.Collect` and
  `Extraction.CollectReportsFirstFailure`.
- **`read_sql` answers `None` on failure.** It returns `None` both when no
  connection can be made and when the query fails. An empty result table is
  still returned as a table. This is `Loader.ReadSql`.
- **`execute_query` leaves its connection open.** It never closes the
  connection it is given, and `data_extract_load` opens a connection for the
  `CREATE TABLE` statement and never closes it (app.py lines 19 and 37).
  That function is orchestration and is not modelled.
  `Loader.ExecuteQueryKeepsSessionOpen` shows the session is still open after
  `execute_query`.

## Model

| member | source | states |
|---|---|---|
| `Extraction.Record` | github_data_extraction.py:20-33 | each record has the 12 keys, carries its topic; License_Type is the SPDX id of the attached license, and missing when there is no license or it has no SPDX id; Description and Programming_Language are missing exactly when the repository has none, and no other field is ever missing |
| `Extraction.Collect` | github_data_extraction.py:14-33 | the loop succeeds iff every topic search succeeded; then there are at most 500 times as many records as topics, and every record has 12 fields |
| `Extraction.CollectTopicsSearched` | github_data_extraction.py:14-21 | every record carries the topic of one of the searches |
| `Extraction.CollectIsTopicMajor` | github_data_extraction.py:14-21 | the records form one block per topic in input order, each block being exactly that topic's first (at most 500) results in the platform's order |
| `Extraction.TopicRecords` | github_data_extraction.py:19-33 | a topic gives the records of its first results, at most 500, in the platform's order, each built for that topic |
| `Extraction.CollectContains` | github_data_extraction.py:19-33 | every one of the first 500 results of every topic is among the records |
| `Extraction.CollectReportsFirstFailure` | github_data_extraction.py:14-19 | when fetching a topic's results raises, the whole run fails with the error of the first failing topic |
| `Extraction.CollectAppend` | github_data_extraction.py:14-33 | running two topic lists one after the other gives the records of the first followed by those of the second, or the first error |
| `Extraction.ToFrame` | github_data_extraction.py:37 | the frame has the record keys as columns, or no columns when there are no records, and index 0..n-1 |
| `Extraction.Extract` | github_data_extraction.py:4-54 | success iff every search succeeded; the result is well formed, has the record keys as columns, at most 500 times as many rows as topics, index exactly 0..n-1, and no missing cell |
| `Extraction.ExtractRows` | github_data_extraction.py:39-52 | the result rows are the records deduplicated (first occurrences, in order) and then filled cell by cell; checking for duplicates first changes nothing |
| `Extraction.ExtractOnlySearchedTopics` | github_data_extraction.py:14-21 | no result row has a topic that was not searched |
| `Extraction.ExtractWithoutTopic` | github_data_extraction.py:14-41 | leaving a topic out of the input removes its rows and adds none |
| `Extraction.ExtractIgnoresEmptyTopic` | github_data_extraction.py:14-19 | a topic that finds nothing contributes no rows and changes nothing else |
| `Extraction.ExtractKeepsRecords` | github_data_extraction.py:40-52 | every record survives, filled, in the result: deduplication only drops repeats |
| `Extraction.SameRepositoryTwoTopics` | github_data_extraction.py:21 | the same repository found under two different topics gives two different rows, and both are kept |
| `Extraction.ExtractDropsRepeatAndFillsMissing` | github_data_extraction.py:40-52 | a repeated result is kept once; a result without description or license gets "Unknown" in those fields |
| `Extraction.ExtractMayRepeatRowsAfterFill` | github_data_extraction.py:40-52 | because the fill runs after deduplication, a repository without description and the same repository described as "Unknown" both survive and end up as equal rows |
| `Frames.Dedup` | github_data_extraction.py:40-41 | the result is no longer than the input, holds exactly the input's rows, and holds no row twice |
| `Frames.FirstPositions` | github_data_extraction.py:40-41 | the positions kept are exactly the first occurrences, ascending |
| `Frames.DedupKeepsFirstOccurrences` | github_data_extraction.py:40-41 | deduplication keeps the first occurrence of every row, in input order |
| `Frames.DedupOfDistinct` | github_data_extraction.py:40-41 | a table without repeated rows is left as it is |
| `Frames.DedupIdempotent` | github_data_extraction.py:40-41 | deduplicating twice is deduplicating once |
| `Frames.DedupLengthIffDistinct` | github_data_extraction.py:40 | deduplication keeps every row iff no row is repeated, which is when the duplicate count is zero |
| `Frames.HasDuplicates` | github_data_extraction.py:40 | `duplicated().sum() > 0` holds iff some row is not the first occurrence of its value, iff fewer rows are first occurrences than there are rows |
| `Frames.DropDuplicates` | github_data_extraction.py:41 | the frame keeps its columns and the rows and index labels of the first occurrences, and holds no repeated row |
| `Frames.ResetIndex` | github_data_extraction.py:44 | rows and columns unchanged, index labels exactly 0..n-1 |
| `Frames.MissingColumns` | github_data_extraction.py:47 | a column is listed iff it holds a missing cell |
| `Frames.FillColumn` | github_data_extraction.py:51-52 | in one column every missing cell becomes "Unknown" and every other cell, in that column or elsewhere, is unchanged |
| `Frames.FillColumns` | github_data_extraction.py:49-52 | after the loop over the listed columns, a cell is filled iff its column is listed, and the rows keep their number and length |
| `Frames.FillMissing` | github_data_extraction.py:46-52 | no missing cell remains, every missing cell became "Unknown", every other cell, the columns and the index are unchanged |
| `Frames.FillMissingIsCellwise` | github_data_extraction.py:46-52 | filling column by column equals filling every cell independently |
| `Frames.FillMissingCopyOnWrite` | github_data_extraction.py:51-52 | as written under pandas copy-on-write: the fill loop leaves every cell as it was |
| `Frames.CopyOnWriteFillKeepsMissing` | github_data_extraction.py:51-52 | a missing description survives the loop as written but becomes "Unknown" with the intended fill |
| `Schema.DataColumns` | app.py:22-34 | every declared column except the generated `id` key, in declaration order |
| `Schema.RecordKeysMatchColumns` | app.py:21-35 | the 12 record keys are, in order and up to case, the 12 non-key columns; the first column is the serial primary key |
| `Schema.RecordIsRaw` | app.py:23-34 | every record has one cell per data column, of the column's kind, and is missing only in text columns |
| `Schema.FilledRawIsLoadable` | app.py:23-34 | filling a record makes every cell present and of its column's kind |
| `Schema.ExtractedRowsAreLoadable` | app.py:23-34 | every row of a successful extraction has one present cell of the right kind per data column of the table |
| `Text.Split` | app.py:185 | `split(",")` gives one piece more than there are commas, and no piece holds a comma |
| `Text.JoinSplit` | app.py:185 | joining the pieces with the separator gives the input back |
| `Text.Strip` | app.py:185 | the result starts and ends with a non-space; it is the middle of the input, and what is cut on each side is whitespace |
| `Text.StripSurrounded` | app.py:185 | stripping removes exactly the surrounding whitespace of a stripped text |
| `Text.IntTextRoundTrip` | app.py:57 | the decimal text of a year reads back as that year |
| `Queries.ParseTopics` | app.py:185 | one topic per comma-separated piece, empty pieces kept, each stripped and free of commas |
| `Queries.ParseTopicsOfList` | app.py:185 | stripped comma-free topics typed as "a, b, c" read back as themselves |
| `Queries.ParseTopicsIgnoresPadding` | app.py:185 | whitespace around the pieces does not change the topics |
| `Queries.ExtractionRequest` | app.py:183-188 | an extraction starts iff both the topic field and the token are non-empty, and then with exactly the parsed topics: one stripped topic per comma-separated piece |
| `Queries.Quote` | app.py:51 | the topic appears verbatim between two single quotes |
| `Queries.QueryFilter` | app.py:49-59 | the filter is empty iff neither topics nor years are given (absent or empty), and otherwise starts with "WHERE "; with topics only it is exactly the topic clause; with years only it is "WHERE " followed by the year condition with its trailing space; with both it is the topic clause, "AND " and the year condition, with nothing else in between |
| `Queries.NoneIsEmpty` | app.py:50-55 | an absent list and an empty list give the same filter |
| `Queries.FilterExtendsTopicFilter` | app.py:49-59 | the filter starts with the topic-only filter and, when years are given, ends with the year condition |
| `Queries.WhereOnlyAtStart` | app.py:49-59 | with topics that do not contain it, the keyword WHERE occurs only at the start of the filter: a year condition after a topic clause is joined by AND |
| `Queries.YearListRoundTrip` | app.py:57-59 | the year list of the condition reads back as the chosen years, in order |
| `Queries.FilterOf` | app.py:62-146 | the filter read back from a report query is what lies between the report's fixed head and fixed ending |
| `Queries.ReportQuery` | app.py:62-146 | the query holds the filter right after `FROM github_repos `, and reading the filter back from the query gives the filter it was built with |
| `Queries.ReportQueryOfFilter` | app.py:62-146 | a report query is determined by the filter read from it |
| `Queries.VisualizationQueries` | app.py:62-146 | one query per report, nine in all |
| `Queries.EveryReportSharesTheFilter` | app.py:62-146 | every one of the nine report queries embeds the same filter, right after `FROM github_repos ` |
| `Loader.CreateConnection` | postgresql_connector.py:15-25 | a connection iff the server is reachable; never raises; it opens a session and touches nothing else |
| `Loader.CloseConnection` | postgresql_connector.py:27-32 | `None` is a no-op; an open connection is closed and its uncommitted rows are dropped |
| `Loader.ExecuteQuery` | postgresql_connector.py:34-44 | never raises; without a connection nothing is sent; with one the statement is sent, then the commit exactly when the statement succeeded, and nothing else; the connection is neither opened nor closed |
| `Loader.ExecuteQueryKeepsSessionOpen` | postgresql_connector.py:34-44 | after `execute_query` the session is still open and no rows were committed |
| `Loader.PlaceholderListCount` | postgresql_connector.py:53 | the VALUES list holds exactly n placeholders |
| `Loader.InsertStatement` | postgresql_connector.py:53 | the INSERT statement holds one `%s` placeholder per column, provided the table and column names hold no `%` |
| `Loader.RowTuples` | postgresql_connector.py:52 | one parameter tuple per row |
| `Loader.TuplesFitStatement` | postgresql_connector.py:52-58 | the tuples are the rows in order, and each has as many values as the statement has placeholders |
| `Loader.LoadDf` | postgresql_connector.py:46-63 | without a connection it does nothing and returns; otherwise it opens, sends the INSERT statement built from the frame's columns with one tuple per row, commits exactly when the insert succeeded, and closes last; it raises iff some statement failed |
| `Loader.LoadDfAllOrNothing` | postgresql_connector.py:46-63 | all the frame's rows become durable, in order, iff the call returned with a connection; otherwise none do; the session ends closed |
| `Loader.ReadSql` | postgresql_connector.py:65-77 | a table iff connected and the query succeeded (an empty table is still a table); `None` otherwise; once opened, the connection is closed last |
| `Loader.ReadSqlPersistsNothing` | postgresql_connector.py:65-77 | reading leaves the committed rows unchanged and the session closed |
| `Loader.ReplayKeepsDurable` | postgresql_connector.py:57-63 | no sequence of statements, commits and closes loses committed rows |

## Left out

- The GitHub API (`Github(token)`, `search_repositories`, pagination and
  ranking) is a sequence of per-topic outcomes. Each outcome is the results in
  the platform's order, or the exception the search raised.
- An attribute read that raises partway through a result list is not
  modelled. Any failure of a topic is the failure of its search.
- psycopg2 and PostgreSQL are an oracle. The SQL text is never interpreted:
  GROUP BY, ORDER BY, LIMIT and EXTRACT have no meaning here. A failed
  statement aborts the transaction, and closing rolls it back.
- Loader.ExecuteQueryKeepsSessionOpen: statements sent through
  `execute_query` are modelled as writing no rows, because the program only
  sends `CREATE TABLE IF NOT EXISTS` that way (app.py line 37). An INSERT
  sent through it would in reality be committed.
- Loader.ExecuteQuery: does not model `conn.cursor()` raising on a live
  connection; only the statement and the commit can fail.
- Loader.LoadDf: does not model `conn.cursor()` or the tuple
  building raising.
- pandas is reduced to columns, index labels and rows of cells. Timestamps
  are integers. The dtypes and NaN-versus-None are not modelled.
- Column widths (`VARCHAR(255)`) are recorded in `Schema.GithubRepos` but no
  length limit is checked.
- The Streamlit pages, the Plotly charts, `print` and `logging` are left out.
  So is the crash when `.empty` is read from the `None` that `read_sql`
  returns (app.py lines 64-149).
- The overview queries at app.py lines 196-201 are constants and are not
  modelled.
- The hard-coded connection settings are configuration.
- `data_extract_load` (app.py lines 7-42) only chains the modelled
  operations. It is not modelled, and neither is the unclosed connection it
  leaves behind.
- Queries.WhereOnlyAtStart: requires that no topic contains the word
  `WHERE`. Topics are quoted without escaping, so a topic containing
  `WHERE`, or a quote, changes the SQL text.
- Text.IsSpace: follows Python's `str.isspace` for every code point. Dafny
  `char` values are Unicode scalar values, so Python strings holding lone
  surrogate code points cannot be represented.
- Text.Lower: folds ASCII letters only. This is enough for the column
  identifiers, which are ASCII.

## Findings

| source | as written | input that shows it | evidently intended | confidence | as-written member | corrected member |
|---|---|---|---|---|---|---|
| github_data_extraction.py:51-52 | each column with missing cells is selected and then filled in place; the fill acts on the selected column, which under pandas copy-on-write is a copy | a one-row frame whose Description is missing | the frame's own missing cells become "Unknown" | medium, not executed; depends on the pandas version and on copy-on-write being enabled | `Frames.FillMissingCopyOnWrite`, `Frames.CopyOnWriteFillKeepsMissing` | `Frames.FillMissing` |

`Extraction.Extract` uses the corrected `Frames.FillMissing`.
