# SHARADAR reference-data coder and SEP bundle ingestor, in Dafny

This project models two batch transformations of alpha-compiler, a toolkit that loads Sharadar data into zipline bundles:

- **The reference-data coder** (`SHARADAR_sector_code_loader.py`).
  - It reads the Sharadar ticker table and drops rows whose exchange is `None` or `INDEX`, and rows whose table tag is not `SEP`.
  - It codes sector, exchange and listing category through three fixed tables.
  - It writes the codes into dense arrays indexed by the SID (security identifier) that the `sep` bundle gave each ticker. Every cell defaults to `-1`.
  - The 1-D variant holds only the sector. The 3 x N variant has rows sector, exchange and category.
- **The per-ticker loop of the SEP bundle ingestor** (`sep_quandl.py`).
  - `groupby('ticker')` visits tickers in sorted order.
  - Each group is sorted by date.
  - The abnormal-return check runs on the sorted closes.
  - The group is realigned to the exchange sessions between its first and last date, with a left join and a forward fill. The source realigns only when the number of sessions differs from the number of rows; see Findings.
  - Each ticker gets the next SID, starting at 0. It gets a metadata record (start, end, auto-close = end + 1 day, symbol, exchange `NYSE`, name), and a data entry.

Dates are day numbers (`int`). The exchange calendar is an input sequence of sessions. The ticker→SID map of the bundle is an input `map<string, nat>`. `ingest` also receives the SID map that its enclosing closure kept from earlier calls, as the input `known`.

Modules:
- `Wrappers`: `Option` and `Result`.
- `SectorCoding`: the three tables, and pandas' `Series.map` on one cell.
- `SectorCodeLoader`: the filters, the ticker lookup, the store policies, the reference fill `Fill`, and the fill-loop methods.
- `SectorCodeProperties`: what the arrays promise, and where the source departs from it.
- `TickerOrder`: Python string order, and the visiting order of `groupby`.
- `Bars`: quotes, the date sort, the sessions in a range, the left join and the forward fill.
- `SepQuandl`: the abnormal-return check, the per-ticker step, the groups, the run and the loop method.
- `SepProperties`: the calendar alignment, the count-test finding, and the bundle that a run assembles.

The code and its docstring/commentary disagree on three points:
- **The row-count check.** The code asserts more than 10001 rows, counted before the filters (`MinRows`, `Table`). It does not check for at least 10001 rows after filtering. The model follows the code.
- **Unmapped sectors and exchanges.** An unmapped sector or exchange does not quietly become `-1` in the code; see Findings. The ghost `Policy.AsWritten` tables follow the code. `Policy.Corrected` models the promised behaviour, and the loop methods (`CreateSidTable`, `CreateStaticTable`, `FillSectors`, `FillStatic`) compute it; see Left out.
- **The missing-dates test.** The comment says the test looks for missing dates, while the code compares only counts; see Findings. `FrameAsWritten` follows the code. The ingest run (`ProcessTicker`, `Run`, `Ingest` and the loop methods) uses the corrected `Frame`; see Left out.

## Model

| member | source | states |
|---|---|---|
| SectorCoding.Code | alphacompiler/data/SHARADAR_sector_code_loader.py:150-151 | once NaN is replaced by -1, a stored code is -1 exactly when the cell is not a known name, and otherwise it is that name's table code |
| SectorCoding.SectorTableRange | alphacompiler/data/SHARADAR_sector_code_loader.py:26-37 | every sector name codes into 0..10, and the NaN key codes a missing sector as -1 |
| SectorCoding.ExchangeTableRange | alphacompiler/data/SHARADAR_sector_code_loader.py:47-53 | every exchange name codes into 0..6, and a missing exchange maps to NaN |
| SectorCoding.CategoryTableRange | alphacompiler/data/SHARADAR_sector_code_loader.py:71-84 | every category name codes into 0..13, and a missing category maps to NaN |
| SectorCodeLoader.Filtered | alphacompiler/data/SHARADAR_sector_code_loader.py:95-97 | a row survives exactly when its exchange is neither "None" nor "INDEX" and its table is "SEP" |
| SectorCodeLoader.FilteredAppend | alphacompiler/data/SHARADAR_sector_code_loader.py:95-97 | filtering a concatenation is concatenating the filtered parts |
| SectorCodeLoader.RejectedRowDropped | alphacompiler/data/SHARADAR_sector_code_loader.py:95-97 | a rejected row leaves the filtered table unchanged, wherever it stands |
| SectorCodeLoader.FilteredRejected | alphacompiler/data/SHARADAR_sector_code_loader.py:95-97 | a rejected row on its own filters to nothing |
| SectorCodeLoader.RowsFor | alphacompiler/data/SHARADAR_sector_code_loader.py:109 | the rows `.get(ticker)` looks at are exactly the table rows with that ticker |
| SectorCodeLoader.Find | alphacompiler/data/SHARADAR_sector_code_loader.py:109 | `.get(ticker)` finds nothing exactly when no row has the ticker, finds the one row when there is one, and is ambiguous exactly when there are two or more |
| SectorCodeLoader.Store | alphacompiler/data/SHARADAR_sector_code_loader.py:147-151 | the corrected cell value is -1 exactly when the ticker is absent or its value is not a known name, and otherwise it is the table code |
| SectorCodeLoader.StoreWith | alphacompiler/data/SHARADAR_sector_code_loader.py:145-151 | under either policy a stored value is the corrected value `Store`, so the source never stores a wrong code and can only abort; the store fails, always with the assignment error, exactly when the ticker is duplicated or, as written, a sector or exchange is neither a table name nor a NaN the table maps |
| SectorCodeLoader.Width | alphacompiler/data/SHARADAR_sector_code_loader.py:102 | N exceeds every SID, and N - 1 is some ticker's SID |
| SectorCodeLoader.Fill | alphacompiler/data/SHARADAR_sector_code_loader.py:138-141 | a fill succeeds only with a non-empty SID map, and then has one row per attribute, each N = max(SID) + 1 long |
| SectorCodeLoader.Row | alphacompiler/data/SHARADAR_sector_code_loader.py:141 | every row is N = max(SID) + 1 long |
| SectorCodeLoader.CorrectedStorable | alphacompiler/data/SHARADAR_sector_code_loader.py:145-151 | with the corrected store, every mapped ticker can be written exactly when none is duplicated in the filtered table |
| SectorCodeLoader.WriteStep | alphacompiler/data/SHARADAR_sector_code_loader.py:111 | writing one ticker's code at its SID changes exactly that ticker's column; every other column stays as it was |
| SectorCodeLoader.FinishedColumn | alphacompiler/data/SHARADAR_sector_code_loader.py:108-111 | once every mapped ticker is written, the column is the reference row |
| SectorCodeLoader.DuplicateAborts | alphacompiler/data/SHARADAR_sector_code_loader.py:109-111 | one duplicated mapped ticker makes the fill fail |
| SectorCodeLoader.StaticAssembled | alphacompiler/data/SHARADAR_sector_code_loader.py:141-148 | three finished columns in the order sector, exchange, category are the 3 x N reference fill |
| SectorCodeLoader.MaxSid | alphacompiler/data/SHARADAR_sector_code_loader.py:102 | one pass over the map finds max(SID), the largest SID any ticker has |
| SectorCodeLoader.CreateSidTable | alphacompiler/data/SHARADAR_sector_code_loader.py:94-111 | the 1-D run (row-count check, filters, fill loop) with the corrected store yields the corrected reference sector table, errors included |
| SectorCodeLoader.FillSectors | alphacompiler/data/SHARADAR_sector_code_loader.py:102-111 | the corrected loop over the SID map yields the sector row of the reference fill, and fails exactly when the reference fill fails, with the same error |
| SectorCodeLoader.CreateStaticTable | alphacompiler/data/SHARADAR_sector_code_loader.py:128-151 | the 3 x N run with the corrected store yields the corrected reference static table, errors included |
| SectorCodeLoader.FillStatic | alphacompiler/data/SHARADAR_sector_code_loader.py:138-151 | the corrected loop filling three rows per ticker yields the reference 3 x N fill |
| SectorCodeProperties.FillCell | alphacompiler/data/SHARADAR_sector_code_loader.py:145-151 | in any row, under either policy, a mapped ticker's SID column holds the value stored for that ticker |
| SectorCodeProperties.FillDefault | alphacompiler/data/SHARADAR_sector_code_loader.py:141 | a column that is no ticker's SID stays -1 in every row |
| SectorCodeProperties.CorrectedOutcome | alphacompiler/data/SHARADAR_sector_code_loader.py:102-111 | an empty SID map fails `max`; otherwise a duplicated ticker fails the assignment; and the fill succeeds exactly when neither happens |
| SectorCodeProperties.StaticFillMeaning | alphacompiler/data/SHARADAR_sector_code_loader.py:137-151 | the 3 x N fill succeeds iff the map is non-empty and has no duplicated ticker; it then has shape 3 x N, each mapped column holds the ticker's sector, exchange and category codes, and unowned columns are -1 |
| SectorCodeProperties.SectorFillMeaning | alphacompiler/data/SHARADAR_sector_code_loader.py:101-111 | the same for the 1-D fill: length N, the sector code at each mapped SID, -1 elsewhere |
| SectorCodeProperties.TableOutcome | alphacompiler/data/SHARADAR_sector_code_loader.py:94-97 | a run fails with the row-count error iff the unfiltered table has at most 10001 rows, and succeeds iff it has more, the map is non-empty, and no mapped ticker is duplicated after filtering |
| SectorCodeProperties.StaticTableMeaning | alphacompiler/data/SHARADAR_sector_code_loader.py:128-151 | the same success and failure conditions for the 3 x N run |
| SectorCodeProperties.SectorTableMeaning | alphacompiler/data/SHARADAR_sector_code_loader.py:94-111 | the same success and failure conditions for the 1-D run |
| SectorCodeProperties.SectorFillIsStaticRow | alphacompiler/data/SHARADAR_sector_code_loader.py:133-147 | the 1-D fill is row 0 of the 3 x N fill, and both fail together with the same error |
| SectorCodeProperties.SectorTableIsStaticRow | alphacompiler/data/SHARADAR_sector_code_loader.py:127-147 | the 1-D run is row 0 of the 3 x N run, errors included |
| SectorCodeProperties.RejectedRowIrrelevant | alphacompiler/data/SHARADAR_sector_code_loader.py:95-97 | once the row count passes, a rejected row changes no output of either variant under either policy |
| SectorCodeProperties.AaplExample | alphacompiler/data/SHARADAR_sector_code_loader.py:141-151 | AAPL listed once, with map {AAPL: 5}, gives column 5 = [0, 1, 0] and [-1, -1, -1] in columns 0..4 |
| SectorCodeProperties.SingleTickerColumns | alphacompiler/data/SHARADAR_sector_code_loader.py:105-111 | with one ticker on SID s, a row has s + 1 cells: the last is that ticker's code and the others are -1 |
| SectorCodeProperties.SingleTickerFills | alphacompiler/data/SHARADAR_sector_code_loader.py:141-151 | with one ticker on SID 0, the fills are exactly that ticker's three codes |
| SectorCodeProperties.StoreAgrees | alphacompiler/data/SHARADAR_sector_code_loader.py:147-151 | the source's store and the corrected store agree when the sector is known or missing and the exchange is known |
| SectorCodeProperties.RowAgrees | alphacompiler/data/SHARADAR_sector_code_loader.py:145-151 | rows filled with agreeing stores are equal |
| SectorCodeProperties.AsWrittenAgreesWhenCoded | alphacompiler/data/SHARADAR_sector_code_loader.py:145-151 | on such data the source's fill equals the corrected fill |
| SectorCodeProperties.AsWrittenTablesAgreeWhenCoded | alphacompiler/data/SHARADAR_sector_code_loader.py:94-151 | on such data both runs of the source equal the corrected runs |
| SectorCodeProperties.UnknownSectorAbortsAsWritten | alphacompiler/data/SHARADAR_sector_code_loader.py:109-111 | as written, a ticker listed once with a sector text outside the table, mapped to SID 0, makes both fills fail |
| SectorCodeProperties.UnknownSectorStoredAsSentinel | alphacompiler/data/SHARADAR_sector_code_loader.py:109-111 | corrected, the same input fills the sector array as [-1] |
| SectorCodeProperties.MissingExchangeAbortsAsWritten | alphacompiler/data/SHARADAR_sector_code_loader.py:148 | as written, a ticker listed once with a missing exchange, mapped to SID 0, makes the static fill fail |
| SectorCodeProperties.MissingExchangeKept | alphacompiler/data/SHARADAR_sector_code_loader.py:129-131 | a SEP row with a missing exchange passes the `!= 'None'` and `!= 'INDEX'` filters |
| SectorCodeProperties.MissingExchangeStoredAsSentinel | alphacompiler/data/SHARADAR_sector_code_loader.py:148 | corrected, the same input completes the static fill with an exchange row of [-1] |
| SectorCodeProperties.CategoryNeverAbortsAsWritten | alphacompiler/data/SHARADAR_sector_code_loader.py:150-151 | the source's category guard already stores the corrected value, so an unmapped or missing category becomes -1 and never fails |
| TickerOrder.LessIrreflexive | alphacompiler/data/loaders/sep_quandl.py:89 | Python's string order on tickers is irreflexive |
| TickerOrder.LessTransitive | alphacompiler/data/loaders/sep_quandl.py:89 | Python's string order is transitive |
| TickerOrder.LessTotal | alphacompiler/data/loaders/sep_quandl.py:89 | any two distinct tickers are ordered one way or the other |
| TickerOrder.LessAsymmetric | alphacompiler/data/loaders/sep_quandl.py:89 | no two tickers are each before the other |
| TickerOrder.Insert | alphacompiler/data/loaders/sep_quandl.py:89 | inserting a ticker keeps the keys increasing, and the result holds exactly the old keys plus the new one |
| TickerOrder.GroupOrder | alphacompiler/data/loaders/sep_quandl.py:89 | the visited keys are increasing, and hold exactly the dump's tickers |
| TickerOrder.SortedDistinctUnique | alphacompiler/data/loaders/sep_quandl.py:89 | an increasing list of tickers is determined by its members, so the visiting order is unique |
| Bars.InsertByDate | alphacompiler/data/loaders/sep_quandl.py:90 | insertion adds exactly one copy of the row |
| Bars.InsertMembers | alphacompiler/data/loaders/sep_quandl.py:90 | after insertion a row is present iff it is the new row or was there before |
| Bars.InsertSorted | alphacompiler/data/loaders/sep_quandl.py:90 | insertion into a date-ordered frame keeps it date-ordered |
| Bars.ChronologicalCons | alphacompiler/data/loaders/sep_quandl.py:90 | proof step for InsertChronological: a row dated before every row of a strictly increasing frame extends it |
| Bars.InsertChronological | alphacompiler/data/loaders/sep_quandl.py:90 | inserting a row with a new date into a strictly increasing frame keeps it strictly increasing |
| Bars.SortByDate | alphacompiler/data/loaders/sep_quandl.py:90 | `sort_index` is a permutation of the group |
| Bars.SortSorted | alphacompiler/data/loaders/sep_quandl.py:90 | the sort's result is ordered by date |
| Bars.SortChronological | alphacompiler/data/loaders/sep_quandl.py:90 | rows with distinct dates sort into strictly increasing dates |
| Bars.ChronologicalHead | alphacompiler/data/loaders/sep_quandl.py:90 | two strictly increasing arrangements of the same rows start with the same row |
| Bars.TailRows | alphacompiler/data/loaders/sep_quandl.py:90 | proof step for ChronologicalUnique: the rows after the head are all the rows minus the head |
| Bars.ChronologicalUnique | alphacompiler/data/loaders/sep_quandl.py:90 | two strictly increasing arrangements of the same rows are equal, so the unstable sort is determined on distinct dates |
| Bars.SortMembers | alphacompiler/data/loaders/sep_quandl.py:90 | the sort keeps the length and exactly the rows |
| Bars.SortFirst | alphacompiler/data/loaders/sep_quandl.py:99 | the sorted frame's first date (`index[0]`) is the group's earliest date |
| Bars.SortLast | alphacompiler/data/loaders/sep_quandl.py:99 | the sorted frame's last date (`index[-1]`) is the group's latest date |
| Bars.SortedStart | alphacompiler/data/loaders/sep_quandl.py:99 | any date-ordered arrangement of the rows starts on their least date |
| Bars.SortedEnd | alphacompiler/data/loaders/sep_quandl.py:99 | any date-ordered arrangement of the rows ends on their greatest date |
| Bars.FirstDate | alphacompiler/data/loaders/sep_quandl.py:99 | the earliest date is some row's date, and is no later than any row's |
| Bars.LastDate | alphacompiler/data/loaders/sep_quandl.py:99 | the latest date is some row's date, and is no earlier than any row's |
| Bars.SessionsInRange | alphacompiler/data/loaders/sep_quandl.py:99 | `sessions_in_range` keeps exactly the sessions between the two dates, in calendar order, so it is increasing when the calendar is |
| Bars.IncreasingWithin | alphacompiler/data/loaders/sep_quandl.py:101 | an increasing list whose values all lie in another increasing list is no longer, and when equally long it is the same list |
| Bars.WithinSameHead | alphacompiler/data/loaders/sep_quandl.py:101 | proof step for IncreasingWithin: its statement for two lists that start with the same value |
| Bars.WithinTails | alphacompiler/data/loaders/sep_quandl.py:101 | proof step for IncreasingWithin: when both lists start alike, the rest of one lies in the rest of the other |
| Bars.WithinRest | alphacompiler/data/loaders/sep_quandl.py:101 | proof step for IncreasingWithin: when the least value of `a` is not the head of `b`, all of `a` lies in the rest of `b` |
| Bars.QuoteOn | alphacompiler/data/loaders/sep_quandl.py:105 | the join gives a session NaN throughout when no row is dated on it, and, in a frame without repeated dates, the fields of the row dated on it |
| Bars.Join | alphacompiler/data/loaders/sep_quandl.py:104-105 | the left join has one row per session, in session order, each carrying the fields of that session's row (see Left out for a repeated date) |
| Bars.FFill | alphacompiler/data/loaders/sep_quandl.py:106 | the fill keeps the length and the dates |
| Bars.Reindex | alphacompiler/data/loaders/sep_quandl.py:104-106 | the realigned frame is indexed by exactly the sessions, in order (see Left out for a repeated date) |
| Bars.Series | alphacompiler/data/loaders/sep_quandl.py:36 | a column is the sequence of that field, row by row |
| Bars.LatestCons | alphacompiler/data/loaders/sep_quandl.py:106 | proof step for FFillIsLatest: scanning one more value first is scanning the rest from its fill |
| Bars.FFillIsLatest | alphacompiler/data/loaders/sep_quandl.py:106 | cell (i, c) of the fill is the last non-NaN value of column c among rows 0..i, or the value carried in |
| Bars.FFillFirst | alphacompiler/data/loaders/sep_quandl.py:106 | the first filled cell is the first row's value, or the value carried in |
| Bars.SeriesCons | alphacompiler/data/loaders/sep_quandl.py:36 | proof step for FFillIsLatest: the first i + 1 values of a column are the first row's value followed by the rest's first i |
| Bars.FFillAt | alphacompiler/data/loaders/sep_quandl.py:106 | proof step for FFillIsLatest and FFillFirst: row 0 of the fill merges the first row with the carried value, and every later row is the fill of the rest from that merged row |
| Bars.FFillCell | alphacompiler/data/loaders/sep_quandl.py:106 | a present value survives the fill; a NaN takes the previous row's filled value, or the carried value on row 0 |
| SepQuandl.AbnormalMeansQuadrupled | alphacompiler/data/loaders/sep_quandl.py:34-37 | for a positive previous close, a return above 3.0 means exactly that the close more than quadrupled |
| SepQuandl.CheckForAbnormalReturns | alphacompiler/data/loaders/sep_quandl.py:34-40 | the reported days are exactly the days after the first whose `pct_change` exceeds the threshold, in increasing order, and some day is reported iff the series has an abnormal return |
| SepQuandl.ProcessTickerFails | alphacompiler/data/loaders/sep_quandl.py:92-112 | a ticker's step fails exactly when the group is empty or has no session between its first and last date |
| SepQuandl.ProcessTickerBars | alphacompiler/data/loaders/sep_quandl.py:90-106 | a successful step's bars are the aligned frame of the sorted group, indexed by exactly its sessions |
| SepQuandl.ProcessTickerAsset | alphacompiler/data/loaders/sep_quandl.py:110-117 | a successful step's record is (first session, last session, last session + 1, ticker, "NYSE", ticker), and its flag is the check of the sorted closes |
| SepQuandl.SortedEnds | alphacompiler/data/loaders/sep_quandl.py:90-99 | the sorted group starts on its first date and ends on its last |
| SepQuandl.GroupOfRows | alphacompiler/data/loaders/sep_quandl.py:89 | a ticker's group holds exactly that ticker's rows, without the ticker column |
| SepQuandl.GroupMember | alphacompiler/data/loaders/sep_quandl.py:89 | every row of a ticker is in its group |
| SepQuandl.KeyedGroup | alphacompiler/data/loaders/sep_quandl.py:89 | in a dump keyed by (ticker, date), no group repeats a date |
| SepQuandl.Groups | alphacompiler/data/loaders/sep_quandl.py:89 | `groupby` visits each ticker of the dump once, in increasing order, with exactly that ticker's rows |
| SepQuandl.GroupsNonEmpty | alphacompiler/data/loaders/sep_quandl.py:89 | every visited group has a row |
| SepQuandl.RunStep | alphacompiler/data/loaders/sep_quandl.py:123-125 | one more successful ticker appends its data entry under the current counter, records that SID, and increments the counter |
| SepQuandl.RunFails | alphacompiler/data/loaders/sep_quandl.py:89-125 | once a ticker raises, the run ends with that error |
| SepQuandl.RunLoop | alphacompiler/data/loaders/sep_quandl.py:83-125 | the loop with its running SID counter computes the reference run; `IngestLoop` runs it over the groups of the dump |
| SepProperties.ReindexCell | alphacompiler/data/loaders/sep_quandl.py:104-106 | in the realigned frame, a value observed on a session is kept; a session without a row inherits the previous session's filled value, or NaN on the first session |
| SepProperties.FrameCell | alphacompiler/data/loaders/sep_quandl.py:99-106 | the corrected frame is indexed by the sessions of the date range, and its cells obey the same rules |
| SepProperties.CountTestAgrees | alphacompiler/data/loaders/sep_quandl.py:101 | when every observed date is a session and no date repeats, the count test decides as the date test does, so the source's frame is the corrected one |
| SepProperties.CountsDiffer | alphacompiler/data/loaders/sep_quandl.py:101-106 | when the counts differ, the source's frame is reindexed onto exactly the sessions (see Left out for a repeated date) |
| SepProperties.SessionsPassThrough | alphacompiler/data/loaders/sep_quandl.py:101 | rows dated exactly on the sessions pass through unchanged, with no reindex and no fill |
| SepProperties.CountTestMisses | alphacompiler/data/loaders/sep_quandl.py:101 | a row on a non-session date that offsets a missing session passes the count test, and the source's frame is not indexed by the sessions |
| SepProperties.OffsetMisses | alphacompiler/data/loaders/sep_quandl.py:101 | sessions 1, 2, 4, 5 with rows on days 1, 3, 4, 5 meet those conditions |
| SepProperties.RepeatedDateMisses | alphacompiler/data/loaders/sep_quandl.py:101 | a repeated date that offsets a missing session also passes the count test: the source's frame keeps the repeated date and is not indexed by the sessions, while the corrected frame is |
| SepProperties.RepeatMisses | alphacompiler/data/loaders/sep_quandl.py:101 | with sessions 1, 2, 3 and rows dated 1, 1, 3, the source's frame has dates 1, 1, 3 and the corrected frame has dates 1, 2, 3 |
| SepProperties.GapFilledFromPreviousDay | alphacompiler/data/loaders/sep_quandl.py:89-117 | rows on sessions 3 and 1 of a three-session calendar come out sorted, with session 2 filled from session 1, record (1, 3, 4, ticker, NYSE, ticker), and the one return as flag |
| SepProperties.OneReturn | alphacompiler/data/loaders/sep_quandl.py:36-38 | two present closes have one return, and the check fires iff that return exceeds 3.0 |
| SepProperties.RunSucceeds | alphacompiler/data/loaders/sep_quandl.py:89-125 | the run succeeds iff every ticker's step does |
| SepProperties.RunLast | alphacompiler/data/loaders/sep_quandl.py:123-125 | a successful run is the run without its last ticker, extended by that ticker |
| SepProperties.RunRecords | alphacompiler/data/loaders/sep_quandl.py:110-125 | the data and metadata lists have one entry per ticker; the final counter is the number of tickers; ticker k's data entry has SID k |
| SepProperties.RunSidKeys | alphacompiler/data/loaders/sep_quandl.py:124 | afterwards the SID map holds exactly the previously known tickers and the run's tickers |
| SepProperties.RunSidKept | alphacompiler/data/loaders/sep_quandl.py:124 | a known ticker the run does not visit keeps its SID |
| SepProperties.RunSidAssigned | alphacompiler/data/loaders/sep_quandl.py:123-125 | each ticker maps to the position of its last step |
| SepProperties.RunFlagged | alphacompiler/data/loaders/sep_quandl.py:95 | the flagged tickers are exactly those whose check fired |
| SepProperties.RunAborted | alphacompiler/data/loaders/sep_quandl.py:89-125 | a run whose first failing ticker is k stops with that ticker's error, and the SID map it leaves holds the known tickers plus exactly the tickers visited before k, as written at line 124 before the raise |
| SepProperties.GroupsDistinct | alphacompiler/data/loaders/sep_quandl.py:89 | no ticker is visited twice |
| SepProperties.GroupsCanonical | alphacompiler/data/loaders/sep_quandl.py:89 | the visiting order is the one increasing list of the dump's tickers |
| SepProperties.SortCanonical | alphacompiler/data/loaders/sep_quandl.py:90 | on distinct dates the sort is the one chronological arrangement |
| SepProperties.IngestSucceeds | alphacompiler/data/loaders/sep_quandl.py:89-112 | ingestion succeeds iff every ticker has a session between its first and last date |
| SepProperties.IngestAborted | alphacompiler/data/loaders/sep_quandl.py:89-125 | when the k-th visited ticker is the first that fails, ingestion fails, and the closure's map holds the known tickers plus exactly the tickers visited before it |
| SepProperties.IngestRecords | alphacompiler/data/loaders/sep_quandl.py:110-125 | the k-th ticker gets SID k; its frame is indexed by its sessions; its record spans them under its own name; and the lists' lengths and the counter equal the number of tickers |
| SepProperties.IngestSidKeys | alphacompiler/data/loaders/sep_quandl.py:124 | afterwards the SID map holds exactly the previously known tickers and the dump's tickers |
| SepProperties.IngestSidKept | alphacompiler/data/loaders/sep_quandl.py:124 | a known ticker absent from the dump keeps its SID |
| SepProperties.IngestSidAssigned | alphacompiler/data/loaders/sep_quandl.py:123-125 | the k-th ticker in visiting order is recorded under SID k |
| SepProperties.IngestFlagged | alphacompiler/data/loaders/sep_quandl.py:95 | the k-th ticker is flagged iff its sorted closes hold an abnormal return |
| SepProperties.IngestFlagsOnlyTickers | alphacompiler/data/loaders/sep_quandl.py:95 | only tickers of the dump are flagged |
| SepProperties.IngestKeepsObserved | alphacompiler/data/loaders/sep_quandl.py:89-106 | a value a dump row holds is the value in its ticker's frame on that row's session |
| SepProperties.ProcessedKeepsObserved | alphacompiler/data/loaders/sep_quandl.py:90-106 | a value a group row holds survives in the frame on its session |

## Left out

- Reading and writing files is not modelled: `pd.read_csv`, `np.save`, the `register` call, the daily-bar, asset-database and adjustment writers, and the placeholder splits row. The arrays and the bundle are returned values.
- `print` and the stderr output are not modelled. The abnormal-return check is modelled as a list of days and a flag.
- `get_ticker_sid_dict_from_bundle` is not modelled. Its map is the input `sids`.
- The exchange calendar lookup is not modelled. The calendar is an input sequence.
- The closure dict `ticker2sid_map` that persists across calls is modelled as the input `known`. A run that stops at a failing ticker returns, with its error, the map as the earlier tickers left it (`Aborted`).
- CSV parsing is not modelled: which raw strings become NaN, timezones, and dates as timestamps. Dates are day numbers, so `+ Timedelta(days=1)` is `+ 1`.
- IEEE floating point is modelled with `real`. `Exceeds` models the division, and the infinities and NaN of a zero previous close. Rounding and signed zero are not modelled.
- A calendar date outside the calendar's bounds is not modelled: `sessions_in_range` then raises, while the model returns the calendar's sessions between the two dates, The step then succeeds where the source raises, unless no session lies between them, in which case it fails with `EmptyFrame`.
- SectorCodeLoader.Fill: requires an injective SID map. With two tickers on one SID, the surviving value depends on dict iteration order, which is not modelled. The SIDs of a bundle are unique anyway.
- SectorCodeLoader.FillSectors: visits the tickers of the map in an arbitrary order, and so does FillStatic. The first duplicated ticker decides the error. Every error is `ValueNotStorable`, so the outcome does not depend on the order.
- SepProperties.IngestKeepsObserved: requires a dump keyed by (ticker, date). With a repeated date, the unstable `sort_index` and the join's row duplication make the frame depend on pandas internals. SortCanonical requires distinct dates for the same reason.
- SepQuandl.ProcessTicker: an empty group gives `EmptyFrame`. `groupby` never yields one (GroupsNonEmpty), so this is the IndexError of `df_tkr.index[0]` at line 110, on a frame left empty because no session lies between the group's first and last date.
- SepQuandl.ProcessTicker: uses the corrected frame test (`Frame`), so the runs built on it do too. The source's count test is `FrameAsWritten`. The two agree whenever every observed date is a session and no date repeats (SepProperties.CountTestAgrees) and whenever the counts differ (SepProperties.CountsDiffer).
- SepQuandl.AbnormalAt: pads NaN closes before taking the return, as `pct_change` does with its default `fill_method='pad'` in pandas before 3.0. pandas 3.0 no longer pads, and that version is not modelled.
- Bars.Join: keeps one row per session and takes the first row of a repeated date. pandas' `join` repeats the session once for each row with that date. `FrameAsWritten`, Reindex and CountsDiffer inherit this, so on a group with a repeated date the model's frame is indexed by exactly the sessions, where the source's frame repeats a session. The unstable `sort_index` leaves the order of such rows unspecified anyway.
- Bars.Reindex: is indexed by exactly the sessions only because Join keeps one row per session; a group with a repeated date gives pandas a longer index (see Bars.Join).
- SepProperties.CountsDiffer: states that the source's frame is indexed by exactly the sessions; with a repeated date the source's frame repeats that session (see Bars.Join).
- SectorCodeLoader.CreateSidTable: computes the corrected table only, as do CreateStaticTable, FillSectors and FillStatic. On the inputs under Findings these methods store -1 where the source raises. The source's runs are the ghost `Table(AsWritten, …)`, `SectorTableAsWritten` and `StaticTableAsWritten`, which AsWrittenTablesAgreeWhenCoded relates to them.
- SectorCodeLoader.CreateStaticTable: corrected store only (see SectorCodeLoader.CreateSidTable).
- setup.py is packaging metadata and is not part of this model.

## Findings

| source | as written | input that shows it | evidently intended | confidence | as-written member | corrected member |
|---|---|---|---|---|---|---|
| alphacompiler/data/SHARADAR_sector_code_loader.py:109-111 | a sector text not in the table maps to NaN, and assigning NaN into the int64 array raises, so the run aborts | a kept, mapped ticker whose sector is "Conglomerates" | store -1 for an unmapped value, as the table's comment and the category guard at lines 149-151 do | not executed; high, because numpy refuses NaN in an int64 array | SectorCodeProperties.UnknownSectorAbortsAsWritten | SectorCodeProperties.UnknownSectorStoredAsSentinel |
| alphacompiler/data/SHARADAR_sector_code_loader.py:148 | a missing exchange passes both filters, maps to NaN (the table has no NaN key), and the assignment raises | a kept, mapped ticker whose exchange cell is empty and whose table is "SEP" | store -1 | not executed; high | SectorCodeProperties.MissingExchangeAbortsAsWritten | SectorCodeProperties.MissingExchangeStoredAsSentinel |
| alphacompiler/data/loaders/sep_quandl.py:101 | the gap test compares only counts, so a row on a non-session date, or a repeated date, hides a missing session, and the frame keeps an index that is not the sessions | sessions 1, 2, 4, 5 with rows dated 1, 3, 4, 5; or sessions 1, 2, 3 with rows dated 1, 1, 3 (RepeatMisses) | reindex whenever the dates are not exactly the sessions | not executed; medium, because real dumps rarely hold a non-session date | SepProperties.CountTestMisses | SepProperties.FrameCell |
