# Dashboard RAN: daily ETL and dashboard helpers, modelled in Dafny

This project models the radio-access-network ETL of `Airflow/Tasks_daily.py` and the pure
helpers of `App/Dashboard_BD.py`, and proves properties of them.

Every day the ETL takes hourly per-cell counter files and stores them in a database:

- the raw rows (`ran_1h_cell`);
- one busy-hour KPI row per cell (`ran_kpi_cell`);
- a cascade of hourly aggregates: sector, node, cluster, locality, municipality, metropolitan
  area, department, regional and the network total.

After each stage a retention delete keeps a fixed number of days. The dashboard adds
classification rules, a per-day busy-hour pick, the narrowing of the map's date window, the
options of its selection drop-down and a few conversions.

Modules, one per file:

- `Common` (`common.dfy`): `Option` and `Result`.
- `Text` (`text.dfy`): the Python string operations the code relies on.
  - `str.upper()`, `str.split()[0]` and `str.startswith`;
  - `str(int)` and `int(str)`;
  - code-point order and `sort_values` on text.
- `Measures` (`measures.dfy`): the 14-counter vector and its column-wise sum.
- `Frames` (`frames.dfy`): the data-frame operations the stages are built from, over sequences
  of rows.
  - boolean filtering;
  - `drop_duplicates`, where the first occurrence wins;
  - the left `merge`;
  - `groupby(...).sum()`, which drops rows without a key;
  - `groupby(...).idxmax()`, which picks the first maximum.
- `Classify` (`classify.dfy`): `area_metro`, `comprobacion_localidad` and the sector bucket. The
  dashboard's `area_metro` and `comprobacion_localidad` (`App/Dashboard_BD.py:54-108`) are the
  same code as the ETL's (`Airflow/Tasks_daily.py:597-607`, `750-785`), so one definition
  serves both.
- `Geo` (`geo.dfy`): the post-fetch transform of `query_geodata`.
- `Cascade` (`cascade.dfy`): the stages `sectores`, `nodos`, `cluster`, `localidad`,
  `municipio`, `am`, `departamento`, `regional` and `total`.
- `Kpi` (`kpi.dfy`): `raw_to_kpi` and `bit_to_GB`.
- `Storage` (`sink.dfy`): the database as a class `Sink` holding a map from table name to
  table.
  - `create_table`, `cargar_archivo_postgresql` and `equilibrar` are methods that update it in
    place;
  - each method is proved against a function over the map.
- `Pipeline` (`pipeline.dfy`): `tablas_agregaciones`. It is a loop over a fixed plan of eleven
  stages that stops at the first one that raises. It is proved against a function `Run`.
- `Clock` (`clock.dfy`): `convert_timestamp` and the `strptime`/`strftime` formats it uses.
- `Dashboard` (`dashboard.dfy`): `to_int`, `bh`, the busy hour of `map_kpi`, its window
  narrowing, `update_date_range`, `extraer_claves` and `update_dropdown`.

Conventions:

- Timestamps are whole seconds, and a date is its day number: `Kpi.Day(ts) = ts / 86400`.
- Counters are exact reals.
- A division by zero, which gives NaN or infinity in the source, is `None`.
- A Python exception is the `Err` or `None` of a `Result` or `Option`.

Three behaviours of the code differ from what the column and function names suggest:

- `raw_to_kpi` groups by cell name only, not by (cell, date) (`Airflow/Tasks_daily.py:473`).
  Two days of one cell in a file give one KPI row (`Kpi.OneRowPerCellAcrossDays`).
- `area_metro` looks up the whole first word exactly, with no prefix matching
  (`Classify.AreaMetroOfLeadingWord`).
- `area_metro` is applied to the composite cell id, not to the base name
  (`Airflow/Tasks_daily.py:818`). A base name without blanks therefore never gets an area
  (`Geo.EntryAreaOfSingleWordName`).

## Model

| member | source | states |
|---|---|---|
| Text.Upper | Airflow/Tasks_daily.py:469 | `str.upper()` keeps the length of the name and yields an upper-case name |
| Text.UpperIdempotent | Airflow/Tasks_daily.py:808 | upper-casing twice is upper-casing once, so both sides of the cell-name join are normalised alike |
| Text.FirstToken | Airflow/Tasks_daily.py:784 | `split()[0]` fails exactly on a blank name and otherwise is a non-empty word without blanks |
| Text.FirstTokenOf | Airflow/Tasks_daily.py:784 | the first token of blanks + word + (nothing or a blank …) is that word |
| Text.ParseIntOfIntToString | App/Dashboard_BD.py:45-52 | `int(str(n)) == n` for every integer |
| Text.NatToStringExtend | Airflow/Tasks_daily.py:600-604 | the decimal text of `m·10^k + r` is the text of `m` followed by `r` on `k` digits |
| Text.SortByCorrect | App/Dashboard_BD.py:417-419 | `sort_values` on text yields a sorted permutation of its input |
| Text.StrLeTotal | App/Dashboard_BD.py:417-419 | Python's string order is total |
| Text.StrLeTrans | App/Dashboard_BD.py:417-419 | Python's string order is transitive |
| Text.StrLeAntisymmetric | App/Dashboard_BD.py:417-419 | Python's string order is antisymmetric |
| Measures.AddComm | Airflow/Tasks_daily.py:543 | the column-wise sum of counter vectors is commutative |
| Measures.AddAssoc | Airflow/Tasks_daily.py:543 | the column-wise sum of counter vectors is associative |
| Frames.Filter | Airflow/Tasks_daily.py:612 | a boolean filter keeps exactly the rows satisfying the predicate |
| Frames.First | Airflow/Tasks_daily.py:540 | a lookup finds a row with the key, or none exactly when no row carries it |
| Frames.DedupBy | Airflow/Tasks_daily.py:814 | `drop_duplicates(subset=key)` keeps only input rows and leaves every key once |
| Frames.DedupByFirst | Airflow/Tasks_daily.py:616 | after `drop_duplicates` a key finds the first row that carried it in the input |
| Frames.Distinct | App/Dashboard_BD.py:421-424 | `drop_duplicates()` keeps the same values, each once |
| Frames.DistinctOfConstant | App/Dashboard_BD.py:421-424 | a non-empty column of one value de-duplicates to that single value |
| Frames.FilterDistinctKeys | Airflow/Tasks_daily.py:664-665 | filtering after de-duplication keeps the keys distinct |
| Frames.FirstFilterDistinct | Airflow/Tasks_daily.py:664-665 | filtering after de-duplication finds a key's row only when that single row passes; no later row stands in |
| Frames.LeftMergeUnique | Airflow/Tasks_daily.py:584 | with unique right keys, a left merge pairs each left row, in order, with its lookup or `None` |
| Frames.MatchesUnique | Airflow/Tasks_daily.py:584 | with unique keys, the rows matching a key are its single lookup or none |
| Frames.GroupBySum | Airflow/Tasks_daily.py:543 | `groupby([Timestamp, key]).sum()`: one row per (timestamp, key) that some keyed row carries, holding the sum of exactly those rows |
| Frames.GroupBySumConserves | Airflow/Tasks_daily.py:564 | at every timestamp the groups add up to all the rows that have a key |
| Frames.FirstMax | Airflow/Tasks_daily.py:473 | `idxmax` of one key is a row of that key holding its maximum, strictly above every earlier row of the key |
| Frames.GroupArgMax | Airflow/Tasks_daily.py:473-474 | `groupby(key).idxmax()`: one first-maximum row per distinct key, every key covered |
| Classify.AreaMetro | Airflow/Tasks_daily.py:750-785 | fails exactly on a blank name; otherwise yields a known metropolitan area or "Sin AM" |
| Classify.AreaMetroOfLeadingWord | Airflow/Tasks_daily.py:784-785 | the area is the dictionary entry of the whole first word, else "Sin AM" |
| Classify.AreaMetroOfUnderscoredWord | Airflow/Tasks_daily.py:750-785 | a name without blanks that contains `_` is always "Sin AM" |
| Classify.LocalityMatchesIff | Airflow/Tasks_daily.py:597-607 | for a positive municipality code, the check passes iff the locality code is that code followed by some block of digits |
| Classify.SentinelNeverMatches | Airflow/Tasks_daily.py:597-612 | the unknown locality code -1 never passes the check against a non-negative municipality code |
| Classify.SentinelMatchesItself | App/Dashboard_BD.py:54-66 | with both codes unknown (-1) the check passes, so the dashboard's locality list (436-446), which has no -1 filter, keeps such a row |
| Classify.SectorBucket | Airflow/Tasks_daily.py:815 | sectors 1..9 fold onto buckets 1..3 by position modulo 3; anything else is bucket 4 |
| Geo.CellId | Airflow/Tasks_daily.py:811-813 | the composite id is node + "_AWS_" + sector for band "B4", else node + "_" + band + "_" + sector |
| Geo.CellIdAliasesAws | Airflow/Tasks_daily.py:811-813 | a "B4" row and an "AWS" row of the same node and sector share a composite id |
| Geo.Entry | Airflow/Tasks_daily.py:808-818 | a derived row: uppercased node name, composite id, bucket, "node: bucket" sector name, an area or "Sin AM" |
| Geo.GeoTransform | Airflow/Tasks_daily.py:806-818 | null names dropped; composite ids distinct; every row derived from a named catalog row |
| Geo.GeoLookupFirst | Airflow/Tasks_daily.py:814 | a composite id finds the row built from the first named catalog row carrying it |
| Geo.GeoLookupAbsent | Airflow/Tasks_daily.py:806-814 | an id no named catalog row produces is absent |
| Geo.EntryAreaFromLeadingWord | Airflow/Tasks_daily.py:818 | a base name with a blank after its first word gets that word's area |
| Geo.EntryAreaOfSingleWordName | Airflow/Tasks_daily.py:818 | a base name without blanks gets "Sin AM", even when it is itself a city code |
| Cascade.SectorKeyedLookup | Airflow/Tasks_daily.py:539-540 | with distinct composite ids every raw row is counted once, under the sector of its uppercased cell name, or under none |
| Cascade.SectorsSum | Airflow/Tasks_daily.py:543 | each sector row is the sum of exactly the raw rows of its hour and sector; the sectors of an hour add up to that hour's rows of known cells |
| Cascade.NodeKeyed | Airflow/Tasks_daily.py:563 | every raw row gets a present key, so the groupby drops none (node names are non-null in the model), and every key is already upper-case |
| Cascade.NodesConserve | Airflow/Tasks_daily.py:564 | the nodes of an hour add up to every raw row of that hour (node names are non-null in the model) |
| Cascade.LevelKeyedLookup | Airflow/Tasks_daily.py:584 | with one table row per node, each node row is keyed by its node's lookup |
| Cascade.ClusterTable | Airflow/Tasks_daily.py:577-578 | the (node, cluster) table has one row per node |
| Cascade.LocalityTable | Airflow/Tasks_daily.py:611-617 | the (node, locality) table has one row per node |
| Cascade.MunicipalityTable | Airflow/Tasks_daily.py:639-641 | the (node, municipality) table has one row per node |
| Cascade.MetroAreaTable | Airflow/Tasks_daily.py:663-665 | the (node, area) table has one row per node |
| Cascade.DepartmentTable | Airflow/Tasks_daily.py:687-689 | the (node, department) table has one row per node |
| Cascade.RegionalTable | Airflow/Tasks_daily.py:711-712 | the (node, regional) table has one row per node |
| Cascade.ClusterLookup | Airflow/Tasks_daily.py:577-584 | a node's cluster is that of its first geo row, unfiltered |
| Cascade.LocalityLookup | Airflow/Tasks_daily.py:612-616 | a node's locality comes from its first geo row with a known code that passes the prefix check |
| Cascade.MunicipalityLookup | Airflow/Tasks_daily.py:640-641 | a node's municipality comes from its first geo row with a known code |
| Cascade.MetroAreaLookup | Airflow/Tasks_daily.py:664-665 | a node's area is that of its first geo row; a node whose first row is "Sin AM" has none, even if a later row has one |
| Cascade.DepartmentLookup | Airflow/Tasks_daily.py:688-689 | a node's department comes from its first geo row with a known code |
| Cascade.RegionalLookup | Airflow/Tasks_daily.py:712 | a node's regional is that of its first geo row, unfiltered |
| Cascade.LevelSum | Airflow/Tasks_daily.py:587 | each level row is the sum of exactly the node rows of its hour mapped to its key; the rows of an hour add up to the matched node rows |
| Cascade.UnmatchedNodeContributesNothing | Airflow/Tasks_daily.py:584-587 | a node with no row in the level's table is counted in no group |
| Cascade.TotalOneRowPerHour | Airflow/Tasks_daily.py:740 | the network total has exactly one row per hour, and an hour has a row iff some node row is dated at it |
| Cascade.TotalSum | Airflow/Tasks_daily.py:740 | the total has, per hour, the sum of all that hour's node rows, hence of all its raw rows (node names are non-null in the model) |
| Kpi.TimeOfDay | Airflow/Tasks_daily.py:476 | `.dt.time` is the offset within the day; day and offset rebuild the timestamp |
| Kpi.BitToGB | Airflow/Tasks_daily.py:455-457 | bits are gigabytes times 8·10^9 |
| Kpi.PrbUsage | Airflow/Tasks_daily.py:481-482 | defined iff the availability is non-zero; usage × availability = 100 × used |
| Kpi.UserExperience | Airflow/Tasks_daily.py:489 | defined iff the time is non-zero; value × time × 1024 = DL bits − last-TTI bits |
| Kpi.Cells | Airflow/Tasks_daily.py:469 | one cell key per raw row, each already upper-case, so upper-casing it again changes nothing |
| Kpi.BusyHours | Airflow/Tasks_daily.py:473-474 | one DL.Avg peak row per uppercased cell, first on ties, every cell covered |
| Kpi.KpiRows | Airflow/Tasks_daily.py:459-518 | one KPI row per uppercased cell name of the file |
| Kpi.KpiRowsSpec | Airflow/Tasks_daily.py:473-518 | every KPI row carries its cell's busy-hour figures, its independent DL.Max peak and hour, and its total and mean traffic in GB |
| Kpi.KpiOfSpec | Airflow/Tasks_daily.py:475-514 | the row built from a busy-hour row has its date, hour, PRB usages, traffic and user experience, plus the max-users and traffic figures of its cell |
| Kpi.Traffic | Airflow/Tasks_daily.py:503-504 | the mean traffic in GB times 8·10^9 times the row count is the total traffic |
| Kpi.OneRowPerCellAcrossDays | Airflow/Tasks_daily.py:473 | rows of one cell on two different days still give one KPI row |
| Storage.TypeOf | Airflow/Tasks_daily.py:80-288 | the type argument names exactly one known table type, or none |
| Storage.CorrectedColumns | Airflow/Tasks_daily.py:82-285 | the intended column list of each type: timestamp, key columns and the fourteen counters, or the KPI columns |
| Storage.DeclaredColumns | Airflow/Tasks_daily.py:196-197 | as written, the list the CREATE reads is unbound for `area_metro` and the intended one otherwise |
| Storage.IndexName | Airflow/Tasks_daily.py:332 | the index name is `idx_<table>_time_name` |
| Storage.IndexColumns | Airflow/Tasks_daily.py:334-348 | index on (Timestamp, Cell_name) for cells, (Timestamp) for the total, (Date, cell_name) for KPIs, and (Timestamp, second column) otherwise |
| Storage.NewTable | Airflow/Tasks_daily.py:310-357 | a new table is empty, with its columns and its index |
| Storage.Provision | Airflow/Tasks_daily.py:80-362 | unknown type: `False`, sink unchanged. Existing table: `True`, unchanged. Missing table: created empty with its index, or raises for unbound `area_metro` |
| Storage.ProvisionIdempotent | Airflow/Tasks_daily.py:310-362 | provisioning twice is provisioning once |
| Storage.ProvisionFrame | Airflow/Tasks_daily.py:310-362 | after a successful provisioning the table exists and no other table changed |
| Storage.Loaded | Airflow/Tasks_daily.py:413-438 | rows are appended, without de-duplication, only when provisioning answered `True`; other tables are untouched |
| Storage.LoadedTwice | Airflow/Tasks_daily.py:413-438 | loading a file twice stores its rows twice |
| Storage.KeptTimestamp | Airflow/Tasks_daily.py:826-833 | a timestamp is dated on or after the cutoff day iff it is not before that day's midnight |
| Storage.RetainedIsFilter | Airflow/Tasks_daily.py:826-833 | the retention delete keeps exactly the rows a boolean filter on the cutoff day keeps, in their order |
| Storage.RetainedCount | Airflow/Tasks_daily.py:822-837 | the delete removes every copy of each row dated before the cutoff and no copy of any other row |
| Storage.RetainedIdempotent | Airflow/Tasks_daily.py:822-837 | a second delete with the same cutoff removes nothing |
| Storage.RetainedAppend | Airflow/Tasks_daily.py:822-837 | the delete treats old and newly appended rows alike |
| Storage.Sink.constructor | Airflow/Tasks_daily.py:840-841 | a sink over given tables |
| Storage.Sink.CreateTable | Airflow/Tasks_daily.py:80-362 | the result and the new table map are those of `Provision` |
| Storage.Sink.LoadFile | Airflow/Tasks_daily.py:413-438 | the result and the new table map are those of `Loaded` |
| Storage.Sink.Balance | Airflow/Tasks_daily.py:822-837 | a missing table raises and changes nothing; otherwise only that table changes, keeping in order exactly the rows dated on or after `today - days` |
| Pipeline.NodeFile | Airflow/Tasks_daily.py:566-568 | the node file the higher levels read is the node aggregate of the last raw file, missing when there is none |
| Pipeline.StageInput | Airflow/Tasks_daily.py:839-876 | the first four stages read one batch per raw file; the others read one batch, or fail without a node file |
| Pipeline.Plan | Airflow/Tasks_daily.py:839-876 | eleven stages in source order with their tables, types and retention days |
| Pipeline.ScheduleTypes | Airflow/Tasks_daily.py:839-876 | every scheduled type is known; only the eighth stage provisions `area_metro`, into `ran_1h_am` |
| Pipeline.LoadAllAppends | Airflow/Tasks_daily.py:440-453 | loading a stage's batches never raises when the table can be provisioned; the table gains every batch in order and no other table changes |
| Pipeline.StageRunSucceeds | Airflow/Tasks_daily.py:843-844 | a runnable stage succeeds; its table holds exactly the old and new rows dated on or after the cutoff, in order; nothing else changes |
| Pipeline.RunSucceeds | Airflow/Tasks_daily.py:839-876 | when every stage can run, the whole run succeeds |
| Pipeline.RunRaisesAtMetroArea | Airflow/Tasks_daily.py:866-867 | with the binding as written and no `ran_1h_am` table, the run raises at the metropolitan-area stage |
| Pipeline.DailyRunOutcome | Airflow/Tasks_daily.py:839-876 | with a raw file, the day succeeds iff `ran_1h_am` exists or the binding is repaired; otherwise it raises `UnboundSchema` |
| Pipeline.HigherLevelsReadLastFile | Airflow/Tasks_daily.py:566-568 | two days whose last raw files agree load the same rows from the cluster stage on |
| Pipeline.RunStage | Airflow/Tasks_daily.py:843-844 | a stage's loop over its batches and its retention delete leave the sink as `StageRun` says |
| Pipeline.RunStages | Airflow/Tasks_daily.py:839-876 | the loop over the stages leaves the sink as `Run` says |
| Pipeline.RunDaily | Airflow/Tasks_daily.py:839-876 | the day's run is `Run` over the plan built from the raw files and the catalog |
| Clock.DaysInMonth | App/Dashboard_BD.py:712-718 | every month has 28 to 31 days |
| Clock.Field | App/Dashboard_BD.py:715 | a numeric field is a run of `lo` to `hi` digits followed by a non-digit or the end |
| Clock.ParseDateTime | App/Dashboard_BD.py:715 | `strptime(s, "%Y-%m-%d %H:%M:%S")` yields only date-times that exist |
| Clock.ParseDate | App/Dashboard_BD.py:1157-1158 | `strptime(s, "%Y-%m-%d")` yields an existing date at midnight |
| Clock.ConvertTimestamp | App/Dashboard_BD.py:712-718 | the full form when it parses, else the text with " 00:00:00" appended |
| Clock.ParseFormatted | App/Dashboard_BD.py:712-718 | every date-time with a four-digit year parses back from its `strftime` text |
| Clock.BareDateNotFull | App/Dashboard_BD.py:712-718 | a bare date does not parse in the full form |
| Clock.ConvertBareDate | App/Dashboard_BD.py:716-718 | a bare date converts to midnight of that date |
| Clock.ParseFormattedDate | App/Dashboard_BD.py:1157-1158 | a date written `%Y-%m-%d` reads back as that date at midnight |
| Dashboard.Truncate | App/Dashboard_BD.py:49 | `int(x)` on a float rounds toward zero |
| Dashboard.ToInt | App/Dashboard_BD.py:45-52 | a NaN becomes 0, as the function exists to do, and an integer is kept; it fails exactly on infinity (OverflowError) and None (TypeError) |
| Dashboard.ToIntOfText | App/Dashboard_BD.py:45-52 | the decimal text of any integer casts to it |
| Dashboard.ToIntOfFloat | App/Dashboard_BD.py:45-52 | a finite float casts to the whole number within 1 of it on the side of zero |
| Dashboard.ToIntOfNonNumericText | App/Dashboard_BD.py:49-52 | text that is not an integer becomes 0 |
| Dashboard.ToIntIdempotent | App/Dashboard_BD.py:45-52 | an integer the cast produced casts to itself |
| Dashboard.DailyPeakOfFirstMax | App/Dashboard_BD.py:641 | the first-maximum row of a date's group is that date's peak |
| Dashboard.DailyPeaksSpec | App/Dashboard_BD.py:639-644 | `bh`: each chosen row is its date's maximum, first on ties; no two share a date; every date has one |
| Dashboard.EntityPeakOfFirstMax | App/Dashboard_BD.py:1208 | the first-maximum row of an (entity, date) group is its peak |
| Dashboard.EntityPeaksSpec | App/Dashboard_BD.py:1206-1209 | the same, per (entity, date) pair |
| Dashboard.DefaultRange | App/Dashboard_BD.py:381-385 | the default window ends yesterday and starts 30 days before |
| Dashboard.SpanLimit | App/Dashboard_BD.py:1162-1177 | 3 days exactly for celda and sector, 7 exactly for EB, 21 exactly for cluster, localidad and municipio, 120 exactly for AM, the misspelled "deparamento" and regional; none for "departamento" as written |
| Dashboard.SpanLimitCorrected | App/Dashboard_BD.py:1175 | with the level spelled right, the same level-by-level limits, and "departamento" joins AM and regional at 120 days |
| Dashboard.Clamp | App/Dashboard_BD.py:1162-1177 | a wider window is cut to the last `limit` days ending at `end`; otherwise it is left alone |
| Dashboard.DepartmentNeverClamped | App/Dashboard_BD.py:1175 | as written, a department window is never narrowed |
| Dashboard.DepartmentClampedCorrected | App/Dashboard_BD.py:1175 | corrected, a department window spans at most 120 days, as for the regional level |
| Dashboard.CorrectionOnlyTouchesDepartment | App/Dashboard_BD.py:1162-1177 | the correction changes no other level |
| Dashboard.DefaultWindowClamped | App/Dashboard_BD.py:381-385 | the default window is cut to 3, 7 or 21 days for the narrow levels and kept for the wide ones |
| Dashboard.ExtractKeys | App/Dashboard_BD.py:1458-1459 | exactly the asked keys present in the dictionary, with their values |
| Dashboard.ExtractKeysIdempotent | App/Dashboard_BD.py:1458-1459 | extracting twice is extracting once |
| Dashboard.ExtractAllKeys | App/Dashboard_BD.py:1458-1459 | asking for every key returns the whole dictionary |
| Dashboard.Shown | App/Dashboard_BD.py:418 | `dropna` keeps exactly the non-null, non-excluded values |
| Dashboard.ShownCount | App/Dashboard_BD.py:418 | each kept value occurs as often as in the column |
| Dashboard.PlainOptionsSpec | App/Dashboard_BD.py:416-473 | plain options: sorted; label = value; exactly the non-null, non-excluded values; once each when de-duplicated, otherwise with their multiplicity |
| Dashboard.CodedOptionsSpec | App/Dashboard_BD.py:436-468 | coded options: sorted by label, distinct codes, each from the first kept row of its code, every kept code offered |
| Dashboard.DropdownOptions | App/Dashboard_BD.py:415-476 | options are unbound exactly for an unknown level; "total" offers the single network choice |
| Dashboard.CellOptionsSpec | App/Dashboard_BD.py:416-419 | cell options keep every non-null name with its repetitions, sorted |
| Dashboard.NamedOptionsSpec | App/Dashboard_BD.py:421-473 | sector, node, cluster and regional options: sorted, each non-null value once |
| Dashboard.LocalityOptionsSpec | App/Dashboard_BD.py:436-446 | locality options: complete rows that pass the prefix check, one per code, from the first such row, sorted by label |
| Dashboard.MunicipalityOptionsSpec | App/Dashboard_BD.py:448-454 | municipality options: one per code, from the first complete row, sorted by label |
| Dashboard.MetroAreaOptionsSpec | App/Dashboard_BD.py:456-460 | area options: sorted, each once, never "Sin AM", exactly the other areas some row names |
| Dashboard.DepartmentOptionsSpec | App/Dashboard_BD.py:462-468 | department options: one per code, from the first complete row, sorted by label |

## Left out

- Airflow/DAG.py is not part of this model. It only wires the tasks and has no logic.
- `descomprimir_archivos`, `borrar_encabezado` and `editar_archivos_csv` are left out. They are zip extraction and in-place CSV rewriting; the model starts from the cleaned rows.
- `cargar_datos_postgresql` is left out: it is never called.
- The database is an in-memory map from table name to table. SQL text, COPY streaming, connections, cursors, commits and the catalog query are left out. The catalog is passed in as rows.
- Temporary CSV files are values passed between stages. The node aggregate that the higher levels read is the node file of the last raw file (`Pipeline.NodeFile`). A `node_temp.csv` left over from an earlier day, when there is no raw file, is modelled as a missing file (`MissingNodeFile`).
- `datetime.now()` and `datetime.today()` are a `today` day-number parameter.
- Floating point is left out: counters are exact reals. NaN and infinity from a zero denominator are `None`. REAL and SMALLINT column widths and rounding are not modelled.
- The order of output rows is left out: groups and arg-maxes come out in first-appearance order, while pandas sorts group keys. Row contents and multiplicities are modelled.
- Storage.Sink.Balance: the DELETE compares the `Date` or `Timestamp` column with a date string. The model compares a record's day number with the cutoff day. It chooses the column by record kind (a KPI record's date, any other record's timestamp), not by the table name, which agrees for the tables the ETL writes.
- Storage.Sink.CreateTable: the `area_metro` failure is a Python name error at the CREATE. It is modelled as the `UnboundSchema` error, with the sink unchanged.
- Kpi.KpiRows: its contract states one row per cell and the figures of each row. It does not state the relative order of the rows; that order is first appearance (see above).
- Clock.ParseDateTime: `strptime` details are not modelled. These are a space-padded or signed field, non-ASCII digits, and the error on a year below 1000 written by `strftime`.
- Dashboard.ToInt: Python's `int()` on text also accepts underscores between digits and non-ASCII digits. The model accepts only ASCII digits with an optional sign and surrounding blanks.
- Dashboard.Clamp: the dashboard narrows `datetime` values after `strptime`. The model works on day numbers (`Clock.ParseDate` models the parse), and `Dashboard.ClampWindow` takes the two dates as day numbers.
- Dashboard.DropdownOptions: a code column read from the database as a float would print as "123.0" in a label. The model prints codes as integers.
- The rest of `map_kpi` is left out, along with the rest of the Dash layer. This covers the mean per entity, the queries, figures, GeoJSON, callbacks and layout.
- The dashboard's own `query_geodata` is left out. Its post-fetch transform is the ETL's (`Geo.GeoTransform`).
- Text.Upper: only ASCII and Latin-1 lower-case letters are mapped. Python's full Unicode mapping is not modelled: `ß` becoming `SS` (which changes the length), `ÿ`, `µ`, Greek and Cyrillic letters. Names that differ only in such letters would join or group differently.
- Cascade.RawRow: the node and cell names of a raw row are assumed non-null. In the source an empty `eNodeB Name` or `Cell Name` field is read as NaN, and the CSV clean-up keeps the row. The groupby then drops it, so it adds to no KPI row (`Airflow/Tasks_daily.py:473`), no sector row (543) and no node row (564). It is therefore missing from every level above the node and from the network total. The conservation lemmas (`Cascade.NodesConserve`, `Cascade.TotalSum`) hold for the rows whose names are present.
- Geo.CatalogRow: every catalog column except the cell name is assumed non-null (unknown codes are -1). With real NULLs the source behaves differently. A NULL `cluster_key` or `wom_regional` drops the row from the cluster or regional groupby. A NULL band or sector puts `None` or `nan` into the composite cell id. A NULL in an integer code column turns that column into floats, so codes print as `11001.0` and `comprobacion_localidad` rejects them.

## Findings

| source | as written | input that shows it | evidently intended | confidence | as-written member | corrected member |
|---|---|---|---|---|---|---|
| Airflow/Tasks_daily.py:196-197 | the `area_metro` branch assigns its columns to `column_am`, so the CREATE at 315-322 reads an unbound `column_definitions` | a run with a raw file and no `ran_1h_am` table | the branch binds `column_definitions` like every other type | high (not executed) | Storage.MetroAreaCreateRaises | Storage.CorrectedCreateSucceeds |
| App/Dashboard_BD.py:1175 | the wide-level list spells `'deparamento'`, so the department level is never narrowed | agg "departamento", start day 0, end day 365 | "departamento" gets the 120-day limit of the other wide levels | high (not executed) | Dashboard.DepartmentNeverClamped | Dashboard.DepartmentClampedCorrected |
