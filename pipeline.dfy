/**
 * `tablas_agregaciones`: the daily sequence of stages, each appending its files' output to one
 * table and then applying that table's retention delete, in a fixed order, stopping at the first
 * step that raises.
 */
module Pipeline {
  import opened Common
  import opened Frames
  import opened Geo
  import opened Cascade
  import opened Kpi
  import opened Storage
  import Text

  // ---------------------------------------------------------------- stored forms of stage outputs

  function CellRecords(raw: seq<RawRow>): seq<Record> {
    seq(|raw|, i requires 0 <= i < |raw| => CellRecord(raw[i]))
  }

  function KpiRecords(rows: seq<KpiRow>): seq<Record> {
    seq(|rows|, i requires 0 <= i < |rows| => KpiRecord(rows[i]))
  }

  function NamedRecords(gs: seq<Group<string>>): seq<Record> {
    seq(|gs|, i requires 0 <= i < |gs| => NamedRecord(gs[i].timestamp, gs[i].key, gs[i].m))
  }

  function CodedRecords(gs: seq<Group<int>>): seq<Record> {
    seq(|gs|, i requires 0 <= i < |gs| => CodedRecord(gs[i].timestamp, gs[i].key, gs[i].m))
  }

  function TotalRecords(gs: seq<Group<()>>): seq<Record> {
    seq(|gs|, i requires 0 <= i < |gs| => TotalRecord(gs[i].timestamp, gs[i].m))
  }

  // ---------------------------------------------------------------- the plan

  /**
   * One stage: the table it writes, the type it provisions, the days it retains, and the row
   * batches it loads one after another, or the error reading its input raises.
   */
  datatype Stage = Stage(table: string, typeName: string, days: int, input: Result<seq<seq<Record>>, SinkError>)

  /**
   * The node aggregate the higher levels read: the single node file, rewritten for every raw file,
   * so that of the last one; missing when there was no raw file.
   */
  function NodeFile(files: seq<seq<RawRow>>): (r: Result<seq<NodeRow>, SinkError>)
    ensures r.Err? <==> files == []
    ensures r.Ok? ==> r.value == Nodes(files[|files| - 1])
  {
    if files == [] then Err(MissingNodeFile) else Ok(Nodes(files[|files| - 1]))
  }

  /** The table, the type and the retention days of each stage, in source order. */
  const Schedule: seq<(string, string, int)> := [
    ("ran_1h_cell", "celda", 100),
    ("ran_kpi_cell", "kpi", 6840),
    ("ran_1h_sector", "sector", 210),
    ("ran_1h_node", "nodo", 617),
    ("ran_1h_cluster", "cluster", 5163),
    ("ran_1h_localidad", "localidad", 6840),
    ("ran_1h_municipio", "municipio", 6840),
    ("ran_1h_am", "area_metro", 6840),
    ("ran_1h_departamento", "departamento", 6840),
    ("ran_1h_regional", "regional", 6840),
    ("ran_1h_total", "total", 6840)]

  /** What the stage at position `stage` (below 4) loads for one raw file. */
  function RawBatch(stage: nat, raw: seq<RawRow>, geo: seq<GeoEntry>): seq<Record> {
    if stage == 0 then CellRecords(raw)
    else if stage == 1 then KpiRecords(KpiRows(raw))
    else if stage == 2 then NamedRecords(Sectors(raw, geo))
    else NamedRecords(Nodes(raw))
  }

  /** What the stage at position `4 + level` loads from the node aggregate. */
  function LevelBatch(level: nat, nodes: seq<NodeRow>, geo: seq<GeoEntry>): seq<Record> {
    if level == 0 then NamedRecords(Clusters(nodes, geo))
    else if level == 1 then CodedRecords(Localities(nodes, geo))
    else if level == 2 then CodedRecords(Municipalities(nodes, geo))
    else if level == 3 then NamedRecords(MetroAreas(nodes, geo))
    else if level == 4 then CodedRecords(Departments(nodes, geo))
    else if level == 5 then NamedRecords(Regionals(nodes, geo))
    else TotalRecords(Total(nodes))
  }

  /**
   * The input of the stage at position `stage`: the first four stages read every raw file, one
   * batch each; the others read the node aggregate, one batch, or raise when it is missing.
   */
  function StageInput(stage: nat, files: seq<seq<RawRow>>, geo: seq<GeoEntry>): (r: Result<seq<seq<Record>>, SinkError>)
    ensures r.Ok? <==> stage < 4 || files != []
    ensures r.Ok? ==> |r.value| == (if stage < 4 then |files| else 1)
  {
    if stage < 4 then Ok(seq(|files|, j requires 0 <= j < |files| => RawBatch(stage, files[j], geo)))
    else
      match NodeFile(files)
      case Err(e) => Err(e)
      case Ok(nodes) => Ok([LevelBatch(stage - 4, nodes, geo)])
  }

  /** The stages of the day in source order, over the geographic table derived from the catalog. */
  function Plan(files: seq<seq<RawRow>>, catalog: seq<CatalogRow>): (p: seq<Stage>)
    ensures |p| == 11
    ensures forall i :: 0 <= i < 11 ==>
      p[i] == Stage(Schedule[i].0, Schedule[i].1, Schedule[i].2, StageInput(i, files, GeoTransform(catalog)))
  {
    var geo := GeoTransform(catalog);
    seq(11, i requires 0 <= i < 11 => Stage(Schedule[i].0, Schedule[i].1, Schedule[i].2, StageInput(i, files, geo)))
  }

  // ---------------------------------------------------------------- running the plan

  /** Load the batches one after another, stopping at the first load that raises. */
  function LoadAll(tables: map<string, Table>, name: string, typeName: string, batches: seq<seq<Record>>, repaired: bool)
    : (r: (Result<(), SinkError>, map<string, Table>))
    decreases |batches|
  {
    if batches == [] then (Ok(()), tables)
    else
      var (ok, next) := Loaded(tables, name, typeName, batches[0], repaired);
      if ok.Err? then (Err(ok.error), next)
      else LoadAll(next, name, typeName, batches[1..], repaired)
  }

  /** One stage: read its input, load its batches, then apply its retention delete. */
  function StageRun(tables: map<string, Table>, st: Stage, today: int, repaired: bool)
    : (r: (Result<(), SinkError>, map<string, Table>))
  {
    match st.input
    case Err(e) => (Err(e), tables)
    case Ok(batches) =>
      var (ok, next) := LoadAll(tables, st.table, st.typeName, batches, repaired);
      if ok.Err? then (ok, next)
      else if st.table !in next then (Err(UndefinedTable), next)
      else (Ok(()), next[st.table := next[st.table].(rows := Retained(next[st.table].rows, today - st.days))])
  }

  /** The stages in order, stopping at the first that raises. */
  function Run(tables: map<string, Table>, stages: seq<Stage>, today: int, repaired: bool)
    : (r: (Result<(), SinkError>, map<string, Table>))
    decreases |stages|
  {
    if stages == [] then (Ok(()), tables)
    else
      var (ok, next) := StageRun(tables, stages[0], today, repaired);
      if ok.Err? then (ok, next)
      else Run(next, stages[1..], today, repaired)
  }

  /** A stage's loop over its batches, then its `equilibrar` call. */
  method RunStage(sink: Sink, st: Stage, today: int) returns (r: Result<(), SinkError>)
    modifies sink
    ensures (r, sink.tables) == StageRun(old(sink.tables), st, today, sink.repaired)
  {
    if st.input.Err? {
      return Err(st.input.error);
    }
    var batches := st.input.value;
    var i := 0;
    while i < |batches|
      invariant 0 <= i <= |batches|
      invariant LoadAll(sink.tables, st.table, st.typeName, batches[i..], sink.repaired)
             == LoadAll(old(sink.tables), st.table, st.typeName, batches, sink.repaired)
    {
      assert batches[i..][0] == batches[i] && batches[i..][1..] == batches[i + 1..];
      var loaded := sink.LoadFile(st.table, st.typeName, batches[i]);
      if loaded.Err? {
        return Err(loaded.error);
      }
      i := i + 1;
    }
    r := sink.Balance(st.table, st.days, today);
  }

  /** Run the stages in order until one raises. */
  method RunStages(sink: Sink, stages: seq<Stage>, today: int) returns (r: Result<(), SinkError>)
    modifies sink
    ensures (r, sink.tables) == Run(old(sink.tables), stages, today, sink.repaired)
  {
    var i := 0;
    while i < |stages|
      invariant 0 <= i <= |stages|
      invariant Run(sink.tables, stages[i..], today, sink.repaired)
             == Run(old(sink.tables), stages, today, sink.repaired)
    {
      assert stages[i..][0] == stages[i] && stages[i..][1..] == stages[i + 1..];
      var ok := RunStage(sink, stages[i], today);
      if ok.Err? {
        return ok;
      }
      i := i + 1;
    }
    return Ok(());
  }

  /** `tablas_agregaciones`: the day's stages over the raw files and the fetched catalog. */
  method RunDaily(sink: Sink, files: seq<seq<RawRow>>, catalog: seq<CatalogRow>, today: int)
    returns (r: Result<(), SinkError>)
    modifies sink
    ensures (r, sink.tables) == Run(old(sink.tables), Plan(files, catalog), today, sink.repaired)
  {
    r := RunStages(sink, Plan(files, catalog), today);
  }

  // ---------------------------------------------------------------- what a day's run does

  /** The batches of a stage, one after another. */
  function Flatten(batches: seq<seq<Record>>): seq<Record> {
    if batches == [] then [] else batches[0] + Flatten(batches[1..])
  }

  /** The rows a table holds before a stage, or none when it does not exist yet. */
  function Prior(tables: map<string, Table>, name: string): seq<Record> {
    if name in tables then tables[name].rows else []
  }

  /**
   * Loading the batches of a known type, when its table can be provisioned, never raises: the
   * table then holds its old rows followed by every batch in order, and no other table changes.
   */
  lemma {:induction false} LoadAllAppends(tables: map<string, Table>, name: string, typeName: string,
                                          batches: seq<seq<Record>>, repaired: bool)
    requires TypeOf(typeName).Some?
    requires typeName == "area_metro" && !repaired && batches != [] ==> name in tables
    ensures LoadAll(tables, name, typeName, batches, repaired).0 == Ok(())
    ensures LoadAll(tables, name, typeName, batches, repaired).1.Keys
         == tables.Keys + (if batches == [] then {} else {name})
    ensures batches != [] ==>
      LoadAll(tables, name, typeName, batches, repaired).1[name].rows == Prior(tables, name) + Flatten(batches)
    ensures forall n :: n in tables && n != name ==> LoadAll(tables, name, typeName, batches, repaired).1[n] == tables[n]
    decreases |batches|
  {
    if batches != [] {
      var step := Loaded(tables, name, typeName, batches[0], repaired);
      var next, rest := step.1, batches[1..];
      assert step.0 == Ok(true);
      assert LoadAll(tables, name, typeName, batches, repaired) == LoadAll(next, name, typeName, rest, repaired);
      LoadAllAppends(next, name, typeName, rest, repaired);
      assert Prior(next, name) == Prior(tables, name) + batches[0];
      assert Flatten(batches) == batches[0] + Flatten(rest);
      Text.AppendAssoc(Prior(tables, name), batches[0], Flatten(rest));
    }
  }

  /** A stage that can run: its input was read, it has a batch, and its table can be provisioned. */
  predicate Fit(st: Stage, repaired: bool, metroTablePresent: bool) {
    st.input.Ok? && st.input.value != [] && TypeOf(st.typeName).Some? &&
    (st.typeName == "area_metro" ==> st.table == "ran_1h_am") &&
    (st.typeName == "area_metro" && !repaired ==> metroTablePresent)
  }

  /**
   * A stage that can run succeeds, creating at most its own table; the table then holds, of its
   * old rows and of the stage's rows in order, exactly those dated on or after the cutoff day.
   */
  lemma StageRunSucceeds(tables: map<string, Table>, st: Stage, today: int, repaired: bool)
    requires Fit(st, repaired, "ran_1h_am" in tables)
    ensures StageRun(tables, st, today, repaired).0 == Ok(())
    ensures StageRun(tables, st, today, repaired).1.Keys == tables.Keys + {st.table}
    ensures StageRun(tables, st, today, repaired).1[st.table].rows
         == Retained(Prior(tables, st.table), today - st.days) + Retained(Flatten(st.input.value), today - st.days)
    ensures forall n :: n in tables && n != st.table ==> StageRun(tables, st, today, repaired).1[n] == tables[n]
  {
    FitLoads(tables, st, repaired);
    StageRunOfLoaded(tables, st, today, repaired);
  }

  /** The loads of a stage that can run succeed and append its batches to its table. */
  lemma FitLoads(tables: map<string, Table>, st: Stage, repaired: bool)
    requires Fit(st, repaired, "ran_1h_am" in tables)
    ensures var r := LoadAll(tables, st.table, st.typeName, st.input.value, repaired);
      r.0 == Ok(()) && r.1.Keys == tables.Keys + {st.table} &&
      r.1[st.table].rows == Prior(tables, st.table) + Flatten(st.input.value) &&
      forall n :: n in tables && n != st.table ==> r.1[n] == tables[n]
  {
    assert st.typeName == "area_metro" && !repaired ==> st.table in tables;
    LoadAllAppends(tables, st.table, st.typeName, st.input.value, repaired);
  }

  /** A stage whose loads append its batches to its table ends with that table's retention delete. */
  lemma StageRunOfLoaded(tables: map<string, Table>, st: Stage, today: int, repaired: bool)
    requires st.input.Ok?
    requires var r := LoadAll(tables, st.table, st.typeName, st.input.value, repaired);
      r.0 == Ok(()) && r.1.Keys == tables.Keys + {st.table} &&
      r.1[st.table].rows == Prior(tables, st.table) + Flatten(st.input.value) &&
      forall n :: n in tables && n != st.table ==> r.1[n] == tables[n]
    ensures StageRun(tables, st, today, repaired).0 == Ok(())
    ensures StageRun(tables, st, today, repaired).1.Keys == tables.Keys + {st.table}
    ensures StageRun(tables, st, today, repaired).1[st.table].rows
         == Retained(Prior(tables, st.table), today - st.days) + Retained(Flatten(st.input.value), today - st.days)
    ensures forall n :: n in tables && n != st.table ==> StageRun(tables, st, today, repaired).1[n] == tables[n]
  {
    var cutoff := today - st.days;
    var loaded := LoadAll(tables, st.table, st.typeName, st.input.value, repaired).1;
    var after := loaded[st.table := loaded[st.table].(rows := Retained(loaded[st.table].rows, cutoff))];
    assert StageRun(tables, st, today, repaired) == (Ok(()), after);
    ReplaceRows(tables, loaded, st.table, Retained(loaded[st.table].rows, cutoff));
    RetainedAppend(Prior(tables, st.table), Flatten(st.input.value), cutoff);
  }

  /** Replacing the rows of the one table a step added to or created leaves the other tables as before. */
  lemma ReplaceRows(tables: map<string, Table>, loaded: map<string, Table>, name: string, rows: seq<Record>)
    requires loaded.Keys == tables.Keys + {name}
    requires forall n :: n in tables && n != name ==> loaded[n] == tables[n]
    ensures var after := loaded[name := loaded[name].(rows := rows)];
      after.Keys == tables.Keys + {name} && after[name].rows == rows &&
      forall n :: n in tables && n != name ==> after[n] == tables[n]
  {
  }

  /** When every stage can run, so can the whole sequence. */
  lemma {:induction false} RunSucceeds(tables: map<string, Table>, stages: seq<Stage>, today: int, repaired: bool)
    requires forall i :: 0 <= i < |stages| ==> Fit(stages[i], repaired, "ran_1h_am" in tables)
    ensures Run(tables, stages, today, repaired).0 == Ok(())
    decreases |stages|
  {
    if stages != [] {
      StageRunSucceeds(tables, stages[0], today, repaired);
      var next := StageRun(tables, stages[0], today, repaired).1;
      assert forall i :: 0 <= i < |stages[1..]| ==> Fit(stages[1..][i], repaired, "ran_1h_am" in next) by {
        forall i | 0 <= i < |stages[1..]|
          ensures Fit(stages[1..][i], repaired, "ran_1h_am" in next)
        {
          assert stages[1..][i] == stages[i + 1];
        }
      }
      RunSucceeds(next, stages[1..], today, repaired);
    }
  }

  /**
   * Without the repaired binding and without an existing metropolitan-area table, a sequence in
   * which stage `k` is the metropolitan-area stage, and every earlier stage can run and writes
   * another table, raises.
   */
  lemma {:induction false} RunRaisesAtMetroArea(tables: map<string, Table>, stages: seq<Stage>, today: int, k: nat)
    requires "ran_1h_am" !in tables && k < |stages|
    requires stages[k].typeName == "area_metro" && stages[k].table == "ran_1h_am"
    requires stages[k].input.Ok? && stages[k].input.value != []
    requires forall i :: 0 <= i < k ==> Fit(stages[i], false, false) && stages[i].table != "ran_1h_am"
    ensures Run(tables, stages, today, false).0 == Err(UnboundSchema)
    decreases k
  {
    if k == 0 {
      MetroStageRaises(tables, stages[0], today);
    } else {
      StageRunSucceeds(tables, stages[0], today, false);
      var next := StageRun(tables, stages[0], today, false).1;
      assert Run(tables, stages, today, false) == Run(next, stages[1..], today, false);
      assert "ran_1h_am" !in next;
      forall i | 0 <= i < k - 1
        ensures Fit(stages[1..][i], false, false) && stages[1..][i].table != "ran_1h_am"
      {
        assert stages[1..][i] == stages[i + 1];
      }
      RunRaisesAtMetroArea(next, stages[1..], today, k - 1);
    }
  }

  /** The metropolitan-area stage raises on its first load when its table does not exist yet. */
  lemma MetroStageRaises(tables: map<string, Table>, st: Stage, today: int)
    requires "ran_1h_am" !in tables
    requires st.typeName == "area_metro" && st.table == "ran_1h_am"
    requires st.input.Ok? && st.input.value != []
    ensures StageRun(tables, st, today, false).0 == Err(UnboundSchema)
  {
    var batches := st.input.value;
    assert Loaded(tables, st.table, st.typeName, batches[0], false).0 == Err(UnboundSchema);
    assert LoadAll(tables, st.table, st.typeName, batches, false).0 == Err(UnboundSchema);
  }

  /** Every scheduled type is known, and only the metropolitan-area stage provisions `area_metro`, into its own table. */
  lemma ScheduleTypes()
    ensures forall i :: 0 <= i < 11 ==> TypeOf(Schedule[i].1).Some?
    ensures forall i :: 0 <= i < 11 && Schedule[i].1 == "area_metro" ==> i == 7
    ensures Schedule[7].1 == "area_metro" && Schedule[7].0 == "ran_1h_am"
    ensures forall i :: 0 <= i < 7 ==> Schedule[i].0 != "ran_1h_am"
  {
    forall i | 0 <= i < 11
      ensures TypeOf(Schedule[i].1) == Some(TableTypes[i])
    {
    }
    forall i | 0 <= i < 11 && Schedule[i].1 == "area_metro"
      ensures i == 7
    {
      assert TypeOf(Schedule[i].1) == Some(TableTypes[i]);
    }
    forall i | 0 <= i < 7
      ensures Schedule[i].0 != "ran_1h_am"
    {
      assert Schedule[i].0[7] != 'a' || |Schedule[i].0| != 9;
    }
  }

  /** The table type of each scheduled stage. */
  const TableTypes: seq<TableType> := [
    CellType, KpiType, SectorType, NodeType, ClusterType, LocalityType, MunicipalityType,
    MetroAreaType, DepartmentType, RegionalType, TotalType]

  /**
   * With at least one raw file, the day's run succeeds exactly when the metropolitan-area table
   * already exists or its column list is bound; otherwise it raises on creating that table, and
   * the department, regional and total stages never run.
   */
  lemma DailyRunOutcome(tables: map<string, Table>, files: seq<seq<RawRow>>, catalog: seq<CatalogRow>,
                        today: int, repaired: bool)
    requires files != []
    ensures Run(tables, Plan(files, catalog), today, repaired).0.Ok? <==> repaired || "ran_1h_am" in tables
    ensures !repaired && "ran_1h_am" !in tables ==>
      Run(tables, Plan(files, catalog), today, repaired).0 == Err(UnboundSchema)
  {
    var p := Plan(files, catalog);
    if repaired || "ran_1h_am" in tables {
      PlanFits(files, catalog, repaired, "ran_1h_am" in tables);
      RunSucceeds(tables, p, today, repaired);
    } else {
      PlanReachesMetroArea(files, catalog);
      RunRaisesAtMetroArea(tables, p, today, 7);
    }
  }

  /** With a raw file, every stage of the plan can run once the metropolitan-area table can be had. */
  lemma PlanFits(files: seq<seq<RawRow>>, catalog: seq<CatalogRow>, repaired: bool, metroTablePresent: bool)
    requires files != [] && (repaired || metroTablePresent)
    ensures forall i :: 0 <= i < |Plan(files, catalog)| ==> Fit(Plan(files, catalog)[i], repaired, metroTablePresent)
  {
    ScheduleTypes();
  }

  /** With a raw file, the eighth stage is the metropolitan-area stage and the seven before it can run. */
  lemma PlanReachesMetroArea(files: seq<seq<RawRow>>, catalog: seq<CatalogRow>)
    requires files != []
    ensures var p := Plan(files, catalog);
      p[7].typeName == "area_metro" && p[7].table == "ran_1h_am" && p[7].input.Ok? && p[7].input.value != [] &&
      forall i :: 0 <= i < 7 ==> Fit(p[i], false, false) && p[i].table != "ran_1h_am"
  {
    ScheduleTypes();
  }

  /**
   * The levels above the node stage read only the node aggregate of the last raw file: two days
   * whose last files agree load the same rows from the cluster stage on.
   */
  lemma HigherLevelsReadLastFile(files1: seq<seq<RawRow>>, files2: seq<seq<RawRow>>, catalog: seq<CatalogRow>)
    requires files1 != [] && files2 != [] && files1[|files1| - 1] == files2[|files2| - 1]
    ensures Plan(files1, catalog)[4..] == Plan(files2, catalog)[4..]
  {
    assert NodeFile(files1) == NodeFile(files2);
  }
}
