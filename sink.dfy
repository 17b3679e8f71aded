/**
 * The database side of the ETL: table provisioning (`create_table`), appending a stage's output
 * (`cargar_archivo_postgresql`) and the retention delete (`equilibrar`), over a sink that maps
 * table names to their schema and rows.
 */
module Storage {
  import opened Common
  import opened Text
  import opened Measures
  import opened Cascade
  import opened Kpi
  import Frames

  /** The table types `create_table` knows. */
  datatype TableType =
    | CellType | SectorType | NodeType | ClusterType | LocalityType | MunicipalityType
    | MetroAreaType | DepartmentType | RegionalType | TotalType | KpiType

  /** The type argument spelling of each table type. */
  function TypeName(t: TableType): string {
    match t
    case CellType => "celda"
    case SectorType => "sector"
    case NodeType => "nodo"
    case ClusterType => "cluster"
    case LocalityType => "localidad"
    case MunicipalityType => "municipio"
    case MetroAreaType => "area_metro"
    case DepartmentType => "departamento"
    case RegionalType => "regional"
    case TotalType => "total"
    case KpiType => "kpi"
  }

  /** The table type a type argument names; `None` for a name `create_table` rejects. */
  function TypeOf(s: string): (r: Option<TableType>)
    ensures r.Some? ==> TypeName(r.value) == s
    ensures forall t :: TypeName(t) == s ==> r == Some(t)
  {
    if s == "celda" then Some(CellType)
    else if s == "sector" then Some(SectorType)
    else if s == "nodo" then Some(NodeType)
    else if s == "cluster" then Some(ClusterType)
    else if s == "localidad" then Some(LocalityType)
    else if s == "municipio" then Some(MunicipalityType)
    else if s == "area_metro" then Some(MetroAreaType)
    else if s == "departamento" then Some(DepartmentType)
    else if s == "regional" then Some(RegionalType)
    else if s == "total" then Some(TotalType)
    else if s == "kpi" then Some(KpiType)
    else None
  }

  /** The columns of `ran_kpi_cell`, in table order. */
  const KpiColumns: seq<string> := [
    "Date", "BH", "cell_name", "avg_users_BH", "daily_max_users", "max_users_hour",
    "PRBusage_BH_DL", "PRBusage_BH_UL", "traffic_bh(GB)", "traffic_avg(GB)", "traffic_total(GB)",
    "uexp_BH(Mbps)"]

  /** The key column an aggregate table carries after its timestamp. */
  function KeyColumn(t: TableType): string
    requires t !in {CellType, TotalType, KpiType}
  {
    match t
    case SectorType => "sector_name"
    case NodeType => "node_name"
    case ClusterType => "cluster_name"
    case LocalityType => "localidad_dane_code"
    case MunicipalityType => "municipio_dane_code"
    case MetroAreaType => "am_name"
    case DepartmentType => "dpto_dane_code"
    case RegionalType => "regional_name"
  }

  /**
   * The column list every branch of `create_table` means to declare: the timestamp, the key
   * columns of the type and the fourteen counters, or the twelve KPI columns.
   */
  function CorrectedColumns(t: TableType): (r: seq<string>)
    ensures t == CellType ==> r == ["Timestamp", "Node_name", "Cell_name"] + Names
    ensures t == TotalType ==> r == ["Timestamp"] + Names
    ensures t == KpiType ==> r == KpiColumns
    ensures t !in {CellType, TotalType, KpiType} ==> r == ["Timestamp", KeyColumn(t)] + Names
  {
    match t
    case CellType => ["Timestamp", "Node_name", "Cell_name"] + Names
    case TotalType => ["Timestamp"] + Names
    case KpiType => KpiColumns
    case _ => ["Timestamp", KeyColumn(t)] + Names
  }

  /**
   * The column list as `create_table` binds it: the `area_metro` branch assigns its list to a
   * different variable, so the list the CREATE statement reads is unbound for that type.
   */
  function DeclaredColumns(t: TableType): (r: Option<seq<string>>)
    ensures r.None? <==> t == MetroAreaType
    ensures r.Some? ==> r.value == CorrectedColumns(t)
  {
    if t == MetroAreaType then None else Some(CorrectedColumns(t))
  }

  /** The column list a sink uses: the declared one, or the corrected one once the binding is repaired. */
  function Schema(t: TableType, repaired: bool): (r: Option<seq<string>>)
    ensures repaired ==> r == Some(CorrectedColumns(t))
    ensures !repaired ==> r == DeclaredColumns(t)
  {
    if repaired then Some(CorrectedColumns(t)) else DeclaredColumns(t)
  }

  /** The name of the composite index of a new table. */
  function IndexName(table: string): (r: string)
    ensures |r| == |table| + 14 && StartsWith(r, "idx_")
    ensures r[4..|r| - 10] == table && r[|r| - 10..] == "_time_name"
  {
    var r := "idx_" + table + "_time_name";
    assert r[..4] == "idx_";
    r
  }

  /**
   * The indexed columns of a new table: timestamp and cell name for cells, timestamp alone for
   * the total, date and cell name for KPIs, and otherwise the timestamp and the second column.
   */
  function IndexColumns(t: TableType): (r: seq<string>)
    ensures forall c :: c in r ==> c in CorrectedColumns(t)
    ensures t == CellType ==> r == ["Timestamp", "Cell_name"]
    ensures t == TotalType ==> r == ["Timestamp"]
    ensures t == KpiType ==> r == ["Date", "cell_name"]
    ensures t !in {CellType, TotalType, KpiType} ==> r == ["Timestamp", CorrectedColumns(t)[1]]
  {
    match t
    case CellType => ["Timestamp", "Cell_name"]
    case TotalType => ["Timestamp"]
    case KpiType => ["Date", "cell_name"]
    case _ => ["Timestamp", CorrectedColumns(t)[1]]
  }

  /** One stored row of some table. */
  datatype Record =
    | CellRecord(raw: RawRow)                                // ran_1h_cell
    | KpiRecord(kpi: KpiRow)                                 // ran_kpi_cell
    | NamedRecord(timestamp: int, name: string, m: Vector)   // sector, node, cluster, AM, regional
    | CodedRecord(timestamp: int, code: int, m: Vector)      // locality, municipality, department
    | TotalRecord(timestamp: int, m: Vector)                 // ran_1h_total

  /** A stored table: its columns, its index and its rows in insertion order. */
  datatype Table = Table(columns: seq<string>, indexName: string, indexColumns: seq<string>, rows: seq<Record>)

  /** What a step can raise. */
  datatype SinkError =
    | UnboundSchema     // the unbound column list read by the CREATE of a new `area_metro` table
    | UndefinedTable    // a DELETE on a table that was never created
    | MissingNodeFile   // a higher level reading a node aggregate no file produced

  /** A freshly created, empty table of a given type. */
  function NewTable(name: string, t: TableType): (r: Table)
    ensures r.columns == CorrectedColumns(t) && r.rows == []
    ensures r.indexName == IndexName(name) && r.indexColumns == IndexColumns(t)
  {
    Table(CorrectedColumns(t), IndexName(name), IndexColumns(t), [])
  }

  /**
   * `create_table` on a sink: an unknown type gives `Ok(false)` and touches nothing; an existing
   * table gives `Ok(true)` and is left as it is; a missing table is created empty with its index,
   * unless its column list is unbound, which raises.
   */
  function Provision(tables: map<string, Table>, name: string, typeName: string, repaired: bool)
    : (r: (Result<bool, SinkError>, map<string, Table>))
    ensures TypeOf(typeName).None? ==> r == (Ok(false), tables)
    ensures TypeOf(typeName).Some? && name in tables ==> r == (Ok(true), tables)
    ensures r.0.Err? <==> typeName == "area_metro" && name !in tables && !repaired
    ensures r.0.Err? ==> r.1 == tables
    ensures r.0.Ok? && name !in tables && TypeOf(typeName).Some? ==>
      r == (Ok(true), tables[name := NewTable(name, TypeOf(typeName).value)])
  {
    match TypeOf(typeName)
    case None => (Ok(false), tables)
    case Some(t) =>
      if name in tables then (Ok(true), tables)
      else if Schema(t, repaired).None? then (Err(UnboundSchema), tables)
      else (Ok(true), tables[name := NewTable(name, t)])
  }

  /** Provisioning twice is provisioning once. */
  lemma ProvisionIdempotent(tables: map<string, Table>, name: string, typeName: string, repaired: bool)
    requires Provision(tables, name, typeName, repaired).0.Ok?
    ensures Provision(Provision(tables, name, typeName, repaired).1, name, typeName, repaired)
         == (Provision(tables, name, typeName, repaired).0, Provision(tables, name, typeName, repaired).1)
  {
  }

  /** After a successful provisioning of a known type, the table exists and no other table changed. */
  lemma ProvisionFrame(tables: map<string, Table>, name: string, typeName: string, repaired: bool)
    requires Provision(tables, name, typeName, repaired).0 == Ok(true)
    ensures name in Provision(tables, name, typeName, repaired).1
    ensures forall n :: n in tables ==>
      (n in Provision(tables, name, typeName, repaired).1 && Provision(tables, name, typeName, repaired).1[n] == tables[n])
  {
  }

  /** Creating a missing metropolitan-area table raises, as written. */
  lemma MetroAreaCreateRaises(tables: map<string, Table>, name: string)
    requires name !in tables
    ensures Provision(tables, name, "area_metro", false) == (Err(UnboundSchema), tables)
  {
  }

  /** With the binding repaired, every known type can be provisioned. */
  lemma CorrectedCreateSucceeds(tables: map<string, Table>, name: string, t: TableType)
    ensures Provision(tables, name, TypeName(t), true).0 == Ok(true)
    ensures name !in tables ==> Provision(tables, name, TypeName(t), true).1[name] == NewTable(name, t)
  {
  }

  /**
   * `cargar_archivo_postgresql`: provision the table, then append every row of the file when
   * provisioning answered `Ok(true)`; nothing is deduplicated.
   */
  function Loaded(tables: map<string, Table>, name: string, typeName: string, rows: seq<Record>, repaired: bool)
    : (r: (Result<bool, SinkError>, map<string, Table>))
    ensures r.0 == Provision(tables, name, typeName, repaired).0
    ensures r.0 != Ok(true) ==> r.1 == tables
    ensures r.0 == Ok(true) ==>
      (name in r.1 && r.1[name].rows == (if name in tables then tables[name].rows else []) + rows)
    ensures r.0 == Ok(true) ==> r.1.Keys == tables.Keys + {name}
    ensures forall n :: n in tables && n != name ==> n in r.1 && r.1[n] == tables[n]
  {
    var (ok, provisioned) := Provision(tables, name, typeName, repaired);
    if ok == Ok(true) then
      (ok, provisioned[name := provisioned[name].(rows := provisioned[name].rows + rows)])
    else (ok, tables)
  }

  /** Loading the same file twice stores its rows twice. */
  lemma LoadedTwice(tables: map<string, Table>, name: string, typeName: string, rows: seq<Record>, repaired: bool)
    requires Loaded(tables, name, typeName, rows, repaired).0 == Ok(true)
    ensures var once := Loaded(tables, name, typeName, rows, repaired).1;
      var twice := Loaded(once, name, typeName, rows, repaired);
      twice.0 == Ok(true) && twice.1[name].rows == once[name].rows + rows
  {
  }

  /** The calendar day a stored row is dated by: the KPI date, or the day of its timestamp. */
  function RecordDay(x: Record): int {
    match x
    case CellRecord(raw) => Day(raw.timestamp)
    case KpiRecord(kpi) => kpi.date
    case NamedRecord(ts, _, _) => Day(ts)
    case CodedRecord(ts, _, _) => Day(ts)
    case TotalRecord(ts, _) => Day(ts)
  }

  /** A row survives the retention delete when its day is not before the cutoff day. */
  predicate Kept(x: Record, cutoff: int) {
    RecordDay(x) >= cutoff
  }

  /** A timestamp is dated on or after a day exactly when it is not before that day's midnight. */
  lemma KeptTimestamp(ts: int, cutoff: int)
    ensures Day(ts) >= cutoff <==> ts >= cutoff * SecondsPerDay
  {
    var s := TimeOfDay(ts);
    if Day(ts) >= cutoff {
      assert Day(ts) * SecondsPerDay >= cutoff * SecondsPerDay;
    } else {
      assert Day(ts) * SecondsPerDay <= (cutoff - 1) * SecondsPerDay;
    }
  }

  /** The rows a retention delete leaves, in their stored order. */
  function Retained(rows: seq<Record>, cutoff: int): (r: seq<Record>)
    ensures |r| <= |rows|
  {
    if rows == [] then []
    else
      var last := rows[|rows| - 1];
      Retained(rows[..|rows| - 1], cutoff) + (if Kept(last, cutoff) then [last] else [])
  }

  /**
   * The delete is the boolean filter on the cutoff: it keeps exactly the rows a mask of `Kept`
   * keeps, in their stored order. `Retained` peels rows off the end, as the delete loop of
   * `Sink.Balance` appends them.
   */
  lemma {:induction false} RetainedIsFilter(rows: seq<Record>, cutoff: int)
    ensures Retained(rows, cutoff) == Frames.Filter(rows, x => Kept(x, cutoff))
  {
    if rows != [] {
      var front, last := rows[..|rows| - 1], rows[|rows| - 1];
      assert rows == front + [last];
      RetainedIsFilter(front, cutoff);
      Frames.FilterSnoc(front, last, x => Kept(x, cutoff));
    }
  }

  /** The delete removes every copy of each stale row and no copy of any other row. */
  lemma {:induction false} RetainedCount(rows: seq<Record>, cutoff: int, x: Record)
    ensures multiset(Retained(rows, cutoff))[x] == (if Kept(x, cutoff) then multiset(rows)[x] else 0)
  {
    if rows != [] {
      var front, last := rows[..|rows| - 1], rows[|rows| - 1];
      assert rows == front + [last];
      RetainedCount(front, cutoff, x);
    }
  }

  /** Deleting with the same cutoff a second time deletes nothing more. */
  lemma {:induction false} RetainedIdempotent(rows: seq<Record>, cutoff: int)
    ensures Retained(Retained(rows, cutoff), cutoff) == Retained(rows, cutoff)
  {
    if rows != [] {
      var front, last := rows[..|rows| - 1], rows[|rows| - 1];
      var kept := Retained(front, cutoff);
      RetainedIdempotent(front, cutoff);
      if Kept(last, cutoff) {
        var r := kept + [last];
        assert Retained(rows, cutoff) == r;
        assert r[..|r| - 1] == kept;
        assert Retained(r, cutoff) == Retained(kept, cutoff) + [last];
      } else {
        assert Retained(rows, cutoff) == kept;
      }
    }
  }

  /** The retention delete commutes with appending: old rows and new rows are judged alike. */
  lemma {:induction false} RetainedAppend(a: seq<Record>, b: seq<Record>, cutoff: int)
    ensures Retained(a + b, cutoff) == Retained(a, cutoff) + Retained(b, cutoff)
    decreases |b|
  {
    if b != [] {
      var front, last := b[..|b| - 1], b[|b| - 1];
      assert (a + b)[..|a + b| - 1] == a + front;
      assert (a + b)[|a + b| - 1] == last;
      RetainedAppend(a, front, cutoff);
    } else {
      assert a + b == a;
    }
  }

  /** The sink: a map from table name to table, changed in place by the ETL's database calls. */
  class Sink {
    var tables: map<string, Table>

    /** Whether the `area_metro` column list is bound as intended. */
    const repaired: bool

    constructor(repaired: bool, tables: map<string, Table>)
      ensures this.repaired == repaired && this.tables == tables
    {
      this.repaired := repaired;
      this.tables := tables;
    }

    /** `create_table`. */
    method CreateTable(name: string, typeName: string) returns (r: Result<bool, SinkError>)
      modifies this
      ensures (r, tables) == Provision(old(tables), name, typeName, repaired)
    {
      var t := TypeOf(typeName);
      if t.None? {
        return Ok(false);
      }
      var columns := Schema(t.value, repaired);
      if name !in tables {
        if columns.None? {
          return Err(UnboundSchema);
        }
        tables := tables[name := Table(columns.value, IndexName(name), IndexColumns(t.value), [])];
      }
      return Ok(true);
    }

    /** `cargar_archivo_postgresql`: append the file's rows when the table is there. */
    method LoadFile(name: string, typeName: string, rows: seq<Record>) returns (r: Result<bool, SinkError>)
      modifies this
      ensures (r, tables) == Loaded(old(tables), name, typeName, rows, repaired)
    {
      r := CreateTable(name, typeName);
      if r == Ok(true) {
        var t := tables[name];
        tables := tables[name := t.(rows := t.rows + rows)];
      }
    }

    /**
     * `equilibrar`: delete the rows dated before the day `today - days`, row by row, keeping the
     * others in their order; a table that does not exist raises.
     */
    method Balance(name: string, days: int, today: int) returns (r: Result<(), SinkError>)
      modifies this
      ensures name !in old(tables) ==> r == Err(UndefinedTable) && tables == old(tables)
      ensures name in old(tables) ==>
        (r == Ok(()) &&
         tables == old(tables)[name := old(tables)[name].(rows := Retained(old(tables)[name].rows, today - days))])
    {
      if name !in tables {
        return Err(UndefinedTable);
      }
      var t := tables[name];
      var cutoff := today - days;
      var kept: seq<Record> := [];
      var i := 0;
      while i < |t.rows|
        invariant 0 <= i <= |t.rows|
        invariant kept == Retained(t.rows[..i], cutoff)
      {
        assert t.rows[..i + 1][..i] == t.rows[..i];
        if Kept(t.rows[i], cutoff) {
          kept := kept + [t.rows[i]];
        }
        i := i + 1;
      }
      assert t.rows[..i] == t.rows;
      tables := tables[name := t.(rows := kept)];
      return Ok(());
    }
  }
}
