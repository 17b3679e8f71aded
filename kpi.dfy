/**
 * `raw_to_kpi`: one busy-hour KPI row per cell of an hourly file, and the unit conversions it uses.
 */
module Kpi {
  import opened Common
  import opened Text
  import opened Measures
  import opened Frames
  import opened Cascade

  const SecondsPerDay: int := 86400

  /** The calendar day of a timestamp (`.dt.date`), as a day number. */
  function Day(ts: int): int {
    ts / SecondsPerDay
  }

  /** The time of day of a timestamp (`.dt.time`), in seconds after midnight. */
  function TimeOfDay(ts: int): (s: int)
    ensures 0 <= s < SecondsPerDay && Day(ts) * SecondsPerDay + s == ts
  {
    ts % SecondsPerDay
  }

  /** `bit_to_GB`: bits to gigabytes, 8 * 10^9 bits each. */
  function BitToGB(bits: real): (gb: real)
    ensures gb * 8000000000.0 == bits
  {
    bits / 8000000000.0
  }

  /** A PRB usage percentage; `None` stands for the inf/NaN a zero availability gives. */
  function PrbUsage(used: real, avail: real): (r: Option<real>)
    ensures r.Some? <==> avail != 0.0
    ensures r.Some? ==> r.value * avail == used * 100.0
  {
    if avail == 0.0 then None else Some(used / avail * 100.0)
  }

  /** User experience in Mbit/s: (DL bits - last-TTI bits) / time / 1024; `None` for a zero time. */
  function UserExperience(bits: real, lastTti: real, timeMs: real): (r: Option<real>)
    ensures r.Some? <==> timeMs != 0.0
    ensures r.Some? ==> r.value * timeMs * 1024.0 == bits - lastTti
  {
    if timeMs == 0.0 then None else Some((bits - lastTti) / timeMs / 1024.0)
  }

  /** One row of `ran_kpi_cell`, fields in table column order. */
  datatype KpiRow = KpiRow(
    date: int, bh: int, cellName: string,
    avgUsersBh: real, dailyMaxUsers: real, maxUsersHour: int,
    prbUsageDl: Option<real>, prbUsageUl: Option<real>,
    trafficBh: real, trafficAvg: real, trafficTotal: real,
    uexpBh: Option<real>)

  /** The uppercased cell names of a file, row by row. */
  function Cells(raw: seq<RawRow>): (r: seq<string>)
    ensures |r| == |raw| && forall i :: 0 <= i < |raw| ==> r[i] == Upper(raw[i].cellName)
    ensures forall i :: 0 <= i < |r| ==> Upper(r[i]) == r[i]
  {
    seq(|raw|, i requires 0 <= i < |raw| => Upper(raw[i].cellName))
  }

  /** One counter column of a file. */
  function Column(raw: seq<RawRow>, col: nat): (r: seq<real>)
    requires col < Width
    ensures |r| == |raw| && forall i :: 0 <= i < |raw| ==> r[i] == raw[i].m[col]
  {
    seq(|raw|, i requires 0 <= i < |raw| => raw[i].m[col])
  }

  /** The sum of one counter over the rows of a cell. */
  function CellSum(raw: seq<RawRow>, cell: string, col: nat): real
    requires col < Width
  {
    if raw == [] then 0.0
    else (if Upper(raw[0].cellName) == cell then raw[0].m[col] else 0.0) + CellSum(raw[1..], cell, col)
  }

  /** The number of rows of a cell. */
  function CellCount(raw: seq<RawRow>, cell: string): (n: nat)
    ensures cell in Cells(raw) ==> n >= 1
  {
    if raw == [] then 0
    else
      assert cell in Cells(raw) && Upper(raw[0].cellName) != cell ==> cell in Cells(raw[1..]) by {
        if cell in Cells(raw) && Upper(raw[0].cellName) != cell {
          var i :| 0 <= i < |raw| && Cells(raw)[i] == cell;
          assert Cells(raw[1..])[i - 1] == cell;
        }
      }
      (if Upper(raw[0].cellName) == cell then 1 else 0) + CellCount(raw[1..], cell)
  }

  /** Row `i` is the row `idxmax` picks for its cell on counter `col`. */
  predicate IsPeak(raw: seq<RawRow>, col: nat, i: int)
    requires col < Width
  {
    IsFirstMax(Cells(raw), Column(raw, col), i)
  }

  /** The busy-hour row of each cell: first row of the greatest DL.Avg, cells in first-appearance order. */
  function BusyHours(raw: seq<RawRow>): (r: seq<nat>)
    ensures forall j :: 0 <= j < |r| ==> r[j] < |raw|
    ensures forall j :: 0 <= j < |r| ==> IsPeak(raw, DlActiveUserAvg, r[j])
    ensures forall i, j :: 0 <= i < j < |r| ==> Upper(raw[r[i]].cellName) != Upper(raw[r[j]].cellName)
    ensures forall x :: x in raw ==> exists j :: 0 <= j < |r| && Upper(raw[r[j]].cellName) == Upper(x.cellName)
  {
    var r := GroupArgMax(Cells(raw), Column(raw, DlActiveUserAvg));
    CellsOfPositions(raw, Cells(raw), r);
    r
  }

  /** Positions of distinct cell keys that cover every key name distinct cells, and every row's cell. */
  lemma CellsOfPositions(raw: seq<RawRow>, keys: seq<string>, r: seq<nat>)
    requires |keys| == |raw| && forall i :: 0 <= i < |raw| ==> keys[i] == Upper(raw[i].cellName)
    requires forall j :: 0 <= j < |r| ==> r[j] < |keys|
    requires forall i, j :: 0 <= i < j < |r| ==> keys[r[i]] != keys[r[j]]
    requires forall k :: k in keys ==> exists i :: 0 <= i < |r| && keys[r[i]] == k
    ensures forall i, j :: 0 <= i < j < |r| ==> Upper(raw[r[i]].cellName) != Upper(raw[r[j]].cellName)
    ensures forall x :: x in raw ==> exists j :: 0 <= j < |r| && Upper(raw[r[j]].cellName) == Upper(x.cellName)
  {
    forall x | x in raw
      ensures exists j :: 0 <= j < |r| && Upper(raw[r[j]].cellName) == Upper(x.cellName)
    {
      var i :| 0 <= i < |raw| && raw[i] == x;
      assert keys[i] in keys;
      var j :| 0 <= j < |r| && keys[r[j]] == keys[i];
      assert Upper(raw[r[j]].cellName) == Upper(x.cellName);
    }
  }

  /** The busy-hour fields of `row` come from raw row `b`, the DL.Avg peak of the row's cell. */
  predicate BusyRow(raw: seq<RawRow>, row: KpiRow, b: int) {
    0 <= b < |raw| && IsPeak(raw, DlActiveUserAvg, b) &&
    var x := raw[b];
    row.cellName == Upper(x.cellName) &&
    row.date == Day(x.timestamp) && row.bh == TimeOfDay(x.timestamp) &&
    row.avgUsersBh == x.m[DlActiveUserAvg] &&
    row.prbUsageDl == PrbUsage(x.m[PrbDlUsedAvg], x.m[PrbDlAvail]) &&
    row.prbUsageUl == PrbUsage(x.m[PrbUlUsedAvg], x.m[PrbUlAvail]) &&
    row.trafficBh * 8000000000.0 == x.m[ThrpBitsDl] &&
    row.uexpBh == UserExperience(x.m[ThrpBitsDl], x.m[ThrpBitsDlLastTti], x.m[ThrpTimeDlRmvLastTti])
  }

  /** The daily-maximum fields of `row` come from raw row `k`, the DL.Max peak of the row's cell. */
  predicate MaxRow(raw: seq<RawRow>, row: KpiRow, k: int) {
    0 <= k < |raw| && IsPeak(raw, DlActiveUserMax, k) &&
    row.cellName == Upper(raw[k].cellName) &&
    row.dailyMaxUsers == raw[k].m[DlActiveUserMax] &&
    row.maxUsersHour == TimeOfDay(raw[k].timestamp)
  }

  /** The traffic fields of `row` are the cell's total and mean DL traffic, in gigabytes. */
  predicate TrafficRow(raw: seq<RawRow>, row: KpiRow) {
    row.trafficTotal * 8000000000.0 == CellSum(raw, row.cellName, ThrpBitsDl) &&
    row.trafficAvg * 8000000000.0 * (CellCount(raw, row.cellName) as real) == CellSum(raw, row.cellName, ThrpBitsDl)
  }

  function KpiOf(raw: seq<RawRow>, b: nat): (row: KpiRow)
    requires b < |raw|
    ensures row.cellName == Upper(raw[b].cellName)
  {
    var x := raw[b];
    var cell := Upper(x.cellName);
    assert Cells(raw)[b] == cell;
    var k := FirstMax(Cells(raw), Column(raw, DlActiveUserMax), cell);
    var (avg, total) := Traffic(raw, cell);
    KpiRow(
      Day(x.timestamp), TimeOfDay(x.timestamp), cell,
      x.m[DlActiveUserAvg], raw[k].m[DlActiveUserMax], TimeOfDay(raw[k].timestamp),
      PrbUsage(x.m[PrbDlUsedAvg], x.m[PrbDlAvail]), PrbUsage(x.m[PrbUlUsedAvg], x.m[PrbUlAvail]),
      BitToGB(x.m[ThrpBitsDl]), avg, total,
      UserExperience(x.m[ThrpBitsDl], x.m[ThrpBitsDlLastTti], x.m[ThrpTimeDlRmvLastTti]))
  }

  /** The mean and the total DL traffic of a cell that has rows, in gigabytes. */
  function Traffic(raw: seq<RawRow>, cell: string): (r: (real, real))
    requires cell in Cells(raw)
    ensures r.1 * 8000000000.0 == CellSum(raw, cell, ThrpBitsDl)
    ensures r.0 * 8000000000.0 * (CellCount(raw, cell) as real) == CellSum(raw, cell, ThrpBitsDl)
  {
    var total := CellSum(raw, cell, ThrpBitsDl);
    var count := CellCount(raw, cell) as real;
    var avg := BitToGB(total / count);
    assert avg * 8000000000.0 == total / count;
    (avg, BitToGB(total))
  }

  /**
   * `raw_to_kpi` for one file: one row per uppercased cell name (grouped by cell alone, whatever
   * the dates), its busy-hour fields from the cell's DL.Avg peak, its daily maximum and hour from
   * an independent DL.Max peak, and its traffic from all the cell's rows.
   */
  function KpiRows(raw: seq<RawRow>): (r: seq<KpiRow>)
    ensures forall i, j :: 0 <= i < j < |r| ==> r[i].cellName != r[j].cellName
    ensures forall x :: x in raw ==> exists j :: 0 <= j < |r| && r[j].cellName == Upper(x.cellName)
  {
    var bh := BusyHours(raw);
    var r := seq(|bh|, j requires 0 <= j < |bh| => KpiOf(raw, bh[j]));
    CellsFollowBusyHours(raw, bh, r);
    r
  }

  /** Rows named after the busy-hour rows' cells are as distinct, and as complete, as those cells. */
  lemma CellsFollowBusyHours(raw: seq<RawRow>, bh: seq<nat>, r: seq<KpiRow>)
    requires |r| == |bh| && forall j :: 0 <= j < |bh| ==> bh[j] < |raw| && r[j].cellName == Upper(raw[bh[j]].cellName)
    requires forall i, j :: 0 <= i < j < |bh| ==> Upper(raw[bh[i]].cellName) != Upper(raw[bh[j]].cellName)
    requires forall x :: x in raw ==> exists j :: 0 <= j < |bh| && Upper(raw[bh[j]].cellName) == Upper(x.cellName)
    ensures forall i, j :: 0 <= i < j < |r| ==> r[i].cellName != r[j].cellName
    ensures forall x :: x in raw ==> exists j :: 0 <= j < |r| && r[j].cellName == Upper(x.cellName)
  {
    forall x | x in raw
      ensures exists j :: 0 <= j < |r| && r[j].cellName == Upper(x.cellName)
    {
      var j :| 0 <= j < |bh| && Upper(raw[bh[j]].cellName) == Upper(x.cellName);
      assert r[j].cellName == Upper(x.cellName);
    }
  }

  /** The row's busy-hour, daily-maximum and traffic figures are those of its cell in `raw`. */
  predicate FiguresOf(raw: seq<RawRow>, row: KpiRow) {
    (exists b :: 0 <= b < |raw| && BusyRow(raw, row, b)) &&
    (exists k :: 0 <= k < |raw| && MaxRow(raw, row, k)) && TrafficRow(raw, row)
  }

  /** Every KPI row carries its cell's busy-hour, daily-maximum and traffic figures. */
  lemma KpiRowsSpec(raw: seq<RawRow>)
    ensures forall j :: 0 <= j < |KpiRows(raw)| ==> FiguresOf(raw, KpiRows(raw)[j])
  {
    var bh := BusyHours(raw);
    var r := KpiRows(raw);
    forall j | 0 <= j < |r|
      ensures FiguresOf(raw, r[j])
    {
      assert r[j] == KpiOf(raw, bh[j]);
      KpiOfSpec(raw, bh[j]);
    }
  }

  lemma KpiOfSpec(raw: seq<RawRow>, b: nat)
    requires b < |raw| && IsPeak(raw, DlActiveUserAvg, b)
    ensures BusyRow(raw, KpiOf(raw, b), b)
    ensures exists k :: MaxRow(raw, KpiOf(raw, b), k)
    ensures TrafficRow(raw, KpiOf(raw, b))
  {
    KpiOfBusy(raw, b);
    KpiOfMax(raw, b);
    KpiOfTraffic(raw, b);
  }

  lemma KpiOfBusy(raw: seq<RawRow>, b: nat)
    requires b < |raw| && IsPeak(raw, DlActiveUserAvg, b)
    ensures BusyRow(raw, KpiOf(raw, b), b)
  {
  }

  lemma KpiOfMax(raw: seq<RawRow>, b: nat)
    requires b < |raw|
    ensures exists k :: MaxRow(raw, KpiOf(raw, b), k)
  {
    var cell := Upper(raw[b].cellName);
    assert Cells(raw)[b] == cell;
    var k := FirstMax(Cells(raw), Column(raw, DlActiveUserMax), cell);
    assert MaxRow(raw, KpiOf(raw, b), k);
  }

  lemma KpiOfTraffic(raw: seq<RawRow>, b: nat)
    requires b < |raw|
    ensures TrafficRow(raw, KpiOf(raw, b))
  {
    var cell := Upper(raw[b].cellName);
    assert Cells(raw)[b] == cell;
    var row := KpiOf(raw, b);
    assert row.cellName == cell;
    assert (row.trafficAvg, row.trafficTotal) == Traffic(raw, cell);
    TrafficRowOf(raw, row, cell);
  }

  lemma TrafficRowOf(raw: seq<RawRow>, row: KpiRow, cell: string)
    requires cell in Cells(raw) && row.cellName == cell
    requires (row.trafficAvg, row.trafficTotal) == Traffic(raw, cell)
    ensures TrafficRow(raw, row)
  {
  }

  /** Rows of one cell on two different days still give a single KPI row: grouping is by cell only. */
  lemma OneRowPerCellAcrossDays(t1: int, t2: int, node: string, cell: string, m1: Vector, m2: Vector)
    requires Day(t1) != Day(t2)
    ensures |KpiRows([RawRow(t1, node, cell, m1), RawRow(t2, node, cell, m2)])| == 1
  {
    var raw := [RawRow(t1, node, cell, m1), RawRow(t2, node, cell, m2)];
    DistinctOfConstant(Cells(raw), Upper(cell));
  }
}
