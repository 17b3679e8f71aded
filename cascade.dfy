/**
 * The hourly aggregation cascade: raw cell rows summed per sector and per node, then the node
 * aggregate summed per cluster, locality, municipality, metropolitan area, department, regional
 * and over the whole network.
 */
module Cascade {
  import opened Common
  import opened Text
  import opened Measures
  import opened Frames
  import opened Classify
  import opened Geo

  /** One row of a cleaned hourly CSV file. */
  datatype RawRow = RawRow(timestamp: int, nodeName: string, cellName: string, m: Vector)

  /** A node-level aggregate row: timestamp, node name, summed counters. */
  type NodeRow = Group<string>

  function NodeKey(n: NodeRow): string {
    n.key
  }

  function NodeOf<K>(p: (string, K)): string {
    p.0
  }

  function ValueOf<K>(p: Option<(string, K)>): Option<K> {
    if p.Some? then Some(p.value.1) else None
  }

  // ---------------------------------------------------------------- sectors and nodes

  /** The raw rows keyed by the sector of their cell: `None` when the uppercased name has no geo row. */
  function SectorKeyed(raw: seq<RawRow>, geo: seq<GeoEntry>): (r: seq<Keyed<string>>)
    ensures |r| >= |raw|
  {
    var merged := LeftMerge(raw, geo, (x: RawRow) => Upper(x.cellName), CellIdOf);
    seq(|merged|, i requires 0 <= i < |merged| =>
      Keyed(merged[i].0.timestamp,
            if merged[i].1.Some? then Some(merged[i].1.value.sectorName) else None,
            merged[i].0.m))
  }

  /** `sectores` for one file: uppercase the cell names, left-merge on the composite id, sum per (hour, sector name). */
  function Sectors(raw: seq<RawRow>, geo: seq<GeoEntry>): seq<Group<string>> {
    GroupBySum(SectorKeyed(raw, geo))
  }

  /** The sector a raw row is counted under, looked up directly. */
  function SectorLookup(geo: seq<GeoEntry>, cell: string): Option<string> {
    var e := First(geo, CellIdOf, Upper(cell));
    if e.Some? then Some(e.value.sectorName) else None
  }

  /**
   * With a geographic table of distinct composite ids the merge is one to one: every raw row is
   * counted once, under the sector name of the geo row whose id is its uppercased cell name.
   */
  lemma {:induction false} SectorKeyedLookup(raw: seq<RawRow>, geo: seq<GeoEntry>)
    requires DistinctKeys(geo, CellIdOf)
    ensures SectorKeyed(raw, geo)
         == seq(|raw|, i requires 0 <= i < |raw| =>
              Keyed(raw[i].timestamp, SectorLookup(geo, raw[i].cellName), raw[i].m))
  {
    LeftMergeUnique(raw, geo, (x: RawRow) => Upper(x.cellName), CellIdOf);
  }

  /**
   * Each sector row at hour t is the column-wise sum of exactly the raw rows of hour t whose cell
   * maps to that sector; the sectors at hour t add up to every raw row of hour t whose cell is
   * known, so rows of unknown cells are the only ones lost.
   */
  lemma SectorsSum(raw: seq<RawRow>, geo: seq<GeoEntry>, t: int)
    requires DistinctKeys(geo, CellIdOf)
    ensures forall g :: g in Sectors(raw, geo) ==>
      g.m == SumWhere(SectorKeyed(raw, geo), g.timestamp, g.key)
    ensures GroupsAt(Sectors(raw, geo), t) == RowsAt(SectorKeyed(raw, geo), t)
  {
    GroupBySumConserves(SectorKeyed(raw, geo), t);
  }

  /** The raw rows keyed by their uppercased node name. */
  function NodeKeyed(raw: seq<RawRow>): (r: seq<Keyed<string>>)
    ensures |r| == |raw|
    ensures forall i :: 0 <= i < |raw| ==> r[i] == Keyed(raw[i].timestamp, Some(Upper(raw[i].nodeName)), raw[i].m)
    ensures forall i :: 0 <= i < |r| ==> r[i].key.Some? && Upper(r[i].key.value) == r[i].key.value
  {
    seq(|raw|, i requires 0 <= i < |raw| => Keyed(raw[i].timestamp, Some(Upper(raw[i].nodeName)), raw[i].m))
  }

  /** `nodos` for one file: no geo join, sum per (hour, uppercased node name). */
  function Nodes(raw: seq<RawRow>): seq<NodeRow> {
    GroupBySum(NodeKeyed(raw))
  }

  /** The column-wise sum of every raw row of hour t. */
  function RawAt(raw: seq<RawRow>, t: int): Vector {
    if raw == [] then Zero() else Add(if raw[0].timestamp == t then raw[0].m else Zero(), RawAt(raw[1..], t))
  }

  lemma {:induction false} NodeKeyedAt(raw: seq<RawRow>, t: int)
    ensures RowsAt(NodeKeyed(raw), t) == RawAt(raw, t)
  {
    if raw != [] {
      NodeKeyedAt(raw[1..], t);
      assert NodeKeyed(raw)[1..] == NodeKeyed(raw[1..]);
    }
  }

  /** Every raw row has a node, so the nodes of hour t add up to all the raw rows of hour t. */
  lemma NodesConserve(raw: seq<RawRow>, t: int)
    ensures GroupsAt(Nodes(raw), t) == RawAt(raw, t)
  {
    GroupBySumConserves(NodeKeyed(raw), t);
    NodeKeyedAt(raw, t);
  }

  // ---------------------------------------------------------------- levels above the node

  /** The node rows keyed through a (node name, key) table: `None` when the node has no row there. */
  function LevelKeyed<K(==,!new)>(nodes: seq<NodeRow>, table: seq<(string, K)>): seq<Keyed<K>> {
    var merged := LeftMerge(nodes, table, NodeKey, NodeOf);
    seq(|merged|, i requires 0 <= i < |merged| =>
      Keyed(merged[i].0.timestamp, ValueOf(merged[i].1), merged[i].0.m))
  }

  /** Left-merge the node aggregate with a (node name, key) table and sum per (hour, key). */
  function Level<K(==,!new)>(nodes: seq<NodeRow>, table: seq<(string, K)>): seq<Group<K>> {
    GroupBySum(LevelKeyed(nodes, table))
  }

  /** With one table row per node the merge is one to one: each node row is keyed by its node's lookup. */
  lemma {:induction false} LevelKeyedLookup<K(!new)>(nodes: seq<NodeRow>, table: seq<(string, K)>)
    requires DistinctKeys(table, NodeOf)
    ensures LevelKeyed(nodes, table)
         == seq(|nodes|, i requires 0 <= i < |nodes| =>
              Keyed(nodes[i].timestamp, ValueOf(First(table, NodeOf, nodes[i].key)), nodes[i].m))
  {
    LeftMergeUnique(nodes, table, NodeKey, NodeOf);
    var merged := LeftMerge(nodes, table, NodeKey, NodeOf);
    assert |merged| == |nodes|;
    assert forall i :: 0 <= i < |nodes| ==> merged[i] == (nodes[i], First(table, NodeOf, NodeKey(nodes[i])));
  }

  function ClusterOf(e: GeoEntry): (string, string) {
    (e.nodeName, e.row.clusterKey)
  }

  function LocalityOf(e: GeoEntry): (string, int) {
    (e.nodeName, e.row.localityCode)
  }

  function MunicipalityOf(e: GeoEntry): (string, int) {
    (e.nodeName, e.row.municipalityCode)
  }

  function MetroAreaOf(e: GeoEntry): (string, string) {
    (e.nodeName, e.metroArea)
  }

  function DepartmentOf(e: GeoEntry): (string, int) {
    (e.nodeName, e.row.departmentCode)
  }

  function RegionalOf(e: GeoEntry): (string, string) {
    (e.nodeName, e.row.regional)
  }

  function Project<K>(geo: seq<GeoEntry>, f: GeoEntry -> (string, K)): (r: seq<(string, K)>)
    ensures |r| == |geo| && forall i :: 0 <= i < |geo| ==> r[i] == f(geo[i])
  {
    seq(|geo|, i requires 0 <= i < |geo| => f(geo[i]))
  }

  /** A locality row is usable: known code, and the code passes `comprobacion_localidad`. */
  predicate UsableLocality(e: GeoEntry) {
    e.row.localityCode != -1 && LocalityMatches(e.row.localityCode, e.row.municipalityCode)
  }

  predicate KnownMunicipality(e: GeoEntry) {
    e.row.municipalityCode != -1
  }

  predicate KnownDepartment(e: GeoEntry) {
    e.row.departmentCode != -1
  }

  predicate InMetroArea(p: (string, string)) {
    p.1 != NoMetroArea
  }

  /** `cluster`: (node, cluster key), first row per node, no sentinel filter. */
  function ClusterTable(geo: seq<GeoEntry>): (r: seq<(string, string)>)
    ensures DistinctKeys(r, NodeOf)
  {
    DedupBy(Project(geo, ClusterOf), NodeOf)
  }

  /** `localidad`: rows with code -1 or a failing prefix check dropped, then first row per node. */
  function LocalityTable(geo: seq<GeoEntry>): (r: seq<(string, int)>)
    ensures DistinctKeys(r, NodeOf)
  {
    DedupBy(Project(Filter(geo, UsableLocality), LocalityOf), NodeOf)
  }

  /** `municipio`: rows with code -1 dropped, then first row per node. */
  function MunicipalityTable(geo: seq<GeoEntry>): (r: seq<(string, int)>)
    ensures DistinctKeys(r, NodeOf)
  {
    DedupBy(Project(Filter(geo, KnownMunicipality), MunicipalityOf), NodeOf)
  }

  /** `am`: first row per node, and only then the "Sin AM" rows dropped. */
  function MetroAreaTable(geo: seq<GeoEntry>): (r: seq<(string, string)>)
    ensures DistinctKeys(r, NodeOf)
  {
    var d := DedupBy(Project(geo, MetroAreaOf), NodeOf);
    FilterDistinctKeys(d, InMetroArea, NodeOf);
    Filter(d, InMetroArea)
  }

  /** `departamento`: rows with code -1 dropped, then first row per node. */
  function DepartmentTable(geo: seq<GeoEntry>): (r: seq<(string, int)>)
    ensures DistinctKeys(r, NodeOf)
  {
    DedupBy(Project(Filter(geo, KnownDepartment), DepartmentOf), NodeOf)
  }

  /** `regional`: (node, regional), first row per node, no sentinel filter. */
  function RegionalTable(geo: seq<GeoEntry>): (r: seq<(string, string)>)
    ensures DistinctKeys(r, NodeOf)
  {
    DedupBy(Project(geo, RegionalOf), NodeOf)
  }

  function Clusters(nodes: seq<NodeRow>, geo: seq<GeoEntry>): seq<Group<string>> {
    Level(nodes, ClusterTable(geo))
  }

  function Localities(nodes: seq<NodeRow>, geo: seq<GeoEntry>): seq<Group<int>> {
    Level(nodes, LocalityTable(geo))
  }

  function Municipalities(nodes: seq<NodeRow>, geo: seq<GeoEntry>): seq<Group<int>> {
    Level(nodes, MunicipalityTable(geo))
  }

  function MetroAreas(nodes: seq<NodeRow>, geo: seq<GeoEntry>): seq<Group<string>> {
    Level(nodes, MetroAreaTable(geo))
  }

  function Departments(nodes: seq<NodeRow>, geo: seq<GeoEntry>): seq<Group<int>> {
    Level(nodes, DepartmentTable(geo))
  }

  function Regionals(nodes: seq<NodeRow>, geo: seq<GeoEntry>): seq<Group<string>> {
    Level(nodes, RegionalTable(geo))
  }

  // ---------------------------------------------------------------- which geo row keys a node

  /** The first geo row of a node, among the rows satisfying `p`. */
  function FirstOfNode(geo: seq<GeoEntry>, p: GeoEntry -> bool, node: string): Option<GeoEntry> {
    First(Filter(geo, p), (e: GeoEntry) => e.nodeName, node)
  }

  lemma {:induction false} FirstProject<K(!new)>(geo: seq<GeoEntry>, f: GeoEntry -> (string, K), node: string)
    requires forall e :: f(e).0 == e.nodeName
    ensures First(Project(geo, f), NodeOf, node)
         == (var e := First(geo, (e: GeoEntry) => e.nodeName, node); if e.Some? then Some(f(e.value)) else None)
  {
    if geo != [] {
      FirstProject(geo[1..], f, node);
      assert Project(geo, f)[1..] == Project(geo[1..], f);
    }
  }

  predicate Any(e: GeoEntry) {
    true
  }

  lemma FilterAny(geo: seq<GeoEntry>)
    ensures Filter(geo, Any) == geo
  {
    if geo != [] {
      FilterAny(geo[1..]);
    }
  }

  /** A node is clustered by its first geo row, whatever it holds. */
  lemma ClusterLookup(geo: seq<GeoEntry>, node: string)
    ensures First(ClusterTable(geo), NodeOf, node)
         == (var e := FirstOfNode(geo, Any, node); if e.Some? then Some(ClusterOf(e.value)) else None)
  {
    DedupByFirst(Project(geo, ClusterOf), NodeOf, node);
    FirstProject(geo, ClusterOf, node);
    FilterAny(geo);
  }

  /** A node is placed in a locality by its first geo row that has a known code passing the prefix check. */
  lemma LocalityLookup(geo: seq<GeoEntry>, node: string)
    ensures First(LocalityTable(geo), NodeOf, node)
         == (var e := FirstOfNode(geo, UsableLocality, node); if e.Some? then Some(LocalityOf(e.value)) else None)
  {
    DedupByFirst(Project(Filter(geo, UsableLocality), LocalityOf), NodeOf, node);
    FirstProject(Filter(geo, UsableLocality), LocalityOf, node);
  }

  /** A node is placed in a municipality by its first geo row with a known municipality code. */
  lemma MunicipalityLookup(geo: seq<GeoEntry>, node: string)
    ensures First(MunicipalityTable(geo), NodeOf, node)
         == (var e := FirstOfNode(geo, KnownMunicipality, node); if e.Some? then Some(MunicipalityOf(e.value)) else None)
  {
    DedupByFirst(Project(Filter(geo, KnownMunicipality), MunicipalityOf), NodeOf, node);
    FirstProject(Filter(geo, KnownMunicipality), MunicipalityOf, node);
  }

  /**
   * The metropolitan area of a node is the area of its FIRST geo row, and a node whose first row
   * is "Sin AM" has none, even when a later row of the node has an area.
   */
  lemma MetroAreaLookup(geo: seq<GeoEntry>, node: string)
    ensures First(MetroAreaTable(geo), NodeOf, node)
         == (var e := FirstOfNode(geo, Any, node);
             if e.Some? && e.value.metroArea != NoMetroArea then Some(MetroAreaOf(e.value)) else None)
  {
    var proj := Project(geo, MetroAreaOf);
    var d := DedupBy(proj, NodeOf);
    FirstFilterDistinct(d, InMetroArea, NodeOf, node);
    DedupByFirst(proj, NodeOf, node);
    FirstProject(geo, MetroAreaOf, node);
    FilterAny(geo);
  }

  /** A node is placed in a department by its first geo row with a known department code. */
  lemma DepartmentLookup(geo: seq<GeoEntry>, node: string)
    ensures First(DepartmentTable(geo), NodeOf, node)
         == (var e := FirstOfNode(geo, KnownDepartment, node); if e.Some? then Some(DepartmentOf(e.value)) else None)
  {
    DedupByFirst(Project(Filter(geo, KnownDepartment), DepartmentOf), NodeOf, node);
    FirstProject(Filter(geo, KnownDepartment), DepartmentOf, node);
  }

  /** A node's regional is that of its first geo row. */
  lemma RegionalLookup(geo: seq<GeoEntry>, node: string)
    ensures First(RegionalTable(geo), NodeOf, node)
         == (var e := FirstOfNode(geo, Any, node); if e.Some? then Some(RegionalOf(e.value)) else None)
  {
    DedupByFirst(Project(geo, RegionalOf), NodeOf, node);
    FirstProject(geo, RegionalOf, node);
    FilterAny(geo);
  }

  /**
   * Every level row at hour t is the column-wise sum of exactly the node rows of hour t whose
   * node the level's table maps to that key, and the level rows of hour t add up to the node rows
   * of hour t that have a key there: an unmatched or filtered-out node is counted nowhere.
   */
  lemma LevelSum<K(!new)>(nodes: seq<NodeRow>, table: seq<(string, K)>, t: int)
    requires DistinctKeys(table, NodeOf)
    ensures forall g :: g in Level(nodes, table) ==>
      g.m == SumWhere(LevelKeyed(nodes, table), g.timestamp, g.key)
    ensures GroupsAt(Level(nodes, table), t) == RowsAt(LevelKeyed(nodes, table), t)
  {
    GroupBySumConserves(LevelKeyed(nodes, table), t);
  }

  /** A node row whose node has no row in the level's table is part of no group's sum. */
  lemma UnmatchedNodeContributesNothing<K(!new)>(nodes: seq<NodeRow>, table: seq<(string, K)>, i: int, k: K)
    requires DistinctKeys(table, NodeOf)
    requires 0 <= i < |nodes| && First(table, NodeOf, nodes[i].key).None?
    ensures LevelKeyed(nodes, table)[i].key.None?
    ensures Contrib(LevelKeyed(nodes, table)[i], nodes[i].timestamp, k) == Zero()
  {
    LevelKeyedLookup(nodes, table);
  }

  // ---------------------------------------------------------------- network total

  /** The node rows keyed by the single network-wide key. */
  function TotalKeyed(nodes: seq<NodeRow>): (r: seq<Keyed<()>>)
    ensures |r| == |nodes|
    ensures forall i :: 0 <= i < |nodes| ==> r[i] == Keyed(nodes[i].timestamp, Some(()), nodes[i].m)
  {
    seq(|nodes|, i requires 0 <= i < |nodes| => Keyed(nodes[i].timestamp, Some(()), nodes[i].m))
  }

  /** `total`: the node aggregate summed per hour. */
  function Total(nodes: seq<NodeRow>): seq<Group<()>> {
    GroupBySum(TotalKeyed(nodes))
  }

  lemma {:induction false} TotalKeyedAt(nodes: seq<NodeRow>, t: int)
    ensures RowsAt(TotalKeyed(nodes), t) == GroupsAt(nodes, t)
  {
    if nodes != [] {
      TotalKeyedAt(nodes[1..], t);
      assert TotalKeyed(nodes)[1..] == TotalKeyed(nodes[1..]);
    }
  }

  lemma {:induction false} SumWhereAll(nodes: seq<NodeRow>, t: int)
    ensures SumWhere(TotalKeyed(nodes), t, ()) == GroupsAt(nodes, t)
  {
    if nodes != [] {
      SumWhereAll(nodes[1..], t);
      assert TotalKeyed(nodes)[1..] == TotalKeyed(nodes[1..]);
    }
  }

  /**
   * The network total has one row per hour present in the node aggregate, holding the sum of all
   * of that hour's node rows, hence of all of that hour's raw rows.
   */
  lemma TotalSum(raw: seq<RawRow>, t: int)
    ensures forall g :: g in Total(Nodes(raw)) ==> g.m == GroupsAt(Nodes(raw), g.timestamp)
    ensures GroupsAt(Total(Nodes(raw)), t) == RawAt(raw, t)
  {
    TotalRowsSum(Nodes(raw));
    TotalConserves(Nodes(raw), t);
    NodesConserve(raw, t);
  }

  lemma TotalRowsSum(nodes: seq<NodeRow>)
    ensures forall g :: g in Total(nodes) ==> g.m == GroupsAt(nodes, g.timestamp)
  {
    var r := Total(nodes);
    forall g | g in r
      ensures g.m == GroupsAt(nodes, g.timestamp)
    {
      var i :| 0 <= i < |r| && r[i] == g;
      assert g.m == SumWhere(TotalKeyed(nodes), g.timestamp, g.key);
      SumWhereAll(nodes, g.timestamp);
    }
  }

  /** Some row of `gs` is dated at hour `t`. */
  predicate HourPresent<K>(gs: seq<Group<K>>, t: int) {
    exists i :: 0 <= i < |gs| && gs[i].timestamp == t
  }

  /**
   * The network total has exactly one row per hour: no two rows share a timestamp, and an hour
   * has a row exactly when some node row is dated at it.
   */
  lemma TotalOneRowPerHour(nodes: seq<NodeRow>)
    ensures forall i, j :: 0 <= i < j < |Total(nodes)| ==> Total(nodes)[i].timestamp != Total(nodes)[j].timestamp
    ensures forall t :: HourPresent(Total(nodes), t) <==> HourPresent(nodes, t)
  {
    var r := Total(nodes);
    var rows := TotalKeyed(nodes);
    UnitKeysOneRowPerHour(r);
    forall t
      ensures HourPresent(r, t) <==> HourPresent(nodes, t)
    {
      UnitHourPresent(r, t);
      TotalKeyedOccurs(nodes, t);
    }
  }

  /** Groups under the single network key whose (hour, key) pairs differ have different hours. */
  lemma UnitKeysOneRowPerHour(r: seq<Group<()>>)
    requires forall i, j :: 0 <= i < j < |r| ==> (r[i].timestamp, r[i].key) != (r[j].timestamp, r[j].key)
    ensures forall i, j :: 0 <= i < j < |r| ==> r[i].timestamp != r[j].timestamp
  {
    forall i, j | 0 <= i < j < |r|
      ensures r[i].timestamp != r[j].timestamp
    {
      assert r[i].key == ();
      assert r[j].key == ();
    }
  }

  lemma UnitHourPresent(r: seq<Group<()>>, t: int)
    ensures HourPresent(r, t) <==> HasGroup(r, t, ())
  {
    if HourPresent(r, t) {
      var i :| 0 <= i < |r| && r[i].timestamp == t;
      assert r[i].key == ();
    }
  }

  lemma TotalKeyedOccurs(nodes: seq<NodeRow>, t: int)
    ensures Occurs(TotalKeyed(nodes), t, ()) <==> HourPresent(nodes, t)
  {
    var rows := TotalKeyed(nodes);
    if HourPresent(nodes, t) {
      var k :| 0 <= k < |nodes| && nodes[k].timestamp == t;
      assert rows[k].timestamp == t && rows[k].key == Some(());
    }
  }

  lemma TotalConserves(nodes: seq<NodeRow>, t: int)
    ensures GroupsAt(Total(nodes), t) == GroupsAt(nodes, t)
  {
    GroupBySumConserves(TotalKeyed(nodes), t);
    TotalKeyedAt(nodes, t);
  }
}
