/**
 * The geographic dimension: the cell catalog rows as fetched, and the table `query_geodata`
 * derives from them (composite cell id, node name, sector bucket and name, metropolitan area).
 */
module Geo {
  import opened Common
  import opened Text
  import opened Frames
  import opened Classify

  /** One catalog row, with the columns the ETL and the dashboard read. */
  datatype CatalogRow = CatalogRow(
    cellName: Option<string>,  // dwh_cell_name_wom, the base name; may be null
    band: string,              // dwh_banda
    sector: int,               // dwh_sector
    clusterKey: string,        // cluster_key
    localityName: string,      // dwh_localidad
    localityCode: int,         // dwh_dane_cod_localidad, -1 when unknown
    municipalityName: string,  // dane_nombre_mpio
    municipalityCode: int,     // dane_code, -1 when unknown
    departmentCode: int,       // dane_code_dpto, -1 when unknown
    departmentName: string,    // dane_nombre_dpt
    regional: string)          // wom_regional

  /** One row of the derived geographic table. */
  datatype GeoEntry = GeoEntry(
    cellId: string,      // composite id, the join key of the raw cell names
    nodeName: string,    // uppercased base name
    bucket: int,         // sector bucket 1..4
    sectorName: string,  // node name, ": ", bucket
    metroArea: string,   // AM
    row: CatalogRow)

  function CellIdOf(e: GeoEntry): string {
    e.cellId
  }

  predicate HasName(c: CatalogRow) {
    c.cellName.Some?
  }

  /**
   * The composite id: node name, then "_AWS_" for band "B4" or "_" band "_" otherwise, then the
   * sector number.
   */
  function CellId(node: string, band: string, sector: int): (id: string)
    ensures StartsWith(id, node + "_")
    ensures band == "B4" ==> id == node + "_AWS_" + IntToString(sector)
    ensures band != "B4" ==> id == node + "_" + band + "_" + IntToString(sector)
  {
    var infix := if band == "B4" then "AWS" else band;
    var id := node + "_" + infix + "_" + IntToString(sector);
    assert id[..|node + "_"|] == node + "_";
    id
  }

  /** A "B4" row and an "AWS" row of the same node and sector get the same composite id. */
  lemma CellIdAliasesAws(node: string, sector: int)
    ensures CellId(node, "B4", sector) == CellId(node, "AWS", sector)
  {
  }

  /** The derived row of one named catalog row. */
  function Entry(c: CatalogRow): (e: GeoEntry)
    requires HasName(c)
    ensures e.row == c && e.nodeName == Upper(c.cellName.value)
    ensures e.cellId == CellId(e.nodeName, c.band, c.sector)
    ensures 1 <= e.bucket <= 4 && e.bucket == SectorBucket(c.sector)
    ensures e.sectorName == e.nodeName + ": " + IntToString(e.bucket)
    ensures e.metroArea == NoMetroArea || e.metroArea in MetroAreas.Values
  {
    var node := Upper(c.cellName.value);
    var id := CellId(node, c.band, c.sector);
    assert !AllSpace(id) by {
      assert id[|node|] == '_';
    }
    var bucket := SectorBucket(c.sector);
    GeoEntry(id, node, bucket, node + ": " + IntToString(bucket), AreaMetro(id).value, c)
  }

  /** The named catalog rows, each turned into its derived row, in catalog order. */
  function Prepared(catalog: seq<CatalogRow>): (r: seq<GeoEntry>)
    ensures forall e :: e in r ==> e.row in catalog && HasName(e.row) && e == Entry(e.row)
  {
    if catalog == [] then []
    else (if HasName(catalog[0]) then [Entry(catalog[0])] else []) + Prepared(catalog[1..])
  }

  /**
   * The post-fetch transform of `query_geodata`: rows with a null name dropped, one row per
   * composite id (the first catalog row wins), every row derived from a named catalog row.
   */
  function GeoTransform(catalog: seq<CatalogRow>): (r: seq<GeoEntry>)
    ensures DistinctKeys(r, CellIdOf)
    ensures forall e :: e in r ==> e.row in catalog && HasName(e.row) && e == Entry(e.row)
  {
    DedupBy(Prepared(catalog), CellIdOf)
  }

  /** Catalog row `i` is named and no earlier named row has its composite id. */
  predicate FirstOfId(catalog: seq<CatalogRow>, i: int) {
    0 <= i < |catalog| && HasName(catalog[i]) &&
    forall j :: 0 <= j < i && HasName(catalog[j]) ==> Entry(catalog[j]).cellId != Entry(catalog[i]).cellId
  }

  lemma {:induction false} PreparedFirst(catalog: seq<CatalogRow>, i: int)
    requires FirstOfId(catalog, i)
    ensures First(Prepared(catalog), CellIdOf, Entry(catalog[i]).cellId) == Some(Entry(catalog[i]))
  {
    var c := catalog[0];
    var id := Entry(catalog[i]).cellId;
    var rest := Prepared(catalog[1..]);
    var p := Prepared(catalog);
    if i == 0 {
      assert p == [Entry(c)] + rest;
      assert p[0] == Entry(c);
    } else {
      var tail := catalog[1..];
      assert tail[i - 1] == catalog[i];
      assert FirstOfId(tail, i - 1) by {
        forall j | 0 <= j < i - 1 && HasName(tail[j])
          ensures Entry(tail[j]).cellId != id
        {
          assert tail[j] == catalog[j + 1];
        }
      }
      PreparedFirst(tail, i - 1);
      if HasName(c) {
        assert p == [Entry(c)] + rest;
        assert CellIdOf(p[0]) != id;
        assert p[1..] == rest;
      } else {
        assert p == rest;
      }
    }
  }

  /** The derived row found for a composite id is the one built from the first catalog row carrying that id. */
  lemma GeoLookupFirst(catalog: seq<CatalogRow>, i: int)
    requires FirstOfId(catalog, i)
    ensures First(GeoTransform(catalog), CellIdOf, Entry(catalog[i]).cellId) == Some(Entry(catalog[i]))
  {
    PreparedFirst(catalog, i);
    DedupByFirst(Prepared(catalog), CellIdOf, Entry(catalog[i]).cellId);
  }

  /** A composite id no named catalog row produces is absent from the derived table. */
  lemma GeoLookupAbsent(catalog: seq<CatalogRow>, id: string)
    requires forall c :: c in catalog && HasName(c) ==> Entry(c).cellId != id
    ensures First(GeoTransform(catalog), CellIdOf, id).None?
  {
  }

  /**
   * The metropolitan area is computed on the composite id: when the base name has a blank after
   * its first word, that is the word's area.
   */
  lemma EntryAreaFromLeadingWord(c: CatalogRow, lead: string, code: string, rest: string)
    requires HasName(c) && Upper(c.cellName.value) == lead + code + rest
    requires AllSpace(lead) && code != [] && NoSpace(code)
    requires rest != [] && IsSpace(rest[0])
    ensures Entry(c).metroArea == (if code in MetroAreas then MetroAreas[code] else NoMetroArea)
  {
    var e := Entry(c);
    var suffix := e.cellId[|e.nodeName|..];
    assert e.cellId == e.nodeName + suffix;
    AppendAssoc(lead + code, rest, suffix);
    AppendAssoc(lead, code, rest + suffix);
    AreaMetroOfLeadingWord(lead, code, rest + suffix);
  }

  /** A composite id built from a node name and a band without blanks has no blank, and an underscore after the node name. */
  lemma CellIdShape(node: string, band: string, sector: int)
    requires NoSpace(node) && NoSpace(band)
    ensures NoSpace(CellId(node, band, sector)) && |CellId(node, band, sector)| > |node|
    ensures CellId(node, band, sector)[|node|] == '_'
  {
    var infix := if band == "B4" then "AWS" else band;
    var num := IntToString(sector);
    IntToStringNoSpace(sector);
    assert NoSpace("_") && NoSpace(infix);
    NoSpaceAppend(node, "_");
    NoSpaceAppend(node + "_", infix);
    NoSpaceAppend(node + "_" + infix, "_");
    NoSpaceAppend(node + "_" + infix + "_", num);
  }

  /**
   * A base name without blanks never gets an area, even when it is itself a metropolitan code,
   * because the first word of the composite id then runs on into "_band_sector".
   */
  lemma EntryAreaOfSingleWordName(c: CatalogRow)
    requires HasName(c) && NoSpace(c.cellName.value) && NoSpace(c.band)
    ensures Entry(c).metroArea == NoMetroArea
  {
    var e := Entry(c);
    UpperNoSpace(c.cellName.value);
    CellIdShape(e.nodeName, c.band, c.sector);
    assert e.cellId[|e.nodeName|] == '_';
    AreaMetroOfUnderscoredWord(e.cellId);
  }
}
