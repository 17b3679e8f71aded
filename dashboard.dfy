/**
 * The pure helpers of the dashboard: the forgiving integer cast, the busy hour of every day,
 * the per-aggregation narrowing of the map's date window, the default window, the option lists
 * of the selection drop-down and the extraction of the keys a download needs.
 */
module Dashboard {
  import opened Common
  import opened Text
  import opened Frames
  import opened Classify
  import Kpi

  // ---------------------------------------------------------------- to_int

  /** The Python values `to_int` may be handed. */
  datatype PyValue =
    | PyInt(i: int)
    | PyFloat(x: real)
    | PyNaN
    | PyInfinity(negative: bool)
    | PyStr(s: string)
    | PyNone

  /** The exceptions `to_int` lets through: it only catches ValueError. */
  datatype PyError = OverflowError | TypeError

  /** `int(x)` on a finite float: truncation toward zero. */
  function Truncate(x: real): (n: int)
    ensures x >= 0.0 ==> 0 <= n && n as real <= x < n as real + 1.0
    ensures x < 0.0 ==> n <= 0 && n as real - 1.0 < x <= n as real
  {
    if x >= 0.0 then x.Floor else -((-x).Floor)
  }

  /**
   * `to_int(n)`: `int(n)`, with 0 in place of a ValueError (a NaN, or text that is not an
   * integer); infinity and None raise past it.
   */
  function ToInt(v: PyValue): (r: Result<int, PyError>)
    ensures r.Err? <==> v.PyInfinity? || v.PyNone?
    ensures v.PyInfinity? ==> r == Err(OverflowError)
    ensures v.PyNone? ==> r == Err(TypeError)
    ensures v.PyNaN? ==> r == Ok(0)
    ensures v.PyInt? ==> r == Ok(v.i)
  {
    match v
    case PyInt(i) => Ok(i)
    case PyFloat(x) => Ok(Truncate(x))
    case PyNaN => Ok(0)
    case PyInfinity(_) => Err(OverflowError)
    case PyStr(s) => Ok(ParseInt(s).GetOr(0))
    case PyNone => Err(TypeError)
  }

  /** The decimal text of any integer casts back to that integer. */
  lemma ToIntOfText(n: int)
    ensures ToInt(PyStr(IntToString(n))) == Ok(n)
  {
    ParseIntOfIntToString(n);
  }

  /** A float holding a whole number casts to that number. */
  lemma ToIntOfWholeFloat(n: int)
    ensures ToInt(PyFloat(n as real)) == Ok(n)
  {
  }

  /** A finite float casts to the whole number nearest to it on the side of zero. */
  lemma ToIntOfFloat(x: real)
    ensures ToInt(PyFloat(x)).Ok?
    ensures var n := ToInt(PyFloat(x)).value;
            (if x >= 0.0 then x - n as real else n as real - x) < 1.0 &&
            (if x >= 0.0 then 0.0 <= x - n as real else 0.0 <= n as real - x)
  {
  }

  /** Text that is not an integer becomes 0 instead of raising. */
  lemma ToIntOfNonNumericText(s: string)
    requires ParseInt(s).None?
    ensures ToInt(PyStr(s)) == Ok(0)
  {
  }

  /** Casting is idempotent: an integer it produced casts to itself. */
  lemma ToIntIdempotent(v: PyValue)
    requires ToInt(v).Ok?
    ensures ToInt(PyInt(ToInt(v).value)) == ToInt(v)
  {
  }

  // ---------------------------------------------------------------- busy hour of each day

  /** One row of the frame `bh` receives: its timestamp and the value of the chosen column. */
  datatype Sample = Sample(timestamp: int, value: real)

  function DaysOf(data: seq<Sample>): (r: seq<int>)
    ensures |r| == |data| && forall i :: 0 <= i < |r| ==> r[i] == Kpi.Day(data[i].timestamp)
  {
    seq(|data|, i requires 0 <= i < |data| => Kpi.Day(data[i].timestamp))
  }

  function ValuesOf(data: seq<Sample>): (r: seq<real>)
    ensures |r| == |data| && forall i :: 0 <= i < |r| ==> r[i] == data[i].value
  {
    seq(|data|, i requires 0 <= i < |data| => data[i].value)
  }

  predicate SameDay(a: Sample, b: Sample) {
    Kpi.Day(a.timestamp) == Kpi.Day(b.timestamp)
  }

  /** Row `p` holds the largest value of its date, and no earlier row of the date reaches it. */
  predicate DailyPeakAt(data: seq<Sample>, p: int) {
    0 <= p < |data| &&
    (forall k :: 0 <= k < |data| && SameDay(data[k], data[p]) ==> data[k].value <= data[p].value) &&
    (forall k :: 0 <= k < p && SameDay(data[k], data[p]) ==> data[k].value < data[p].value)
  }

  /**
   * `bh(data, column)`: the positions `groupby(date)[column].idxmax()` selects, one per calendar
   * date that occurs.
   */
  function DailyPeaks(data: seq<Sample>): (r: seq<nat>)
    ensures forall i :: 0 <= i < |r| ==> r[i] < |data|
  {
    GroupArgMax(DaysOf(data), ValuesOf(data))
  }

  /** The first-maximum row of a date's group is that date's peak. */
  lemma DailyPeakOfFirstMax(data: seq<Sample>, p: int)
    requires IsFirstMax(DaysOf(data), ValuesOf(data), p)
    ensures DailyPeakAt(data, p)
  {
    var days, vals := DaysOf(data), ValuesOf(data);
    forall k | 0 <= k < |data| && SameDay(data[k], data[p])
      ensures data[k].value <= data[p].value
    {
      assert days[k] == days[p];
    }
    forall k | 0 <= k < p && SameDay(data[k], data[p])
      ensures data[k].value < data[p].value
    {
      assert days[k] == days[p];
    }
  }

  /**
   * The busy hours of `bh`: each selected row is its date's peak (first on ties), no two share a
   * date, and every date that occurs has one.
   */
  lemma DailyPeaksSpec(data: seq<Sample>)
    ensures var r := DailyPeaks(data);
            (forall i :: 0 <= i < |r| ==> DailyPeakAt(data, r[i])) &&
            (forall i, j :: 0 <= i < j < |r| ==> !SameDay(data[r[i]], data[r[j]])) &&
            (forall k :: 0 <= k < |data| ==> exists i :: 0 <= i < |r| && SameDay(data[r[i]], data[k]))
  {
    var days, vals := DaysOf(data), ValuesOf(data);
    var r := DailyPeaks(data);
    forall i | 0 <= i < |r|
      ensures DailyPeakAt(data, r[i])
    {
      DailyPeakOfFirstMax(data, r[i]);
    }
    DailyPeaksDistinct(data);
    DailyPeaksCover(data);
  }

  lemma DailyPeaksDistinct(data: seq<Sample>)
    ensures var r := DailyPeaks(data);
            forall i, j :: 0 <= i < j < |r| ==> !SameDay(data[r[i]], data[r[j]])
  {
    var days := DaysOf(data);
    var r := DailyPeaks(data);
    forall i, j | 0 <= i < j < |r|
      ensures !SameDay(data[r[i]], data[r[j]])
    {
      assert days[r[i]] != days[r[j]];
    }
  }

  lemma DailyPeaksCover(data: seq<Sample>)
    ensures var r := DailyPeaks(data);
            forall k :: 0 <= k < |data| ==> exists i :: 0 <= i < |r| && SameDay(data[r[i]], data[k])
  {
    var days := DaysOf(data);
    var r := DailyPeaks(data);
    forall k | 0 <= k < |data|
      ensures exists i :: 0 <= i < |r| && SameDay(data[r[i]], data[k])
    {
      assert days[k] in days;
      var i :| 0 <= i < |r| && days[r[i]] == days[k];
      assert SameDay(data[r[i]], data[k]);
    }
  }

  /** A row of the frame `map_kpi` queries: the marker or polygon it belongs to, its timestamp and its mean active users. */
  datatype EntitySample<E> = EntitySample(entity: E, timestamp: int, users: real)

  function EntityDaysOf<E>(df: seq<EntitySample<E>>): (r: seq<(E, int)>)
    ensures |r| == |df| && forall i :: 0 <= i < |r| ==> r[i] == (df[i].entity, Kpi.Day(df[i].timestamp))
  {
    seq(|df|, i requires 0 <= i < |df| => (df[i].entity, Kpi.Day(df[i].timestamp)))
  }

  function UsersOf<E>(df: seq<EntitySample<E>>): (r: seq<real>)
    ensures |r| == |df| && forall i :: 0 <= i < |r| ==> r[i] == df[i].users
  {
    seq(|df|, i requires 0 <= i < |df| => df[i].users)
  }

  predicate SameSlot<E(==)>(a: EntitySample<E>, b: EntitySample<E>) {
    a.entity == b.entity && Kpi.Day(a.timestamp) == Kpi.Day(b.timestamp)
  }

  /** Row `p` holds the most users of its (entity, date) pair, and no earlier row of the pair reaches it. */
  predicate EntityPeakAt<E(==)>(df: seq<EntitySample<E>>, p: int) {
    0 <= p < |df| &&
    (forall k :: 0 <= k < |df| && SameSlot(df[k], df[p]) ==> df[k].users <= df[p].users) &&
    (forall k :: 0 <= k < p && SameSlot(df[k], df[p]) ==> df[k].users < df[p].users)
  }

  /**
   * `map_kpi`'s busy hour: the positions `groupby([entity, date])[users].idxmax()` selects, one per
   * (entity, date) pair that occurs.
   */
  function EntityPeaks<E(==,!new)>(df: seq<EntitySample<E>>): (r: seq<nat>)
    ensures forall i :: 0 <= i < |r| ==> r[i] < |df|
  {
    GroupArgMax(EntityDaysOf(df), UsersOf(df))
  }

  lemma EntityPeakOfFirstMax<E(!new)>(df: seq<EntitySample<E>>, p: int)
    requires IsFirstMax(EntityDaysOf(df), UsersOf(df), p)
    ensures EntityPeakAt(df, p)
  {
    var keys := EntityDaysOf(df);
    forall k | 0 <= k < |df| && SameSlot(df[k], df[p])
      ensures df[k].users <= df[p].users
    {
      assert keys[k] == keys[p];
    }
    forall k | 0 <= k < p && SameSlot(df[k], df[p])
      ensures df[k].users < df[p].users
    {
      assert keys[k] == keys[p];
    }
  }

  /**
   * The busy hours of `map_kpi`: each selected row is its (entity, date) pair's peak, first on
   * ties; no two share a pair, and every pair that occurs has one.
   */
  lemma EntityPeaksSpec<E(!new)>(df: seq<EntitySample<E>>)
    ensures var r := EntityPeaks(df);
            (forall i :: 0 <= i < |r| ==> EntityPeakAt(df, r[i])) &&
            (forall i, j :: 0 <= i < j < |r| ==> !SameSlot(df[r[i]], df[r[j]])) &&
            (forall k :: 0 <= k < |df| ==> exists i :: 0 <= i < |r| && SameSlot(df[r[i]], df[k]))
  {
    var keys := EntityDaysOf(df);
    var r := EntityPeaks(df);
    forall i | 0 <= i < |r|
      ensures EntityPeakAt(df, r[i])
    {
      EntityPeakOfFirstMax(df, r[i]);
    }
    forall i, j | 0 <= i < j < |r|
      ensures !SameSlot(df[r[i]], df[r[j]])
    {
      assert keys[r[i]] != keys[r[j]];
    }
    forall k | 0 <= k < |df|
      ensures exists i :: 0 <= i < |r| && SameSlot(df[r[i]], df[k])
    {
      assert keys[k] in keys;
      var i :| 0 <= i < |r| && keys[r[i]] == keys[k];
      assert SameSlot(df[r[i]], df[k]);
    }
  }

  // ---------------------------------------------------------------- date windows

  /** `update_date_range`: the 30 days up to yesterday, as day numbers (start, end). */
  function DefaultRange(today: int): (r: (int, int))
    ensures r.1 == today - 1 && r.1 - r.0 == 30
  {
    (today - 31, today - 1)
  }

  /** The widest span, in days between start and end, `map_kpi` lets each aggregation query, as written. */
  function SpanLimit(agg: string): (r: Option<nat>)
    ensures r.Some? ==> r.value in {3, 7, 21, 120}
    ensures r == Some(3) <==> agg == "celda" || agg == "sector"
    ensures r == Some(7) <==> agg == "EB"
    ensures r == Some(21) <==> agg == "cluster" || agg == "localidad" || agg == "municipio"
    ensures r == Some(120) <==> agg == "AM" || agg == "deparamento" || agg == "regional"
    ensures agg == "departamento" ==> r.None?
  {
    if agg in ["celda", "sector"] then Some(3)
    else if agg == "EB" then Some(7)
    else if agg in ["cluster", "localidad", "municipio"] then Some(21)
    else if agg in ["AM", "deparamento", "regional"] then Some(120)
    else None
  }

  /** The same table with the department level spelled as the drop-down spells it. */
  function SpanLimitCorrected(agg: string): (r: Option<nat>)
    ensures r.Some? ==> r.value in {3, 7, 21, 120}
    ensures r == Some(3) <==> agg == "celda" || agg == "sector"
    ensures r == Some(7) <==> agg == "EB"
    ensures r == Some(21) <==> agg == "cluster" || agg == "localidad" || agg == "municipio"
    ensures r == Some(120) <==> agg == "AM" || agg == "departamento" || agg == "regional"
    ensures agg == "departamento" ==> r == Some(120)
  {
    if agg in ["celda", "sector"] then Some(3)
    else if agg == "EB" then Some(7)
    else if agg in ["cluster", "localidad", "municipio"] then Some(21)
    else if agg in ["AM", "departamento", "regional"] then Some(120)
    else None
  }

  /**
   * The start day `map_kpi` queries from: a window wider than the limit is cut to the `limit`
   * days ending at `end`; a window within it, or a level without one, is left alone.
   */
  function Clamp(limit: Option<nat>, start: int, end: int): (r: int)
    requires limit.Some? ==> limit.value >= 1
    ensures r >= start
    ensures limit.Some? ==> end - r <= limit.value
    ensures limit.None? || end - start <= limit.value ==> r == start
    ensures limit.Some? && end - start > limit.value ==> end - r == limit.value - 1
  {
    if limit.Some? && end - start > limit.value then end - (limit.value - 1) else start
  }

  /** `map_kpi`'s window narrowing as written. */
  function ClampWindow(agg: string, start: int, end: int): int {
    Clamp(SpanLimit(agg), start, end)
  }

  /** `map_kpi`'s window narrowing with the department level included. */
  function ClampWindowCorrected(agg: string, start: int, end: int): int {
    Clamp(SpanLimitCorrected(agg), start, end)
  }

  /** As written, a department query is never narrowed, however many years it spans. */
  lemma DepartmentNeverClamped(start: int, end: int)
    ensures ClampWindow("departamento", start, end) == start
  {
  }

  /** Corrected, a department query spans at most 120 days, like the metropolitan-area and regional ones. */
  lemma DepartmentClampedCorrected(start: int, end: int)
    ensures end - ClampWindowCorrected("departamento", start, end) <= 120
    ensures ClampWindowCorrected("departamento", start, end) == ClampWindowCorrected("regional", start, end)
  {
  }

  /** The correction changes nothing for any other level. */
  lemma CorrectionOnlyTouchesDepartment(agg: string, start: int, end: int)
    requires agg != "departamento" && agg != "deparamento"
    ensures ClampWindowCorrected(agg, start, end) == ClampWindow(agg, start, end)
  {
  }

  /**
   * The default 30-day window is narrowed for the cell, sector, node, cluster, locality and
   * municipality levels to the last 3, 7 or 21 days, and kept whole for the wider levels.
   */
  lemma DefaultWindowClamped(agg: string, today: int)
    ensures var (start, end) := DefaultRange(today);
            (agg in ["celda", "sector"] ==> ClampWindowCorrected(agg, start, end) == end - 2) &&
            (agg == "EB" ==> ClampWindowCorrected(agg, start, end) == end - 6) &&
            (agg in ["cluster", "localidad", "municipio"] ==> ClampWindowCorrected(agg, start, end) == end - 20) &&
            (agg in ["AM", "departamento", "regional"] ==> ClampWindowCorrected(agg, start, end) == start)
  {
  }

  // ---------------------------------------------------------------- extraer_claves

  /** `extraer_claves(keys_needed, data_dict)`: the entries of the dictionary whose key was asked for. */
  function ExtractKeys<K(!new), V>(keysNeeded: seq<K>, data: map<K, V>): (r: map<K, V>)
    ensures forall k :: k in r <==> k in keysNeeded && k in data
    ensures forall k :: k in r ==> r[k] == data[k]
  {
    map k | k in keysNeeded && k in data :: data[k]
  }

  /** Extracting twice with the same keys is extracting once. */
  lemma ExtractKeysIdempotent<K(!new), V>(keysNeeded: seq<K>, data: map<K, V>)
    ensures ExtractKeys(keysNeeded, ExtractKeys(keysNeeded, data)) == ExtractKeys(keysNeeded, data)
  {
  }

  /** Asking for every key of the dictionary returns the whole dictionary. */
  lemma ExtractAllKeys<K(!new), V>(keysNeeded: seq<K>, data: map<K, V>)
    requires forall k :: k in data ==> k in keysNeeded
    ensures ExtractKeys(keysNeeded, data) == data
  {
  }

  // ---------------------------------------------------------------- drop-down options

  /** The columns of the dashboard's geographic table that the drop-down reads; `None` is a null. */
  datatype GeoRow = GeoRow(
    cellName: Option<string>, sectorName: Option<string>, nodeName: Option<string>,
    clusterKey: Option<string>, locality: Option<string>, localityCode: Option<int>,
    municipality: Option<string>, municipalityCode: Option<int>, metroArea: Option<string>,
    departmentCode: Option<int>, department: Option<string>, regional: Option<string>)

  datatype ChoiceValue = Named(name: string) | Coded(code: int)

  /** One `{'label': ..., 'value': ...}` entry of the drop-down. */
  datatype Choice = Choice(caption: string, value: ChoiceValue)

  function LabelOf(c: Choice): string {
    c.caption
  }

  function ValueOf(c: Choice): ChoiceValue {
    c.value
  }

  /** The levels the drop-down knows; any other value leaves `options` unbound. */
  const Levels: seq<string> :=
    ["celda", "sector", "EB", "cluster", "localidad", "municipio", "AM", "departamento", "regional", "total"]

  const NetworkTotal: string := "Total de la red"

  function Column(rows: seq<GeoRow>, f: GeoRow -> Option<string>): (r: seq<Option<string>>)
    ensures |r| == |rows| && forall i :: 0 <= i < |r| ==> r[i] == f(rows[i])
  {
    seq(|rows|, i requires 0 <= i < |rows| => f(rows[i]))
  }

  /** The non-null values of a column that are not excluded, with their repetitions. */
  function Shown(col: seq<Option<string>>, excluded: set<string>): (r: seq<string>)
    ensures forall x :: x in r <==> Some(x) in col && x !in excluded
  {
    if col == [] then []
    else
      assert col == [col[0]] + col[1..];
      (if col[0].Some? && col[0].value !in excluded then [col[0].value] else []) + Shown(col[1..], excluded)
  }

  /** Each shown value occurs as often as the column holds it. */
  lemma {:induction false} ShownCount(col: seq<Option<string>>, excluded: set<string>, x: string)
    ensures multiset(Shown(col, excluded))[x] == (if x in excluded then 0 else multiset(col)[Some(x)])
  {
    if col != [] {
      ShownCount(col[1..], excluded, x);
      assert col == [col[0]] + col[1..];
    }
  }

  /** A column without repeats shows no value twice. */
  lemma {:induction false} ShownNoDup(col: seq<Option<string>>, excluded: set<string>)
    requires NoDup(col)
    ensures NoDup(Shown(col, excluded))
  {
    if col != [] {
      var t := col[1..];
      NoDupTail(col);
      ShownNoDup(t, excluded);
      var rest := Shown(t, excluded);
      if col[0].Some? && col[0].value !in excluded {
        assert col[0].value !in rest;
        NoDupCons(col[0].value, rest);
        assert Shown(col, excluded) == [col[0].value] + rest;
      } else {
        assert Shown(col, excluded) == rest;
      }
    }
  }

  /** The tail of a sequence without repeats has none and lacks the head. */
  lemma NoDupTail<T>(s: seq<T>)
    requires s != [] && NoDup(s)
    ensures NoDup(s[1..]) && s[0] !in s[1..]
  {
    var t := s[1..];
    forall i, j | 0 <= i < j < |t|
      ensures t[i] != t[j]
    {
      assert t[i] == s[i + 1] && t[j] == s[j + 1];
    }
    forall j | 0 <= j < |t|
      ensures t[j] != s[0]
    {
      assert t[j] == s[j + 1];
    }
  }

  /** Putting a new value in front of a sequence without repeats keeps it without repeats. */
  lemma NoDupCons<T>(x: T, s: seq<T>)
    requires NoDup(s) && x !in s
    ensures NoDup([x] + s)
  {
    var r := [x] + s;
    forall i, j | 0 <= i < j < |r|
      ensures r[i] != r[j]
    {
      if i == 0 {
        assert r[j] == s[j - 1];
      } else {
        assert r[i] == s[i - 1] && r[j] == s[j - 1];
      }
    }
  }

  /** Plain options: each shown value (de-duplicated first when `dedup`) as its own label and value, sorted. */
  function PlainOptions(col: seq<Option<string>>, dedup: bool, excluded: set<string>): seq<Choice> {
    var s := SortBy(Shown(if dedup then Distinct(col) else col, excluded), Itself);
    seq(|s|, i requires 0 <= i < |s| => Choice(s[i], Named(s[i])))
  }

  function LabelsOf(r: seq<Choice>): (ls: seq<string>)
    ensures |ls| == |r| && forall i :: 0 <= i < |ls| ==> ls[i] == r[i].caption
  {
    seq(|r|, i requires 0 <= i < |r| => r[i].caption)
  }

  predicate Labelled(r: seq<Choice>, x: string) {
    exists j :: 0 <= j < |r| && r[j].caption == x
  }

  /** InsertBy places `x` among the elements of `s` and adds nothing else. */
  lemma {:induction false} InsertByMembers<T>(x: T, s: seq<T>, key: T -> string)
    ensures forall z :: z in InsertBy(x, s, key) <==> z == x || z in s
  {
    if s != [] && !StrLe(key(x), key(s[0])) {
      InsertByMembers(x, s[1..], key);
      assert s == [s[0]] + s[1..];
    }
  }

  lemma {:induction false} InsertKeepsDistinctKeys<T(!new), K>(x: T, s: seq<T>, key: T -> string, f: T -> K)
    requires DistinctKeys(s, f) && forall y :: y in s ==> f(y) != f(x)
    ensures DistinctKeys(InsertBy(x, s, key), f)
  {
    if s == [] {
    } else if StrLe(key(x), key(s[0])) {
      var r := [x] + s;
      forall i, j | 0 <= i < j < |r|
        ensures f(r[i]) != f(r[j])
      {
        if i == 0 {
          assert r[j] == s[j - 1];
        } else {
          assert r[i] == s[i - 1] && r[j] == s[j - 1];
        }
      }
    } else {
      var t := s[1..];
      forall i, j | 0 <= i < j < |t|
        ensures f(t[i]) != f(t[j])
      {
        assert t[i] == s[i + 1] && t[j] == s[j + 1];
      }
      InsertKeepsDistinctKeys(x, t, key, f);
      InsertByMembers(x, t, key);
      var tail := InsertBy(x, t, key);
      var r := [s[0]] + tail;
      forall j | 0 <= j < |tail|
        ensures f(s[0]) != f(tail[j])
      {
        assert tail[j] in tail;
        if tail[j] != x {
          var k :| 0 <= k < |t| && t[k] == tail[j];
          assert s[k + 1] == tail[j];
        }
      }
      forall i, j | 0 <= i < j < |r|
        ensures f(r[i]) != f(r[j])
      {
        if i == 0 {
          assert r[j] == tail[j - 1];
        } else {
          assert r[i] == tail[i - 1] && r[j] == tail[j - 1];
        }
      }
    }
  }

  /** Sorting keeps the elements and so keeps any key on which they were distinct distinct. */
  lemma {:induction false} SortKeepsDistinctKeys<T(!new), K>(s: seq<T>, key: T -> string, f: T -> K)
    requires DistinctKeys(s, f)
    ensures DistinctKeys(SortBy(s, key), f)
    ensures forall z :: z in SortBy(s, key) <==> z in s
  {
    SortByCorrect(s, key);
    assert forall z :: z in SortBy(s, key) <==> z in multiset(SortBy(s, key));
    if s != [] {
      var t := s[1..];
      forall i, j | 0 <= i < j < |t|
        ensures f(t[i]) != f(t[j])
      {
        assert t[i] == s[i + 1] && t[j] == s[j + 1];
      }
      SortKeepsDistinctKeys(t, key, f);
      forall y | y in SortBy(t, key)
        ensures f(y) != f(s[0])
      {
        var k :| 0 <= k < |t| && t[k] == y;
        assert s[k + 1] == y;
      }
      InsertKeepsDistinctKeys(s[0], SortBy(t, key), key, f);
    }
  }

  /** The options as `update_dropdown` builds them: the sorted shown values, each its own label and value. */
  lemma PlainOptionsShape(col: seq<Option<string>>, dedup: bool, excluded: set<string>)
    ensures var r := PlainOptions(col, dedup, excluded);
            var s := SortBy(Shown(if dedup then Distinct(col) else col, excluded), Itself);
            LabelsOf(r) == s && SortedBy(r, LabelOf) && multiset(s) == multiset(Shown(if dedup then Distinct(col) else col, excluded)) &&
            (forall j :: 0 <= j < |r| ==> r[j].value == Named(r[j].caption))
  {
    var v := Shown(if dedup then Distinct(col) else col, excluded);
    SortByCorrect(v, Itself);
    var r := PlainOptions(col, dedup, excluded);
    assert LabelsOf(r) == SortBy(v, Itself);
  }

  /** The labels offered are exactly the column's non-null values that are not excluded. */
  lemma PlainOptionsMembers(col: seq<Option<string>>, dedup: bool, excluded: set<string>)
    ensures var r := PlainOptions(col, dedup, excluded);
            forall x :: Labelled(r, x) <==> Some(x) in col && x !in excluded
  {
    PlainOptionsShape(col, dedup, excluded);
    var r := PlainOptions(col, dedup, excluded);
    var v := Shown(if dedup then Distinct(col) else col, excluded);
    LabelledOfPermutation(r, v);
  }

  /** Options whose labels are a permutation of `v` carry exactly the labels in `v`. */
  lemma LabelledOfPermutation(r: seq<Choice>, v: seq<string>)
    requires multiset(LabelsOf(r)) == multiset(v)
    ensures forall x :: Labelled(r, x) <==> x in v
  {
    var s := LabelsOf(r);
    forall x
      ensures Labelled(r, x) <==> x in v
    {
      assert x in s <==> x in multiset(s);
      assert x in v <==> x in multiset(v);
      if Labelled(r, x) {
        var j :| 0 <= j < |r| && r[j].caption == x;
        assert s[j] == x;
      }
      if x in v {
        var j :| 0 <= j < |s| && s[j] == x;
        assert r[j].caption == x;
      }
    }
  }

  /** De-duplicated options carry every label once. */
  lemma PlainOptionsDistinct(col: seq<Option<string>>, excluded: set<string>)
    ensures DistinctKeys(PlainOptions(col, true, excluded), LabelOf)
  {
    PlainOptionsShape(col, true, excluded);
    var r := PlainOptions(col, true, excluded);
    var v := Shown(Distinct(col), excluded);
    var s := SortBy(v, Itself);
    ShownNoDup(Distinct(col), excluded);
    assert DistinctKeys(v, Itself) by {
      forall i, j | 0 <= i < j < |v|
        ensures Itself(v[i]) != Itself(v[j])
      {
      }
    }
    SortKeepsDistinctKeys(v, Itself, Itself);
    forall i, j | 0 <= i < j < |r|
      ensures LabelOf(r[i]) != LabelOf(r[j])
    {
      assert Itself(s[i]) != Itself(s[j]);
    }
  }

  /** Without de-duplication every value is offered as often as the column holds it. */
  lemma PlainOptionsCount(col: seq<Option<string>>, excluded: set<string>, x: string)
    ensures multiset(LabelsOf(PlainOptions(col, false, excluded)))[x] == (if x in excluded then 0 else multiset(col)[Some(x)])
  {
    PlainOptionsShape(col, false, excluded);
    ShownCount(col, excluded, x);
  }

  /**
   * Plain options are sorted by label, carry their label as value, offer exactly the non-null,
   * non-excluded values of the column, each once when de-duplicated, and otherwise as often as
   * the column holds it.
   */
  lemma PlainOptionsSpec(col: seq<Option<string>>, dedup: bool, excluded: set<string>)
    ensures var r := PlainOptions(col, dedup, excluded);
            SortedBy(r, LabelOf) &&
            (forall j :: 0 <= j < |r| ==> r[j].value == Named(r[j].caption)) &&
            (forall x :: Labelled(r, x) <==> Some(x) in col && x !in excluded) &&
            (dedup ==> DistinctKeys(r, LabelOf)) &&
            (!dedup ==> forall x :: multiset(LabelsOf(r))[x] == (if x in excluded then 0 else multiset(col)[Some(x)]))
  {
    PlainOptionsShape(col, dedup, excluded);
    PlainOptionsMembers(col, dedup, excluded);
    if dedup {
      PlainOptionsDistinct(col, excluded);
    } else {
      forall x
        ensures multiset(LabelsOf(PlainOptions(col, false, excluded)))[x] == (if x in excluded then 0 else multiset(col)[Some(x)])
      {
        PlainOptionsCount(col, excluded, x);
      }
    }
  }

  /** Coded options: one per code among the kept rows, from the first kept row of that code, sorted by label. */
  function CodedOptions(rows: seq<GeoRow>, keep: GeoRow -> bool, code: GeoRow -> Option<int>, labelOf: GeoRow -> string): (r: seq<Choice>)
    requires forall x :: keep(x) ==> code(x).Some?
  {
    SortBy(CodedChoices(DedupBy(Filter(rows, keep), code), keep, code, labelOf), LabelOf)
  }

  /** Row `i` is kept and no earlier kept row has its code: `drop_duplicates(subset=code)` keeps it. */
  predicate FirstKept(rows: seq<GeoRow>, keep: GeoRow -> bool, code: GeoRow -> Option<int>, i: int) {
    0 <= i < |rows| && keep(rows[i]) &&
    forall m :: 0 <= m < i && keep(rows[m]) ==> code(rows[m]) != code(rows[i])
  }

  /** Choice `c` is the label and code of a row `drop_duplicates` keeps. */
  predicate FromFirstKept(rows: seq<GeoRow>, keep: GeoRow -> bool, code: GeoRow -> Option<int>, labelOf: GeoRow -> string, c: Choice) {
    exists i :: 0 <= i < |rows| && FirstKept(rows, keep, code, i) && code(rows[i]).Some? && c == Choice(labelOf(rows[i]), Coded(code(rows[i]).value))
  }

  predicate OffersCode(r: seq<Choice>, n: int) {
    exists j :: 0 <= j < |r| && r[j].value == Coded(n)
  }

  /** The first kept row of a code is found at an index no earlier kept row of that code precedes. */
  lemma {:induction false} FirstKeptIndex(rows: seq<GeoRow>, keep: GeoRow -> bool, code: GeoRow -> Option<int>, k: Option<int>)
    requires First(Filter(rows, keep), code, k).Some?
    ensures exists i :: FirstKept(rows, keep, code, i) && rows[i] == First(Filter(rows, keep), code, k).value
  {
    var rest := Filter(rows[1..], keep);
    if keep(rows[0]) && code(rows[0]) == k {
      assert Filter(rows, keep) == [rows[0]] + rest;
      assert FirstKept(rows, keep, code, 0);
    } else {
      if keep(rows[0]) {
        assert Filter(rows, keep) == [rows[0]] + rest;
        assert ([rows[0]] + rest)[1..] == rest;
      } else {
        assert Filter(rows, keep) == rest;
      }
      assert First(Filter(rows, keep), code, k) == First(rest, code, k);
      FirstKeptIndex(rows[1..], keep, code, k);
      var i' :| FirstKept(rows[1..], keep, code, i') && rows[1..][i'] == First(rest, code, k).value;
      assert rows[i' + 1] == rows[1..][i'];
      forall m | 0 <= m < i' + 1 && keep(rows[m])
        ensures code(rows[m]) != code(rows[i' + 1])
      {
        if m > 0 {
          assert rows[m] == rows[1..][m - 1];
        }
      }
      assert FirstKept(rows, keep, code, i' + 1);
    }
  }

  lemma {:induction false} FirstOfMember<T(!new), K>(s: seq<T>, key: T -> K, x: T)
    requires DistinctKeys(s, key) && x in s
    ensures First(s, key, key(x)) == Some(x)
  {
    if s[0] != x {
      var t := s[1..];
      forall i, j | 0 <= i < j < |t|
        ensures key(t[i]) != key(t[j])
      {
        assert t[i] == s[i + 1] && t[j] == s[j + 1];
      }
      var k :| 0 <= k < |s| && s[k] == x;
      assert key(s[0]) != key(x);
      FirstOfMember(t, key, x);
    }
  }

  function CodedChoices(d: seq<GeoRow>, keep: GeoRow -> bool, code: GeoRow -> Option<int>, labelOf: GeoRow -> string): (cs: seq<Choice>)
    requires forall x :: x in d ==> keep(x)
    requires forall x :: keep(x) ==> code(x).Some?
    ensures |cs| == |d| && forall i :: 0 <= i < |d| ==> cs[i] == Choice(labelOf(d[i]), Coded(code(d[i]).value))
  {
    seq(|d|, i requires 0 <= i < |d| => Choice(labelOf(d[i]), Coded(code(d[i]).value)))
  }

  /** The unsorted options: one per row `drop_duplicates` kept. */
  lemma CodedOptionsSorted(rows: seq<GeoRow>, keep: GeoRow -> bool, code: GeoRow -> Option<int>, labelOf: GeoRow -> string)
    requires forall x :: keep(x) ==> code(x).Some?
    ensures var d := DedupBy(Filter(rows, keep), code);
            var cs := CodedChoices(d, keep, code, labelOf);
            var r := CodedOptions(rows, keep, code, labelOf);
            r == SortBy(cs, LabelOf) && SortedBy(r, LabelOf) && DistinctKeys(r, ValueOf) &&
            forall c :: c in r <==> c in cs
  {
    var d := DedupBy(Filter(rows, keep), code);
    var cs := CodedChoices(d, keep, code, labelOf);
    SortByCorrect(cs, LabelOf);
    assert DistinctKeys(cs, ValueOf) by {
      forall i, j | 0 <= i < j < |cs|
        ensures ValueOf(cs[i]) != ValueOf(cs[j])
      {
        assert code(d[i]) != code(d[j]);
      }
    }
    SortKeepsDistinctKeys(cs, LabelOf, ValueOf);
  }

  /** Every coded option is the choice of the first kept row of its code. */
  lemma CodedOptionsFromFirst(rows: seq<GeoRow>, keep: GeoRow -> bool, code: GeoRow -> Option<int>, labelOf: GeoRow -> string)
    requires forall x :: keep(x) ==> code(x).Some?
    ensures var r := CodedOptions(rows, keep, code, labelOf);
            forall j :: 0 <= j < |r| ==> FromFirstKept(rows, keep, code, labelOf, r[j])
  {
    var f := Filter(rows, keep);
    var d := DedupBy(f, code);
    var cs := CodedChoices(d, keep, code, labelOf);
    var r := CodedOptions(rows, keep, code, labelOf);
    CodedOptionsSorted(rows, keep, code, labelOf);
    forall j | 0 <= j < |r|
      ensures FromFirstKept(rows, keep, code, labelOf, r[j])
    {
      assert r[j] in cs;
      var n :| 0 <= n < |d| && cs[n] == r[j];
      var x := d[n];
      FirstOfMember(d, code, x);
      DedupByFirst(f, code, code(x));
      FirstKeptIndex(rows, keep, code, code(x));
      var i :| FirstKept(rows, keep, code, i) && rows[i] == x;
      assert r[j] == Choice(labelOf(rows[i]), Coded(code(rows[i]).value));
    }
  }

  /** Every kept row's code is offered. */
  lemma CodedOptionsCover(rows: seq<GeoRow>, keep: GeoRow -> bool, code: GeoRow -> Option<int>, labelOf: GeoRow -> string)
    requires forall x :: keep(x) ==> code(x).Some?
    ensures var r := CodedOptions(rows, keep, code, labelOf);
            forall i :: 0 <= i < |rows| && keep(rows[i]) ==> OffersCode(r, code(rows[i]).value)
  {
    var f := Filter(rows, keep);
    var d := DedupBy(f, code);
    var cs := CodedChoices(d, keep, code, labelOf);
    var r := CodedOptions(rows, keep, code, labelOf);
    CodedOptionsSorted(rows, keep, code, labelOf);
    forall i | 0 <= i < |rows| && keep(rows[i])
      ensures OffersCode(r, code(rows[i]).value)
    {
      assert rows[i] in f;
      DedupByFirst(f, code, code(rows[i]));
      var x := First(d, code, code(rows[i])).value;
      var n :| 0 <= n < |d| && d[n] == x;
      assert cs[n] in r;
      var j :| 0 <= j < |r| && r[j] == cs[n];
      assert r[j].value == Coded(code(rows[i]).value);
    }
  }

  /**
   * Coded options are sorted by label and carry distinct codes; each comes from the first kept
   * row of its code, and every kept row's code is offered.
   */
  lemma CodedOptionsSpec(rows: seq<GeoRow>, keep: GeoRow -> bool, code: GeoRow -> Option<int>, labelOf: GeoRow -> string)
    requires forall x :: keep(x) ==> code(x).Some?
    ensures var r := CodedOptions(rows, keep, code, labelOf);
            SortedBy(r, LabelOf) && DistinctKeys(r, ValueOf) &&
            (forall j :: 0 <= j < |r| ==> FromFirstKept(rows, keep, code, labelOf, r[j])) &&
            (forall i :: 0 <= i < |rows| && keep(rows[i]) ==> OffersCode(r, code(rows[i]).value))
  {
    CodedOptionsSorted(rows, keep, code, labelOf);
    CodedOptionsFromFirst(rows, keep, code, labelOf);
    CodedOptionsCover(rows, keep, code, labelOf);
  }

  function CellNameOf(g: GeoRow): Option<string> { g.cellName }
  function SectorNameOf(g: GeoRow): Option<string> { g.sectorName }
  function NodeNameOf(g: GeoRow): Option<string> { g.nodeName }
  function ClusterKeyOf(g: GeoRow): Option<string> { g.clusterKey }
  function MetroAreaOf(g: GeoRow): Option<string> { g.metroArea }
  function RegionalOf(g: GeoRow): Option<string> { g.regional }
  function LocalityCodeOf(g: GeoRow): Option<int> { g.localityCode }
  function MunicipalityCodeOf(g: GeoRow): Option<int> { g.municipalityCode }
  function DepartmentCodeOf(g: GeoRow): Option<int> { g.departmentCode }

  /** The locality row survives `dropna` on its four columns and passes `comprobacion_localidad`. */
  predicate LocalityShown(g: GeoRow) {
    g.locality.Some? && g.localityCode.Some? && g.municipality.Some? && g.municipalityCode.Some? &&
    LocalityMatches(g.localityCode.value, g.municipalityCode.value)
  }

  predicate MunicipalityShown(g: GeoRow) {
    g.municipalityCode.Some? && g.municipality.Some?
  }

  predicate DepartmentShown(g: GeoRow) {
    g.departmentCode.Some? && g.department.Some?
  }

  /** "<municipality>: <locality> <code>". */
  function LocalityLabel(g: GeoRow): string {
    g.municipality.GetOr("") + ": " + g.locality.GetOr("") + " " + IntToString(g.localityCode.GetOr(0))
  }

  /** "<municipality> <code>". */
  function MunicipalityLabel(g: GeoRow): string {
    g.municipality.GetOr("") + " " + IntToString(g.municipalityCode.GetOr(0))
  }

  /** "<department> <code>". */
  function DepartmentLabel(g: GeoRow): string {
    g.department.GetOr("") + " " + IntToString(g.departmentCode.GetOr(0))
  }

  /** `update_dropdown(level)`: the options of the selection drop-down; `None` where `options` is never bound. */
  function DropdownOptions(level: string, rows: seq<GeoRow>): (r: Option<seq<Choice>>)
    ensures r.None? <==> level !in Levels
    ensures level == "total" ==> r == Some([Choice(NetworkTotal, Named(NetworkTotal))])
  {
    if level == "celda" then Some(PlainOptions(Column(rows, CellNameOf), false, {}))
    else if level == "sector" then Some(PlainOptions(Column(rows, SectorNameOf), true, {}))
    else if level == "EB" then Some(PlainOptions(Column(rows, NodeNameOf), true, {}))
    else if level == "cluster" then Some(PlainOptions(Column(rows, ClusterKeyOf), true, {}))
    else if level == "localidad" then Some(CodedOptions(rows, LocalityShown, LocalityCodeOf, LocalityLabel))
    else if level == "municipio" then Some(CodedOptions(rows, MunicipalityShown, MunicipalityCodeOf, MunicipalityLabel))
    else if level == "AM" then Some(PlainOptions(Column(rows, MetroAreaOf), true, {NoMetroArea}))
    else if level == "departamento" then Some(CodedOptions(rows, DepartmentShown, DepartmentCodeOf, DepartmentLabel))
    else if level == "regional" then Some(PlainOptions(Column(rows, RegionalOf), true, {}))
    else if level == "total" then Some([Choice(NetworkTotal, Named(NetworkTotal))])
    else None
  }

  predicate HasMetroArea(rows: seq<GeoRow>, x: string) {
    exists i :: 0 <= i < |rows| && rows[i].metroArea == Some(x)
  }

  /** Metropolitan-area options: sorted, each area once, never "Sin AM", and every other area some row names. */
  lemma MetroAreaOptionsSpec(rows: seq<GeoRow>)
    ensures var r := DropdownOptions("AM", rows).value;
            SortedBy(r, LabelOf) && DistinctKeys(r, LabelOf) && !Labelled(r, NoMetroArea) &&
            forall x :: Labelled(r, x) <==> x != NoMetroArea && HasMetroArea(rows, x)
  {
    var col := Column(rows, MetroAreaOf);
    PlainOptionsSpec(col, true, {NoMetroArea});
    forall x
      ensures Some(x) in col <==> HasMetroArea(rows, x)
    {
      if Some(x) in col {
        var i :| 0 <= i < |col| && col[i] == Some(x);
        assert rows[i].metroArea == Some(x);
      }
      if HasMetroArea(rows, x) {
        var i :| 0 <= i < |rows| && rows[i].metroArea == Some(x);
        assert col[i] == Some(x);
      }
    }
  }

  /**
   * Locality options: sorted by label, one per locality code; each is the label and code of the
   * first complete row with that code whose locality code extends its municipality code, and
   * every such row's code is offered.
   */
  lemma LocalityOptionsSpec(rows: seq<GeoRow>)
    ensures var r := DropdownOptions("localidad", rows).value;
            SortedBy(r, LabelOf) && DistinctKeys(r, ValueOf) &&
            (forall j :: 0 <= j < |r| ==> FromFirstKept(rows, LocalityShown, LocalityCodeOf, LocalityLabel, r[j])) &&
            (forall i :: 0 <= i < |rows| && LocalityShown(rows[i]) ==> OffersCode(r, rows[i].localityCode.value))
  {
    CodedOptionsSpec(rows, LocalityShown, LocalityCodeOf, LocalityLabel);
  }

  /** Municipality options: sorted by label, one per code, from the first complete row of each code. */
  lemma MunicipalityOptionsSpec(rows: seq<GeoRow>)
    ensures var r := DropdownOptions("municipio", rows).value;
            SortedBy(r, LabelOf) && DistinctKeys(r, ValueOf) &&
            (forall j :: 0 <= j < |r| ==> FromFirstKept(rows, MunicipalityShown, MunicipalityCodeOf, MunicipalityLabel, r[j])) &&
            (forall i :: 0 <= i < |rows| && MunicipalityShown(rows[i]) ==> OffersCode(r, rows[i].municipalityCode.value))
  {
    CodedOptionsSpec(rows, MunicipalityShown, MunicipalityCodeOf, MunicipalityLabel);
  }

  /** Department options: sorted by label, one per code, from the first complete row of each code. */
  lemma DepartmentOptionsSpec(rows: seq<GeoRow>)
    ensures var r := DropdownOptions("departamento", rows).value;
            SortedBy(r, LabelOf) && DistinctKeys(r, ValueOf) &&
            (forall j :: 0 <= j < |r| ==> FromFirstKept(rows, DepartmentShown, DepartmentCodeOf, DepartmentLabel, r[j])) &&
            (forall i :: 0 <= i < |rows| && DepartmentShown(rows[i]) ==> OffersCode(r, rows[i].departmentCode.value))
  {
    CodedOptionsSpec(rows, DepartmentShown, DepartmentCodeOf, DepartmentLabel);
  }

  /** The column a plain, de-duplicated level lists. */
  function NamedColumnOf(level: string): (f: GeoRow -> Option<string>)
    requires level in ["sector", "EB", "cluster", "regional"]
  {
    if level == "sector" then SectorNameOf
    else if level == "EB" then NodeNameOf
    else if level == "cluster" then ClusterKeyOf
    else RegionalOf
  }

  /** Sector, node, cluster and regional options: sorted, each non-null value of the level's column exactly once. */
  lemma NamedOptionsSpec(level: string, rows: seq<GeoRow>)
    requires level in ["sector", "EB", "cluster", "regional"]
    ensures var r := DropdownOptions(level, rows).value;
            SortedBy(r, LabelOf) && DistinctKeys(r, LabelOf) &&
            (forall j :: 0 <= j < |r| ==> r[j].value == Named(r[j].caption)) &&
            forall x :: Labelled(r, x) <==> Some(x) in Column(rows, NamedColumnOf(level))
  {
    PlainOptionsSpec(Column(rows, NamedColumnOf(level)), true, {});
  }

  /** Cell options keep every non-null cell name, repeated as often as the table repeats it, sorted. */
  lemma CellOptionsSpec(rows: seq<GeoRow>)
    ensures var r := DropdownOptions("celda", rows).value;
            SortedBy(r, LabelOf) &&
            forall x :: multiset(LabelsOf(r))[x] == multiset(Column(rows, CellNameOf))[Some(x)]
  {
    PlainOptionsSpec(Column(rows, CellNameOf), false, {});
  }
}
