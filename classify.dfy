/**
 * The classification rules the ETL and the dashboard share: the metropolitan area of a cell name,
 * the DANE locality-code consistency check and the sector bucket of a sector number.
 */
module Classify {
  import opened Common
  import opened Text

  /** The fallback area of a name whose leading code is not a known metropolitan code. */
  const NoMetroArea: string := "Sin AM"

  /** Leading city code of a cell name -> metropolitan area. */
  const MetroAreas: map<string, string> := map[
    "ARM" := "Armenia AM", "CARM" := "Armenia AM",
    "AMB" := "Barranquilla AM", "BQL" := "Barranquilla AM", "CBQL" := "Barranquilla AM",
    "BTA" := "Bogota AM", "CBT" := "Bogota AM", "CBTA" := "Bogota AM",
    "AMS" := "Bucaramanga AM", "BUC" := "Bucaramanga AM", "CBUC" := "Bucaramanga AM",
    "CCLI" := "Cali AM", "CLI" := "Cali AM",
    "CAR" := "Cartagena AM", "CCAR" := "Cartagena AM",
    "AMC" := "Cucuta AM", "CCUC" := "Cucuta AM", "CUC" := "Cucuta AM",
    "CMAN" := "Manizales AM", "MAN" := "Manizales AM",
    "AMA" := "Medellin AM", "CMED" := "Medellin AM", "MED" := "Medellin AM",
    "CPER" := "Pereira AM", "CRI" := "Pereira AM", "PER" := "Pereira AM",
    "AMV" := "Valledupar AM", "CVDP" := "Valledupar AM", "VDP" := "Valledupar AM"]

  /**
   * `area_metro(cell_name)`: the area of the first whitespace-separated word of the name, or
   * "Sin AM". `None` stands for the IndexError `split()[0]` raises on a blank name.
   */
  function AreaMetro(cellName: string): (r: Option<string>)
    ensures r.None? <==> AllSpace(cellName)
    ensures r.Some? ==> r.value == NoMetroArea || r.value in MetroAreas.Values
  {
    match FirstToken(cellName)
    case None => None
    case Some(code) => Some(if code in MetroAreas then MetroAreas[code] else NoMetroArea)
  }

  /**
   * The area depends on the whole leading word and nothing else: a name made of optional blanks,
   * a word and then nothing or a blank gets that word's area, with no prefix matching.
   */
  lemma AreaMetroOfLeadingWord(lead: string, code: string, rest: string)
    requires AllSpace(lead) && code != [] && NoSpace(code)
    requires rest == [] || IsSpace(rest[0])
    ensures AreaMetro(lead + code + rest)
         == Some(if code in MetroAreas then MetroAreas[code] else NoMetroArea)
  {
    FirstTokenOf(lead, code, rest);
  }

  /** No metropolitan code contains an underscore. */
  lemma NoCodeHasUnderscore(s: string)
    requires '_' in s
    ensures s !in MetroAreas
  {
  }

  /** A name with no blank in it that contains an underscore is always "Sin AM". */
  lemma AreaMetroOfUnderscoredWord(name: string)
    requires name != [] && NoSpace(name) && '_' in name
    ensures AreaMetro(name) == Some(NoMetroArea)
  {
    NoCodeHasUnderscore(name);
    AreaMetroOfLeadingWord([], name, []);
    assert [] + name + [] == name;
  }

  /**
   * `comprobacion_localidad`: the decimal form of the locality code begins with the decimal
   * form of the municipality code.
   */
  predicate LocalityMatches(localityCode: int, municipalityCode: int) {
    StartsWith(IntToString(localityCode), IntToString(municipalityCode))
  }

  lemma {:induction false} DigitsValueAppend(a: string, b: string)
    requires AllDigits(a) && AllDigits(b)
    ensures AllDigits(a + b)
    ensures DigitsValue(a + b) == DigitsValue(a) * Pow10(|b|) + DigitsValue(b)
    ensures DigitsValue(b) < Pow10(|b|)
    decreases |b|
  {
    var s := a + b;
    assert AllDigits(s);
    if b == [] {
      assert s == a;
    } else {
      var n := |b| - 1;
      var front := b[..n];
      assert s[..|s| - 1] == a + front;
      assert b[..|b| - 1] == front;
      assert s[|s| - 1] == b[n];
      DigitsValueAppend(a, front);
      var va, vf, d, p := DigitsValue(a), DigitsValue(front), DigitValue(b[n]), Pow10(n);
      assert DigitsValue(s) == DigitsValue(a + front) * 10 + d;
      assert DigitsValue(b) == vf * 10 + d;
      assert Pow10(|b|) == p * 10;
      ShiftDigit(va, vf, d, p);
    }
  }

  /** Appending one digit to both a number and its low part. */
  lemma ShiftDigit(va: nat, vf: nat, d: nat, p: nat)
    requires vf < p && d < 10
    ensures (va * p + vf) * 10 + d == va * (p * 10) + (vf * 10 + d)
    ensures vf * 10 + d < p * 10
  {
  }

  /** `l` is `m` followed by the `k`-digit block `r`. */
  predicate Extends(l: nat, m: nat, k: nat, r: nat) {
    r < Pow10(k) && l == m * Pow10(k) + r
  }

  /** A passing check means the locality code is the municipality code followed by some digits. */
  lemma {:induction false} LocalityMatchesShifted(l: nat, m: nat)
    requires m >= 1 && LocalityMatches(l, m)
    ensures exists k: nat, r: nat :: Extends(l, m, k, r)
  {
    var s, p := NatToString(l), NatToString(m);
    assert IntToString(l) == s && IntToString(m) == p;
    var tail := s[|p|..];
    assert s == p + tail by {
      assert s[..|p|] == p;
    }
    var k, r := |tail|, DigitsValue(tail);
    DigitsValueAppend(p, tail);
    NatToStringValue(l);
    NatToStringValue(m);
    assert DigitsValue(s) == DigitsValue(p) * Pow10(k) + r;
    assert Extends(l, m, k, r);
  }

  /** Appending digits to a positive municipality code always gives a locality code that passes. */
  lemma {:induction false} ShiftedLocalityMatches(l: nat, m: nat, k: nat, r: nat)
    requires m >= 1 && Extends(l, m, k, r)
    ensures LocalityMatches(l, m)
  {
    NatToStringExtend(m, k, r);
    var s, p := NatToString(l), NatToString(m);
    assert IntToString(l) == s && IntToString(m) == p;
    assert s == p + Padded(r, k);
    assert s[..|p|] == p;
  }

  /**
   * For a non-negative locality code and a positive municipality code, the check passes exactly
   * when the locality code is the municipality code followed by some block of decimal digits.
   */
  lemma LocalityMatchesIff(l: nat, m: nat)
    requires m >= 1
    ensures LocalityMatches(l, m) <==> exists k: nat, r: nat :: Extends(l, m, k, r)
  {
    if LocalityMatches(l, m) {
      LocalityMatchesShifted(l, m);
    }
    if exists k: nat, r: nat :: Extends(l, m, k, r) {
      var k: nat, r: nat :| Extends(l, m, k, r);
      ShiftedLocalityMatches(l, m, k, r);
    }
  }

  /** The sentinel locality code -1 never passes the check against a real municipality code. */
  lemma SentinelNeverMatches(m: nat)
    ensures !LocalityMatches(-1, m)
  {
    var p := NatToString(m);
    assert IsDigit(p[0]);
  }

  /** With both codes unknown (-1), the check passes: "-1" starts with "-1". */
  lemma SentinelMatchesItself()
    ensures LocalityMatches(-1, -1)
  {
    assert IntToString(-1) == "-1";
  }

  /** The sector bucket of `dwh_sector`: sectors 1..9 fold onto 1..3 by their position mod 3; anything else is 4. */
  function SectorBucket(sector: int): (b: int)
    ensures 1 <= b <= 4
    ensures 1 <= sector <= 9 ==> b == (sector - 1) % 3 + 1
    ensures !(1 <= sector <= 9) ==> b == 4
  {
    if sector in {1, 4, 7} then 1
    else if sector in {2, 5, 8} then 2
    else if sector in {3, 6, 9} then 3
    else 4
  }
}
