/**
 * The fourteen hourly radio counters every raw and aggregate row carries, as an exact vector.
 * Positions follow the column order of the cleaned CSV and of every aggregate table.
 */
module Measures {

  /** The counter column names, in table order. */
  const Names: seq<string> := [
    "L.Traffic.ActiveUser.DL.Avg", "L.Traffic.ActiveUser.DL.Max",
    "L.Traffic.ActiveUser.UL.Avg", "L.Traffic.ActiveUser.UL.Max",
    "L.Traffic.User.Avg", "L.Traffic.User.Max",
    "L.ChMeas.PRB.DL.Avail", "L.ChMeas.PRB.DL.Used.Avg",
    "L.ChMeas.PRB.UL.Avail", "L.ChMeas.PRB.UL.Used.Avg",
    "L.Thrp.bits.DL(bit)", "L.Thrp.bits.UL(bit)",
    "L.Thrp.bits.DL.LastTTI(bit)", "L.Thrp.Time.DL.RmvLastTTI(ms)"]

  const Width: nat := 14

  // Positions of the counters the busy-hour KPIs read.
  const DlActiveUserAvg: nat := 0
  const DlActiveUserMax: nat := 1
  const PrbDlAvail: nat := 6
  const PrbDlUsedAvg: nat := 7
  const PrbUlAvail: nat := 8
  const PrbUlUsedAvg: nat := 9
  const ThrpBitsDl: nat := 10
  const ThrpBitsDlLastTti: nat := 12
  const ThrpTimeDlRmvLastTti: nat := 13

  type Vector = v: seq<real> | |v| == 14
    witness [0.0, 0.0, 0.0, 0.0, 0.0, 0.0, 0.0, 0.0, 0.0, 0.0, 0.0, 0.0, 0.0, 0.0]

  function Zero(): Vector {
    seq(14, i => 0.0)
  }

  /** Column-wise addition: what `groupby(...).sum()` does to two rows of one group. */
  function Add(a: Vector, b: Vector): (r: Vector)
    ensures forall i :: 0 <= i < 14 ==> r[i] == a[i] + b[i]
  {
    seq(14, i requires 0 <= i < 14 => a[i] + b[i])
  }

  lemma AddZero(a: Vector)
    ensures Add(a, Zero()) == a && Add(Zero(), a) == a
  {
  }

  lemma AddComm(a: Vector, b: Vector)
    ensures Add(a, b) == Add(b, a)
  {
  }

  lemma AddAssoc(a: Vector, b: Vector, c: Vector)
    ensures Add(Add(a, b), c) == Add(a, Add(b, c))
  {
  }

  /** Regrouping four summands: the step every group-sum proof needs. */
  lemma AddSwapMiddle(a: Vector, b: Vector, c: Vector, d: Vector)
    ensures Add(Add(a, b), Add(c, d)) == Add(Add(a, c), Add(b, d))
  {
  }
}
