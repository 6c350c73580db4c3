/** The weight matrix handed to the solver and the values derived from it
    before the search starts: the padded cell values and the initial label of
    a left vertex. */
module Weights {

  function Max(a: int, b: int): int
  {
    if a >= b then a else b
  }

  /** The input has at least one row and all rows have the length of the first. */
  ghost predicate Rectangular(m: seq<seq<int>>)
  {
    |m| > 0 && forall i :: 0 <= i < |m| ==> |m[i]| == |m[0]|
  }

  ghost predicate Square<T>(m: seq<seq<T>>, n: nat)
  {
    |m| == n && forall i :: 0 <= i < n ==> |m[i]| == n
  }

  /** The weight a cell of the original rectangle receives in the padded
      matrix: copied in perfect mode, clamped at zero otherwise. */
  function CellWeight(v: int, perfect: bool): int
  {
    if perfect then v else Max(0, v)
  }

  /** The initial label of a left vertex: the largest weight on its row, and
      never below zero, because the running maximum starts from a zero label. */
  function RowMax(row: seq<int>): (m: int)
    ensures m >= 0
    ensures forall j :: 0 <= j < |row| ==> row[j] <= m
    ensures m == 0 || exists j :: 0 <= j < |row| && row[j] == m
  {
    if row == [] then 0 else Max(RowMax(row[..|row| - 1]), row[|row| - 1])
  }
}
