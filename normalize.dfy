/** The zero-norm guard of `normalized` in align.py: every row is divided by
    its norm, except that a norm of zero is replaced by one first. The norm
    itself is a parameter; nothing here depends on how it is computed. */
module Normalize {
  import opened Vocab

  /** `l2[l2 == 0] = 1`, for one row: a zero norm becomes one. */
  function GuardNorm(n: real): (r: real)
    ensures r != 0.0
    ensures n != 0.0 ==> r == n
  {
    if n == 0.0 then 1.0 else n
  }

  /** A row divided componentwise by `d`. */
  function Scale(v: Vector, d: real): Vector
    requires d != 0.0
  {
    seq(|v|, j requires 0 <= j < |v| => v[j] / d)
  }

  /** `normalized(a)`: each row divided by its guarded norm. */
  function Normalized(rows: seq<Vector>, norm: Vector -> real): (r: seq<Vector>)
    ensures |r| == |rows|
    ensures forall i :: 0 <= i < |rows| ==> |r[i]| == |rows[i]|
  {
    seq(|rows|, i requires 0 <= i < |rows| => Scale(rows[i], GuardNorm(norm(rows[i]))))
  }

  /** Normalising keeps the shape of the matrix; a row whose norm is zero is
      returned as it is, and any other row is scaled so that multiplying it
      back by its norm gives the original row. */
  lemma NormalizedRows(rows: seq<Vector>, norm: Vector -> real, i: nat)
    requires i < |rows|
    ensures |Normalized(rows, norm)| == |rows|
    ensures |Normalized(rows, norm)[i]| == |rows[i]|
    ensures norm(rows[i]) == 0.0 ==> Normalized(rows, norm)[i] == rows[i]
    ensures forall j :: 0 <= j < |rows[i]| ==>
              Normalized(rows, norm)[i][j] * GuardNorm(norm(rows[i])) == rows[i][j]
  {
    var d := GuardNorm(norm(rows[i]));
    var r := Normalized(rows, norm)[i];
    assert r == Scale(rows[i], d);
    forall j | 0 <= j < |rows[i]| ensures r[j] * d == rows[i][j] {
      assert r[j] == rows[i][j] / d;
    }
  }

  /** A zero row stays a zero row (it never becomes undefined). */
  lemma ZeroRowStaysZero(rows: seq<Vector>, norm: Vector -> real, i: nat)
    requires i < |rows|
    requires forall j :: 0 <= j < |rows[i]| ==> rows[i][j] == 0.0
    ensures forall j :: 0 <= j < |rows[i]| ==> Normalized(rows, norm)[i][j] == 0.0
  {
    var d := GuardNorm(norm(rows[i]));
    assert Normalized(rows, norm)[i] == Scale(rows[i], d);
  }
}
