/** Fixed-size real matrices used for poses (3x4) and the camera matrix (3x3).
    Entries are copied, never computed, so reals stand in for the source's floats. */
module Matrices {

  type Row3 = r: seq<real> | |r| == 3 witness [0.0, 0.0, 0.0]
  type Row4 = r: seq<real> | |r| == 4 witness [0.0, 0.0, 0.0, 0.0]
  const ZeroRow3: Row3 := [0.0, 0.0, 0.0]
  const ZeroRow4: Row4 := [0.0, 0.0, 0.0, 0.0]
  type Mat33 = m: seq<Row3> | |m| == 3 witness [ZeroRow3, ZeroRow3, ZeroRow3]
  type Mat34 = m: seq<Row4> | |m| == 3 witness [ZeroRow4, ZeroRow4, ZeroRow4]

  /** The all-zero 3x4 matrix. */
  function Zero34(): (z: Mat34)
    ensures forall i, j | 0 <= i < 3 && 0 <= j < 4 :: z[i][j] == 0.0
  {
    [ZeroRow4, ZeroRow4, ZeroRow4]
  }

  /** The 3x3 identity, as `setIdentity` leaves a matrix. */
  function Identity33(): (m: Mat33)
    ensures forall i, j | 0 <= i < 3 && 0 <= j < 3 :: m[i][j] == if i == j then 1.0 else 0.0
  {
    var r0: Row3 := [1.0, 0.0, 0.0];
    var r1: Row3 := [0.0, 1.0, 0.0];
    var r2: Row3 := [0.0, 0.0, 1.0];
    [r0, r1, r2]
  }

  /** `m.at(i, j) = v`: one entry replaced, all others kept. */
  function SetEntry(m: Mat33, i: nat, j: nat, v: real): (r: Mat33)
    requires i < 3 && j < 3
    ensures r[i][j] == v
    ensures forall a, b | 0 <= a < 3 && 0 <= b < 3 && (a != i || b != j) :: r[a][b] == m[a][b]
  {
    m[i := m[i][j := v]]
  }
}
