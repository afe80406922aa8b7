/** `Vec4`, `Mat4` and `Mat4_Transpose` of `include/types.h`. Transposing
    only moves fields, so the element type is a parameter. */
module Matrix {

  datatype Vec4<T> = Vec4(x: T, y: T, z: T, w: T)

  /** Rows `x_row` to `w_row`. */
  datatype Mat4<T> = Mat4(xRow: Vec4<T>, yRow: Vec4<T>, zRow: Vec4<T>, wRow: Vec4<T>)

  /** Component `i` of `v`, counting `x, y, z, w` from 0. */
  function Component<T>(v: Vec4<T>, i: nat): T
    requires i < 4
  {
    if i == 0 then v.x else if i == 1 then v.y else if i == 2 then v.z else v.w
  }

  function Row<T>(m: Mat4<T>, r: nat): Vec4<T>
    requires r < 4
  {
    if r == 0 then m.xRow else if r == 1 then m.yRow else if r == 2 then m.zRow else m.wRow
  }

  /** The entry in row `r`, column `c`. */
  function Entry<T>(m: Mat4<T>, r: nat, c: nat): T
    requires r < 4 && c < 4
  {
    Component(Row(m, r), c)
  }

  /** Models `Mat4_Transpose`. */
  function Transpose<T>(m: Mat4<T>): (t: Mat4<T>)
    ensures forall r: nat, c: nat :: r < 4 && c < 4 ==> Entry(t, r, c) == Entry(m, c, r)
  {
    Mat4(
      Vec4(m.xRow.x, m.yRow.x, m.zRow.x, m.wRow.x),
      Vec4(m.xRow.y, m.yRow.y, m.zRow.y, m.wRow.y),
      Vec4(m.xRow.z, m.yRow.z, m.zRow.z, m.wRow.z),
      Vec4(m.xRow.w, m.yRow.w, m.zRow.w, m.wRow.w))
  }

  /** A matrix is determined by its sixteen entries. */
  lemma EntriesDetermine<T>(a: Mat4<T>, b: Mat4<T>)
    requires forall r: nat, c: nat :: r < 4 && c < 4 ==> Entry(a, r, c) == Entry(b, r, c)
    ensures a == b
  {
    forall r: nat | r < 4
      ensures Row(a, r) == Row(b, r)
    {
      assert Entry(a, r, 0) == Entry(b, r, 0) && Entry(a, r, 1) == Entry(b, r, 1);
      assert Entry(a, r, 2) == Entry(b, r, 2) && Entry(a, r, 3) == Entry(b, r, 3);
    }
    assert Row(a, 0) == Row(b, 0) && Row(a, 1) == Row(b, 1);
    assert Row(a, 2) == Row(b, 2) && Row(a, 3) == Row(b, 3);
  }

  /** Transposing twice gives back the matrix. */
  lemma TransposeInvolution<T>(m: Mat4<T>)
    ensures Transpose(Transpose(m)) == m
  {
    EntriesDetermine(Transpose(Transpose(m)), m);
  }

  /** The diagonal stays in place. */
  lemma TransposeFixesDiagonal<T>(m: Mat4<T>, i: nat)
    requires i < 4
    ensures Entry(Transpose(m), i, i) == Entry(m, i, i)
  {
  }

  /** The transpose is the only matrix whose row `r`, column `c` is the
      input's row `c`, column `r`. */
  lemma TransposeUnique<T>(m: Mat4<T>, t: Mat4<T>)
    requires forall r: nat, c: nat :: r < 4 && c < 4 ==> Entry(t, r, c) == Entry(m, c, r)
    ensures t == Transpose(m)
  {
    EntriesDetermine(t, Transpose(m));
  }

  /** The matrix of the transpose test: entry `r.c` becomes entry `c.r`. */
  lemma TransposeExample()
    ensures Transpose(Mat4(Vec4(0.0, 0.1, 0.2, 0.3), Vec4(1.0, 1.1, 1.2, 1.3),
                           Vec4(2.0, 2.1, 2.2, 2.3), Vec4(3.0, 3.1, 3.2, 3.3)))
         == Mat4(Vec4(0.0, 1.0, 2.0, 3.0), Vec4(0.1, 1.1, 2.1, 3.1),
                 Vec4(0.2, 1.2, 2.2, 3.2), Vec4(0.3, 1.3, 2.3, 3.3))
  {
  }
}
