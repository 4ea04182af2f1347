/**
 * The numeric side of the plugin: 4x4 transform matrices held row-major,
 * the element-wise blend `multiply`/`_multiply` and the serialiser
 * `toString` that writes a matrix as a CSS `matrix3d(...)` value.
 * JavaScript numbers are modelled as `real`; `Number.prototype.toFixed(10)`
 * is a parameter `fmt` of the serialiser.
 */
module Matrix3D {
  import opened JsText

  predicate Is4x4(m: seq<seq<real>>) {
    |m| == 4 && |m[0]| == 4 && |m[1]| == 4 && |m[2]| == 4 && |m[3]| == 4
  }

  /** A transform matrix: four rows of four numbers. */
  type Matrix4 = m: seq<seq<real>> | Is4x4(m)
    witness [[1.0, 0.0, 0.0, 0.0], [0.0, 1.0, 0.0, 0.0], [0.0, 0.0, 1.0, 0.0], [0.0, 0.0, 0.0, 1.0]]

  /** `IDENTITY`. */
  const Identity: Matrix4 :=
    [[1.0, 0.0, 0.0, 0.0], [0.0, 1.0, 0.0, 0.0], [0.0, 0.0, 1.0, 0.0], [0.0, 0.0, 0.0, 1.0]]

  lemma IdentityCells(i: nat, j: nat)
    requires i < 4 && j < 4
    ensures Identity[i][j] == if i == j then 1.0 else 0.0
  {
  }

  /** Two matrices that agree in every cell are the same matrix. */
  lemma {:induction false} CellwiseEqual(a: Matrix4, b: Matrix4)
    requires forall i, j :: 0 <= i < 4 && 0 <= j < 4 ==> a[i][j] == b[i][j]
    ensures a == b
  {
    forall i | 0 <= i < 4 ensures a[i] == b[i] {
      assert |a[i]| == |b[i]| == 4;
    }
  }

  // ---------------------------------------------------------------- blending

  /** `_multiply`: the blend of one cell, not clamped to `0 <= ratio <= 1`. */
  function Lerp(v0: real, v1: real, ratio: real): (v: real)
    ensures ratio == 0.0 ==> v == v0
    ensures ratio == 1.0 ==> v == v1
    ensures v0 == v1 ==> v == v0
    ensures 0.0 <= ratio <= 1.0 && v0 <= v1 ==> v0 <= v <= v1
    ensures 0.0 <= ratio <= 1.0 && v1 <= v0 ==> v1 <= v <= v0
  {
    ScaledStep(v1 - v0, ratio);
    v0 + (v1 - v0) * ratio
  }

  /** A step `d * t` with `0 <= t <= 1` lies between 0 and `d`. */
  lemma ScaledStep(d: real, t: real)
    ensures t == 0.0 ==> d * t == 0.0
    ensures t == 1.0 ==> d * t == d
    ensures 0.0 <= t <= 1.0 && 0.0 <= d ==> 0.0 <= d * t <= d
    ensures 0.0 <= t <= 1.0 && d <= 0.0 ==> d <= d * t <= 0.0
  {
    if 0.0 <= t <= 1.0 {
      assert d - d * t == d * (1.0 - t);
    }
  }

  /** The matrix `multiply` builds: `Lerp` applied cell by cell. */
  function Blend(v0: Matrix4, v1: Matrix4, ratio: real): Matrix4 {
    seq(4, i requires 0 <= i < 4 =>
      seq(4, j requires 0 <= j < 4 => Lerp(v0[i][j], v1[i][j], ratio)))
  }

  /**
   * `multiply`: a new matrix whose every cell is the blend of the two inputs'
   * cells; the inputs are values and stay as they were.
   */
  method Multiply(v0: Matrix4, v1: Matrix4, ratio: real) returns (v: Matrix4)
    ensures forall i, j :: 0 <= i < 4 && 0 <= j < 4 ==>
      v[i][j] == v0[i][j] + (v1[i][j] - v0[i][j]) * ratio
    ensures v == Blend(v0, v1, ratio)
  {
    var rows: seq<seq<real>> := [];
    for i := 0 to 4
      invariant |rows| == i
      invariant forall a :: 0 <= a < i ==>
        |rows[a]| == 4 && forall b :: 0 <= b < 4 ==> rows[a][b] == Lerp(v0[a][b], v1[a][b], ratio)
    {
      var row: seq<real> := [];
      var v0i, v1i := v0[i], v1[i];
      for j := 0 to 4
        invariant |row| == j
        invariant forall b :: 0 <= b < j ==> row[b] == Lerp(v0i[b], v1i[b], ratio)
      {
        row := row + [Lerp(v0i[j], v1i[j], ratio)];
      }
      rows := rows + [row];
    }
    v := rows;
    CellwiseEqual(v, Blend(v0, v1, ratio));
  }

  /** Ratio 0 gives the start matrix. */
  lemma BlendAtZero(v0: Matrix4, v1: Matrix4)
    ensures Blend(v0, v1, 0.0) == v0
  {
    CellwiseEqual(Blend(v0, v1, 0.0), v0);
  }

  /** Ratio 1 gives the end matrix. */
  lemma BlendAtOne(v0: Matrix4, v1: Matrix4)
    ensures Blend(v0, v1, 1.0) == v1
  {
    CellwiseEqual(Blend(v0, v1, 1.0), v1);
  }

  /** Blending a matrix with itself gives it back, whatever the ratio. */
  lemma BlendSame(v: Matrix4, ratio: real)
    ensures Blend(v, v, ratio) == v
  {
    CellwiseEqual(Blend(v, v, ratio), v);
  }

  /** In particular `IDENTITY` blended with `IDENTITY` is `IDENTITY`. */
  lemma BlendIdentity(ratio: real)
    ensures Blend(Identity, Identity, ratio) == Identity
  {
    BlendSame(Identity, ratio);
  }

  /** Blending from `v1` back to `v0` at `1 - ratio` is the same blend. */
  lemma BlendReversed(v0: Matrix4, v1: Matrix4, ratio: real)
    ensures Blend(v1, v0, 1.0 - ratio) == Blend(v0, v1, ratio)
  {
    CellwiseEqual(Blend(v1, v0, 1.0 - ratio), Blend(v0, v1, ratio));
  }

  // ---------------------------------------------------------------- serialising

  /** No output of `fmt` contains a comma or a line terminator (true of `toFixed`). */
  ghost predicate PlainFormat(fmt: real -> string) {
    forall x :: ',' !in fmt(x) && NoLineTerminator(fmt(x))
  }

  /** The sixteen formatted cells in row-major order: cell `[i][j]` at `i * 4 + j`. */
  function Cells(m: Matrix4, fmt: real -> string): seq<string> {
    seq(16, k requires 0 <= k < 16 => fmt(m[k / 4][k % 4]))
  }

  /** The CSS text `toString` produces. */
  function Serialize(m: Matrix4, fmt: real -> string): string {
    "matrix3d(" + Join(Cells(m, fmt), ',') + ")"
  }

  /**
   * `toString`: appends `matrix3d(`, then every cell formatted and followed by
   * a comma, drops the last comma and closes the parenthesis.
   */
  method ToString(m: Matrix4, fmt: real -> string) returns (s: string)
    ensures s == Serialize(m, fmt)
  {
    ghost var cells := Cells(m, fmt);
    s := "matrix3d(";
    for i := 0 to 4
      invariant s == "matrix3d(" + Terminated(cells[..4 * i], ',')
    {
      for j := 0 to 4
        invariant s == "matrix3d(" + Terminated(cells[..4 * i + j], ',')
      {
        assert cells[4 * i + j] == fmt(m[i][j]);
        assert cells[..4 * i + j + 1] == cells[..4 * i + j] + [fmt(m[i][j])];
        TerminatedAppend(cells[..4 * i + j], fmt(m[i][j]), ',');
        s := s + fmt(m[i][j]) + ",";
      }
    }
    assert cells[..16] == cells;
    TerminatedIsJoin(cells, ',');
    assert s == "matrix3d(" + Join(cells, ',') + ",";
    s := s[..|s| - 1];
    s := s + ")";
  }

  /**
   * The serialised text: `matrix3d(`, then the sixteen formatted cells in
   * row-major order separated by single commas (none after the last), then `)`.
   */
  lemma {:induction false} SerializeLayout(m: Matrix4, fmt: real -> string)
    requires PlainFormat(fmt)
    ensures var s := Serialize(m, fmt);
      |s| >= 10 && s[..9] == "matrix3d(" && s[|s| - 1] == ')' &&
      var fields := Split(s[9..|s| - 1], ',');
      |fields| == 16 &&
      forall i, j :: 0 <= i < 4 && 0 <= j < 4 ==> fields[i * 4 + j] == fmt(m[i][j])
  {
    var s := Serialize(m, fmt);
    var cells := Cells(m, fmt);
    assert s[9..|s| - 1] == Join(cells, ',');
    CellsPlain(m, fmt);
    SplitJoin(cells, ',');
    forall i, j | 0 <= i < 4 && 0 <= j < 4 ensures cells[i * 4 + j] == fmt(m[i][j]) {
      CellAt(m, fmt, i, j);
    }
  }

  /** Cell `[i][j]` is formatted at position `i * 4 + j`. */
  lemma CellAt(m: Matrix4, fmt: real -> string, i: nat, j: nat)
    requires i < 4 && j < 4
    ensures Cells(m, fmt)[i * 4 + j] == fmt(m[i][j])
  {
    assert (i * 4 + j) / 4 == i && (i * 4 + j) % 4 == j;
  }

  /** With a plain formatter, no formatted cell holds a comma or a line terminator. */
  lemma CellsPlain(m: Matrix4, fmt: real -> string)
    requires PlainFormat(fmt)
    ensures forall k :: 0 <= k < 16 ==> ',' !in Cells(m, fmt)[k] && NoLineTerminator(Cells(m, fmt)[k])
  {
    forall k | 0 <= k < 16 ensures ',' !in Cells(m, fmt)[k] && NoLineTerminator(Cells(m, fmt)[k]) {
      assert k / 4 < 4 && k % 4 < 4;
      var x := m[k / 4][k % 4];
      assert Cells(m, fmt)[k] == fmt(x);
    }
  }
}
