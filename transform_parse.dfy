/**
 * `parseTransform`: reading a CSS `matrix(...)` or `matrix3d(...)` value into a
 * 4x4 matrix. The intermediate `nums` of the source holds strings, row arrays
 * (after the two-dimensional rewrite) or, past its end, `undefined`; reading a
 * field calls `trim` on it, which throws for anything but a string. The model
 * keeps those values so that the thrown errors come out as they do in the code.
 * `parseFloat` is the parameter `num`.
 */
module TransformParse {
  import opened Wrappers
  import opened JsText
  import opened Matrix3D

  /** The values `nums` can hold. */
  datatype JsValue = Str(text: string) | Arr(items: seq<JsValue>) | Undefined

  /** Why parsing throws. */
  datatype ParseError =
    | NoMatch                   // neither pattern matched: reading `[1]` of null
    | TrimOnArray(index: nat)   // field `index` is a row array, which has no `trim`
    | TrimOnUndefined(index: nat) // field `index` is past the end of `nums`

  /** `nums[k]`: undefined past the end. */
  function At(nums: seq<JsValue>, k: nat): JsValue {
    if k < |nums| then nums[k] else Undefined
  }

  /** The strings `split` returns, as values. */
  function Strs(fields: seq<string>): (nums: seq<JsValue>)
    ensures |nums| == |fields|
    ensures forall k :: 0 <= k < |fields| ==> nums[k] == Str(fields[k])
  {
    seq(|fields|, k requires 0 <= k < |fields| => Str(fields[k]))
  }

  /**
   * The two-dimensional rewrite as the code performs it: four nested row
   * arrays `[a, b, "0", "0"], [c, d, "0", "0"], ["0", "0", "1", "0"], [tx, ty, "0", "1"]`.
   */
  function ShorthandRows(fields: seq<string>): (rows: seq<JsValue>)
    ensures |rows| == 4
    ensures var flat := ShorthandFlat(fields);
      rows[0] == Arr(flat[0..4]) && rows[1] == Arr(flat[4..8]) &&
      rows[2] == Arr(flat[8..12]) && rows[3] == Arr(flat[12..16])
  {
    var f := Strs(fields);
    var flat := ShorthandFlat(fields);
    assert flat[0..4] == [At(f, 0), At(f, 1), Str("0"), Str("0")];
    assert flat[4..8] == [At(f, 2), At(f, 3), Str("0"), Str("0")];
    assert flat[8..12] == [Str("0"), Str("0"), Str("1"), Str("0")];
    assert flat[12..16] == [At(f, 4), At(f, 5), Str("0"), Str("1")];
    [Arr([At(f, 0), At(f, 1), Str("0"), Str("0")]),
     Arr([At(f, 2), At(f, 3), Str("0"), Str("0")]),
     Arr([Str("0"), Str("0"), Str("1"), Str("0")]),
     Arr([At(f, 4), At(f, 5), Str("0"), Str("1")])]
  }

  /**
   * The embedding the comment above the function documents,
   * `matrix3d(a, b, 0, 0, c, d, 0, 0, 0, 0, 1, 0, tx, ty, 0, 1)`, as a flat list.
   */
  function ShorthandFlat(fields: seq<string>): seq<JsValue> {
    var f := Strs(fields);
    [At(f, 0), At(f, 1), Str("0"), Str("0"),
     At(f, 2), At(f, 3), Str("0"), Str("0"),
     Str("0"), Str("0"), Str("1"), Str("0"),
     At(f, 4), At(f, 5), Str("0"), Str("1")]
  }

  /** The exception `nums[k].trim()` throws for a value that is not a string. */
  function TrimError(v: JsValue, k: nat): ParseError
    requires !v.Str?
  {
    if v.Arr? then TrimOnArray(k) else TrimOnUndefined(k)
  }

  /**
   * `nums` as the code computes it before the loop: the comma-separated fields
   * of the first pattern that matches, `matrix(` tried before `matrix3d(`.
   * `corrected` selects the flat two-dimensional rewrite instead of the rows.
   */
  function NumsOf(s: string, corrected: bool): (r: Result<seq<JsValue>, ParseError>)
    ensures r.Err? <==> MatchCall(s, "matrix(").None? && MatchCall(s, "matrix3d(").None?
    ensures r.Err? ==> r.error == NoMatch
    ensures MatchCall(s, "matrix(").Some? ==>
      var fields := Split(MatchCall(s, "matrix(").value, ',');
      r.Ok? && (corrected ==> r.value == ShorthandFlat(fields)) &&
      (!corrected ==> |r.value| == 4 && forall k :: 0 <= k < 4 ==> r.value[k].Arr?)
    ensures MatchCall(s, "matrix3d(").Some? ==>
      r == Ok(Strs(Split(MatchCall(s, "matrix3d(").value, ',')))
  {
    var matrixMatch := MatchCall(s, "matrix(");
    var matrix3dMatch := if matrixMatch.Some? then None else MatchCall(s, "matrix3d(");
    if matrixMatch.Some? then
      assert s[6] == '(';
      var fields := Split(matrixMatch.value, ',');
      Ok(if corrected then ShorthandFlat(fields) else ShorthandRows(fields))
    else if matrix3dMatch.Some? then Ok(Strs(Split(matrix3dMatch.value, ',')))
    else Err(NoMatch)
  }

  /**
   * The first `n` cells in row-major order, each `num(nums[k].trim())`, or the
   * error of the first field that is not a string.
   */
  function Fields(nums: seq<JsValue>, n: nat, num: string -> real): (r: Result<seq<real>, ParseError>)
    ensures r.Ok? <==> forall k :: 0 <= k < n ==> At(nums, k).Str?
    ensures r.Ok? ==> |r.value| == n
    ensures r.Ok? ==> forall k :: 0 <= k < n ==> r.value[k] == num(Trim(At(nums, k).text))
  {
    if n == 0 then Ok([])
    else
      match Fields(nums, n - 1, num)
      case Err(e) => Err(e)
      case Ok(cells) =>
        var v := At(nums, n - 1);
        if v.Str? then Ok(cells + [num(Trim(v.text))]) else Err(TrimError(v, n - 1))
  }

  /** The error `Fields` reports is the one of the first field that is not a string. */
  lemma {:induction false} FieldsFirstError(nums: seq<JsValue>, n: nat, k: nat, num: string -> real)
    requires k < n
    requires forall i :: 0 <= i < k ==> At(nums, i).Str?
    requires !At(nums, k).Str?
    ensures Fields(nums, n, num) == Err(TrimError(At(nums, k), k))
  {
    if n - 1 > k {
      FieldsFirstError(nums, n - 1, k, num);
    } else {
      assert Fields(nums, n - 1, num).Ok?;
    }
  }

  /** Sixteen row-major cells as a matrix. */
  function Rows(cells: seq<real>): Matrix4
    requires |cells| == 16
  {
    [cells[0..4], cells[4..8], cells[8..12], cells[12..16]]
  }

  lemma RowsAt(cells: seq<real>, i: nat, j: nat)
    requires |cells| == 16 && i < 4 && j < 4
    ensures Rows(cells)[i][j] == cells[i * 4 + j]
  {
  }

  /** The matrix the loop of `parseTransform` fills from `nums`, or what it throws. */
  function Fill(nums: seq<JsValue>, num: string -> real): Result<Matrix4, ParseError> {
    match Fields(nums, 16, num)
    case Err(e) => Err(e)
    case Ok(cells) => Ok(Rows(cells))
  }

  /** What `parseTransform` returns or throws. */
  function ParseWith(s: string, num: string -> real, corrected: bool): Result<Matrix4, ParseError> {
    match NumsOf(s, corrected)
    case Err(e) => Err(e)
    case Ok(nums) => Fill(nums, num)
  }

  /** The code as written. */
  function Parse(s: string, num: string -> real): Result<Matrix4, ParseError> {
    ParseWith(s, num, false)
  }

  /** The code with the two-dimensional rewrite producing the flat list it documents. */
  function ParseCorrected(s: string, num: string -> real): Result<Matrix4, ParseError> {
    ParseWith(s, num, true)
  }

  /**
   * `parseTransform`: match the patterns, split the capture on commas and
   * rewrite a two-dimensional value into rows, then fill the matrix.
   */
  method ParseTransform(s: string, num: string -> real) returns (r: Result<Matrix4, ParseError>)
    ensures r == Parse(s, num)
  {
    var matrixMatch := MatchCall(s, "matrix(");
    var matrix3dMatch := if matrixMatch.Some? then None else MatchCall(s, "matrix3d(");
    if matrixMatch.None? && matrix3dMatch.None? {
      return Err(NoMatch);
    }
    var capture := if matrixMatch.Some? then matrixMatch.value else matrix3dMatch.value;
    var nums := Strs(Split(capture, ','));
    if matrixMatch.Some? {
      nums := ShorthandRows(Split(capture, ','));
    }
    assert NumsOf(s, false) == Ok(nums);
    r := FillMatrix(nums, num);
  }

  /**
   * The loop of `parseTransform`: row by row, cell `[i][j]` is
   * `num(nums[i * 4 + j].trim())`, stopping at the first field that throws.
   */
  method FillMatrix(nums: seq<JsValue>, num: string -> real) returns (r: Result<Matrix4, ParseError>)
    ensures r == Fill(nums, num)
  {
    var matrix: seq<seq<real>> := [];
    for i := 0 to 4
      invariant |matrix| == i
      invariant forall k :: 0 <= k < 4 * i ==> At(nums, k).Str?
      invariant forall a :: 0 <= a < i ==> |matrix[a]| == 4
      invariant forall a, b :: 0 <= a < i && 0 <= b < 4 ==>
        matrix[a][b] == num(Trim(At(nums, a * 4 + b).text))
    {
      var row: seq<real> := [];
      for j := 0 to 4
        invariant |row| == j
        invariant forall k :: 0 <= k < 4 * i + j ==> At(nums, k).Str?
        invariant forall b :: 0 <= b < j ==> row[b] == num(Trim(At(nums, i * 4 + b).text))
      {
        var v := At(nums, i * 4 + j);
        if !v.Str? {
          FieldsFirstError(nums, 16, i * 4 + j, num);
          return Err(TrimError(v, i * 4 + j));
        }
        row := row + [num(Trim(v.text))];
      }
      matrix := matrix + [row];
    }
    var cells := Fields(nums, 16, num);
    assert cells.Ok?;
    var m := Rows(cells.value);
    forall a, b | 0 <= a < 4 && 0 <= b < 4 ensures matrix[a][b] == m[a][b] {
      assert m[a][b] == cells.value[a * 4 + b];
    }
    CellwiseEqual(matrix, m);
    r := Ok(matrix);
  }

  // ---------------------------------------------------------------- dispatch

  /** A `matrix3d(` value never takes the two-dimensional branch. */
  lemma Matrix3dIsNotShorthand(s: string)
    requires "matrix3d(" <= s
    ensures MatchCall(s, "matrix(") == None
  {
    assert s[6] == '3';
  }

  /** A value starting with neither `matrix(` nor `matrix3d(` throws NoMatch. */
  lemma NeitherPrefixFails(s: string, num: string -> real)
    requires !("matrix(" <= s) && !("matrix3d(" <= s)
    ensures Parse(s, num) == Err(NoMatch) && ParseCorrected(s, num) == Err(NoMatch)
  {
  }

  /**
   * A `matrix3d(...)` value: with at least sixteen fields, cell `[i][j]` is
   * `num` of field `i * 4 + j` trimmed and later fields are ignored; with fewer,
   * the first missing field throws.
   */
  lemma Matrix3dParse(s: string, num: string -> real)
    requires MatchCall(s, "matrix3d(").Some?
    ensures var fields := Split(MatchCall(s, "matrix3d(").value, ',');
      var r := Parse(s, num);
      (|fields| >= 16 ==> (r.Ok? &&
        forall i, j :: 0 <= i < 4 && 0 <= j < 4 ==> r.value[i][j] == num(Trim(fields[i * 4 + j])))) &&
      (|fields| < 16 ==> r == Err(TrimOnUndefined(|fields|)))
  {
    Matrix3dIsNotShorthand(s);
    var fields := Split(MatchCall(s, "matrix3d(").value, ',');
    var nums := Strs(fields);
    assert NumsOf(s, false) == Ok(nums);
    if |fields| < 16 {
      FieldsFirstError(nums, 16, |fields|, num);
    } else {
      var cells := Fields(nums, 16, num);
      assert cells.Ok?;
      forall i, j | 0 <= i < 4 && 0 <= j < 4
        ensures Rows(cells.value)[i][j] == num(Trim(fields[i * 4 + j]))
      {
        RowsAt(cells.value, i, j);
      }
    }
  }

  /**
   * The code as written: every value starting with `matrix(` throws. When the
   * pattern matches, the first field read is the first row array.
   */
  lemma ShorthandAlwaysFails(s: string, num: string -> real)
    requires "matrix(" <= s
    ensures MatchCall(s, "matrix(").Some? ==> Parse(s, num) == Err(TrimOnArray(0))
    ensures MatchCall(s, "matrix(").None? ==> Parse(s, num) == Err(NoMatch)
  {
    if MatchCall(s, "matrix(").Some? {
      var nums := ShorthandRows(Split(MatchCall(s, "matrix(").value, ','));
      FieldsFirstError(nums, 16, 0, num);
    } else {
      assert s[6] == '(';
    }
  }

  /** `matrix(1,0,0,1,10,20)` as written: the row array at index 0 has no `trim`. */
  lemma ShorthandExample(num: string -> real)
    ensures Parse("matrix(1,0,0,1,10,20)", num) == Err(TrimOnArray(0))
  {
    var s := "matrix(1,0,0,1,10,20)";
    assert CloseAt(s, "matrix(", |s| - 1);
    ShorthandAlwaysFails(s, num);
  }

  /** Four strings read in order: entry `j` is `num(row[j].trim())`. */
  function ReadRow(row: seq<string>, num: string -> real): seq<real>
    requires |row| == 4
  {
    seq(4, j requires 0 <= j < 4 => num(Trim(row[j])))
  }

  /** Sixteen strings, given as four rows, fill the matrix row by row. */
  lemma FillStrs(r0: seq<string>, r1: seq<string>, r2: seq<string>, r3: seq<string>, num: string -> real)
    requires |r0| == |r1| == |r2| == |r3| == 4
    ensures Fill(Strs(r0 + r1 + r2 + r3), num) ==
      Ok([ReadRow(r0, num), ReadRow(r1, num), ReadRow(r2, num), ReadRow(r3, num)])
  {
    var texts := r0 + r1 + r2 + r3;
    var nums := Strs(texts);
    assert forall k :: 0 <= k < 16 ==> At(nums, k) == Str(texts[k]);
    var cells := Fields(nums, 16, num).value;
    assert cells[0..4] == ReadRow(r0, num);
    assert cells[4..8] == ReadRow(r1, num);
    assert cells[8..12] == ReadRow(r2, num);
    assert cells[12..16] == ReadRow(r3, num);
  }

  /**
   * The flat rewrite of fields `a, b, c, d, tx, ty` fills
   * `[a, b, 0, 0], [c, d, 0, 0], [0, 0, 1, 0], [tx, ty, 0, 1]`.
   */
  lemma FillShorthandFlat(f: seq<string>, num: string -> real)
    requires |f| >= 6
    requires num("0") == 0.0 && num("1") == 1.0
    ensures var a, b, c, d := num(Trim(f[0])), num(Trim(f[1])), num(Trim(f[2])), num(Trim(f[3]));
      var tx, ty := num(Trim(f[4])), num(Trim(f[5]));
      Fill(ShorthandFlat(f), num) ==
        Ok([[a, b, 0.0, 0.0], [c, d, 0.0, 0.0], [0.0, 0.0, 1.0, 0.0], [tx, ty, 0.0, 1.0]])
  {
    var r0, r1 := [f[0], f[1], "0", "0"], [f[2], f[3], "0", "0"];
    var r2, r3 := ["0", "0", "1", "0"], [f[4], f[5], "0", "1"];
    assert ShorthandFlat(f) == Strs(r0 + r1 + r2 + r3);
    FillStrs(r0, r1, r2, r3, num);
    ShorthandRowValues(f, num);
  }

  /** The rows of the flat rewrite, read with `"0"` and `"1"` as 0 and 1. */
  lemma ShorthandRowValues(f: seq<string>, num: string -> real)
    requires |f| >= 6
    requires num("0") == 0.0 && num("1") == 1.0
    ensures ReadRow([f[0], f[1], "0", "0"], num) == [num(Trim(f[0])), num(Trim(f[1])), 0.0, 0.0]
    ensures ReadRow([f[2], f[3], "0", "0"], num) == [num(Trim(f[2])), num(Trim(f[3])), 0.0, 0.0]
    ensures ReadRow(["0", "0", "1", "0"], num) == [0.0, 0.0, 1.0, 0.0]
    ensures ReadRow([f[4], f[5], "0", "1"], num) == [num(Trim(f[4])), num(Trim(f[5])), 0.0, 1.0]
  {
    TrimUntouched("0");
    TrimUntouched("1");
  }

  /**
   * The corrected parser on a `matrix(...)` value with at least six fields
   * `a, b, c, d, tx, ty` gives `[a, b, 0, 0], [c, d, 0, 0], [0, 0, 1, 0], [tx, ty, 0, 1]`.
   */
  lemma CorrectedShorthandExpands(s: string, num: string -> real)
    requires MatchCall(s, "matrix(").Some?
    requires |Split(MatchCall(s, "matrix(").value, ',')| >= 6
    requires num("0") == 0.0 && num("1") == 1.0
    ensures var f := Split(MatchCall(s, "matrix(").value, ',');
      var a, b, c, d := num(Trim(f[0])), num(Trim(f[1])), num(Trim(f[2])), num(Trim(f[3]));
      var tx, ty := num(Trim(f[4])), num(Trim(f[5]));
      ParseCorrected(s, num) ==
        Ok([[a, b, 0.0, 0.0], [c, d, 0.0, 0.0], [0.0, 0.0, 1.0, 0.0], [tx, ty, 0.0, 1.0]])
  {
    var f := Split(MatchCall(s, "matrix(").value, ',');
    assert NumsOf(s, true) == Ok(ShorthandFlat(f));
    FillShorthandFlat(f, num);
  }

  /** The correction changes nothing for values that do not start with `matrix(`. */
  lemma CorrectedAgreesOffShorthand(s: string, num: string -> real)
    requires !("matrix(" <= s)
    ensures ParseCorrected(s, num) == Parse(s, num)
  {
  }

  /** `matrix3d(1,2,3)`: three fields, so reading the fourth throws. */
  lemma TooFewFieldsExample(num: string -> real)
    ensures Parse("matrix3d(1,2,3)", num) == Err(TrimOnUndefined(3))
  {
    var s := "matrix3d(1,2,3)";
    assert CloseAt(s, "matrix3d(", |s| - 1);
    var body := MatchCall(s, "matrix3d(").value;
    assert body == "1,2,3";
    assert Join(["1", "2", "3"], ',') == body;
    SplitJoin(["1", "2", "3"], ',');
    Matrix3dParse(s, num);
  }

  /** `rotate(45deg)` is neither form and throws. */
  lemma OtherFunctionExample(num: string -> real)
    ensures Parse("rotate(45deg)", num) == Err(NoMatch)
  {
    assert "rotate(45deg)"[0] == 'r';
    NeitherPrefixFails("rotate(45deg)", num);
  }

  // ---------------------------------------------------------------- round trip

  /**
   * Parsing what `toString` wrote takes the `matrix3d(` branch, finds exactly
   * sixteen fields and puts `num(fmt(m[i][j]).trim())` back in cell `[i][j]`.
   */
  lemma {:induction false} ParseSerialized(m: Matrix4, fmt: real -> string, num: string -> real)
    requires PlainFormat(fmt)
    ensures Parse(Serialize(m, fmt), num) == Ok(ReadBack(m, fmt, num))
  {
    var s := Serialize(m, fmt);
    SerializeLayout(m, fmt);
    var body := s[9..|s| - 1];
    assert "matrix3d(" <= s;
    assert s == "matrix3d(" + Join(Cells(m, fmt), ',') + ")";
    assert CloseAt(s, "matrix3d(", |s| - 1) by {
      CellsPlain(m, fmt);
      JoinNoLineTerminator(Cells(m, fmt));
      assert s[9..|s| - 1] == Join(Cells(m, fmt), ',');
    }
    assert MatchCall(s, "matrix3d(") == Some(body);
    Matrix3dParse(s, num);
    CellwiseEqual(Parse(s, num).value, ReadBack(m, fmt, num));
  }

  /** The matrix whose cell `[i][j]` is `num(fmt(m[i][j]).trim())`. */
  function ReadBack(m: Matrix4, fmt: real -> string, num: string -> real): Matrix4 {
    seq(4, i requires 0 <= i < 4 => seq(4, j requires 0 <= j < 4 => num(Trim(fmt(m[i][j])))))
  }

  /**
   * When the number reader gives back each of this matrix's cells from its
   * formatted text, the round trip is the identity. (No formatter into strings
   * is invertible on every real, so the inversion is asked of these cells only.)
   */
  lemma ParseSerializedExact(m: Matrix4, fmt: real -> string, num: string -> real)
    requires PlainFormat(fmt)
    requires forall i, j :: 0 <= i < 4 && 0 <= j < 4 ==> num(Trim(fmt(m[i][j]))) == m[i][j]
    ensures Parse(Serialize(m, fmt), num) == Ok(m)
  {
    ParseSerialized(m, fmt, num);
    CellwiseEqual(ReadBack(m, fmt, num), m);
  }

  /** With a reader that is off by at most `tol` a cell, every parsed cell is within `tol`. */
  lemma ParseSerializedWithin(m: Matrix4, fmt: real -> string, num: string -> real, tol: real)
    requires PlainFormat(fmt)
    requires forall x :: -tol <= num(Trim(fmt(x))) - x <= tol
    ensures var r := Parse(Serialize(m, fmt), num);
      r.Ok? && forall i, j :: 0 <= i < 4 && 0 <= j < 4 ==> -tol <= r.value[i][j] - m[i][j] <= tol
  {
    ParseSerialized(m, fmt, num);
  }
}
