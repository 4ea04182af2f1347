# Matrix3DPlugin, modelled in Dafny

A model of the TweenJS plugin `Matrix3DPlugin` (`plugins/Matrix3DPlugin.js`). The plugin interpolates
the CSS `transform` property of an element between two 4x4 matrices. It has three parts:

- `parseTransform` reads a computed `matrix(...)` or `matrix3d(...)` value into a matrix held as
  four rows of four numbers.
- `multiply` / `_multiply` blends two matrices cell by cell, giving `v0 + (v1 - v0) * ratio`.
- `toString` writes a matrix back as `matrix3d(c0,c1,...,c15)`, with every cell formatted by `toFixed(10)`.

The engine's entry points `init` (through `extractTransform`) and `tween` decide when those are used.

Modules:

- `Wrappers`: `Option` and `Result`.
- `JsText`: the JavaScript built-ins the plugin calls, stated exactly on `seq<char>`.
  - `trim` removes ECMAScript WhiteSpace and LineTerminator characters.
  - `split(',')` always returns at least one field, and `join` undoes it.
  - The anchored patterns `/^matrix\((.*)\)/` and `/^matrix3d\((.*)\)/` use a greedy capture that ends at the last `)` before any line terminator.
- `Matrix3D`:
  - the `Matrix4` type and `IDENTITY`;
  - `_multiply` (`Lerp`) and the method `Multiply`, proved equal to the cellwise function `Blend`;
  - the method `ToString`, which appends to a string in two nested loops, then drops the last comma. It is proved equal to the function `Serialize`.
- `TransformParse`: `parseTransform`. The method `ParseTransform` and its loop `FillMatrix` are
  proved equal to the function `Parse`. The intermediate `nums` holds JavaScript values (a string,
  an array, or `undefined` past the end). So the exceptions the code throws become `ParseError`
  results, exactly where the code throws them.
- `Plugin`: `init` and `tween` as functions of their inputs.

JavaScript numbers are `real`. `parseFloat` is a parameter `num: string -> real`, and
`Number.prototype.toFixed(10)` is a parameter `fmt: real -> string`. The properties that need
something of them say so in a `requires`:

- `PlainFormat(fmt)`: no output contains a comma or a line terminator, which holds of `toFixed`.
- Some lemmas also need `num` to give back what `fmt` wrote: exactly on the cells of the matrix at hand, or within a tolerance on every real.

Where the code and its documentation differ, the model follows the code:

- A computed value of `""` is not `none`. It matches neither pattern, so reading `[1]` of `null` throws (`EmptyComputedFails`).
- Every `matrix(...)` value throws (see Findings). The embedding documented at line 106 holds only for the corrected parser.
- A `matrix3d(...)` value with more than sixteen fields is accepted, and the extra fields are ignored.

## Model

| member | source | states |
|---|---|---|
| `Matrix3D.IdentityCells` | plugins/Matrix3DPlugin.js:96 | `IDENTITY` has 1 on the diagonal and 0 everywhere else |
| `Matrix3D.Lerp` | plugins/Matrix3DPlugin.js:193-195 | `_multiply` gives `v0` at ratio 0, `v1` at ratio 1, `v0` when both ends agree, and for a ratio in `[0, 1]` a value between the two ends |
| `Matrix3D.Multiply` | plugins/Matrix3DPlugin.js:177-191 | the result is a 4x4 matrix whose cell `[i][j]` is `v0[i][j] + (v1[i][j] - v0[i][j]) * ratio`, for any ratio (no clamping); it equals `Blend` |
| `Matrix3D.BlendAtZero` | plugins/Matrix3DPlugin.js:193-195 | ratio 0 gives the start matrix |
| `Matrix3D.BlendAtOne` | plugins/Matrix3DPlugin.js:193-195 | ratio 1 gives the end matrix |
| `Matrix3D.BlendSame` | plugins/Matrix3DPlugin.js:177-195 | blending a matrix with itself gives it back for every ratio |
| `Matrix3D.BlendIdentity` | plugins/Matrix3DPlugin.js:177-195 | `IDENTITY` blended with `IDENTITY` is `IDENTITY` for every ratio |
| `Matrix3D.BlendReversed` | plugins/Matrix3DPlugin.js:193-195 | blending from `v1` to `v0` at `1 - ratio` equals blending from `v0` to `v1` at `ratio` |
| `Matrix3D.ToString` | plugins/Matrix3DPlugin.js:71-82 | the loop that appends `fmt(cell) + ","` sixteen times, drops the last character and appends `)` yields exactly `"matrix3d(" + join(cells, ",") + ")"` |
| `Matrix3D.SerializeLayout` | plugins/Matrix3DPlugin.js:71-82 | the text starts with `matrix3d(` and ends with `)`; between them, split on commas, are exactly sixteen fields, field `i*4+j` being `fmt(m[i][j])`, so no trailing comma is left |
| `JsText.MatchCall` | plugins/Matrix3DPlugin.js:107-108 | the capture of `/^prefix(.*)\)/`: Some exactly when the text starts with the prefix and a `)` follows with no line terminator before it; the capture ends at the last such `)` |
| `JsText.Split` | plugins/Matrix3DPlugin.js:109 | `split(',')` returns at least one field and no field contains a comma |
| `JsText.SplitJoin` | plugins/Matrix3DPlugin.js:109 | splitting a comma-join of comma-free fields gives the fields back |
| `JsText.JoinSplit` | plugins/Matrix3DPlugin.js:109 | joining the fields of a split gives the text back |
| `JsText.TrimIsInnerPiece` | plugins/Matrix3DPlugin.js:118 | `trim` keeps the part of the text between a whitespace prefix and a whitespace suffix; the result neither starts nor ends with whitespace |
| `JsText.TrimIdempotent` | plugins/Matrix3DPlugin.js:118 | trimming twice is trimming once |
| `TransformParse.ShorthandRows` | plugins/Matrix3DPlugin.js:113 | the two-dimensional rewrite as written gives four row arrays, row `i` holding entries `4*i` to `4*i+3` of the flat layout documented at line 106 |
| `TransformParse.NumsOf` | plugins/Matrix3DPlugin.js:107-113 | `nums` is an error (`NoMatch`) exactly when neither pattern matches; a `matrix(` match gives, as written, four row arrays (the flat documented layout when corrected); a `matrix3d(` match gives the comma-separated fields of its capture as strings |
| `TransformParse.Fields` | plugins/Matrix3DPlugin.js:115-120 | the first `n` row-major cells succeed exactly when fields `0..n-1` are strings, and cell `k` is then `num(trim(nums[k]))` |
| `TransformParse.FieldsFirstError` | plugins/Matrix3DPlugin.js:115-120 | the error reported is that of the first field that is not a string: an array gives `TrimOnArray(k)`; `undefined` gives `TrimOnUndefined(k)` |
| `TransformParse.FillMatrix` | plugins/Matrix3DPlugin.js:115-122 | the nested loop fills the matrix row by row, or returns the error of the first field that throws; the result equals `Fill` |
| `TransformParse.ParseTransform` | plugins/Matrix3DPlugin.js:105-123 | tries `matrix(` first, tries `matrix3d(` only when that fails, splits the capture, rewrites a two-dimensional value into rows and fills the matrix; the result equals `Parse` |
| `TransformParse.Matrix3dIsNotShorthand` | plugins/Matrix3DPlugin.js:107-108 | a `matrix3d(` value never matches the two-dimensional pattern |
| `TransformParse.NeitherPrefixFails` | plugins/Matrix3DPlugin.js:107-109 | text starting with neither `matrix(` nor `matrix3d(` gives `NoMatch` |
| `TransformParse.Matrix3dParse` | plugins/Matrix3DPlugin.js:108-122 | a matched `matrix3d(...)` with at least sixteen fields parses to `[i][j] = num(trim(field[i*4+j]))`, ignoring later fields; with fewer fields, the first missing field gives `TrimOnUndefined` |
| `TransformParse.ShorthandAlwaysFails` | plugins/Matrix3DPlugin.js:112-118 | as written, every text starting with `matrix(` fails: with `TrimOnArray(0)` when the pattern matches, `NoMatch` otherwise |
| `TransformParse.ShorthandExample` | plugins/Matrix3DPlugin.js:106-118 | `matrix(1,0,0,1,10,20)` fails with `TrimOnArray(0)` as written |
| `TransformParse.TooFewFieldsExample` | plugins/Matrix3DPlugin.js:108-118 | `matrix3d(1,2,3)` fails with `TrimOnUndefined(3)` |
| `TransformParse.OtherFunctionExample` | plugins/Matrix3DPlugin.js:107-109 | `rotate(45deg)` fails with `NoMatch` |
| `TransformParse.FillShorthandFlat` | plugins/Matrix3DPlugin.js:106 | the documented flat layout of `a, b, c, d, tx, ty` fills `[a,b,0,0],[c,d,0,0],[0,0,1,0],[tx,ty,0,1]` |
| `TransformParse.CorrectedShorthandExpands` | plugins/Matrix3DPlugin.js:106-113 | with the corrected rewrite, a `matrix(...)` value of six or more fields parses to the documented 2D-to-3D embedding |
| `TransformParse.CorrectedAgreesOffShorthand` | plugins/Matrix3DPlugin.js:107-113 | the correction changes nothing for text that does not start with `matrix(` |
| `TransformParse.ParseSerialized` | plugins/Matrix3DPlugin.js:105-123 | parsing `toString(m)` takes the `matrix3d(` branch, finds sixteen fields and gives `num(trim(fmt(m[i][j])))` in cell `[i][j]` |
| `TransformParse.ParseSerializedExact` | plugins/Matrix3DPlugin.js:105-123 | when `num(trim(fmt(x))) == x` for each of the sixteen cells `x` of `m`, parsing `toString(m)` gives `m` back |
| `TransformParse.ParseSerializedWithin` | plugins/Matrix3DPlugin.js:105-123 | when `num` inverts `fmt` up to `tol`, every cell of the parsed serialisation is within `tol` of the original |
| `Plugin.Init` | plugins/Matrix3DPlugin.js:147-149 | a computed transform of `none` gives `IDENTITY`; any other text is parsed, and a parse error propagates |
| `Plugin.NoneStaysIdentity` | plugins/Matrix3DPlugin.js:96-103 | `init` of `none` is `IDENTITY`, and tweening `IDENTITY` to `IDENTITY` writes `IDENTITY` at every ratio |
| `Plugin.EmptyComputedFails` | plugins/Matrix3DPlugin.js:97-101 | an empty computed transform is not `none`, and `init` fails with `NoMatch` |
| `Plugin.Tween` | plugins/Matrix3DPlugin.js:166-175 | returns `value` unchanged exactly when `prop != 'transform'` or the target has no style; otherwise fails if a start or end value is missing, and else returns the blend of the two at `ratio` together with its serialisation as the style text |
| `Plugin.TweenEndpoints` | plugins/Matrix3DPlugin.js:166-175 | at ratio 0 the tween returns the start matrix, at ratio 1 the end matrix |
| `Plugin.TweenThenInit` | plugins/Matrix3DPlugin.js:166-175 | `init` applied to the style text `tween` wrote succeeds, with `num(trim(fmt(x)))` of every blended cell `x`; it gives the blended matrix itself when `num(trim(fmt(x))) == x` for each blended cell `x` |

## Findings

| source | as written | input that shows it | evidently intended | confidence | as-written member | corrected member |
|---|---|---|---|---|---|---|
| plugins/Matrix3DPlugin.js:113-118 | the two-dimensional rewrite builds four row arrays, but the loop reads `nums[i * 4 + j]` as if it were flat, so the first read calls `trim` on an array and throws | `matrix(1,0,0,1,10,20)` | the flat list `a, b, 0, 0, c, d, 0, 0, 0, 0, 1, 0, tx, ty, 0, 1` documented at line 106, parsing to `[a,b,0,0],[c,d,0,0],[0,0,1,0],[tx,ty,0,1]` | high; not executed | `TransformParse.ShorthandAlwaysFails` | `TransformParse.CorrectedShorthandExpands` |

`Plugin.Init` and `Plugin.Tween` keep the parser as written, because they model what the plugin
does. `TransformParse.CorrectedAgreesOffShorthand` shows that the correction affects only
`matrix(` input.

## Left out

- Vendor-prefix detection (lines 55-69) reads the browser's computed styles. It is environment I/O. The prefix only changes the property names used for the style read and write.
- DOM access: reading the computed style (lines 98-100) and writing the style (line 173). The computed transform is an input string. In the model, the write is the `styleText` that `Tween` returns. The property names it is written under are not modelled.
- Engine plumbing is not modelled. This covers `install`/`installPlugin` (lines 137-139), `priority` (line 130), the empty `step` hook (lines 156-158) and the constructor that throws (lines 51-53).
- The unused local `multiply = createjs.Tween.prototype._multiply` (line 179) has no effect on the result.
- Floating point: cells are `real`, so IEEE-754 rounding in `_multiply` is not modelled.
  - `toFixed(10)` and `parseFloat` are parameters, because their digit-level behaviour is not a useful verification target.
  - The NaN that `parseFloat` returns for text that is not a number is not modelled: `num` maps every string to some real.
- `Plugin.Tween`: start and end values are taken to be 4x4 matrices. An end value of another shape, which the engine would pass through unchecked, is not modelled.
- `Multiply`, `ToString` and `ParseTransform` build their rows as `seq` values rather than as JavaScript arrays. The rows `multiply` and `parseTransform` build are fresh. `init` returns the single module-level `IDENTITY` array (line 148) to every tween that starts from `none`, so that array is shared; nothing in the file mutates it, so no behaviour is lost by treating it as a value. Inputs are values, which is why "the inputs are not modified" holds without being stated.
- `Plugin.TweenThenInit` applies `init` to the text `tween` wrote. In the program, `init` reads the browser's computed value (lines 98-100), which a browser may re-serialise, for instance as `matrix(a, b, c, d, e, f)` when the matrix is two-dimensional; that re-serialisation is browser behaviour and is not modelled (such a value would take the `matrix(` branch of the Findings row).
- A translation-unit (`px`) suffix on the translation row is not modelled. The file's `toString` has no such variant.
- Regular expressions: only the two anchored patterns the file uses are modelled.
