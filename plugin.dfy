/**
 * The plugin's entry points as the tweening engine calls them: `init`, which
 * reads the element's computed transform (through `extractTransform`), and
 * `tween`, which blends the start and end matrices and writes the result to
 * the element's style. The computed style text is an input, the style write
 * is the `styleText` of the result.
 */
module Plugin {
  import opened Wrappers
  import opened JsText
  import opened Matrix3D
  import opened TransformParse

  /**
   * `init` through `extractTransform`: a computed transform of `none` gives
   * `IDENTITY`; any other text is parsed, and a parse that throws propagates.
   */
  function Init(computed: string, num: string -> real): (r: Result<Matrix4, ParseError>)
    ensures computed == "none" ==> r == Ok(Identity)
    ensures computed != "none" ==> r == Parse(computed, num)
  {
    if computed == "none" then Ok(Identity) else Parse(computed, num)
  }

  /** What `tween` does with one call. */
  datatype TweenStep<T> =
    | Unchanged(value: T)                        // not ours: `value` handed back
    | Applied(matrix: Matrix4, styleText: string) // the blend, and the text written to the style
    | Failed                                     // a start or end value is missing: `undefined[i]` throws

  /**
   * `tween`: only the `transform` property of a target that has a style is
   * handled; then the start and end matrices are blended at `ratio`, the blend
   * is serialised into the style and returned.
   */
  function Tween<T>(prop: string, value: T, hasStyle: bool,
                    startValues: map<string, Matrix4>, endValues: map<string, Matrix4>,
                    ratio: real, fmt: real -> string): (r: TweenStep<T>)
    ensures r.Unchanged? <==> prop != "transform" || !hasStyle
    ensures r.Unchanged? ==> r.value == value
    ensures r.Failed? <==> prop == "transform" && hasStyle && (prop !in startValues || prop !in endValues)
    ensures r.Applied? ==> r.matrix == Blend(startValues[prop], endValues[prop], ratio)
    ensures r.Applied? ==> r.styleText == Serialize(r.matrix, fmt)
  {
    if prop != "transform" || !hasStyle then Unchanged(value)
    else if prop !in startValues || prop !in endValues then Failed
    else
      var v := Blend(startValues[prop], endValues[prop], ratio);
      Applied(v, Serialize(v, fmt))
  }

  /** An element that has no transform starts from `IDENTITY`, and a tween of it stays there. */
  lemma NoneStaysIdentity<T>(value: T, num: string -> real, ratio: real, fmt: real -> string)
    ensures Init("none", num) == Ok(Identity)
    ensures var start := map["transform" := Identity];
      Tween("transform", value, true, start, start, ratio, fmt) ==
        Applied(Identity, Serialize(Identity, fmt))
  {
    BlendIdentity(ratio);
  }

  /** A computed value of `""` is not `none`: it matches neither pattern and throws. */
  lemma EmptyComputedFails(num: string -> real)
    ensures Init("", num) == Err(NoMatch)
  {
    NeitherPrefixFails("", num);
  }

  /** At ratio 0 and ratio 1 the tween writes exactly the start and the end matrix. */
  lemma TweenEndpoints<T>(value: T, startValues: map<string, Matrix4>, endValues: map<string, Matrix4>,
                          fmt: real -> string)
    requires "transform" in startValues && "transform" in endValues
    ensures Tween("transform", value, true, startValues, endValues, 0.0, fmt).matrix == startValues["transform"]
    ensures Tween("transform", value, true, startValues, endValues, 1.0, fmt).matrix == endValues["transform"]
  {
    BlendAtZero(startValues["transform"], endValues["transform"]);
    BlendAtOne(startValues["transform"], endValues["transform"]);
  }

  /**
   * `init` applied to the style text `tween` wrote yields, cell by cell,
   * `num(fmt(x).trim())` of the blended matrix's cell `x`, and the blend itself
   * when `num` gives back each blended cell from its formatted text.
   */
  lemma TweenThenInit<T>(value: T, startValues: map<string, Matrix4>, endValues: map<string, Matrix4>,
                         ratio: real, fmt: real -> string, num: string -> real)
    requires PlainFormat(fmt)
    requires "transform" in startValues && "transform" in endValues
    ensures var v := Blend(startValues["transform"], endValues["transform"], ratio);
      var text := Serialize(v, fmt);
      var r := Init(text, num);
      Tween("transform", value, true, startValues, endValues, ratio, fmt) == Applied(v, text) &&
      r == Ok(ReadBack(v, fmt, num)) &&
      ((forall i, j :: 0 <= i < 4 && 0 <= j < 4 ==> num(Trim(fmt(v[i][j]))) == v[i][j]) ==> r.value == v)
  {
    var v := Blend(startValues["transform"], endValues["transform"], ratio);
    SerializeLayout(v, fmt);
    assert Serialize(v, fmt) != "none";
    ParseSerialized(v, fmt, num);
    if forall i, j :: 0 <= i < 4 && 0 <= j < 4 ==> num(Trim(fmt(v[i][j]))) == v[i][j] {
      ParseSerializedExact(v, fmt, num);
    }
  }
}
