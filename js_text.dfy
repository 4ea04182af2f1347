/**
 * The JavaScript string built-ins the plugin relies on, stated on `seq<char>`:
 * `String.prototype.trim`, `String.prototype.split` with a one-character
 * separator, `Array.prototype.join` with the same separator, and the anchored
 * pattern `/^prefix(.*)\)/` used to recognise a CSS transform function.
 */
module JsText {
  import opened Wrappers

  /** LineTerminator of ECMAScript: LF, CR, LINE SEPARATOR, PARAGRAPH SEPARATOR. */
  predicate IsLineTerminator(c: char) {
    c == '\n' || c == '\r' || c as int == 0x2028 || c as int == 0x2029
  }

  /** WhiteSpace or LineTerminator of ECMAScript: exactly what `trim` removes. */
  predicate IsTrimmable(c: char) {
    var n := c as int;
    n == 0x09 || n == 0x0B || n == 0x0C || n == 0x20 || n == 0xA0 || n == 0xFEFF ||
    n == 0x1680 || (0x2000 <= n <= 0x200A) || n == 0x202F || n == 0x205F || n == 0x3000 ||
    IsLineTerminator(c)
  }

  predicate NoLineTerminator(s: string) {
    forall i :: 0 <= i < |s| ==> !IsLineTerminator(s[i])
  }

  // ---------------------------------------------------------------- trim

  /** `s` without its leading whitespace. */
  function TrimStart(s: string): string {
    if s != [] && IsTrimmable(s[0]) then TrimStart(s[1..]) else s
  }

  /** `s` without its trailing whitespace. */
  function TrimEnd(s: string): string {
    if s != [] && IsTrimmable(s[|s| - 1]) then TrimEnd(s[..|s| - 1]) else s
  }

  /** `String.prototype.trim`: whitespace removed from both ends. */
  function Trim(s: string): string {
    TrimEnd(TrimStart(s))
  }

  /** `TrimStart` drops a run of whitespace and stops at the first other character. */
  lemma {:induction false} TrimStartDropsLeading(s: string)
    ensures var r := TrimStart(s);
      |r| <= |s| && r == s[|s| - |r|..] &&
      (forall i :: 0 <= i < |s| - |r| ==> IsTrimmable(s[i])) &&
      (r != [] ==> !IsTrimmable(r[0]))
  {
    if s != [] && IsTrimmable(s[0]) {
      var t := s[1..];
      TrimStartDropsLeading(t);
      var r := TrimStart(t);
      assert TrimStart(s) == r;
      assert t[|t| - |r|..] == s[|s| - |r|..];
      forall i | 1 <= i < |s| - |r| ensures IsTrimmable(s[i]) {
        assert s[i] == t[i - 1];
      }
    }
  }

  /** `TrimEnd` drops a run of whitespace and stops at the last other character. */
  lemma {:induction false} TrimEndDropsTrailing(s: string)
    ensures var r := TrimEnd(s);
      |r| <= |s| && r == s[..|r|] &&
      (forall i :: |r| <= i < |s| ==> IsTrimmable(s[i])) &&
      (r != [] ==> !IsTrimmable(r[|r| - 1]))
  {
    if s != [] && IsTrimmable(s[|s| - 1]) {
      var t := s[..|s| - 1];
      TrimEndDropsTrailing(t);
      var r := TrimEnd(t);
      assert TrimEnd(s) == r;
      assert t[..|r|] == s[..|r|];
      forall i | |r| <= i < |s| - 1 ensures IsTrimmable(s[i]) {
        assert s[i] == t[i];
      }
    }
  }

  /**
   * `Trim(s)` is the piece of `s` left between a whitespace prefix and a
   * whitespace suffix, and neither starts nor ends with whitespace.
   */
  lemma TrimIsInnerPiece(s: string)
    ensures |TrimStart(s)| <= |s|
    ensures var r := Trim(s);
      var lo := |s| - |TrimStart(s)|;
      lo + |r| <= |s| && r == s[lo..lo + |r|] &&
      (forall i :: 0 <= i < lo ==> IsTrimmable(s[i])) &&
      (forall i :: lo + |r| <= i < |s| ==> IsTrimmable(s[i])) &&
      (r != [] ==> !IsTrimmable(r[0]) && !IsTrimmable(r[|r| - 1]))
  {
    var t := TrimStart(s);
    TrimStartDropsLeading(s);
    TrimEndDropsTrailing(t);
    var lo := |s| - |t|;
    var r := Trim(s);
    forall i | lo + |r| <= i < |s| ensures IsTrimmable(s[i]) {
      assert s[i] == t[i - lo];
    }
    if r != [] {
      TrimStartDropsLeading(r);
      assert r[0] == t[0];
    }
  }

  /** A string that neither starts nor ends with whitespace is its own trim. */
  lemma TrimUntouched(s: string)
    requires s != [] ==> !IsTrimmable(s[0]) && !IsTrimmable(s[|s| - 1])
    ensures Trim(s) == s
  {
  }

  /** Trimming twice is trimming once. */
  lemma TrimIdempotent(s: string)
    ensures Trim(Trim(s)) == Trim(s)
  {
    TrimIsInnerPiece(s);
    TrimUntouched(Trim(s));
  }

  // ---------------------------------------------------------------- search

  /** Index of the first `c` in `s`, or `|s|` when there is none. */
  function IndexOf(s: string, c: char): (k: nat)
    ensures k <= |s|
    ensures k < |s| ==> s[k] == c
    ensures forall i :: 0 <= i < k ==> s[i] != c
  {
    if s == [] || s[0] == c then 0 else 1 + IndexOf(s[1..], c)
  }

  /** Index of the first line terminator in `s`, or `|s|` when there is none. */
  function FirstLineTerminator(s: string): (k: nat)
    ensures k <= |s|
    ensures k < |s| ==> IsLineTerminator(s[k])
    ensures forall i :: 0 <= i < k ==> !IsLineTerminator(s[i])
  {
    if s == [] || IsLineTerminator(s[0]) then 0 else 1 + FirstLineTerminator(s[1..])
  }

  /** Index of the last `c` in `s`, or -1 when there is none. */
  function LastIndexOf(s: string, c: char): (k: int)
    ensures -1 <= k < |s|
    ensures 0 <= k ==> s[k] == c
    ensures forall i :: k < i < |s| ==> s[i] != c
  {
    if s == [] then -1
    else if s[|s| - 1] == c then |s| - 1
    else LastIndexOf(s[..|s| - 1], c)
  }

  // ---------------------------------------------------------------- split and join

  /** `s.split(sep)`: the pieces between occurrences of `sep`; never empty. */
  function Split(s: string, sep: char): (fields: seq<string>)
    ensures |fields| >= 1
    ensures forall f :: f in fields ==> sep !in f
    decreases |s|
  {
    var k := IndexOf(s, sep);
    if k == |s| then [s] else [s[..k]] + Split(s[k + 1..], sep)
  }

  /** `fields.join(sep)`: the pieces with `sep` between each two of them. */
  function Join(fields: seq<string>, sep: char): string
  {
    if |fields| == 0 then ""
    else if |fields| == 1 then fields[0]
    else fields[0] + [sep] + Join(fields[1..], sep)
  }

  /** The pieces, each followed by `sep`: what appending `piece + sep` in a loop builds. */
  function Terminated(fields: seq<string>, sep: char): string
  {
    if fields == [] then "" else fields[0] + [sep] + Terminated(fields[1..], sep)
  }

  lemma {:induction false} TerminatedAppend(fields: seq<string>, f: string, sep: char)
    ensures Terminated(fields + [f], sep) == Terminated(fields, sep) + f + [sep]
  {
    if fields != [] {
      assert (fields + [f])[1..] == fields[1..] + [f];
      TerminatedAppend(fields[1..], f, sep);
    }
  }

  /** A separator after every piece is a join plus one trailing separator. */
  lemma {:induction false} TerminatedIsJoin(fields: seq<string>, sep: char)
    requires fields != []
    ensures Terminated(fields, sep) == Join(fields, sep) + [sep]
  {
    if |fields| > 1 {
      TerminatedIsJoin(fields[1..], sep);
    }
  }

  /** The first separator of `f + sep + rest` is the one after `f` when `f` has none. */
  lemma IndexOfAfterPiece(f: string, rest: string, sep: char)
    requires sep !in f
    ensures IndexOf(f + [sep] + rest, sep) == |f|
  {
    var s := f + [sep] + rest;
    assert s[|f|] == sep;
    assert forall i :: 0 <= i < |f| ==> s[i] == f[i];
  }

  /** Splitting undoes joining when no piece contains the separator. */
  lemma {:induction false} SplitJoin(fields: seq<string>, sep: char)
    requires |fields| >= 1
    requires forall i :: 0 <= i < |fields| ==> sep !in fields[i]
    ensures Split(Join(fields, sep), sep) == fields
  {
    var s := Join(fields, sep);
    if |fields| == 1 {
      assert IndexOf(s, sep) == |s|;
    } else {
      var f, rest := fields[0], Join(fields[1..], sep);
      assert s == f + [sep] + rest;
      IndexOfAfterPiece(f, rest, sep);
      assert s[..|f|] == f;
      assert s[|f| + 1..] == rest;
      SplitJoin(fields[1..], sep);
    }
  }

  /** Joining undoes splitting. */
  lemma {:induction false} JoinSplit(s: string, sep: char)
    ensures Join(Split(s, sep), sep) == s
    decreases |s|
  {
    var k := IndexOf(s, sep);
    if k < |s| {
      var rest := Split(s[k + 1..], sep);
      JoinSplit(s[k + 1..], sep);
      assert Split(s, sep) == [s[..k]] + rest;
      assert s == s[..k] + [sep] + s[k + 1..];
    }
  }

  /** Joining with a comma adds no line terminator. */
  lemma {:induction false} JoinNoLineTerminator(fields: seq<string>)
    requires forall k :: 0 <= k < |fields| ==> NoLineTerminator(fields[k])
    ensures NoLineTerminator(Join(fields, ','))
  {
    if |fields| > 1 {
      JoinNoLineTerminator(fields[1..]);
      assert Join(fields, ',') == fields[0] + [','] + Join(fields[1..], ',');
    }
  }

  // ---------------------------------------------------------------- the call pattern

  /**
   * `/^prefix(.*)\)/` can finish its greedy `.*` at position `k` of `s`: `s`
   * starts with `prefix`, `s[k]` is `)`, and no line terminator lies between
   * the prefix and `k` (the `.` of a JavaScript pattern does not match one).
   */
  predicate CloseAt(s: string, prefix: string, k: int) {
    prefix <= s && |prefix| <= k < |s| && s[k] == ')' &&
    NoLineTerminator(s[|prefix|..k])
  }

  /**
   * `s.match(/^prefix(.*)\)/)` with its first capture: the text between the
   * prefix and the last `)` that the greedy `.*` can reach, or None.
   */
  function MatchCall(s: string, prefix: string): (m: Option<string>)
    ensures m.Some? ==>
      var k := |prefix| + |m.value|;
      CloseAt(s, prefix, k) && m.value == s[|prefix|..k] &&
      forall k' :: CloseAt(s, prefix, k') ==> k' <= k
    ensures m.None? ==> forall k :: !CloseAt(s, prefix, k)
  {
    if prefix <= s then
      var rest := s[|prefix|..];
      var line := rest[..FirstLineTerminator(rest)];
      var k := LastIndexOf(line, ')');
      if k < 0 then None else Some(line[..k])
    else None
  }
}
