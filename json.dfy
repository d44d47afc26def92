/** Dynamic values shared by the JavaScript front end and the Python back end.

    A JSON-shaped value. A number is held as its canonical decimal text (what
    JavaScript's `String()` or Python's `repr` prints for it), so that string
    conversion, strict equality and truthiness can be stated exactly without
    floating point. JavaScript `undefined` is never a `Value`: it is an absent
    key or a `None`. */
module Json {

  datatype Option<T> = None | Some(value: T)

  datatype Result<T> = Ok(value: T) | Err(error: string)

  datatype Value =
    | Null
    | Bool(b: bool)
    | Num(text: string)
    | Str(s: string)
    | Arr(items: seq<Value>)
    | Obj(fields: map<string, Value>)

  /** A JavaScript object or Python dict with string keys. */
  type Record = map<string, Value>

  const NAN_TEXT := "NaN"

  /** JavaScript truthiness: `null`, `false`, `0`, `NaN` and `''` are falsy. */
  predicate JsTruthy(v: Value) {
    match v
    case Null => false
    case Bool(b) => b
    case Num(t) => t != "0" && t != NAN_TEXT
    case Str(s) => s != ""
    case Arr(_) => true
    case Obj(_) => true
  }

  /** Python truthiness: `None`, `False`, zero, and empty strings, lists and dicts are falsy. */
  predicate PyTruthy(v: Value) {
    match v
    case Null => false
    case Bool(b) => b
    case Num(t) => t != "0" && t != "0.0" && t != "-0.0"
    case Str(s) => s != ""
    case Arr(items) => |items| > 0
    case Obj(fields) => |fields| > 0
  }

  /** JavaScript `===`. Two arrays or objects are never the same reference
      here: every array or object a caller passes is freshly built. */
  predicate StrictEq(a: Value, b: Value) {
    match (a, b)
    case (Null, Null) => true
    case (Bool(x), Bool(y)) => x == y
    case (Num(x), Num(y)) => x == y && x != NAN_TEXT
    case (Str(x), Str(y)) => x == y
    case _ => false
  }

  /** JavaScript `String(v)`; an array is joined with commas, `null` elements as ''. */
  function JsString(v: Value): string
    decreases v
  {
    match v
    case Null => "null"
    case Bool(b) => if b then "true" else "false"
    case Num(t) => t
    case Str(s) => s
    case Arr(items) =>
      Join(seq(|items|, i requires 0 <= i < |items| => if items[i].Null? then "" else JsString(items[i])), ",")
    case Obj(_) => "[object Object]"
  }

  /** Usable as a Python dict key: lists and dicts are unhashable. */
  predicate Hashable(v: Value) {
    !v.Arr? && !v.Obj?
  }

  /** Python `str(v)` of a scalar. */
  function PyStr(v: Value): string
    requires Hashable(v)
  {
    match v
    case Null => "None"
    case Bool(b) => if b then "True" else "False"
    case Num(t) => t
    case Str(s) => s
  }

  function Get(r: Record, key: string): Option<Value> {
    if key in r then Some(r[key]) else None
  }

  // ---------------------------------------------------------------------------
  // Strings

  predicate StartsWith(s: string, p: string) {
    |p| <= |s| && s[..|p|] == p
  }

  predicate EndsWith(s: string, p: string) {
    |p| <= |s| && s[|s| - |p|..] == p
  }

  /** `p` occurs in `s` at some position. */
  predicate Contains(s: string, p: string)
    decreases |s|
  {
    StartsWith(s, p) || (s != [] && Contains(s[1..], p))
  }

  lemma ContainsAt(s: string, p: string, i: nat)
    requires i + |p| <= |s| && s[i..i + |p|] == p
    ensures Contains(s, p)
    decreases i
  {
    if i > 0 {
      assert s[1..][i - 1..i - 1 + |p|] == s[i..i + |p|];
      ContainsAt(s[1..], p, i - 1);
    }
  }

  lemma {:induction false} ContainsElim(s: string, p: string) returns (i: nat)
    requires Contains(s, p)
    ensures i + |p| <= |s| && s[i..i + |p|] == p
    decreases |s|
  {
    if StartsWith(s, p) {
      i := 0;
    } else {
      var j := ContainsElim(s[1..], p);
      assert s[1..][j..j + |p|] == s[j + 1..j + 1 + |p|];
      i := j + 1;
    }
  }

  /** A pattern with a character the text lacks does not occur in it. */
  lemma ContainedChars(s: string, p: string)
    ensures Contains(s, p) ==> forall k :: 0 <= k < |p| ==> p[k] in s
  {
    if Contains(s, p) {
      var i := ContainsElim(s, p);
      forall k | 0 <= k < |p| ensures p[k] in s {
        assert s[i + k] == p[k];
      }
    }
  }

  lemma {:induction false} ContainsSuffix(u: string, t: string, p: string)
    requires Contains(t, p)
    ensures Contains(u + t, p)
    decreases |u|
  {
    if u != [] {
      assert (u + t)[1..] == u[1..] + t;
      ContainsSuffix(u[1..], t, p);
    } else {
      assert u + t == t;
    }
  }

  /** Characters that cannot begin `p` can be skipped when searching for `p`. */
  lemma {:induction false} ContainsSkip(u: string, t: string, p: string)
    requires p != []
    requires forall k :: 0 <= k < |u| ==> u[k] != p[0]
    ensures Contains(u + t, p) <==> Contains(t, p)
    decreases |u|
  {
    if u == [] {
      assert u + t == t;
    } else {
      assert !StartsWith(u + t, p) by { assert (u + t)[0] == u[0]; }
      assert (u + t)[1..] == u[1..] + t;
      ContainsSkip(u[1..], t, p);
    }
  }

  /** Whole-string ASCII lower-casing (the inputs compared this way are ASCII). */
  function AsciiLower(s: string): (r: string)
    ensures |r| == |s|
  {
    seq(|s|, i requires 0 <= i < |s| => if 'A' <= s[i] <= 'Z' then (s[i] as int + 32) as char else s[i])
  }

  /** ECMAScript WhiteSpace and LineTerminator code points, removed by `String.prototype.trim`. */
  predicate IsJsSpace(c: char) {
    var n := c as int;
    n == 0x09 || n == 0x0A || n == 0x0B || n == 0x0C || n == 0x0D || n == 0x20 || n == 0xA0 ||
    n == 0x1680 || (0x2000 <= n <= 0x200A) || n == 0x2028 || n == 0x2029 || n == 0x202F ||
    n == 0x205F || n == 0x3000 || n == 0xFEFF
  }

  /** Python's `str.isspace` code points, removed by `str.strip()`. */
  predicate IsPySpace(c: char) {
    var n := c as int;
    (0x09 <= n <= 0x0D) || (0x1C <= n <= 0x1F) || n == 0x20 || n == 0x85 || n == 0xA0 ||
    n == 0x1680 || (0x2000 <= n <= 0x200A) || n == 0x2028 || n == 0x2029 || n == 0x202F ||
    n == 0x205F || n == 0x3000
  }

  function TrimStart(s: string, ws: char -> bool): string
    decreases |s|
  {
    if s != [] && ws(s[0]) then TrimStart(s[1..], ws) else s
  }

  function TrimEnd(s: string, ws: char -> bool): string
    decreases |s|
  {
    if s != [] && ws(s[|s| - 1]) then TrimEnd(s[..|s| - 1], ws) else s
  }

  /** TrimStart drops exactly the leading run of `ws` characters. (Stated as a
      lemma rather than on the function, so that uses of the function do not
      pay for these quantifiers.) */
  lemma {:induction false} TrimStartSpec(s: string, ws: char -> bool)
    ensures var r := TrimStart(s, ws);
      |r| <= |s| && r == s[|s| - |r|..] && (r != [] ==> !ws(r[0])) &&
      forall k :: 0 <= k < |s| - |r| ==> ws(s[k])
    decreases |s|
  {
    if s != [] && ws(s[0]) {
      TrimStartSpec(s[1..], ws);
    }
  }

  lemma {:induction false} TrimEndSpec(s: string, ws: char -> bool)
    ensures var r := TrimEnd(s, ws);
      |r| <= |s| && r == s[..|r|] && (r != [] ==> !ws(r[|r| - 1])) &&
      forall k :: |r| <= k < |s| ==> ws(s[k])
    decreases |s|
  {
    if s != [] && ws(s[|s| - 1]) {
      TrimEndSpec(s[..|s| - 1], ws);
    }
  }

  /** Removes leading and trailing characters satisfying `ws`. */
  function Trim(s: string, ws: char -> bool): string {
    TrimEnd(TrimStart(s, ws), ws)
  }

  function JsTrim(s: string): string { Trim(s, IsJsSpace) }

  function PyStrip(s: string): string { Trim(s, IsPySpace) }

  /** `parts.join(sep)`. */
  function Join(parts: seq<string>, sep: string): string
    decreases |parts|
  {
    if parts == [] then ""
    else if |parts| == 1 then parts[0]
    else parts[0] + sep + Join(parts[1..], sep)
  }

  /** `s.split(sep)` for a one-character separator: never empty, no part contains `sep`. */
  function Split(s: string, sep: char): (r: seq<string>)
    ensures |r| >= 1
    ensures forall k :: 0 <= k < |r| ==> sep !in r[k]
    decreases |s|
  {
    if s == [] then [""]
    else if s[0] == sep then [""] + Split(s[1..], sep)
    else
      var rest := Split(s[1..], sep);
      [[s[0]] + rest[0]] + rest[1..]
  }

  /** Joining the parts of a split with the separator gives back the text. */
  lemma {:induction false} JoinSplit(s: string, sep: char)
    ensures Join(Split(s, sep), [sep]) == s
    decreases |s|
  {
    if s == [] {
    } else if s[0] == sep {
      JoinSplit(s[1..], sep);
      assert s == [sep] + s[1..];
    } else {
      var rest := Split(s[1..], sep);
      JoinSplit(s[1..], sep);
      if |rest| == 1 {
        assert s == [s[0]] + rest[0];
      } else {
        assert Join(rest, [sep]) == rest[0] + [sep] + Join(rest[1..], [sep]);
        assert s == [s[0]] + s[1..];
      }
    }
  }

  /** A text without the separator splits into itself. */
  lemma {:induction false} SplitNoSep(s: string, sep: char)
    requires sep !in s
    ensures Split(s, sep) == [s]
    decreases |s|
  {
    if s != [] {
      SplitNoSep(s[1..], sep);
      assert s == [s[0]] + s[1..];
    }
  }

  /** Splitting at the first separator: the part before it comes first. */
  lemma {:induction false} SplitAt(x: string, sep: char, y: string)
    requires sep !in x
    ensures Split(x + [sep] + y, sep) == [x] + Split(y, sep)
    decreases |x|
  {
    var s := x + [sep] + y;
    if x == [] {
      assert s[1..] == y;
    } else {
      assert s[1..] == x[1..] + [sep] + y;
      SplitAt(x[1..], sep, y);
      assert [s[0]] + x[1..] == x;
    }
  }

  /** Trimming a run of `ws` characters leaves nothing. */
  lemma {:induction false} TrimAllSpace(w: string, ws: char -> bool)
    requires forall k :: 0 <= k < |w| ==> ws(w[k])
    ensures TrimStart(w, ws) == ""
    decreases |w|
  {
    if w != [] {
      TrimAllSpace(w[1..], ws);
    }
  }

  /** Leading `ws` characters before a text that does not start with one are dropped. */
  lemma {:induction false} TrimStartPrefix(w: string, a: string, ws: char -> bool)
    requires forall k :: 0 <= k < |w| ==> ws(w[k])
    requires a != [] && !ws(a[0])
    ensures TrimStart(w + a, ws) == a
    decreases |w|
  {
    if w != [] {
      assert (w + a)[1..] == w[1..] + a;
      TrimStartPrefix(w[1..], a, ws);
    }
  }

  /** A trimmed text neither starts nor ends with a `ws` character, and is a
      piece of the original. */
  lemma TrimmedEnds(s: string, ws: char -> bool)
    ensures var r := Trim(s, ws);
      |r| <= |s| && (forall c :: c in r ==> c in s) &&
      (r != [] ==> !ws(r[0]) && !ws(r[|r| - 1]))
  {
    var t := TrimStart(s, ws);
    TrimStartSpec(s, ws);
    TrimEndSpec(t, ws);
    var r := TrimEnd(t, ws);
    assert forall c :: c in t ==> c in s by {
      forall c | c in t ensures c in s {
        var k :| 0 <= k < |t| && t[k] == c;
        assert s[|s| - |t| + k] == c;
      }
    }
    assert forall c :: c in r ==> c in t by {
      forall c | c in r ensures c in t {
        var k :| 0 <= k < |r| && r[k] == c;
        assert t[k] == c;
      }
    }
    if r != [] {
      assert r[0] == t[0];
    }
  }

  /** Trimming twice is trimming once. */
  lemma TrimTwice(s: string, ws: char -> bool)
    ensures Trim(Trim(s, ws), ws) == Trim(s, ws)
  {
    TrimmedEnds(s, ws);
  }

  /** Decimal digits of a natural number. */
  function NatText(n: nat): (r: string)
    ensures r != [] && forall k :: 0 <= k < |r| ==> '0' <= r[k] <= '9'
    decreases n
  {
    if n < 10 then [('0' as int + n) as char] else NatText(n / 10) + [('0' as int + n % 10) as char]
  }
}
