/** The node-form editing rules of src/utils/nodeLogic.ts (`useNodeForm`).

    The form holds the business data of one node as a record. Every setter
    edits that record in place, refreshes the JSON text shown beside the form
    and emits a copy of the record; the getters turn a stored value into what
    a field of the form shows. `JSON.parse`, `JSON.stringify` and `Number()`
    are the parameters of a `JsonCodec`. */
module NodeForm {
  import opened Json

  /** The host's JSON functions: `stringify` is `JSON.stringify(v)`,
      `pretty` is `JSON.stringify(v, null, 2)`, and `number(t)` is the
      canonical text of `Number(t)`, `"NaN"` when `t` is not a number. */
  datatype JsonCodec = JsonCodec(parse: string -> Result<Value>, stringify: Value -> string,
                                 pretty: Value -> string, number: string -> string)

  const FOCUS := "focus"
  const TARGET := "target"

  /** The six callback events a node can be focused on, in menu order. */
  const FOCUS_EVENT_TYPES: seq<string> := [
    "Node.Recognition.Starting", "Node.Recognition.Succeeded", "Node.Recognition.Failed",
    "Node.Action.Starting", "Node.Action.Succeeded", "Node.Action.Failed"
  ]

  const ZERO_BOX: Value := Arr([Num("0"), Num("0"), Num("0"), Num("0")])

  /** The value each field takes when the record does not hold it. */
  const DEFAULTS: Record := map[
    "recognition" := Str("DirectHit"), "action" := Str("DoNothing"), "next" := Arr([]), "on_error" := Arr([]),
    "rate_limit" := Num("1000"), "timeout" := Num("20000"), "inverse" := Bool(false), "enabled" := Bool(true),
    "anchor" := Bool(false), "pre_delay" := Num("200"), "post_delay" := Num("200"),
    "pre_wait_freezes" := Num("0"), "post_wait_freezes" := Num("0"), "roi" := ZERO_BOX, "roi_offset" := ZERO_BOX,
    "index" := Num("0"), "order_by" := Str("Horizontal"), "threshold" := Num("0.7"), "method" := Num("5"),
    "count" := Num("4"), "detector" := Str("SIFT"), "ratio" := Num("0.6"), "connected" := Bool(false),
    "only_rec" := Bool(false), "green_mask" := Bool(false), "target" := Bool(true), "duration" := Num("200"),
    "contact" := Num("0")
  ]

  // ---------------------------------------------------------------------------
  // Single values

  /** `getValue(key, defaultVal)`: the stored value, else the given default
      unless it is nullish, else the table's default; `None` is `undefined`. */
  function GetValue(defaults: Record, d: Record, key: string, defaultVal: Option<Value>): (r: Option<Value>)
    ensures key in d ==> r == Some(d[key])
    ensures key !in d && defaultVal.Some? && defaultVal.value != Null ==> r == defaultVal
    ensures key !in d && (defaultVal.None? || defaultVal == Some(Null)) ==> r == Get(defaults, key)
  {
    if key in d then Some(d[key])
    else if defaultVal.Some? && defaultVal.value != Null then defaultVal
    else Get(defaults, key)
  }

  /** The values `setValue` deletes instead of storing. */
  predicate Dropped(defaults: Record, key: string, value: Value) {
    (key == TARGET && value == Bool(true)) ||
    (key in defaults && StrictEq(value, defaults[key])) || value == Str("") || value == Null
  }

  /** The record after `setValue(key, value)`: only `key` changes, and it is
      present exactly when the value is not one that is dropped. */
  function SetValueIn(defaults: Record, d: Record, key: string, value: Value): (r: Record)
    ensures key in r <==> !Dropped(defaults, key, value)
    ensures key in r ==> r[key] == value
    ensures forall k :: k != key ==> (k in r <==> k in d) && (k in r ==> r[k] == d[k])
  {
    if Dropped(defaults, key, value) then d - {key} else d[key := value]
  }

  lemma StrictEqIsEqual(a: Value, b: Value)
    requires StrictEq(a, b)
    ensures a == b
  {
  }

  /** Reading back a value just set gives that value, for every value but
      `''` and `null`: a dropped value equals the default read in its place. */
  lemma SetThenGet(defaults: Record, d: Record, key: string, v: Value)
    requires TARGET in defaults && defaults[TARGET] == Bool(true)
    requires v != Null && v != Str("")
    ensures GetValue(defaults, SetValueIn(defaults, d, key, v), key, None) == Some(v)
  {
    if key in defaults && StrictEq(v, defaults[key]) {
      StrictEqIsEqual(v, defaults[key]);
    }
  }

  /** Setting the same value twice changes nothing the second time. */
  lemma SetValueTwice(defaults: Record, d: Record, key: string, v: Value)
    ensures SetValueIn(defaults, SetValueIn(defaults, d, key, v), key, v) == SetValueIn(defaults, d, key, v)
  {
    var d1 := SetValueIn(defaults, d, key, v);
    var d2 := SetValueIn(defaults, d1, key, v);
    assert d2.Keys == d1.Keys;
  }

  lemma DefaultsTarget()
    ensures TARGET in DEFAULTS && DEFAULTS[TARGET] == Bool(true)
  {
  }

  // ---------------------------------------------------------------------------
  // Lists edited as comma-separated text

  /** `Array.prototype.join` text of each element: `null` shows as ''. */
  function Texts(items: seq<Value>): (r: seq<string>)
    ensures |r| == |items|
    ensures forall k :: 0 <= k < |items| ==> r[k] == (if items[k].Null? then "" else JsString(items[k]))
  {
    seq(|items|, i requires 0 <= i < |items| => if items[i].Null? then "" else JsString(items[i]))
  }

  function Strs(ps: seq<string>): (r: seq<Value>)
    ensures |r| == |ps| && forall k :: 0 <= k < |ps| ==> r[k] == Str(ps[k])
  {
    seq(|ps|, i requires 0 <= i < |ps| => Str(ps[i]))
  }

  /** `getArrayValue(key)`: a list joined with `", "`, a truthy scalar as it
      is, anything else ''. */
  function GetArrayValue(d: Record, key: string): (r: Value)
    ensures key in d && d[key].Arr? ==> r == Str(Join(Texts(d[key].items), ", "))
    ensures key in d && !d[key].Arr? && JsTruthy(d[key]) ==> r == d[key]
    ensures (key !in d || (!d[key].Arr? && !JsTruthy(d[key]))) ==> r == Str("")
  {
    match Get(d, key)
    case Some(Arr(items)) => Str(Join(Texts(items), ", "))
    case Some(v) => if JsTruthy(v) then v else Str("")
    case None => Str("")
  }

  /** `.map(s => s.trim()).filter(Boolean)` on the parts of a split. */
  function CleanParts(ps: seq<string>): (r: seq<string>)
    ensures |r| <= |ps|
    ensures forall k :: 0 <= k < |r| ==> r[k] != ""
    decreases |ps|
  {
    if ps == [] then []
    else (var t := JsTrim(ps[0]); if t == "" then [] else [t]) + CleanParts(ps[1..])
  }

  /** The parts `setArrayValue` stores: `value.split(',')`, trimmed, empties dropped. */
  function ArrayParts(value: string): seq<string> {
    CleanParts(Split(value, ','))
  }

  /** `setArrayValue(key, value)`: blank text deletes the key, any other text
      stores its parts as a list of strings (possibly empty, for `","`). */
  function SetArrayValueIn(d: Record, key: string, value: string): (r: Record)
    ensures JsTrim(value) == "" ==> r == d - {key}
    ensures JsTrim(value) != "" ==> r == d[key := Arr(Strs(ArrayParts(value)))]
  {
    if JsTrim(value) == "" then d - {key} else d[key := Arr(Strs(ArrayParts(value)))]
  }

  /** A part as `setArrayValue` leaves it: non-empty, without outer white
      space and without a comma. */
  predicate Tidy(p: string) {
    p != "" && !IsJsSpace(p[0]) && !IsJsSpace(p[|p| - 1]) && ',' !in p
  }

  lemma TidyTrim(q: string)
    requires ',' !in q && JsTrim(q) != ""
    ensures Tidy(JsTrim(q))
  {
    TrimmedEnds(q, IsJsSpace);
  }

  /** Every part `setArrayValue` stores is tidy. */
  lemma {:induction false} CleanPartsTidy(ps: seq<string>)
    requires forall k :: 0 <= k < |ps| ==> ',' !in ps[k]
    ensures forall k :: 0 <= k < |CleanParts(ps)| ==> Tidy(CleanParts(ps)[k])
    decreases |ps|
  {
    if ps != [] {
      CleanPartsTidy(ps[1..]);
      if JsTrim(ps[0]) != "" {
        TidyTrim(ps[0]);
      }
    }
  }

  /** Splitting white space followed by tidy parts joined with `", "` and
      cleaning gives back the parts. */
  lemma {:induction false} CleanAfterSpaces(w: string, ps: seq<string>)
    requires forall k :: 0 <= k < |w| ==> IsJsSpace(w[k])
    requires forall k :: 0 <= k < |ps| ==> Tidy(ps[k])
    ensures CleanParts(Split(w + Join(ps, ", "), ',')) == ps
    decreases |ps|
  {
    assert ',' !in w by {
      assert !IsJsSpace(',');
    }
    if ps == [] {
      assert w + Join(ps, ", ") == w;
      SplitNoSep(w, ',');
      TrimAllSpace(w, IsJsSpace);
      assert JsTrim(w) == TrimEnd("", IsJsSpace) == "";
      assert CleanParts([w]) == [] + CleanParts([]);
    } else {
      var a := ps[0];
      TrimStartPrefix(w, a, IsJsSpace);
      assert JsTrim(w + a) == TrimEnd(a, IsJsSpace) == a;
      assert ',' !in w + a;
      if |ps| == 1 {
        assert w + Join(ps, ", ") == w + a;
        SplitNoSep(w + a, ',');
        assert CleanParts([w + a]) == [a] + CleanParts([]);
      } else {
        var rest := ps[1..];
        assert w + Join(ps, ", ") == (w + a) + [','] + (" " + Join(rest, ", "));
        SplitAt(w + a, ',', " " + Join(rest, ", "));
        CleanAfterSpaces(" ", rest);
        var tail := Split(" " + Join(rest, ", "), ',');
        assert ([w + a] + tail)[1..] == tail;
      }
    }
  }

  /** Showing a list of tidy parts and reading the text back stores the same parts. */
  lemma ArrayTextRoundTrip(ps: seq<string>)
    requires forall k :: 0 <= k < |ps| ==> Tidy(ps[k])
    ensures ArrayParts(Join(ps, ", ")) == ps
  {
    CleanAfterSpaces("", ps);
    assert "" + Join(ps, ", ") == Join(ps, ", ");
  }

  lemma JoinStartsWith(ps: seq<string>, sep: string)
    requires ps != []
    ensures |ps[0]| <= |Join(ps, sep)| && Join(ps, sep)[..|ps[0]|] == ps[0]
  {
    if |ps| > 1 {
      assert Join(ps, sep) == ps[0] + (sep + Join(ps[1..], sep));
    }
  }

  /** Editing the text a non-empty list shows, without changing it, leaves
      the record as it is. */
  lemma ArrayTextStable(d: Record, key: string, value: string)
    requires JsTrim(value) != "" && ArrayParts(value) != []
    ensures var d1 := SetArrayValueIn(d, key, value);
      GetArrayValue(d1, key).Str? && SetArrayValueIn(d1, key, GetArrayValue(d1, key).s) == d1
  {
    var ps := ArrayParts(value);
    CleanPartsTidy(Split(value, ','));
    var d1 := SetArrayValueIn(d, key, value);
    assert Texts(Strs(ps)) == ps;
    var text := Join(ps, ", ");
    assert GetArrayValue(d1, key) == Str(text);
    ArrayTextRoundTrip(ps);
    JoinStartsWith(ps, ", ");
    assert text[0] == ps[0][0];
    assert TrimStart(text, IsJsSpace) == text;
    TrimEndSpec(text, IsJsSpace);
    assert JsTrim(text) != "";
  }

  /** `getArrayList(key)`: a copy of a stored list; nothing, `null` or '' give
      the empty list; any other value is a one-element list. */
  function GetArrayList(d: Record, key: string): (r: seq<Value>)
    ensures key in d && d[key].Arr? ==> r == d[key].items
    ensures (key !in d || d[key] == Null || d[key] == Str("")) ==> r == []
    ensures key in d && !d[key].Arr? && d[key] != Null && d[key] != Str("") ==> r == [d[key]]
  {
    match Get(d, key)
    case None => []
    case Some(Arr(items)) => items
    case Some(v) => if v == Null || v == Str("") then [] else [v]
  }

  function TrimItem(v: Value): Value {
    if v.Str? then Str(JsTrim(v.s)) else v
  }

  /** `.map(v => typeof v === 'string' ? v.trim() : v).filter(Boolean)`. */
  function CleanList(arr: seq<Value>): (r: seq<Value>)
    ensures |r| <= |arr|
    ensures forall k :: 0 <= k < |r| ==> JsTruthy(r[k]) && TrimItem(r[k]) == r[k]
    decreases |arr|
  {
    if arr == [] then []
    else (var v := TrimItem(arr[0]); TrimTwiceItem(arr[0]); if JsTruthy(v) then [v] else []) + CleanList(arr[1..])
  }

  lemma TrimTwiceItem(v: Value)
    ensures TrimItem(TrimItem(v)) == TrimItem(v)
  {
    if v.Str? {
      TrimTwice(v.s, IsJsSpace);
    }
  }

  /** Cleaning an already cleaned list changes nothing. */
  lemma {:induction false} CleanListTwice(arr: seq<Value>)
    ensures CleanList(CleanList(arr)) == CleanList(arr)
    decreases |arr|
  {
    if arr != [] {
      CleanListTwice(arr[1..]);
      var v := TrimItem(arr[0]);
      var rest := CleanList(arr[1..]);
      if JsTruthy(v) {
        TrimTwiceItem(arr[0]);
        assert CleanList(arr) == [v] + rest;
        assert ([v] + rest)[1..] == rest;
        assert CleanList([v] + rest) == [v] + CleanList(rest);
      } else {
        assert CleanList(arr) == rest;
      }
    }
  }

  /** `setArrayList(key, arr)`: the cleaned list, or no key when nothing remains. */
  function SetArrayListIn(d: Record, key: string, arr: seq<Value>): (r: Record)
    ensures CleanList(arr) == [] ==> r == d - {key}
    ensures CleanList(arr) != [] ==> r == d[key := Arr(CleanList(arr))]
  {
    var cleaned := CleanList(arr);
    if cleaned == [] then d - {key} else d[key := Arr(cleaned)]
  }

  /** The list shown after `setArrayList` is the cleaned list, and handing it
      back to `setArrayList` leaves the record as it is. */
  lemma ArrayListRoundTrip(d: Record, key: string, arr: seq<Value>)
    ensures var d1 := SetArrayListIn(d, key, arr);
      GetArrayList(d1, key) == CleanList(arr) && SetArrayListIn(d1, key, GetArrayList(d1, key)) == d1
  {
    CleanListTwice(arr);
  }

  // ---------------------------------------------------------------------------
  // Values edited as JSON text

  /** What a JSON field shows for a value: objects and lists as JSON text,
      scalars through `String()`. */
  function JsonText(codec: JsonCodec, v: Value): string {
    if v.Arr? || v.Obj? then codec.stringify(v) else JsString(v)
  }

  /** `getJsonValue(key)`: the stored value, or the table's default (the
      `null` passed as the fallback is nullish), shown as text; '' when
      there is neither or it is `null`. */
  function GetJsonValue(codec: JsonCodec, defaults: Record, d: Record, key: string): (r: string)
    ensures key in d && d[key] != Null ==> r == JsonText(codec, d[key])
    ensures key !in d && key in defaults && defaults[key] != Null ==> r == JsonText(codec, defaults[key])
    ensures (key in d && d[key] == Null) || (key !in d && key !in defaults) ==> r == ""
  {
    match GetValue(defaults, d, key, Some(Null))
    case None => ""
    case Some(v) => if v == Null then "" else JsonText(codec, v)
  }

  /** The value `setJsonValue(key, rawVal)` hands to `setValue`: `null` for
      blank text, the parse of text starting with `[` or `{` (the raw text
      when it does not parse), otherwise the number, or the raw text when it
      is not one. */
  function JsonInputValue(codec: JsonCodec, raw: string): (r: Value)
    ensures JsTrim(raw) == "" ==> r == Null
    ensures JsTrim(raw) != "" && (StartsWith(raw, "[") || StartsWith(raw, "{")) ==>
      r == (match codec.parse(raw) case Ok(v) => v case Err(_) => Str(raw))
    ensures JsTrim(raw) != "" && !StartsWith(raw, "[") && !StartsWith(raw, "{") ==>
      r == (if codec.number(raw) == NAN_TEXT then Str(raw) else Num(codec.number(raw)))
  {
    if JsTrim(raw) == "" then Null
    else if StartsWith(raw, "[") || StartsWith(raw, "{") then
      match codec.parse(raw)
      case Ok(v) => v
      case Err(_) => Str(raw)
    else
      var n := codec.number(raw);
      if n == NAN_TEXT then Str(raw) else Num(n)
  }

  /** Typing a plain (non-bracketed) text into a JSON field shows that
      text again, or the number's own text when it is a number, whether the
      value was stored or dropped as equal to the default. */
  lemma JsonTextRoundTrip(codec: JsonCodec, d: Record, key: string, raw: string)
    requires JsTrim(raw) != "" && !StartsWith(raw, "[") && !StartsWith(raw, "{")
    ensures GetJsonValue(codec, DEFAULTS, SetValueIn(DEFAULTS, d, key, JsonInputValue(codec, raw)), key) ==
      (if codec.number(raw) == NAN_TEXT then raw else codec.number(raw))
  {
    var v := JsonInputValue(codec, raw);
    assert JsTrim("") == TrimEnd(TrimStart("", IsJsSpace), IsJsSpace) == "";
    assert raw != "";
    DefaultsTarget();
    SetThenGet(DEFAULTS, d, key, v);
  }

  /** Blank text in a JSON field removes the key. */
  lemma JsonBlankClears(codec: JsonCodec, d: Record, key: string, raw: string)
    requires JsTrim(raw) == ""
    ensures SetValueIn(DEFAULTS, d, key, JsonInputValue(codec, raw)) == d - {key}
  {
  }

  // ---------------------------------------------------------------------------
  // The `target` field

  /** `getTargetValue(key)`: '' for `true` or nothing, JSON text for a list,
      a truthy value as it is, '' for any other falsy value. */
  function GetTargetValue(codec: JsonCodec, d: Record, key: string): (r: Value)
    ensures (key !in d || d[key] == Bool(true)) ==> r == Str("")
    ensures key in d && d[key].Arr? ==> r == Str(codec.stringify(d[key]))
    ensures key in d && d[key] != Bool(true) && !d[key].Arr? ==> r == (if JsTruthy(d[key]) then d[key] else Str(""))
  {
    match Get(d, key)
    case None => Str("")
    case Some(v) =>
      if v == Bool(true) then Str("")
      else if v.Arr? then Str(codec.stringify(v))
      else if JsTruthy(v) then v
      else Str("")
  }

  /** The text that means "the default target": '' or `true` in any case. */
  predicate TargetIsDefault(raw: string) {
    raw == "" || AsciiLower(raw) == "true"
  }

  /** The value `setTargetValue(key, rawVal)` hands to `setValue`. */
  function TargetInputValue(codec: JsonCodec, raw: string): (r: Value)
    ensures TargetIsDefault(raw) ==> r == Bool(true)
    ensures !TargetIsDefault(raw) && codec.parse(raw).Ok? && codec.parse(raw).value.Arr? ==> r == codec.parse(raw).value
    ensures !TargetIsDefault(raw) && !(codec.parse(raw).Ok? && codec.parse(raw).value.Arr?) ==> r == Str(raw)
  {
    if TargetIsDefault(raw) then Bool(true)
    else match codec.parse(raw)
      case Ok(Arr(items)) => Arr(items)
      case _ => Str(raw)
  }

  /** What the target field shows after typing into it: '' for the default
      (and the key is gone), the re-encoded list for list text, the text
      itself otherwise. */
  lemma TargetRoundTrip(codec: JsonCodec, d: Record, raw: string)
    ensures var d1 := SetValueIn(DEFAULTS, d, TARGET, TargetInputValue(codec, raw));
      var shown := GetTargetValue(codec, d1, TARGET);
      (TargetIsDefault(raw) ==> TARGET !in d1 && shown == Str("")) &&
      (!TargetIsDefault(raw) && codec.parse(raw).Ok? && codec.parse(raw).value.Arr? ==>
        shown == Str(codec.stringify(codec.parse(raw).value))) &&
      (!TargetIsDefault(raw) && !(codec.parse(raw).Ok? && codec.parse(raw).value.Arr?) ==> shown == Str(raw))
  {
    if !TargetIsDefault(raw) {
      assert raw != "";
    }
  }

  // ---------------------------------------------------------------------------
  // The focus map

  /** `focusData`: the stored `focus` object's keys; nothing for any other
      value. (An array's keys are indices, never event names.) */
  function FocusKeys(d: Record): set<string> {
    if FOCUS in d && d[FOCUS].Obj? then d[FOCUS].fields.Keys else {}
  }

  /** `r` is `s` with some elements left out, the rest in the same order. */
  predicate IsSubseq(r: seq<string>, s: seq<string>)
    decreases |s|
  {
    r == [] || (s != [] && ((r[0] == s[0] && IsSubseq(r[1..], s[1..])) || IsSubseq(r, s[1..])))
  }

  /** `types.filter(type => !keys.includes(type))`. */
  function FilterOut(types: seq<string>, keys: set<string>): (r: seq<string>)
    ensures forall t :: t in r <==> t in types && t !in keys
    ensures IsSubseq(r, types)
    decreases |types|
  {
    if types == [] then []
    else if types[0] in keys then FilterOut(types[1..], keys)
    else [types[0]] + FilterOut(types[1..], keys)
  }

  /** `availableFocusEvents`: the event types not yet in the focus map, in menu order. */
  function AvailableFocusEvents(d: Record): (r: seq<string>)
    ensures forall t :: t in r <==> t in FOCUS_EVENT_TYPES && t !in FocusKeys(d)
    ensures IsSubseq(r, FOCUS_EVENT_TYPES)
  {
    FilterOut(FOCUS_EVENT_TYPES, FocusKeys(d))
  }

  /** `focus[key] = value` after `ensureFocusRecord()`: a missing, falsy or
      scalar `focus` is replaced by a new object. A property set on a list is
      not part of its JSON value, so a list is left as it is. */
  function UpdateFocusIn(d: Record, key: string, value: string): (r: Record)
    ensures forall k :: k != FOCUS ==> (k in r <==> k in d) && (k in r ==> r[k] == d[k])
    ensures FOCUS in d && d[FOCUS].Obj? ==> FOCUS in r && r[FOCUS] == Obj(d[FOCUS].fields[key := Str(value)])
    ensures FOCUS in d && d[FOCUS].Arr? ==> r == d
    ensures !(FOCUS in d && (d[FOCUS].Obj? || d[FOCUS].Arr?)) ==> FOCUS in r && r[FOCUS] == Obj(map[key := Str(value)])
  {
    match Get(d, FOCUS)
    case Some(Obj(m)) => d[FOCUS := Obj(m[key := Str(value)])]
    case Some(Arr(_)) => d
    case _ => d[FOCUS := Obj(map[key := Str(value)])]
  }

  /** `Object.keys(v).length`: the own enumerable keys of an object, list or
      string; a number or a boolean has none. */
  function OwnKeyCount(v: Value): nat {
    match v
    case Obj(m) => |m|
    case Arr(items) => |items|
    case Str(s) => |s|
    case _ => 0
  }

  /** `removeFocusParam` does anything (and emits) only when `focus` is truthy. */
  predicate RemoveFocusActs(d: Record) {
    FOCUS in d && JsTruthy(d[FOCUS])
  }

  /** `delete focus[key]`, then the whole `focus` goes when it has no keys left. */
  function RemoveFocusIn(d: Record, key: string): (r: Record)
    ensures !RemoveFocusActs(d) ==> r == d
    ensures forall k :: k != FOCUS ==> (k in r <==> k in d) && (k in r ==> r[k] == d[k])
    ensures RemoveFocusActs(d) && d[FOCUS].Obj? ==>
      (d[FOCUS].fields.Keys <= {key} ==> FOCUS !in r) &&
      (!(d[FOCUS].fields.Keys <= {key}) ==> FOCUS in r && r[FOCUS] == Obj(d[FOCUS].fields - {key}))
  {
    if !RemoveFocusActs(d) then d
    else
      var f := d[FOCUS];
      var f' := if f.Obj? then Obj(f.fields - {key}) else f;
      if OwnKeyCount(f') == 0 then d - {FOCUS} else d[FOCUS := f']
  }

  /** Adding a focus event takes it out of the menu and no other. */
  lemma AddFocusHides(d: Record, t: string)
    requires !(FOCUS in d && d[FOCUS].Arr?)
    ensures forall u :: u in AvailableFocusEvents(UpdateFocusIn(d, t, "")) <==>
      u in AvailableFocusEvents(d) && u != t
  {
    assert FocusKeys(UpdateFocusIn(d, t, "")) == FocusKeys(d) + {t};
  }

  /** Removing a focus event puts it back in the menu and no other. */
  lemma RemoveFocusShows(d: Record, t: string)
    ensures forall u :: u in AvailableFocusEvents(RemoveFocusIn(d, t)) <==>
      u in AvailableFocusEvents(d) || (u == t && u in FOCUS_EVENT_TYPES)
  {
    if RemoveFocusActs(d) && d[FOCUS].Obj? {
      var m := d[FOCUS].fields;
      if |m - {t}| == 0 {
        assert (m - {t}).Keys == {};
      }
    }
  }

  // ---------------------------------------------------------------------------
  // The form state

  /** The form's refs and the copies emitted as `update-data`, oldest first. */
  datatype FormState = FormState(formData: Record, jsonStr: string, jsonError: string, emitted: seq<Record>)

  /** `emitUpdateData()` after the record became `d`: the JSON text shows it,
      the error is cleared and a copy is emitted. */
  function Emitted(codec: JsonCodec, s: FormState, d: Record): (r: FormState)
    ensures r.formData == d && r.emitted == s.emitted + [d] && r.jsonError == ""
    ensures r.jsonStr == codec.pretty(Obj(d))
  {
    FormState(d, codec.pretty(Obj(d)), "", s.emitted + [d])
  }

  /** The record a parsed text becomes: the object itself; `{...v}` of a
      scalar or list is modelled as the empty record. */
  function RecordOf(v: Value): Record {
    if v.Obj? then v.fields else map[]
  }

  /** `handleJsonInput`: the text is shown as typed; text that parses
      replaces the record and is emitted, text that does not leaves the
      record alone, sets the error and emits nothing. */
  function JsonInput(codec: JsonCodec, s: FormState, text: string): (r: FormState)
    ensures codec.parse(text).Err? ==>
      r == FormState(s.formData, text, codec.parse(text).error, s.emitted)
    ensures codec.parse(text).Ok? ==> r == Emitted(codec, s, RecordOf(codec.parse(text).value))
  {
    match codec.parse(text)
    case Ok(v) => Emitted(codec, s.(jsonStr := text, jsonError := ""), RecordOf(v))
    case Err(msg) => s.(jsonStr := text, jsonError := msg)
  }

  /** `useNodeForm(props, emit)`. */
  class NodeForm {
    const codec: JsonCodec
    var formData: Record
    var jsonStr: string
    var jsonError: string
    var emitted: seq<Record>

    function State(): FormState
      reads this
    {
      FormState(formData, jsonStr, jsonError, emitted)
    }

    /** The `visible` watcher: a deep copy of the node's data (`{}` when it
        has none), its JSON text and no error. */
    constructor(codec: JsonCodec, data: Option<Record>)
      ensures this.codec == codec && emitted == [] && jsonError == ""
      ensures formData == (if data.Some? then data.value else map[])
      ensures jsonStr == codec.pretty(Obj(formData))
    {
      this.codec := codec;
      formData := if data.Some? then data.value else map[];
      jsonStr := codec.pretty(Obj(if data.Some? then data.value else map[]));
      jsonError := "";
      emitted := [];
    }

    /** The data watcher while the form is open: the new data, its text and
        no error (`updateJsonFromForm` clears it). */
    method Refresh(data: Record)
      modifies this
      ensures State() == old(State()).(formData := data, jsonStr := codec.pretty(Obj(data)), jsonError := "")
    {
      formData := data;
      jsonStr := codec.pretty(Obj(data));
      jsonError := "";
    }

    /** `emitUpdateData()`. */
    method Emit()
      modifies this
      ensures State() == Emitted(codec, old(State()), old(formData))
    {
      jsonStr := codec.pretty(Obj(formData));
      jsonError := "";
      emitted := emitted + [formData];
    }

    /** `setValue(key, value)`: one key deleted or stored, then one emit. */
    method SetValue(key: string, value: Value)
      modifies this
      ensures State() == Emitted(codec, old(State()), SetValueIn(DEFAULTS, old(formData), key, value))
    {
      if key == TARGET && value == Bool(true) {
        formData := formData - {key};
      } else if (key in DEFAULTS && StrictEq(value, DEFAULTS[key])) || value == Str("") || value == Null {
        formData := formData - {key};
      } else {
        formData := formData[key := value];
      }
      Emit();
    }

    /** `setArrayValue(key, value)`. */
    method SetArrayValue(key: string, value: string)
      modifies this
      ensures State() == Emitted(codec, old(State()), SetArrayValueIn(old(formData), key, value))
    {
      if JsTrim(value) == "" {
        formData := formData - {key};
      } else {
        formData := formData[key := Arr(Strs(ArrayParts(value)))];
      }
      Emit();
    }

    /** `setArrayList(key, arr)`. */
    method SetArrayList(key: string, arr: seq<Value>)
      modifies this
      ensures State() == Emitted(codec, old(State()), SetArrayListIn(old(formData), key, arr))
    {
      var cleaned := CleanList(arr);
      if cleaned == [] {
        formData := formData - {key};
      } else {
        formData := formData[key := Arr(cleaned)];
      }
      Emit();
    }

    /** `setJsonValue(key, rawVal)`: through `setValue`. */
    method SetJsonValue(key: string, raw: string)
      modifies this
      ensures State() == Emitted(codec, old(State()), SetValueIn(DEFAULTS, old(formData), key, JsonInputValue(codec, raw)))
    {
      if JsTrim(raw) == "" {
        SetValue(key, Null);
        return;
      }
      if StartsWith(raw, "[") || StartsWith(raw, "{") {
        var parsed := codec.parse(raw);
        if parsed.Ok? {
          SetValue(key, parsed.value);
        } else {
          SetValue(key, Str(raw));
        }
      } else {
        var num := codec.number(raw);
        SetValue(key, if num == NAN_TEXT then Str(raw) else Num(num));
      }
    }

    /** `setTargetValue(key, rawVal)`: through `setValue`. */
    method SetTargetValue(key: string, raw: string)
      modifies this
      ensures State() == Emitted(codec, old(State()), SetValueIn(DEFAULTS, old(formData), key, TargetInputValue(codec, raw)))
    {
      if raw == "" || AsciiLower(raw) == "true" {
        SetValue(key, Bool(true));
        return;
      }
      var parsed := codec.parse(raw);
      if parsed.Ok? && parsed.value.Arr? {
        SetValue(key, parsed.value);
        return;
      }
      SetValue(key, Str(raw));
    }

    /** `handleJsonInput(event)` with the text area's text. */
    method HandleJsonInput(text: string)
      modifies this
      ensures State() == JsonInput(codec, old(State()), text)
    {
      jsonStr := text;
      var parsed := codec.parse(text);
      if parsed.Ok? {
        jsonError := "";
        formData := RecordOf(parsed.value);
        Emit();
      } else {
        jsonError := parsed.error;
      }
    }

    /** `updateFocusParam(key, value)`: `ensureFocusRecord()`, one entry set, one emit. */
    method UpdateFocusParam(key: string, value: string)
      modifies this
      ensures State() == Emitted(codec, old(State()), UpdateFocusIn(old(formData), key, value))
    {
      var focus := Get(formData, FOCUS);
      if focus.Some? && focus.value.Obj? {
        formData := formData[FOCUS := Obj(focus.value.fields[key := Str(value)])];
      } else if !(focus.Some? && focus.value.Arr?) {
        formData := formData[FOCUS := Obj(map[key := Str(value)])];
      }
      Emit();
    }

    /** `addFocusParam(type)`: the entry starts as ''. */
    method AddFocusParam(eventType: string)
      modifies this
      ensures State() == Emitted(codec, old(State()), UpdateFocusIn(old(formData), eventType, ""))
    {
      UpdateFocusParam(eventType, "");
    }

    /** `removeFocusParam(key)`: nothing at all, not even an emit, without a truthy `focus`. */
    method RemoveFocusParam(key: string)
      modifies this
      ensures RemoveFocusActs(old(formData)) ==> State() == Emitted(codec, old(State()), RemoveFocusIn(old(formData), key))
      ensures !RemoveFocusActs(old(formData)) ==> State() == old(State())
    {
      if FOCUS in formData && JsTruthy(formData[FOCUS]) {
        var f := formData[FOCUS];
        if f.Obj? {
          f := Obj(f.fields - {key});
        }
        if OwnKeyCount(f) == 0 {
          formData := formData - {FOCUS};
        } else {
          formData := formData[FOCUS := f];
        }
        Emit();
      }
    }
  }
}
