/** The node-form editing rules of the JavaScript edition
    (src/utils/nodeLogic.js, `useNodeForm`). The rules it shares with the
    TypeScript edition are the functions of NodeForm, applied to this file's
    table of defaults; the getters of JSON and target text and
    `updateFocusParam` behave differently and are defined here. */
module NodeFormLegacy {
  import opened Json
  import opened NodeForm

  /** This edition's defaults: it has `interrupt` and `is_sub`, and no `anchor`. */
  const LEGACY_DEFAULTS: Record := map[
    "recognition" := Str("DirectHit"), "action" := Str("DoNothing"), "next" := Arr([]), "interrupt" := Arr([]),
    "on_error" := Arr([]), "is_sub" := Bool(false), "rate_limit" := Num("1000"), "timeout" := Num("20000"),
    "inverse" := Bool(false), "enabled" := Bool(true), "pre_delay" := Num("200"), "post_delay" := Num("200"),
    "pre_wait_freezes" := Num("0"), "post_wait_freezes" := Num("0"), "roi" := ZERO_BOX, "roi_offset" := ZERO_BOX,
    "index" := Num("0"), "order_by" := Str("Horizontal"), "threshold" := Num("0.7"), "method" := Num("5"),
    "count" := Num("4"), "detector" := Str("SIFT"), "ratio" := Num("0.6"), "connected" := Bool(false),
    "only_rec" := Bool(false), "green_mask" := Bool(false), "target" := Bool(true), "duration" := Num("200"),
    "contact" := Num("0")
  ]

  lemma LegacyDefaultsTarget()
    ensures TARGET in LEGACY_DEFAULTS && LEGACY_DEFAULTS[TARGET] == Bool(true)
  {
  }

  /** Reading back a value just set gives that value, for every value but
      `''` and `null`. */
  lemma LegacySetThenGet(d: Record, key: string, v: Value)
    requires v != Null && v != Str("")
    ensures GetValue(LEGACY_DEFAULTS, SetValueIn(LEGACY_DEFAULTS, d, key, v), key, None) == Some(v)
  {
    LegacyDefaultsTarget();
    SetThenGet(LEGACY_DEFAULTS, d, key, v);
  }

  /** The two tables disagree on `anchor` and `is_sub`: `false` is dropped
      by one edition and stored by the other. */
  lemma DefaultsDiffer(d: Record)
    ensures "anchor" !in SetValueIn(DEFAULTS, d, "anchor", Bool(false))
    ensures SetValueIn(LEGACY_DEFAULTS, d, "anchor", Bool(false))["anchor"] == Bool(false)
    ensures "is_sub" !in SetValueIn(LEGACY_DEFAULTS, d, "is_sub", Bool(false))
    ensures SetValueIn(DEFAULTS, d, "is_sub", Bool(false))["is_sub"] == Bool(false)
  {
    assert "anchor" !in LEGACY_DEFAULTS;
    assert "is_sub" !in DEFAULTS;
    assert LEGACY_DEFAULTS["is_sub"] == Bool(false);
    assert DEFAULTS["anchor"] == Bool(false);
  }

  /** What this edition's JSON field holds for a value: objects and lists
      as JSON text, `null` as '', any other scalar as it is. */
  function LegacyJsonShown(codec: JsonCodec, v: Value): Value {
    if v == Null then Str("") else if v.Arr? || v.Obj? then Str(codec.stringify(v)) else v
  }

  /** `getJsonValue(key)`: as in the other edition, except that a scalar is
      handed back as it is rather than as its text. */
  function LegacyGetJsonValue(codec: JsonCodec, d: Record, key: string): (r: Value)
    ensures key in d ==> r == LegacyJsonShown(codec, d[key])
    ensures key !in d && key in LEGACY_DEFAULTS ==> r == LegacyJsonShown(codec, LEGACY_DEFAULTS[key])
    ensures key !in d && key !in LEGACY_DEFAULTS ==> r == Str("")
  {
    match GetValue(LEGACY_DEFAULTS, d, key, Some(Null))
    case None => Str("")
    case Some(v) => LegacyJsonShown(codec, v)
  }

  /** Typing a plain (non-bracketed) text into a JSON field gives back that
      text, or the number when it is one. */
  lemma LegacyJsonTextRoundTrip(codec: JsonCodec, d: Record, key: string, raw: string)
    requires JsTrim(raw) != "" && !StartsWith(raw, "[") && !StartsWith(raw, "{")
    ensures LegacyGetJsonValue(codec, SetValueIn(LEGACY_DEFAULTS, d, key, JsonInputValue(codec, raw)), key) ==
      (if codec.number(raw) == NAN_TEXT then Str(raw) else Num(codec.number(raw)))
  {
    var v := JsonInputValue(codec, raw);
    assert JsTrim("") == TrimEnd(TrimStart("", IsJsSpace), IsJsSpace) == "";
    assert raw != "";
    LegacySetThenGet(d, key, v);
  }

  /** `getTargetValue(key)`: '' for `true` or nothing, JSON text for a list,
      any other value as it is (a falsy one too). */
  function LegacyGetTargetValue(codec: JsonCodec, d: Record, key: string): (r: Value)
    ensures (key !in d || d[key] == Bool(true)) ==> r == Str("")
    ensures key in d && d[key].Arr? ==> r == Str(codec.stringify(d[key]))
    ensures key in d && d[key] != Bool(true) && !d[key].Arr? ==> r == d[key]
  {
    match Get(d, key)
    case None => Str("")
    case Some(v) =>
      if v == Bool(true) then Str("")
      else if v.Arr? then Str(codec.stringify(v))
      else v
  }

  /** What the target field shows after typing into it; a stored falsy
      value, which the other edition shows as '', is shown as it is. */
  lemma LegacyTargetRoundTrip(codec: JsonCodec, d: Record, raw: string)
    ensures var d1 := SetValueIn(LEGACY_DEFAULTS, d, TARGET, TargetInputValue(codec, raw));
      var shown := LegacyGetTargetValue(codec, d1, TARGET);
      (TargetIsDefault(raw) ==> TARGET !in d1 && shown == Str("")) &&
      (!TargetIsDefault(raw) && codec.parse(raw).Ok? && codec.parse(raw).value.Arr? ==>
        shown == Str(codec.stringify(codec.parse(raw).value))) &&
      (!TargetIsDefault(raw) && !(codec.parse(raw).Ok? && codec.parse(raw).value.Arr?) ==> shown == Str(raw))
  {
    if !TargetIsDefault(raw) {
      assert raw != "";
    }
  }

  lemma TargetShowsFalsy(codec: JsonCodec, d: Record)
    requires TARGET in d && d[TARGET] == Bool(false)
    ensures LegacyGetTargetValue(codec, d, TARGET) == Bool(false)
    ensures GetTargetValue(codec, d, TARGET) == Str("")
  {
  }

  /** The JavaScript type name `typeof` gives a scalar. */
  function TypeName(v: Value): string {
    match v
    case Bool(_) => "boolean"
    case Num(_) => "number"
    case Str(_) => "string"
    case _ => "object"
  }

  /** Strict-mode assignment of a property to a truthy scalar `focus` throws. */
  predicate FocusRefuses(d: Record) {
    FOCUS in d && JsTruthy(d[FOCUS]) && !d[FOCUS].Obj? && !d[FOCUS].Arr?
  }

  /** `updateFocusParam(key, value)`: only a missing or falsy `focus` is
      replaced by a new object; assigning into a truthy scalar throws. */
  function LegacyUpdateFocusIn(d: Record, key: string, value: string): (r: Result<Record>)
    ensures r.Err? <==> FocusRefuses(d)
    ensures r.Ok? ==> r.value == UpdateFocusIn(d, key, value)
  {
    if FocusRefuses(d) then
      Err("Cannot create property '" + key + "' on " + TypeName(d[FOCUS]) + " '" + JsString(d[FOCUS]) + "'")
    else
      match Get(d, FOCUS)
      case Some(Obj(m)) => Ok(d[FOCUS := Obj(m[key := Str(value)])])
      case Some(Arr(_)) => Ok(d)
      case _ => Ok(d[FOCUS := Obj(map[key := Str(value)])])
  }

  /** Updating a focus entry puts it in the focus map (when the map is an
      object afterwards) and takes it out of the menu: both editions agree
      unless this one throws. */
  lemma LegacyUpdateFocusHides(d: Record, key: string, value: string)
    requires !(FOCUS in d && d[FOCUS].Arr?)
    ensures match LegacyUpdateFocusIn(d, key, value)
      case Ok(d1) => key in FocusKeys(d1) && d1[FOCUS].fields[key] == Str(value) &&
        forall u :: u in AvailableFocusEvents(d1) <==> u in AvailableFocusEvents(d) && u != key
      case Err(_) => FocusRefuses(d)
  {
    if !FocusRefuses(d) {
      assert FocusKeys(UpdateFocusIn(d, key, value)) == FocusKeys(d) + {key};
    }
  }

  /** `useNodeForm(props, emit)`. */
  class LegacyNodeForm {
    const codec: JsonCodec
    var formData: Record
    var jsonStr: string
    var jsonError: string
    var emitted: seq<Record>

    function State(): FormState
      reads this
    {
      FormState(formData, jsonStr, jsonError, emitted)
    }

    /** The `visible` watcher: a deep copy of the node's data (`{}` when it
        has none), its JSON text and no error. */
    constructor(codec: JsonCodec, data: Option<Record>)
      ensures this.codec == codec && emitted == [] && jsonError == ""
      ensures formData == (if data.Some? then data.value else map[])
      ensures jsonStr == codec.pretty(Obj(formData))
    {
      this.codec := codec;
      formData := if data.Some? then data.value else map[];
      jsonStr := codec.pretty(Obj(if data.Some? then data.value else map[]));
      jsonError := "";
      emitted := [];
    }

    /** The data watcher while the form is open: the new data, its text and
        no error (`updateJsonFromForm` clears it). */
    method Refresh(data: Record)
      modifies this
      ensures State() == old(State()).(formData := data, jsonStr := codec.pretty(Obj(data)), jsonError := "")
    {
      formData := data;
      jsonStr := codec.pretty(Obj(data));
      jsonError := "";
    }

    /** `emitUpdateData()`. */
    method Emit()
      modifies this
      ensures State() == Emitted(codec, old(State()), old(formData))
    {
      jsonStr := codec.pretty(Obj(formData));
      jsonError := "";
      emitted := emitted + [formData];
    }

    /** `setValue(key, value)` against this edition's defaults. */
    method SetValue(key: string, value: Value)
      modifies this
      ensures State() == Emitted(codec, old(State()), SetValueIn(LEGACY_DEFAULTS, old(formData), key, value))
    {
      if key == TARGET && value == Bool(true) {
        formData := formData - {key};
      } else if (key in LEGACY_DEFAULTS && StrictEq(value, LEGACY_DEFAULTS[key])) || value == Str("") || value == Null {
        formData := formData - {key};
      } else {
        formData := formData[key := value];
      }
      Emit();
    }

    /** `setArrayValue(key, value)`. */
    method SetArrayValue(key: string, value: string)
      modifies this
      ensures State() == Emitted(codec, old(State()), SetArrayValueIn(old(formData), key, value))
    {
      if JsTrim(value) == "" {
        formData := formData - {key};
      } else {
        formData := formData[key := Arr(Strs(ArrayParts(value)))];
      }
      Emit();
    }

    /** `setJsonValue(key, rawVal)`. */
    method SetJsonValue(key: string, raw: string)
      modifies this
      ensures State() == Emitted(codec, old(State()),
        SetValueIn(LEGACY_DEFAULTS, old(formData), key, JsonInputValue(codec, raw)))
    {
      if JsTrim(raw) == "" {
        SetValue(key, Null);
        return;
      }
      if StartsWith(raw, "[") || StartsWith(raw, "{") {
        var parsed := codec.parse(raw);
        if parsed.Ok? {
          SetValue(key, parsed.value);
        } else {
          SetValue(key, Str(raw));
        }
      } else {
        var num := codec.number(raw);
        SetValue(key, if num == NAN_TEXT then Str(raw) else Num(num));
      }
    }

    /** `setTargetValue(key, rawVal)`. */
    method SetTargetValue(key: string, raw: string)
      modifies this
      ensures State() == Emitted(codec, old(State()),
        SetValueIn(LEGACY_DEFAULTS, old(formData), key, TargetInputValue(codec, raw)))
    {
      if raw == "" || AsciiLower(raw) == "true" {
        SetValue(key, Bool(true));
        return;
      }
      var parsed := codec.parse(raw);
      if parsed.Ok? && parsed.value.Arr? {
        SetValue(key, parsed.value);
        return;
      }
      SetValue(key, Str(raw));
    }

    /** `handleJsonInput(event)` with the text area's text. */
    method HandleJsonInput(text: string)
      modifies this
      ensures State() == JsonInput(codec, old(State()), text)
    {
      jsonStr := text;
      var parsed := codec.parse(text);
      if parsed.Ok? {
        jsonError := "";
        formData := RecordOf(parsed.value);
        Emit();
      } else {
        jsonError := parsed.error;
      }
    }

    /** `addFocusParam(type)`: a missing, falsy or scalar `focus` becomes a new object. */
    method AddFocusParam(eventType: string)
      modifies this
      ensures State() == Emitted(codec, old(State()), UpdateFocusIn(old(formData), eventType, ""))
    {
      var focus := Get(formData, FOCUS);
      if focus.Some? && focus.value.Obj? {
        formData := formData[FOCUS := Obj(focus.value.fields[eventType := Str("")])];
      } else if !(focus.Some? && focus.value.Arr?) {
        formData := formData[FOCUS := Obj(map[eventType := Str("")])];
      }
      Emit();
    }

    /** `removeFocusParam(key)`. */
    method RemoveFocusParam(key: string)
      modifies this
      ensures RemoveFocusActs(old(formData)) ==> State() == Emitted(codec, old(State()), RemoveFocusIn(old(formData), key))
      ensures !RemoveFocusActs(old(formData)) ==> State() == old(State())
    {
      if FOCUS in formData && JsTruthy(formData[FOCUS]) {
        var f := formData[FOCUS];
        if f.Obj? {
          f := Obj(f.fields - {key});
        }
        if OwnKeyCount(f) == 0 {
          formData := formData - {FOCUS};
        } else {
          formData := formData[FOCUS := f];
        }
        Emit();
      }
    }

    /** `updateFocusParam(key, value)`: the thrown error leaves the form as it
        was and emits nothing. */
    method UpdateFocusParam(key: string, value: string) returns (r: Result<bool>)
      modifies this
      ensures match LegacyUpdateFocusIn(old(formData), key, value)
        case Ok(d) => r.Ok? && State() == Emitted(codec, old(State()), d)
        case Err(msg) => r == Err(msg) && State() == old(State())
    {
      var focus := Get(formData, FOCUS);
      if !(focus.Some? && JsTruthy(focus.value)) {
        formData := formData[FOCUS := Obj(map[key := Str(value)])];
      } else if focus.value.Obj? {
        formData := formData[FOCUS := Obj(focus.value.fields[key := Str(value)])];
      } else if !focus.value.Arr? {
        var f := focus.value;
        return Err("Cannot create property '" + key + "' on " + TypeName(f) + " '" + JsString(f) + "'");
      }
      Emit();
      return Ok(true);
    }
  }
}
