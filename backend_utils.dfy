/** Shared helpers of the Python back end (backend/common/utils.py): turning a
    node record into its `{id: rest}` form, the JSON response payload, the
    server-sent-event frame, and filling a loaded configuration with defaults. */
module BackendUtils {
  import opened Json

  // ---------------------------------------------------------------------------
  // convert_node

  /** `convert_node`: `{}` for an empty record or one without `id`; otherwise
      a copy keyed by its id, holding every other field. Using a list or dict
      as the id raises `TypeError`. */
  function ConvertNode(node: Record): (r: Result<map<Value, Record>>)
    ensures "id" !in node ==> r == Ok(map[])
    ensures "id" in node && !Hashable(node["id"]) ==> r.Err?
    ensures "id" in node && Hashable(node["id"]) ==>
      r.Ok? && r.value.Keys == {node["id"]} &&
      r.value[node["id"]].Keys == node.Keys - {"id"} &&
      forall k :: k in node && k != "id" ==> r.value[node["id"]][k] == node[k]
  {
    if |node| == 0 || "id" !in node then Ok(map[])
    else if !Hashable(node["id"]) then Err("TypeError: unhashable type")
    else Ok(map[node["id"] := node - {"id"}])
  }

  /** Puts the id back into the record it was taken from. */
  function RestoreNode(id: Value, rest: Record): Record {
    rest["id" := id]
  }

  /** `convert_node` loses nothing: the record comes back from its single entry. */
  lemma ConvertNodeRoundTrip(node: Record)
    requires "id" in node && Hashable(node["id"])
    ensures var r := ConvertNode(node).value;
      exists id :: id in r && RestoreNode(id, r[id]) == node
  {
    var r := ConvertNode(node).value;
    var id := node["id"];
    assert id in r;
    assert RestoreNode(id, r[id]) == node;
  }

  // ---------------------------------------------------------------------------
  // json_response

  /** The payload of `json_response(ok, message, data)`: `success` and `message`
      first, then every key of `data`, which may override them. */
  function JsonResponsePayload(ok: bool, message: string, data: Option<Record>): (r: Record)
    ensures data.None? ==> r.Keys == {"success", "message"}
    ensures data.Some? ==> r.Keys == {"success", "message"} + data.value.Keys
    ensures data.Some? ==> forall k :: k in data.value ==> r[k] == data.value[k]
    ensures data.None? || "success" !in data.value ==> r["success"] == Bool(ok)
    ensures data.None? || "message" !in data.value ==> r["message"] == Str(message)
  {
    var payload := map["success" := Bool(ok), "message" := Str(message)];
    if data.Some? then payload + data.value else payload
  }

  // ---------------------------------------------------------------------------
  // sse_format

  const SSE_PREFIX := "data: "
  const SSE_END := "\n\n"

  /** `sse_format`: one server-sent event carrying the encoded data. */
  function SseFormat(encoded: string): string {
    SSE_PREFIX + encoded + SSE_END
  }

  /** Reads the payload back out of a frame. */
  function ParseSse(frame: string): (r: Option<string>)
    ensures r.Some? ==> |r.value| + |SSE_PREFIX| + |SSE_END| == |frame|
  {
    if |frame| >= |SSE_PREFIX| + |SSE_END| && StartsWith(frame, SSE_PREFIX) && EndsWith(frame, SSE_END)
    then Some(frame[|SSE_PREFIX|..|frame| - |SSE_END|])
    else None
  }

  lemma SseRoundTrip(encoded: string)
    ensures ParseSse(SseFormat(encoded)) == Some(encoded)
  {
    var f := SseFormat(encoded);
    assert f[..|SSE_PREFIX|] == SSE_PREFIX;
    assert f[|f| - |SSE_END|..] == SSE_END;
    assert f[|SSE_PREFIX|..|f| - |SSE_END|] == encoded;
  }

  /** `json.dumps` without indentation never emits a raw newline, so the blank
      line that ends the frame is the first one in it: the frame is one event. */
  lemma SseSingleEvent(encoded: string, i: nat)
    requires '\n' !in encoded
    requires i + 1 < |SseFormat(encoded)| && SseFormat(encoded)[i] == '\n' && SseFormat(encoded)[i + 1] == '\n'
    ensures i == |SseFormat(encoded)| - 2
  {
    var f := SseFormat(encoded);
    assert forall k :: |SSE_PREFIX| <= k < |SSE_PREFIX| + |encoded| ==> f[k] == encoded[k - |SSE_PREFIX|];
    assert forall k :: 0 <= k < |SSE_PREFIX| ==> f[k] == SSE_PREFIX[k];
  }

  // ---------------------------------------------------------------------------
  // load_config

  const DEFAULT_KEYS: seq<string> := ["devices", "resource_profiles", "current_state"]

  const DEFAULT_FIELDS: Record := map[
    "devices" := Arr([]),
    "resource_profiles" := Arr([Obj(map["name" := Str("Default Profile"), "paths" := Arr([])])]),
    "current_state" := Obj(map["device_index" := Num("0"), "resource_profile_index" := Num("0")])
  ]

  const DEFAULT_CONFIG: Value := Obj(DEFAULT_FIELDS)

  /** What `load_config` finds on disk: no file, a file that cannot be read or
      parsed, or the parsed JSON value. */
  datatype ConfigFile = Missing | Unreadable | Parsed(value: Value)

  /** Python `k in cfg` for a string `k`: key of a dict, element of a list,
      substring of a string. Other types raise `TypeError`. */
  function PyIn(k: string, cfg: Value): Option<bool> {
    match cfg
    case Obj(f) => Some(k in f)
    case Arr(items) => Some(Str(k) in items)
    case Str(s) => Some(Contains(s, k))
    case _ => None
  }

  /** The `for k, v in DEFAULT_CONFIG.items()` loop of `load_config`. Every
      default key a dict lacks is added; a value that is not a dict survives
      only when every default key is `in` it (as a list element or substring),
      because otherwise `in` or the item assignment raises and the defaults
      are returned instead. */
  method FillDefaults(loaded: Value) returns (cfg: Value)
    ensures loaded.Obj? ==>
      cfg.Obj? && cfg.fields.Keys == loaded.fields.Keys + DEFAULT_FIELDS.Keys &&
      (forall k :: k in loaded.fields ==> cfg.fields[k] == loaded.fields[k]) &&
      (forall k :: k in DEFAULT_FIELDS && k !in loaded.fields ==> cfg.fields[k] == DEFAULT_FIELDS[k])
    ensures !loaded.Obj? ==>
      cfg == (if forall k :: 0 <= k < |DEFAULT_KEYS| ==> PyIn(DEFAULT_KEYS[k], loaded) == Some(true)
              then loaded else DEFAULT_CONFIG)
  {
    cfg := loaded;
    var i := 0;
    while i < |DEFAULT_KEYS|
      invariant 0 <= i <= |DEFAULT_KEYS|
      invariant loaded.Obj? ==>
        cfg.Obj? && cfg.fields.Keys == loaded.fields.Keys + (set j | 0 <= j < i :: DEFAULT_KEYS[j]) &&
        (forall k :: k in loaded.fields ==> cfg.fields[k] == loaded.fields[k]) &&
        (forall k :: k in cfg.fields && k !in loaded.fields ==> k in DEFAULT_FIELDS && cfg.fields[k] == DEFAULT_FIELDS[k])
      invariant !loaded.Obj? ==>
        cfg == loaded && forall j :: 0 <= j < i ==> PyIn(DEFAULT_KEYS[j], loaded) == Some(true)
    {
      var k := DEFAULT_KEYS[i];
      var present := PyIn(k, cfg);
      if present.None? {
        return DEFAULT_CONFIG;       // TypeError from `in`
      }
      if !present.value {
        if !cfg.Obj? {
          return DEFAULT_CONFIG;     // TypeError from item assignment
        }
        cfg := Obj(cfg.fields[k := DEFAULT_FIELDS[k]]);
      }
      assert (set j | 0 <= j < i + 1 :: DEFAULT_KEYS[j]) == (set j | 0 <= j < i :: DEFAULT_KEYS[j]) + {k};
      i := i + 1;
    }
    DefaultKeysListed();
  }

  lemma DefaultKeysListed()
    ensures (set j | 0 <= j < |DEFAULT_KEYS| :: DEFAULT_KEYS[j]) == DEFAULT_FIELDS.Keys
  {
    var listed := set j | 0 <= j < |DEFAULT_KEYS| :: DEFAULT_KEYS[j];
    assert DEFAULT_KEYS[0] in listed && DEFAULT_KEYS[1] in listed && DEFAULT_KEYS[2] in listed;
    assert DEFAULT_FIELDS.Keys == {"devices", "resource_profiles", "current_state"};
  }

  /** `load_config`: the defaults when there is no readable file, otherwise
      the loaded value (or `{}` when it is falsy) filled with the default keys. */
  method LoadConfig(file: ConfigFile) returns (cfg: Value)
    ensures file.Missing? || file.Unreadable? ==> cfg == DEFAULT_CONFIG
    ensures file.Parsed? && !PyTruthy(file.value) ==> cfg == DEFAULT_CONFIG
    ensures file.Parsed? && PyTruthy(file.value) && file.value.Obj? ==>
      cfg.Obj? && cfg.fields.Keys == file.value.fields.Keys + DEFAULT_FIELDS.Keys &&
      (forall k :: k in file.value.fields ==> cfg.fields[k] == file.value.fields[k]) &&
      (forall k :: k in DEFAULT_FIELDS && k !in file.value.fields ==> cfg.fields[k] == DEFAULT_FIELDS[k])
    ensures file.Parsed? && PyTruthy(file.value) && !file.value.Obj? ==>
      cfg == (if forall k :: 0 <= k < |DEFAULT_KEYS| ==> PyIn(DEFAULT_KEYS[k], file.value) == Some(true)
              then file.value else DEFAULT_CONFIG)
  {
    if !file.Parsed? {
      return DEFAULT_CONFIG;
    }
    var loaded := if PyTruthy(file.value) then file.value else Obj(map[]);
    cfg := FillDefaults(loaded);
    if !PyTruthy(file.value) {
      assert cfg.fields == DEFAULT_FIELDS;
    }
  }
}
