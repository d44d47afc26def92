/** The graph ⇄ document synchronisation of the editor
    (src/utils/useFlowGraph.ts), as functions of the graph state.

    The document record of a node (`meta.data`) holds its links in the
    fields `next`, `on_error` and `timeout_next`; the graph holds one edge per
    link. Each operation of the editor is a function from the old graph to the
    new one here; the class in flow_graph.dfy performs them step by step and
    is proved to produce exactly these results. */
module GraphSync {
  import opened Json
  import opened FlowTypes
  import opened LinkCodec
  import Layout
  import opened GraphImages

  const NEXT := "next"
  const ON_ERROR := "on_error"
  const TIMEOUT_NEXT := "timeout_next"
  const SOURCE_A := "source-a"
  const SOURCE_C := "source-c"
  const IN := "in"
  const UNKNOWN := "Unknown"
  const ANCHOR_TYPE := "Anchor"
  const DIRECT_HIT := "DirectHit"

  datatype Graph = Graph(nodes: seq<Node>, edges: seq<Edge>)

  // ---------------------------------------------------------------------------
  // Ports and connections

  /** An entry of `PORT_MAPPING`: the link field a source handle writes. */
  datatype Port = Port(field: string, isArray: bool)

  /** `PORT_MAPPING[handle]`: `source-a` writes the `next` list, `source-c`
      the `on_error` list; no other handle writes a field. */
  function PortOf(handle: string): (p: Option<Port>)
    ensures p.Some? <==> handle == SOURCE_A || handle == SOURCE_C
    ensures p.Some? ==> p.value.isArray && (p.value.field == NEXT <==> handle == SOURCE_A)
    ensures p.Some? ==> p.value.field == NEXT || p.value.field == ON_ERROR
  {
    if handle == SOURCE_A then Some(Port(NEXT, true))
    else if handle == SOURCE_C then Some(Port(ON_ERROR, true))
    else None
  }

  /** A vue-flow connection; a `null` handle is the empty string. */
  datatype Connection = Connection(source: string, target: string, sourceHandle: string, targetHandle: string)

  /** `onValidateConnection`. */
  function OnValidateConnection(c: Connection): (ok: bool)
    ensures c.source == c.target ==> !ok
    ensures c.sourceHandle == IN ==> !ok
    ensures c.source != c.target && c.sourceHandle != IN ==> (ok <==> c.targetHandle == IN)
  {
    if c.source == c.target then false
    else if c.sourceHandle == IN then false
    else c.targetHandle == IN
  }

  /** `isAnchorNode`: an `Anchor`-typed node, or one whose record has a truthy `anchor`. */
  predicate IsAnchorNode(n: Option<Node>) {
    n.Some? && (n.value.meta.kind == Str(ANCHOR_TYPE) || (Get(n.value.meta.data, "anchor").Some? && JsTruthy(n.value.meta.data["anchor"])))
  }

  // ---------------------------------------------------------------------------
  // Node creation

  /** The `type` a new node shows: `Unknown` for a placeholder, else the
      record's truthy `recognition`, else `DirectHit`. */
  function LogicType(raw: Record, isMissing: bool): Value {
    if isMissing then Str(UNKNOWN)
    else if "recognition" in raw && JsTruthy(raw["recognition"]) then raw["recognition"]
    else Str(DIRECT_HIT)
  }

  /** `createNodeObject(id, rawContent, isMissing)`. */
  function CreateNodeObject(id: string, raw: Record, isMissing: bool): (n: Node)
    ensures n.id == id && n.meta.id == id && n.meta.isMissing == isMissing
    ensures n.position == Point(0.0, 0.0)
    ensures n.meta.images == [] && n.meta.delImages == [] && n.meta.tempImages == []
    ensures "interrupt" !in n.meta.data && "id" in n.meta.data && n.meta.data["id"] == Str(id)
    ensures isMissing ==> n.meta.kind == Str(UNKNOWN)
    ensures !isMissing ==>
      n.meta.kind == (if "recognition" in raw && JsTruthy(raw["recognition"]) then raw["recognition"] else Str(DIRECT_HIT))
    ensures n.meta.kind == Str(UNKNOWN) ==>
      n.meta.data.Keys <= {"id", "anchor"} &&
      ("anchor" in n.meta.data <==> "anchor" in raw && JsTruthy(raw["anchor"]))
    ensures n.meta.kind != Str(UNKNOWN) ==>
      "recognition" in n.meta.data && n.meta.data["recognition"] == n.meta.kind &&
      forall k :: k in raw && k != "interrupt" && k != "id" && k != "recognition" ==>
        k in n.meta.data && n.meta.data[k] == raw[k]
  {
    var clean := raw - {"interrupt"};
    var kind := LogicType(clean, isMissing);
    var data :=
      if kind == Str(UNKNOWN) then
        map["id" := Str(id)] + (if "anchor" in clean && JsTruthy(clean["anchor"]) then map["anchor" := clean["anchor"]] else map[])
      else clean["id" := Str(id)]["recognition" := kind];
    Node(id, Point(0.0, 0.0), Meta(id, kind, data, isMissing, [], [], []))
  }

  // ---------------------------------------------------------------------------
  // Link lists

  /** The target a link value names: its stripped text, or "" for a non-string. */
  function Target(v: Value): string {
    if v.Str? then StripPrefix(v.s) else ""
  }

  /** `typeof id === 'string' && stripPrefix(id) === targetId`. */
  predicate Matches(v: Value, t: string) {
    v.Str? && StripPrefix(v.s) == t
  }

  /** The `findIndex` of `updateNodeDataConnection`: the first entry naming `t`. */
  function FirstMatch(items: seq<Value>, t: string): (r: Option<nat>)
    ensures r.Some? ==> r.value < |items| && Matches(items[r.value], t)
    ensures r.Some? ==> forall k :: 0 <= k < r.value ==> !Matches(items[k], t)
    ensures r.None? ==> forall k :: 0 <= k < |items| ==> !Matches(items[k], t)
    decreases |items|
  {
    if items == [] then None
    else if Matches(items[0], t) then Some(0)
    else match FirstMatch(items[1..], t)
      case None => None
      case Some(i) => Some(i + 1)
  }

  /** The field as a list: `Array.isArray(data[field]) ? data[field] : []`. */
  function FieldList(data: Record, field: string): seq<Value> {
    if field in data && data[field].Arr? then data[field].items else []
  }

  /** The list branch of `updateNodeDataConnection`: an add overwrites the
      first entry naming the target, or appends; a remove splices that entry. */
  function UpdateList(items: seq<Value>, t: string, stored: string, isAdd: bool): seq<Value> {
    match FirstMatch(items, t)
    case None => if isAdd then items + [Str(stored)] else items
    case Some(k) => if isAdd then items[k := Str(stored)] else items[..k] + items[k + 1..]
  }

  /** `updateNodeDataConnection` on one record. */
  function UpdateField(data: Record, field: string, t: string, isArray: bool, isAdd: bool,
                       isJumpBack: bool, isAnchor: bool): Record
  {
    var stored := BuildLinkId(t, isAnchor, isJumpBack);
    if isArray then data[field := Arr(UpdateList(FieldList(data, field), t, stored, isAdd))]
    else if isAdd then data[field := Str(stored)]
    else if field in data && Matches(data[field], t) then data - {field}
    else data
  }

  function WithData(n: Node, data: Record): Node {
    n.(meta := n.meta.(data := data))
  }

  /** `updateNodeDataConnection(findNode(src), ...)`: nothing when no node has that id. */
  function UpdateConnection(nodes: seq<Node>, src: string, field: string, t: string, isArray: bool,
                            isAdd: bool, isJumpBack: bool, isAnchor: bool): seq<Node>
  {
    match FindIndex(nodes, src)
    case None => nodes
    case Some(i) => nodes[i := WithData(nodes[i], UpdateField(nodes[i].meta.data, field, t, isArray, isAdd, isJumpBack, isAnchor))]
  }

  // ---------------------------------------------------------------------------
  // Edges

  /** The first edge with that source, target and source handle. */
  function FindEdge(edges: seq<Edge>, s: string, t: string, h: string): (r: Option<nat>)
    ensures r.Some? ==> r.value < |edges| && edges[r.value].source == s && edges[r.value].target == t && edges[r.value].sourceHandle == h
    ensures r.None? ==> forall k :: 0 <= k < |edges| ==> !(edges[k].source == s && edges[k].target == t && edges[k].sourceHandle == h)
    decreases |edges|
  {
    if edges == [] then None
    else if edges[0].source == s && edges[0].target == t && edges[0].sourceHandle == h then Some(0)
    else match FindEdge(edges[1..], s, t, h)
      case None => None
      case Some(i) => Some(i + 1)
  }

  /** The first edge with that id. */
  function FindEdgeById(edges: seq<Edge>, id: string): (r: Option<nat>)
    ensures r.Some? ==> r.value < |edges| && edges[r.value].id == id
    ensures r.Some? ==> forall k :: 0 <= k < r.value ==> edges[k].id != id
    ensures r.None? ==> forall k :: 0 <= k < |edges| ==> edges[k].id != id
    decreases |edges|
  {
    if edges == [] then None
    else if edges[0].id == id then Some(0)
    else match FindEdgeById(edges[1..], id)
      case None => None
      case Some(i) => Some(i + 1)
  }

  /** vue-flow `removeEdges([id])`: every edge with that id goes, the others keep their order. */
  function RemoveEdges(edges: seq<Edge>, id: string): (r: seq<Edge>)
    ensures |r| <= |edges|
    decreases |edges|
  {
    if edges == [] then []
    else if edges[0].id == id then RemoveEdges(edges[1..], id)
    else [edges[0]] + RemoveEdges(edges[1..], id)
  }

  /** The edge `handleConnect` adds: the connection, labelled with the field its port writes. */
  function NewEdge(c: Connection, id: string): Edge {
    var port := PortOf(c.sourceHandle);
    Edge(id, c.source, c.target, c.sourceHandle, c.targetHandle, if port.Some? then port.value.field else "", false)
  }

  /** `handleConnect(params)`: a connection that already has an edge is
      toggled off (edge and field entry removed), otherwise on (edge appended,
      entry added with the target's anchor marker). */
  function Connect(g: Graph, c: Connection, newEdgeId: string): Graph {
    var port := PortOf(c.sourceHandle);
    var anchor := IsAnchorNode(FindNode(g.nodes, c.target));
    match FindEdge(g.edges, c.source, c.target, c.sourceHandle)
    case Some(k) =>
      Graph(
        if port.Some? then UpdateConnection(g.nodes, c.source, port.value.field, c.target, port.value.isArray, false, false, anchor) else g.nodes,
        RemoveEdges(g.edges, g.edges[k].id))
    case None =>
      Graph(
        if port.Some? then UpdateConnection(g.nodes, c.source, port.value.field, c.target, port.value.isArray, true, false, anchor) else g.nodes,
        g.edges + [NewEdge(c, newEdgeId)])
  }

  /** A vue-flow edge change; only a removal matters here. */
  datatype EdgeChange = RemoveChange(id: string) | OtherChange

  /** One change of `handleEdgesChange`: a removed edge's entry leaves its source's field. */
  function ApplyEdgeChange(nodes: seq<Node>, edges: seq<Edge>, change: EdgeChange): seq<Node> {
    if !change.RemoveChange? then nodes
    else match FindEdgeById(edges, change.id)
      case None => nodes
      case Some(k) =>
        var e := edges[k];
        var port := PortOf(e.sourceHandle);
        if port.None? || FindIndex(nodes, e.source).None? then nodes
        else UpdateConnection(nodes, e.source, port.value.field, e.target, port.value.isArray, false, false,
                              IsAnchorNode(FindNode(nodes, e.target)))
  }

  /** `handleEdgesChange(changes)`: the changes in order, each looking the edge
      up in the edge list as it was before vue-flow removes anything. */
  function EdgesChange(nodes: seq<Node>, edges: seq<Edge>, changes: seq<EdgeChange>): seq<Node>
    decreases |changes|
  {
    if changes == [] then nodes
    else ApplyEdgeChange(EdgesChange(nodes, edges, changes[..|changes| - 1]), edges, changes[|changes| - 1])
  }

  /** The label of an edge: `JumpBack`, else the field of its port, else "". */
  function EdgeLabel(handle: string, isJumpBack: bool): string {
    if isJumpBack then "JumpBack"
    else var port := PortOf(handle); if port.Some? then port.value.field else ""
  }

  /** `setEdgeJumpBack(edgeId, isJumpBack)`: the edge takes the flag and its
      label, and its entry in the source's field is rewritten with the marker. */
  function SetEdgeJumpBack(g: Graph, edgeId: string, isJumpBack: bool): Graph {
    match FindEdgeById(g.edges, edgeId)
    case None => g
    case Some(k) =>
      var e := g.edges[k];
      var port := PortOf(e.sourceHandle);
      var anchor := IsAnchorNode(FindNode(g.nodes, e.target));
      Graph(
        if port.Some? then UpdateConnection(g.nodes, e.source, port.value.field, e.target, port.value.isArray, true, isJumpBack, anchor) else g.nodes,
        g.edges[k := e.(jumpBack := isJumpBack, edgeLabel := EdgeLabel(e.sourceHandle, isJumpBack))])
  }

  // ---------------------------------------------------------------------------
  // Rename

  /** The first position of `pat` in `s`. */
  function IndexOf(s: string, pat: string): (r: Option<nat>)
    ensures r.Some? ==> r.value + |pat| <= |s| && s[r.value..r.value + |pat|] == pat
    ensures r.Some? ==> forall k :: 0 <= k < r.value ==> !StartsWith(s[k..], pat)
    ensures r.None? ==> forall k :: 0 <= k <= |s| ==> !StartsWith(s[k..], pat)
    decreases |s|
  {
    if StartsWith(s, pat) then Some(0)
    else if s == [] then None
    else match IndexOf(s[1..], pat)
      case None =>
        assert forall k :: 1 <= k <= |s| ==> s[k..] == s[1..][k - 1..];
        None
      case Some(i) =>
        assert forall k :: 1 <= k <= i ==> s[k..] == s[1..][k - 1..];
        assert s[1..][i..i + |pat|] == s[i + 1..i + 1 + |pat|];
        Some(i + 1)
  }

  /** JavaScript `s.replace(pat, rep)` with a string pattern: the first
      occurrence only; an empty pattern matches at the start. */
  function ReplaceFirst(s: string, pat: string, rep: string): string {
    match IndexOf(s, pat)
    case None => s
    case Some(i) => s[..i] + rep + s[i + |pat|..]
  }

  /** The edge map of `handleNodeUpdate`: an edge with an endpoint `oldId`
      takes `newId` there and gets its id's first `oldId` replaced. The
      test is on the truthiness of the new endpoint, so an empty `newId`
      leaves every edge as it was. */
  function RenameEdge(e: Edge, oldId: string, newId: string): Edge {
    var atSource := e.source == oldId;
    var atTarget := e.target == oldId;
    if (atSource || atTarget) && newId != "" then
      e.(source := if atSource then newId else e.source,
         target := if atTarget then newId else e.target,
         id := ReplaceFirst(e.id, oldId, newId))
    else e
  }

  function RenameEdges(edges: seq<Edge>, oldId: string, newId: string): (r: seq<Edge>)
    ensures |r| == |edges|
    ensures forall k :: 0 <= k < |edges| ==> r[k] == RenameEdge(edges[k], oldId, newId)
  {
    seq(|edges|, k requires 0 <= k < |edges| => RenameEdge(edges[k], oldId, newId))
  }

  /** `replaceLinkVal`: a string naming `oldId` (markers aside) names `newId`
      with the same markers; anything else is kept. */
  function ReplaceLinkVal(v: Value, oldId: string, newId: string): Value {
    if !v.Str? then v
    else
      var flags := ParseLinkFlags(v.s);
      if LinkTarget(v.s) != oldId then v
      else Str(BuildLinkId(newId, flags.anchor, flags.jumpBack))
  }

  /** `replaceField`: a list is mapped, a string replaced, anything else kept. */
  function ReplaceField(d: Record, field: string, oldId: string, newId: string): Record {
    if field !in d then d
    else match d[field]
      case Arr(items) =>
        d[field := Arr(seq(|items|, k requires 0 <= k < |items| => ReplaceLinkVal(items[k], oldId, newId)))]
      case Str(_) => d[field := ReplaceLinkVal(d[field], oldId, newId)]
      case _ => d
  }

  function ReplaceLinks(d: Record, oldId: string, newId: string): Record {
    ReplaceField(ReplaceField(ReplaceField(d, NEXT, oldId, newId), ON_ERROR, oldId, newId), TIMEOUT_NEXT, oldId, newId)
  }

  function ReplaceLinksInNode(n: Node, oldId: string, newId: string): Node {
    WithData(n, ReplaceLinks(n.meta.data, oldId, newId))
  }

  /** The renaming part of `handleNodeUpdate` for the node at `i`: its ids,
      the edges, and the link fields of every node. */
  function Rename(g: Graph, i: nat, oldId: string, newId: string): (r: Graph)
    requires i < |g.nodes|
    ensures |r.nodes| == |g.nodes|
  {
    var n := g.nodes[i];
    var renamed := Node(newId, n.position, n.meta.(id := newId, data := n.meta.data["id" := Str(newId)]));
    var nodes := g.nodes[i := renamed];
    Graph(
      seq(|nodes|, k requires 0 <= k < |nodes| => ReplaceLinksInNode(nodes[k], oldId, newId)),
      RenameEdges(g.edges, oldId, newId))
  }

  // ---------------------------------------------------------------------------
  // Normalisation

  /** The ids of the anchor nodes. */
  function AnchorIds(nodes: seq<Node>): set<string> {
    set k | 0 <= k < |nodes| && IsAnchorNode(Some(nodes[k])) :: nodes[k].id
  }

  /** `normalizeItem`: a string is rebuilt from its target with the anchor
      marker when the target is an anchor node or the text had one, and the
      jump-back marker when the text had one. */
  function NormalizeItem(anchorIds: set<string>, v: Value): Value {
    if !v.Str? then v
    else
      var flags := ParseLinkFlags(v.s);
      var t := LinkTarget(v.s);
      Str(BuildLinkId(t, t in anchorIds || flags.anchor, flags.jumpBack))
  }

  function NormalizeItems(anchorIds: set<string>, items: seq<Value>): (r: seq<Value>)
    ensures |r| == |items|
    ensures forall k :: 0 <= k < |items| ==> r[k] == NormalizeItem(anchorIds, items[k])
  {
    seq(|items|, k requires 0 <= k < |items| => NormalizeItem(anchorIds, items[k]))
  }

  /** `.filter(Boolean)`. */
  function Truthy(items: seq<Value>): (r: seq<Value>)
    ensures forall v :: v in r <==> v in items && JsTruthy(v)
    decreases |items|
  {
    if items == [] then []
    else if JsTruthy(items[0]) then [items[0]] + Truthy(items[1..])
    else Truthy(items[1..])
  }

  /** `normalizeField` followed by the delete test: `None` means the field is deleted. */
  function NormalizeValue(anchorIds: set<string>, v: Value): Option<Value> {
    match v
    case Arr(items) =>
      var kept := Truthy(NormalizeItems(anchorIds, items));
      if kept == [] then None else Some(Arr(kept))
    case Str(_) => Some(NormalizeItem(anchorIds, v))
    case Null => None
    case _ => Some(v)
  }

  function NormalizeField(anchorIds: set<string>, d: Record, field: string): Record {
    if field !in d then d
    else match NormalizeValue(anchorIds, d[field])
      case None => d - {field}
      case Some(v) => d[field := v]
  }

  function NormalizeData(anchorIds: set<string>, d: Record): Record {
    NormalizeField(anchorIds, NormalizeField(anchorIds, NormalizeField(anchorIds, d, NEXT), ON_ERROR), TIMEOUT_NEXT)
  }

  function NormalizeNode(anchorIds: set<string>, n: Node): Node {
    WithData(n, NormalizeData(anchorIds, n.meta.data))
  }

  /** `normalizeLinksAcrossNodes`: the anchor ids are taken first, then every
      node's link fields are normalised. */
  function NormalizeNodes(nodes: seq<Node>): (r: seq<Node>)
    ensures |r| == |nodes|
    ensures forall k :: 0 <= k < |nodes| ==> r[k] == NormalizeNode(AnchorIds(nodes), nodes[k])
  {
    var a := AnchorIds(nodes);
    seq(|nodes|, k requires 0 <= k < |nodes| => NormalizeNode(a, nodes[k]))
  }

  // ---------------------------------------------------------------------------
  // Node update

  /** The argument of `handleNodeUpdate`. */
  datatype NodeUpdatePayload = NodeUpdatePayload(oldId: string, newId: string, newType: string, newData: Option<Record>)

  predicate IsAction(p: NodeUpdatePayload) {
    p.newData.Some? && "_action" in p.newData.value && JsTruthy(p.newData.value["_action"])
  }

  /** The type and record a node takes at the end of `handleNodeUpdate`. */
  function Retype(n: Node, newType: string, newData: Option<Record>): Node {
    var data :=
      if newData.Some? then newData.value["id" := Str(n.id)]["recognition" := Str(newType)]
      else n.meta.data["recognition" := Str(newType)];
    n.(meta := n.meta.(kind := Str(newType), data := data))
  }

  /** `handleNodeUpdate(payload)`. An action payload changes only the
      node's images and template; a rename onto an existing id is refused
      (the alert); otherwise the node is renamed, retyped and every link
      normalised. A payload for an unknown node changes nothing. */
  function NodeUpdate(g: Graph, p: NodeUpdatePayload): Result<Graph> {
    match FindIndex(g.nodes, p.oldId)
    case None => Ok(g)
    case Some(i) =>
      var n := g.nodes[i];
      if IsAction(p) then
        Ok(g.(nodes := g.nodes[i := n.(meta := SpecialAction(n.meta, p.newData.value))]))
      else if p.oldId != p.newId && FindIndex(g.nodes, p.newId).Some? then
        Err("ID \"" + p.newId + "\" already exists!")
      else
        var r := if p.oldId != p.newId then Rename(g, i, p.oldId, p.newId) else g;
        var retyped := r.nodes[i := Retype(r.nodes[i], p.newType, p.newData)];
        Ok(Graph(NormalizeNodes(retyped), r.edges))
  }

  // ---------------------------------------------------------------------------
  // Export and dirty tracking

  /** The nodes `getNodesData` exports: not missing, and of a type other than `Unknown` and `Anchor`. */
  predicate Exported(n: Node) {
    !n.meta.isMissing && n.meta.kind != Str(UNKNOWN) && n.meta.kind != Str(ANCHOR_TYPE)
  }

  function ExportRecord(d: Record): Record {
    d - {"id", "interrupt"}
  }

  /** `getNodesData()`: later nodes win on a shared id. */
  function NodesData(nodes: seq<Node>): map<string, Record>
    decreases |nodes|
  {
    if nodes == [] then map[]
    else
      var prev := NodesData(nodes[..|nodes| - 1]);
      var n := nodes[|nodes| - 1];
      if Exported(n) then prev[n.id := ExportRecord(n.meta.data)] else prev
  }

  /** `JSON.stringify` of the exported document: an abstract encoder. */
  type Encoder = map<string, Record> -> string

  /** `isDirty`: there is a snapshot and the current export encodes differently. */
  predicate IsDirty(nodes: seq<Node>, snapshot: string, encode: Encoder) {
    snapshot != "" && encode(NodesData(nodes)) != snapshot
  }

  // ---------------------------------------------------------------------------
  // Lemmas: link lists and connections

  /** An add overwrites the first entry naming the target in place, or
      appends one; every other entry keeps its place. For a target without
      marker text the written entry names the same target with the requested
      jump-back flag, so a marker rewrite never moves or retargets a link. */
  lemma ListAdd(items: seq<Value>, t: string, a: bool, j: bool)
    ensures var r := UpdateList(items, t, BuildLinkId(t, a, j), true);
      match FirstMatch(items, t)
      case None => |r| == |items| + 1 && r[..|items|] == items && r[|items|] == Str(BuildLinkId(t, a, j))
      case Some(k) =>
        |r| == |items| && r[k] == Str(BuildLinkId(t, a, j)) &&
        forall m :: 0 <= m < |items| && m != k ==> r[m] == items[m]
    ensures NoMarkers(t) ==>
      Target(Str(BuildLinkId(t, a, j))) == t && Contains(BuildLinkId(t, a, j), JUMP_BACK) == j
  {
    if NoMarkers(t) {
      StripBuilt(t, a, j);
      StripNoMarkers(t);
      BuiltFlags(t, a, j);
    }
  }

  /** A remove splices out the first entry naming the target and nothing else. */
  lemma ListRemove(items: seq<Value>, t: string, stored: string)
    ensures var r := UpdateList(items, t, stored, false);
      match FirstMatch(items, t)
      case None => r == items
      case Some(k) =>
        |r| == |items| - 1 &&
        (forall m :: 0 <= m < k ==> r[m] == items[m] && !Matches(items[m], t)) &&
        (forall m :: k <= m < |r| ==> r[m] == items[m + 1])
  {
  }

  lemma FindIndexSameIds(a: seq<Node>, b: seq<Node>, id: string)
    requires |a| == |b| && forall k :: 0 <= k < |a| ==> a[k].id == b[k].id
    ensures FindIndex(a, id) == FindIndex(b, id)
  {
    match FindIndex(a, id)
    case None =>
    case Some(i) =>
  }

  lemma {:induction false} RemoveEdgesAbsent(edges: seq<Edge>, id: string)
    requires forall k :: 0 <= k < |edges| ==> edges[k].id != id
    ensures RemoveEdges(edges, id) == edges
    decreases |edges|
  {
    if edges != [] {
      RemoveEdgesAbsent(edges[1..], id);
      assert edges == [edges[0]] + edges[1..];
    }
  }

  lemma {:induction false} RemoveEdgesAppend(a: seq<Edge>, b: seq<Edge>, id: string)
    ensures RemoveEdges(a + b, id) == RemoveEdges(a, id) + RemoveEdges(b, id)
    decreases |a|
  {
    if a != [] {
      assert (a + b)[1..] == a[1..] + b;
      RemoveEdgesAppend(a[1..], b, id);
    } else {
      assert a + b == b;
    }
  }

  /** Connecting a fresh pair twice gives back the edges and every other
      record, and leaves the field as the list it was (an empty list when it
      was absent or not a list). */
  lemma ConnectTwice(g: Graph, c: Connection, id1: string, id2: string, i: nat)
    requires FindIndex(g.nodes, c.source) == Some(i)
    requires PortOf(c.sourceHandle).Some?
    requires FindEdge(g.edges, c.source, c.target, c.sourceHandle).None?
    requires forall k :: 0 <= k < |g.edges| ==> g.edges[k].id != id1
    requires NoMarkers(c.target)
    requires FirstMatch(FieldList(g.nodes[i].meta.data, PortOf(c.sourceHandle).value.field), c.target).None?
    ensures var f := PortOf(c.sourceHandle).value.field;
      var data := g.nodes[i].meta.data;
      Connect(Connect(g, c, id1), c, id2) == Graph(g.nodes[i := WithData(g.nodes[i], data[f := Arr(FieldList(data, f))])], g.edges)
  {
    var f := PortOf(c.sourceHandle).value.field;
    var data := g.nodes[i].meta.data;
    var items := FieldList(data, f);
    var items1, g1 := ConnectFresh(g, c, id1, i);
    ConnectOff(g1, c, id2, i, |g.edges|, items);
    TwiceEdges(g.edges, NewEdge(c, id1));
    WithDataTwice(g.nodes[i], f, Arr(items1), Arr(items));
  }

  /** Setting a field of a node's record twice keeps only the second value. */
  lemma WithDataTwice(n: Node, f: string, v1: Value, v2: Value)
    ensures var n1 := WithData(n, n.meta.data[f := v1]);
      WithData(n1, n1.meta.data[f := v2]) == WithData(n, n.meta.data[f := v2])
  {
    assert n.meta.data[f := v1][f := v2] == n.meta.data[f := v2];
  }

  lemma TwiceEdges(edges: seq<Edge>, e: Edge)
    requires forall k :: 0 <= k < |edges| ==> edges[k].id != e.id
    ensures RemoveEdges(edges + [e], e.id) == edges
  {
    RemoveEdgesAppend(edges, [e], e.id);
    RemoveEdgesAbsent(edges, e.id);
    assert RemoveEdges([e], e.id) == [];
  }

  /** vue-flow `removeEdges([id])` keeps exactly the edges with another id, in their order. */
  lemma {:induction false} RemoveEdgesSpec(edges: seq<Edge>, id: string)
    ensures forall e :: e in RemoveEdges(edges, id) <==> e in edges && e.id != id
    decreases |edges|
  {
    if edges != [] {
      RemoveEdgesSpec(edges[1..], id);
      assert edges == [edges[0]] + edges[1..];
    }
  }

  /** The first call of ConnectTwice: the entry is appended, and the second
      call will find both it and the new edge. */
  lemma ConnectFresh(g: Graph, c: Connection, id1: string, i: nat) returns (items1: seq<Value>, g1: Graph)
    requires FindIndex(g.nodes, c.source) == Some(i)
    requires PortOf(c.sourceHandle).Some?
    requires FindEdge(g.edges, c.source, c.target, c.sourceHandle).None?
    requires NoMarkers(c.target)
    requires FirstMatch(FieldList(g.nodes[i].meta.data, PortOf(c.sourceHandle).value.field), c.target).None?
    ensures var f := PortOf(c.sourceHandle).value.field;
      var data := g.nodes[i].meta.data;
      Connect(g, c, id1) == g1 &&
      g1 == Graph(g.nodes[i := WithData(g.nodes[i], data[f := Arr(items1)])], g.edges + [NewEdge(c, id1)]) &&
      FindIndex(g1.nodes, c.source) == Some(i) &&
      FindEdge(g1.edges, c.source, c.target, c.sourceHandle) == Some(|g.edges|) &&
      FieldList(g1.nodes[i].meta.data, f) == items1 &&
      UpdateList(items1, c.target, BuildLinkId(c.target, IsAnchorNode(FindNode(g1.nodes, c.target)), false), false) == FieldList(data, f)
  {
    var f := PortOf(c.sourceHandle).value.field;
    var data := g.nodes[i].meta.data;
    var items := FieldList(data, f);
    var a1 := IsAnchorNode(FindNode(g.nodes, c.target));
    var stored := BuildLinkId(c.target, a1, false);
    items1 := items + [Str(stored)];
    var e := NewEdge(c, id1);
    var nodes1 := g.nodes[i := WithData(g.nodes[i], data[f := Arr(items1)])];
    g1 := Graph(nodes1, g.edges + [e]);
    ConnectOn(g, c, id1, i, items1);
    FindEdgeAppend(g.edges, e, c.source, c.target, c.sourceHandle);
    FindIndexSameIds(nodes1, g.nodes, c.source);
    assert FieldList(nodes1[i].meta.data, f) == items1;
    assert Matches(Str(stored), c.target) by {
      StripBuilt(c.target, a1, false);
      StripNoMarkers(c.target);
    }
    FirstMatchAppend(items, Str(stored), c.target);
    assert items1[..|items|] + items1[|items| + 1..] == items;
  }

  /** The add branch of Connect at a source found at `i`. */
  lemma ConnectOn(g: Graph, c: Connection, id: string, i: nat, items1: seq<Value>)
    requires FindIndex(g.nodes, c.source) == Some(i)
    requires PortOf(c.sourceHandle).Some?
    requires FindEdge(g.edges, c.source, c.target, c.sourceHandle).None?
    requires var f := PortOf(c.sourceHandle).value.field;
      items1 == UpdateList(FieldList(g.nodes[i].meta.data, f), c.target,
        BuildLinkId(c.target, IsAnchorNode(FindNode(g.nodes, c.target)), false), true)
    ensures var f := PortOf(c.sourceHandle).value.field;
      Connect(g, c, id) == Graph(g.nodes[i := WithData(g.nodes[i], g.nodes[i].meta.data[f := Arr(items1)])], g.edges + [NewEdge(c, id)])
  {
  }

  /** The remove branch of Connect at a source found at `i` and an edge at `k`. */
  lemma ConnectOff(g: Graph, c: Connection, id: string, i: nat, k: nat, items1: seq<Value>)
    requires FindIndex(g.nodes, c.source) == Some(i)
    requires PortOf(c.sourceHandle).Some?
    requires FindEdge(g.edges, c.source, c.target, c.sourceHandle) == Some(k)
    requires var f := PortOf(c.sourceHandle).value.field;
      items1 == UpdateList(FieldList(g.nodes[i].meta.data, f), c.target,
        BuildLinkId(c.target, IsAnchorNode(FindNode(g.nodes, c.target)), false), false)
    ensures var f := PortOf(c.sourceHandle).value.field;
      Connect(g, c, id) == Graph(g.nodes[i := WithData(g.nodes[i], g.nodes[i].meta.data[f := Arr(items1)])], RemoveEdges(g.edges, g.edges[k].id))
  {
  }

  lemma FindEdgeAppend(edges: seq<Edge>, e: Edge, s: string, t: string, h: string)
    requires FindEdge(edges, s, t, h).None?
    requires e.source == s && e.target == t && e.sourceHandle == h
    ensures FindEdge(edges + [e], s, t, h) == Some(|edges|)
    decreases |edges|
  {
    if edges != [] {
      assert (edges + [e])[1..] == edges[1..] + [e];
      FindEdgeAppend(edges[1..], e, s, t, h);
    }
  }

  lemma FirstMatchAppend(items: seq<Value>, v: Value, t: string)
    requires FirstMatch(items, t).None? && Matches(v, t)
    ensures FirstMatch(items + [v], t) == Some(|items|)
    decreases |items|
  {
    if items != [] {
      assert (items + [v])[1..] == items[1..] + [v];
      FirstMatchAppend(items[1..], v, t);
    }
  }

  // ---------------------------------------------------------------------------
  // Lemmas: rename

  /** A link naming the old id names the new one afterwards, with the same
      markers; every other value is kept. */
  lemma ReplaceLinkValSpec(v: Value, oldId: string, newId: string)
    requires NoMarkers(newId) && newId != ""
    ensures var r := ReplaceLinkVal(v, oldId, newId);
      if v.Str? && LinkTarget(v.s) == oldId then
        r.Str? && LinkTarget(r.s) == newId &&
        ParseLinkFlags(r.s).anchor == ParseLinkFlags(v.s).anchor &&
        ParseLinkFlags(r.s).jumpBack == ParseLinkFlags(v.s).jumpBack
      else r == v
  {
    if v.Str? && LinkTarget(v.s) == oldId {
      var f := ParseLinkFlags(v.s);
      RoundTrip(newId, f.anchor, f.jumpBack);
    }
  }

  /** Every edge endpoint equal to the old id takes the new one; handles,
      label and flag are kept, and an edge away from the old id is untouched. */
  lemma RenameEdgeSpec(e: Edge, oldId: string, newId: string)
    requires newId != ""
    ensures var r := RenameEdge(e, oldId, newId);
      r.source == (if e.source == oldId then newId else e.source) &&
      r.target == (if e.target == oldId then newId else e.target) &&
      r.sourceHandle == e.sourceHandle && r.targetHandle == e.targetHandle &&
      r.edgeLabel == e.edgeLabel && r.jumpBack == e.jumpBack
    ensures e.source != oldId && e.target != oldId ==> RenameEdge(e, oldId, newId) == e
  {
  }

  /** A rename onto an id some node already has changes nothing: the update is refused. */
  lemma NodeUpdateCollision(g: Graph, p: NodeUpdatePayload)
    requires FindIndex(g.nodes, p.oldId).Some? && !IsAction(p)
    requires p.oldId != p.newId && FindIndex(g.nodes, p.newId).Some?
    ensures NodeUpdate(g, p).Err?
  {
  }

  /** An action payload renames nothing: edges, ids, positions and every
      other node are kept. */
  lemma NodeUpdateAction(g: Graph, p: NodeUpdatePayload, i: nat)
    requires FindIndex(g.nodes, p.oldId) == Some(i) && IsAction(p)
    ensures NodeUpdate(g, p).Ok?
    ensures var r := NodeUpdate(g, p).value;
      r.edges == g.edges && |r.nodes| == |g.nodes| &&
      r.nodes[i].id == g.nodes[i].id && r.nodes[i].position == g.nodes[i].position &&
      forall k :: 0 <= k < |g.nodes| && k != i ==> r.nodes[k] == g.nodes[k]
  {
  }

  /** A rename whose payload carries `newData`: the renamed node's record
      is `newData` with its `id` and `recognition`, normalised, and not the
      record the link rewrite produced; the edges are renamed. */
  lemma NewDataOverwrites(g: Graph, p: NodeUpdatePayload, i: nat)
    requires FindIndex(g.nodes, p.oldId) == Some(i)
    requires !IsAction(p) && p.newData.Some?
    requires p.oldId != p.newId && FindIndex(g.nodes, p.newId).None?
    ensures NodeUpdate(g, p).Ok?
    ensures var r := NodeUpdate(g, p).value;
      r.edges == RenameEdges(g.edges, p.oldId, p.newId) &&
      |r.nodes| == |g.nodes| && r.nodes[i].id == p.newId && r.nodes[i].meta.kind == Str(p.newType) &&
      r.nodes[i].meta.data == NormalizeData(AnchorIds(r.nodes), p.newData.value["id" := Str(p.newId)]["recognition" := Str(p.newType)])
  {
    var r1 := Rename(g, i, p.oldId, p.newId);
    var retyped := r1.nodes[i := Retype(r1.nodes[i], p.newType, p.newData)];
    AnchorIdsNormalized(retyped);
  }

  /** A `newData` whose `next` is a plain link to the old id keeps naming
      the old id after the rename, while every edge from the old id to
      itself becomes one from the new id to itself. */
  lemma NewDataKeepsSelfLink(g: Graph, p: NodeUpdatePayload, i: nat)
    requires FindIndex(g.nodes, p.oldId) == Some(i)
    requires !IsAction(p) && p.newData == Some(map[NEXT := Arr([Str(p.oldId)])])
    requires p.oldId != p.newId && FindIndex(g.nodes, p.newId).None?
    requires p.oldId != "" && NoMarkers(p.oldId) && p.newId != ""
    ensures NodeUpdate(g, p).Ok?
    ensures var r := NodeUpdate(g, p).value;
      |r.nodes| == |g.nodes| && r.nodes[i].id == p.newId &&
      |FieldList(r.nodes[i].meta.data, NEXT)| == 1 && Target(FieldList(r.nodes[i].meta.data, NEXT)[0]) == p.oldId &&
      forall k :: 0 <= k < |g.edges| && g.edges[k].source == p.oldId && g.edges[k].target == p.oldId ==>
        r.edges[k].source == p.newId && r.edges[k].target == p.newId
  {
    NewDataOverwrites(g, p, i);
    var r := NodeUpdate(g, p).value;
    var d := p.newData.value["id" := Str(p.newId)]["recognition" := Str(p.newType)];
    PlainLinkSettles(AnchorIds(r.nodes), d, p.oldId);
    SelfEdgesRenamed(g.edges, p.oldId, p.newId);
  }

  lemma SelfEdgesRenamed(edges: seq<Edge>, oldId: string, newId: string)
    requires newId != ""
    ensures var r := RenameEdges(edges, oldId, newId);
      forall k :: 0 <= k < |edges| && edges[k].source == oldId && edges[k].target == oldId ==>
        r[k].source == newId && r[k].target == newId
  {
    forall k | 0 <= k < |edges| && edges[k].source == oldId && edges[k].target == oldId
      ensures RenameEdges(edges, oldId, newId)[k].source == newId && RenameEdges(edges, oldId, newId)[k].target == newId
    {
      RenameEdgeSpec(edges[k], oldId, newId);
    }
  }

  /** A plain link alone in `next` keeps its target through normalisation. */
  lemma PlainLinkSettles(anchorIds: set<string>, d: Record, t: string)
    requires NEXT in d && d[NEXT] == Arr([Str(t)]) && t != "" && NoMarkers(t)
    ensures var items := FieldList(NormalizeData(anchorIds, d), NEXT);
      |items| == 1 && Target(items[0]) == t
  {
    StripNoMarkers(t);
    var v := Str(BuildLinkId(t, t in anchorIds, false));
    assert NormalizeItem(anchorIds, Str(t)) == v;
    assert NormalizeItems(anchorIds, [Str(t)]) == [v];
    assert Truthy([v]) == [v];
    NormalizeDataAt(anchorIds, d, NEXT);
    StripBuilt(t, t in anchorIds, false);
  }

  /** A rename onto a fresh non-empty id gives the node that id, keeps every
      other node's id and position, and leaves no edge at the old id. */
  lemma NodeUpdateRename(g: Graph, p: NodeUpdatePayload, i: nat)
    requires FindIndex(g.nodes, p.oldId) == Some(i) && !IsAction(p)
    requires p.oldId != p.newId && FindIndex(g.nodes, p.newId).None? && p.newId != ""
    ensures NodeUpdate(g, p).Ok?
    ensures var r := NodeUpdate(g, p).value;
      |r.nodes| == |g.nodes| && r.nodes[i].id == p.newId && r.nodes[i].meta.kind == Str(p.newType) &&
      (forall k :: 0 <= k < |g.nodes| ==> r.nodes[k].position == g.nodes[k].position) &&
      (forall k :: 0 <= k < |g.nodes| && k != i ==> r.nodes[k].id == g.nodes[k].id) &&
      r.edges == RenameEdges(g.edges, p.oldId, p.newId) &&
      forall k :: 0 <= k < |r.edges| ==> r.edges[k].source != p.oldId && r.edges[k].target != p.oldId
  {
    var r := NodeUpdate(g, p).value;
    forall k | 0 <= k < |r.edges|
      ensures r.edges[k].source != p.oldId && r.edges[k].target != p.oldId
    {
      RenameEdgeSpec(g.edges[k], p.oldId, p.newId);
    }
  }

  /** What `replaceField` does to a key: the field itself is rewritten value
      by value, every other key is kept. */
  predicate Replaced(before: Record, after: Record, key: string, oldId: string, newId: string) {
    (key in after <==> key in before) &&
    (key in before && before[key].Arr? ==>
      after[key].Arr? && |after[key].items| == |before[key].items| &&
      forall m :: 0 <= m < |before[key].items| ==>
        after[key].items[m] == ReplaceLinkVal(before[key].items[m], oldId, newId)) &&
    (key in before && !before[key].Arr? ==> after[key] == ReplaceLinkVal(before[key], oldId, newId))
  }

  lemma ReplaceFieldAt(d: Record, field: string, oldId: string, newId: string, key: string)
    ensures var r := ReplaceField(d, field, oldId, newId);
      if key == field then Replaced(d, r, key, oldId, newId)
      else (key in r <==> key in d) && (key in r ==> r[key] == d[key])
  {
  }

  /** The renaming rewrites each link field of a record value by value. */
  lemma ReplaceLinksAt(d: Record, oldId: string, newId: string, key: string)
    requires key == NEXT || key == ON_ERROR || key == TIMEOUT_NEXT
    ensures Replaced(d, ReplaceLinks(d, oldId, newId), key, oldId, newId)
  {
    var d1 := ReplaceField(d, NEXT, oldId, newId);
    var d2 := ReplaceField(d1, ON_ERROR, oldId, newId);
    ReplaceFieldAt(d, NEXT, oldId, newId, key);
    ReplaceFieldAt(d1, ON_ERROR, oldId, newId, key);
    ReplaceFieldAt(d2, TIMEOUT_NEXT, oldId, newId, key);
  }

  /** The renaming rewrites the link fields of every node, the renamed one
      included, value by value. */
  lemma RenameLinks(g: Graph, i: nat, oldId: string, newId: string, k: nat, key: string)
    requires i < |g.nodes| && k < |g.nodes|
    requires key == NEXT || key == ON_ERROR || key == TIMEOUT_NEXT
    ensures var before := if k == i then g.nodes[i].meta.data["id" := Str(newId)] else g.nodes[k].meta.data;
      Replaced(before, Rename(g, i, oldId, newId).nodes[k].meta.data, key, oldId, newId)
  {
    var before := if k == i then g.nodes[i].meta.data["id" := Str(newId)] else g.nodes[k].meta.data;
    ReplaceLinksAt(before, oldId, newId, key);
  }

  // ---------------------------------------------------------------------------
  // Lemmas: normalisation

  /** A link whose target has no marker text keeps its target and its
      jump-back flag, keeps its anchor flag, and gains one when the target
      is an anchor node. */
  lemma NormalizeItemSpec(anchorIds: set<string>, s: string)
    requires NoMarkers(LinkTarget(s)) && LinkTarget(s) != ""
    ensures var r := NormalizeItem(anchorIds, Str(s));
      var f := ParseLinkFlags(s);
      r.Str? && ParseLinkFlags(r.s) == LinkFlags(LinkTarget(s) in anchorIds || f.anchor, f.jumpBack, LinkTarget(s))
  {
    var f := ParseLinkFlags(s);
    RoundTrip(LinkTarget(s), LinkTarget(s) in anchorIds || f.anchor, f.jumpBack);
  }

  /** A link value normalisation can settle: a non-string, or a string whose
      target is non-empty and free of marker text. */
  predicate LinkOk(v: Value) {
    v.Str? ==> LinkTarget(v.s) != "" && NoMarkers(LinkTarget(v.s))
  }

  lemma NormalizeItemIdempotent(anchorIds: set<string>, v: Value)
    requires LinkOk(v)
    ensures LinkOk(NormalizeItem(anchorIds, v))
    ensures NormalizeItem(anchorIds, NormalizeItem(anchorIds, v)) == NormalizeItem(anchorIds, v)
  {
    if v.Str? {
      var t := LinkTarget(v.s);
      var f := ParseLinkFlags(v.s);
      var a := t in anchorIds || f.anchor;
      RoundTrip(t, a, f.jumpBack);
      assert LinkTarget(BuildLinkId(t, a, f.jumpBack)) == t;
    }
  }

  /** Text made only of a marker is its own target, so each normalisation
      puts one more `[Anchor]` in front of it. */
  lemma MarkerOnlyGrows()
    ensures NormalizeItem({}, Str(ANCHOR)) == Str(ANCHOR + ANCHOR)
  {
    assert StartsWith(ANCHOR, ANCHOR);
    assert ANCHOR[|ANCHOR|..] == [];
    assert StripPrefix(ANCHOR) == [];
    assert Contains(ANCHOR, ANCHOR);
    assert !Contains(ANCHOR, JUMP_BACK) by {
      if Contains(ANCHOR, JUMP_BACK) {
        var i := ContainsElim(ANCHOR, JUMP_BACK);
        assert false;
      }
    }
  }

  /** `.filter(Boolean)` of an all-truthy list is the list. */
  lemma {:induction false} TruthyAll(items: seq<Value>)
    requires forall k :: 0 <= k < |items| ==> JsTruthy(items[k])
    ensures Truthy(items) == items
    decreases |items|
  {
    if items != [] {
      TruthyAll(items[1..]);
      assert items == [items[0]] + items[1..];
    }
  }

  /** A normalised list holds only truthy values. */
  lemma NormalizeValueTruthy(anchorIds: set<string>, v: Value)
    ensures var r := NormalizeValue(anchorIds, v);
      r.Some? ==> r.value != Null && (r.value.Arr? ==> r.value.items != [] && forall x :: x in r.value.items ==> JsTruthy(x))
  {
  }

  /** Normalising a settled value twice is normalising it once. */
  lemma NormalizeValueIdempotent(anchorIds: set<string>, v: Value)
    requires v.Arr? ==> forall k :: 0 <= k < |v.items| ==> LinkOk(v.items[k])
    requires LinkOk(v)
    ensures var r := NormalizeValue(anchorIds, v);
      r.Some? ==> NormalizeValue(anchorIds, r.value) == r
  {
    match v
    case Arr(items) =>
      var mapped := NormalizeItems(anchorIds, items);
      var kept := Truthy(mapped);
      if kept != [] {
        forall k | 0 <= k < |kept|
          ensures NormalizeItem(anchorIds, kept[k]) == kept[k] && JsTruthy(kept[k])
        {
          assert kept[k] in mapped;
          var j :| 0 <= j < |mapped| && mapped[j] == kept[k];
          NormalizeItemIdempotent(anchorIds, items[j]);
        }
        assert NormalizeItems(anchorIds, kept) == kept;
        TruthyAll(kept);
      }
    case Str(s) =>
      NormalizeItemIdempotent(anchorIds, v);
    case _ =>
  }

  /** Each link field after normalisation: deleted when it normalised to
      nothing, else the normalised value; other keys are kept. */
  lemma NormalizeDataAt(anchorIds: set<string>, d: Record, key: string)
    ensures var r := NormalizeData(anchorIds, d);
      if key == NEXT || key == ON_ERROR || key == TIMEOUT_NEXT then
        (key in r <==> key in d && NormalizeValue(anchorIds, d[key]).Some?) &&
        (key in r ==> r[key] == NormalizeValue(anchorIds, d[key]).value)
      else (key in r <==> key in d) && (key in r ==> r[key] == d[key])
  {
  }

  /** A normalised record has no link field that is null or an empty list,
      and none it did not have before; its other keys are untouched. */
  lemma NormalizeDeletes(anchorIds: set<string>, d: Record, key: string)
    requires key == NEXT || key == ON_ERROR || key == TIMEOUT_NEXT
    ensures var r := NormalizeData(anchorIds, d);
      (key in r ==> key in d && r[key] != Null && r[key] != Arr([])) &&
      (key in r && r[key].Arr? ==> forall x :: x in r[key].items ==> JsTruthy(x))
  {
    NormalizeDataAt(anchorIds, d, key);
    if key in d {
      NormalizeValueTruthy(anchorIds, d[key]);
    }
  }

  /** The link fields of a record hold settled values only. */
  predicate RecordSettled(d: Record) {
    forall key :: key in d && (key == NEXT || key == ON_ERROR || key == TIMEOUT_NEXT) ==>
      LinkOk(d[key]) && (d[key].Arr? ==> forall k :: 0 <= k < |d[key].items| ==> LinkOk(d[key].items[k]))
  }

  predicate NodesSettled(nodes: seq<Node>) {
    forall k :: 0 <= k < |nodes| ==> RecordSettled(nodes[k].meta.data)
  }

  lemma NormalizeDataIdempotent(anchorIds: set<string>, d: Record)
    requires RecordSettled(d)
    ensures NormalizeData(anchorIds, NormalizeData(anchorIds, d)) == NormalizeData(anchorIds, d)
  {
    var r := NormalizeData(anchorIds, d);
    var r2 := NormalizeData(anchorIds, r);
    forall key
      ensures (key in r2 <==> key in r) && (key in r2 ==> r2[key] == r[key])
    {
      NormalizeDataAt(anchorIds, d, key);
      NormalizeDataAt(anchorIds, r, key);
      if key in d && (key == NEXT || key == ON_ERROR || key == TIMEOUT_NEXT) {
        NormalizeValueIdempotent(anchorIds, d[key]);
      }
    }
    assert r2 == r;
  }

  /** Normalisation keeps the kind and the `anchor` key, so the anchor set
      it starts from is the same the second time. */
  lemma AnchorIdsNormalized(nodes: seq<Node>)
    ensures AnchorIds(NormalizeNodes(nodes)) == AnchorIds(nodes)
  {
    var a := AnchorIds(nodes);
    var r := NormalizeNodes(nodes);
    forall k | 0 <= k < |nodes|
      ensures IsAnchorNode(Some(r[k])) == IsAnchorNode(Some(nodes[k]))
    {
      NormalizeDataAt(a, nodes[k].meta.data, "anchor");
    }
  }

  /** `normalizeLinksAcrossNodes` is idempotent on nodes whose links are settled. */
  lemma NormalizeNodesIdempotent(nodes: seq<Node>)
    requires NodesSettled(nodes)
    ensures NormalizeNodes(NormalizeNodes(nodes)) == NormalizeNodes(nodes)
  {
    var a := AnchorIds(nodes);
    var r := NormalizeNodes(nodes);
    AnchorIdsNormalized(nodes);
    forall k | 0 <= k < |nodes|
      ensures NormalizeNode(a, r[k]) == r[k]
    {
      NormalizeDataIdempotent(a, nodes[k].meta.data);
    }
  }

  // ---------------------------------------------------------------------------
  // Lemmas: export

  function ExportedIds(nodes: seq<Node>): set<string> {
    set k | 0 <= k < |nodes| && Exported(nodes[k]) :: nodes[k].id
  }

  /** The exported document has one key per exported node. */
  lemma {:induction false} ExportKeys(nodes: seq<Node>)
    ensures NodesData(nodes).Keys == ExportedIds(nodes)
    decreases |nodes|
  {
    if nodes != [] {
      var init := nodes[..|nodes| - 1];
      ExportKeys(init);
      assert forall k :: 0 <= k < |init| ==> init[k] == nodes[k];
      assert ExportedIds(nodes) == ExportedIds(init) + (if Exported(nodes[|nodes| - 1]) then {nodes[|nodes| - 1].id} else {});
    }
  }

  /** With distinct ids, an exported node's entry is its record without
      `id` and `interrupt`. */
  lemma {:induction false} ExportValue(nodes: seq<Node>, k: nat)
    requires UniqueIds(nodes) && k < |nodes| && Exported(nodes[k])
    ensures nodes[k].id in NodesData(nodes)
    ensures NodesData(nodes)[nodes[k].id] == ExportRecord(nodes[k].meta.data)
    ensures "id" !in NodesData(nodes)[nodes[k].id] && "interrupt" !in NodesData(nodes)[nodes[k].id]
    decreases |nodes|
  {
    var init := nodes[..|nodes| - 1];
    if k < |nodes| - 1 {
      assert forall m :: 0 <= m < |init| ==> init[m] == nodes[m];
      ExportValue(init, k);
      assert nodes[|nodes| - 1].id != nodes[k].id;
    }
  }

  /** A node that is missing, `Unknown` or `Anchor` is never exported. */
  lemma ExportOmits(nodes: seq<Node>, id: string)
    requires forall k :: 0 <= k < |nodes| && nodes[k].id == id ==> !Exported(nodes[k])
    ensures id !in NodesData(nodes)
  {
    ExportKeys(nodes);
  }
}
