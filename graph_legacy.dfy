/** The JavaScript edition of the graph handlers (src/utils/useFlowGraph.js).
    It differs from the TypeScript edition in its ports (`next` and
    `interrupt` are lists, `on_error` is a single id), in storing plain ids
    with no markers, in comparing link values with strict equality, in
    having no normalisation, and in a load that reads four link fields. */
module GraphLegacy {
  import opened Json
  import opened FlowTypes
  import opened GraphSync
  import opened GraphLoad
  import Layout
  import LayoutLegacy

  const INTERRUPT := "interrupt"
  const SOURCE_B := "source-b"

  // ---------------------------------------------------------------------------
  // Ports and connections

  /** `PORT_MAPPING[handle]`. */
  function LegacyPortOf(handle: string): (p: Option<Port>)
    ensures p.Some? <==> handle == SOURCE_A || handle == SOURCE_B || handle == SOURCE_C
    ensures p.Some? ==> (p.value.isArray <==> handle != SOURCE_C)
    ensures p.Some? ==> p.value.field == NEXT || p.value.field == INTERRUPT || p.value.field == ON_ERROR
  {
    if handle == SOURCE_A then Some(Port(NEXT, true))
    else if handle == SOURCE_B then Some(Port(INTERRUPT, true))
    else if handle == SOURCE_C then Some(Port(ON_ERROR, false))
    else None
  }

  /** Two handles never write the same field. */
  lemma LegacyPortsDistinct(h1: string, h2: string)
    requires LegacyPortOf(h1).Some? && LegacyPortOf(h2).Some? && h1 != h2
    ensures LegacyPortOf(h1).value.field != LegacyPortOf(h2).value.field
  {
  }

  /** `onValidateConnection`: only the target handle is looked at. */
  function LegacyValidate(c: Connection): (ok: bool)
    ensures ok ==> c.targetHandle == IN
  {
    c.targetHandle == IN
  }

  /** The JavaScript check accepts everything the TypeScript one accepts, and
      also self-loops and connections out of an `in` handle. */
  lemma ValidateCompared(c: Connection, s: string, h: string)
    ensures OnValidateConnection(c) ==> LegacyValidate(c)
    ensures LegacyValidate(Connection(s, s, h, IN)) && !OnValidateConnection(Connection(s, s, h, IN))
    ensures LegacyValidate(Connection(s, h, IN, IN)) && !OnValidateConnection(Connection(s, h, IN, IN))
  {
  }

  // ---------------------------------------------------------------------------
  // Node creation

  /** `createNodeObject(id, rawContent, isMissing)`: the record is kept whole
      and takes the id and the shown type as `recognition`. */
  function LegacyCreateNode(id: string, raw: Record, isMissing: bool): (n: Node)
    ensures n.id == id && n.meta.id == id && n.meta.isMissing == isMissing
    ensures n.position == Point(0.0, 0.0)
    ensures n.meta.images == [] && n.meta.delImages == [] && n.meta.tempImages == []
    ensures n.meta.data.Keys == raw.Keys + {"id", "recognition"}
    ensures n.meta.data["id"] == Str(id) && n.meta.data["recognition"] == n.meta.kind
    ensures forall k :: k in raw && k != "id" && k != "recognition" ==> n.meta.data[k] == raw[k]
    ensures isMissing ==> n.meta.kind == Str(UNKNOWN)
    ensures !isMissing && "recognition" in raw && JsTruthy(raw["recognition"]) ==> n.meta.kind == raw["recognition"]
    ensures !isMissing && !("recognition" in raw && JsTruthy(raw["recognition"])) ==> n.meta.kind == Str(DIRECT_HIT)
  {
    var kind := LogicType(raw, isMissing);
    Node(id, Point(0.0, 0.0), Meta(id, kind, raw["id" := Str(id)]["recognition" := kind], isMissing, [], [], []))
  }

  /** A placeholder's record holds its id and the `Unknown` recognition, nothing else. */
  lemma PlaceholderData(id: string)
    ensures LegacyCreateNode(id, map[], true).meta.data == map["id" := Str(id), "recognition" := Str(UNKNOWN)]
  {
    var d := LegacyCreateNode(id, map[], true).meta.data;
    assert d.Keys == {"id", "recognition"};
  }

  // ---------------------------------------------------------------------------
  // Link lists

  /** `arr.indexOf(t)` for a string `t`: strict equality, so only that string matches. */
  function IndexOfValue(items: seq<Value>, t: string): (r: Option<nat>)
    ensures r.Some? ==> r.value < |items| && items[r.value] == Str(t)
    ensures r.Some? ==> forall k :: 0 <= k < r.value ==> items[k] != Str(t)
    ensures r.None? <==> Str(t) !in items
    decreases |items|
  {
    if items == [] then None
    else if items[0] == Str(t) then Some(0)
    else
      assert items == [items[0]] + items[1..];
      match IndexOfValue(items[1..], t)
      case None => None
      case Some(i) => Some(i + 1)
  }

  /** `arr.splice(arr.indexOf(t), 1)` when `t` is there. */
  function ListWithout(items: seq<Value>, t: string): seq<Value> {
    match IndexOfValue(items, t)
    case None => items
    case Some(k) => items[..k] + items[k + 1..]
  }

  /** `if (!arr.includes(t)) arr.push(t)`. */
  function ListWith(items: seq<Value>, t: string): seq<Value> {
    if Str(t) in items then items else items + [Str(t)]
  }

  /** The bookkeeping of `handleConnect` on the source's record. Adding makes
      a list field a list if it is not one and pushes `t` unless present, and
      overwrites the scalar field. Removing splices a list's first entry equal
      to `t`, and deletes the scalar field only when it equals `t`. */
  function LegacyUpdateField(data: Record, port: Port, t: string, isAdd: bool): Record {
    var f := port.field;
    if port.isArray then
      if isAdd then data[f := Arr(ListWith(FieldList(data, f), t))]
      else if f in data && data[f].Arr? then data[f := Arr(ListWithout(data[f].items, t))]
      else data
    else if isAdd then data[f := Str(t)]
    else if f in data && data[f] == Str(t) then data - {f}
    else data
  }

  /** The bookkeeping on `findNode(src)`; nothing when no node has that id. */
  function LegacyUpdateConnection(nodes: seq<Node>, src: string, port: Port, t: string, isAdd: bool): seq<Node> {
    match FindIndex(nodes, src)
    case None => nodes
    case Some(i) => nodes[i := WithData(nodes[i], LegacyUpdateField(nodes[i].meta.data, port, t, isAdd))]
  }

  /** The edge `addEdges` receives: the connection, labelled with its port's field. */
  function LegacyNewEdge(c: Connection, id: string): Edge {
    var port := LegacyPortOf(c.sourceHandle);
    Edge(id, c.source, c.target, c.sourceHandle, c.targetHandle, if port.Some? then port.value.field else "", false)
  }

  /** `handleConnect(params)`: an edge already joining the same source,
      target and handle is removed with its field entry, otherwise the edge
      is added with its field entry. */
  function LegacyConnect(g: Graph, c: Connection, newEdgeId: string): Graph {
    var port := LegacyPortOf(c.sourceHandle);
    match FindEdge(g.edges, c.source, c.target, c.sourceHandle)
    case Some(k) =>
      Graph(
        if port.Some? then LegacyUpdateConnection(g.nodes, c.source, port.value, c.target, false) else g.nodes,
        RemoveEdges(g.edges, g.edges[k].id))
    case None =>
      Graph(
        if port.Some? then LegacyUpdateConnection(g.nodes, c.source, port.value, c.target, true) else g.nodes,
        g.edges + [LegacyNewEdge(c, newEdgeId)])
  }

  /** One change of `handleEdgesChange`: the same bookkeeping as a toggle-off. */
  function LegacyApplyEdgeChange(nodes: seq<Node>, edges: seq<Edge>, change: EdgeChange): seq<Node> {
    if !change.RemoveChange? then nodes
    else match FindEdgeById(edges, change.id)
      case None => nodes
      case Some(k) =>
        var e := edges[k];
        var port := LegacyPortOf(e.sourceHandle);
        if port.None? then nodes
        else LegacyUpdateConnection(nodes, e.source, port.value, e.target, false)
  }

  /** `handleEdgesChange(changes)`, each change looking the edge up in the
      edge list as it was before vue-flow removes anything. */
  function LegacyEdgesChange(nodes: seq<Node>, edges: seq<Edge>, changes: seq<EdgeChange>): seq<Node>
    decreases |changes|
  {
    if changes == [] then nodes
    else LegacyApplyEdgeChange(LegacyEdgesChange(nodes, edges, changes[..|changes| - 1]), edges, changes[|changes| - 1])
  }

  // ---------------------------------------------------------------------------
  // Toggling

  /** The field of the connection's port on its source holds a state a
      connect and a disconnect lead back to: a list without the target, or,
      for the scalar port, no value at all. */
  predicate Restorable(nodes: seq<Node>, c: Connection) {
    match LegacyPortOf(c.sourceHandle)
    case None => true
    case Some(port) =>
      match FindIndex(nodes, c.source)
      case None => true
      case Some(i) =>
        var d := nodes[i].meta.data;
        if port.isArray then port.field in d && d[port.field].Arr? && Str(c.target) !in d[port.field].items
        else port.field !in d
  }

  lemma IndexOfAppend(items: seq<Value>, t: string)
    requires Str(t) !in items
    ensures IndexOfValue(items + [Str(t)], t) == Some(|items|)
  {
    var r := items + [Str(t)];
    assert r[|items|] == Str(t);
    assert forall k :: 0 <= k < |items| ==> r[k] == items[k];
  }

  lemma ListWithWithout(items: seq<Value>, t: string)
    requires Str(t) !in items
    ensures ListWithout(ListWith(items, t), t) == items
  {
    IndexOfAppend(items, t);
    assert (items + [Str(t)])[..|items|] == items;
  }

  /** The record half of a toggle: adding then removing the target gives the record back. */
  lemma FieldToggle(d: Record, port: Port, t: string)
    requires port.isArray ==> port.field in d && d[port.field].Arr? && Str(t) !in d[port.field].items
    requires !port.isArray ==> port.field !in d
    ensures LegacyUpdateField(LegacyUpdateField(d, port, t, true), port, t, false) == d
  {
    var f := port.field;
    if port.isArray {
      ListWithWithout(d[f].items, t);
    } else {
      assert d[f := Str(t)] - {f} == d;
    }
  }

  /** The first call of a toggle adds the edge last, so the second call finds it there. */
  lemma ConnectAdds(g: Graph, c: Connection, id1: string)
    requires FindEdge(g.edges, c.source, c.target, c.sourceHandle).None?
    ensures var g1 := LegacyConnect(g, c, id1);
      g1.edges == g.edges + [LegacyNewEdge(c, id1)] &&
      FindEdge(g1.edges, c.source, c.target, c.sourceHandle) == Some(|g.edges|) &&
      |g1.nodes| == |g.nodes| && forall k :: 0 <= k < |g.nodes| ==> g1.nodes[k].id == g.nodes[k].id
  {
    FindEdgeAppend(g.edges, LegacyNewEdge(c, id1), c.source, c.target, c.sourceHandle);
  }

  /** Connecting an unconnected pair and connecting it again gives the graph
      back, when the new edge's id is fresh and the port's field is in a
      restorable state. */
  lemma LegacyConnectTwice(g: Graph, c: Connection, id1: string, id2: string)
    requires FindEdge(g.edges, c.source, c.target, c.sourceHandle).None?
    requires forall k :: 0 <= k < |g.edges| ==> g.edges[k].id != id1
    requires Restorable(g.nodes, c)
    ensures LegacyConnect(LegacyConnect(g, c, id1), c, id2) == g
  {
    var g1 := LegacyConnect(g, c, id1);
    var e := LegacyNewEdge(c, id1);
    ConnectAdds(g, c, id1);
    FindIndexSameIds(g1.nodes, g.nodes, c.source);
    TwiceEdges(g.edges, e);
    var port := LegacyPortOf(c.sourceHandle);
    if port.Some? {
      match FindIndex(g.nodes, c.source)
      case None =>
      case Some(i) =>
        var d := g.nodes[i].meta.data;
        FieldToggle(d, port.value, c.target);
        assert g1.nodes[i].meta.data == LegacyUpdateField(d, port.value, c.target, true);
        assert LegacyConnect(g1, c, id2).nodes == g.nodes[i := WithData(g.nodes[i], d)];
        assert g.nodes[i := WithData(g.nodes[i], d)] == g.nodes;
    }
  }

  /** Removing an edge through `handleEdgesChange` does to the records what
      toggling that connection off does. */
  lemma RemovalIsToggleOff(g: Graph, id: string, k: nat, newEdgeId: string)
    requires FindEdgeById(g.edges, id) == Some(k)
    ensures var e := g.edges[k];
      LegacyApplyEdgeChange(g.nodes, g.edges, RemoveChange(id)) ==
        LegacyConnect(g, Connection(e.source, e.target, e.sourceHandle, e.targetHandle), newEdgeId).nodes
  {
    var e := g.edges[k];
    assert FindEdge(g.edges, e.source, e.target, e.sourceHandle).Some?;
  }

  // ---------------------------------------------------------------------------
  // Rename

  /** The first entry equal to `oldId` becomes `newId`. */
  function ReplaceFirstValue(items: seq<Value>, oldId: string, newId: string): (r: seq<Value>)
    ensures |r| == |items|
  {
    match IndexOfValue(items, oldId)
    case None => items
    case Some(k) => items[k := Str(newId)]
  }

  function ReplaceListRef(d: Record, f: string, oldId: string, newId: string): Record {
    if f in d && d[f].Arr? then d[f := Arr(ReplaceFirstValue(d[f].items, oldId, newId))] else d
  }

  function ReplaceScalarRef(d: Record, f: string, oldId: string, newId: string): Record {
    if f in d && d[f] == Str(oldId) then d[f := Str(newId)] else d
  }

  /** The reference update of `handleNodeUpdate` on one record: in `next`
      and `interrupt` the first entry equal to `oldId`, and an `on_error` or
      `timeout_next` equal to it, become `newId`. */
  function ReplaceRefs(d: Record, oldId: string, newId: string): Record {
    ReplaceScalarRef(ReplaceScalarRef(ReplaceListRef(ReplaceListRef(d, NEXT, oldId, newId), INTERRUPT, oldId, newId),
      ON_ERROR, oldId, newId), TIMEOUT_NEXT, oldId, newId)
  }

  function RefsInNode(n: Node, oldId: string, newId: string): Node {
    WithData(n, ReplaceRefs(n.meta.data, oldId, newId))
  }

  /** The renamed node: its id, its meta id and its record's id. */
  function RenamedNode(n: Node, newId: string): Node {
    Node(newId, n.position, n.meta.(id := newId, data := n.meta.data["id" := Str(newId)]))
  }

  /** The renaming part of `handleNodeUpdate` as written: the node at `i`
      takes the new id, the edges are renamed, and every node whose id is
      not `newId` (so every node but the renamed one) has its references
      updated. */
  function LegacyRenameAsWritten(g: Graph, i: nat, oldId: string, newId: string): (r: Graph)
    requires i < |g.nodes|
    ensures |r.nodes| == |g.nodes|
  {
    var nodes := g.nodes[i := RenamedNode(g.nodes[i], newId)];
    Graph(
      seq(|nodes|, k requires 0 <= k < |nodes| => if nodes[k].id == newId then nodes[k] else RefsInNode(nodes[k], oldId, newId)),
      RenameEdges(g.edges, oldId, newId))
  }

  /** The renaming part of `handleNodeUpdate` with the renamed node's own
      references updated as well, as the TypeScript edition does. */
  function LegacyRename(g: Graph, i: nat, oldId: string, newId: string): (r: Graph)
    requires i < |g.nodes|
    ensures |r.nodes| == |g.nodes|
  {
    var nodes := g.nodes[i := RenamedNode(g.nodes[i], newId)];
    Graph(
      seq(|nodes|, k requires 0 <= k < |nodes| => RefsInNode(nodes[k], oldId, newId)),
      RenameEdges(g.edges, oldId, newId))
  }

  /** A record names `id` in one of the four link fields. */
  predicate NamesId(d: Record, id: string) {
    Str(id) in FieldList(d, NEXT) || Str(id) in FieldList(d, INTERRUPT) ||
    (ON_ERROR in d && d[ON_ERROR] == Str(id)) || (TIMEOUT_NEXT in d && d[TIMEOUT_NEXT] == Str(id))
  }

  /** `id` occurs at most once in the list. */
  predicate AtMostOnce(items: seq<Value>, id: string) {
    forall a, b :: 0 <= a < b < |items| && items[a] == Str(id) ==> items[b] != Str(id)
  }

  predicate ListsOnce(d: Record, id: string) {
    AtMostOnce(FieldList(d, NEXT), id) && AtMostOnce(FieldList(d, INTERRUPT), id)
  }

  /** Only the first occurrence is replaced. */
  lemma ReplaceFirstOnly(oldId: string, newId: string)
    requires oldId != newId
    ensures ReplaceFirstValue([Str(oldId), Str(oldId)], oldId, newId) == [Str(newId), Str(oldId)]
  {
    assert IndexOfValue([Str(oldId), Str(oldId)], oldId) == Some(0);
  }

  lemma ReplaceFirstGone(items: seq<Value>, oldId: string, newId: string)
    requires AtMostOnce(items, oldId) && oldId != newId
    ensures Str(oldId) !in ReplaceFirstValue(items, oldId, newId)
  {
    match IndexOfValue(items, oldId)
    case None =>
    case Some(k) =>
      var r := items[k := Str(newId)];
      forall m | 0 <= m < |r| ensures r[m] != Str(oldId) {
        if m != k {
          assert items[m] != Str(oldId) by {
            if m > k {
              assert items[k] == Str(oldId);
            }
          }
        }
      }
  }

  lemma FieldListOf(d: Record, f: string, v: Value)
    ensures FieldList(d[f := v], f) == if v.Arr? then v.items else []
  {
  }

  /** With each list holding `oldId` at most once, the reference update leaves none. */
  lemma ReplaceRefsGone(d: Record, oldId: string, newId: string)
    requires ListsOnce(d, oldId) && oldId != newId
    ensures !NamesId(ReplaceRefs(d, oldId, newId), oldId)
  {
    var d1 := ReplaceListRef(d, NEXT, oldId, newId);
    var d2 := ReplaceListRef(d1, INTERRUPT, oldId, newId);
    var d3 := ReplaceScalarRef(d2, ON_ERROR, oldId, newId);
    var d4 := ReplaceScalarRef(d3, TIMEOUT_NEXT, oldId, newId);
    if NEXT in d && d[NEXT].Arr? {
      ReplaceFirstGone(d[NEXT].items, oldId, newId);
    }
    assert Str(oldId) !in FieldList(d1, NEXT);
    assert FieldList(d1, INTERRUPT) == FieldList(d, INTERRUPT);
    if INTERRUPT in d1 && d1[INTERRUPT].Arr? {
      ReplaceFirstGone(d1[INTERRUPT].items, oldId, newId);
    }
    assert Str(oldId) !in FieldList(d2, INTERRUPT);
    assert FieldList(d2, NEXT) == FieldList(d1, NEXT);
    assert FieldList(d4, NEXT) == FieldList(d2, NEXT) && FieldList(d4, INTERRUPT) == FieldList(d2, INTERRUPT);
  }

  /** The intended promise of a rename: when no list holds `oldId` twice, no
      node, the renamed one included, names `oldId` afterwards. */
  lemma LegacyRenameComplete(g: Graph, i: nat, oldId: string, newId: string)
    requires i < |g.nodes| && oldId != newId
    requires forall k :: 0 <= k < |g.nodes| ==> ListsOnce(g.nodes[k].meta.data, oldId)
    ensures var r := LegacyRename(g, i, oldId, newId);
      forall k :: 0 <= k < |r.nodes| ==> !NamesId(r.nodes[k].meta.data, oldId)
  {
    var nodes := g.nodes[i := RenamedNode(g.nodes[i], newId)];
    forall k | 0 <= k < |nodes|
      ensures !NamesId(RefsInNode(nodes[k], oldId, newId).meta.data, oldId)
    {
      var d := nodes[k].meta.data;
      if k == i {
        var d0 := g.nodes[i].meta.data;
        assert d == d0["id" := Str(newId)];
        assert FieldList(d, NEXT) == FieldList(d0, NEXT) && FieldList(d, INTERRUPT) == FieldList(d0, INTERRUPT);
      }
      ReplaceRefsGone(d, oldId, newId);
    }
  }

  /** As written, a node linking to itself keeps the old id in its own
      `next` list while its edge is renamed. */
  lemma LegacyRenameLeavesSelfLink()
    ensures var n := LegacyCreateNode("A", map[NEXT := Arr([Str("A")])], false);
      var e := Edge("e-A-A-next", "A", "A", SOURCE_A, IN, NEXT, false);
      var r := LegacyRenameAsWritten(Graph([n], [e]), 0, "A", "B");
      r.edges[0].source == "B" && r.edges[0].target == "B" &&
      r.nodes[0].id == "B" && NamesId(r.nodes[0].meta.data, "A")
  {
    var n := LegacyCreateNode("A", map[NEXT := Arr([Str("A")])], false);
    var r := LegacyRenameAsWritten(Graph([n], [Edge("e-A-A-next", "A", "A", SOURCE_A, IN, NEXT, false)]), 0, "A", "B");
    assert r.nodes[0] == RenamedNode(n, "B");
    assert FieldList(r.nodes[0].meta.data, NEXT) == [Str("A")];
  }

  /** What the rename as written does promise: when `newId` is unused and no
      list holds `oldId` twice, no node but the renamed one names `oldId`
      afterwards, and the renamed node's record only changes its `id`. */
  lemma LegacyRenameAsWrittenOthers(g: Graph, i: nat, oldId: string, newId: string)
    requires i < |g.nodes| && oldId != newId && newId !in Ids(g.nodes)
    requires forall k :: 0 <= k < |g.nodes| ==> ListsOnce(g.nodes[k].meta.data, oldId)
    ensures var r := LegacyRenameAsWritten(g, i, oldId, newId);
      (forall k :: 0 <= k < |r.nodes| && k != i ==> !NamesId(r.nodes[k].meta.data, oldId)) &&
      r.nodes[i] == RenamedNode(g.nodes[i], newId)
  {
    var r := LegacyRenameAsWritten(g, i, oldId, newId);
    forall k | 0 <= k < |r.nodes| && k != i
      ensures !NamesId(r.nodes[k].meta.data, oldId)
    {
      assert g.nodes[k].id in Ids(g.nodes);
      ReplaceRefsGone(g.nodes[k].meta.data, oldId, newId);
    }
  }

  // ---------------------------------------------------------------------------
  // Node update

  /** The argument of `handleNodeUpdate`. */
  datatype LegacyPayload = LegacyPayload(oldId: string, newId: string, newType: string)

  /** The node shows the new type and its record's `recognition` takes it. */
  function LegacyRetype(n: Node, newType: string): Node {
    n.(meta := n.meta.(kind := Str(newType), data := n.meta.data["recognition" := Str(newType)]))
  }

  /** `handleNodeUpdate({oldId, newId, newType})`: nothing for an unknown
      node; a rename onto an existing id is refused (the alert); otherwise
      the node is renamed, as written, when the id changes, then retyped. */
  function LegacyNodeUpdate(g: Graph, p: LegacyPayload): Result<Graph> {
    match FindIndex(g.nodes, p.oldId)
    case None => Ok(g)
    case Some(i) =>
      if p.oldId != p.newId && FindIndex(g.nodes, p.newId).Some? then
        Err("ID \"" + p.newId + "\" already exists!")
      else
        var r := if p.oldId != p.newId then LegacyRenameAsWritten(g, i, p.oldId, p.newId) else g;
        Ok(r.(nodes := r.nodes[i := LegacyRetype(r.nodes[i], p.newType)]))
  }

  /** The update is refused exactly for a known node renamed onto a used id. */
  lemma LegacyUpdateRefused(g: Graph, p: LegacyPayload)
    ensures LegacyNodeUpdate(g, p).Err? <==>
      p.oldId in Ids(g.nodes) && p.oldId != p.newId && p.newId in Ids(g.nodes)
  {
    match FindIndex(g.nodes, p.oldId)
    case None =>
      assert p.oldId !in Ids(g.nodes);
    case Some(i) =>
      match FindIndex(g.nodes, p.newId)
      case None =>
        assert p.newId !in Ids(g.nodes);
      case Some(j) =>
  }

  /** An accepted update renames exactly the updated node, so unique ids stay unique. */
  lemma LegacyUpdateKeepsIds(g: Graph, p: LegacyPayload)
    requires UniqueIds(g.nodes) && LegacyNodeUpdate(g, p).Ok?
    ensures var r := LegacyNodeUpdate(g, p).value;
      |r.nodes| == |g.nodes| && UniqueIds(r.nodes) &&
      forall k :: 0 <= k < |g.nodes| ==> r.nodes[k].id == (if g.nodes[k].id == p.oldId then p.newId else g.nodes[k].id)
  {
    var r := LegacyNodeUpdate(g, p).value;
    match FindIndex(g.nodes, p.oldId)
    case None =>
    case Some(i) =>
      forall k | 0 <= k < |g.nodes|
        ensures r.nodes[k].id == (if g.nodes[k].id == p.oldId then p.newId else g.nodes[k].id)
      {
        assert (k == i) == (g.nodes[k].id == p.oldId);
      }
      if p.oldId != p.newId {
        assert forall k :: 0 <= k < |g.nodes| ==> g.nodes[k].id != p.newId;
      }
  }

  // ---------------------------------------------------------------------------
  // Load

  /** The lists `loadNodes` builds, and the JavaScript `Set` of the target
      values seen. Strings, numbers and booleans are members by value, so
      the number 5 and the string "5" are two members; arrays and objects,
      which a `Set` holds by reference, are compared by value here. */
  datatype LegacyLoadState = LegacyLoadState(nodes: seq<Node>, edges: seq<Edge>, created: set<Value>)

  /** The link fields `loadNodes` reads and the handle each one's edges leave from. */
  const LEGACY_LINK_PORTS: seq<(string, string)> :=
    [(NEXT, SOURCE_A), (INTERRUPT, SOURCE_B), (ON_ERROR, SOURCE_C), (TIMEOUT_NEXT, SOURCE_C)]

  /** The edge for one truthy target value; the template literal spells the value with `String()`. */
  function LegacyLoadEdge(src: string, key: string, handle: string, v: Value): (e: Edge)
    ensures e.source == src && e.target == JsString(v) && e.sourceHandle == handle && e.targetHandle == IN
    ensures e.edgeLabel == key && !e.jumpBack && e.id == LoadEdgeId(src, e.target, key)
  {
    var t := JsString(v);
    Edge(LoadEdgeId(src, t, key), src, t, handle, IN, key, false)
  }

  /** A missing placeholder for a value the `Set` has not seen. */
  function LegacyEnsureNode(st: LegacyLoadState, v: Value): LegacyLoadState {
    if v in st.created then st
    else LegacyLoadState(st.nodes + [LegacyCreateNode(JsString(v), map[], true)], st.edges, st.created + {v})
  }

  /** One target value: a falsy one is skipped. */
  function LegacyLinkStep(st: LegacyLoadState, src: string, key: string, handle: string, v: Value): LegacyLoadState {
    if !JsTruthy(v) then st
    else
      var st1 := LegacyEnsureNode(st, v);
      st1.(edges := st1.edges + [LegacyLoadEdge(src, key, handle, v)])
  }

  function LegacyLinkTargets(st: LegacyLoadState, src: string, key: string, handle: string, vs: seq<Value>): LegacyLoadState
    decreases |vs|
  {
    if vs == [] then st
    else LegacyLinkStep(LegacyLinkTargets(st, src, key, handle, vs[..|vs| - 1]), src, key, handle, vs[|vs| - 1])
  }

  /** One link field of one entry: nothing unless the field is truthy. */
  function LegacyLinkField(st: LegacyLoadState, src: string, content: Record, port: (string, string)): LegacyLoadState {
    if port.0 in content && JsTruthy(content[port.0]) then LegacyLinkTargets(st, src, port.0, port.1, RawTargets(content[port.0]))
    else st
  }

  function LegacyLinkFields(st: LegacyLoadState, src: string, content: Record, ports: seq<(string, string)>): LegacyLoadState
    decreases |ports|
  {
    if ports == [] then st
    else LegacyLinkField(LegacyLinkFields(st, src, content, ports[..|ports| - 1]), src, content, ports[|ports| - 1])
  }

  /** The second pass of `loadNodes`. */
  function LegacyLinkEntries(st: LegacyLoadState, entries: seq<Entry>): LegacyLoadState
    decreases |entries|
  {
    if entries == [] then st
    else
      var e := entries[|entries| - 1];
      LegacyLinkFields(LegacyLinkEntries(st, entries[..|entries| - 1]), e.id, e.content, LEGACY_LINK_PORTS)
  }

  /** The entry ids as the `Set` holds them. */
  function EntryValues(entries: seq<Entry>): set<Value> {
    set k | 0 <= k < |entries| :: Str(entries[k].id)
  }

  /** The first pass of `loadNodes`: one node per entry, its id recorded. */
  function LegacyEntryNodes(entries: seq<Entry>): (r: LegacyLoadState)
    ensures |r.nodes| == |entries| && r.edges == []
  {
    LegacyLoadState(
      seq(|entries|, k requires 0 <= k < |entries| => LegacyCreateNode(entries[k].id, entries[k].content, false)),
      [],
      EntryValues(entries))
  }

  function LegacyLoadLinks(entries: seq<Entry>): LegacyLoadState {
    LegacyLinkEntries(LegacyEntryNodes(entries), entries)
  }

  /** `SPACING_OPTIONS[key]` of this file; for any other key the lookup is
      `undefined` and `layout` falls back to its own default, the `normal`
      preset of the layout module. */
  function LoadSpacing(key: string): (s: Layout.Spacing)
    ensures key != "compact" && key != "normal" && key != "loose" ==> s == Layout.NORMAL
  {
    if key == "compact" then Layout.Spacing(40.0, 30.0)
    else if key == "normal" then Layout.Spacing(80.0, 60.0)
    else if key == "loose" then Layout.Spacing(120.0, 150.0)
    else Layout.NORMAL
  }

  /** The preset called `normal` here is not the spacing an unknown key gets. */
  lemma NormalIsNotDefault()
    ensures LoadSpacing("normal") != LoadSpacing("")
  {
  }

  /** `loadNodes({nodes})`: the linked nodes laid out at the current
      spacing; when `layout` throws, nothing is assigned. */
  function LegacyLoad(entries: seq<Entry>, spacingKey: string, measure: Layout.Measure, dagre: Layout.Dagre): Result<Graph> {
    var st := LegacyLoadLinks(entries);
    match LayoutLegacy.LegacyLayout(st.nodes, st.edges, LoadSpacing(spacingKey), measure, dagre)
    case Ok(ns) => Ok(Graph(ns, st.edges))
    case Err(m) => Err(m)
  }

  // ---------------------------------------------------------------------------
  // What loading builds

  /** An edge as the JavaScript `loadNodes` builds it: from an entry, into
      the `in` handle of a node already pushed, from one of the four link
      fields, labelled and named after that field. */
  predicate LegacyLoadedEdge(e: Edge, entries: seq<Entry>, nodes: seq<Node>) {
    e.source in EntryIds(entries) && e.target in Ids(nodes) && e.targetHandle == IN && !e.jumpBack &&
    e.id == LoadEdgeId(e.source, e.target, e.edgeLabel) && (e.edgeLabel, e.sourceHandle) in LEGACY_LINK_PORTS
  }

  /** The node half of the invariant: the entry nodes come first and in
      order; one node was pushed per value the `Set` took beyond the entry
      ids; every value seen names a node; every later node is a placeholder. */
  predicate LegacyNodesInv(nodes: seq<Node>, created: set<Value>, entries: seq<Entry>) {
    NodesShape(nodes, entries) && CreatedNamed(nodes, created, entries)
  }

  predicate NodesShape(nodes: seq<Node>, entries: seq<Entry>) {
    var n := |entries|;
    |nodes| >= n &&
    nodes[..n] == LegacyEntryNodes(entries).nodes &&
    forall k :: n <= k < |nodes| ==> nodes[k] == LegacyCreateNode(nodes[k].id, map[], true)
  }

  predicate CreatedNamed(nodes: seq<Node>, created: set<Value>, entries: seq<Entry>) {
    EntryValues(entries) <= created &&
    |nodes| + |EntryValues(entries)| == |entries| + |created| &&
    forall v :: v in created ==> JsString(v) in Ids(nodes)
  }

  predicate LegacyLoadInv(st: LegacyLoadState, entries: seq<Entry>) {
    LegacyNodesInv(st.nodes, st.created, entries) &&
    forall e :: e in st.edges ==> LegacyLoadedEdge(e, entries, st.nodes)
  }

  lemma LegacyEntryNodesInv(entries: seq<Entry>)
    ensures LegacyLoadInv(LegacyEntryNodes(entries), entries)
  {
    var st := LegacyEntryNodes(entries);
    assert st.nodes[..|entries|] == st.nodes;
    forall v | v in st.created ensures JsString(v) in Ids(st.nodes) {
      var k :| 0 <= k < |entries| && v == Str(entries[k].id);
      assert st.nodes[k].id == entries[k].id;
    }
  }

  /** Pushing a placeholder for an unseen value keeps the node half. */
  lemma LegacyAddPlaceholder(nodes: seq<Node>, created: set<Value>, entries: seq<Entry>, v: Value)
    requires LegacyNodesInv(nodes, created, entries) && v !in created
    ensures LegacyNodesInv(nodes + [LegacyCreateNode(JsString(v), map[], true)], created + {v}, entries)
  {
    var x := LegacyCreateNode(JsString(v), map[], true);
    ShapeSnoc(nodes, entries, x);
    CreatedSnoc(nodes, created, entries, v, x);
  }

  lemma CreatedSnoc(nodes: seq<Node>, created: set<Value>, entries: seq<Entry>, v: Value, x: Node)
    requires CreatedNamed(nodes, created, entries) && v !in created && x.id == JsString(v)
    ensures CreatedNamed(nodes + [x], created + {v}, entries)
  {
    IdsSnoc(nodes, x);
    assert |created + {v}| == |created| + 1;
  }

  lemma ShapeSnoc(nodes: seq<Node>, entries: seq<Entry>, x: Node)
    requires NodesShape(nodes, entries) && x == LegacyCreateNode(x.id, map[], true)
    ensures NodesShape(nodes + [x], entries)
  {
    var r := nodes + [x];
    assert r[..|entries|] == nodes[..|entries|];
    forall k | |entries| <= k < |r| ensures r[k] == LegacyCreateNode(r[k].id, map[], true) {
      if k < |nodes| {
        assert r[k] == nodes[k];
      }
    }
  }

  lemma LegacyEnsureNodeSpec(st: LegacyLoadState, entries: seq<Entry>, v: Value)
    requires LegacyLoadInv(st, entries)
    ensures var st1 := LegacyEnsureNode(st, v);
      st1.edges == st.edges && v in st1.created && LegacyLoadInv(st1, entries)
  {
    if v !in st.created {
      var x := LegacyCreateNode(JsString(v), map[], true);
      LegacyAddPlaceholder(st.nodes, st.created, entries, v);
      IdsSnoc(st.nodes, x);
    }
  }

  lemma LegacyAddEdge(st: LegacyLoadState, entries: seq<Entry>, e: Edge)
    requires LegacyLoadInv(st, entries) && LegacyLoadedEdge(e, entries, st.nodes)
    ensures LegacyLoadInv(st.(edges := st.edges + [e]), entries)
  {
    assert forall x :: x in st.edges + [e] ==> x in st.edges || x == e;
  }

  lemma LegacyLinkStepInv(st: LegacyLoadState, entries: seq<Entry>, src: string, key: string, handle: string, v: Value)
    requires LegacyLoadInv(st, entries)
    requires src in EntryIds(entries) && (key, handle) in LEGACY_LINK_PORTS
    ensures LegacyLoadInv(LegacyLinkStep(st, src, key, handle, v), entries)
  {
    if JsTruthy(v) {
      var st1 := LegacyEnsureNode(st, v);
      LegacyEnsureNodeSpec(st, entries, v);
      LegacyAddEdge(st1, entries, LegacyLoadEdge(src, key, handle, v));
    }
  }

  lemma {:induction false} LegacyLinkTargetsInv(st: LegacyLoadState, entries: seq<Entry>, src: string, key: string, handle: string, vs: seq<Value>)
    requires LegacyLoadInv(st, entries)
    requires src in EntryIds(entries) && (key, handle) in LEGACY_LINK_PORTS
    ensures LegacyLoadInv(LegacyLinkTargets(st, src, key, handle, vs), entries)
    decreases |vs|
  {
    if vs != [] {
      LegacyLinkTargetsInv(st, entries, src, key, handle, vs[..|vs| - 1]);
      LegacyLinkStepInv(LegacyLinkTargets(st, src, key, handle, vs[..|vs| - 1]), entries, src, key, handle, vs[|vs| - 1]);
    }
  }

  lemma {:induction false} LegacyLinkFieldsInv(st: LegacyLoadState, entries: seq<Entry>, src: string, content: Record, prefix: nat)
    requires LegacyLoadInv(st, entries) && src in EntryIds(entries) && prefix <= |LEGACY_LINK_PORTS|
    ensures LegacyLoadInv(LegacyLinkFields(st, src, content, LEGACY_LINK_PORTS[..prefix]), entries)
    decreases prefix
  {
    if prefix > 0 {
      var part := LEGACY_LINK_PORTS[..prefix];
      assert part[..prefix - 1] == LEGACY_LINK_PORTS[..prefix - 1];
      LegacyLinkFieldsInv(st, entries, src, content, prefix - 1);
      var st1 := LegacyLinkFields(st, src, content, LEGACY_LINK_PORTS[..prefix - 1]);
      var port := LEGACY_LINK_PORTS[prefix - 1];
      assert port in LEGACY_LINK_PORTS;
      if port.0 in content && JsTruthy(content[port.0]) {
        LegacyLinkTargetsInv(st1, entries, src, port.0, port.1, RawTargets(content[port.0]));
      }
      assert LegacyLinkFields(st, src, content, part) == LegacyLinkField(st1, src, content, port);
    }
  }

  lemma {:induction false} LegacyLinkEntriesInv(st: LegacyLoadState, entries: seq<Entry>, prefix: nat)
    requires LegacyLoadInv(st, entries) && prefix <= |entries|
    ensures LegacyLoadInv(LegacyLinkEntries(st, entries[..prefix]), entries)
    decreases prefix
  {
    if prefix > 0 {
      var part := entries[..prefix];
      assert part[..prefix - 1] == entries[..prefix - 1];
      LegacyLinkEntriesInv(st, entries, prefix - 1);
      var e := entries[prefix - 1];
      assert e.id in EntryIds(entries);
      var st1 := LegacyLinkEntries(st, entries[..prefix - 1]);
      LegacyLinkFieldsInv(st1, entries, e.id, e.content, |LEGACY_LINK_PORTS|);
      assert LEGACY_LINK_PORTS[..|LEGACY_LINK_PORTS|] == LEGACY_LINK_PORTS;
      assert LegacyLinkEntries(st, part) == LegacyLinkFields(st1, e.id, e.content, LEGACY_LINK_PORTS);
    }
  }

  lemma LegacyLoadLinksInv(entries: seq<Entry>)
    ensures LegacyLoadInv(LegacyLoadLinks(entries), entries)
  {
    LegacyEntryNodesInv(entries);
    LegacyLinkEntriesInv(LegacyEntryNodes(entries), entries, |entries|);
    assert entries[..|entries|] == entries;
  }

  // ---------------------------------------------------------------------------
  // The values the `Set` takes

  /** The truthy values among a list of targets. */
  function TruthyValues(vs: seq<Value>): set<Value> {
    set v | v in vs && JsTruthy(v)
  }

  /** The target values of the first link fields of one record. */
  function FieldValues(content: Record, ports: seq<(string, string)>): set<Value>
    decreases |ports|
  {
    if ports == [] then {}
    else
      var key := ports[|ports| - 1].0;
      FieldValues(content, ports[..|ports| - 1]) +
        (if key in content && JsTruthy(content[key]) then TruthyValues(RawTargets(content[key])) else {})
  }

  /** Every truthy target value of the document's four link fields. */
  function LinkValues(entries: seq<Entry>): set<Value>
    decreases |entries|
  {
    if entries == [] then {}
    else LinkValues(entries[..|entries| - 1]) + FieldValues(entries[|entries| - 1].content, LEGACY_LINK_PORTS)
  }

  lemma {:induction false} TargetsCreated(st: LegacyLoadState, src: string, key: string, handle: string, vs: seq<Value>)
    ensures LegacyLinkTargets(st, src, key, handle, vs).created == st.created + TruthyValues(vs)
    decreases |vs|
  {
    if vs != [] {
      var init := vs[..|vs| - 1];
      assert vs == init + [vs[|vs| - 1]];
      TargetsCreated(st, src, key, handle, init);
    }
  }

  lemma {:induction false} FieldsCreated(st: LegacyLoadState, src: string, content: Record, ports: seq<(string, string)>)
    ensures LegacyLinkFields(st, src, content, ports).created == st.created + FieldValues(content, ports)
    decreases |ports|
  {
    if ports != [] {
      var port := ports[|ports| - 1];
      FieldsCreated(st, src, content, ports[..|ports| - 1]);
      if port.0 in content && JsTruthy(content[port.0]) {
        TargetsCreated(LegacyLinkFields(st, src, content, ports[..|ports| - 1]), src, port.0, port.1, RawTargets(content[port.0]));
      }
    }
  }

  lemma {:induction false} EntriesCreated(st: LegacyLoadState, entries: seq<Entry>)
    ensures LegacyLinkEntries(st, entries).created == st.created + LinkValues(entries)
    decreases |entries|
  {
    if entries != [] {
      var e := entries[|entries| - 1];
      EntriesCreated(st, entries[..|entries| - 1]);
      FieldsCreated(LegacyLinkEntries(st, entries[..|entries| - 1]), e.id, e.content, LEGACY_LINK_PORTS);
    }
  }

  /** What `loadNodes` builds, before layout: the entries' nodes first and in
      order; then exactly one placeholder per distinct truthy target value
      that is not an entry id, each with the record `{id, recognition:
      'Unknown'}`; and edges that leave an entry from a link field and enter
      a node of the graph. */
  lemma LegacyLoadLinksSpec(entries: seq<Entry>)
    ensures var st := LegacyLoadLinks(entries);
      |st.nodes| >= |entries| &&
      (forall k :: 0 <= k < |entries| ==> st.nodes[k] == LegacyCreateNode(entries[k].id, entries[k].content, false)) &&
      |st.nodes| - |entries| == |LinkValues(entries) - EntryValues(entries)| &&
      (forall k :: |entries| <= k < |st.nodes| ==>
        st.nodes[k].meta.isMissing && st.nodes[k].meta.data == map["id" := Str(st.nodes[k].id), "recognition" := Str(UNKNOWN)]) &&
      forall e :: e in st.edges ==> LegacyLoadedEdge(e, entries, st.nodes)
  {
    var st := LegacyLoadLinks(entries);
    LegacyLoadLinksInv(entries);
    EntriesCreated(LegacyEntryNodes(entries), entries);
    ShapeFacts(st.nodes, entries);
    CountFact(st.nodes, st.created, entries, LinkValues(entries));
  }

  lemma ShapeFacts(nodes: seq<Node>, entries: seq<Entry>)
    requires NodesShape(nodes, entries)
    ensures |nodes| >= |entries|
    ensures forall k :: 0 <= k < |entries| ==> nodes[k] == LegacyCreateNode(entries[k].id, entries[k].content, false)
    ensures forall k :: |entries| <= k < |nodes| ==>
      nodes[k].meta.isMissing && nodes[k].meta.data == map["id" := Str(nodes[k].id), "recognition" := Str(UNKNOWN)]
  {
    forall k | 0 <= k < |entries| ensures nodes[k] == LegacyCreateNode(entries[k].id, entries[k].content, false) {
      assert nodes[k] == nodes[..|entries|][k];
    }
    forall k | |entries| <= k < |nodes|
      ensures nodes[k].meta.isMissing && nodes[k].meta.data == map["id" := Str(nodes[k].id), "recognition" := Str(UNKNOWN)]
    {
      PlaceholderData(nodes[k].id);
    }
  }

  lemma CountFact(nodes: seq<Node>, created: set<Value>, entries: seq<Entry>, lv: set<Value>)
    requires CreatedNamed(nodes, created, entries) && created == EntryValues(entries) + lv
    ensures |nodes| - |entries| == |lv - EntryValues(entries)|
  {
    var ev := EntryValues(entries);
    assert ev + lv == ev + (lv - ev);
    assert ev * (lv - ev) == {};
  }

  /** A number target whose text is an entry's id is a different `Set`
      member from that id, so the load pushes a second node with that id. */
  lemma NumberTargetDuplicates()
    ensures var st := LegacyLoadLinks([Entry("5", map[NEXT := Num("5")])]);
      |st.nodes| == 2 && st.nodes[0].id == st.nodes[1].id == "5"
  {
    var entries := [Entry("5", map[NEXT := Num("5")])];
    var content := entries[0].content;
    var st0 := LegacyEntryNodes(entries);
    assert st0.created == {Str("5")};
    var v := Num("5");
    assert v !in st0.created && JsTruthy(v) && JsString(v) == "5";
    var stA := LegacyLinkStep(st0, "5", NEXT, SOURCE_A, v);
    assert stA.nodes == st0.nodes + [LegacyCreateNode("5", map[], true)];
    assert RawTargets(content[NEXT]) == [v];
    assert LegacyLinkTargets(st0, "5", NEXT, SOURCE_A, [v]) == stA by {
      assert [v][..0] == [];
    }
    var ports := LEGACY_LINK_PORTS;
    assert LegacyLinkFields(st0, "5", content, ports[..1]) == stA by {
      assert ports[..1][..0] == [];
    }
    assert LegacyLinkFields(st0, "5", content, ports[..2]) == stA by {
      assert ports[..2][..1] == ports[..1];
    }
    assert LegacyLinkFields(st0, "5", content, ports[..3]) == stA by {
      assert ports[..3][..2] == ports[..2];
    }
    assert LegacyLinkFields(st0, "5", content, ports) == stA by {
      assert ports[..3] == ports[..|ports| - 1];
    }
    assert LegacyLinkEntries(st0, entries) == stA by {
      assert entries[..0] == [];
    }
  }

  lemma SameIds(a: seq<Node>, b: seq<Node>)
    requires |a| == |b| && forall k :: 0 <= k < |a| ==> a[k].id == b[k].id
    ensures Ids(a) == Ids(b)
  {
    forall id | id in Ids(a) ensures id in Ids(b) {
      var k :| 0 <= k < |a| && a[k].id == id;
      assert b[k].id == id;
    }
  }

  /** After loading and layout every node keeps its id and every edge joins two nodes of the graph. */
  lemma LegacyLoadConnected(entries: seq<Entry>, spacingKey: string, measure: Layout.Measure, dagre: Layout.Dagre)
    requires LegacyLoad(entries, spacingKey, measure, dagre).Ok?
    ensures var g := LegacyLoad(entries, spacingKey, measure, dagre).value;
      |g.nodes| >= |entries| &&
      (forall k :: 0 <= k < |entries| ==> g.nodes[k].id == entries[k].id) &&
      forall e :: e in g.edges ==> e.source in Ids(g.nodes) && e.target in Ids(g.nodes) && e.targetHandle == IN
  {
    var st := LegacyLoadLinks(entries);
    LegacyLoadLinksInv(entries);
    var g := LegacyLoad(entries, spacingKey, measure, dagre).value;
    LayoutLegacy.LegacyLayoutKeeps(st.nodes, st.edges, LoadSpacing(spacingKey), measure, dagre);
    SameIds(st.nodes, g.nodes);
    forall k | 0 <= k < |entries| ensures st.nodes[k].id == entries[k].id {
      assert st.nodes[k] == st.nodes[..|entries|][k];
    }
    forall e | e in g.edges ensures e.source in Ids(g.nodes) {
      var k :| 0 <= k < |entries| && entries[k].id == e.source;
      assert st.nodes[k].id == e.source;
    }
  }
}
