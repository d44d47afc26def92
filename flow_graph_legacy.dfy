/** The graph state of the JavaScript edition (src/utils/useFlowGraph.js,
    `useFlowGraph()`): the node and edge lists and the spacing preset are
    fields; each handler updates them step by step and is proved to leave
    exactly the state the functions of GraphLegacy describe. */
module UseFlowGraphLegacy {
  import opened Json
  import opened FlowTypes
  import opened GraphSync
  import opened GraphLoad
  import opened GraphLegacy
  import Layout
  import LayoutLegacy

  // ---------------------------------------------------------------------------
  // The loops of `loadNodes`

  /** The first pass: push one node per entry and add its id to the `Set`. */
  method CollectEntries(entries: seq<Entry>) returns (st: LegacyLoadState)
    ensures st == LegacyEntryNodes(entries)
  {
    st := LegacyLoadState([], [], {});
    var i := 0;
    while i < |entries|
      invariant i <= |entries|
      invariant |st.nodes| == i && st.edges == []
      invariant forall k :: 0 <= k < i ==> st.nodes[k] == LegacyCreateNode(entries[k].id, entries[k].content, false)
      invariant st.created == EntryValues(entries[..i])
    {
      EntryValuesSnoc(entries, i);
      st := LegacyLoadState(st.nodes + [LegacyCreateNode(entries[i].id, entries[i].content, false)], st.edges,
                            st.created + {Str(entries[i].id)});
      i := i + 1;
    }
    assert entries[..i] == entries;
    assert st.nodes == LegacyEntryNodes(entries).nodes;
  }

  lemma EntryValuesSnoc(entries: seq<Entry>, i: nat)
    requires i < |entries|
    ensures EntryValues(entries[..i + 1]) == EntryValues(entries[..i]) + {Str(entries[i].id)}
  {
    var a, b := entries[..i + 1], entries[..i];
    forall v | v in EntryValues(a) ensures v in EntryValues(b) + {Str(entries[i].id)} {
      var k :| 0 <= k < |a| && v == Str(a[k].id);
      if k < i { assert a[k] == b[k]; }
    }
    forall v | v in EntryValues(b) ensures v in EntryValues(a) {
      var k :| 0 <= k < |b| && v == Str(b[k].id);
      assert a[k] == b[k];
    }
    assert Str(a[i].id) in EntryValues(a);
  }

  /** `targets.forEach(...)` for one link field of one entry. */
  method CollectTargets(st0: LegacyLoadState, src: string, key: string, handle: string, vs: seq<Value>)
    returns (st: LegacyLoadState)
    ensures st == LegacyLinkTargets(st0, src, key, handle, vs)
  {
    st := st0;
    var i := 0;
    while i < |vs|
      invariant i <= |vs|
      invariant st == LegacyLinkTargets(st0, src, key, handle, vs[..i])
    {
      var v := vs[i];
      if JsTruthy(v) {
        if v !in st.created {
          st := LegacyLoadState(st.nodes + [LegacyCreateNode(JsString(v), map[], true)], st.edges, st.created + {v});
        }
        st := st.(edges := st.edges + [LegacyLoadEdge(src, key, handle, v)]);
      }
      assert vs[..i + 1][..i] == vs[..i];
      i := i + 1;
    }
    assert vs[..i] == vs;
  }

  /** `linkFields.forEach(...)` for one entry. */
  method CollectFields(st0: LegacyLoadState, src: string, content: Record) returns (st: LegacyLoadState)
    ensures st == LegacyLinkFields(st0, src, content, LEGACY_LINK_PORTS)
  {
    st := st0;
    var i := 0;
    while i < |LEGACY_LINK_PORTS|
      invariant i <= |LEGACY_LINK_PORTS|
      invariant st == LegacyLinkFields(st0, src, content, LEGACY_LINK_PORTS[..i])
    {
      var port := LEGACY_LINK_PORTS[i];
      if port.0 in content && JsTruthy(content[port.0]) {
        st := CollectTargets(st, src, port.0, port.1, RawTargets(content[port.0]));
      }
      assert LEGACY_LINK_PORTS[..i + 1][..i] == LEGACY_LINK_PORTS[..i];
      i := i + 1;
    }
    assert LEGACY_LINK_PORTS[..i] == LEGACY_LINK_PORTS;
  }

  /** The second pass. */
  method CollectLinks(st0: LegacyLoadState, entries: seq<Entry>) returns (st: LegacyLoadState)
    ensures st == LegacyLinkEntries(st0, entries)
  {
    st := st0;
    var i := 0;
    while i < |entries|
      invariant i <= |entries|
      invariant st == LegacyLinkEntries(st0, entries[..i])
    {
      st := CollectFields(st, entries[i].id, entries[i].content);
      assert entries[..i + 1][..i] == entries[..i];
      i := i + 1;
    }
    assert entries[..i] == entries;
  }

  class FlowGraph {
    var nodes: seq<Node>
    var edges: seq<Edge>
    var currentSpacing: string

    function State(): Graph
      reads this
    {
      Graph(nodes, edges)
    }

    /** A fresh editor: no nodes, no edges, `normal` spacing. */
    constructor()
      ensures nodes == [] && edges == [] && currentSpacing == "normal"
    {
      nodes := [];
      edges := [];
      currentSpacing := "normal";
    }

    /** `handleConnect(params)`; `newEdgeId` is the id vue-flow gives the
        added edge. The record of `findNode(source)` is edited in place. */
    method HandleConnect(c: Connection, newEdgeId: string)
      modifies this
      ensures State() == LegacyConnect(old(State()), c, newEdgeId)
      ensures currentSpacing == old(currentSpacing)
    {
      var port := LegacyPortOf(c.sourceHandle);
      var src := FindIndex(nodes, c.source);
      var existing := FindEdge(edges, c.source, c.target, c.sourceHandle);
      var isAdd := existing.None?;
      if existing.Some? {
        edges := RemoveEdges(edges, edges[existing.value].id);
      } else {
        edges := edges + [LegacyNewEdge(c, newEdgeId)];
      }
      if src.Some? && port.Some? {
        var i := src.value;
        var d := nodes[i].meta.data;
        ghost var d0 := d;
        var f := port.value.field;
        if port.value.isArray {
          if isAdd {
            if !(f in d && d[f].Arr?) {
              d := d[f := Arr([])];
            }
            assert d[f] == Arr(FieldList(d0, f)) && d == d0[f := Arr(FieldList(d0, f))];
            if Str(c.target) !in d[f].items {
              d := d[f := Arr(d[f].items + [Str(c.target)])];
            }
          } else if f in d && d[f].Arr? {
            var idx := IndexOfValue(d[f].items, c.target);
            if idx.Some? {
              d := d[f := Arr(d[f].items[..idx.value] + d[f].items[idx.value + 1..])];
            }
          }
        } else if isAdd {
          d := d[f := Str(c.target)];
        } else if f in d && d[f] == Str(c.target) {
          d := d - {f};
        }
        assert d == LegacyUpdateField(d0, port.value, c.target, isAdd);
        nodes := nodes[i := WithData(nodes[i], d)];
      }
    }

    /** `handleEdgesChange(changes)`: the field bookkeeping for each removal,
        in order; vue-flow itself drops the edges. */
    method HandleEdgesChange(changes: seq<EdgeChange>)
      modifies this
      ensures nodes == LegacyEdgesChange(old(nodes), old(edges), changes)
      ensures edges == old(edges) && currentSpacing == old(currentSpacing)
    {
      var i := 0;
      while i < |changes|
        invariant i <= |changes| && edges == old(edges) && currentSpacing == old(currentSpacing)
        invariant nodes == LegacyEdgesChange(old(nodes), edges, changes[..i])
      {
        nodes := LegacyApplyEdgeChange(nodes, edges, changes[i]);
        assert changes[..i + 1][..i] == changes[..i];
        i := i + 1;
      }
      assert changes[..i] == changes;
    }

    /** The renaming half of `handleNodeUpdate` as written: the node's ids,
        the edge map, then in place the references of every node whose id is
        not already `newId` (so not those of the renamed node itself). */
    method RenameNode(i: nat, oldId: string, newId: string)
      requires i < |nodes|
      modifies this
      ensures State() == LegacyRenameAsWritten(old(State()), i, oldId, newId)
      ensures currentSpacing == old(currentSpacing)
    {
      nodes := nodes[i := RenamedNode(nodes[i], newId)];
      edges := RenameEdges(edges, oldId, newId);
      ghost var ns0 := nodes;
      var k := 0;
      while k < |nodes|
        invariant k <= |nodes| == |ns0|
        invariant forall j :: 0 <= j < k ==>
          nodes[j] == if ns0[j].id == newId then ns0[j] else RefsInNode(ns0[j], oldId, newId)
        invariant forall j :: k <= j < |nodes| ==> nodes[j] == ns0[j]
        invariant currentSpacing == old(currentSpacing) && edges == RenameEdges(old(edges), oldId, newId)
      {
        if nodes[k].id != newId {
          nodes := nodes[k := RefsInNode(nodes[k], oldId, newId)];
        }
        k := k + 1;
      }
    }

    /** `handleNodeUpdate({oldId, newId, newType})`; the alert is the error
        result. Ids that were unique stay unique. */
    method HandleNodeUpdate(p: LegacyPayload) returns (r: Result<bool>)
      modifies this
      ensures match LegacyNodeUpdate(old(State()), p)
        case Ok(g) => r.Ok? && State() == g
        case Err(msg) => r == Err(msg) && State() == old(State())
      ensures currentSpacing == old(currentSpacing)
      ensures old(UniqueIds(nodes)) ==> UniqueIds(nodes)
    {
      ghost var g0 := State();
      if UniqueIds(nodes) && LegacyNodeUpdate(g0, p).Ok? {
        LegacyUpdateKeepsIds(g0, p);
      }
      var found := FindIndex(nodes, p.oldId);
      if found.None? {
        return Ok(true);
      }
      var i := found.value;
      if p.oldId != p.newId {
        if FindIndex(nodes, p.newId).Some? {
          return Err("ID \"" + p.newId + "\" already exists!");
        }
        RenameNode(i, p.oldId, p.newId);
      }
      nodes := nodes[i := LegacyRetype(nodes[i], p.newType)];
      return Ok(true);
    }

    /** The graph-building half of `loadNodes`: both passes, then the layout
        at the current spacing. */
    method BuildGraph(entries: seq<Entry>, measure: Layout.Measure, dagre: Layout.Dagre) returns (r: Result<Graph>)
      ensures r == LegacyLoad(entries, currentSpacing, measure, dagre)
    {
      var st := CollectEntries(entries);
      st := CollectLinks(st, entries);
      var laid := LayoutLegacy.LegacyLayout(st.nodes, st.edges, LoadSpacing(currentSpacing), measure, dagre);
      if laid.Err? {
        return Err(laid.error);
      }
      return Ok(Graph(laid.value, st.edges));
    }

    /** `loadNodes({nodes})`: a layout that throws assigns nothing. After a
        load every edge joins two nodes and the entries' nodes come first. */
    method LoadNodes(entries: seq<Entry>, measure: Layout.Measure, dagre: Layout.Dagre) returns (r: Result<bool>)
      modifies this
      ensures match LegacyLoad(entries, old(currentSpacing), measure, dagre)
        case Ok(g) => r.Ok? && State() == g
        case Err(msg) => r == Err(msg) && State() == old(State())
      ensures currentSpacing == old(currentSpacing)
      ensures r.Ok? ==>
        |nodes| >= |entries| && (forall k :: 0 <= k < |entries| ==> nodes[k].id == entries[k].id) &&
        forall e :: e in edges ==> e.source in Ids(nodes) && e.target in Ids(nodes)
    {
      var built := BuildGraph(entries, measure, dagre);
      if built.Err? {
        return Err(built.error);
      }
      LegacyLoadConnected(entries, currentSpacing, measure, dagre);
      nodes := built.value.nodes;
      edges := built.value.edges;
      return Ok(true);
    }

    /** `applyLayout(spacingKey)`: the nodes laid out again with this file's
        preset for the key (the layout default for an unknown key); the
        current spacing is not changed. */
    method ApplyLayout(spacingKey: string, measure: Layout.Measure, dagre: Layout.Dagre) returns (r: Result<bool>)
      modifies this
      ensures match LayoutLegacy.LegacyLayout(old(nodes), old(edges), LoadSpacing(spacingKey), measure, dagre)
        case Ok(ns) => r.Ok? && nodes == ns
        case Err(msg) => r == Err(msg) && nodes == old(nodes)
      ensures edges == old(edges) && currentSpacing == old(currentSpacing)
      ensures |nodes| == |old(nodes)| && forall k :: 0 <= k < |nodes| ==> nodes[k].id == old(nodes)[k].id && nodes[k].meta == old(nodes)[k].meta
    {
      var laid := LayoutLegacy.LegacyLayout(nodes, edges, LoadSpacing(spacingKey), measure, dagre);
      if laid.Err? {
        return Err(laid.error);
      }
      LayoutLegacy.LegacyLayoutKeeps(nodes, edges, LoadSpacing(spacingKey), measure, dagre);
      nodes := laid.value;
      return Ok(true);
    }
  }
}
