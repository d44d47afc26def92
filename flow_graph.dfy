/** The editor's graph state and its operations (src/utils/useFlowGraph.ts,
    `useFlowGraph()`): the node and edge lists, the spacing preset, the open
    file and the export snapshot are fields; each handler updates them step
    by step and is proved to leave exactly the state the functions of
    GraphSync, GraphImages and GraphLoad describe. */
module UseFlowGraph {
  import opened Json
  import opened FlowTypes
  import opened GraphSync
  import opened GraphImages
  import opened GraphLoad
  import opened GraphInvariant
  import Layout

  // ---------------------------------------------------------------------------
  // The loops of `loadNodes` and `normalizeLinksAcrossNodes`

  /** The first pass of `loadNodes`: push one node per entry and record its id. */
  method CollectEntries(entries: seq<Entry>) returns (st: LoadState)
    ensures st == EntryNodes(entries)
  {
    st := LoadState([], [], {});
    var i := 0;
    while i < |entries|
      invariant i <= |entries|
      invariant |st.nodes| == i && st.edges == []
      invariant forall k :: 0 <= k < i ==> st.nodes[k] == CreateNodeObject(entries[k].id, entries[k].content, false)
      invariant st.created == EntryIds(entries[..i])
    {
      EntryIdsSnoc(entries, i);
      st := LoadState(st.nodes + [CreateNodeObject(entries[i].id, entries[i].content, false)], st.edges, st.created + {entries[i].id});
      i := i + 1;
    }
    assert entries[..i] == entries;
  }

  lemma EntryIdsSnoc(entries: seq<Entry>, i: nat)
    requires i < |entries|
    ensures EntryIds(entries[..i + 1]) == EntryIds(entries[..i]) + {entries[i].id}
  {
    var a, b := entries[..i + 1], entries[..i];
    forall v | v in EntryIds(a) ensures v in EntryIds(b) + {entries[i].id} {
      var k :| 0 <= k < |a| && v == a[k].id;
      if k < i { assert a[k] == b[k]; }
    }
    forall v | v in EntryIds(b) ensures v in EntryIds(a) {
      var k :| 0 <= k < |b| && v == b[k].id;
      assert a[k] == b[k];
    }
    assert a[i].id in EntryIds(a);
  }

  /** `rawTargets.forEach(...)` for one link field of one entry. */
  method CollectTargets(st0: LoadState, src: string, key: string, handle: string, raws: seq<Value>) returns (st: LoadState)
    ensures st == LinkTargets(st0, src, key, handle, raws)
  {
    st := st0;
    var i := 0;
    while i < |raws|
      invariant i <= |raws|
      invariant st == LinkTargets(st0, src, key, handle, raws[..i])
    {
      var raw := raws[i];
      if JsTruthy(raw) {
        var text := JsString(raw);
        var flags := LinkCodec.ParseLinkFlags(text);
        var t := LinkCodec.LinkTarget(text);
        if t !in st.created {
          st := LoadState(st.nodes + [CreateNodeObject(t, PlaceholderRecord(t, flags.anchor), true)], st.edges, st.created + {t});
        }
        st := st.(edges := st.edges + [LoadEdge(src, key, handle, raw)]);
      }
      assert raws[..i + 1][..i] == raws[..i];
      i := i + 1;
    }
    assert raws[..i] == raws;
  }

  /** `linkFields.forEach(...)` for one entry. */
  method CollectFields(st0: LoadState, src: string, content: Record) returns (st: LoadState)
    ensures st == LinkFields(st0, src, content, LINK_PORTS)
  {
    st := st0;
    var i := 0;
    while i < |LINK_PORTS|
      invariant i <= |LINK_PORTS|
      invariant st == LinkFields(st0, src, content, LINK_PORTS[..i])
    {
      var port := LINK_PORTS[i];
      if port.0 in content && JsTruthy(content[port.0]) {
        st := CollectTargets(st, src, port.0, port.1, RawTargets(content[port.0]));
      }
      assert LINK_PORTS[..i + 1][..i] == LINK_PORTS[..i];
      i := i + 1;
    }
    assert LINK_PORTS[..i] == LINK_PORTS;
  }

  /** The second pass of `loadNodes`. */
  method CollectLinks(st0: LoadState, entries: seq<Entry>) returns (st: LoadState)
    ensures st == LinkEntries(st0, entries)
  {
    st := st0;
    var i := 0;
    while i < |entries|
      invariant i <= |entries|
      invariant st == LinkEntries(st0, entries[..i])
    {
      st := CollectFields(st, entries[i].id, entries[i].content);
      assert entries[..i + 1][..i] == entries[..i];
      i := i + 1;
    }
    assert entries[..i] == entries;
  }

  /** `normalizeLinksAcrossNodes(nodes)`: the anchor ids first, then each
      node's link fields in place. */
  method NormalizeLinks(ns: seq<Node>) returns (r: seq<Node>)
    ensures r == NormalizeNodes(ns)
  {
    var anchorIds := AnchorIds(ns);
    r := ns;
    var i := 0;
    while i < |r|
      invariant i <= |r| == |ns|
      invariant forall k :: 0 <= k < i ==> r[k] == NormalizeNode(anchorIds, ns[k])
      invariant forall k :: i <= k < |r| ==> r[k] == ns[k]
    {
      r := r[i := NormalizeNode(anchorIds, r[i])];
      i := i + 1;
    }
  }

  class FlowGraph {
    var nodes: seq<Node>
    var edges: seq<Edge>
    var currentSpacing: string
    var currentFilename: string
    var currentSource: string
    /** `originalDataSnapshot`: the encoded export at the last load or save. */
    var snapshot: string

    function State(): Graph
      reads this
    {
      Graph(nodes, edges)
    }

    /** A fresh editor: no nodes, no edges, no snapshot, `normal` spacing.
        The empty graph is in sync. */
    constructor()
      ensures nodes == [] && edges == [] && currentSpacing == "normal"
      ensures currentFilename == "" && currentSource == "" && snapshot == ""
      ensures Synced(State())
    {
      nodes := [];
      edges := [];
      currentSpacing := "normal";
      currentFilename := "";
      currentSource := "";
      snapshot := "";
    }

    /** `handleConnect(params)`; `newEdgeId` is the id vue-flow gives the added edge. */
    method HandleConnect(c: Connection, newEdgeId: string)
      modifies this
      ensures State() == Connect(old(State()), c, newEdgeId)
      ensures currentSpacing == old(currentSpacing) && currentFilename == old(currentFilename)
      ensures currentSource == old(currentSource) && snapshot == old(snapshot)
      ensures (old(Synced(State())) && LinkCodec.NoMarkers(c.target) &&
               forall k :: 0 <= k < |old(edges)| ==> old(edges)[k].id != newEdgeId) ==>
        Synced(State())
    {
      var g := State();
      if Synced(g) && LinkCodec.NoMarkers(c.target) && (forall k :: 0 <= k < |edges| ==> edges[k].id != newEdgeId) {
        ConnectSynced(g, c, newEdgeId);
      }
      var port := PortOf(c.sourceHandle);
      var anchor := IsAnchorNode(FindNode(nodes, c.target));
      match FindEdge(edges, c.source, c.target, c.sourceHandle)
      case Some(k) =>
        edges := RemoveEdges(edges, edges[k].id);
        if port.Some? {
          nodes := UpdateConnection(nodes, c.source, port.value.field, c.target, port.value.isArray, false, false, anchor);
        }
      case None =>
        edges := edges + [NewEdge(c, newEdgeId)];
        if port.Some? {
          nodes := UpdateConnection(nodes, c.source, port.value.field, c.target, port.value.isArray, true, false, anchor);
        }
    }

    /** `handleEdgesChange(changes)`: the field bookkeeping for each removal,
        in order; vue-flow itself drops the edges. */
    method HandleEdgesChange(changes: seq<EdgeChange>)
      modifies this
      ensures nodes == EdgesChange(old(nodes), old(edges), changes)
      ensures edges == old(edges) && currentSpacing == old(currentSpacing) && currentFilename == old(currentFilename)
      ensures currentSource == old(currentSource) && snapshot == old(snapshot)
    {
      var i := 0;
      while i < |changes|
        invariant i <= |changes| && edges == old(edges)
        invariant nodes == EdgesChange(old(nodes), edges, changes[..i])
        invariant currentSpacing == old(currentSpacing) && currentFilename == old(currentFilename)
        invariant currentSource == old(currentSource) && snapshot == old(snapshot)
      {
        nodes := ApplyEdgeChange(nodes, edges, changes[i]);
        assert changes[..i + 1][..i] == changes[..i];
        i := i + 1;
      }
      assert changes[..i] == changes;
    }

    /** `setEdgeJumpBack(edgeId, isJumpBack)`. */
    method SetEdgeJumpBack(edgeId: string, isJumpBack: bool)
      modifies this
      ensures State() == GraphSync.SetEdgeJumpBack(old(State()), edgeId, isJumpBack)
      ensures currentSpacing == old(currentSpacing) && currentFilename == old(currentFilename)
      ensures currentSource == old(currentSource) && snapshot == old(snapshot)
      ensures (old(Synced(State())) &&
               forall k :: 0 <= k < |old(edges)| && old(edges)[k].id == edgeId ==> LinkCodec.NoMarkers(old(edges)[k].target)) ==>
        Synced(State())
    {
      var g := State();
      if Synced(g) && (forall k :: 0 <= k < |edges| && edges[k].id == edgeId ==> LinkCodec.NoMarkers(edges[k].target)) {
        JumpBackSynced(g, edgeId, isJumpBack);
      }
      match FindEdgeById(edges, edgeId)
      case None =>
      case Some(k) =>
        var e := edges[k];
        var port := PortOf(e.sourceHandle);
        var anchor := IsAnchorNode(FindNode(nodes, e.target));
        edges := edges[k := e.(jumpBack := isJumpBack, edgeLabel := EdgeLabel(e.sourceHandle, isJumpBack))];
        if port.Some? {
          nodes := UpdateConnection(nodes, e.source, port.value.field, e.target, port.value.isArray, true, isJumpBack, anchor);
        }
    }

    /** The renaming half of `handleNodeUpdate`: the node's ids, the edge
        map, then `replaceField` on every node in place. */
    method RenameNode(i: nat, oldId: string, newId: string)
      requires i < |nodes|
      modifies this
      ensures State() == Rename(old(State()), i, oldId, newId)
      ensures currentSpacing == old(currentSpacing) && currentFilename == old(currentFilename)
      ensures currentSource == old(currentSource) && snapshot == old(snapshot)
    {
      var n := nodes[i];
      nodes := nodes[i := Node(newId, n.position, n.meta.(id := newId, data := n.meta.data["id" := Str(newId)]))];
      edges := RenameEdges(edges, oldId, newId);
      ghost var ns0 := nodes;
      var k := 0;
      while k < |nodes|
        invariant k <= |nodes| == |ns0|
        invariant forall j :: 0 <= j < k ==> nodes[j] == ReplaceLinksInNode(ns0[j], oldId, newId)
        invariant forall j :: k <= j < |nodes| ==> nodes[j] == ns0[j]
        invariant currentSpacing == old(currentSpacing) && currentFilename == old(currentFilename)
        invariant currentSource == old(currentSource) && snapshot == old(snapshot)
        invariant edges == RenameEdges(old(edges), oldId, newId)
      {
        nodes := nodes[k := ReplaceLinksInNode(nodes[k], oldId, newId)];
        k := k + 1;
      }
    }

    /** `handleNodeUpdate(payload)`; the alert on a taken id is the error result. */
    method HandleNodeUpdate(p: NodeUpdatePayload) returns (r: Result<bool>)
      modifies this
      ensures match NodeUpdate(old(State()), p)
        case Ok(g) => r.Ok? && State() == g
        case Err(msg) => r == Err(msg) && State() == old(State())
      ensures currentSpacing == old(currentSpacing) && currentFilename == old(currentFilename)
      ensures currentSource == old(currentSource) && snapshot == old(snapshot)
    {
      var found := FindIndex(nodes, p.oldId);
      if found.None? {
        return Ok(false);
      }
      var i := found.value;
      var n := nodes[i];
      if IsAction(p) {
        nodes := nodes[i := n.(meta := SpecialAction(n.meta, p.newData.value))];
        return Ok(true);
      }
      if p.oldId != p.newId {
        if FindIndex(nodes, p.newId).Some? {
          return Err("ID \"" + p.newId + "\" already exists!");
        }
        RenameNode(i, p.oldId, p.newId);
      }
      nodes := nodes[i := Retype(nodes[i], p.newType, p.newData)];
      nodes := NormalizeLinks(nodes);
      return Ok(true);
    }

    /** The graph-building half of `loadNodes`: placeholders and edges from
        the link fields, normalisation, then the layout at "normal" spacing. */
    method BuildGraph(entries: seq<Entry>, measure: Layout.Measure, dagre: Layout.Dagre)
      modifies this
      ensures State() == Load(entries, measure, dagre)
      ensures currentSpacing == old(currentSpacing) && currentFilename == old(currentFilename)
      ensures currentSource == old(currentSource) && snapshot == old(snapshot)
    {
      var st := CollectEntries(entries);
      st := CollectLinks(st, entries);
      var ns := NormalizeLinks(st.nodes);
      nodes := Layout.Layout(ns, st.edges, Layout.ResolveSpacing(Layout.ByValue(Layout.GetSpacingConfig("normal"))), measure, dagre);
      edges := st.edges;
    }

    /** `loadNodes({filename, source, nodes})`; the snapshot taken after
        loading is taken at once with `encode` for `JSON.stringify`. */
    method LoadNodes(filename: string, source: string, entries: seq<Entry>,
                     measure: Layout.Measure, dagre: Layout.Dagre, encode: Encoder)
      modifies this
      ensures State() == Load(entries, measure, dagre)
      ensures currentFilename == filename && currentSource == source && currentSpacing == old(currentSpacing)
      ensures snapshot == encode(NodesData(nodes)) && !IsDirty(encode)
      ensures DistinctEntries(entries) ==>
        UniqueIds(nodes) && |nodes| >= |entries| &&
        (forall k :: 0 <= k < |entries| ==> nodes[k].id == entries[k].id) &&
        forall e :: e in edges ==> e.source in Ids(nodes) && e.target in Ids(nodes) && e.targetHandle == IN
    {
      BuildGraph(entries, measure, dagre);
      currentFilename := filename;
      currentSource := source;
      var data := GetNodesData();
      snapshot := encode(data);
      if DistinctEntries(entries) {
        LoadConnected(entries, measure, dagre);
      }
    }

    /** `getNodesData()`. */
    method GetNodesData() returns (d: map<string, Record>)
      ensures d == NodesData(nodes)
    {
      d := map[];
      var i := 0;
      while i < |nodes|
        invariant i <= |nodes|
        invariant d == NodesData(nodes[..i])
      {
        var n := nodes[i];
        if Exported(n) {
          d := d[n.id := ExportRecord(n.meta.data)];
        }
        assert nodes[..i + 1][..i] == nodes[..i];
        i := i + 1;
      }
      assert nodes[..i] == nodes;
    }

    /** `isDirty`. */
    predicate IsDirty(encode: Encoder)
      reads this
    {
      GraphSync.IsDirty(nodes, snapshot, encode)
    }

    /** `clearDirty()`: the current export becomes the snapshot, so nothing is dirty. */
    method ClearDirty(encode: Encoder)
      modifies this
      ensures snapshot == encode(NodesData(nodes)) && !IsDirty(encode)
      ensures nodes == old(nodes) && edges == old(edges) && currentSpacing == old(currentSpacing)
      ensures currentFilename == old(currentFilename) && currentSource == old(currentSource)
    {
      var d := GetNodesData();
      snapshot := encode(d);
    }

    /** `getImageData()`. */
    method GetImageData() returns (dels: seq<DelRef>, temps: seq<TempRef>)
      ensures (dels, temps) == ImageData(nodes)
    {
      dels, temps := [], [];
      var i := 0;
      while i < |nodes|
        invariant i <= |nodes|
        invariant (dels, temps) == ImageData(nodes[..i])
      {
        var n := nodes[i];
        if !n.meta.isMissing {
          dels := dels + DelRefs(n.meta.delImages, n.id);
          temps := temps + TempRefs(n.meta.tempImages, n.id);
        }
        assert nodes[..i + 1][..i] == nodes[..i];
        i := i + 1;
      }
      assert nodes[..i] == nodes;
    }

    /** `clearTempImageData()`: every present node commits its temporary
        images and forgets its deletions, so nothing is staged afterwards. */
    method ClearTempImageData()
      modifies this
      ensures nodes == ClearTempAll(old(nodes)) && ImageData(nodes) == ([], [])
      ensures edges == old(edges) && currentSpacing == old(currentSpacing) && snapshot == old(snapshot)
      ensures currentFilename == old(currentFilename) && currentSource == old(currentSource)
    {
      ghost var ns0 := nodes;
      var i := 0;
      while i < |nodes|
        invariant i <= |nodes| == |ns0|
        invariant forall k :: 0 <= k < i ==> nodes[k] == ClearTemp(ns0[k])
        invariant forall k :: i <= k < |nodes| ==> nodes[k] == ns0[k]
        invariant edges == old(edges) && currentSpacing == old(currentSpacing) && snapshot == old(snapshot)
        invariant currentFilename == old(currentFilename) && currentSource == old(currentSource)
      {
        var n := nodes[i];
        if !n.meta.isMissing {
          nodes := nodes[i := n.(meta := n.meta.(images := n.meta.images + n.meta.tempImages, tempImages := [], delImages := []))];
        }
        i := i + 1;
      }
      ClearedHasNoImageData(ns0);
    }

    /** The returned `applyLayout(k)`: the key, else the current preset. */
    method ApplyLayout(key: string, measure: Layout.Measure, dagre: Layout.Dagre)
      modifies this
      ensures nodes == Layout.Layout(old(nodes), edges,
        Layout.ResolveSpacing(Layout.ByKey(if key != "" then key else currentSpacing)), measure, dagre)
      ensures |nodes| == |old(nodes)| && forall k :: 0 <= k < |nodes| ==> nodes[k].id == old(nodes)[k].id && nodes[k].meta == old(nodes)[k].meta
      ensures edges == old(edges) && currentSpacing == old(currentSpacing) && snapshot == old(snapshot)
      ensures currentFilename == old(currentFilename) && currentSource == old(currentSource)
    {
      var k := if key != "" then key else currentSpacing;
      Layout.LayoutSpec(nodes, edges, Layout.ResolveSpacing(Layout.ByKey(k)), measure, dagre);
      nodes := Layout.Layout(nodes, edges, Layout.ResolveSpacing(Layout.ByKey(k)), measure, dagre);
    }

    /** `layoutTaskChain(rootId)` and `layoutChainFromNode(startId, key)`:
        the chain layout from the root with the given preset when the root
        exists; its chain ids are what the view is fitted to. */
    method LayoutChain(rootId: string, spacingKey: string, measure: Layout.Measure, dagre: Layout.Dagre)
      returns (layout: Option<Layout.ChainLayout>)
      modifies this
      ensures layout.None? <==> rootId == "" || FindNode(old(nodes), rootId).None?
      ensures layout.None? ==> nodes == old(nodes)
      ensures layout.Some? ==> nodes == Layout.ApplyChain(old(nodes), layout.value)
      ensures layout.Some? ==> layout.value.chainIds == Layout.ChainWalk(old(nodes), rootId).1
      ensures layout.Some? ==> layout.value.chainPositions == Layout.ChainOf(old(nodes), rootId, Layout.GetSpacingConfig(spacingKey))
      ensures layout.Some? ==> Layout.RemainingFits(layout.value, old(nodes), edges, Layout.GetSpacingConfig(spacingKey), measure, dagre)
      ensures edges == old(edges) && currentSpacing == old(currentSpacing) && snapshot == old(snapshot)
      ensures currentFilename == old(currentFilename) && currentSource == old(currentSource)
    {
      var r;
      r, layout := Layout.ApplyOrderedChainLayout(nodes, edges, rootId, Layout.ByKey(spacingKey), measure, dagre);
      if r.Some? {
        nodes := r.value;
      }
    }

    /** `layoutTaskChain(rootId)`: the chain layout with the current preset. */
    method LayoutTaskChain(rootId: string, measure: Layout.Measure, dagre: Layout.Dagre)
      returns (layout: Option<Layout.ChainLayout>)
      modifies this
      ensures layout.None? <==> rootId == "" || FindNode(old(nodes), rootId).None?
      ensures layout.None? ==> nodes == old(nodes)
      ensures layout.Some? ==> nodes == Layout.ApplyChain(old(nodes), layout.value)
      ensures layout.Some? ==> layout.value.chainIds == Layout.ChainWalk(old(nodes), rootId).1
      ensures layout.Some? ==> layout.value.chainPositions == Layout.ChainOf(old(nodes), rootId, Layout.GetSpacingConfig(currentSpacing))
      ensures edges == old(edges) && currentSpacing == old(currentSpacing) && snapshot == old(snapshot)
      ensures currentFilename == old(currentFilename) && currentSource == old(currentSource)
    {
      layout := LayoutChain(rootId, currentSpacing, measure, dagre);
    }
  }
}
