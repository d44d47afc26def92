/** `loadNodes` of the editor (src/utils/useFlowGraph.ts): a document becomes
    one node per entry, one edge per truthy link entry, and one placeholder
    node per target that names no entry. */
module GraphLoad {
  import opened Json
  import opened FlowTypes
  import opened LinkCodec
  import opened GraphSync
  import Layout

  /** The lists `loadNodes` builds: nodes, edges and the ids created so far. */
  datatype LoadState = LoadState(nodes: seq<Node>, edges: seq<Edge>, created: set<string>)

  /** A document entry: a node id and its record, in `Object.entries` order.
      Every value is taken to be an object; a `null` value, on which the
      source throws, is not modelled. */
  datatype Entry = Entry(id: string, content: Record)

  /** The link fields `loadNodes` reads and the handle each one's edges leave from. */
  const LINK_PORTS: seq<(string, string)> := [(NEXT, SOURCE_A), (ON_ERROR, SOURCE_C), (TIMEOUT_NEXT, SOURCE_C)]

  /** `Array.isArray(targetVal) ? targetVal : [targetVal]`. */
  function RawTargets(v: Value): seq<Value> {
    if v.Arr? then v.items else [v]
  }

  /** The record of a placeholder for an unresolved target. */
  function PlaceholderRecord(t: string, isAnchor: bool): Record {
    if isAnchor then map["id" := Str(t), "anchor" := Bool(true)] else map[]
  }

  function LoadEdgeId(src: string, t: string, key: string): string {
    "e-" + src + "-" + t + "-" + key
  }

  /** The edge `loadNodes` builds for one truthy link entry. */
  function LoadEdge(src: string, key: string, handle: string, raw: Value): (e: Edge)
    ensures e.source == src && e.sourceHandle == handle && e.targetHandle == IN
    ensures e.target == LinkTarget(JsString(raw)) && e.jumpBack == ParseLinkFlags(JsString(raw)).jumpBack
    ensures e.edgeLabel == (if e.jumpBack then "JumpBack" else key)
  {
    var text := JsString(raw);
    var flags := ParseLinkFlags(text);
    var t := LinkTarget(text);
    Edge(LoadEdgeId(src, t, key), src, t, handle, IN, if flags.jumpBack then "JumpBack" else key, flags.jumpBack)
  }

  /** A missing placeholder for `t` unless a node with that id was created. */
  function EnsureNode(st: LoadState, t: string, isAnchor: bool): LoadState {
    if t in st.created then st
    else LoadState(st.nodes + [CreateNodeObject(t, PlaceholderRecord(t, isAnchor), true)], st.edges, st.created + {t})
  }

  /** One link entry of `loadNodes`: a placeholder for an unseen target, then the edge. */
  function LinkStep(st: LoadState, src: string, key: string, handle: string, raw: Value): LoadState {
    if !JsTruthy(raw) then st
    else
      var text := JsString(raw);
      var st1 := EnsureNode(st, LinkTarget(text), ParseLinkFlags(text).anchor);
      st1.(edges := st1.edges + [LoadEdge(src, key, handle, raw)])
  }

  function LinkTargets(st: LoadState, src: string, key: string, handle: string, raws: seq<Value>): LoadState
    decreases |raws|
  {
    if raws == [] then st
    else LinkStep(LinkTargets(st, src, key, handle, raws[..|raws| - 1]), src, key, handle, raws[|raws| - 1])
  }

  /** One link field of one entry: nothing unless the field is truthy. */
  function LinkField(st: LoadState, src: string, content: Record, port: (string, string)): LoadState {
    if port.0 in content && JsTruthy(content[port.0]) then LinkTargets(st, src, port.0, port.1, RawTargets(content[port.0]))
    else st
  }

  function LinkFields(st: LoadState, src: string, content: Record, ports: seq<(string, string)>): LoadState
    decreases |ports|
  {
    if ports == [] then st
    else LinkField(LinkFields(st, src, content, ports[..|ports| - 1]), src, content, ports[|ports| - 1])
  }

  /** The second pass of `loadNodes` over the entries. */
  function LinkEntries(st: LoadState, entries: seq<Entry>): LoadState
    decreases |entries|
  {
    if entries == [] then st
    else
      var e := entries[|entries| - 1];
      LinkFields(LinkEntries(st, entries[..|entries| - 1]), e.id, e.content, LINK_PORTS)
  }

  /** The first pass of `loadNodes`: one node per entry, and its id recorded. */
  function EntryNodes(entries: seq<Entry>): (r: LoadState)
    ensures |r.nodes| == |entries| && r.edges == []
  {
    LoadState(
      seq(|entries|, k requires 0 <= k < |entries| => CreateNodeObject(entries[k].id, entries[k].content, false)),
      [],
      EntryIds(entries))
  }

  function EntryIds(entries: seq<Entry>): set<string> {
    set k | 0 <= k < |entries| :: entries[k].id
  }

  /** The nodes and edges of `loadNodes`, before position and normalisation. */
  function LoadLinks(entries: seq<Entry>): LoadState {
    LinkEntries(EntryNodes(entries), entries)
  }

  /** `loadNodes`: the linked nodes normalised, then laid out with the normal spacing. */
  function Load(entries: seq<Entry>, measure: Layout.Measure, dagre: Layout.Dagre): Graph {
    var st := LoadLinks(entries);
    Graph(Layout.Layout(NormalizeNodes(st.nodes), st.edges, Layout.ResolveSpacing(Layout.ByValue(Layout.GetSpacingConfig("normal"))), measure, dagre), st.edges)
  }

  // ---------------------------------------------------------------------------
  // What loading builds

  /** `Object.entries` never yields one key twice. */
  predicate DistinctEntries(entries: seq<Entry>) {
    forall i, j :: 0 <= i < j < |entries| ==> entries[i].id != entries[j].id
  }

  function EdgeTargets(edges: seq<Edge>): set<string> {
    set e | e in edges :: e.target
  }

  /** An edge as `loadNodes` builds it: from an entry, into the `in` handle
      of a node already created, out of one of the two link handles. */
  predicate LoadedEdge(e: Edge, entries: seq<Entry>, created: set<string>) {
    e.source in EntryIds(entries) && e.target in created && e.targetHandle == IN &&
    (e.sourceHandle == SOURCE_A || e.sourceHandle == SOURCE_C)
  }

  /** The node half of the load invariant: the entry nodes come first and in
      order, ids are unique and are exactly the created set, and every later
      node is a missing placeholder. */
  predicate NodesInv(nodes: seq<Node>, created: set<string>, entries: seq<Entry>) {
    var n := |entries|;
    |nodes| >= n &&
    nodes[..n] == EntryNodes(entries).nodes &&
    UniqueIds(nodes) &&
    Ids(nodes) == created &&
    forall k :: n <= k < |nodes| ==>
      nodes[k].meta.isMissing && nodes[k].meta.kind == Str(UNKNOWN) && nodes[k].id !in EntryIds(entries)
  }

  /** The invariant of both passes of `loadNodes`: the node half, every
      placeholder is the target of some edge, and every edge is a loaded edge. */
  predicate LoadInv(st: LoadState, entries: seq<Entry>) {
    NodesInv(st.nodes, st.created, entries) &&
    st.created == EntryIds(entries) + EdgeTargets(st.edges) &&
    forall e :: e in st.edges ==> LoadedEdge(e, entries, st.created)
  }

  lemma IdsSnoc(nodes: seq<Node>, x: Node)
    ensures Ids(nodes + [x]) == Ids(nodes) + {x.id}
  {
    var r := nodes + [x];
    assert r[|nodes|] == x;
    forall id | id in Ids(r) ensures id in Ids(nodes) + {x.id} {
      var k :| 0 <= k < |r| && r[k].id == id;
      if k < |nodes| {
        assert r[k] == nodes[k];
      }
    }
    forall id | id in Ids(nodes) ensures id in Ids(r) {
      var k :| 0 <= k < |nodes| && nodes[k].id == id;
      assert r[k] == nodes[k];
    }
  }

  lemma EdgeTargetsSnoc(edges: seq<Edge>, e: Edge)
    ensures EdgeTargets(edges + [e]) == EdgeTargets(edges) + {e.target}
  {
  }

  /** The first pass: the entries' nodes, ids unique and all recorded. */
  lemma EntryNodesInv(entries: seq<Entry>)
    requires DistinctEntries(entries)
    ensures LoadInv(EntryNodes(entries), entries)
  {
    var st := EntryNodes(entries);
    assert st.nodes[..|entries|] == st.nodes;
    forall id | id in Ids(st.nodes) ensures id in EntryIds(entries) {
      var k :| 0 <= k < |st.nodes| && st.nodes[k].id == id;
    }
    forall id | id in EntryIds(entries) ensures id in Ids(st.nodes) {
      var k :| 0 <= k < |entries| && entries[k].id == id;
      assert st.nodes[k].id == id;
    }
  }

  /** A placeholder is added only for a target no node has yet. */
  lemma AddPlaceholder(nodes: seq<Node>, created: set<string>, entries: seq<Entry>, t: string, x: Node)
    requires NodesInv(nodes, created, entries)
    requires t !in created && x.id == t && x.meta.isMissing && x.meta.kind == Str(UNKNOWN)
    requires t !in EntryIds(entries)
    ensures NodesInv(nodes + [x], created + {t}, entries)
  {
    var r := nodes + [x];
    IdsSnoc(nodes, x);
    assert r[..|entries|] == nodes[..|entries|];
    forall i, j | 0 <= i < j < |r| ensures r[i].id != r[j].id {
      if j == |nodes| {
        assert r[i].id in Ids(nodes) by {
          assert r[i] == nodes[i];
        }
      }
    }
  }

  /** Ensuring a target's node keeps the node half and records the target. */
  lemma EnsureNodeSpec(st: LoadState, entries: seq<Entry>, t: string, isAnchor: bool)
    requires LoadInv(st, entries)
    ensures var st1 := EnsureNode(st, t, isAnchor);
      st1.edges == st.edges && st1.created == st.created + {t} && NodesInv(st1.nodes, st1.created, entries)
  {
    if t !in st.created {
      AddPlaceholder(st.nodes, st.created, entries, t, CreateNodeObject(t, PlaceholderRecord(t, isAnchor), true));
    }
  }

  /** Appending a loaded edge whose target is recorded keeps the invariant. */
  lemma AddEdge(st: LoadState, entries: seq<Entry>, e: Edge)
    requires NodesInv(st.nodes, st.created, entries)
    requires st.created == EntryIds(entries) + EdgeTargets(st.edges) + {e.target}
    requires forall x :: x in st.edges ==> LoadedEdge(x, entries, st.created)
    requires LoadedEdge(e, entries, st.created)
    ensures LoadInv(st.(edges := st.edges + [e]), entries)
  {
    EdgeTargetsSnoc(st.edges, e);
    assert forall x :: x in st.edges + [e] ==> x in st.edges || x == e;
  }

  /** One link entry keeps the invariant. */
  lemma LinkStepInv(st: LoadState, entries: seq<Entry>, src: string, key: string, handle: string, raw: Value)
    requires LoadInv(st, entries)
    requires src in EntryIds(entries) && (handle == SOURCE_A || handle == SOURCE_C)
    ensures LoadInv(LinkStep(st, src, key, handle, raw), entries)
  {
    if JsTruthy(raw) {
      var text := JsString(raw);
      var t := LinkTarget(text);
      var st1 := EnsureNode(st, t, ParseLinkFlags(text).anchor);
      EnsureNodeSpec(st, entries, t, ParseLinkFlags(text).anchor);
      AddEdge(st1, entries, LoadEdge(src, key, handle, raw));
    }
  }

  lemma {:induction false} LinkTargetsInv(st: LoadState, entries: seq<Entry>, src: string, key: string, handle: string, raws: seq<Value>)
    requires LoadInv(st, entries)
    requires src in EntryIds(entries) && (handle == SOURCE_A || handle == SOURCE_C)
    ensures LoadInv(LinkTargets(st, src, key, handle, raws), entries)
    decreases |raws|
  {
    if raws != [] {
      LinkTargetsInv(st, entries, src, key, handle, raws[..|raws| - 1]);
      LinkStepInv(LinkTargets(st, src, key, handle, raws[..|raws| - 1]), entries, src, key, handle, raws[|raws| - 1]);
    }
  }

  lemma {:induction false} LinkFieldsInv(st: LoadState, entries: seq<Entry>, src: string, content: Record, ports: seq<(string, string)>)
    requires LoadInv(st, entries) && src in EntryIds(entries)
    requires forall k :: 0 <= k < |ports| ==> ports[k].1 == SOURCE_A || ports[k].1 == SOURCE_C
    ensures LoadInv(LinkFields(st, src, content, ports), entries)
    decreases |ports|
  {
    if ports != [] {
      var init := ports[..|ports| - 1];
      var port := ports[|ports| - 1];
      LinkFieldsInv(st, entries, src, content, init);
      var st1 := LinkFields(st, src, content, init);
      if port.0 in content && JsTruthy(content[port.0]) {
        LinkTargetsInv(st1, entries, src, port.0, port.1, RawTargets(content[port.0]));
      }
    }
  }

  lemma {:induction false} LinkEntriesInv(st: LoadState, entries: seq<Entry>, prefix: nat)
    requires LoadInv(st, entries) && prefix <= |entries|
    ensures LoadInv(LinkEntries(st, entries[..prefix]), entries)
    decreases prefix
  {
    if prefix > 0 {
      var part := entries[..prefix];
      assert part[..prefix - 1] == entries[..prefix - 1];
      LinkEntriesInv(st, entries, prefix - 1);
      var e := entries[prefix - 1];
      assert e.id in EntryIds(entries);
      var st1 := LinkEntries(st, entries[..prefix - 1]);
      LinkPortHandles();
      LinkFieldsInv(st1, entries, e.id, e.content, LINK_PORTS);
      assert LinkEntries(st, part) == LinkFields(st1, e.id, e.content, LINK_PORTS);
    }
  }

  lemma LinkPortHandles()
    ensures forall k :: 0 <= k < |LINK_PORTS| ==> LINK_PORTS[k].1 == SOURCE_A || LINK_PORTS[k].1 == SOURCE_C
  {
  }

  /** Linking keeps the invariant: node ids are unique, the entries' nodes
      come first in their order, and every edge leaves an entry from a link
      handle and enters the `in` handle of an existing node. */
  lemma LoadLinksInv(entries: seq<Entry>)
    requires DistinctEntries(entries)
    ensures LoadInv(LoadLinks(entries), entries)
  {
    EntryNodesInv(entries);
    LinkEntriesInv(EntryNodes(entries), entries, |entries|);
    assert entries[..|entries|] == entries;
  }

  // ---------------------------------------------------------------------------
  // The edges of one link field

  /** The edges built for a list of truthy link entries, in order. */
  function EdgesFor(src: string, key: string, handle: string, raws: seq<Value>): (r: seq<Edge>)
    ensures |r| == |raws|
  {
    seq(|raws|, k requires 0 <= k < |raws| => LoadEdge(src, key, handle, raws[k]))
  }

  lemma EdgesForSnoc(src: string, key: string, handle: string, raws: seq<Value>, v: Value)
    ensures EdgesFor(src, key, handle, raws + [v]) == EdgesFor(src, key, handle, raws) + [LoadEdge(src, key, handle, v)]
  {
  }

  lemma {:induction false} TruthySnoc(items: seq<Value>, v: Value)
    ensures Truthy(items + [v]) == Truthy(items) + (if JsTruthy(v) then [v] else [])
    decreases |items|
  {
    if items != [] {
      assert (items + [v])[1..] == items[1..] + [v];
      TruthySnoc(items[1..], v);
    } else {
      assert items + [v] == [v];
    }
  }

  /** A link field yields one edge per truthy entry, in order, whatever
      placeholders it creates: falsy entries are skipped. */
  lemma {:induction false} LinkTargetsEdges(st: LoadState, src: string, key: string, handle: string, raws: seq<Value>)
    ensures LinkTargets(st, src, key, handle, raws).edges == st.edges + EdgesFor(src, key, handle, Truthy(raws))
    decreases |raws|
  {
    if raws != [] {
      var init, v := raws[..|raws| - 1], raws[|raws| - 1];
      assert raws == init + [v];
      LinkTargetsEdges(st, src, key, handle, init);
      TruthySnoc(init, v);
      if JsTruthy(v) {
        EdgesForSnoc(src, key, handle, Truthy(init), v);
      }
    }
  }

  /** A falsy field adds nothing, a scalar as a one-element list. */
  lemma LinkFieldEdges(st: LoadState, src: string, content: Record, port: (string, string))
    ensures port.0 !in content || !JsTruthy(content[port.0]) ==> LinkField(st, src, content, port) == st
    ensures port.0 in content && content[port.0].Str? && content[port.0].s != "" ==>
      LinkField(st, src, content, port).edges == st.edges + [LoadEdge(src, port.0, port.1, content[port.0])]
  {
    if port.0 in content && content[port.0].Str? && content[port.0].s != "" {
      var v := content[port.0];
      LinkTargetsEdges(st, src, port.0, port.1, [v]);
      assert Truthy([v]) == [v];
      assert EdgesFor(src, port.0, port.1, [v]) == [LoadEdge(src, port.0, port.1, v)];
    }
  }

  /** After loading, every node keeps its id through normalisation and
      layout, so every edge still joins two nodes of the graph. */
  lemma LoadConnected(entries: seq<Entry>, measure: Layout.Measure, dagre: Layout.Dagre)
    requires DistinctEntries(entries)
    ensures var g := Load(entries, measure, dagre);
      |g.nodes| >= |entries| && UniqueIds(g.nodes) &&
      (forall k :: 0 <= k < |entries| ==> g.nodes[k].id == entries[k].id) &&
      forall e :: e in g.edges ==> e.source in Ids(g.nodes) && e.target in Ids(g.nodes) && e.targetHandle == IN
  {
    var st := LoadLinks(entries);
    LoadLinksInv(entries);
    InvIds(st, entries);
    var ns := NormalizeNodes(st.nodes);
    var sp := Layout.ResolveSpacing(Layout.ByValue(Layout.GetSpacingConfig("normal")));
    Layout.LayoutSpec(ns, st.edges, sp, measure, dagre);
    var laid := Layout.Layout(ns, st.edges, sp, measure, dagre);
    assert Load(entries, measure, dagre) == Graph(laid, st.edges);
    IdsCarry(st.nodes, laid, entries);
  }

  /** What the load invariant says about ids and edges. */
  lemma InvIds(st: LoadState, entries: seq<Entry>)
    requires LoadInv(st, entries)
    ensures |st.nodes| >= |entries| && UniqueIds(st.nodes)
    ensures forall k :: 0 <= k < |entries| ==> st.nodes[k].id == entries[k].id
    ensures forall e :: e in st.edges ==> e.source in Ids(st.nodes) && e.target in Ids(st.nodes) && e.targetHandle == IN
  {
    forall k | 0 <= k < |entries| ensures st.nodes[k].id == entries[k].id {
      assert st.nodes[k] == st.nodes[..|entries|][k];
    }
  }

  /** Id facts carry over to a sequence with the same ids in the same places. */
  lemma IdsCarry(a: seq<Node>, b: seq<Node>, entries: seq<Entry>)
    requires |a| == |b| && forall k :: 0 <= k < |a| ==> b[k].id == a[k].id
    requires |a| >= |entries| && UniqueIds(a) && forall k :: 0 <= k < |entries| ==> a[k].id == entries[k].id
    ensures Ids(b) == Ids(a) && |b| >= |entries| && UniqueIds(b)
    ensures forall k :: 0 <= k < |entries| ==> b[k].id == entries[k].id
  {
    forall id | id in Ids(a) ensures id in Ids(b) {
      var k :| 0 <= k < |a| && a[k].id == id;
      assert b[k].id == id;
    }
  }
}
