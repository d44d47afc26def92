/** The invariant the editor keeps between the graph and the document
    (src/utils/useFlowGraph.ts): for every node, the links its `next` list
    holds are the `source-a` edges leaving it, and the links its `on_error`
    list holds are the `source-c` edges leaving it, each with the same
    target and the same jump-back flag. Connecting, removing an edge and
    toggling an edge's jump-back flag all keep it. */
module GraphInvariant {
  import opened Json
  import opened FlowTypes
  import opened LinkCodec
  import opened GraphSync

  /** What a link entry says: the target it names, and whether it is a jump-back. */
  function LinkPair(v: Value): (string, bool) {
    (Target(v), v.Str? && Contains(v.s, JUMP_BACK))
  }

  function ListPairs(items: seq<Value>): set<(string, bool)> {
    set k | 0 <= k < |items| :: LinkPair(items[k])
  }

  /** Every entry is a string and no two entries name the same target. */
  predicate GoodList(items: seq<Value>) {
    (forall k :: 0 <= k < |items| ==> items[k].Str?) &&
    forall i, j :: 0 <= i < j < |items| ==> Target(items[i]) != Target(items[j])
  }

  /** The links the edges leaving `src` from `handle` stand for. */
  function OutLinks(edges: seq<Edge>, src: string, handle: string): set<(string, bool)> {
    set k | 0 <= k < |edges| && edges[k].source == src && edges[k].sourceHandle == handle ::
      (edges[k].target, edges[k].jumpBack)
  }

  /** No two edges share an id, and no two join the same handle to the same node. */
  predicate UniqueEdges(edges: seq<Edge>) {
    forall i, j :: 0 <= i < j < |edges| ==>
      edges[i].id != edges[j].id &&
      !(edges[i].source == edges[j].source && edges[i].target == edges[j].target &&
        edges[i].sourceHandle == edges[j].sourceHandle)
  }

  /** The field a link handle writes. */
  function FieldOf(handle: string): string {
    if handle == SOURCE_A then NEXT else ON_ERROR
  }

  predicate PortSynced(n: Node, edges: seq<Edge>, handle: string) {
    var items := FieldList(n.meta.data, FieldOf(handle));
    GoodList(items) && ListPairs(items) == OutLinks(edges, n.id, handle)
  }

  predicate LinksSynced(nodes: seq<Node>, edges: seq<Edge>) {
    forall j :: 0 <= j < |nodes| ==> PortSynced(nodes[j], edges, SOURCE_A) && PortSynced(nodes[j], edges, SOURCE_C)
  }

  predicate Synced(g: Graph) {
    UniqueIds(g.nodes) && UniqueEdges(g.edges) && LinksSynced(g.nodes, g.edges)
  }

  // ---------------------------------------------------------------------------
  // Link lists

  lemma PortField(h: string)
    requires h == SOURCE_A || h == SOURCE_C
    ensures PortOf(h) == Some(Port(FieldOf(h), true))
  {
  }

  /** Appending an entry for a new target adds its pair. */
  lemma ListSnoc(items: seq<Value>, v: Value)
    requires GoodList(items) && v.Str?
    requires forall k :: 0 <= k < |items| ==> Target(items[k]) != Target(v)
    ensures GoodList(items + [v]) && ListPairs(items + [v]) == ListPairs(items) + {LinkPair(v)}
  {
    var r := items + [v];
    assert r[|items|] == v;
    forall p | p in ListPairs(r) ensures p in ListPairs(items) + {LinkPair(v)} {
      var k :| 0 <= k < |r| && LinkPair(r[k]) == p;
      if k < |items| {
        assert r[k] == items[k];
      }
    }
    forall p | p in ListPairs(items) ensures p in ListPairs(r) {
      var k :| 0 <= k < |items| && LinkPair(items[k]) == p;
      assert r[k] == items[k];
    }
  }

  /** Splicing out one entry removes exactly its pair: no other entry names its target. */
  lemma ListRemoveAt(items: seq<Value>, m: nat)
    requires GoodList(items) && m < |items|
    ensures var r := items[..m] + items[m + 1..];
      GoodList(r) && ListPairs(r) == ListPairs(items) - {LinkPair(items[m])}
  {
    ListRemoveGood(items, m);
    ListRemoveFewer(items, m);
    ListRemoveKept(items, m);
  }

  lemma ListRemoveFewer(items: seq<Value>, m: nat)
    requires GoodList(items) && m < |items|
    ensures ListPairs(items[..m] + items[m + 1..]) <= ListPairs(items) - {LinkPair(items[m])}
  {
    var r := items[..m] + items[m + 1..];
    forall p | p in ListPairs(r) ensures p in ListPairs(items) && p != LinkPair(items[m]) {
      var k :| 0 <= k < |r| && LinkPair(r[k]) == p;
      var k1 := if k < m then k else k + 1;
      assert r[k] == items[k1];
      if k1 < m {
        assert Target(items[k1]) != Target(items[m]);
      } else {
        assert Target(items[m]) != Target(items[k1]);
      }
    }
  }

  lemma ListRemoveKept(items: seq<Value>, m: nat)
    requires m < |items|
    ensures ListPairs(items) - {LinkPair(items[m])} <= ListPairs(items[..m] + items[m + 1..])
  {
    var r := items[..m] + items[m + 1..];
    forall p | p in ListPairs(items) - {LinkPair(items[m])} ensures p in ListPairs(r) {
      var k :| 0 <= k < |items| && LinkPair(items[k]) == p;
      assert r[if k < m then k else k - 1] == items[k];
    }
  }

  lemma ListRemoveGood(items: seq<Value>, m: nat)
    requires GoodList(items) && m < |items|
    ensures GoodList(items[..m] + items[m + 1..])
  {
    var r := items[..m] + items[m + 1..];
    forall i, j | 0 <= i < j < |r| ensures Target(r[i]) != Target(r[j]) {
      var i1, j1 := if i < m then i else i + 1, if j < m then j else j + 1;
      assert r[i] == items[i1] && r[j] == items[j1] && i1 < j1;
    }
    forall i | 0 <= i < |r| ensures r[i].Str? {
      assert r[i] == items[if i < m then i else i + 1];
    }
  }

  /** Overwriting one entry with another for the same target swaps its pair. */
  lemma ListSetAt(items: seq<Value>, m: nat, v: Value)
    requires GoodList(items) && m < |items| && v.Str? && Target(v) == Target(items[m])
    ensures var r := items[m := v];
      GoodList(r) && ListPairs(r) == ListPairs(items) - {LinkPair(items[m])} + {LinkPair(v)}
  {
    var r := items[m := v];
    forall p | p in ListPairs(r) ensures p in ListPairs(items) - {LinkPair(items[m])} + {LinkPair(v)} {
      var k :| 0 <= k < |r| && LinkPair(r[k]) == p;
    }
    forall p | p in ListPairs(items) - {LinkPair(items[m])} + {LinkPair(v)} ensures p in ListPairs(r) {
      if p != LinkPair(v) {
        var k :| 0 <= k < |items| && LinkPair(items[k]) == p;
        assert r[k] == items[k];
      } else {
        assert r[m] == v;
      }
    }
  }

  /** A pair in a good list comes from the entry `FirstMatch` finds. */
  lemma ListFind(items: seq<Value>, p: (string, bool))
    requires GoodList(items) && p in ListPairs(items)
    ensures FirstMatch(items, p.0).Some? && LinkPair(items[FirstMatch(items, p.0).value]) == p
  {
    var k :| 0 <= k < |items| && LinkPair(items[k]) == p;
    assert Matches(items[k], p.0);
  }

  // ---------------------------------------------------------------------------
  // Edge lists

  lemma OutSnoc(edges: seq<Edge>, e: Edge, x: string, h: string)
    ensures OutLinks(edges + [e], x, h) ==
      OutLinks(edges, x, h) + (if e.source == x && e.sourceHandle == h then {(e.target, e.jumpBack)} else {})
  {
    var r := edges + [e];
    assert r[|edges|] == e;
    forall p | p in OutLinks(edges, x, h) ensures p in OutLinks(r, x, h) {
      var k :| 0 <= k < |edges| && edges[k].source == x && edges[k].sourceHandle == h && (edges[k].target, edges[k].jumpBack) == p;
      assert r[k] == edges[k];
    }
  }

  /** Without edge `k`, the pair of that edge is gone from its source and handle and nothing else changes. */
  lemma OutRemoveAt(edges: seq<Edge>, k: nat, x: string, h: string)
    requires UniqueEdges(edges) && k < |edges|
    ensures var e := edges[k];
      OutLinks(edges[..k] + edges[k + 1..], x, h) ==
        OutLinks(edges, x, h) - (if e.source == x && e.sourceHandle == h then {(e.target, e.jumpBack)} else {})
  {
    var r := edges[..k] + edges[k + 1..];
    var e := edges[k];
    var gone := if e.source == x && e.sourceHandle == h then {(e.target, e.jumpBack)} else {};
    forall p | p in OutLinks(r, x, h) ensures p in OutLinks(edges, x, h) - gone {
      var m :| 0 <= m < |r| && r[m].source == x && r[m].sourceHandle == h && (r[m].target, r[m].jumpBack) == p;
      var n := if m < k then m else m + 1;
      assert r[m] == edges[n] && n != k;
    }
    forall p | p in OutLinks(edges, x, h) - gone ensures p in OutLinks(r, x, h) {
      var n :| 0 <= n < |edges| && edges[n].source == x && edges[n].sourceHandle == h && (edges[n].target, edges[n].jumpBack) == p;
      assert n != k;
      assert r[if n < k then n else n - 1] == edges[n];
    }
  }

  /** Changing only the jump-back flag of edge `k` swaps its pair. */
  lemma OutSetAt(edges: seq<Edge>, k: nat, e1: Edge, x: string, h: string)
    requires UniqueEdges(edges) && k < |edges|
    requires e1.source == edges[k].source && e1.target == edges[k].target && e1.sourceHandle == edges[k].sourceHandle
    ensures var e := edges[k];
      OutLinks(edges[k := e1], x, h) ==
        if e.source == x && e.sourceHandle == h then OutLinks(edges, x, h) - {(e.target, e.jumpBack)} + {(e1.target, e1.jumpBack)}
        else OutLinks(edges, x, h)
  {
    var r := edges[k := e1];
    var e := edges[k];
    if e.source == x && e.sourceHandle == h {
      forall p | p in OutLinks(r, x, h) ensures p in OutLinks(edges, x, h) - {(e.target, e.jumpBack)} + {(e1.target, e1.jumpBack)} {
        var m :| 0 <= m < |r| && r[m].source == x && r[m].sourceHandle == h && (r[m].target, r[m].jumpBack) == p;
        if m != k {
          assert r[m] == edges[m];
        }
      }
      forall p | p in OutLinks(edges, x, h) - {(e.target, e.jumpBack)} + {(e1.target, e1.jumpBack)} ensures p in OutLinks(r, x, h) {
        if p == (e1.target, e1.jumpBack) {
          assert r[k] == e1;
        } else {
          var m :| 0 <= m < |edges| && edges[m].source == x && edges[m].sourceHandle == h && (edges[m].target, edges[m].jumpBack) == p;
          assert m != k;
          assert r[m] == edges[m];
        }
      }
    } else {
      forall p | p in OutLinks(r, x, h) ensures p in OutLinks(edges, x, h) {
        var m :| 0 <= m < |r| && r[m].source == x && r[m].sourceHandle == h && (r[m].target, r[m].jumpBack) == p;
        assert m != k && r[m] == edges[m];
      }
      forall p | p in OutLinks(edges, x, h) ensures p in OutLinks(r, x, h) {
        var m :| 0 <= m < |edges| && edges[m].source == x && edges[m].sourceHandle == h && (edges[m].target, edges[m].jumpBack) == p;
        assert m != k && r[m] == edges[m];
      }
    }
  }

  /** An edge from `s` and `h` to `t` is the one `FindEdge` finds. */
  lemma OutFind(edges: seq<Edge>, s: string, h: string, p: (string, bool))
    requires UniqueEdges(edges) && p in OutLinks(edges, s, h)
    ensures FindEdge(edges, s, p.0, h).Some? && edges[FindEdge(edges, s, p.0, h).value].jumpBack == p.1
  {
    var k :| 0 <= k < |edges| && edges[k].source == s && edges[k].sourceHandle == h && (edges[k].target, edges[k].jumpBack) == p;
    var f := FindEdge(edges, s, p.0, h).value;
    assert edges[f].source == edges[k].source && edges[f].target == edges[k].target;
    assert f == k;
  }

  /** With distinct ids, removing edge `k`'s id removes that edge only. */
  lemma UniqueRemoveAt(edges: seq<Edge>, k: nat)
    requires UniqueEdges(edges) && k < |edges|
    ensures RemoveEdges(edges, edges[k].id) == edges[..k] + edges[k + 1..]
  {
    forall m | 0 <= m < |edges| && m != k ensures edges[m].id != edges[k].id {
      if m < k {
        assert edges[m].id != edges[k].id;
      } else {
        assert edges[k].id != edges[m].id;
      }
    }
    RemoveOnlyAt(edges, k);
  }

  /** When only edge `k` has its id, removing that id splices it out. */
  lemma {:induction false} RemoveOnlyAt(edges: seq<Edge>, k: nat)
    requires k < |edges|
    requires forall m :: 0 <= m < |edges| && m != k ==> edges[m].id != edges[k].id
    ensures RemoveEdges(edges, edges[k].id) == edges[..k] + edges[k + 1..]
    decreases k
  {
    var id := edges[k].id;
    var t := edges[1..];
    if k == 0 {
      forall m | 0 <= m < |t| ensures t[m].id != id {
        assert t[m] == edges[m + 1];
      }
      RemoveEdgesAbsent(t, id);
      assert edges[..0] + edges[1..] == t;
    } else {
      assert t[k - 1] == edges[k];
      forall m | 0 <= m < |t| && m != k - 1 ensures t[m].id != t[k - 1].id {
        assert t[m] == edges[m + 1];
      }
      RemoveOnlyAt(t, k - 1);
      assert edges[0].id != id;
      assert edges[..k] + edges[k + 1..] == [edges[0]] + (t[..k - 1] + t[k..]);
    }
  }

  lemma UniqueWithout(edges: seq<Edge>, k: nat)
    requires UniqueEdges(edges) && k < |edges|
    ensures UniqueEdges(edges[..k] + edges[k + 1..])
  {
    var r := edges[..k] + edges[k + 1..];
    forall i, j | 0 <= i < j < |r|
      ensures r[i].id != r[j].id &&
        !(r[i].source == r[j].source && r[i].target == r[j].target && r[i].sourceHandle == r[j].sourceHandle)
    {
      var i1, j1 := if i < k then i else i + 1, if j < k then j else j + 1;
      assert r[i] == edges[i1] && r[j] == edges[j1] && i1 < j1;
    }
  }

  lemma UniqueSnoc(edges: seq<Edge>, e: Edge)
    requires UniqueEdges(edges)
    requires forall k :: 0 <= k < |edges| ==> edges[k].id != e.id
    requires FindEdge(edges, e.source, e.target, e.sourceHandle).None?
    ensures UniqueEdges(edges + [e])
  {
    var r := edges + [e];
    assert forall k :: 0 <= k < |edges| ==> r[k] == edges[k];
  }

  lemma UniqueSetAt(edges: seq<Edge>, k: nat, e1: Edge)
    requires UniqueEdges(edges) && k < |edges|
    requires e1.id == edges[k].id && e1.source == edges[k].source && e1.target == edges[k].target &&
      e1.sourceHandle == edges[k].sourceHandle
    ensures UniqueEdges(edges[k := e1])
  {
    var r := edges[k := e1];
    assert forall m :: 0 <= m < |edges| ==>
      (r[m].id == edges[m].id && r[m].source == edges[m].source &&
       r[m].target == edges[m].target && r[m].sourceHandle == edges[m].sourceHandle);
  }

  // ---------------------------------------------------------------------------
  // Frames

  /** Edges that change nothing at any node's link handles keep the lists synced. */
  lemma SyncSame(nodes: seq<Node>, edges: seq<Edge>, edges1: seq<Edge>)
    requires LinksSynced(nodes, edges)
    requires forall j :: 0 <= j < |nodes| ==>
      OutLinks(edges1, nodes[j].id, SOURCE_A) == OutLinks(edges, nodes[j].id, SOURCE_A) &&
      OutLinks(edges1, nodes[j].id, SOURCE_C) == OutLinks(edges, nodes[j].id, SOURCE_C)
    ensures LinksSynced(nodes, edges1)
  {
  }

  /** One node's field for handle `h` and the edges leaving it from `h` change
      together; every other node, field and handle is left alone. */
  lemma SyncAt(nodes: seq<Node>, edges: seq<Edge>, edges1: seq<Edge>, i: nat, h: string, items1: seq<Value>)
    requires UniqueIds(nodes) && LinksSynced(nodes, edges)
    requires i < |nodes| && (h == SOURCE_A || h == SOURCE_C)
    requires forall x, h1 :: x != nodes[i].id || h1 != h ==> OutLinks(edges1, x, h1) == OutLinks(edges, x, h1)
    requires GoodList(items1) && ListPairs(items1) == OutLinks(edges1, nodes[i].id, h)
    ensures var nodes1 := nodes[i := WithData(nodes[i], nodes[i].meta.data[FieldOf(h) := Arr(items1)])];
      UniqueIds(nodes1) && LinksSynced(nodes1, edges1)
  {
    var nodes1 := nodes[i := WithData(nodes[i], nodes[i].meta.data[FieldOf(h) := Arr(items1)])];
    forall j | 0 <= j < |nodes1| ensures PortSynced(nodes1[j], edges1, SOURCE_A) && PortSynced(nodes1[j], edges1, SOURCE_C) {
      if j != i {
        assert nodes1[j] == nodes[j];
        assert nodes[j].id != nodes[i].id;
      } else {
        assert FieldList(nodes1[i].meta.data, FieldOf(h)) == items1;
        var h1 := if h == SOURCE_A then SOURCE_C else SOURCE_A;
        assert FieldList(nodes1[i].meta.data, FieldOf(h1)) == FieldList(nodes[i].meta.data, FieldOf(h1));
        assert OutLinks(edges1, nodes[i].id, h1) == OutLinks(edges, nodes[i].id, h1);
      }
    }
    assert forall j :: 0 <= j < |nodes| ==> nodes1[j].id == nodes[j].id;
  }

  // ---------------------------------------------------------------------------
  // Removing a link

  /** Edge `k` leaves a node that holds no link list for its handle: removing
      it keeps the lists synced. */
  lemma DropFrame(nodes: seq<Node>, edges: seq<Edge>, k: nat)
    requires UniqueIds(nodes) && UniqueEdges(edges) && LinksSynced(nodes, edges) && k < |edges|
    requires (edges[k].sourceHandle != SOURCE_A && edges[k].sourceHandle != SOURCE_C) ||
      forall j :: 0 <= j < |nodes| ==> nodes[j].id != edges[k].source
    ensures LinksSynced(nodes, edges[..k] + edges[k + 1..])
  {
    forall j | 0 <= j < |nodes|
      ensures OutLinks(edges[..k] + edges[k + 1..], nodes[j].id, SOURCE_A) == OutLinks(edges, nodes[j].id, SOURCE_A) &&
        OutLinks(edges[..k] + edges[k + 1..], nodes[j].id, SOURCE_C) == OutLinks(edges, nodes[j].id, SOURCE_C)
    {
      OutRemoveAt(edges, k, nodes[j].id, SOURCE_A);
      OutRemoveAt(edges, k, nodes[j].id, SOURCE_C);
    }
    SyncSame(nodes, edges, edges[..k] + edges[k + 1..]);
  }

  /** Removing edge `k` and splicing its entry out of its source's list keeps
      the lists synced: the entry `FirstMatch` finds is the one for that edge. */
  lemma DropLink(nodes: seq<Node>, edges: seq<Edge>, i: nat, k: nat, stored: string) returns (items1: seq<Value>)
    requires UniqueIds(nodes) && UniqueEdges(edges) && LinksSynced(nodes, edges)
    requires i < |nodes| && k < |edges| && nodes[i].id == edges[k].source
    requires edges[k].sourceHandle == SOURCE_A || edges[k].sourceHandle == SOURCE_C
    ensures var h := edges[k].sourceHandle;
      items1 == UpdateList(FieldList(nodes[i].meta.data, FieldOf(h)), edges[k].target, stored, false) &&
      var nodes1 := nodes[i := WithData(nodes[i], nodes[i].meta.data[FieldOf(h) := Arr(items1)])];
      UniqueIds(nodes1) && LinksSynced(nodes1, edges[..k] + edges[k + 1..])
  {
    var e := edges[k];
    var h := e.sourceHandle;
    var items := FieldList(nodes[i].meta.data, FieldOf(h));
    assert PortSynced(nodes[i], edges, h);
    var p := (e.target, e.jumpBack);
    assert p in OutLinks(edges, e.source, h);
    ListFind(items, p);
    var m := FirstMatch(items, e.target).value;
    items1 := items[..m] + items[m + 1..];
    ListRemoveAt(items, m);
    var edges1 := edges[..k] + edges[k + 1..];
    forall x, h1 | x != nodes[i].id || h1 != h ensures OutLinks(edges1, x, h1) == OutLinks(edges, x, h1) {
      OutRemoveAt(edges, k, x, h1);
    }
    OutRemoveAt(edges, k, e.source, h);
    SyncAt(nodes, edges, edges1, i, h, items1);
  }

  // ---------------------------------------------------------------------------
  // The operations keep the invariant

  /** `handleConnect` on an existing edge: the edge and its entry go together. */
  lemma ConnectOffSynced(g: Graph, c: Connection, id: string, k: nat)
    requires Synced(g)
    requires FindEdge(g.edges, c.source, c.target, c.sourceHandle) == Some(k)
    ensures Synced(Connect(g, c, id))
  {
    UniqueRemoveAt(g.edges, k);
    UniqueWithout(g.edges, k);
    var port := PortOf(c.sourceHandle);
    var i := FindIndex(g.nodes, c.source);
    if port.None? || i.None? {
      DropFrame(g.nodes, g.edges, k);
    } else {
      var anchor := IsAnchorNode(FindNode(g.nodes, c.target));
      var items1 := DropLink(g.nodes, g.edges, i.value, k, BuildLinkId(c.target, anchor, false));
      ConnectOff(g, c, id, i.value, k, items1);
    }
  }

  /** `handleConnect` on a new pair: the edge and its entry arrive together. */
  lemma ConnectOnSynced(g: Graph, c: Connection, id: string)
    requires Synced(g)
    requires FindEdge(g.edges, c.source, c.target, c.sourceHandle).None?
    requires NoMarkers(c.target)
    requires forall k :: 0 <= k < |g.edges| ==> g.edges[k].id != id
    ensures Synced(Connect(g, c, id))
  {
    var e := NewEdge(c, id);
    var h := c.sourceHandle;
    var edges1 := g.edges + [e];
    UniqueSnoc(g.edges, e);
    forall x, h1 | x != c.source || h1 != h ensures OutLinks(edges1, x, h1) == OutLinks(g.edges, x, h1) {
      OutSnoc(g.edges, e, x, h1);
    }
    OutSnoc(g.edges, e, c.source, h);
    var port := PortOf(h);
    var i := FindIndex(g.nodes, c.source);
    if port.None? || i.None? {
      SyncSame(g.nodes, g.edges, edges1);
    } else {
      var n := g.nodes[i.value];
      var items := FieldList(n.meta.data, FieldOf(h));
      assert PortSynced(n, g.edges, h);
      var anchor := IsAnchorNode(FindNode(g.nodes, c.target));
      var stored := BuildLinkId(c.target, anchor, false);
      if FirstMatch(items, c.target).Some? {
        var m := FirstMatch(items, c.target).value;
        assert LinkPair(items[m]) in OutLinks(g.edges, c.source, h);
        OutFind(g.edges, c.source, h, LinkPair(items[m]));
        assert false;
      }
      ListAdd(items, c.target, anchor, false);
      var items1 := items + [Str(stored)];
      ListSnoc(items, Str(stored));
      SyncAt(g.nodes, g.edges, edges1, i.value, h, items1);
      ConnectOn(g, c, id, i.value, items1);
    }
  }

  /** `handleConnect` keeps the document and the edges in step, provided the
      new edge's id is fresh and the target's id holds no marker text. */
  lemma ConnectSynced(g: Graph, c: Connection, id: string)
    requires Synced(g)
    requires NoMarkers(c.target)
    requires forall k :: 0 <= k < |g.edges| ==> g.edges[k].id != id
    ensures Synced(Connect(g, c, id))
  {
    match FindEdge(g.edges, c.source, c.target, c.sourceHandle)
    case Some(k) =>
      ConnectOffSynced(g, c, id, k);
    case None =>
      ConnectOnSynced(g, c, id);
  }

  /** Connecting a new pair from a link port of an existing node: the new
      edge is the last one and the one `FindEdge` now finds, and the port's
      field gains exactly the plain link to the target. */
  lemma ConnectAddsLink(g: Graph, c: Connection, id: string, i: nat)
    requires Synced(g)
    requires FindEdge(g.edges, c.source, c.target, c.sourceHandle).None?
    requires NoMarkers(c.target)
    requires forall k :: 0 <= k < |g.edges| ==> g.edges[k].id != id
    requires c.sourceHandle == SOURCE_A || c.sourceHandle == SOURCE_C
    requires FindIndex(g.nodes, c.source) == Some(i)
    ensures var r := Connect(g, c, id);
      var f := FieldOf(c.sourceHandle);
      r.edges == g.edges + [NewEdge(c, id)] &&
      FindEdge(r.edges, c.source, c.target, c.sourceHandle) == Some(|g.edges|) &&
      |r.nodes| == |g.nodes| && r.nodes[i].id == c.source &&
      ListPairs(FieldList(r.nodes[i].meta.data, f)) == ListPairs(FieldList(g.nodes[i].meta.data, f)) + {(c.target, false)}
  {
    var r := Connect(g, c, id);
    var h := c.sourceHandle;
    PortField(h);
    ConnectOnSynced(g, c, id);
    FindEdgeAppend(g.edges, NewEdge(c, id), c.source, c.target, h);
    OutSnoc(g.edges, NewEdge(c, id), c.source, h);
    assert PortSynced(g.nodes[i], g.edges, h);
    assert PortSynced(r.nodes[i], r.edges, h);
  }

  /** Connecting a pair that has edge `k` from a link port of an existing
      node: that edge and every edge with its id are gone, `FindEdge` finds
      no edge for the pair any more, and the port's field loses exactly the
      edge's link. */
  lemma ConnectRemovesLink(g: Graph, c: Connection, id: string, i: nat, k: nat)
    requires Synced(g)
    requires FindEdge(g.edges, c.source, c.target, c.sourceHandle) == Some(k)
    requires c.sourceHandle == SOURCE_A || c.sourceHandle == SOURCE_C
    requires FindIndex(g.nodes, c.source) == Some(i)
    ensures var r := Connect(g, c, id);
      var f := FieldOf(c.sourceHandle);
      r.edges == g.edges[..k] + g.edges[k + 1..] &&
      (forall m :: 0 <= m < |r.edges| ==> r.edges[m].id != g.edges[k].id) &&
      FindEdge(r.edges, c.source, c.target, c.sourceHandle).None? &&
      |r.nodes| == |g.nodes| && r.nodes[i].id == c.source &&
      ListPairs(FieldList(r.nodes[i].meta.data, f)) ==
        ListPairs(FieldList(g.nodes[i].meta.data, f)) - {(c.target, g.edges[k].jumpBack)}
  {
    var r := Connect(g, c, id);
    var h := c.sourceHandle;
    PortField(h);
    ConnectOffSynced(g, c, id, k);
    UniqueRemoveAt(g.edges, k);
    OutRemoveAt(g.edges, k, c.source, h);
    SpliceGone(g.edges, k);
    assert PortSynced(g.nodes[i], g.edges, h);
    assert PortSynced(r.nodes[i], r.edges, h);
  }

  /** With distinct edges, splicing out edge `k` leaves no edge with its id
      and none for its pair. */
  lemma SpliceGone(edges: seq<Edge>, k: nat)
    requires UniqueEdges(edges) && k < |edges|
    ensures var r := edges[..k] + edges[k + 1..];
      var e := edges[k];
      (forall m :: 0 <= m < |r| ==> r[m].id != e.id) &&
      FindEdge(r, e.source, e.target, e.sourceHandle).None?
  {
    var r := edges[..k] + edges[k + 1..];
    var e := edges[k];
    forall m | 0 <= m < |r|
      ensures r[m].id != e.id && !(r[m].source == e.source && r[m].target == e.target && r[m].sourceHandle == e.sourceHandle)
    {
      var n := if m < k then m else m + 1;
      assert r[m] == edges[n];
    }
  }

  /** An edge removed in vue-flow, with its entry removed by `handleEdgesChange`:
      the document and the edges stay in step. */
  lemma RemoveSynced(g: Graph, id: string)
    requires Synced(g)
    ensures Synced(Graph(ApplyEdgeChange(g.nodes, g.edges, RemoveChange(id)), RemoveEdges(g.edges, id)))
  {
    match FindEdgeById(g.edges, id)
    case None =>
      RemoveEdgesAbsent(g.edges, id);
    case Some(k) =>
      var e := g.edges[k];
      UniqueRemoveAt(g.edges, k);
      UniqueWithout(g.edges, k);
      var port := PortOf(e.sourceHandle);
      var i := FindIndex(g.nodes, e.source);
      if port.None? || i.None? {
        DropFrame(g.nodes, g.edges, k);
      } else {
        var anchor := IsAnchorNode(FindNode(g.nodes, e.target));
        var items1 := DropLink(g.nodes, g.edges, i.value, k, BuildLinkId(e.target, anchor, false));
        assert ApplyEdgeChange(g.nodes, g.edges, RemoveChange(id)) ==
          g.nodes[i.value := WithData(g.nodes[i.value], g.nodes[i.value].meta.data[FieldOf(e.sourceHandle) := Arr(items1)])];
      }
  }

  /** `setEdgeJumpBack` rewrites the edge's flag and its entry's marker together. */
  lemma JumpBackSynced(g: Graph, edgeId: string, isJumpBack: bool)
    requires Synced(g)
    requires forall k :: 0 <= k < |g.edges| && g.edges[k].id == edgeId ==> NoMarkers(g.edges[k].target)
    ensures Synced(SetEdgeJumpBack(g, edgeId, isJumpBack))
  {
    match FindEdgeById(g.edges, edgeId)
    case None =>
    case Some(k) =>
      var e := g.edges[k];
      var h := e.sourceHandle;
      var e1 := e.(jumpBack := isJumpBack, edgeLabel := EdgeLabel(h, isJumpBack));
      var edges1 := g.edges[k := e1];
      UniqueSetAt(g.edges, k, e1);
      forall x, h1 | x != e.source || h1 != h ensures OutLinks(edges1, x, h1) == OutLinks(g.edges, x, h1) {
        OutSetAt(g.edges, k, e1, x, h1);
      }
      OutSetAt(g.edges, k, e1, e.source, h);
      var port := PortOf(h);
      var i := FindIndex(g.nodes, e.source);
      if port.None? || i.None? {
        SyncSame(g.nodes, g.edges, edges1);
      } else {
        var n := g.nodes[i.value];
        var items := FieldList(n.meta.data, FieldOf(h));
        assert PortSynced(n, g.edges, h);
        assert (e.target, e.jumpBack) in OutLinks(g.edges, e.source, h);
        ListFind(items, (e.target, e.jumpBack));
        var m := FirstMatch(items, e.target).value;
        var anchor := IsAnchorNode(FindNode(g.nodes, e.target));
        var stored := BuildLinkId(e.target, anchor, isJumpBack);
        ListAdd(items, e.target, anchor, isJumpBack);
        var items1 := items[m := Str(stored)];
        ListSetAt(items, m, Str(stored));
        SyncAt(g.nodes, g.edges, edges1, i.value, h, items1);
        assert SetEdgeJumpBack(g, edgeId, isJumpBack) ==
          Graph(g.nodes[i.value := WithData(n, n.meta.data[FieldOf(h) := Arr(items1)])], edges1);
      }
  }
}
