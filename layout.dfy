/** Layout of the graph (src/utils/useLayout.ts): the spacing presets, the
    node boxes and edge order handed to the dagre layout engine, the
    conversion of dagre's centres into top-left positions, and the ordered
    task-chain layout.

    dagre itself is a parameter: a function from the node boxes, the edges
    in insertion order and the spacing to a centre per node id. What vue-flow
    has measured of each node is a parameter too. */
module Layout {
  import opened Json
  import opened FlowTypes
  import opened ChainTraversal
  import LinkCodec

  // ---------------------------------------------------------------------------
  // Spacing

  datatype Spacing = Spacing(ranksep: real, nodesep: real)

  const COMPACT := Spacing(80.0, 120.0)
  const NORMAL := Spacing(120.0, 180.0)
  const LOOSE := Spacing(300.0, 300.0)

  /** `getSpacingConfig`: one of the three presets, `normal` for every key
      other than `compact` and `loose`. */
  function GetSpacingConfig(key: string): (r: Spacing)
    ensures r == COMPACT || r == NORMAL || r == LOOSE
    ensures r == NORMAL <==> key != "compact" && key != "loose"
    ensures key == "compact" ==> r == COMPACT
    ensures key == "loose" ==> r == LOOSE
  {
    if key == "compact" then COMPACT
    else if key == "loose" then LOOSE
    else NORMAL
  }

  /** The argument of `resolveSpacing`: a preset key, a spacing object, or nothing. */
  datatype SpacingArg = ByKey(key: string) | ByValue(spacing: Spacing) | NoSpacing

  /** `resolveSpacing`: an object is used as it is, a key names a preset,
      and nothing means `normal`. */
  function ResolveSpacing(arg: SpacingArg): (r: Spacing)
    ensures arg.ByValue? ==> r == arg.spacing
    ensures !arg.ByValue? ==> r == COMPACT || r == NORMAL || r == LOOSE
    ensures arg.NoSpacing? ==> r == NORMAL
  {
    match arg
    case ByKey(k) => GetSpacingConfig(k)
    case ByValue(s) => s
    case NoSpacing => GetSpacingConfig("normal")
  }

  // ---------------------------------------------------------------------------
  // Node boxes

  const FALLBACK_WIDTH: real := 280.0
  const FALLBACK_HEIGHT: real := 150.0
  const EXTRA_WIDTH: real := 20.0
  const EXTRA_HEIGHT: real := 20.0

  /** The dimensions vue-flow reports for a rendered node; either may be missing. */
  datatype Dims = Dims(width: Option<real>, height: Option<real>)

  /** What vue-flow knows of the node with a given id: nothing when it has no such node. */
  type Measure = string -> Option<Dims>

  datatype NodeBox = NodeBox(id: string, width: real, height: real)

  /** `a ?? fallback` for a measured dimension. */
  function Nullish(v: Option<real>, fallback: real): real {
    if v.Some? then v.value else fallback
  }

  function MeasuredWidth(m: Option<Dims>): Option<real> {
    if m.Some? then m.value.width else None
  }

  function MeasuredHeight(m: Option<Dims>): Option<real> {
    if m.Some? then m.value.height else None
  }

  /** The box given to dagre: the measured size (the fallback when a
      dimension is missing, but a measured 0 is kept) plus the padding. */
  function BoxOf(id: string, m: Option<Dims>): (b: NodeBox)
    ensures b.id == id
    ensures b.width - EXTRA_WIDTH == (if MeasuredWidth(m).Some? then MeasuredWidth(m).value else FALLBACK_WIDTH)
    ensures b.height - EXTRA_HEIGHT == (if MeasuredHeight(m).Some? then MeasuredHeight(m).value else FALLBACK_HEIGHT)
  {
    NodeBox(id, Nullish(MeasuredWidth(m), FALLBACK_WIDTH) + EXTRA_WIDTH,
                Nullish(MeasuredHeight(m), FALLBACK_HEIGHT) + EXTRA_HEIGHT)
  }

  function Boxes(nodes: seq<Node>, measure: Measure): (r: seq<NodeBox>)
    ensures |r| == |nodes|
    ensures forall i :: 0 <= i < |nodes| ==> r[i] == BoxOf(nodes[i].id, measure(nodes[i].id))
  {
    seq(|nodes|, i requires 0 <= i < |nodes| => BoxOf(nodes[i].id, measure(nodes[i].id)))
  }

  // ---------------------------------------------------------------------------
  // Edge order

  /** `handleOrder[h] ?? 2`: `source-a` first, `source-c` last, any other
      handle (a null handle is '') in between. */
  function HandleWeight(h: string): (w: nat)
    ensures 1 <= w <= 3
    ensures w == 1 <==> h == "source-a"
    ensures w == 3 <==> h == "source-c"
  {
    if h == "source-a" then 1 else if h == "source-c" then 3 else 2
  }

  function Weight(e: Edge): nat {
    HandleWeight(e.sourceHandle)
  }

  /** The edges of weight `w`, in their order. */
  function WithWeight(edges: seq<Edge>, w: nat): seq<Edge>
    decreases |edges|
  {
    if edges == [] then []
    else (if Weight(edges[0]) == w then [edges[0]] else []) + WithWeight(edges[1..], w)
  }

  /** `[...edges].sort((a, b) => weight(a) - weight(b))`. `Array.prototype.sort`
      is stable, so with three weights its result is the edges of each
      weight in turn, each group in its original order. */
  function SortByWeight(edges: seq<Edge>): seq<Edge> {
    WithWeight(edges, 1) + WithWeight(edges, 2) + WithWeight(edges, 3)
  }

  lemma {:induction false} WithWeightAppend(a: seq<Edge>, b: seq<Edge>, w: nat)
    ensures WithWeight(a + b, w) == WithWeight(a, w) + WithWeight(b, w)
    decreases |a|
  {
    if a == [] {
      assert a + b == b;
    } else {
      assert (a + b)[0] == a[0];
      assert (a + b)[1..] == a[1..] + b;
      WithWeightAppend(a[1..], b, w);
    }
  }

  lemma {:induction false} WithWeightOf(edges: seq<Edge>, v: nat, w: nat)
    ensures WithWeight(WithWeight(edges, v), w) == if v == w then WithWeight(edges, v) else []
    decreases |edges|
  {
    if edges != [] {
      var head: seq<Edge> := if Weight(edges[0]) == v then [edges[0]] else [];
      WithWeightAppend(head, WithWeight(edges[1..], v), w);
      WithWeightOf(edges[1..], v, w);
      if Weight(edges[0]) == v {
        assert head[1..] == [];
        assert WithWeight(head, w) == (if v == w then head else []) by {
          assert WithWeight(head[1..], w) == [];
        }
      }
    }
  }

  lemma {:induction false} WithWeightAll(edges: seq<Edge>, w: nat)
    ensures forall k :: 0 <= k < |WithWeight(edges, w)| ==> Weight(WithWeight(edges, w)[k]) == w
    decreases |edges|
  {
    if edges != [] {
      WithWeightAll(edges[1..], w);
    }
  }

  /** The sorted edges are in non-decreasing weight. */
  lemma SortedByWeight(edges: seq<Edge>)
    ensures var r := SortByWeight(edges);
      forall i, j :: 0 <= i < j < |r| ==> Weight(r[i]) <= Weight(r[j])
  {
    var a, b, c := WithWeight(edges, 1), WithWeight(edges, 2), WithWeight(edges, 3);
    WithWeightAll(edges, 1);
    WithWeightAll(edges, 2);
    WithWeightAll(edges, 3);
    var r := SortByWeight(edges);
    forall i | 0 <= i < |r| ensures Weight(r[i]) == (if i < |a| then 1 else if i < |a| + |b| then 2 else 3) {
      if i < |a| {
        assert r[i] == a[i];
      } else if i < |a| + |b| {
        assert r[i] == b[i - |a|];
      } else {
        assert r[i] == c[i - |a| - |b|];
      }
    }
  }

  lemma {:induction false} WithWeightSplit(edges: seq<Edge>)
    ensures multiset(edges) == multiset(WithWeight(edges, 1)) + multiset(WithWeight(edges, 2)) + multiset(WithWeight(edges, 3))
    decreases |edges|
  {
    if edges != [] {
      var e, rest := edges[0], edges[1..];
      WithWeightSplit(rest);
      MultisetHead(edges);
      var w := Weight(e);
      WithWeightHead(edges, 1);
      WithWeightHead(edges, 2);
      WithWeightHead(edges, 3);
      SplitStep(e, w, multiset(rest), multiset(WithWeight(rest, 1)), multiset(WithWeight(rest, 2)), multiset(WithWeight(rest, 3)),
                multiset(WithWeight(edges, 1)), multiset(WithWeight(edges, 2)), multiset(WithWeight(edges, 3)));
    }
  }

  lemma MultisetHead<T>(s: seq<T>)
    requires s != []
    ensures multiset(s) == multiset{s[0]} + multiset(s[1..])
  {
    assert s == [s[0]] + s[1..];
  }

  /** The multiset bookkeeping of one step of WithWeightSplit. */
  lemma SplitStep(e: Edge, w: nat, rest: multiset<Edge>, r1: multiset<Edge>, r2: multiset<Edge>, r3: multiset<Edge>,
                  a1: multiset<Edge>, a2: multiset<Edge>, a3: multiset<Edge>)
    requires 1 <= w <= 3 && rest == r1 + r2 + r3
    requires a1 == (if w == 1 then multiset{e} else multiset{}) + r1
    requires a2 == (if w == 2 then multiset{e} else multiset{}) + r2
    requires a3 == (if w == 3 then multiset{e} else multiset{}) + r3
    ensures multiset{e} + rest == a1 + a2 + a3
  {
  }

  lemma WithWeightHead(edges: seq<Edge>, v: nat)
    requires edges != []
    ensures multiset(WithWeight(edges, v)) ==
      (if Weight(edges[0]) == v then multiset{edges[0]} else multiset{}) + multiset(WithWeight(edges[1..], v))
  {
  }

  /** Sorting neither loses nor adds an edge. */
  lemma SortPermutation(edges: seq<Edge>)
    ensures multiset(SortByWeight(edges)) == multiset(edges)
  {
    WithWeightSplit(edges);
  }

  /** Sorting keeps the relative order of the edges of each weight. */
  lemma SortStable(edges: seq<Edge>, w: nat)
    ensures WithWeight(SortByWeight(edges), w) == WithWeight(edges, w)
  {
    var a, b, c := WithWeight(edges, 1), WithWeight(edges, 2), WithWeight(edges, 3);
    WithWeightAppend(a + b, c, w);
    WithWeightAppend(a, b, w);
    WithWeightOf(edges, 1, w);
    WithWeightOf(edges, 2, w);
    WithWeightOf(edges, 3, w);
    if w < 1 || w > 3 {
      WithWeightNone(edges, w);
    }
  }

  lemma {:induction false} WithWeightNone(edges: seq<Edge>, w: nat)
    requires w < 1 || w > 3
    ensures WithWeight(edges, w) == []
    decreases |edges|
  {
    if edges != [] {
      WithWeightNone(edges[1..], w);
    }
  }

  // ---------------------------------------------------------------------------
  // The general layout

  /** dagre, as seen from here: from the boxes (in insertion order), the
      edges as (source, target) pairs in insertion order, and the spacing, to
      the centre of each node it placed. */
  type Dagre = (seq<NodeBox>, seq<(string, string)>, Spacing) -> map<string, Point>

  function EdgePairs(edges: seq<Edge>): (r: seq<(string, string)>)
    ensures |r| == |edges|
    ensures forall i :: 0 <= i < |edges| ==> r[i] == (edges[i].source, edges[i].target)
  {
    seq(|edges|, i requires 0 <= i < |edges| => (edges[i].source, edges[i].target))
  }

  /** The position of a node of box `b` whose centre dagre put at `c`. */
  function TopLeft(c: Point, b: NodeBox): Point {
    Point(c.x - b.width / 2.0, c.y - b.height / 2.0)
  }

  /** The position `layout` gives the node with this id: its top-left corner,
      or the origin when dagre has no centre for it. */
  function Placement(centres: map<string, Point>, id: string, m: Option<Dims>): Point {
    if id in centres then TopLeft(centres[id], BoxOf(id, m)) else Point(0.0, 0.0)
  }

  /** `layout(nodes, edges, options)`: every node keeps its id and meta and
      gets the position dagre computed for its box; order and count are kept. */
  function Layout(nodes: seq<Node>, edges: seq<Edge>, spacing: Spacing, measure: Measure, dagre: Dagre): (r: seq<Node>)
    ensures |r| == |nodes|
  {
    var centres := dagre(Boxes(nodes, measure), EdgePairs(SortByWeight(edges)), spacing);
    seq(|nodes|, i requires 0 <= i < |nodes| =>
      nodes[i].(position := Placement(centres, nodes[i].id, measure(nodes[i].id))))
  }

  /** Each node keeps its id and meta and gets the top-left corner of the
      box dagre centred. */
  lemma LayoutSpec(nodes: seq<Node>, edges: seq<Edge>, spacing: Spacing, measure: Measure, dagre: Dagre)
    ensures var r := Layout(nodes, edges, spacing, measure, dagre);
      var centres := dagre(Boxes(nodes, measure), EdgePairs(SortByWeight(edges)), spacing);
      forall i :: 0 <= i < |nodes| ==>
        r[i].id == nodes[i].id && r[i].meta == nodes[i].meta &&
        r[i].position == Placement(centres, nodes[i].id, measure(nodes[i].id))
  {
  }

  /** The conversion is the inverse of taking a box's centre: the centre of
      the placed box is the centre dagre computed. */
  lemma PlacementCentred(centres: map<string, Point>, id: string, m: Option<Dims>)
    requires id in centres
    ensures var p := Placement(centres, id, m);
      var b := BoxOf(id, m);
      p.x + b.width / 2.0 == centres[id].x && p.y + b.height / 2.0 == centres[id].y
  {
  }

  // ---------------------------------------------------------------------------
  // Chain targets

  /** One element of a link list as the chain layout reads it: a leading
      `[JumpBack]` is dropped once, `null` becomes '', anything else its
      `String()` text. An `[Anchor]` marker is kept. */
  function ChainText(v: Value): string {
    if v.Str? && StartsWith(v.s, LinkCodec.JUMP_BACK) then v.s[|LinkCodec.JUMP_BACK|..]
    else if v.Null? then ""
    else JsString(v)
  }

  /** The texts of the elements, empty ones dropped, order kept. */
  function ChainList(items: seq<Value>): (r: seq<string>)
    ensures |r| <= |items|
    ensures forall k :: 0 <= k < |r| ==> r[k] != ""
    decreases |items|
  {
    if items == [] then []
    else
      var t := ChainText(items[0]);
      (if t == "" then [] else [t]) + ChainList(items[1..])
  }

  /** `normalizeChainTargets(val)`; `None` is `undefined`. */
  function NormalizeChainTargets(val: Option<Value>): (r: seq<string>)
    ensures forall k :: 0 <= k < |r| ==> r[k] != ""
    ensures val == Some(Num("0")) ==> r == ["0"]
    ensures val != Some(Num("0")) && (val.None? || !JsTruthy(val.value)) ==> r == []
  {
    if val == Some(Num("0")) then ["0"]
    else if val.None? || !JsTruthy(val.value) then []
    else ChainList(if val.value.Arr? then val.value.items else [val.value])
  }

  predicate PlainId(t: string) {
    t != "" && LinkCodec.NoMarkers(t)
  }

  /** A list of plain ids is read back as it is, in order. */
  lemma {:induction false} ChainListOfIds(items: seq<Value>)
    requires forall k :: 0 <= k < |items| ==> items[k].Str? && PlainId(items[k].s)
    ensures |ChainList(items)| == |items|
    ensures forall k :: 0 <= k < |items| ==> ChainList(items)[k] == items[k].s
    decreases |items|
  {
    if items != [] {
      var t := items[0].s;
      ChainListOfIds(items[1..]);
    }
  }

  /** A single id, not in a list, is wrapped. */
  lemma ChainScalarId(t: string)
    requires PlainId(t) && t != "0"
    ensures NormalizeChainTargets(Some(Str(t))) == [t]
  {
    var items: seq<Value> := [Str(t)];
    ChainListOfIds(items);
  }

  /** A JumpBack link is followed to its target, but only one leading marker
      is dropped, and an `[Anchor]` marker stays in the id, so such a child
      names no node. */
  lemma ChainTextOfLinks(t: string)
    ensures ChainText(Str(LinkCodec.BuildLinkId(t, false, true))) == t
    ensures ChainText(Str(LinkCodec.BuildLinkId(t, true, true))) == LinkCodec.ANCHOR + t
    ensures ChainText(Str(LinkCodec.JUMP_BACK + LinkCodec.JUMP_BACK + t)) == LinkCodec.JUMP_BACK + t
  {
    var j := LinkCodec.JUMP_BACK;
    assert LinkCodec.BuildLinkId(t, false, true) == j + t;
    assert (j + t)[|j|..] == t;
    assert LinkCodec.BuildLinkId(t, true, true) == j + (LinkCodec.ANCHOR + t);
    assert (j + (LinkCodec.ANCHOR + t))[..|j|] == j;
    assert (j + (LinkCodec.ANCHOR + t))[|j|..] == LinkCodec.ANCHOR + t;
    assert j + j + t == j + (j + t);
    assert (j + (j + t))[..|j|] == j;
    assert (j + (j + t))[|j|..] == j + t;
  }

  // ---------------------------------------------------------------------------
  // The ordered chain layout

  /** The ordered children of a node: its `next` targets, then its `on_error` targets. */
  function NodeChildren(n: Node): seq<string> {
    NormalizeChainTargets(Get(n.meta.data, "next")) + NormalizeChainTargets(Get(n.meta.data, "on_error"))
  }

  /** The children of an id, through `findNode`; an id naming no node has none. */
  function ChildrenIn(nodes: seq<Node>, id: string): seq<string> {
    match FindNode(nodes, id)
    case None => []
    case Some(n) => NodeChildren(n)
  }

  function ChildFn(nodes: seq<Node>): string -> seq<string> {
    id => ChildrenIn(nodes, id)
  }

  function IdKey(): string -> string {
    s => s
  }

  /** Every child of every node. */
  function AllTargets(nodes: seq<Node>): set<string>
    decreases |nodes|
  {
    if nodes == [] then {} else AllTargets(nodes[..|nodes| - 1]) + Elems(NodeChildren(nodes[|nodes| - 1]))
  }

  /** Every id the walk can reach: the root and every child of every node. */
  function Universe(nodes: seq<Node>, root: string): set<string> {
    {root} + AllTargets(nodes)
  }

  lemma {:induction false} AllTargetsHas(nodes: seq<Node>, i: nat, c: string)
    requires i < |nodes| && c in NodeChildren(nodes[i])
    ensures c in AllTargets(nodes)
    decreases |nodes|
  {
    if i < |nodes| - 1 {
      AllTargetsHas(nodes[..|nodes| - 1], i, c);
    }
  }

  lemma UniverseClosed(nodes: seq<Node>, root: string)
    ensures root in Universe(nodes, root)
    ensures Closed(ChildFn(nodes), Universe(nodes, root))
  {
    forall t, c | c in ChildFn(nodes)(t) ensures c in Universe(nodes, root) {
      var i := FindIndex(nodes, t);
      assert i.Some?;
      AllTargetsHas(nodes, i.value, c);
    }
  }

  /** The nodes left out of the chain, in order. */
  function Unvisited(nodes: seq<Node>, visited: set<string>): (r: seq<Node>)
    ensures |r| <= |nodes|
    decreases |nodes|
  {
    if nodes == [] then []
    else (if nodes[0].id in visited then [] else [nodes[0]]) + Unvisited(nodes[1..], visited)
  }

  /** Exactly the nodes whose id was not visited are kept. */
  lemma {:induction false} UnvisitedSpec(nodes: seq<Node>, visited: set<string>)
    ensures var r := Unvisited(nodes, visited);
      (forall k :: 0 <= k < |r| ==> r[k] in nodes && r[k].id !in visited) &&
      (forall n :: n in nodes && n.id !in visited ==> n in r)
    decreases |nodes|
  {
    if nodes != [] {
      UnvisitedSpec(nodes[1..], visited);
      assert nodes == [nodes[0]] + nodes[1..];
    }
  }

  /** The edges with both ends among the given ids. */
  function EdgesWithin(edges: seq<Edge>, ids: set<string>): (r: seq<Edge>)
    ensures |r| <= |edges|
    decreases |edges|
  {
    if edges == [] then []
    else (if edges[0].source in ids && edges[0].target in ids then [edges[0]] else []) + EdgesWithin(edges[1..], ids)
  }

  /** Exactly the edges with both ends among the ids are kept. */
  lemma {:induction false} EdgesWithinSpec(edges: seq<Edge>, ids: set<string>)
    ensures var r := EdgesWithin(edges, ids);
      (forall k :: 0 <= k < |r| ==> r[k] in edges && r[k].source in ids && r[k].target in ids) &&
      (forall e :: e in edges && e.source in ids && e.target in ids ==> e in r)
    decreases |edges|
  {
    if edges != [] {
      EdgesWithinSpec(edges[1..], ids);
      assert edges == [edges[0]] + edges[1..];
    }
  }

  /** `remainingPositions` after the given laid-out nodes are shifted right by
      `offset`; a later node with the same id replaces an earlier one. */
  function Shifted(layouted: seq<Node>, offset: real): map<string, Point>
    decreases |layouted|
  {
    if layouted == [] then map[]
    else
      var n := layouted[|layouted| - 1];
      Shifted(layouted[..|layouted| - 1], offset)[n.id := Point(n.position.x + offset, n.position.y)]
  }

  /** `Math.max` of the x coordinates of the chain positions. */
  ghost predicate IsMaxX(m: real, ps: map<string, Point>) {
    (exists k :: k in ps && ps[k].x == m) && forall k :: k in ps ==> ps[k].x <= m
  }

  datatype ChainLayout = ChainLayout(
    chainPositions: map<string, Point>,
    remainingPositions: map<string, Point>,
    chainIds: set<string>)

  /** The walk from the root over this graph. */
  ghost function ChainWalk(nodes: seq<Node>, rootId: string): (seq<seq<string>>, set<string>) {
    UniverseClosed(nodes, rootId);
    Walk([rootId], {rootId}, ChildFn(nodes), Universe(nodes, rootId))
  }

  /** The general layout of the nodes left out of the chain, with the edges
      between them. */
  function RemainingLayout(nodes: seq<Node>, edges: seq<Edge>, visited: set<string>, spacing: Spacing,
                           measure: Measure, dagre: Dagre): seq<Node>
  {
    var remaining := Unvisited(nodes, visited);
    Layout(remaining, EdgesWithin(edges, Ids(remaining)), spacing, measure, dagre)
  }

  /** The chain positions the walk from the root leads to. */
  ghost function ChainOf(nodes: seq<Node>, rootId: string, spacing: Spacing): map<string, Point> {
    Placed(ChainWalk(nodes, rootId).0, IdKey(), Grid(spacing.nodesep, spacing.ranksep))
  }

  /** `remainingPositions` for nodes outside `visited`, shifted right by `offset`. */
  function RemainingOf(nodes: seq<Node>, edges: seq<Edge>, visited: set<string>, spacing: Spacing,
                       measure: Measure, dagre: Dagre, offset: real): map<string, Point>
  {
    if Unvisited(nodes, visited) == [] then map[]
    else Shifted(RemainingLayout(nodes, edges, visited, spacing, measure, dagre), offset)
  }

  /** The remaining positions are the other nodes' layout, shifted right of
      the chain by twice `nodesep`. */
  ghost predicate RemainingFits(c: ChainLayout, nodes: seq<Node>, edges: seq<Edge>, spacing: Spacing,
                                measure: Measure, dagre: Dagre)
  {
    exists m :: IsMaxX(m, c.chainPositions) &&
      c.remainingPositions == RemainingOf(nodes, edges, c.chainIds, spacing, measure, dagre, m + spacing.nodesep * 2.0)
  }

  lemma FitsIntro(chain: map<string, Point>, shifted: map<string, Point>, visited: set<string>,
                  nodes: seq<Node>, edges: seq<Edge>, spacing: Spacing, measure: Measure, dagre: Dagre,
                  m: real, offset: real)
    requires IsMaxX(m, chain) && offset == m + spacing.nodesep * 2.0
    requires shifted == RemainingOf(nodes, edges, visited, spacing, measure, dagre, offset)
    ensures RemainingFits(ChainLayout(chain, shifted, visited), nodes, edges, spacing, measure, dagre)
  {
  }

  method MaxX(ps: map<string, Point>) returns (m: real)
    requires ps != map[]
    ensures IsMaxX(m, ps)
  {
    var keys := ps.Keys;
    var k0 :| k0 in keys;
    m := ps[k0].x;
    keys := keys - {k0};
    while keys != {}
      invariant keys <= ps.Keys
      invariant exists k :: k in ps && ps[k].x == m
      invariant forall k :: k in ps && k !in keys ==> ps[k].x <= m
      decreases |keys|
    {
      var k :| k in keys;
      if ps[k].x > m {
        m := ps[k].x;
      }
      keys := keys - {k};
    }
  }

  /** The `layouted.forEach` that fills `remainingPositions`. */
  method ShiftAll(layouted: seq<Node>, offset: real) returns (ps: map<string, Point>)
    ensures ps == Shifted(layouted, offset)
  {
    ps := map[];
    for i := 0 to |layouted|
      invariant ps == Shifted(layouted[..i], offset)
    {
      assert layouted[..i + 1][..i] == layouted[..i];
      ps := ps[layouted[i].id := Point(layouted[i].position.x + offset, layouted[i].position.y)];
    }
    assert layouted[..|layouted|] == layouted;
  }

  /** The root is placed, at the origin. */
  lemma RootAtOrigin(nodes: seq<Node>, rootId: string, spacing: Spacing)
    ensures rootId in ChainOf(nodes, rootId, spacing)
    ensures ChainOf(nodes, rootId, spacing)[rootId] == Point(0.0, 0.0)
  {
    var w := ChainWalk(nodes, rootId);
    ChainStarts(nodes, rootId);
    ChainDistinct(nodes, rootId);
    RootPlaced(w.0, IdKey(), rootId, spacing.nodesep, spacing.ranksep);
    assert IdKey()(rootId) == rootId;
  }

  /** The walk begins with the level `[rootId]`. */
  lemma ChainStarts(nodes: seq<Node>, rootId: string)
    ensures |ChainWalk(nodes, rootId).0| >= 1 && ChainWalk(nodes, rootId).0[0] == [rootId]
  {
    UniverseClosed(nodes, rootId);
    WalkStarts([rootId], {rootId}, ChildFn(nodes), Universe(nodes, rootId));
  }

  lemma KeysOfIdentity(s: seq<string>)
    ensures KeysOf(s, IdKey()) == s
    ensures MapKeys(s, IdKey()) == Elems(s)
  {
  }

  /** The `while (queue.length)` loop of `computeOrderedChainLayout`. */
  method WalkChain(nodes: seq<Node>, rootId: string) returns (levels: seq<seq<string>>, visited: set<string>)
    ensures (levels, visited) == ChainWalk(nodes, rootId)
  {
    UniverseClosed(nodes, rootId);
    levels, visited := Traverse(rootId, ChildFn(nodes), Universe(nodes, rootId));
  }

  /** `computeOrderedChainLayout(rootId, nodes, edges, spacing)`: nothing for
      an empty root or one that names no node; otherwise the chain walked from
      the root, placed row by row, and the other nodes laid out on their own
      and shifted right of the chain. */
  method ComputeOrderedChainLayout(rootId: string, nodes: seq<Node>, edges: seq<Edge>, arg: SpacingArg,
                                   measure: Measure, dagre: Dagre)
    returns (r: Option<ChainLayout>)
    ensures r.None? <==> rootId == "" || FindNode(nodes, rootId).None?
    ensures r.Some? ==> r.value.chainIds == ChainWalk(nodes, rootId).1
    ensures r.Some? ==> r.value.chainPositions == ChainOf(nodes, rootId, ResolveSpacing(arg))
    ensures r.Some? ==> RemainingFits(r.value, nodes, edges, ResolveSpacing(arg), measure, dagre)
  {
    if rootId == "" {
      return None;
    }
    if FindNode(nodes, rootId).None? {
      return None;
    }
    var c := ChainFromRoot(rootId, nodes, edges, ResolveSpacing(arg), measure, dagre);
    r := Some(c);
  }

  /** The chain layout once the root is known to be a node. */
  method ChainFromRoot(rootId: string, nodes: seq<Node>, edges: seq<Edge>, spacing: Spacing,
                       measure: Measure, dagre: Dagre)
    returns (c: ChainLayout)
    ensures c.chainIds == ChainWalk(nodes, rootId).1
    ensures c.chainPositions == ChainOf(nodes, rootId, spacing)
    ensures RemainingFits(c, nodes, edges, spacing, measure, dagre)
  {
    // The levels always hold `[rootId]`, so the `!levels.length` test never fires.
    var chain, visited := ChainPositions(nodes, rootId, spacing);
    var maxX := MaxX(chain);
    var offset := maxX + spacing.nodesep * 2.0;
    var shifted := RemainingPositions(nodes, edges, visited, spacing, measure, dagre, offset);
    FitsIntro(chain, shifted, visited, nodes, edges, spacing, measure, dagre, maxX, offset);
    c := ChainLayout(chain, shifted, visited);
  }

  /** The walk from the root and the row-by-row positions of its levels. */
  method ChainPositions(nodes: seq<Node>, rootId: string, spacing: Spacing)
    returns (chain: map<string, Point>, visited: set<string>)
    ensures visited == ChainWalk(nodes, rootId).1
    ensures chain == ChainOf(nodes, rootId, spacing) && rootId in chain
  {
    var levels;
    levels, visited := WalkChain(nodes, rootId);
    chain := PlaceLevels(levels, IdKey(), spacing.nodesep, spacing.ranksep);
    RootAtOrigin(nodes, rootId, spacing);
  }

  /** The nodes off the chain laid out on their own and shifted right by `offset`. */
  method RemainingPositions(nodes: seq<Node>, edges: seq<Edge>, visited: set<string>, spacing: Spacing,
                            measure: Measure, dagre: Dagre, offset: real)
    returns (shifted: map<string, Point>)
    ensures shifted == RemainingOf(nodes, edges, visited, spacing, measure, dagre, offset)
  {
    var remaining := Unvisited(nodes, visited);
    if remaining == [] {
      return map[];
    }
    var layouted := Layout(remaining, EdgesWithin(edges, Ids(remaining)), spacing, measure, dagre);
    assert layouted == RemainingLayout(nodes, edges, visited, spacing, measure, dagre);
    shifted := ShiftAll(layouted, offset);
  }

  /** The new position of a node under a chain layout: its chain position,
      else its shifted position, else the old one. */
  function ChainPlaced(n: Node, c: ChainLayout): (r: Node)
    ensures r.id == n.id && r.meta == n.meta
    ensures n.id in c.chainPositions ==> r.position == c.chainPositions[n.id]
    ensures n.id !in c.chainPositions && n.id in c.remainingPositions ==> r.position == c.remainingPositions[n.id]
    ensures n.id !in c.chainPositions && n.id !in c.remainingPositions ==> r == n
  {
    if n.id in c.chainPositions then n.(position := c.chainPositions[n.id])
    else if n.id in c.remainingPositions then n.(position := c.remainingPositions[n.id])
    else n
  }

  /** Every node moved as the chain layout says, in the same order. */
  function ApplyChain(nodes: seq<Node>, c: ChainLayout): (r: seq<Node>)
    ensures |r| == |nodes|
    ensures forall i :: 0 <= i < |nodes| ==> r[i] == ChainPlaced(nodes[i], c)
  {
    seq(|nodes|, i requires 0 <= i < |nodes| => ChainPlaced(nodes[i], c))
  }

  /** `applyOrderedChainLayout`: nothing when there is no chain layout;
      otherwise the same nodes, in the same order, each with its new
      position and nothing else changed. */
  method ApplyOrderedChainLayout(nodes: seq<Node>, edges: seq<Edge>, rootId: string, arg: SpacingArg,
                                 measure: Measure, dagre: Dagre)
    returns (r: Option<seq<Node>>, layout: Option<ChainLayout>)
    ensures r.None? <==> rootId == "" || FindNode(nodes, rootId).None?
    ensures r.None? <==> layout.None?
    ensures r.Some? ==> r.value == ApplyChain(nodes, layout.value)
    ensures layout.Some? ==> layout.value.chainIds == ChainWalk(nodes, rootId).1
    ensures layout.Some? ==> layout.value.chainPositions == ChainOf(nodes, rootId, ResolveSpacing(arg))
    ensures layout.Some? ==> RemainingFits(layout.value, nodes, edges, ResolveSpacing(arg), measure, dagre)
  {
    layout := ComputeOrderedChainLayout(rootId, nodes, edges, arg, measure, dagre);
    if layout.None? {
      return None, layout;
    }
    r := Some(ApplyChain(nodes, layout.value));
  }

  // ---------------------------------------------------------------------------
  // What the chain layout guarantees

  /** The placed ids are exactly the visited ones. */
  lemma ChainKeys(nodes: seq<Node>, rootId: string, spacing: Spacing)
    ensures ChainOf(nodes, rootId, spacing).Keys == ChainWalk(nodes, rootId).1
  {
    var w := ChainWalk(nodes, rootId);
    UniverseClosed(nodes, rootId);
    WalkStarts([rootId], {rootId}, ChildFn(nodes), Universe(nodes, rootId));
    WalkShape([rootId], {rootId}, ChildFn(nodes), Universe(nodes, rootId));
    KeysOfIdentity(Flat(w.0));
    PlacedAt(w.0, IdKey(), Grid(spacing.nodesep, spacing.ranksep));
    var p := FlatIndex(w.0, 0, 0);
    assert rootId in Flat(w.0);
  }

  lemma ChainDistinct(nodes: seq<Node>, rootId: string)
    ensures Distinct(KeysOf(Flat(ChainWalk(nodes, rootId).0), IdKey()))
  {
    UniverseClosed(nodes, rootId);
    WalkShape([rootId], {rootId}, ChildFn(nodes), Universe(nodes, rootId));
    KeysOfIdentity(Flat(ChainWalk(nodes, rootId).0));
  }

  /** The id at index i of level d, a level of n ids, is at
      (-(n-1) * nodesep / 2 + i * nodesep, d * ranksep). */
  lemma ChainSlot(nodes: seq<Node>, rootId: string, spacing: Spacing, d: nat, i: nat)
    requires d < |ChainWalk(nodes, rootId).0| && i < |ChainWalk(nodes, rootId).0[d]|
    ensures var w := ChainWalk(nodes, rootId);
      w.0[d][i] in ChainOf(nodes, rootId, spacing) &&
      ChainOf(nodes, rootId, spacing)[w.0[d][i]] == Point(SlotX(|w.0[d]|, i, spacing.nodesep), (d as real) * spacing.ranksep)
  {
    var w := ChainWalk(nodes, rootId);
    ChainDistinct(nodes, rootId);
    PlacedGrid(w.0, IdKey(), spacing.nodesep, spacing.ranksep, d, i);
    assert IdKey()(w.0[d][i]) == w.0[d][i];
  }

  /** Each chain id is placed once: no id is in two levels, or twice in one. */
  lemma ChainIdsOnce(nodes: seq<Node>, rootId: string)
    ensures Distinct(Flat(ChainWalk(nodes, rootId).0))
  {
    UniverseClosed(nodes, rootId);
    WalkShape([rootId], {rootId}, ChildFn(nodes), Universe(nodes, rootId));
  }

  /** Within a level, x grows strictly by `nodesep` from left to right. */
  lemma RowIncreasing(n: nat, i: nat, j: nat, nodesep: real)
    requires i < j < n && nodesep > 0.0
    ensures SlotX(n, i, nodesep) < SlotX(n, j, nodesep)
  {
  }

  lemma {:induction false} ShiftedSpec(layouted: seq<Node>, offset: real)
    ensures Shifted(layouted, offset).Keys == Ids(layouted)
    ensures forall k :: k in Shifted(layouted, offset) ==>
      exists i :: 0 <= i < |layouted| && layouted[i].id == k &&
        Shifted(layouted, offset)[k] == Point(layouted[i].position.x + offset, layouted[i].position.y)
    decreases |layouted|
  {
    if layouted != [] {
      var d := |layouted| - 1;
      var init := layouted[..d];
      ShiftedSpec(init, offset);
      assert Ids(layouted) == Ids(init) + {layouted[d].id} by {
        forall k | k in Ids(layouted) ensures k in Ids(init) + {layouted[d].id} {
          var j :| 0 <= j < |layouted| && layouted[j].id == k;
          if j < d {
            assert init[j] == layouted[j];
          }
        }
        forall k | k in Ids(init) ensures k in Ids(layouted) {
          var j :| 0 <= j < |init| && init[j].id == k;
          assert layouted[j] == init[j];
        }
      }
      var m := Shifted(layouted, offset);
      forall k | k in m
        ensures exists i :: 0 <= i < |layouted| && layouted[i].id == k &&
                            m[k] == Point(layouted[i].position.x + offset, layouted[i].position.y)
      {
        if k != layouted[d].id {
          var i :| 0 <= i < |init| && init[i].id == k &&
            Shifted(init, offset)[k] == Point(init[i].position.x + offset, init[i].position.y);
          assert layouted[i] == init[i];
        }
      }
    }
  }

  lemma UnvisitedIds(nodes: seq<Node>, visited: set<string>)
    ensures Ids(Unvisited(nodes, visited)) == Ids(nodes) - visited
  {
    var r := Unvisited(nodes, visited);
    UnvisitedSpec(nodes, visited);
    forall k | k in Ids(nodes) - visited ensures k in Ids(r) {
      var j :| 0 <= j < |nodes| && nodes[j].id == k;
      assert nodes[j] in nodes;
      var q :| 0 <= q < |r| && r[q] == nodes[j];
    }
    forall k | k in Ids(r) ensures k in Ids(nodes) - visited {
      var q :| 0 <= q < |r| && r[q].id == k;
      assert r[q] in nodes;
      var j :| 0 <= j < |nodes| && nodes[j] == r[q];
    }
  }

  /** The nodes left out of the chain are exactly the node ids that were not
      visited; each is at the position its own layout gave it, moved right by
      the offset, with its y unchanged. */
  lemma RemainingShifted(nodes: seq<Node>, edges: seq<Edge>, visited: set<string>, spacing: Spacing,
                         measure: Measure, dagre: Dagre, offset: real)
    ensures var rem := RemainingOf(nodes, edges, visited, spacing, measure, dagre, offset);
      var lay := RemainingLayout(nodes, edges, visited, spacing, measure, dagre);
      rem.Keys == Ids(nodes) - visited &&
      forall k :: k in rem ==>
        exists i :: 0 <= i < |lay| && lay[i].id == k &&
                    rem[k] == Point(lay[i].position.x + offset, lay[i].position.y)
  {
    var remaining := Unvisited(nodes, visited);
    var lay := RemainingLayout(nodes, edges, visited, spacing, measure, dagre);
    UnvisitedIds(nodes, visited);
    if remaining == [] {
      assert Ids(remaining) == {};
    } else {
      ShiftedSpec(lay, offset);
      assert Ids(lay) == Ids(remaining) by {
        forall k | k in Ids(lay) ensures k in Ids(remaining) {
          var j :| 0 <= j < |lay| && lay[j].id == k;
          assert remaining[j].id == k;
        }
        forall k | k in Ids(remaining) ensures k in Ids(lay) {
          var j :| 0 <= j < |remaining| && remaining[j].id == k;
          assert lay[j].id == k;
        }
      }
    }
  }
}
