/** The JavaScript edition of the layout (src/utils/useLayout.js). It shares
    the presets and the edge order with src/utils/useLayout.ts, and differs in
    three places: a measured size of 0 falls back like a missing one, a node
    dagre did not place is an error, and chain targets keep their JSON type
    (so `0` stays a number and every falsy element is dropped). */
module LayoutLegacy {
  import opened Json
  import opened FlowTypes
  import opened ChainTraversal
  import opened Layout
  import LinkCodec

  // ---------------------------------------------------------------------------
  // The general layout

  /** `a || fallback` for a measured dimension: 0 counts as missing. */
  function OrFallback(v: Option<real>, fallback: real): real {
    if v.Some? && v.value != 0.0 then v.value else fallback
  }

  /** The box given to dagre: the measured size, or the fallback when it is
      missing or 0, plus the padding. */
  function LegacyBoxOf(id: string, m: Option<Dims>): (b: NodeBox)
    ensures b.id == id
    ensures b.width > EXTRA_WIDTH || (MeasuredWidth(m).Some? && MeasuredWidth(m).value < 0.0)
    ensures b.height > EXTRA_HEIGHT || (MeasuredHeight(m).Some? && MeasuredHeight(m).value < 0.0)
    ensures MeasuredWidth(m).Some? && MeasuredWidth(m).value != 0.0 ==> b.width == MeasuredWidth(m).value + EXTRA_WIDTH
    ensures MeasuredWidth(m).None? || MeasuredWidth(m).value == 0.0 ==> b.width == FALLBACK_WIDTH + EXTRA_WIDTH
    ensures MeasuredHeight(m).Some? && MeasuredHeight(m).value != 0.0 ==> b.height == MeasuredHeight(m).value + EXTRA_HEIGHT
    ensures MeasuredHeight(m).None? || MeasuredHeight(m).value == 0.0 ==> b.height == FALLBACK_HEIGHT + EXTRA_HEIGHT
  {
    NodeBox(id, OrFallback(MeasuredWidth(m), FALLBACK_WIDTH) + EXTRA_WIDTH,
                OrFallback(MeasuredHeight(m), FALLBACK_HEIGHT) + EXTRA_HEIGHT)
  }

  predicate NonZero(m: Option<Dims>) {
    (MeasuredWidth(m).Some? ==> MeasuredWidth(m).value != 0.0) &&
    (MeasuredHeight(m).Some? ==> MeasuredHeight(m).value != 0.0)
  }

  /** The two editions give the same box exactly when nothing measured 0. */
  lemma BoxesAgree(id: string, m: Option<Dims>)
    ensures LegacyBoxOf(id, m) == BoxOf(id, m) <==> NonZero(m)
  {
  }

  function LegacyBoxes(nodes: seq<Node>, measure: Measure): (r: seq<NodeBox>)
    ensures |r| == |nodes|
    ensures forall i :: 0 <= i < |nodes| ==> r[i] == LegacyBoxOf(nodes[i].id, measure(nodes[i].id))
  {
    seq(|nodes|, i requires 0 <= i < |nodes| => LegacyBoxOf(nodes[i].id, measure(nodes[i].id)))
  }

  /** `handleOrder[h] || 2`; the weights 1 and 3 are truthy, so this is the
      weight of the TypeScript edition and its sort is `SortByWeight`. */
  function LegacyWeight(h: string): (w: nat)
    ensures w == HandleWeight(h)
  {
    if h == "source-a" then 1 else if h == "source-c" then 3 else 2
  }

  predicate AllPlaced(nodes: seq<Node>, centres: map<string, Point>) {
    forall i :: 0 <= i < |nodes| ==> nodes[i].id in centres
  }

  /** `layout(nodes, edges, options)`: reading the position of a node dagre
      has no entry for throws a `TypeError`; otherwise every node keeps its id
      and meta and gets the top-left corner of its box. */
  function LegacyLayout(nodes: seq<Node>, edges: seq<Edge>, spacing: Spacing, measure: Measure, dagre: Dagre)
    : (r: Result<seq<Node>>)
    ensures var centres := dagre(LegacyBoxes(nodes, measure), EdgePairs(SortByWeight(edges)), spacing);
      r.Ok? <==> AllPlaced(nodes, centres)
    ensures r.Ok? ==> |r.value| == |nodes|
  {
    var centres := dagre(LegacyBoxes(nodes, measure), EdgePairs(SortByWeight(edges)), spacing);
    if !AllPlaced(nodes, centres) then Err("TypeError: cannot read properties of undefined")
    else Ok(seq(|nodes|, i requires 0 <= i < |nodes| =>
      nodes[i].(position := TopLeft(centres[nodes[i].id], LegacyBoxOf(nodes[i].id, measure(nodes[i].id))))))
  }

  /** Each node keeps its id and meta; the centre of its placed box is dagre's centre. */
  lemma LegacyLayoutSpec(nodes: seq<Node>, edges: seq<Edge>, spacing: Spacing, measure: Measure, dagre: Dagre)
    requires LegacyLayout(nodes, edges, spacing, measure, dagre).Ok?
    ensures var r := LegacyLayout(nodes, edges, spacing, measure, dagre).value;
      var centres := dagre(LegacyBoxes(nodes, measure), EdgePairs(SortByWeight(edges)), spacing);
      forall i :: 0 <= i < |nodes| ==>
        r[i].id == nodes[i].id && r[i].meta == nodes[i].meta &&
        r[i].position.x + LegacyBoxOf(nodes[i].id, measure(nodes[i].id)).width / 2.0 == centres[nodes[i].id].x &&
        r[i].position.y + LegacyBoxOf(nodes[i].id, measure(nodes[i].id)).height / 2.0 == centres[nodes[i].id].y
  {
  }

  /** Layout moves nodes and nothing else: ids and meta stay, in order. */
  lemma LegacyLayoutKeeps(nodes: seq<Node>, edges: seq<Edge>, spacing: Spacing, measure: Measure, dagre: Dagre)
    requires LegacyLayout(nodes, edges, spacing, measure, dagre).Ok?
    ensures var r := LegacyLayout(nodes, edges, spacing, measure, dagre).value;
      |r| == |nodes| && forall i :: 0 <= i < |nodes| ==> r[i].id == nodes[i].id && r[i].meta == nodes[i].meta
  {
  }

  /** When nothing measured 0 and dagre placed every node, the two editions
      lay the graph out identically. */
  lemma LayoutsAgree(nodes: seq<Node>, edges: seq<Edge>, spacing: Spacing, measure: Measure, dagre: Dagre)
    requires forall i :: 0 <= i < |nodes| ==> NonZero(measure(nodes[i].id))
    requires AllPlaced(nodes, dagre(Boxes(nodes, measure), EdgePairs(SortByWeight(edges)), spacing))
    ensures LegacyLayout(nodes, edges, spacing, measure, dagre) == Ok(Layout.Layout(nodes, edges, spacing, measure, dagre))
  {
    var legacy := LegacyBoxes(nodes, measure);
    var current := Boxes(nodes, measure);
    assert legacy == current by {
      forall i | 0 <= i < |nodes| ensures legacy[i] == current[i] {
        BoxesAgree(nodes[i].id, measure(nodes[i].id));
      }
    }
    LayoutSpec(nodes, edges, spacing, measure, dagre);
    var centres := dagre(current, EdgePairs(SortByWeight(edges)), spacing);
    var r := LegacyLayout(nodes, edges, spacing, measure, dagre);
    var t := Layout.Layout(nodes, edges, spacing, measure, dagre);
    assert r.Ok?;
    forall i | 0 <= i < |nodes| ensures r.value[i] == t[i] {
      BoxesAgree(nodes[i].id, measure(nodes[i].id));
      assert nodes[i].id in centres;
      assert r.value[i] == nodes[i].(position := TopLeft(centres[nodes[i].id], LegacyBoxOf(nodes[i].id, measure(nodes[i].id))));
    }
    assert r.value == t;
  }

  // ---------------------------------------------------------------------------
  // Chain targets

  /** One element: a string whose text starts with `[JumpBack]` loses that
      marker once; anything else is kept with its type. */
  function LegacyChainItem(v: Value): Value {
    if v.Str? && StartsWith(v.s, LinkCodec.JUMP_BACK) then Str(v.s[|LinkCodec.JUMP_BACK|..]) else v
  }

  function LegacyChainList(items: seq<Value>): (r: seq<Value>)
    ensures |r| <= |items|
    ensures forall k :: 0 <= k < |r| ==> JsTruthy(r[k])
    decreases |items|
  {
    if items == [] then []
    else
      var v := LegacyChainItem(items[0]);
      (if JsTruthy(v) then [v] else []) + LegacyChainList(items[1..])
  }

  /** `normalizeChainTargets(val)` of the JavaScript edition. */
  function LegacyChainTargets(val: Option<Value>): (r: seq<Value>)
    ensures val == Some(Num("0")) ==> r == [Num("0")]
    ensures val != Some(Num("0")) ==> forall k :: 0 <= k < |r| ==> JsTruthy(r[k])
    ensures val != Some(Num("0")) && (val.None? || !JsTruthy(val.value)) ==> r == []
  {
    if val == Some(Num("0")) then [Num("0")]
    else if val.None? || !JsTruthy(val.value) then []
    else LegacyChainList(if val.value.Arr? then val.value.items else [val.value])
  }

  function StrOf(ts: seq<string>): (r: seq<Value>)
    ensures |r| == |ts|
    ensures forall k :: 0 <= k < |ts| ==> r[k] == Str(ts[k])
  {
    seq(|ts|, k requires 0 <= k < |ts| => Str(ts[k]))
  }

  /** On a list of strings the two editions read the same targets. */
  lemma {:induction false} ChainListsAgree(items: seq<Value>)
    requires forall k :: 0 <= k < |items| ==> items[k].Str?
    ensures LegacyChainList(items) == StrOf(ChainList(items))
    decreases |items|
  {
    if items != [] {
      ChainListsAgree(items[1..]);
      var t := ChainText(items[0]);
      var head: seq<string> := if t == "" then [] else [t];
      ChainItemAgree(items[0]);
      assert ChainList(items) == head + ChainList(items[1..]);
      StrOfAppend(head, ChainList(items[1..]));
    }
  }

  lemma ChainItemAgree(v: Value)
    requires v.Str?
    ensures JsTruthy(LegacyChainItem(v)) <==> ChainText(v) != ""
    ensures ChainText(v) != "" ==> LegacyChainItem(v) == Str(ChainText(v))
  {
  }

  lemma StrOfAppend(a: seq<string>, b: seq<string>)
    ensures StrOf(a + b) == StrOf(a) + StrOf(b)
  {
  }

  /** A list holding the number 0 or `false`: the TypeScript edition reads
      its text as a target, this edition drops it. */
  lemma FalsyElementsDiffer()
    ensures NormalizeChainTargets(Some(Arr([Num("0"), Bool(false)]))) == ["0", "false"]
    ensures LegacyChainTargets(Some(Arr([Num("0"), Bool(false)]))) == []
  {
    var items := [Num("0"), Bool(false)];
    assert items[1..] == [Bool(false)];
    assert items[1..][1..] == [];
    assert !StartsWith("0", LinkCodec.JUMP_BACK);
    assert !StartsWith("false", LinkCodec.JUMP_BACK);
  }

  // ---------------------------------------------------------------------------
  // The ordered chain layout

  function LegacyNodeChildren(n: Node): seq<Value> {
    LegacyChainTargets(Get(n.meta.data, "next")) + LegacyChainTargets(Get(n.meta.data, "on_error"))
  }

  /** The children of a target: only a string can name a node. */
  function LegacyChildrenIn(nodes: seq<Node>, v: Value): seq<Value> {
    if !v.Str? then []
    else match FindNode(nodes, v.s)
      case None => []
      case Some(n) => LegacyNodeChildren(n)
  }

  function LegacyChildFn(nodes: seq<Node>): Value -> seq<Value> {
    v => LegacyChildrenIn(nodes, v)
  }

  /** An object key: the `String()` text of the target. */
  function KeyFn(): Value -> string {
    v => JsString(v)
  }

  function LegacyAllTargets(nodes: seq<Node>): set<Value>
    decreases |nodes|
  {
    if nodes == [] then {} else LegacyAllTargets(nodes[..|nodes| - 1]) + Elems(LegacyNodeChildren(nodes[|nodes| - 1]))
  }

  function LegacyUniverse(nodes: seq<Node>, root: string): set<Value> {
    {Str(root)} + LegacyAllTargets(nodes)
  }

  lemma {:induction false} LegacyAllTargetsHas(nodes: seq<Node>, i: nat, c: Value)
    requires i < |nodes| && c in LegacyNodeChildren(nodes[i])
    ensures c in LegacyAllTargets(nodes)
    decreases |nodes|
  {
    if i < |nodes| - 1 {
      LegacyAllTargetsHas(nodes[..|nodes| - 1], i, c);
    }
  }

  lemma LegacyUniverseClosed(nodes: seq<Node>, root: string)
    ensures Str(root) in LegacyUniverse(nodes, root)
    ensures Closed(LegacyChildFn(nodes), LegacyUniverse(nodes, root))
  {
    forall t, c | c in LegacyChildFn(nodes)(t) ensures c in LegacyUniverse(nodes, root) {
      var i := FindIndex(nodes, t.s);
      assert i.Some?;
      LegacyAllTargetsHas(nodes, i.value, c);
    }
  }

  ghost function LegacyChainWalk(nodes: seq<Node>, rootId: string): (seq<seq<Value>>, set<Value>) {
    LegacyUniverseClosed(nodes, rootId);
    Walk([Str(rootId)], {Str(rootId)}, LegacyChildFn(nodes), LegacyUniverse(nodes, rootId))
  }

  ghost function LegacyChainOf(nodes: seq<Node>, rootId: string, spacing: Spacing): map<string, Point> {
    Placed(LegacyChainWalk(nodes, rootId).0, KeyFn(), Grid(spacing.nodesep, spacing.ranksep))
  }

  /** The string ids among the visited targets: `visited.has(n.id)` for a string id. */
  function StrIds(visited: set<Value>): set<string> {
    set v | v in visited && v.Str? :: v.s
  }

  lemma StrIdsSpec(visited: set<Value>, id: string)
    ensures id in StrIds(visited) <==> Str(id) in visited
  {
    if Str(id) in visited {
      assert Str(id).s in StrIds(visited);
    }
  }

  datatype LegacyChainLayout = LegacyChainLayout(
    chainPositions: map<string, Point>,
    remainingPositions: map<string, Point>,
    chainIds: set<Value>)

  /** The other nodes, laid out together. */
  function LegacyRemainingLayout(nodes: seq<Node>, edges: seq<Edge>, visited: set<Value>, spacing: Spacing,
                                 measure: Measure, dagre: Dagre): Result<seq<Node>>
  {
    var remaining := Unvisited(nodes, StrIds(visited));
    LegacyLayout(remaining, EdgesWithin(edges, Ids(remaining)), spacing, measure, dagre)
  }

  /** `remainingPositions`, or the error the layout of the other nodes raised. */
  function LegacyRemainingOf(nodes: seq<Node>, edges: seq<Edge>, visited: set<Value>, spacing: Spacing,
                             measure: Measure, dagre: Dagre, offset: real): Result<map<string, Point>>
  {
    if Unvisited(nodes, StrIds(visited)) == [] then Ok(map[])
    else match LegacyRemainingLayout(nodes, edges, visited, spacing, measure, dagre)
      case Err(e) => Err(e)
      case Ok(lay) => Ok(Shifted(lay, offset))
  }

  ghost predicate LegacyRemainingFits(c: LegacyChainLayout, nodes: seq<Node>, edges: seq<Edge>, spacing: Spacing,
                                      measure: Measure, dagre: Dagre)
  {
    exists m :: IsMaxX(m, c.chainPositions) &&
      LegacyRemainingOf(nodes, edges, c.chainIds, spacing, measure, dagre, m + spacing.nodesep * 2.0) == Ok(c.remainingPositions)
  }

  ghost predicate LegacyRemainingFails(c: map<string, Point>, visited: set<Value>, nodes: seq<Node>, edges: seq<Edge>,
                                       spacing: Spacing, measure: Measure, dagre: Dagre)
  {
    exists m :: IsMaxX(m, c) &&
      LegacyRemainingOf(nodes, edges, visited, spacing, measure, dagre, m + spacing.nodesep * 2.0).Err?
  }

  method LegacyWalkChain(nodes: seq<Node>, rootId: string) returns (levels: seq<seq<Value>>, visited: set<Value>)
    ensures (levels, visited) == LegacyChainWalk(nodes, rootId)
  {
    LegacyUniverseClosed(nodes, rootId);
    levels, visited := Traverse(Str(rootId), LegacyChildFn(nodes), LegacyUniverse(nodes, rootId));
  }

  /** `computeOrderedChainLayout` of the JavaScript edition: nothing for
      an empty root or one that names no node; the error of the layout of the
      other nodes when it raises; otherwise the chain and the shifted rest. */
  method LegacyComputeOrderedChainLayout(rootId: string, nodes: seq<Node>, edges: seq<Edge>, arg: SpacingArg,
                                         measure: Measure, dagre: Dagre)
    returns (r: Result<Option<LegacyChainLayout>>)
    ensures r == Ok(None) <==> rootId == "" || FindNode(nodes, rootId).None?
    ensures r.Ok? && r.value.Some? ==> r.value.value.chainIds == LegacyChainWalk(nodes, rootId).1
    ensures r.Ok? && r.value.Some? ==> r.value.value.chainPositions == LegacyChainOf(nodes, rootId, ResolveSpacing(arg))
    ensures r.Ok? && r.value.Some? ==>
      LegacyRemainingFits(r.value.value, nodes, edges, ResolveSpacing(arg), measure, dagre)
    ensures r.Err? ==>
      LegacyRemainingFails(LegacyChainOf(nodes, rootId, ResolveSpacing(arg)), LegacyChainWalk(nodes, rootId).1,
                           nodes, edges, ResolveSpacing(arg), measure, dagre)
  {
    if rootId == "" {
      return Ok(None);
    }
    if FindNode(nodes, rootId).None? {
      return Ok(None);
    }
    var c := LegacyChainFromRoot(rootId, nodes, edges, ResolveSpacing(arg), measure, dagre);
    if c.Err? {
      return Err(c.error);
    }
    r := Ok(Some(c.value));
  }

  /** The chain layout once the root is known to be a node, or the error
      the layout of the other nodes raised. */
  method LegacyChainFromRoot(rootId: string, nodes: seq<Node>, edges: seq<Edge>, spacing: Spacing,
                             measure: Measure, dagre: Dagre)
    returns (r: Result<LegacyChainLayout>)
    ensures r.Ok? ==> r.value.chainIds == LegacyChainWalk(nodes, rootId).1
    ensures r.Ok? ==> r.value.chainPositions == LegacyChainOf(nodes, rootId, spacing)
    ensures r.Ok? ==> LegacyRemainingFits(r.value, nodes, edges, spacing, measure, dagre)
    ensures r.Err? ==>
      LegacyRemainingFails(LegacyChainOf(nodes, rootId, spacing), LegacyChainWalk(nodes, rootId).1,
                           nodes, edges, spacing, measure, dagre)
  {
    var chain, visited := LegacyChainPositions(nodes, rootId, spacing);
    var maxX := MaxX(chain);
    var offset := maxX + spacing.nodesep * 2.0;
    var shifted := LegacyRemainingPositions(nodes, edges, visited, spacing, measure, dagre, offset);
    if shifted.Err? {
      LegacyFailsIntro(chain, visited, nodes, edges, spacing, measure, dagre, maxX, offset);
      return Err(shifted.error);
    }
    LegacyFitsIntro(chain, shifted.value, visited, nodes, edges, spacing, measure, dagre, maxX, offset);
    r := Ok(LegacyChainLayout(chain, shifted.value, visited));
  }

  /** The walk from the root and the row-by-row positions of its levels. */
  method LegacyChainPositions(nodes: seq<Node>, rootId: string, spacing: Spacing)
    returns (chain: map<string, Point>, visited: set<Value>)
    ensures visited == LegacyChainWalk(nodes, rootId).1
    ensures chain == LegacyChainOf(nodes, rootId, spacing) && chain != map[]
  {
    var levels;
    levels, visited := LegacyWalkChain(nodes, rootId);
    chain := PlaceLevels(levels, KeyFn(), spacing.nodesep, spacing.ranksep);
    LegacyChainNonEmpty(nodes, rootId, spacing);
  }

  /** The nodes off the chain laid out on their own and shifted right by
      `offset`, or the error that layout raised. */
  method LegacyRemainingPositions(nodes: seq<Node>, edges: seq<Edge>, visited: set<Value>, spacing: Spacing,
                                  measure: Measure, dagre: Dagre, offset: real)
    returns (shifted: Result<map<string, Point>>)
    ensures shifted == LegacyRemainingOf(nodes, edges, visited, spacing, measure, dagre, offset)
  {
    var remaining := Unvisited(nodes, StrIds(visited));
    if remaining == [] {
      return Ok(map[]);
    }
    var layouted := LegacyLayout(remaining, EdgesWithin(edges, Ids(remaining)), spacing, measure, dagre);
    assert layouted == LegacyRemainingLayout(nodes, edges, visited, spacing, measure, dagre);
    if layouted.Err? {
      return Err(layouted.error);
    }
    var ps := ShiftAll(layouted.value, offset);
    return Ok(ps);
  }

  lemma LegacyFitsIntro(chain: map<string, Point>, shifted: map<string, Point>, visited: set<Value>,
                        nodes: seq<Node>, edges: seq<Edge>, spacing: Spacing, measure: Measure, dagre: Dagre,
                        m: real, offset: real)
    requires IsMaxX(m, chain) && offset == m + spacing.nodesep * 2.0
    requires LegacyRemainingOf(nodes, edges, visited, spacing, measure, dagre, offset) == Ok(shifted)
    ensures LegacyRemainingFits(LegacyChainLayout(chain, shifted, visited), nodes, edges, spacing, measure, dagre)
  {
  }

  lemma LegacyFailsIntro(chain: map<string, Point>, visited: set<Value>, nodes: seq<Node>, edges: seq<Edge>,
                         spacing: Spacing, measure: Measure, dagre: Dagre, m: real, offset: real)
    requires IsMaxX(m, chain) && offset == m + spacing.nodesep * 2.0
    requires LegacyRemainingOf(nodes, edges, visited, spacing, measure, dagre, offset).Err?
    ensures LegacyRemainingFails(chain, visited, nodes, edges, spacing, measure, dagre)
  {
  }

  lemma LegacyChainNonEmpty(nodes: seq<Node>, rootId: string, spacing: Spacing)
    ensures LegacyChainOf(nodes, rootId, spacing) != map[]
  {
    var w := LegacyChainWalk(nodes, rootId);
    LegacyUniverseClosed(nodes, rootId);
    WalkStarts([Str(rootId)], {Str(rootId)}, LegacyChildFn(nodes), LegacyUniverse(nodes, rootId));
    PlacedHasKey(w.0, KeyFn(), Grid(spacing.nodesep, spacing.ranksep), 0, 0);
  }

  function LegacyChainPlaced(n: Node, c: LegacyChainLayout): (r: Node)
    ensures r.id == n.id && r.meta == n.meta
    ensures n.id in c.chainPositions ==> r.position == c.chainPositions[n.id]
    ensures n.id !in c.chainPositions && n.id in c.remainingPositions ==> r.position == c.remainingPositions[n.id]
    ensures n.id !in c.chainPositions && n.id !in c.remainingPositions ==> r == n
  {
    if n.id in c.chainPositions then n.(position := c.chainPositions[n.id])
    else if n.id in c.remainingPositions then n.(position := c.remainingPositions[n.id])
    else n
  }

  function LegacyApplyChain(nodes: seq<Node>, c: LegacyChainLayout): (r: seq<Node>)
    ensures |r| == |nodes|
    ensures forall i :: 0 <= i < |nodes| ==> r[i] == LegacyChainPlaced(nodes[i], c)
  {
    seq(|nodes|, i requires 0 <= i < |nodes| => LegacyChainPlaced(nodes[i], c))
  }

  /** `applyOrderedChainLayout` of the JavaScript edition. */
  method LegacyApplyOrderedChainLayout(nodes: seq<Node>, edges: seq<Edge>, rootId: string, arg: SpacingArg,
                                       measure: Measure, dagre: Dagre)
    returns (r: Result<Option<seq<Node>>>, layout: Result<Option<LegacyChainLayout>>)
    ensures r == Ok(None) <==> rootId == "" || FindNode(nodes, rootId).None?
    ensures r.Err? <==> layout.Err?
    ensures r.Ok? && r.value.Some? ==> layout.Ok? && layout.value.Some? && r.value.value == LegacyApplyChain(nodes, layout.value.value)
    ensures layout.Ok? && layout.value.Some? ==> layout.value.value.chainIds == LegacyChainWalk(nodes, rootId).1
    ensures layout.Ok? && layout.value.Some? ==>
      layout.value.value.chainPositions == LegacyChainOf(nodes, rootId, ResolveSpacing(arg))
    ensures layout.Ok? && layout.value.Some? ==>
      LegacyRemainingFits(layout.value.value, nodes, edges, ResolveSpacing(arg), measure, dagre)
    ensures layout.Err? ==>
      LegacyRemainingFails(LegacyChainOf(nodes, rootId, ResolveSpacing(arg)), LegacyChainWalk(nodes, rootId).1,
                           nodes, edges, ResolveSpacing(arg), measure, dagre)
  {
    layout := LegacyComputeOrderedChainLayout(rootId, nodes, edges, arg, measure, dagre);
    if layout.Err? {
      return Err(layout.error), layout;
    }
    if layout.value.None? {
      return Ok(None), layout;
    }
    r := Ok(Some(LegacyApplyChain(nodes, layout.value.value)));
  }

  /** The walk starts with the root alone and places no target twice. */
  lemma LegacyWalkShape(nodes: seq<Node>, rootId: string)
    ensures var w := LegacyChainWalk(nodes, rootId);
      |w.0| >= 1 && w.0[0] == [Str(rootId)] && Distinct(Flat(w.0))
  {
    LegacyUniverseClosed(nodes, rootId);
    WalkStarts([Str(rootId)], {Str(rootId)}, LegacyChildFn(nodes), LegacyUniverse(nodes, rootId));
    WalkShape([Str(rootId)], {Str(rootId)}, LegacyChildFn(nodes), LegacyUniverse(nodes, rootId));
  }

  /** The walk begins with the level holding the root id. */
  lemma LegacyChainStarts(nodes: seq<Node>, rootId: string)
    ensures |LegacyChainWalk(nodes, rootId).0| >= 1 && LegacyChainWalk(nodes, rootId).0[0] == [Str(rootId)]
  {
    LegacyUniverseClosed(nodes, rootId);
    WalkStarts([Str(rootId)], {Str(rootId)}, LegacyChildFn(nodes), LegacyUniverse(nodes, rootId));
  }

  /** When every target is a string, no two placed targets share a key. */
  lemma StringTargetsDistinctKeys(nodes: seq<Node>, rootId: string)
    requires forall v :: v in Flat(LegacyChainWalk(nodes, rootId).0) ==> v.Str?
    ensures Distinct(KeysOf(Flat(LegacyChainWalk(nodes, rootId).0), KeyFn()))
  {
    LegacyWalkShape(nodes, rootId);
    StringKeysDistinct(Flat(LegacyChainWalk(nodes, rootId).0));
  }

  lemma StringKeysDistinct(f: seq<Value>)
    requires Distinct(f) && forall v :: v in f ==> v.Str?
    ensures Distinct(KeysOf(f, KeyFn()))
  {
    var keys := KeysOf(f, KeyFn());
    forall i, j | 0 <= i < j < |keys| ensures keys[i] != keys[j] {
      assert f[i] in f && f[j] in f;
      assert keys[i] == f[i].s && keys[j] == f[j].s;
    }
  }

  /** With distinct keys, the root sits at the origin. A number target whose
      text is the root id would otherwise overwrite the root's position. */
  lemma LegacyRootAtOrigin(nodes: seq<Node>, rootId: string, spacing: Spacing)
    requires Distinct(KeysOf(Flat(LegacyChainWalk(nodes, rootId).0), KeyFn()))
    ensures rootId in LegacyChainOf(nodes, rootId, spacing)
    ensures LegacyChainOf(nodes, rootId, spacing)[rootId] == Point(0.0, 0.0)
  {
    var w := LegacyChainWalk(nodes, rootId);
    LegacyChainStarts(nodes, rootId);
    RootPlaced(w.0, KeyFn(), Str(rootId), spacing.nodesep, spacing.ranksep);
    assert KeyFn()(Str(rootId)) == rootId;
  }

  /** Every target of every level ends up with a key. */
  lemma {:induction false} PlacedHasKey<T>(levels: seq<seq<T>>, key: T -> string, slot: Slot, e: nat, i: nat)
    requires e < |levels| && i < |levels[e]|
    ensures key(levels[e][i]) in Placed(levels, key, slot)
    decreases |levels|
  {
    var d := |levels| - 1;
    PlaceRowKeys(Placed(levels[..d], key, slot), levels[d], |levels[d]|, d, key, slot);
    if e < d {
      PlacedHasKey(levels[..d], key, slot, e, i);
    } else {
      assert levels[d][i] in levels[d];
    }
  }

  lemma {:induction false} PlaceRowKeys<T>(acc: map<string, Point>, row: seq<T>, n: nat, depth: nat, key: T -> string,
                                          slot: Slot)
    ensures acc.Keys <= PlaceRow(acc, row, n, depth, key, slot).Keys
    ensures forall x :: x in row ==> key(x) in PlaceRow(acc, row, n, depth, key, slot)
    decreases |row|
  {
    if row != [] {
      PlaceRowKeys(acc, row[..|row| - 1], n, depth, key, slot);
      forall x | x in row ensures key(x) in PlaceRow(acc, row, n, depth, key, slot) {
        if x != row[|row| - 1] {
          var j :| 0 <= j < |row| && row[j] == x;
          assert row[..|row| - 1][j] == x;
        }
      }
    }
  }
}
