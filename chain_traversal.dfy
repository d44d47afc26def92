/** The level-by-level walk of the ordered task-chain layout
    (`computeOrderedChainLayout` in src/utils/useLayout.ts and
    src/utils/useLayout.js), generic in the type of ids, and the placement
    of each level on a row.

    Starting from `[root]` with `root` visited, each round appends the
    current level and builds the next one from the children of the current
    level's ids, in order, keeping each child not yet visited and marking
    it visited. The walk stops at the first empty level. */
module ChainTraversal {
  import opened FlowTypes

  // ---------------------------------------------------------------------------
  // Sequences

  function Flat<T(==)>(levels: seq<seq<T>>): seq<T>
    decreases |levels|
  {
    if levels == [] then [] else Flat(levels[..|levels| - 1]) + levels[|levels| - 1]
  }

  predicate Distinct<T(==)>(s: seq<T>) {
    forall i, j :: 0 <= i < j < |s| ==> s[i] != s[j]
  }

  function Elems<T(==)>(s: seq<T>): set<T> {
    set x | x in s
  }

  /** The children of every id of `level`, in order. */
  function AllChildren<T(==)>(level: seq<T>, children: T -> seq<T>): seq<T>
    decreases |level|
  {
    if level == [] then [] else AllChildren(level[..|level| - 1], children) + children(level[|level| - 1])
  }

  // ---------------------------------------------------------------------------
  // One round

  /** Scans `cs` left to right: keeps each element not yet visited and marks
      it. Returns the kept elements and the new visited set. */
  function Fresh<T(==)>(cs: seq<T>, visited: set<T>): (seq<T>, set<T>)
    decreases |cs|
  {
    if cs == [] then ([], visited)
    else
      var r := Fresh(cs[..|cs| - 1], visited);
      var c := cs[|cs| - 1];
      if c in r.1 then r else (r.0 + [c], r.1 + {c})
  }

  /** What a round yields: the unvisited elements of `cs`, each once, in
      order of first occurrence, and the visited set grown by exactly them. */
  lemma {:induction false} FreshSpec<T>(cs: seq<T>, visited: set<T>)
    ensures Fresh(cs, visited).1 == visited + Elems(Fresh(cs, visited).0)
    ensures Distinct(Fresh(cs, visited).0)
    ensures forall x :: x in Fresh(cs, visited).0 ==> x !in visited && x in cs
    ensures forall x :: x in cs ==> x in Fresh(cs, visited).1
    decreases |cs|
  {
    if cs != [] {
      var init := cs[..|cs| - 1];
      FreshSpec(init, visited);
      var r := Fresh(init, visited);
      var c := cs[|cs| - 1];
      assert cs == init + [c];
      if c !in r.1 {
        assert Elems(r.0 + [c]) == Elems(r.0) + {c};
      }
    }
  }

  // ---------------------------------------------------------------------------
  // The whole walk

  /** Every child of every id lies in `universe`: what makes the walk finite. */
  ghost predicate Closed<T(!new)>(children: T -> seq<T>, universe: set<T>) {
    forall t, c :: c in children(t) ==> c in universe
  }

  /** One round: the next level built from `level` against `visited`. */
  function Round<T(==)>(level: seq<T>, visited: set<T>, children: T -> seq<T>): (seq<T>, set<T>) {
    Fresh(AllChildren(level, children), visited)
  }

  lemma AllChildrenIn<T(!new)>(level: seq<T>, children: T -> seq<T>, universe: set<T>)
    requires Closed(children, universe)
    ensures forall c :: c in AllChildren(level, children) ==> c in universe
    decreases |level|
  {
    if level != [] {
      AllChildrenIn(level[..|level| - 1], children, universe);
    }
  }

  /** A round stays inside the universe and grows `visited` by exactly the new level. */
  lemma RoundSpec<T(!new)>(level: seq<T>, visited: set<T>, children: T -> seq<T>, universe: set<T>)
    requires visited <= universe && Closed(children, universe)
    ensures var s := Round(level, visited, children);
      s.1 <= universe && s.1 == visited + Elems(s.0) && Distinct(s.0) &&
      (forall x :: x in s.0 ==> x !in visited && x in AllChildren(level, children)) &&
      (forall x :: x in AllChildren(level, children) ==> x in s.1) &&
      (s.0 != [] ==> universe - s.1 < universe - visited)
  {
    var s := Round(level, visited, children);
    FreshSpec(AllChildren(level, children), visited);
    AllChildrenIn(level, children, universe);
    if s.0 != [] {
      assert s.0[0] in s.1 - visited;
    }
  }

  /** The levels produced from `level` onwards, and the final visited set. */
  ghost function Walk<T(!new)>(level: seq<T>, visited: set<T>, children: T -> seq<T>, universe: set<T>): (seq<seq<T>>, set<T>)
    requires visited <= universe && Closed(children, universe)
    decreases |universe - visited|
  {
    if level == [] then ([], visited)
    else
      var s := Round(level, visited, children);
      if s.0 == [] then ([level], s.1)
      else
        RoundSpec(level, visited, children, universe);
        var rest := Walk(s.0, s.1, children, universe);
        ([level] + rest.0, rest.1)
  }

  /** The `currentLevel.forEach` of one round: the children of each id in
      order, each unvisited one kept and marked. */
  method NextLevel<T(==)>(current: seq<T>, visited0: set<T>, children: T -> seq<T>)
    returns (next: seq<T>, visited: set<T>)
    ensures (next, visited) == Round(current, visited0, children)
  {
    next := [];
    visited := visited0;
    var i := 0;
    while i < |current|
      invariant 0 <= i <= |current|
      invariant (next, visited) == Fresh(AllChildren(current[..i], children), visited0)
    {
      assert current[..i + 1][..i] == current[..i];
      next, visited := FreshInto(AllChildren(current[..i], children), children(current[i]), visited0, next, visited);
      i := i + 1;
    }
    assert current[..i] == current;
  }

  /** The inner `forEach` over the children of one id: each unvisited
      child is kept and marked, continuing the scan of `done`. */
  method FreshInto<T(==)>(ghost done: seq<T>, kids: seq<T>, visited0: set<T>, next0: seq<T>, marked: set<T>)
    returns (next: seq<T>, visited: set<T>)
    requires (next0, marked) == Fresh(done, visited0)
    ensures (next, visited) == Fresh(done + kids, visited0)
  {
    next, visited := next0, marked;
    var j := 0;
    assert done + kids[..j] == done;
    while j < |kids|
      invariant 0 <= j <= |kids|
      invariant (next, visited) == Fresh(done + kids[..j], visited0)
    {
      var cs := done + kids[..j + 1];
      assert cs[..|cs| - 1] == done + kids[..j];
      if kids[j] !in visited {
        visited := visited + {kids[j]};
        next := next + [kids[j]];
      }
      j := j + 1;
    }
    assert kids[..j] == kids;
  }

  /** The walk from `[root]` with only `root` visited. */
  method Traverse<T(==,!new)>(root: T, children: T -> seq<T>, ghost universe: set<T>)
    returns (levels: seq<seq<T>>, visited: set<T>)
    requires root in universe && Closed(children, universe)
    ensures (levels, visited) == Walk([root], {root}, children, universe)
  {
    ghost var top := Walk([root], {root}, children, universe);
    visited := {root};
    levels := [];
    var current := [root];
    assert levels + top.0 == top.0;
    while current != []
      invariant visited <= universe
      invariant levels + Walk(current, visited, children, universe).0 == top.0
      invariant Walk(current, visited, children, universe).1 == top.1
      decreases |universe - visited|, |current|
    {
      var before := visited;
      ghost var step := Walk(current, before, children, universe);
      var next;
      next, visited := NextLevel(current, before, children);
      RoundSpec(current, before, children, universe);
      WalkStep(current, before, children, universe);
      levels := levels + [current];
      if next == [] {
        assert step == ([current], visited);
      } else {
        assert step.0 == [current] + Walk(next, visited, children, universe).0;
      }
      current := next;
    }
    assert levels + [] == levels;
  }

  // ---------------------------------------------------------------------------
  // What the walk guarantees

  /** The ids of all levels together. */
  function FlatSet<T(==)>(levels: seq<seq<T>>): set<T> {
    Elems(Flat(levels))
  }

  lemma FlatCons<T>(first: seq<T>, rest: seq<seq<T>>)
    ensures Flat([first] + rest) == first + Flat(rest)
    decreases |rest|
  {
    if rest == [] {
      assert [first] + rest == [first];
      assert ([first] + rest)[..0] == [];
    } else {
      var all := [first] + rest;
      assert all[..|all| - 1] == [first] + rest[..|rest| - 1];
      FlatCons(first, rest[..|rest| - 1]);
    }
  }

  lemma DistinctConcat<T>(a: seq<T>, b: seq<T>)
    requires Distinct(a) && Distinct(b) && Elems(a) !! Elems(b)
    ensures Distinct(a + b)
  {
    forall i, j | 0 <= i < j < |a + b| ensures (a + b)[i] != (a + b)[j] {
      if j >= |a| && i < |a| {
        assert (a + b)[i] in Elems(a) && (a + b)[j] in Elems(b);
      }
    }
  }

  /** How Walk unfolds once. */
  lemma WalkStep<T(!new)>(level: seq<T>, visited: set<T>, children: T -> seq<T>, universe: set<T>)
    requires visited <= universe && Closed(children, universe) && level != []
    ensures var s := Round(level, visited, children);
      s.1 <= universe &&
      (s.0 == [] ==> Walk(level, visited, children, universe) == ([level], s.1)) &&
      (s.0 != [] ==>
         Walk(level, visited, children, universe) ==
         ([level] + Walk(s.0, s.1, children, universe).0, Walk(s.0, s.1, children, universe).1))
  {
    RoundSpec(level, visited, children, universe);
  }

  lemma WalkStarts<T(!new)>(level: seq<T>, visited: set<T>, children: T -> seq<T>, universe: set<T>)
    requires visited <= universe && Closed(children, universe)
    requires level != []
    ensures |Walk(level, visited, children, universe).0| >= 1
    ensures Walk(level, visited, children, universe).0[0] == level
  {
    WalkStep(level, visited, children, universe);
  }

  lemma FlatSingle<T>(level: seq<T>)
    ensures Flat([level]) == level
  {
    assert [level][..0] == [];
  }

  /** The sequence and set facts that carry WalkShape over one round. */
  lemma ShapeCombine<T>(level: seq<T>, v: set<T>, next: seq<T>, v1: set<T>, rest: seq<seq<T>>, vEnd: set<T>)
    requires Distinct(level) && Elems(level) <= v
    requires v1 == v + Elems(next) && (forall x :: x in next ==> x !in v)
    requires Distinct(Flat(rest)) && (forall x :: x in Flat(rest) && x !in next ==> x !in v1)
    requires vEnd == v1 + FlatSet(rest) && Elems(next) <= FlatSet(rest)
    ensures Distinct(level + Flat(rest))
    ensures forall x :: x in level + Flat(rest) && x !in level ==> x !in v
    ensures vEnd == v + Elems(level + Flat(rest))
  {
    assert forall x :: x in Flat(rest) ==> x !in v;
    DistinctConcat(level, Flat(rest));
    assert Elems(level + Flat(rest)) == Elems(level) + FlatSet(rest);
  }

  /** The levels start with the given one; no id is placed twice; later
      levels hold only ids not visited before; the final visited set is the
      starting one plus every placed id. */
  lemma {:induction false} WalkShape<T(!new)>(level: seq<T>, visited: set<T>, children: T -> seq<T>, universe: set<T>)
    requires visited <= universe && Closed(children, universe)
    requires Distinct(level) && Elems(level) <= visited
    ensures var r := Walk(level, visited, children, universe);
      Distinct(Flat(r.0)) &&
      (forall x :: x in Flat(r.0) && x !in level ==> x !in visited) &&
      r.1 == visited + FlatSet(r.0)
    decreases |universe - visited|
  {
    if level == [] {
      assert Flat(Walk(level, visited, children, universe).0) == [];
    } else {
      var s := Round(level, visited, children);
      RoundSpec(level, visited, children, universe);
      WalkStep(level, visited, children, universe);
      if s.0 == [] {
        FlatSingle(level);
      } else {
        var rest := Walk(s.0, s.1, children, universe);
        WalkShape(s.0, s.1, children, universe);
        WalkStarts(s.0, s.1, children, universe);
        FlatCons(s.0, rest.0[1..]);
        assert rest.0 == [s.0] + rest.0[1..];
        FlatCons(level, rest.0);
        ShapeCombine(level, visited, s.0, s.1, rest.0, rest.1);
      }
    }
  }

  /** The visited set against which level k+1 is built: the starting one
      plus the ids of levels 0..k. */
  function VisitedBy<T(==)>(visited: set<T>, levels: seq<seq<T>>, k: nat): set<T>
    requires k < |levels|
  {
    visited + FlatSet(levels[..k + 1])
  }

  /** The visited sets of the rounds after the first, seen from the walk of
      the whole or of its tail. */
  lemma VisitedShift<T>(level: seq<T>, v: set<T>, next: seq<T>, v1: set<T>, rest: seq<seq<T>>, k: nat)
    requires Elems(level) <= v && v1 == v + Elems(next)
    requires 1 <= k <= |rest| && rest[0] == next
    ensures VisitedBy(v, [level] + rest, k) == VisitedBy(v1, rest, k - 1)
  {
    var all := [level] + rest;
    assert all[..k + 1] == [level] + rest[..k];
    FlatCons(level, rest[..k]);
    assert rest[..k] == [next] + rest[..k][1..];
    FlatCons(next, rest[..k][1..]);
  }

  /** A round only looks at whether each element is visited. */
  lemma {:induction false} FreshSameOnVisited<T>(cs: seq<T>, v1: set<T>, v2: set<T>)
    requires forall x :: x in cs ==> (x in v1 <==> x in v2)
    ensures Fresh(cs, v1).0 == Fresh(cs, v2).0
    ensures forall x :: x in cs ==> (x in Fresh(cs, v1).1 <==> x in Fresh(cs, v2).1)
    decreases |cs|
  {
    if cs != [] {
      var init := cs[..|cs| - 1];
      assert forall x :: x in init ==> x in cs;
      FreshSameOnVisited(init, v1, v2);
      FreshSpec(init, v1);
      FreshSpec(init, v2);
      assert cs == init + [cs[|cs| - 1]];
    }
  }

  lemma RoundSameOnLevel<T>(level: seq<T>, v: set<T>, children: T -> seq<T>)
    requires Elems(level) <= v
    ensures Round(level, v, children).0 == Round(level, v + Elems(level), children).0
  {
    FreshSameOnVisited(AllChildren(level, children), v, v + Elems(level));
  }

  /** Level k+1 is exactly the round computed from level k against the ids
      visited by then. */
  lemma {:induction false} WalkRounds<T(!new)>(level: seq<T>, visited: set<T>, children: T -> seq<T>, universe: set<T>)
    requires visited <= universe && Closed(children, universe)
    requires level != [] && Elems(level) <= visited
    ensures var r := Walk(level, visited, children, universe);
      forall k :: 0 <= k < |r.0| - 1 ==>
        r.0[k + 1] == Round(r.0[k], VisitedBy(visited, r.0, k), children).0
    decreases |universe - visited|
  {
    var s := Round(level, visited, children);
    RoundSpec(level, visited, children, universe);
    WalkStep(level, visited, children, universe);
    if s.0 != [] {
      var rest := Walk(s.0, s.1, children, universe);
      WalkRounds(s.0, s.1, children, universe);
      WalkStarts(s.0, s.1, children, universe);
      RoundsCons(level, visited, s.0, s.1, rest.0, children);
    }
  }

  /** The rounds property carried from the tail of the walk to the whole. */
  lemma RoundsCons<T>(level: seq<T>, v: set<T>, next: seq<T>, v1: set<T>, rest: seq<seq<T>>, children: T -> seq<T>)
    requires Elems(level) <= v && next == Round(level, v, children).0 && v1 == v + Elems(next)
    requires 1 <= |rest| && rest[0] == next
    requires forall k :: 0 <= k < |rest| - 1 ==> rest[k + 1] == Round(rest[k], VisitedBy(v1, rest, k), children).0
    ensures forall k :: 0 <= k < |rest| ==>
      ([level] + rest)[k + 1] == Round(([level] + rest)[k], VisitedBy(v, [level] + rest, k), children).0
  {
    var all := [level] + rest;
    forall k | 0 <= k < |rest|
      ensures all[k + 1] == Round(all[k], VisitedBy(v, all, k), children).0
    {
      if k == 0 {
        assert all[..1] == [level];
        FlatSingle(level);
        RoundSameOnLevel(level, v, children);
      } else {
        VisitedShift(level, v, next, v1, rest, k);
        assert all[k + 1] == rest[k] && all[k] == rest[k - 1];
      }
    }
  }

  /** The walk stops only when the last level has no unvisited child. */
  lemma {:induction false} WalkEnds<T(!new)>(level: seq<T>, visited: set<T>, children: T -> seq<T>, universe: set<T>)
    requires visited <= universe && Closed(children, universe)
    requires level != [] && Elems(level) <= visited
    ensures var r := Walk(level, visited, children, universe);
      |r.0| >= 1 && Round(r.0[|r.0| - 1], VisitedBy(visited, r.0, |r.0| - 1), children).0 == []
    decreases |universe - visited|
  {
    var s := Round(level, visited, children);
    RoundSpec(level, visited, children, universe);
    WalkStep(level, visited, children, universe);
    var r := Walk(level, visited, children, universe);
    if s.0 == [] {
      assert r.0[..1] == [level];
      FlatSingle(level);
      RoundSameOnLevel(level, visited, children);
    } else {
      var rest := Walk(s.0, s.1, children, universe);
      WalkEnds(s.0, s.1, children, universe);
      WalkStarts(s.0, s.1, children, universe);
      VisitedShift(level, visited, s.0, s.1, rest.0, |rest.0|);
      assert r.0[|r.0| - 1] == rest.0[|rest.0| - 1];
    }
  }

  /** Every id of level k+1 is a child of an id of level k. */
  lemma WalkParents<T(!new)>(level: seq<T>, visited: set<T>, children: T -> seq<T>, universe: set<T>)
    requires visited <= universe && Closed(children, universe)
    requires level != [] && Elems(level) <= visited
    ensures var r := Walk(level, visited, children, universe);
      forall k, x :: 0 <= k < |r.0| - 1 && x in r.0[k + 1] ==> x in AllChildren(r.0[k], children)
  {
    var r := Walk(level, visited, children, universe);
    WalkRounds(level, visited, children, universe);
    WalkStarts(level, visited, children, universe);
    forall k, x | 0 <= k < |r.0| - 1 && x in r.0[k + 1] ensures x in AllChildren(r.0[k], children) {
      var v := VisitedBy(visited, r.0, k);
      var f := Fresh(AllChildren(r.0[k], children), v);
      FreshSpec(AllChildren(r.0[k], children), v);
      assert f.0 == r.0[k + 1];
    }
  }

  lemma {:induction false} FlatPrefix<T>(levels: seq<seq<T>>, k: nat)
    requires k <= |levels|
    ensures FlatSet(levels[..k]) <= FlatSet(levels)
    decreases |levels|
  {
    if k < |levels| {
      var d := |levels| - 1;
      assert Flat(levels) == Flat(levels[..d]) + levels[d];
      assert levels[..d][..k] == levels[..k];
      FlatPrefix(levels[..d], k);
    } else {
      assert levels[..k] == levels;
    }
  }

  /** Nothing is left out: every child of every placed id ends up visited. */
  lemma WalkComplete<T(!new)>(level: seq<T>, visited: set<T>, children: T -> seq<T>, universe: set<T>)
    requires visited <= universe && Closed(children, universe)
    requires level != [] && Distinct(level) && Elems(level) <= visited
    ensures var r := Walk(level, visited, children, universe);
      forall k, c :: 0 <= k < |r.0| && c in AllChildren(r.0[k], children) ==> c in r.1
  {
    var r := Walk(level, visited, children, universe);
    WalkRounds(level, visited, children, universe);
    WalkEnds(level, visited, children, universe);
    WalkShape(level, visited, children, universe);
    forall k, c | 0 <= k < |r.0| && c in AllChildren(r.0[k], children) ensures c in r.1 {
      CompleteAt(r.0, visited, r.1, children, k, c);
    }
  }

  /** One child of one level of a walk that ran to its end is visited. */
  lemma CompleteAt<T>(levels: seq<seq<T>>, v0: set<T>, vEnd: set<T>, children: T -> seq<T>, k: nat, c: T)
    requires |levels| >= 1 && vEnd == v0 + FlatSet(levels)
    requires forall j :: 0 <= j < |levels| - 1 ==> levels[j + 1] == Round(levels[j], VisitedBy(v0, levels, j), children).0
    requires Round(levels[|levels| - 1], VisitedBy(v0, levels, |levels| - 1), children).0 == []
    requires k < |levels| && c in AllChildren(levels[k], children)
    ensures c in vEnd
  {
    var v := VisitedBy(v0, levels, k);
    var f := Fresh(AllChildren(levels[k], children), v);
    FreshSpec(AllChildren(levels[k], children), v);
    FlatPrefix(levels, k + 1);
    assert v <= vEnd;
    assert c in v + Elems(f.0);
    if k < |levels| - 1 {
      assert f.0 == levels[k + 1];
      FlatPrefix(levels, k + 2);
      assert levels[..k + 2][..k + 1] == levels[..k + 1];
      assert Flat(levels[..k + 2]) == Flat(levels[..k + 1]) + levels[k + 1];
      assert Elems(f.0) <= FlatSet(levels[..k + 2]);
    } else {
      assert f.0 == [];
    }
  }

  // ---------------------------------------------------------------------------
  // Placement of the levels

  /** The x of slot `i` in a row of `n`: the row is centred on 0 and its
      slots are `nodesep` apart. */
  function SlotX(n: nat, i: nat, nodesep: real): real {
    -(((n as real) - 1.0) * nodesep) / 2.0 + (i as real) * nodesep
  }

  lemma SlotXFacts(n: nat, i: nat, nodesep: real)
    requires i < n
    ensures SlotX(n, i + 1, nodesep) - SlotX(n, i, nodesep) == nodesep
    ensures SlotX(n, i, nodesep) == -SlotX(n, n - 1 - i, nodesep)
    ensures SlotX(1, 0, nodesep) == 0.0
  {
  }

  lemma GridAt(n: nat, i: nat, depth: nat, nodesep: real, ranksep: real)
    ensures Grid(nodesep, ranksep)(n, i, depth) == Point(SlotX(n, i, nodesep), (depth as real) * ranksep)
  {
  }

  /** A single id at depth 0 sits at the origin. */
  lemma GridOrigin(nodesep: real, ranksep: real)
    ensures Grid(nodesep, ranksep)(1, 0, 0) == Point(0.0, 0.0)
  {
    SlotXFacts(1, 0, nodesep);
  }

  /** Where a placement puts index `i` of a row of `n` ids at a depth. */
  type Slot = (nat, nat, nat) -> Point

  /** The layout's slots: x from SlotX, y the depth times `ranksep`. */
  function Grid(nodesep: real, ranksep: real): Slot {
    (n: nat, i: nat, depth: nat) => Point(SlotX(n, i, nodesep), (depth as real) * ranksep)
  }

  /** `chainPositions` after the first `|row|` ids of level `depth` are placed. */
  function PlaceRow<T(==)>(acc: map<string, Point>, row: seq<T>, n: nat, depth: nat, key: T -> string,
                       slot: Slot): map<string, Point>
    decreases |row|
  {
    if row == [] then acc
    else PlaceRow(acc, row[..|row| - 1], n, depth, key, slot)
           [key(row[|row| - 1]) := slot(n, |row| - 1, depth)]
  }

  /** `chainPositions` after the given levels are placed; a later placement
      of the same key replaces an earlier one. */
  function Placed<T(==)>(levels: seq<seq<T>>, key: T -> string, slot: Slot): map<string, Point>
    decreases |levels|
  {
    if levels == [] then map[]
    else
      var d := |levels| - 1;
      PlaceRow(Placed(levels[..d], key, slot), levels[d], |levels[d]|, d, key, slot)
  }

  /** The two `forEach` loops that fill `chainPositions`. */
  method PlaceLevels<T(==)>(levels: seq<seq<T>>, key: T -> string, nodesep: real, ranksep: real)
    returns (positions: map<string, Point>)
    ensures positions == Placed(levels, key, Grid(nodesep, ranksep))
  {
    positions := map[];
    for d := 0 to |levels|
      invariant positions == Placed(levels[..d], key, Grid(nodesep, ranksep))
    {
      var row := levels[d];
      ghost var before := positions;
      for i := 0 to |row|
        invariant positions == PlaceRow(before, row[..i], |row|, d, key, Grid(nodesep, ranksep))
      {
        assert row[..i + 1][..i] == row[..i];
        assert Grid(nodesep, ranksep)(|row|, i, d) == Point(SlotX(|row|, i, nodesep), (d as real) * ranksep);
        positions := positions[key(row[i]) := Point(SlotX(|row|, i, nodesep), (d as real) * ranksep)];
      }
      assert row[..|row|] == row;
      assert levels[..d + 1][..d] == levels[..d];
    }
    assert levels[..|levels|] == levels;
  }

  function MapKeys<T>(s: seq<T>, key: T -> string): set<string> {
    set k | 0 <= k < |s| :: key(s[k])
  }

  function KeysOf<T>(s: seq<T>, key: T -> string): seq<string> {
    seq(|s|, k requires 0 <= k < |s| => key(s[k]))
  }

  lemma PlaceRowSpec<T>(acc: map<string, Point>, row: seq<T>, n: nat, depth: nat, key: T -> string, slot: Slot)
    requires Distinct(KeysOf(row, key))
    ensures PlaceRow(acc, row, n, depth, key, slot).Keys == acc.Keys + MapKeys(row, key)
    ensures forall i :: 0 <= i < |row| ==>
      PlaceRow(acc, row, n, depth, key, slot)[key(row[i])] == slot(n, i, depth)
    ensures forall k :: k in acc && k !in MapKeys(row, key) ==> PlaceRow(acc, row, n, depth, key, slot)[k] == acc[k]
  {
    PlaceRowDomain(acc, row, n, depth, key, slot);
    PlaceRowValues(acc, row, n, depth, key, slot);
    PlaceRowKeeps(acc, row, n, depth, key, slot);
  }

  lemma MapKeysSnoc<T>(row: seq<T>, key: T -> string)
    requires row != []
    ensures MapKeys(row, key) == MapKeys(row[..|row| - 1], key) + {key(row[|row| - 1])}
  {
    var init := row[..|row| - 1];
    forall k | k in MapKeys(row, key) ensures k in MapKeys(init, key) + {key(row[|row| - 1])} {
      var j :| 0 <= j < |row| && key(row[j]) == k;
      if j < |init| { assert init[j] == row[j]; }
    }
    forall k | k in MapKeys(init, key) ensures k in MapKeys(row, key) {
      var j :| 0 <= j < |init| && key(init[j]) == k;
      assert init[j] == row[j];
    }
  }

  lemma {:induction false} PlaceRowDomain<T>(acc: map<string, Point>, row: seq<T>, n: nat, depth: nat,
                                            key: T -> string, slot: Slot)
    ensures PlaceRow(acc, row, n, depth, key, slot).Keys == acc.Keys + MapKeys(row, key)
    decreases |row|
  {
    if row != [] {
      PlaceRowDomain(acc, row[..|row| - 1], n, depth, key, slot);
      MapKeysSnoc(row, key);
    }
  }

  lemma {:induction false} PlaceRowKeeps<T>(acc: map<string, Point>, row: seq<T>, n: nat, depth: nat,
                                           key: T -> string, slot: Slot)
    ensures PlaceRow(acc, row, n, depth, key, slot).Keys == acc.Keys + MapKeys(row, key)
    ensures forall k :: k in acc && k !in MapKeys(row, key) ==> PlaceRow(acc, row, n, depth, key, slot)[k] == acc[k]
    decreases |row|
  {
    if row != [] {
      PlaceRowKeeps(acc, row[..|row| - 1], n, depth, key, slot);
      MapKeysSnoc(row, key);
    }
  }

  lemma {:induction false} PlaceRowValues<T>(acc: map<string, Point>, row: seq<T>, n: nat, depth: nat,
                                            key: T -> string, slot: Slot)
    requires Distinct(KeysOf(row, key))
    ensures forall i :: 0 <= i < |row| ==>
      key(row[i]) in PlaceRow(acc, row, n, depth, key, slot) &&
      PlaceRow(acc, row, n, depth, key, slot)[key(row[i])] == slot(n, i, depth)
    decreases |row|
  {
    if row != [] {
      var init := row[..|row| - 1];
      var keys := KeysOf(row, key);
      assert KeysOf(init, key) == keys[..|init|];
      PlaceRowValues(acc, init, n, depth, key, slot);
      forall i | 0 <= i < |init| ensures key(init[i]) != key(row[|row| - 1]) {
        assert keys[i] != keys[|row| - 1];
      }
    }
  }

  lemma {:induction false} FlatIndex<T>(levels: seq<seq<T>>, e: nat, i: nat) returns (p: nat)
    requires e < |levels| && i < |levels[e]|
    ensures p < |Flat(levels)| && Flat(levels)[p] == levels[e][i]
    ensures e < |levels| - 1 ==> p < |Flat(levels[..|levels| - 1])|
    decreases |levels|
  {
    var d := |levels| - 1;
    assert Flat(levels) == Flat(levels[..d]) + levels[d];
    if e == d {
      p := |Flat(levels[..d])| + i;
    } else {
      p := FlatIndex(levels[..d], e, i);
    }
  }

  lemma MapKeysConcat<T>(a: seq<T>, b: seq<T>, key: T -> string)
    ensures MapKeys(a + b, key) == MapKeys(a, key) + MapKeys(b, key)
  {
    forall k | k in MapKeys(a + b, key) ensures k in MapKeys(a, key) + MapKeys(b, key) {
      var j :| 0 <= j < |a + b| && key((a + b)[j]) == k;
      if j >= |a| {
        assert (a + b)[j] == b[j - |a|];
      }
    }
    forall k | k in MapKeys(b, key) ensures k in MapKeys(a + b, key) {
      var j :| 0 <= j < |b| && key(b[j]) == k;
      assert (a + b)[|a| + j] == b[j];
    }
    forall k | k in MapKeys(a, key) ensures k in MapKeys(a + b, key) {
      var j :| 0 <= j < |a| && key(a[j]) == k;
      assert (a + b)[j] == a[j];
    }
  }

  /** Distinct keys over all levels are distinct over the earlier levels and
      over the last row. */
  lemma KeysSplit<T>(levels: seq<seq<T>>, key: T -> string)
    requires levels != []
    requires Distinct(KeysOf(Flat(levels), key))
    ensures Flat(levels) == Flat(levels[..|levels| - 1]) + levels[|levels| - 1]
    ensures Distinct(KeysOf(Flat(levels[..|levels| - 1]), key))
    ensures Distinct(KeysOf(levels[|levels| - 1], key))
  {
    var d := |levels| - 1;
    var init := levels[..d];
    var row := levels[d];
    assert Flat(levels) == Flat(init) + row;
    var a, b := KeysOf(Flat(init), key), KeysOf(row, key);
    KeysOfConcat(Flat(init), row, key);
    DistinctParts(a, b);
  }

  lemma KeysOfConcat<T>(a: seq<T>, b: seq<T>, key: T -> string)
    ensures KeysOf(a + b, key) == KeysOf(a, key) + KeysOf(b, key)
  {
  }

  lemma DistinctParts<T>(a: seq<T>, b: seq<T>)
    requires Distinct(a + b)
    ensures Distinct(a) && Distinct(b)
  {
    forall i, j | 0 <= i < j < |a| ensures a[i] != a[j] {
      assert a[i] == (a + b)[i] && a[j] == (a + b)[j];
    }
    forall i, j | 0 <= i < j < |b| ensures b[i] != b[j] {
      assert b[i] == (a + b)[|a| + i] && b[j] == (a + b)[|a| + j];
    }
  }

  lemma KeyNotInLastRow<T>(levels: seq<seq<T>>, key: T -> string, e: nat, i: nat)
    requires Distinct(KeysOf(Flat(levels), key))
    requires e < |levels| - 1 && i < |levels[e]|
    ensures key(levels[e][i]) !in MapKeys(levels[|levels| - 1], key)
  {
    var d := |levels| - 1;
    var row := levels[d];
    var m := |Flat(levels[..d])|;
    assert Flat(levels) == Flat(levels[..d]) + row;
    var p := FlatIndex(levels, e, i);
    var all := KeysOf(Flat(levels), key);
    forall q | 0 <= q < |row| ensures key(row[q]) != key(levels[e][i]) {
      assert all[m + q] == key(row[q]);
      assert all[p] == key(levels[e][i]);
    }
  }

  /** With distinct keys, each placed id sits at the slot of its index in
      its row at the depth of its level. */
  lemma {:induction false} PlacedAt<T>(levels: seq<seq<T>>, key: T -> string, slot: Slot)
    requires Distinct(KeysOf(Flat(levels), key))
    ensures Placed(levels, key, slot).Keys == MapKeys(Flat(levels), key)
    ensures forall d, i :: 0 <= d < |levels| && 0 <= i < |levels[d]| ==>
      key(levels[d][i]) in Placed(levels, key, slot) &&
      Placed(levels, key, slot)[key(levels[d][i])] ==
        slot(|levels[d]|, i, d)
    decreases |levels|
  {
    if levels != [] {
      var d := |levels| - 1;
      var init := levels[..d];
      var row := levels[d];
      var prev := Placed(init, key, slot);
      var all := Placed(levels, key, slot);
      assert all == PlaceRow(prev, row, |row|, d, key, slot);
      KeysSplit(levels, key);
      PlacedAt(init, key, slot);
      PlaceRowSpec(prev, row, |row|, d, key, slot);
      MapKeysConcat(Flat(init), row, key);
      forall e, i | 0 <= e < |levels| && 0 <= i < |levels[e]|
        ensures key(levels[e][i]) in all && all[key(levels[e][i])] == slot(|levels[e]|, i, e)
      {
        if e < d {
          assert levels[e] == init[e];
          KeyNotInLastRow(levels, key, e, i);
        } else {
          assert key(row[i]) in MapKeys(row, key);
        }
      }
    }
  }

  /** PlacedAt at one index of one level. */
  lemma PlacedSlot<T>(levels: seq<seq<T>>, key: T -> string, slot: Slot, d: nat, i: nat)
    requires Distinct(KeysOf(Flat(levels), key))
    requires d < |levels| && i < |levels[d]|
    ensures key(levels[d][i]) in Placed(levels, key, slot)
    ensures Placed(levels, key, slot)[key(levels[d][i])] == slot(|levels[d]|, i, d)
  {
    PlacedAt(levels, key, slot);
  }

  /** With distinct keys, a walk starting from the level `[root]` places the
      root at the origin of the grid. */
  lemma RootPlaced<T>(levels: seq<seq<T>>, key: T -> string, root: T, nodesep: real, ranksep: real)
    requires Distinct(KeysOf(Flat(levels), key))
    requires |levels| >= 1 && levels[0] == [root]
    ensures key(root) in Placed(levels, key, Grid(nodesep, ranksep))
    ensures Placed(levels, key, Grid(nodesep, ranksep))[key(root)] == Point(0.0, 0.0)
  {
    PlacedSlot(levels, key, Grid(nodesep, ranksep), 0, 0);
    GridOrigin(nodesep, ranksep);
  }

  /** PlacedSlot on the layout's grid. */
  lemma PlacedGrid<T>(levels: seq<seq<T>>, key: T -> string, nodesep: real, ranksep: real, d: nat, i: nat)
    requires Distinct(KeysOf(Flat(levels), key))
    requires d < |levels| && i < |levels[d]|
    ensures key(levels[d][i]) in Placed(levels, key, Grid(nodesep, ranksep))
    ensures Placed(levels, key, Grid(nodesep, ranksep))[key(levels[d][i])] ==
      Point(SlotX(|levels[d]|, i, nodesep), (d as real) * ranksep)
  {
    PlacedSlot(levels, key, Grid(nodesep, ranksep), d, i);
    GridAt(|levels[d]|, i, d, nodesep, ranksep);
  }
}
