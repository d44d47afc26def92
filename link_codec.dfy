/** The link codec of the graph editor (src/utils/useFlowGraph.ts).

    A link value stored in a `next`, `on_error` or `timeout_next` field is a
    target node id, optionally preceded by the markers `[JumpBack]` and
    `[Anchor]`. The markers are found by substring search and removed
    wherever they occur, so a parse accepts them in either order. */
module LinkCodec {
  import opened Json

  const ANCHOR := "[Anchor]"
  const JUMP_BACK := "[JumpBack]"

  /** No marker text occurs in `s`: such an id survives a round trip. */
  predicate NoMarkers(s: string) {
    !Contains(s, ANCHOR) && !Contains(s, JUMP_BACK)
  }

  /** `val.replace(/\[(Anchor|JumpBack)\]/g, '')`: a left-to-right scan that
      drops each marker occurrence it meets and copies every other character. */
  function StripPrefix(s: string): string
    decreases |s|
  {
    if s == [] then []
    else if StartsWith(s, ANCHOR) then StripPrefix(s[|ANCHOR|..])
    else if StartsWith(s, JUMP_BACK) then StripPrefix(s[|JUMP_BACK|..])
    else [s[0]] + StripPrefix(s[1..])
  }

  /** `[JumpBack]` (if set), then `[Anchor]` (if set), then the target id. */
  function BuildLinkId(targetId: string, isAnchor: bool, isJumpBack: bool): string {
    (if isJumpBack then JUMP_BACK else "") + (if isAnchor then ANCHOR else "") + targetId
  }

  datatype LinkFlags = LinkFlags(anchor: bool, jumpBack: bool, id: string)

  function ParseLinkFlags(val: string): LinkFlags {
    LinkFlags(
      val != "" && Contains(val, ANCHOR),
      val != "" && Contains(val, JUMP_BACK),
      if val != "" then StripPrefix(val) else "")
  }

  /** `flags.id || val`: the stripped id, or the raw text when stripping leaves nothing. */
  function LinkTarget(val: string): string {
    var id := ParseLinkFlags(val).id;
    if id != "" then id else val
  }

  // ---------------------------------------------------------------------------
  // Lemmas

  lemma {:induction false} StripNoMarkers(s: string)
    requires NoMarkers(s)
    ensures StripPrefix(s) == s
    decreases |s|
  {
    if s != [] {
      assert !StartsWith(s, ANCHOR) && !StartsWith(s, JUMP_BACK);
      assert NoMarkers(s[1..]);
      StripNoMarkers(s[1..]);
      assert s == [s[0]] + s[1..];
    }
  }

  /** Stripping a built link gives the stripped target: the markers that
      BuildLinkId puts in front are consumed first. */
  lemma StripBuilt(t: string, a: bool, j: bool)
    ensures StripPrefix(BuildLinkId(t, a, j)) == StripPrefix(t)
  {
    var withA := (if a then ANCHOR else "") + t;
    if a {
      assert StartsWith(withA, ANCHOR);
      assert withA[|ANCHOR|..] == t;
    } else {
      assert withA == t;
    }
    assert StripPrefix(withA) == StripPrefix(t);
    if j {
      assert BuildLinkId(t, a, j) == JUMP_BACK + withA;
      assert !StartsWith(JUMP_BACK + withA, ANCHOR) by {
        assert (JUMP_BACK + withA)[1] == 'J';
      }
      assert StartsWith(JUMP_BACK + withA, JUMP_BACK);
      assert (JUMP_BACK + withA)[|JUMP_BACK|..] == withA;
    } else {
      assert BuildLinkId(t, a, j) == withA;
    }
  }

  lemma JumpBackHidesNoAnchor(t: string)
    ensures Contains(JUMP_BACK + t, ANCHOR) <==> Contains(t, ANCHOR)
  {
    assert !StartsWith(JUMP_BACK + t, ANCHOR) by { assert (JUMP_BACK + t)[1] == 'J'; }
    assert (JUMP_BACK + t)[1..] == JUMP_BACK[1..] + t;
    ContainsSkip(JUMP_BACK[1..], t, ANCHOR);
  }

  lemma AnchorHidesNoJumpBack(t: string)
    ensures Contains(ANCHOR + t, JUMP_BACK) <==> Contains(t, JUMP_BACK)
  {
    assert !StartsWith(ANCHOR + t, JUMP_BACK) by { assert (ANCHOR + t)[1] == 'A'; }
    assert (ANCHOR + t)[1..] == ANCHOR[1..] + t;
    ContainsSkip(ANCHOR[1..], t, JUMP_BACK);
  }

  /** The marker flags of a built link are exactly the requested ones, for any
      target that contains no marker text. */
  lemma BuiltFlags(t: string, a: bool, j: bool)
    requires NoMarkers(t)
    ensures Contains(BuildLinkId(t, a, j), ANCHOR) == a
    ensures Contains(BuildLinkId(t, a, j), JUMP_BACK) == j
  {
    var withA := (if a then ANCHOR else "") + t;
    if a {
      assert StartsWith(withA, ANCHOR);
      AnchorHidesNoJumpBack(t);
    } else {
      assert withA == t;
    }
    assert Contains(withA, ANCHOR) == a;
    assert Contains(withA, JUMP_BACK) == false;
    if j {
      assert BuildLinkId(t, a, j) == JUMP_BACK + withA;
      JumpBackHidesNoAnchor(withA);
      assert StartsWith(JUMP_BACK + withA, JUMP_BACK);
    } else {
      assert BuildLinkId(t, a, j) == withA;
    }
  }

  /** Codec round trip: decoding an encoded link gives back the target and
      both flags, for every target that contains no marker text. */
  lemma RoundTrip(t: string, a: bool, j: bool)
    requires NoMarkers(t)
    ensures ParseLinkFlags(BuildLinkId(t, a, j)) == LinkFlags(a, j, t)
  {
    BuiltFlags(t, a, j);
    StripBuilt(t, a, j);
    StripNoMarkers(t);
    if BuildLinkId(t, a, j) == "" {
      assert t == "" && !a && !j;
    }
  }

  /** The parse accepts the markers in the other order too. */
  lemma RoundTripAnchorFirst(t: string)
    requires NoMarkers(t)
    ensures ParseLinkFlags(ANCHOR + JUMP_BACK + t) == LinkFlags(true, true, t)
  {
    var v := ANCHOR + (JUMP_BACK + t);
    assert ANCHOR + JUMP_BACK + t == v;
    assert StartsWith(v, ANCHOR);
    assert v[|ANCHOR|..] == JUMP_BACK + t;
    assert !StartsWith(JUMP_BACK + t, ANCHOR) by { assert (JUMP_BACK + t)[1] == 'J'; }
    assert StartsWith(JUMP_BACK + t, JUMP_BACK);
    assert (JUMP_BACK + t)[|JUMP_BACK|..] == t;
    StripNoMarkers(t);
    assert StripPrefix(v) == t;
    ContainsSuffix(ANCHOR, JUMP_BACK + t, JUMP_BACK);
  }

  /** For a well-formed link the target is the stripped id. */
  lemma LinkTargetOfBuilt(t: string, a: bool, j: bool)
    requires NoMarkers(t) && t != ""
    ensures LinkTarget(BuildLinkId(t, a, j)) == t
  {
    RoundTrip(t, a, j);
  }
}
