/** The graph entities of the editor (src/utils/flowTypes.ts): a node carries
    its position and its meta record, whose `data` is the pipeline record of
    that node; an edge joins a source handle of one node to another node. */
module FlowTypes {
  import opened Json

  datatype Point = Point(x: real, y: real)

  /** A template image; an empty `base64` stands for an absent one. */
  datatype Image = Image(path: string, base64: string, found: bool)

  /** `FlowNodeMeta`: the kind shown on the node (`type`, normally the
      recognition), the document record, and the image staging lists. */
  datatype Meta = Meta(
    id: string,
    kind: Value,
    data: Record,
    isMissing: bool,
    images: seq<Image>,
    delImages: seq<Image>,
    tempImages: seq<Image>)

  datatype Node = Node(id: string, position: Point, meta: Meta)

  /** An edge; a `null` handle is the empty string. `jumpBack` is `data.isJumpBack`. */
  datatype Edge = Edge(
    id: string,
    source: string,
    target: string,
    sourceHandle: string,
    targetHandle: string,
    edgeLabel: string,
    jumpBack: bool)

  /** Index of the first node with the given id (vue-flow `findNode`). */
  function FindIndex(nodes: seq<Node>, id: string): (r: Option<nat>)
    ensures r.Some? ==> r.value < |nodes| && nodes[r.value].id == id
    ensures r.Some? ==> forall k :: 0 <= k < r.value ==> nodes[k].id != id
    ensures r.None? ==> forall k :: 0 <= k < |nodes| ==> nodes[k].id != id
    decreases |nodes|
  {
    if nodes == [] then None
    else if nodes[0].id == id then Some(0)
    else match FindIndex(nodes[1..], id)
      case None => None
      case Some(i) => Some(i + 1)
  }

  function FindNode(nodes: seq<Node>, id: string): Option<Node> {
    match FindIndex(nodes, id)
    case None => None
    case Some(i) => Some(nodes[i])
  }

  function Ids(nodes: seq<Node>): set<string> {
    set k | 0 <= k < |nodes| :: nodes[k].id
  }

  predicate UniqueIds(nodes: seq<Node>) {
    forall i, j :: 0 <= i < j < |nodes| ==> nodes[i].id != nodes[j].id
  }
}
