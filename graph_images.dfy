/** Image staging of the editor (src/utils/useFlowGraph.ts): the template
    paths of a record, the special actions a node form sends, and the staged
    lists of committed, deleted and temporary images of each node. */
module GraphImages {
  import opened Json
  import opened FlowTypes

  /** The template paths as a list: a list as it is, a non-empty string as a singleton. */
  function TemplatePaths(d: Record): seq<Value> {
    match Get(d, "template")
    case Some(Arr(items)) => items
    case Some(Str(s)) => if s != "" then [Str(s)] else []
    case _ => []
  }

  function WithoutValue(items: seq<Value>, v: Value): seq<Value>
    decreases |items|
  {
    if items == [] then []
    else if StrictEq(items[0], v) then WithoutValue(items[1..], v)
    else [items[0]] + WithoutValue(items[1..], v)
  }

  /** `modifyTemplatePath(meta, path, 'add')`. */
  function AddTemplatePath(d: Record, path: string): Record {
    var paths := TemplatePaths(d);
    d["template" := Arr(if Str(path) in paths then paths else paths + [Str(path)])]
  }

  /** `modifyTemplatePath(meta, path, 'remove')`. */
  function RemoveTemplatePath(d: Record, path: Value): Record {
    d["template" := Arr(WithoutValue(TemplatePaths(d), path))]
  }

  /** `deletePaths.forEach(path => modifyTemplatePath(meta, path, 'remove'))`. */
  function RemoveTemplatePaths(d: Record, paths: seq<Value>): Record
    decreases |paths|
  {
    if paths == [] then d
    else RemoveTemplatePath(RemoveTemplatePaths(d, paths[..|paths| - 1]), paths[|paths| - 1])
  }

  predicate PathIn(img: Image, paths: seq<Value>) {
    Str(img.path) in paths
  }

  function ImagesIn(images: seq<Image>, paths: seq<Value>, keep: bool): (r: seq<Image>)
    ensures |r| <= |images|
    decreases |images|
  {
    if images == [] then []
    else if PathIn(images[0], paths) == keep then [images[0]] + ImagesIn(images[1..], paths, keep)
    else ImagesIn(images[1..], paths, keep)
  }

  function ImagesWithPath(images: seq<Image>, path: string, keep: bool): seq<Image>
    decreases |images|
  {
    if images == [] then []
    else if (images[0].path == path) == keep then [images[0]] + ImagesWithPath(images[1..], path, keep)
    else ImagesWithPath(images[1..], path, keep)
  }

  function FirstWithPath(images: seq<Image>, path: string): (r: Option<Image>)
    ensures r.Some? ==> r.value in images && r.value.path == path
    ensures r.None? ==> forall img :: img in images ==> img.path != path
    decreases |images|
  {
    if images == [] then None
    else if images[0].path == path then Some(images[0])
    else FirstWithPath(images[1..], path)
  }

  /** The `deletePaths` of an action: a list, or nothing. */
  function DeletePaths(action: Record): seq<Value> {
    match Get(action, "deletePaths")
    case Some(Arr(items)) => items
    case _ => []
  }

  /** A non-empty string field of an action. */
  function TextField(action: Record, key: string): Option<string> {
    match Get(action, key)
    case Some(Str(s)) => if s != "" then Some(s) else None
    case _ => None
  }

  function StringField(fields: map<string, Value>, key: string): string {
    match Get(fields, key)
    case Some(Str(s)) => s
    case _ => ""
  }

  /** A `TemplateImage` object of a `save_image_changes` action. */
  function DecodeImage(v: Value): Image {
    if v.Obj? then Image(StringField(v.fields, "path"), StringField(v.fields, "base64"), Get(v.fields, "found").Some? && JsTruthy(v.fields["found"]))
    else Image("", "", false)
  }

  /** `(list as TemplateImage[]) || []`. */
  function DecodeImages(v: Option<Value>): (r: seq<Image>)
    ensures v.Some? && v.value.Arr? ==> |r| == |v.value.items|
  {
    if v.Some? && v.value.Arr? then
      seq(|v.value.items|, k requires 0 <= k < |v.value.items| => DecodeImage(v.value.items[k]))
    else []
  }

  /** `validPaths && validPaths.length ? [...validPaths] : []`; spreading a
      string gives its characters. */
  function ValidPaths(v: Option<Value>): seq<Value> {
    match v
    case Some(Arr(items)) => items
    case Some(Str(s)) => seq(|s|, k requires 0 <= k < |s| => Str([s[k]]))
    case _ => []
  }

  /** `delete_images` (or `save_screenshot` with a list of paths): the matching
      images move to the delete list and their paths leave the template. */
  function DeleteImages(m: Meta, paths: seq<Value>): Meta {
    if paths == [] then m
    else m.(delImages := m.delImages + ImagesIn(m.images, paths, true),
            images := ImagesIn(m.images, paths, false),
            data := RemoveTemplatePaths(m.data, paths))
  }

  /** `handleSpecialAction(node, actionData)` on the node's meta. */
  function SpecialAction(m: Meta, action: Record): Meta {
    var act := Get(action, "_action");
    if act == Some(Str("delete_images")) || (act == Some(Str("save_screenshot")) && Get(action, "deletePaths").Some? && action["deletePaths"].Arr?) then
      DeleteImages(m, DeletePaths(action))
    else if act == Some(Str("add_temp_image")) then
      var path := TextField(action, "imagePath");
      var data := TextField(action, "imageBase64");
      if path.None? || data.None? then m
      else m.(tempImages := m.tempImages + [Image(path.value, data.value, true)], data := AddTemplatePath(m.data, path.value))
    else if act == Some(Str("restore_image")) then
      match Get(action, "imagePath")
      case Some(Str(p)) =>
        (match FirstWithPath(m.delImages, p)
         case None => m
         case Some(img) =>
           m.(delImages := ImagesWithPath(m.delImages, p, false), images := m.images + [img], data := AddTemplatePath(m.data, p)))
      case _ => m
    else if act == Some(Str("save_image_changes")) then
      m.(images := DecodeImages(Get(action, "images")),
         tempImages := DecodeImages(Get(action, "tempImages")),
         delImages := DecodeImages(Get(action, "deletedImages")),
         data := m.data["template" := Arr(ValidPaths(Get(action, "validPaths")))])
    else m
  }

  /** An entry of `getImageData().delImages`. */
  datatype DelRef = DelRef(path: string, nodeId: string)
  /** An entry of `getImageData().tempImages`. */
  datatype TempRef = TempRef(path: string, base64: string, nodeId: string)

  function DelRefs(images: seq<Image>, nodeId: string): (r: seq<DelRef>)
    ensures forall d :: d in r ==> d.path != "" && d.nodeId == nodeId
    decreases |images|
  {
    if images == [] then []
    else (if images[0].path != "" then [DelRef(images[0].path, nodeId)] else []) + DelRefs(images[1..], nodeId)
  }

  function TempRefs(images: seq<Image>, nodeId: string): (r: seq<TempRef>)
    ensures forall t :: t in r ==> t.path != "" && t.base64 != "" && t.nodeId == nodeId
    decreases |images|
  {
    if images == [] then []
    else
      var head := if images[0].path != "" && images[0].base64 != "" then [TempRef(images[0].path, images[0].base64, nodeId)] else [];
      head + TempRefs(images[1..], nodeId)
  }

  /** `getImageData()`: the staged deletions and additions of every present node, in node order. */
  function ImageData(nodes: seq<Node>): (seq<DelRef>, seq<TempRef>)
    decreases |nodes|
  {
    if nodes == [] then ([], [])
    else
      var prev := ImageData(nodes[..|nodes| - 1]);
      var n := nodes[|nodes| - 1];
      if n.meta.isMissing then prev
      else (prev.0 + DelRefs(n.meta.delImages, n.id), prev.1 + TempRefs(n.meta.tempImages, n.id))
  }

  /** `clearTempImageData` on one node: the staged images are committed and both staging lists emptied. */
  function ClearTemp(n: Node): Node {
    if n.meta.isMissing then n
    else n.(meta := n.meta.(images := n.meta.images + n.meta.tempImages, tempImages := [], delImages := []))
  }

  function ClearTempAll(nodes: seq<Node>): (r: seq<Node>)
    ensures |r| == |nodes|
    ensures forall k :: 0 <= k < |nodes| ==> r[k] == ClearTemp(nodes[k])
  {
    seq(|nodes|, k requires 0 <= k < |nodes| => ClearTemp(nodes[k]))
  }


  // ---------------------------------------------------------------------------
  // Lemmas

  /** `modifyTemplatePath` add: the template is a list holding the path,
      unchanged when the path was already there, else with it appended. */
  lemma AddTemplatePathSpec(d: Record, path: string)
    ensures var r := AddTemplatePath(d, path);
      "template" in r && r["template"].Arr? && Str(path) in TemplatePaths(r) &&
      TemplatePaths(r) == (if Str(path) in TemplatePaths(d) then TemplatePaths(d) else TemplatePaths(d) + [Str(path)])
    ensures forall k :: k in d && k != "template" ==> k in AddTemplatePath(d, path) && AddTemplatePath(d, path)[k] == d[k]
  {
  }

  lemma {:induction false} WithoutValueSpec(items: seq<Value>, v: Value)
    ensures forall x :: x in WithoutValue(items, v) <==> x in items && !StrictEq(x, v)
    decreases |items|
  {
    if items != [] {
      WithoutValueSpec(items[1..], v);
      assert items == [items[0]] + items[1..];
    }
  }

  lemma {:induction false} ImagesWithPathSpec(images: seq<Image>, path: string, keep: bool)
    ensures forall img :: img in ImagesWithPath(images, path, keep) <==> img in images && (img.path == path) == keep
    decreases |images|
  {
    if images != [] {
      ImagesWithPathSpec(images[1..], path, keep);
      assert images == [images[0]] + images[1..];
    }
  }

  lemma {:induction false} ImagesInSpec(images: seq<Image>, paths: seq<Value>, keep: bool)
    ensures forall img :: img in ImagesIn(images, paths, keep) <==> img in images && PathIn(img, paths) == keep
    decreases |images|
  {
    if images != [] {
      ImagesInSpec(images[1..], paths, keep);
      assert images == [images[0]] + images[1..];
    }
  }

  /** `modifyTemplatePath` remove: the template is a list without the path
      and with every other entry it had. */
  lemma RemoveTemplatePathSpec(d: Record, path: Value)
    ensures var r := RemoveTemplatePath(d, path);
      "template" in r && r["template"].Arr? &&
      forall x :: x in TemplatePaths(r) <==> x in TemplatePaths(d) && !StrictEq(x, path)
  {
    WithoutValueSpec(TemplatePaths(d), path);
  }

  /** After removing several paths, none of them is left in the template. */
  lemma {:induction false} RemoveTemplatePathsSpec(d: Record, paths: seq<Value>)
    ensures var r := RemoveTemplatePaths(d, paths);
      (paths != [] ==> "template" in r && r["template"].Arr?) &&
      (forall x :: x in TemplatePaths(r) ==> x in TemplatePaths(d)) &&
      forall j, x :: 0 <= j < |paths| && x in TemplatePaths(r) ==> !StrictEq(x, paths[j])
    decreases |paths|
  {
    if paths != [] {
      var init := paths[..|paths| - 1];
      var prev := RemoveTemplatePaths(d, init);
      var r := RemoveTemplatePath(prev, paths[|paths| - 1]);
      assert RemoveTemplatePaths(d, paths) == r;
      RemoveTemplatePathsSpec(d, init);
      RemoveTemplatePathSpec(prev, paths[|paths| - 1]);
      ClearedStep(TemplatePaths(r), TemplatePaths(prev), init, paths[|paths| - 1]);
      assert paths == init + [paths[|paths| - 1]];
    }
  }

  /** One more removal keeps every earlier path out and takes the new one out. */
  lemma ClearedStep(now: seq<Value>, before: seq<Value>, init: seq<Value>, last: Value)
    requires forall x :: x in now ==> x in before && !StrictEq(x, last)
    requires forall j, x :: 0 <= j < |init| && x in before ==> !StrictEq(x, init[j])
    ensures forall j, x :: 0 <= j < |init + [last]| && x in now ==> !StrictEq(x, (init + [last])[j])
  {
    forall j, x | 0 <= j < |init + [last]| && x in now ensures !StrictEq(x, (init + [last])[j]) {
      if j < |init| {
        assert (init + [last])[j] == init[j];
      }
    }
  }

  /** Splitting the images by path loses and invents none. */
  lemma {:induction false} ImagesPartition(images: seq<Image>, paths: seq<Value>)
    ensures multiset(ImagesIn(images, paths, true)) + multiset(ImagesIn(images, paths, false)) == multiset(images)
    decreases |images|
  {
    if images != [] {
      ImagesPartition(images[1..], paths);
      assert images == [images[0]] + images[1..];
    }
  }

  /** `delete_images` moves the matching images to the delete list, so the
      images of both lists together are the same, and takes their paths out
      of the template. */
  lemma DeleteImagesSpec(m: Meta, paths: seq<Value>)
    requires paths != []
    ensures var r := DeleteImages(m, paths);
      multiset(r.images) + multiset(r.delImages) == multiset(m.images) + multiset(m.delImages) &&
      |r.images| + |r.delImages| == |m.images| + |m.delImages| &&
      (forall img :: img in r.images ==> !PathIn(img, paths)) &&
      (forall img :: img in m.images && PathIn(img, paths) ==> img in r.delImages) &&
      forall j, x :: 0 <= j < |paths| && x in TemplatePaths(r.data) ==> !StrictEq(x, paths[j])
  {
    ImagesPartition(m.images, paths);
    ImagesInSpec(m.images, paths, true);
    ImagesInSpec(m.images, paths, false);
    RemoveTemplatePathsSpec(m.data, paths);
    var r := DeleteImages(m, paths);
    assert multiset(r.delImages) == multiset(m.delImages) + multiset(ImagesIn(m.images, paths, true));
    assert |multiset(r.images) + multiset(r.delImages)| == |multiset(m.images) + multiset(m.delImages)|;
  }

  /** `restore_image` acts only when the delete list has an image with that path. */
  lemma RestoreOnlyDeleted(m: Meta, action: Record)
    requires Get(action, "_action") == Some(Str("restore_image"))
    requires !(Get(action, "imagePath").Some? && action["imagePath"].Str? &&
               exists img :: img in m.delImages && img.path == action["imagePath"].s)
    ensures SpecialAction(m, action) == m
  {
    match Get(action, "imagePath")
    case Some(Str(p)) =>
      var f := FirstWithPath(m.delImages, p);
      assert f.None?;
    case _ =>
  }

  /** `add_temp_image` needs both a path and image data; given both, the
      image is staged and its path is in the template. */
  lemma AddTempImageSpec(m: Meta, action: Record)
    requires Get(action, "_action") == Some(Str("add_temp_image"))
    ensures var r := SpecialAction(m, action);
      var path := TextField(action, "imagePath");
      var data := TextField(action, "imageBase64");
      if path.None? || data.None? then r == m
      else
        r.tempImages == m.tempImages + [Image(path.value, data.value, true)] &&
        r.images == m.images && r.delImages == m.delImages && Str(path.value) in TemplatePaths(r.data)
  {
    var path := TextField(action, "imagePath");
    if path.Some? {
      AddTemplatePathSpec(m.data, path.value);
    }
  }

  lemma {:induction false} ImagesWithPathNone(images: seq<Image>, p: string)
    requires forall img :: img in images ==> img.path != p
    ensures ImagesWithPath(images, p, false) == images
    decreases |images|
  {
    if images != [] {
      ImagesWithPathNone(images[1..], p);
      assert images == [images[0]] + images[1..];
    }
  }

  lemma {:induction false} ImagesInSingle(images: seq<Image>, ps: seq<Value>, p: string)
    requires ps == [Str(p)]
    ensures ImagesIn(images, ps, true) == ImagesWithPath(images, p, true)
    ensures ImagesIn(images, ps, false) == ImagesWithPath(images, p, false)
    decreases |images|
  {
    if images != [] {
      ImagesInSingle(images[1..], ps, p);
    }
  }

  lemma {:induction false} ImagesWithPathAppend(a: seq<Image>, b: seq<Image>, p: string)
    ensures ImagesWithPath(a + b, p, false) == ImagesWithPath(a, p, false) + ImagesWithPath(b, p, false)
    decreases |a|
  {
    if a != [] {
      assert (a + b)[1..] == a[1..] + b;
      ImagesWithPathAppend(a[1..], b, p);
    } else {
      assert a + b == b;
    }
  }

  function DeleteAction(p: string): Record {
    map["_action" := Str("delete_images"), "deletePaths" := Arr([Str(p)])]
  }

  function RestoreAction(p: string): Record {
    map["_action" := Str("restore_image"), "imagePath" := Str(p)]
  }

  lemma DeleteStep(m: Meta, p: string)
    ensures SpecialAction(m, DeleteAction(p)) == DeleteImages(m, [Str(p)])
  {
    assert DeletePaths(DeleteAction(p)) == [Str(p)];
  }

  lemma RestoreStep(m: Meta, p: string, img: Image)
    requires FirstWithPath(m.delImages, p) == Some(img)
    ensures SpecialAction(m, RestoreAction(p)) ==
      m.(delImages := ImagesWithPath(m.delImages, p, false), images := m.images + [img], data := AddTemplatePath(m.data, p))
  {
  }

  /** Deleting the only image with path `p` moves exactly that image to the
      end of the delete list. */
  lemma DeleteOne(m: Meta, p: string) returns (img: Image)
    requires |ImagesWithPath(m.images, p, true)| == 1
    ensures img.path == p
    ensures DeleteImages(m, [Str(p)]).delImages == m.delImages + [img]
    ensures multiset(DeleteImages(m, [Str(p)]).images) + multiset{img} == multiset(m.images)
  {
    var ps := [Str(p)];
    ImagesInSingle(m.images, ps, p);
    ImagesPartition(m.images, ps);
    var moved := ImagesWithPath(m.images, p, true);
    img := moved[0];
    ImagesWithPathSpec(m.images, p, true);
    assert img in moved;
    assert moved == [img];
  }

  /** Deleting the one image with a path and restoring that path gives back
      the same images (the restored one last) and the same delete list. */
  lemma DeleteThenRestore(m: Meta, p: string)
    requires |ImagesWithPath(m.images, p, true)| == 1
    requires forall img :: img in m.delImages ==> img.path != p
    ensures var r := SpecialAction(SpecialAction(m, DeleteAction(p)), RestoreAction(p));
      multiset(r.images) == multiset(m.images) && r.delImages == m.delImages
  {
    DeleteStep(m, p);
    var m1 := DeleteImages(m, [Str(p)]);
    var img := DeleteOne(m, p);
    FirstWithPathAppend(m.delImages, img, p);
    RestoreStep(m1, p, img);
    ImagesWithPathAppend(m.delImages, [img], p);
    ImagesWithPathNone(m.delImages, p);
    assert ImagesWithPath([img], p, false) == [];
  }

  lemma {:induction false} FirstWithPathAppend(images: seq<Image>, img: Image, p: string)
    requires forall x :: x in images ==> x.path != p
    requires img.path == p
    ensures FirstWithPath(images + [img], p) == Some(img)
    decreases |images|
  {
    if images != [] {
      assert (images + [img])[1..] == images[1..] + [img];
      FirstWithPathAppend(images[1..], img, p);
    }
  }

  /** After `clearTempImageData` nothing is staged: `getImageData` reports nothing. */
  lemma {:induction false} ClearedHasNoImageData(nodes: seq<Node>)
    ensures ImageData(ClearTempAll(nodes)) == ([], [])
    decreases |nodes|
  {
    if nodes != [] {
      var init := nodes[..|nodes| - 1];
      ClearedHasNoImageData(init);
      assert ClearTempAll(nodes)[..|nodes| - 1] == ClearTempAll(init);
    }
  }
}
