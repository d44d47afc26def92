# MaaInspector editor core, modelled in Dafny

MaaInspector is a visual editor for MaaFramework pipelines. A pipeline document is
a map from node name to a record. Three fields of a record (`next`, `on_error`,
`timeout_next`; in the older JavaScript edition also `interrupt`) link to other
nodes. The editor keeps a graph of nodes and edges in step with those fields,
lays the graph out, edits single records through a node form and saves documents
through a small Python back end. This project models that core and proves what
it promises.

- Json (json.dfy): dynamic JS/Python values, truthiness, `String()`, `===`, trimming, split/join
- LinkCodec (link_codec.dfy): link values with `[Anchor]`/`[JumpBack]` markers (`stripPrefix`, `buildLinkId`, `parseLinkFlags`)
- FlowTypes (flow_types.dfy): nodes, node metadata, edges, images, points
- GraphSync (graph_sync.dfy): connect/disconnect, edge removal, jump-back, rename, link normalisation, export (useFlowGraph.ts)
- GraphLoad (graph_load.dfy): `loadNodes` as functions and its invariant (useFlowGraph.ts)
- GraphInvariant (graph_invariant.dfy): edge/field consistency (`Synced`) kept by connect, removal and jump-back
- GraphImages (graph_images.dfy): template paths and the image staging actions
- UseFlowGraph (flow_graph.dfy): class `FlowGraph`: the state and handlers of `useFlowGraph()` (TypeScript)
- GraphLegacy, UseFlowGraphLegacy (graph_legacy.dfy, flow_graph_legacy.dfy): the JavaScript edition of the graph handlers
- Layout, ChainTraversal (layout.dfy, chain_traversal.dfy): node boxes, edge order, placement, ordered chain layout, breadth-first walk
- LayoutLegacy (layout_legacy.dfy): the JavaScript edition of the layout
- NodeForm, NodeFormLegacy (node_form.dfy, node_form_legacy.dfy): class `NodeForm`: the form rules of `useNodeForm` in both editions
- NodeLoader (node_loader.dfy): class `JsonNodeLoader` of the back end over an in-memory folder
- BackendUtils (backend_utils.dfy): `convert_node`, `json_response`, `sse_format`, `load_config`
- PortArg (port_arg.dfy): `parse_port_arg` of the desktop shell
- EmbeddedPython (embedded_python.dfy): `detect_windows_arch`, `build_download_url`, `ensure_import_site`

Handlers that change state are methods of a class whose fields are the source's
refs (`nodes`, `edges`, `currentSpacing`, `formData`, `files_data`, ...). Each one
is proved to leave exactly the state a function of the old state describes, and
the properties the source promises are proved about those functions. Loops of the
source (`loadNodes`, rename propagation, `normalizeLinksAcrossNodes`, the chain
walk, `getNodesData`, `_normalize_data`, `search_nodes`, `parse_port_arg`,
`ensure_import_site`, the `load_config` fill) are `while` loops with invariants.

Parts of the environment are parameters rather than code:
- `dagre.layout` is a function from node boxes and ordered edge pairs to centres.
- Measured node sizes come from a function from node id to dimensions.
- The id vue-flow gives a new edge is an argument.
- `JSON.stringify` of a document is an encoder.
- `JSON.parse`, `JSON.stringify` (compact, and indented by two spaces for the JSON editor) and `Number()` in the form are a `JsonCodec`.
- Python `repr`/`str` of a value is a function.
- The platform's `os.path.normpath` and `os.path.join` are a `PathOps` pair, so the separator and the normal form follow the platform.
- A directory listing is a sequence of name/content entries, each content parsed, unreadable or not JSON.

## Model

| member | source | states |
|---|---|---|
| LinkCodec.StripNoMarkers | src/utils/useFlowGraph.ts:100 | text with neither marker is left unchanged by the strip |
| LinkCodec.StripBuilt | src/utils/useFlowGraph.ts:100-107 | stripping a built link gives the stripped target whatever the flags |
| LinkCodec.BuiltFlags | src/utils/useFlowGraph.ts:101-112 | a built link contains `[Anchor]` exactly when anchored and `[JumpBack]` exactly when jump-back |
| LinkCodec.RoundTrip | src/utils/useFlowGraph.ts:100-112 | parsing a built link gives back the target, the anchor flag and the jump-back flag |
| LinkCodec.RoundTripAnchorFirst | src/utils/useFlowGraph.ts:108-112 | markers in the other order (`[Anchor][JumpBack]t`) parse to the same flags and target |
| LinkCodec.LinkTargetOfBuilt | src/utils/useFlowGraph.ts:100-112 | the target read back from a built link is the target it was built from |
| LinkCodec.JumpBackHidesNoAnchor | src/utils/useFlowGraph.ts:104-106 | prefixing `[JumpBack]` neither creates nor hides an `[Anchor]` occurrence |
| LinkCodec.AnchorHidesNoJumpBack | src/utils/useFlowGraph.ts:104-106 | prefixing `[Anchor]` neither creates nor hides a `[JumpBack]` occurrence |
| FlowTypes.FindIndex | src/utils/useFlowGraph.ts:177-190 | `findNode`: the first node with the id, or none when no node has it |
| GraphSync.PortOf | src/utils/useFlowGraph.ts:40-43 | only `source-a` and `source-c` are ports; `source-a` is `next`, `source-c` is `on_error`, both lists |
| GraphSync.OnValidateConnection | src/utils/useFlowGraph.ts:147-151 | self-loops and source handle `in` are refused; otherwise valid exactly when the target handle is `in` |
| GraphSync.CreateNodeObject | src/utils/useFlowGraph.ts:153-175 | the node's ids, origin position and empty image lists; `interrupt` dropped; the type is `Unknown` for a placeholder, else the truthy raw `recognition`, else `DirectHit`; a node of type `Unknown` keeps only `id` and a truthy `anchor`; other nodes keep every raw field and `recognition` is their type |
| GraphSync.FirstMatch | src/utils/useFlowGraph.ts:191-195 | the first list entry whose stripped id is the target, or none |
| GraphSync.FindEdge | src/utils/useFlowGraph.ts:220-222 | an edge with the same source, target and source handle, or none when there is none |
| GraphSync.FindEdgeById | src/utils/useFlowGraph.ts:244-246 | the first edge with the id, or none |
| GraphSync.RemoveEdgesSpec | src/utils/useFlowGraph.ts:224 | `removeEdges` keeps exactly the edges with another id |
| GraphSync.RenameEdges | src/utils/useFlowGraph.ts:298-303 | every edge is renamed by the same rule, in place |
| GraphSync.NormalizeItems | src/utils/useFlowGraph.ts:118-124 | every list entry is normalised, in place |
| GraphSync.Truthy | src/utils/useFlowGraph.ts:125-129 | `filter(Boolean)`: exactly the truthy entries |
| GraphSync.NormalizeNodes | src/utils/useFlowGraph.ts:116-145 | every node is normalised against the anchor ids of the whole list |
| GraphSync.ListAdd | src/utils/useFlowGraph.ts:191-200 | an add overwrites the first entry naming the target in place or appends one; all other entries keep their places |
| GraphSync.ListRemove | src/utils/useFlowGraph.ts:201-206 | a remove splices only the first entry naming the target; the order of the rest is kept |
| GraphSync.ConnectTwice | src/utils/useFlowGraph.ts:219-239 | connecting a fresh pair twice leaves the edges as they were and the field holding its former entries as a list |
| GraphSync.ReplaceLinkValSpec | src/utils/useFlowGraph.ts:307-313 | a link naming the old id names the new id with the same flags; other values are untouched |
| GraphSync.RenameEdgeSpec | src/utils/useFlowGraph.ts:298-303 | endpoints equal to the old id become the new id; handles, label and jump-back are kept |
| GraphSync.NodeUpdateCollision | src/utils/useFlowGraph.ts:291-292 | renaming onto an existing id is refused |
| GraphSync.NodeUpdateAction | src/utils/useFlowGraph.ts:281-290 | a payload with `_action` changes only that node's metadata: no rename, edges untouched |
| GraphSync.NodeUpdateRename | src/utils/useFlowGraph.ts:291-335 | a rename sets the id and type, keeps every position and other id, and no edge endpoint keeps the old id |
| GraphSync.NewDataOverwrites | src/utils/useFlowGraph.ts:293-335 | with `newData`, the renamed node's record is `newData` with its `id` and `recognition`, normalised, in place of the rewritten record; the edges are renamed |
| GraphSync.NewDataKeepsSelfLink | src/utils/useFlowGraph.ts:293-335 | a `newData` whose `next` links to the old id keeps naming the old id, while the node's self-edges move to the new id |
| GraphSync.ReplaceFieldAt | src/utils/useFlowGraph.ts:314-323 | one link field is rewritten by the rename rule; every other key is untouched |
| GraphSync.RenameLinks | src/utils/useFlowGraph.ts:325-329 | in every node each of the three link fields is rewritten by the rename rule |
| GraphSync.NormalizeItemSpec | src/utils/useFlowGraph.ts:118-124 | a normalised link keeps its target and jump-back flag and is anchored when it was or when its target is an anchor node |
| GraphSync.NormalizeItemIdempotent | src/utils/useFlowGraph.ts:118-124 | normalising a link entry twice changes nothing more |
| GraphSync.MarkerOnlyGrows | src/utils/useFlowGraph.ts:118-124 | a bare `[Anchor]` value grows a second marker on each pass, so idempotence needs a non-empty target |
| GraphSync.NormalizeValueTruthy | src/utils/useFlowGraph.ts:125-129 | a kept field is never null, and a kept list is non-empty with only truthy entries |
| GraphSync.NormalizeValueIdempotent | src/utils/useFlowGraph.ts:125-129 | normalising a settled field value twice changes nothing more |
| GraphSync.NormalizeDataAt | src/utils/useFlowGraph.ts:131-144 | the three link fields are normalised or deleted; every other key is untouched |
| GraphSync.NormalizeDeletes | src/utils/useFlowGraph.ts:125-144 | fields that end up null or an empty list are deleted |
| GraphSync.NormalizeDataIdempotent | src/utils/useFlowGraph.ts:116-145 | normalising a settled record twice changes nothing more |
| GraphSync.AnchorIdsNormalized | src/utils/useFlowGraph.ts:113-117 | normalisation does not change which nodes are anchors |
| GraphSync.NormalizeNodesIdempotent | src/utils/useFlowGraph.ts:116-145 | `normalizeLinksAcrossNodes` is idempotent on settled nodes |
| GraphSync.ExportKeys | src/utils/useFlowGraph.ts:61-76 | the exported document has exactly the ids of the exported (not missing, not Unknown, not Anchor) nodes |
| GraphSync.ExportValue | src/utils/useFlowGraph.ts:61-76 | with unique ids, an exported node's record is its data without `id` and `interrupt` |
| GraphSync.ExportOmits | src/utils/useFlowGraph.ts:64-66 | missing, Unknown and Anchor nodes are left out of the export |
| GraphLoad.LoadEdge | src/utils/useFlowGraph.ts:425-448 | a loaded edge runs from the entry to the stripped target into `in`, with the link's jump-back flag and its label |
| GraphLoad.EntryNodes | src/utils/useFlowGraph.ts:410-413 | the first pass makes one node per document entry and no edge |
| GraphLoad.EntryNodesInv | src/utils/useFlowGraph.ts:410-413 | after the first pass the load invariant holds |
| GraphLoad.EnsureNodeSpec | src/utils/useFlowGraph.ts:430-437 | ensuring a target records it as created, adds no edge and keeps the node invariant |
| GraphLoad.LinkStepInv | src/utils/useFlowGraph.ts:425-448 | one link entry keeps the load invariant |
| GraphLoad.LinkTargetsInv | src/utils/useFlowGraph.ts:422-449 | the entries of one field keep the load invariant |
| GraphLoad.LinkFieldsInv | src/utils/useFlowGraph.ts:415-451 | the link fields of one record keep the load invariant |
| GraphLoad.LinkEntriesInv | src/utils/useFlowGraph.ts:415-452 | the second pass keeps the load invariant |
| GraphLoad.LinkPortHandles | src/utils/useFlowGraph.ts:415-419 | every link field loads on `source-a` or `source-c` |
| GraphLoad.LoadLinksInv | src/utils/useFlowGraph.ts:404-452 | with distinct entries, the two passes end in the load invariant |
| GraphLoad.LinkTargetsEdges | src/utils/useFlowGraph.ts:422-449 | one edge per truthy entry of a field, in order |
| GraphLoad.LinkFieldEdges | src/utils/useFlowGraph.ts:420-424 | a falsy field adds nothing; a non-empty string adds exactly one edge |
| GraphLoad.LoadConnected | src/utils/useFlowGraph.ts:404-463 | after a load the ids are unique, the entries' nodes come first in order, and every edge joins two nodes into `in` |
| GraphInvariant.ListSnoc | src/utils/useFlowGraph.ts:191-200 | appending an entry for a new target adds exactly its link to the field |
| GraphInvariant.ListRemoveAt | src/utils/useFlowGraph.ts:201-206 | splicing one entry removes exactly its link from the field |
| GraphInvariant.ListSetAt | src/utils/useFlowGraph.ts:196-199 | overwriting an entry in place swaps exactly one link |
| GraphInvariant.UniqueRemoveAt | src/utils/useFlowGraph.ts:224 | with unique edges, removing by id drops exactly that edge |
| GraphInvariant.SyncAt | src/utils/useFlowGraph.ts:177-217 | rewriting one node's field to match its out-edges keeps the graph consistent |
| GraphInvariant.DropLink | src/utils/useFlowGraph.ts:241-256 | removing an edge and its field entry keeps the graph consistent |
| GraphInvariant.ConnectOffSynced | src/utils/useFlowGraph.ts:219-239 | disconnecting keeps every link field in step with the edges |
| GraphInvariant.ConnectOnSynced | src/utils/useFlowGraph.ts:219-239 | connecting a fresh pair with a fresh edge id keeps every link field in step with the edges |
| GraphInvariant.ConnectAddsLink | src/utils/useFlowGraph.ts:177-239 | with no edge for the pair, the new edge is appended and is the one found for the pair, and the source's link field gains exactly the plain link to the target |
| GraphInvariant.ConnectRemovesLink | src/utils/useFlowGraph.ts:177-239 | with an edge for the pair, that edge is spliced out, no edge keeps its id or joins the pair, and the source's link field loses exactly that edge's link |
| GraphInvariant.ConnectSynced | src/utils/useFlowGraph.ts:219-239 | `handleConnect` keeps every link field in step with the edges, for a target without marker text and a fresh edge id |
| GraphInvariant.RemoveSynced | src/utils/useFlowGraph.ts:241-256 | removing an edge keeps every link field in step with the edges |
| GraphInvariant.JumpBackSynced | src/utils/useFlowGraph.ts:258-279 | `setEdgeJumpBack` keeps every link field in step with the edges |
| GraphImages.ImagesIn | src/utils/useFlowGraph.ts:361-366 | filtering images never yields more than it was given |
| GraphImages.ImagesInSpec | src/utils/useFlowGraph.ts:361-366 | the kept images are exactly those whose path is (or is not) listed |
| GraphImages.ImagesPartition | src/utils/useFlowGraph.ts:361-366 | the matching and non-matching images together are the original images |
| GraphImages.FirstWithPath | src/utils/useFlowGraph.ts:379-381 | a deleted image with the path, or none exactly when none has it |
| GraphImages.DecodeImages | src/utils/useFlowGraph.ts:54-59 | one image per stored list element |
| GraphImages.DelRefs | src/utils/useFlowGraph.ts:473-483 | every reported deletion has a path and the node's id |
| GraphImages.TempRefs | src/utils/useFlowGraph.ts:473-483 | every reported temporary image has a path, data and the node's id |
| GraphImages.ClearTempAll | src/utils/useFlowGraph.ts:484-497 | every node is cleared in place |
| GraphImages.AddTemplatePathSpec | src/utils/useFlowGraph.ts:339-347 | add leaves `template` a list holding the path, adds it only when absent and touches no other key |
| GraphImages.RemoveTemplatePathSpec | src/utils/useFlowGraph.ts:339-353 | remove leaves `template` a list without the path and with every other path |
| GraphImages.RemoveTemplatePathsSpec | src/utils/useFlowGraph.ts:360-368 | removing several paths leaves none of them and adds nothing |
| GraphImages.DeleteImagesSpec | src/utils/useFlowGraph.ts:360-368 | `delete_images` moves the matching images to the deleted list, conserving the total, and removes the paths from `template` |
| GraphImages.RestoreOnlyDeleted | src/utils/useFlowGraph.ts:378-387 | `restore_image` of a path not in the deleted list changes nothing |
| GraphImages.AddTempImageSpec | src/utils/useFlowGraph.ts:370-376 | `add_temp_image` needs both a path and data, then appends one temporary image and lists the path in `template` |
| GraphImages.DeleteStep | src/utils/useFlowGraph.ts:360-368 | deleting one path is `delete_images` of a one-element list |
| GraphImages.RestoreStep | src/utils/useFlowGraph.ts:378-387 | restoring appends the first deleted image with the path to the images, drops the path's entries from the deleted list and re-adds the path to `template` |
| GraphImages.DeleteOne | src/utils/useFlowGraph.ts:360-368 | deleting the one image with a path moves exactly that image |
| GraphImages.DeleteThenRestore | src/utils/useFlowGraph.ts:360-387 | deleting then restoring one image gives back the same images (as a multiset) and the same deleted list |
| GraphImages.ClearedHasNoImageData | src/utils/useFlowGraph.ts:473-497 | after `clearTempImageData` there is nothing to report |
| UseFlowGraph.CollectEntries | src/utils/useFlowGraph.ts:410-413 | the first loop of `loadNodes` computes the first pass |
| UseFlowGraph.CollectTargets | src/utils/useFlowGraph.ts:422-449 | the loop over one field's targets computes its edges and placeholders |
| UseFlowGraph.CollectFields | src/utils/useFlowGraph.ts:415-451 | the loop over the link fields of one entry |
| UseFlowGraph.CollectLinks | src/utils/useFlowGraph.ts:415-452 | the second loop of `loadNodes` computes the second pass |
| UseFlowGraph.NormalizeLinks | src/utils/useFlowGraph.ts:116-145 | the loop of `normalizeLinksAcrossNodes` computes the normalised nodes |
| UseFlowGraph.FlowGraph.constructor | src/utils/useFlowGraph.ts:30-36 | an empty graph, `normal` spacing, no file and no snapshot; consistent |
| UseFlowGraph.FlowGraph.HandleConnect | src/utils/useFlowGraph.ts:219-239 | the new graph is the toggle of the edge and its field entry; consistency is kept |
| UseFlowGraph.FlowGraph.HandleEdgesChange | src/utils/useFlowGraph.ts:241-256 | the field bookkeeping of each removal, in order; the edges are left to vue-flow |
| UseFlowGraph.FlowGraph.SetEdgeJumpBack | src/utils/useFlowGraph.ts:258-279 | the edge's flag and the field entry's markers change together; consistency is kept |
| UseFlowGraph.FlowGraph.RenameNode | src/utils/useFlowGraph.ts:293-331 | the rename of the node, the edges and every link field |
| UseFlowGraph.FlowGraph.HandleNodeUpdate | src/utils/useFlowGraph.ts:281-337 | the update's new graph, or the collision error with nothing changed |
| UseFlowGraph.FlowGraph.BuildGraph | src/utils/useFlowGraph.ts:404-455 | both passes and the layout |
| UseFlowGraph.FlowGraph.LoadNodes | src/utils/useFlowGraph.ts:404-463 | the loaded graph with file and source recorded and the snapshot taken; unique ids, entries first, every edge between nodes |
| UseFlowGraph.FlowGraph.GetNodesData | src/utils/useFlowGraph.ts:61-76 | the loop of `getNodesData` computes the export |
| UseFlowGraph.FlowGraph.ClearDirty | src/utils/useFlowGraph.ts:78-81 | afterwards the snapshot is the current export and nothing is dirty; the graph is untouched |
| UseFlowGraph.FlowGraph.GetImageData | src/utils/useFlowGraph.ts:473-483 | the deletions and temporary images of all nodes, in node order |
| UseFlowGraph.FlowGraph.ClearTempImageData | src/utils/useFlowGraph.ts:484-497 | staged images committed, both staging lists empty, nothing left to report |
| UseFlowGraph.FlowGraph.ApplyLayout | src/utils/useFlowGraph.ts:529-532 | the nodes laid out again with the key's spacing (the current one for an empty key); ids, data and edges kept |
| UseFlowGraph.FlowGraph.LayoutChain | src/utils/useFlowGraph.ts:498-505 | no layout and no change for an empty or unknown root; otherwise the chain positions and the shifted remaining nodes are applied |
| UseFlowGraph.FlowGraph.LayoutTaskChain | src/utils/useFlowGraph.ts:465-471 | the chain layout at the current spacing |
| GraphLegacy.LegacyPortOf | src/utils/useFlowGraph.js:22-26 | `source-a`, `source-b`, `source-c` are the ports, on `next`, `interrupt`, `on_error`; only `source-c` is a scalar |
| GraphLegacy.LegacyPortsDistinct | src/utils/useFlowGraph.js:22-26 | different ports write different fields |
| GraphLegacy.LegacyValidate | src/utils/useFlowGraph.js:65-67 | a valid connection ends in `in` |
| GraphLegacy.ValidateCompared | src/utils/useFlowGraph.js:65-67 | anything the typed edition accepts is accepted; self-loops and source `in` are accepted only here |
| GraphLegacy.LegacyCreateNode | src/utils/useFlowGraph.js:47-62 | ids, origin position, empty images; every raw field kept; type is a truthy `recognition`, `DirectHit`, or `Unknown` for a placeholder |
| GraphLegacy.PlaceholderData | src/utils/useFlowGraph.js:215-218 | a placeholder's data is exactly `{id, recognition: 'Unknown'}` |
| GraphLegacy.IndexOfValue | src/utils/useFlowGraph.js:88-90 | `indexOf`: the first exact match, or none when the value is absent |
| GraphLegacy.FieldToggle | src/utils/useFlowGraph.js:80-117 | turning a link on then off restores the record |
| GraphLegacy.ConnectAdds | src/utils/useFlowGraph.js:70-118 | with no matching edge the edge is appended and can be found; node ids are kept |
| GraphLegacy.LegacyConnectTwice | src/utils/useFlowGraph.js:70-118 | connecting a fresh pair twice restores the graph |
| GraphLegacy.RemovalIsToggleOff | src/utils/useFlowGraph.js:121-145 | removing an edge does the same field bookkeeping as toggling it off |
| GraphLegacy.ReplaceFirstOnly | src/utils/useFlowGraph.js:177-180 | only the first occurrence in a list is renamed |
| GraphLegacy.ReplaceFirstGone | src/utils/useFlowGraph.js:177-180 | when the old id occurs at most once, none is left |
| GraphLegacy.LegacyRenameComplete | src/utils/useFlowGraph.js:152-186 | with the renamed node included, no node names the old id any more (lists naming it at most once) |
| GraphLegacy.LegacyRenameAsWrittenOthers | src/utils/useFlowGraph.js:155-186 | onto an unused id, the rename as written leaves no node but the renamed one naming the old id, and changes only the renamed node's ids (lists naming it at most once) |
| GraphLegacy.LegacyRenameLeavesSelfLink | src/utils/useFlowGraph.js:172-186 | as written, a node linking to itself keeps naming its old id while its edge is renamed |
| GraphLegacy.LegacyUpdateRefused | src/utils/useFlowGraph.js:148-153 | the update fails exactly when the node exists and the new id is another existing id |
| GraphLegacy.LegacyUpdateKeepsIds | src/utils/useFlowGraph.js:148-192 | unique ids stay unique and only the renamed node's id changes |
| GraphLegacy.LegacyLoadEdge | src/utils/useFlowGraph.js:219-227 | a loaded edge is `e-src-tgt-field` from the entry to the target's text, labelled with the field |
| GraphLegacy.LegacyEntryNodes | src/utils/useFlowGraph.js:200-203 | one node per entry and no edge |
| GraphLegacy.LoadSpacing | src/utils/useFlowGraph.js:16-20 | a key other than `compact`, `normal` and `loose` gets the layout's `normal` preset |
| GraphLegacy.NormalIsNotDefault | src/utils/useFlowGraph.js:16-20 | this file's own `normal` preset differs from the preset an unknown key gets |
| GraphLegacy.LegacyEnsureNodeSpec | src/utils/useFlowGraph.js:213-217 | ensuring a target records it as created, adds no edge and keeps the load invariant |
| GraphLegacy.LegacyLinkStepInv | src/utils/useFlowGraph.js:211-228 | one link entry keeps the load invariant |
| GraphLegacy.LegacyLoadLinksInv | src/utils/useFlowGraph.js:195-231 | the two passes end in the load invariant |
| GraphLegacy.EntriesCreated | src/utils/useFlowGraph.js:205-231 | the second pass adds exactly the truthy link targets to the `Set` |
| GraphLegacy.LegacyLoadLinksSpec | src/utils/useFlowGraph.js:195-231 | entries' nodes first in order; then one placeholder per distinct unresolved target; every edge from an entry to a node |
| GraphLegacy.NumberTargetDuplicates | src/utils/useFlowGraph.js:211-217 | a numeric target with the text of an entry's id creates a second node with that id |
| GraphLegacy.LegacyLoadConnected | src/utils/useFlowGraph.js:195-236 | after a load the entries' nodes come first and every edge joins two nodes into `in` |
| UseFlowGraphLegacy.CollectEntries | src/utils/useFlowGraph.js:200-203 | the first loop computes the first pass |
| UseFlowGraphLegacy.CollectTargets | src/utils/useFlowGraph.js:213-228 | the loop over one field's targets |
| UseFlowGraphLegacy.CollectFields | src/utils/useFlowGraph.js:206-230 | the loop over the four link fields |
| UseFlowGraphLegacy.CollectLinks | src/utils/useFlowGraph.js:205-231 | the second loop computes the second pass |
| UseFlowGraphLegacy.FlowGraph.constructor | src/utils/useFlowGraph.js:9-12 | an empty graph with `normal` spacing |
| UseFlowGraphLegacy.FlowGraph.HandleConnect | src/utils/useFlowGraph.js:70-118 | the new graph is the toggle of the edge and the field |
| UseFlowGraphLegacy.FlowGraph.HandleEdgesChange | src/utils/useFlowGraph.js:121-145 | the field bookkeeping of each removal, in order |
| UseFlowGraphLegacy.FlowGraph.RenameNode | src/utils/useFlowGraph.js:155-186 | the rename of the node and the edges, then the reference update of every node whose id is not already the new id, so the renamed node's own links keep the old id |
| UseFlowGraphLegacy.FlowGraph.HandleNodeUpdate | src/utils/useFlowGraph.js:148-192 | the update's new graph or the collision error with nothing changed; unique ids stay unique |
| UseFlowGraphLegacy.FlowGraph.BuildGraph | src/utils/useFlowGraph.js:195-235 | both passes and the layout at the current spacing |
| UseFlowGraphLegacy.FlowGraph.LoadNodes | src/utils/useFlowGraph.js:195-240 | the loaded graph, or nothing assigned when the layout throws; entries first and every edge between nodes |
| UseFlowGraphLegacy.FlowGraph.ApplyLayout | src/utils/useFlowGraph.js:258-261 | the nodes laid out with the key's preset, or unchanged when the layout throws; ids and data kept |
| Layout.GetSpacingConfig | src/utils/useLayout.ts:6-20 | `compact` and `loose` give their presets; every other key gives `normal` |
| Layout.ResolveSpacing | src/utils/useLayout.ts:22-23 | an object is used as given, a key through its preset, nothing as `normal` |
| Layout.BoxOf | src/utils/useLayout.ts:12-17 | a box is the measured size, or 280 by 150 when absent, plus 20 on each axis |
| Layout.Boxes | src/utils/useLayout.ts:43-45 | one box per node, in node order |
| Layout.HandleWeight | src/utils/useLayout.ts:54-56 | weight 1 exactly for `source-a`, 3 exactly for `source-c`, 2 otherwise |
| Layout.SortedByWeight | src/utils/useLayout.ts:54-58 | the edges are ordered by weight |
| Layout.SortPermutation | src/utils/useLayout.ts:54-58 | sorting keeps every edge, as a permutation |
| Layout.SortStable | src/utils/useLayout.ts:54-58 | edges of equal weight keep their order |
| Layout.EdgePairs | src/utils/useLayout.ts:59-61 | one source/target pair per edge, in order |
| Layout.LayoutSpec | src/utils/useLayout.ts:28-75 | every node keeps id and data and is placed from dagre's centre for it |
| Layout.PlacementCentred | src/utils/useLayout.ts:67-69 | a placed node's box is centred on dagre's centre |
| Layout.ChainList | src/utils/useLayout.ts:97-105 | the chain targets of a list are non-empty texts, no more than the entries |
| Layout.NormalizeChainTargets | src/utils/useLayout.ts:97-105 | `0` gives `['0']`, other falsy values give nothing, and no target is empty |
| Layout.ChainListOfIds | src/utils/useLayout.ts:97-105 | a list of plain ids gives the same ids in order |
| Layout.ChainScalarId | src/utils/useLayout.ts:97-105 | a plain scalar id is wrapped in a list |
| Layout.ChainTextOfLinks | src/utils/useLayout.ts:102-103 | one leading `[JumpBack]` is stripped; an `[Anchor]` and a second `[JumpBack]` are kept |
| Layout.UniverseClosed | src/utils/useLayout.ts:118-145 | the root and all targets form a set closed under children, so the walk terminates |
| Layout.UnvisitedSpec | src/utils/useLayout.ts:157-160 | the remaining nodes are exactly the nodes not visited |
| Layout.EdgesWithinSpec | src/utils/useLayout.ts:160-161 | the remaining edges are exactly those with both ends among the remaining nodes |
| Layout.MaxX | src/utils/useLayout.ts:163-164 | the loop finds the largest chain x |
| Layout.ShiftAll | src/utils/useLayout.ts:165-171 | the loop computes the shifted remaining positions |
| Layout.RootAtOrigin | src/utils/useLayout.ts:146-155 | the root sits at (0, 0) |
| Layout.WalkChain | src/utils/useLayout.ts:118-145 | the `while` loop computes the breadth-first levels and visited set |
| Layout.ComputeOrderedChainLayout | src/utils/useLayout.ts:107-174 | none exactly for an empty or unknown root; otherwise the walk's ids, the per-level positions and the remaining nodes shifted right of the chain |
| Layout.ChainFromRoot | src/utils/useLayout.ts:119-173 | for a root that is a node, the walk's ids, the per-level positions and the remaining nodes shifted right of the widest chain x plus twice the node gap |
| Layout.ChainPlaced | src/utils/useLayout.ts:183-190 | a node gets its chain position, else its remaining position, else stays as it is; id and data kept |
| Layout.ApplyChain | src/utils/useLayout.ts:183-190 | every node is placed in place, count and order kept |
| Layout.ApplyOrderedChainLayout | src/utils/useLayout.ts:176-196 | nothing for an empty or unknown root; otherwise the nodes placed by the computed layout |
| Layout.ChainKeys | src/utils/useLayout.ts:146-155 | exactly the visited ids get chain positions |
| Layout.ChainSlot | src/utils/useLayout.ts:146-155 | node i of level d of n nodes sits at x = −(n−1)·nodesep/2 + i·nodesep and y = d·ranksep |
| Layout.ChainIdsOnce | src/utils/useLayout.ts:118-145 | each id appears in at most one level, once |
| Layout.RowIncreasing | src/utils/useLayout.ts:150-152 | x strictly increases along a level |
| Layout.UnvisitedIds | src/utils/useLayout.ts:157-160 | the remaining ids are all ids minus the visited ones |
| Layout.RemainingShifted | src/utils/useLayout.ts:157-172 | every remaining node is placed by the sub-layout, shifted in x only |
| ChainTraversal.FreshSpec | src/utils/useLayout.ts:130-138 | the children added to a level are distinct, not yet visited, and all children end up visited |
| ChainTraversal.RoundSpec | src/utils/useLayout.ts:124-141 | one round: the next level is the unvisited children in parent order, distinct, and the visited set grows when it is not empty |
| ChainTraversal.NextLevel | src/utils/useLayout.ts:124-141 | the loop over one level computes the round |
| ChainTraversal.Traverse | src/utils/useLayout.ts:118-145 | the `while` loop computes the walk |
| ChainTraversal.WalkStarts | src/utils/useLayout.ts:118-121 | `levels[0]` is the starting level |
| ChainTraversal.WalkShape | src/utils/useLayout.ts:118-145 | every id is placed at most once, only the starting level's ids were visited before, and the visited set ends as the starting set plus the placed ids |
| ChainTraversal.WalkRounds | src/utils/useLayout.ts:124-143 | level k+1 is the round of level k |
| ChainTraversal.WalkEnds | src/utils/useLayout.ts:140-143 | the walk stops at the first empty round |
| ChainTraversal.WalkParents | src/utils/useLayout.ts:124-141 | every node of level k+1 is a child of level k |
| ChainTraversal.WalkComplete | src/utils/useLayout.ts:118-145 | every child of a placed node is visited |
| ChainTraversal.SlotXFacts | src/utils/useLayout.ts:150-152 | slots are nodesep apart, symmetric about 0, and a single node sits at 0 |
| ChainTraversal.PlaceLevels | src/utils/useLayout.ts:146-155 | the loop computes the per-level positions |
| ChainTraversal.PlacedAt | src/utils/useLayout.ts:146-155 | with distinct keys every placed node gets exactly its level and slot |
| LayoutLegacy.LegacyBoxOf | src/utils/useLayout.js:44-47 | each side is the measured size plus the padding, or the fallback plus the padding when the size is missing or 0; so the box is larger than the padding unless the measured size is negative |
| LayoutLegacy.BoxesAgree | src/utils/useLayout.js:44-47 | the two editions size a box alike exactly when no measured size is 0 |
| LayoutLegacy.LegacyBoxes | src/utils/useLayout.js:44-47 | one box per node, in order |
| LayoutLegacy.LegacyWeight | src/utils/useLayout.js:54-65 | the weights of the typed edition |
| LayoutLegacy.LegacyLayout | src/utils/useLayout.js:31-86 | the layout throws exactly when dagre leaves a node unplaced, and keeps the count otherwise |
| LayoutLegacy.LegacyLayoutSpec | src/utils/useLayout.js:75-84 | each node keeps id and data and is centred on its centre |
| LayoutLegacy.LegacyLayoutKeeps | src/utils/useLayout.js:75-84 | the layout keeps count, order, ids and data |
| LayoutLegacy.LayoutsAgree | src/utils/useLayout.js:31-86 | with non-zero sizes and every node placed the editions agree |
| LayoutLegacy.LegacyChainList | src/utils/useLayout.js:102-109 | only truthy targets are kept |
| LayoutLegacy.LegacyChainTargets | src/utils/useLayout.js:102-109 | `0` gives the number `0`, other falsy values give nothing, every other target is truthy |
| LayoutLegacy.ChainListsAgree | src/utils/useLayout.js:102-109 | on lists of strings the editions agree |
| LayoutLegacy.FalsyElementsDiffer | src/utils/useLayout.js:102-109 | on `[0, false]` the typed edition keeps `'0'` and `'false'`, this one keeps nothing |
| LayoutLegacy.LegacyUniverseClosed | src/utils/useLayout.js:112-141 | the walk's universe is closed under children |
| LayoutLegacy.LegacyWalkChain | src/utils/useLayout.js:112-141 | the `while` loop computes the walk over values |
| LayoutLegacy.LegacyComputeOrderedChainLayout | src/utils/useLayout.js:111-176 | none exactly for an empty or unknown root; otherwise the walk's ids, the chain positions and the shifted remaining nodes, or the error exactly when the remaining sub-layout fails |
| LayoutLegacy.LegacyChainPlaced | src/utils/useLayout.js:181-188 | chain position, else remaining position, else unchanged |
| LayoutLegacy.LegacyApplyChain | src/utils/useLayout.js:181-188 | every node placed in place |
| LayoutLegacy.LegacyApplyOrderedChainLayout | src/utils/useLayout.js:178-190 | nothing exactly for an empty or unknown root; otherwise the nodes placed by a layout whose ids are the walk's visited set, whose chain positions are the level-by-level slots, and whose other positions are the sub-layout shifted right of the widest chain x; an error exactly when that sub-layout of the unvisited nodes throws |
| LayoutLegacy.LegacyWalkShape | src/utils/useLayout.js:112-141 | the first level is the root and every value is placed once |
| LayoutLegacy.StringTargetsDistinctKeys | src/utils/useLayout.js:146-156 | with only string targets the position keys are distinct |
| LayoutLegacy.LegacyRootAtOrigin | src/utils/useLayout.js:146-156 | with distinct keys the root sits at (0, 0) |
| NodeForm.GetValue | src/utils/nodeLogic.ts:177-180 | the stored value, else the given default unless nullish, else `DEFAULTS[key]` |
| NodeForm.SetValueIn | src/utils/nodeLogic.ts:182-192 | the key is deleted exactly when dropped (target true, strictly the default, `''` or null), else stored; other keys untouched |
| NodeForm.SetThenGet | src/utils/nodeLogic.ts:177-192 | a stored value that is not `''` or null reads back |
| NodeForm.SetValueTwice | src/utils/nodeLogic.ts:182-192 | setting the same value twice is setting it once |
| NodeForm.DefaultsTarget | src/utils/nodeLogic.ts:147-154 | the default of `target` is true |
| NodeForm.Texts | src/utils/nodeLogic.ts:194-197 | `String()` of each element, null as `''` |
| NodeForm.GetArrayValue | src/utils/nodeLogic.ts:194-197 | a list shows its elements joined by `', '`; a truthy scalar as it is; otherwise `''` |
| NodeForm.CleanParts | src/utils/nodeLogic.ts:206-210 | the kept parts are non-empty |
| NodeForm.SetArrayValueIn | src/utils/nodeLogic.ts:206-210 | blank text deletes the key; otherwise the trimmed non-empty comma parts are stored |
| NodeForm.ArrayTextRoundTrip | src/utils/nodeLogic.ts:194-210 | joining tidy parts by `', '` and parsing gives them back |
| NodeForm.ArrayTextStable | src/utils/nodeLogic.ts:194-210 | storing the shown text of a stored list changes nothing |
| NodeForm.GetArrayList | src/utils/nodeLogic.ts:199-204 | a list as it is; missing, null or `''` give `[]`; another scalar a singleton |
| NodeForm.CleanList | src/utils/nodeLogic.ts:212-217 | the kept items are truthy and trimmed |
| NodeForm.CleanListTwice | src/utils/nodeLogic.ts:212-217 | cleaning twice is cleaning once |
| NodeForm.SetArrayListIn | src/utils/nodeLogic.ts:212-217 | the cleaned list is stored, or the key deleted when nothing remains |
| NodeForm.ArrayListRoundTrip | src/utils/nodeLogic.ts:199-217 | the stored list reads back as the cleaned input, and storing it again changes nothing |
| NodeForm.GetJsonValue | src/utils/nodeLogic.ts:219-222 | the stored value's JSON text, else the default's, else `''` |
| NodeForm.JsonInputValue | src/utils/nodeLogic.ts:224-230 | blank gives null; `[`/`{` text is parsed or kept as text; other text is a number, or the text when not a number |
| NodeForm.JsonTextRoundTrip | src/utils/nodeLogic.ts:219-230 | plain text shows back as its number, or as itself when not a number |
| NodeForm.JsonBlankClears | src/utils/nodeLogic.ts:224-230 | blank text deletes the key |
| NodeForm.GetTargetValue | src/utils/nodeLogic.ts:232-235 | `''` for true or absent; a list as JSON text; a truthy value as it is; otherwise `''` |
| NodeForm.TargetInputValue | src/utils/nodeLogic.ts:237-246 | `''` or any-case `true` gives true; a JSON list is parsed; anything else is kept as text |
| NodeForm.TargetRoundTrip | src/utils/nodeLogic.ts:232-246 | the default text deletes `target` and shows `''`; other text shows back as entered or as the list's JSON |
| NodeForm.FilterOut | src/utils/nodeLogic.ts:260-263 | exactly the types not present, in their original order |
| NodeForm.AvailableFocusEvents | src/utils/nodeLogic.ts:260-263 | the focus event types without a key in `focus`, in order |
| NodeForm.UpdateFocusIn | src/utils/nodeLogic.ts:265-291 | the key is set in `focus`, created when missing; other keys untouched |
| NodeForm.RemoveFocusIn | src/utils/nodeLogic.ts:278-285 | the key is deleted, and `focus` with it when it becomes empty; nothing happens without `focus` |
| NodeForm.AddFocusHides | src/utils/nodeLogic.ts:260-276 | adding an event hides exactly it from the available events |
| NodeForm.RemoveFocusShows | src/utils/nodeLogic.ts:260-285 | removing an event makes exactly it available again |
| NodeForm.Emitted | src/utils/nodeLogic.ts:163-175 | emitting records the data once, refreshes the JSON text and clears the error |
| NodeForm.JsonInput | src/utils/nodeLogic.ts:248-258 | a parse failure keeps the data, sets the error and emits nothing; success emits the parsed record |
| NodeForm.NodeForm.constructor | src/utils/nodeLogic.ts:156-161 | the form starts from the node's data with its JSON text and nothing emitted |
| NodeForm.NodeForm.Refresh | src/utils/nodeLogic.ts:301-306 | a new node replaces the data; through `updateJsonFromForm` (src/utils/nodeLogic.ts:163-170) its indented JSON text is shown and the error is cleared; nothing is emitted |
| NodeForm.NodeForm.Emit | src/utils/nodeLogic.ts:172-175 | the data is emitted once |
| NodeForm.NodeForm.SetValue | src/utils/nodeLogic.ts:182-192 | the new data is `SetValueIn`, emitted once |
| NodeForm.NodeForm.SetArrayValue | src/utils/nodeLogic.ts:206-210 | the new data is `SetArrayValueIn`, emitted once |
| NodeForm.NodeForm.SetArrayList | src/utils/nodeLogic.ts:212-217 | the new data is `SetArrayListIn`, emitted once |
| NodeForm.NodeForm.SetJsonValue | src/utils/nodeLogic.ts:224-230 | the parsed input is set by the `setValue` rule, emitted once |
| NodeForm.NodeForm.SetTargetValue | src/utils/nodeLogic.ts:237-246 | the target input is set by the `setValue` rule, emitted once |
| NodeForm.NodeForm.HandleJsonInput | src/utils/nodeLogic.ts:248-258 | the state after typed JSON text |
| NodeForm.NodeForm.UpdateFocusParam | src/utils/nodeLogic.ts:287-291 | the key is set in `focus`, emitted once |
| NodeForm.NodeForm.AddFocusParam | src/utils/nodeLogic.ts:272-276 | the event is added with `''`, emitted once |
| NodeForm.NodeForm.RemoveFocusParam | src/utils/nodeLogic.ts:278-285 | the event is removed and emitted only when `focus` exists; otherwise nothing changes |
| NodeFormLegacy.LegacyDefaultsTarget | src/utils/nodeLogic.js:102-109 | the default of `target` is true |
| NodeFormLegacy.LegacySetThenGet | src/utils/nodeLogic.js:130-141 | a stored value that is not `''` or null reads back |
| NodeFormLegacy.DefaultsDiffer | src/utils/nodeLogic.js:102-109 | `anchor: false` is stored only here, `is_sub: false` only in the typed edition |
| NodeFormLegacy.LegacyGetJsonValue | src/utils/nodeLogic.js:155-158 | the stored value or the default, objects as JSON text and scalars as they are; `''` without either |
| NodeFormLegacy.LegacyJsonTextRoundTrip | src/utils/nodeLogic.js:155-166 | plain text reads back as its number, or as itself when not a number |
| NodeFormLegacy.LegacyGetTargetValue | src/utils/nodeLogic.js:168-171 | `''` for true or absent; a list as JSON text; any other value as it is, falsy ones included |
| NodeFormLegacy.LegacyTargetRoundTrip | src/utils/nodeLogic.js:168-180 | the default text deletes `target` and shows `''`; other text shows back as entered or as the list's JSON |
| NodeFormLegacy.TargetShowsFalsy | src/utils/nodeLogic.js:168-171 | a stored `false` target shows as `false` here and as `''` in the typed edition |
| NodeFormLegacy.LegacyUpdateFocusIn | src/utils/nodeLogic.js:211-215 | a truthy scalar `focus` makes the assignment throw; otherwise the typed edition's update |
| NodeFormLegacy.LegacyUpdateFocusHides | src/utils/nodeLogic.js:194-215 | a successful update sets the key and hides exactly it from the available events |
| NodeFormLegacy.LegacyNodeForm.constructor | src/utils/nodeLogic.js:113-116 | the form starts from the node's data (or `{}`) with its JSON text and nothing emitted |
| NodeFormLegacy.LegacyNodeForm.Refresh | src/utils/nodeLogic.js:225-230 | a new node replaces the data; through `updateJsonFromForm` (src/utils/nodeLogic.js:118-123) its indented JSON text is shown and the error is cleared; nothing is emitted |
| NodeFormLegacy.LegacyNodeForm.Emit | src/utils/nodeLogic.js:125-128 | the data is emitted once |
| NodeFormLegacy.LegacyNodeForm.SetValue | src/utils/nodeLogic.js:132-141 | `SetValueIn` with this edition's defaults, emitted once |
| NodeFormLegacy.LegacyNodeForm.SetArrayValue | src/utils/nodeLogic.js:148-152 | `SetArrayValueIn`, emitted once |
| NodeFormLegacy.LegacyNodeForm.SetJsonValue | src/utils/nodeLogic.js:160-166 | the parsed input set by the `setValue` rule, emitted once |
| NodeFormLegacy.LegacyNodeForm.SetTargetValue | src/utils/nodeLogic.js:173-180 | the target input set by the `setValue` rule, emitted once |
| NodeFormLegacy.LegacyNodeForm.HandleJsonInput | src/utils/nodeLogic.js:182-191 | a parse failure keeps the data and sets the error; success emits the parsed record |
| NodeFormLegacy.LegacyNodeForm.AddFocusParam | src/utils/nodeLogic.js:197-201 | the event added with `''`, emitted once |
| NodeFormLegacy.LegacyNodeForm.RemoveFocusParam | src/utils/nodeLogic.js:203-209 | the event removed and emitted only when `focus` exists |
| NodeFormLegacy.LegacyNodeForm.UpdateFocusParam | src/utils/nodeLogic.js:211-215 | the update emitted once, or the error with nothing changed |
| NodeLoader.ItemPayload | backend/untils/__init__.py:54-58 | an element's payload is always a dict |
| NodeLoader.NormalizeData | backend/untils/__init__.py:45-60 | a dict is kept, a list converted element by element (or the error), anything else gives `{}`; list keys are the ids' `str` |
| NodeLoader.ErrorPropagates | backend/untils/__init__.py:51-52 | the first element that raises ends the conversion |
| NodeLoader.NormalizeListSpec | backend/untils/__init__.py:49-59 | it raises exactly when an element is bad; otherwise the keys are the `str` of the truthy ids and the last element with an id wins |
| NodeLoader.JsonFileName | backend/untils/__init__.py:70-71 | the name gains `.json` unless it ends so in any case; the result always does |
| NodeLoader.JsonFileNameIdempotent | backend/untils/__init__.py:70-71 | the suffix rule applied twice adds nothing more |
| NodeLoader.JsonNodeLoader.constructor | backend/untils/__init__.py:16-43 | the folder is kept as the platform's `normpath` gives it; no folder gives empty maps; otherwise the files that load are stored and indexed in listing order |
| NodeLoader.JsonNodeLoader.LoadAll | backend/untils/__init__.py:22-43 | the loop stores and indexes each `.json` file that loads, skipping failures |
| NodeLoader.JsonNodeLoader.GetNodesByFile | backend/untils/__init__.py:65-66 | the file's nodes, or none for an unknown file |
| NodeLoader.JsonNodeLoader.GetNodeValue | backend/untils/__init__.py:168-170 | the indexed node's value, or none for an unknown name |
| NodeLoader.JsonNodeLoader.CreateFile | backend/untils/__init__.py:68-87 | false with no change when the file exists; otherwise an empty file under the suffixed name |
| NodeLoader.JsonNodeLoader.SaveFileContent | backend/untils/__init__.py:89-109 | what is stored is the normalised content (a dict as given, a list as its id-to-data map, anything else `{}`) and its count is returned, or the conversion error with nothing changed |
| NodeLoader.JsonNodeLoader.SearchNodes | backend/untils/__init__.py:114-163 | an empty query gives nothing; otherwise exactly the indexed nodes outside the excluded file whose name or display id contains the query, ignoring case, once each, each with the platform's join of the folder and `pipeline` as its source |
| NodeLoader.LastFileWins | backend/untils/__init__.py:27-40 | a name is indexed exactly when some file defines it, from the last such file |
| BackendUtils.ConvertNode | backend/common/utils.py:26-31 | `{}` without `id`; an unhashable id raises; otherwise exactly one entry, under the id, holding every other key unchanged |
| BackendUtils.ConvertNodeRoundTrip | backend/common/utils.py:26-31 | the node comes back from its single entry |
| BackendUtils.JsonResponsePayload | backend/common/utils.py:34-38 | `success` and `message` then the data's keys, which override them |
| BackendUtils.ParseSse | backend/common/utils.py:41-42 | a payload read from a frame is as long as the frame less the `data: ` prefix and the blank-line terminator |
| BackendUtils.SseRoundTrip | backend/common/utils.py:41-42 | the frame is `data: ` + payload + blank line, and the payload reads back |
| BackendUtils.SseSingleEvent | backend/common/utils.py:41-42 | a payload without newlines has its only blank line at the end |
| BackendUtils.FillDefaults | backend/common/utils.py:51-53 | for a dict, every missing default key is added and present keys are unchanged; any other value is kept only when `in` finds every default key in it, else the defaults are used |
| BackendUtils.DefaultKeysListed | backend/common/utils.py:12-16 | the loop visits exactly the default keys |
| BackendUtils.LoadConfig | backend/common/utils.py:45-56 | the defaults without a readable file or for falsy JSON; otherwise the loaded config with the missing defaults filled in |
| PortArg.ParseU16 | src-tauri/src/main.rs:38 | a parsed port is at most 65535 and the text is neither empty nor a bare `+` |
| PortArg.ParsePortArg | src-tauri/src/main.rs:31-49 | the loop returns the last offered value that parsed, or the default |
| PortArg.ParseU16RoundTrip | src-tauri/src/main.rs:38 | decimal text of a port parses back, with or without `+` |
| PortArg.NoOccurrenceKeepsDefault | src-tauri/src/main.rs:31-49 | without the flag the default is kept |
| PortArg.LastOccurrenceWins | src-tauri/src/main.rs:35-47 | a valid last occurrence wins in both spellings; an unparseable one changes nothing |
| PortArg.BareFlagConsumesNext | src-tauri/src/main.rs:36-41 | a bare flag swallows the next argument even when it is the flag; a trailing bare flag does nothing |
| EmbeddedPython.DetectWindowsArch | setup_embedded_python.py:32-41 | `arm` is refused first; then `64` or `amd64`/`x86_64` give `amd64`; `x86`/`i386`/`i686` give `win32`; the rest is unsupported |
| EmbeddedPython.Arm64Refused | setup_embedded_python.py:35-36 | `arm64` is refused |
| EmbeddedPython.Aarch64IsAmd64 | setup_embedded_python.py:35-38 | `aarch64` is taken as `amd64` |
| EmbeddedPython.I686IsWin32 | setup_embedded_python.py:39-40 | `i686` gives `win32` |
| EmbeddedPython.BuildDownloadUrl | setup_embedded_python.py:44-46 | the URL lies in the version's directory and names the architecture's archive |
| EmbeddedPython.UrlInjective | setup_embedded_python.py:44-46 | for versions without `/`, different versions or architectures never share a URL |
| EmbeddedPython.SplitLines | setup_embedded_python.py:101 | no line contains a line break |
| EmbeddedPython.EnsureImportSite | setup_embedded_python.py:101-116 | each line rewritten by the rule, one `import site` appended when none exists, joined by newlines with a final one |
| EmbeddedPython.RewriteLines | setup_embedded_python.py:104-113 | every line passes through the rewrite rule in order, and the flag is set exactly when some line enables or comments out `import site` |
| EmbeddedPython.SplitLinesText | setup_embedded_python.py:101-116 | splitting the written text gives the lines back |
| EmbeddedPython.EnsureImportSiteIdempotent | setup_embedded_python.py:101-116 | applying the rewrite to its own output changes nothing |
| EmbeddedPython.AppendsWhenMissing | setup_embedded_python.py:114-116 | without an import-site line exactly one is appended at the end |

## Left out

- Rendering and scheduling: edge colours and styles (`getEdgeStyle`, `currentEdgeType`), `fitView` and the `setTimeout` around it, Vue reactivity. The snapshot taken after a load is taken at the end of `LoadNodes`.
- `alert()` on a rename collision is the error result of `HandleNodeUpdate`.
- vue-flow: `findNode` is the first node with the id, `addEdges` an append, `removeEdges` a filter by id. vue-flow's own removal of edges on a remove change is not modelled; `HandleEdgesChange` leaves `edges` unchanged.
- `dagre.layout`, measured node sizes, `JSON.parse`, `JSON.stringify`, `Number()` and Python `str()` of a list or dict are parameters. `JSON.stringify` exceptions are not modelled.
- JS numbers are held as their `String()` text, so `String()`, `===` and truthiness are exact while arithmetic on them is left out. Ids parsed from numbers are their text.
- Layout coordinates, sizes and spacings (`Spacing`, `BoxOf`, `TopLeft`, the chain slots and offset) are exact reals; JavaScript computes them in doubles, so rounding and `NaN` sizes are not modelled.
- `String.prototype.replace` patterns with `$` in the new id are not modelled; the replacement text is inserted literally.
- JS `===` and `Set` membership on arrays and objects are reference identity; the model never finds a fresh array strictly equal to a default, and compares objects structurally in the JavaScript chain walk's `Set` and in the `createdNodeIds` `Set` of the JavaScript `loadNodes` (two equal object targets make two placeholders in the source and one in the model).
- UseFlowGraph.FlowGraph.LoadNodes and UseFlowGraphLegacy.FlowGraph.LoadNodes: every document value is taken to be an object (an `Entry` holds a record). A `null` value makes the source throw, so nothing is assigned: the JavaScript edition throws at `rawContent.recognition` (src/utils/useFlowGraph.js:48), and the typed edition spreads it to `{}` (src/utils/useFlowGraph.ts:154) but throws at `nodeContent[key]` (src/utils/useFlowGraph.ts:421). A string value is spread into one key per character, and a number or boolean into `{}`. None of these non-object values is modelled.
- Json.PyStr: Python `str()` of a JSON number is taken to be the JavaScript `String()` text. Python writes a float such as `1.0` as `1.0` where JavaScript writes `1`, so a float id would key the backend's converted dict, and show as `display_id` in `search_nodes`, with a different text. Nothing else in the model depends on this.
- Records are unordered maps, so key order is lost. In the source it decides the text `JSON.stringify` and `json.dump` produce and the order of the `search_nodes` results; `SearchNodes` returns the right set of results in an unspecified order. `loadNodes` takes the document as a sequence of entries with distinct ids (`Object.entries` order).
- The `status: 'idle'` field that both editions' `createNodeObject` set is not modelled: nothing in the core reads it. The typed `createNodeObject` drops `interrupt` from the record, and the model does too. The icon and label tables are not modelled.
- GraphSync.NodeUpdate: a rename whose payload carries `newData` replaces the renamed node's record with it after the link rewrite (src/utils/useFlowGraph.ts:332), so a link to the old id inside `newData` keeps the old id (GraphSync.NewDataKeepsSelfLink). The model follows the code; the form that sends `newData` owns that record, so no corrected rename is claimed for it.
- GraphInvariant.ConnectSynced: consistency is proved for connect, edge removal and jump-back, not for rename or `normalizeLinksAcrossNodes`.
- GraphLoad.LoadConnected: requires distinct document ids, which `Object.entries` guarantees; `timeout_next` shares `source-c` with `on_error`, so field-to-edge consistency after a load is not claimed.
- GraphLegacy.LegacyLoadConnected: does not claim unique ids, because a numeric target whose text is an entry's id creates a second node with that id (GraphLegacy.NumberTargetDuplicates).
- GraphSync.NormalizeNodesIdempotent: requires settled links, because a bare marker value grows a marker on every pass (GraphSync.MarkerOnlyGrows).
- NodeForm.ArrayTextStable: requires the text to leave some part, because `","` stores `[]`, whose shown text `''` then deletes the key.
- NodeForm.UpdateFocusIn: an array-valued `focus` is left unchanged, since a named property on an array is not part of the JSON; array and string index keys are not deleted by `RemoveFocusIn`.
- NodeForm.JsonInput: a parse that yields a non-object is taken as an empty record.
- NodeForm.TargetInputValue: `toLowerCase` is ASCII lower-casing, which is exact for the comparison with `true`. The event's `target?.value ?? ''` is the text argument.
- NodeForm.NodeForm.constructor: models the `visible` watcher firing with `visible` true. When the form opens hidden, `formData` stays `{}` and `jsonStr` stays `''`; the same holds for NodeFormLegacy.LegacyNodeForm.constructor.
- NodeForm.NodeForm.Refresh: the deep copy `JSON.parse(JSON.stringify(x))` in both watchers is taken as the identity, in both editions and in the constructors too; the copy's loss of `undefined` members and its turning of `NaN` and infinities into `null` are not modelled. The watcher's `newData` guard is the caller's choice to call `Refresh`.
- GraphImages.SpecialAction: malformed payloads are dropped rather than modelled. In the source, `delete_images` with a truthy string `deletePaths` tests substrings, moves the images and then throws at `forEach`; `add_temp_image` with a truthy non-string `imagePath` or `imageBase64` pushes that value as it is; `save_image_changes` with truthy non-array `images`, `tempImages` or `deletedImages` stores them as they are.
- NodeForm getters (`getValue`, `getArrayValue`, ...) are module functions over the form data rather than class members.
- NodeFormLegacy.LegacyUpdateFocusIn: the `TypeError` a truthy scalar `focus` raises in strict mode is an error result carrying its message.
- NodeLoader.JsonNodeLoader.SearchNodes: only the plain mode; the regular-expression mode needs a regex engine. Lower-casing is ASCII.
- NodeLoader.NormalizeList: the converted dict is keyed by `str(id)`; Python keys it by the raw id under its own equality and hashing. So the model merges ids `5` and `"5"`, which Python keeps apart (and `save_file_content` then counts 2 where the model counts 1), and keeps `1` and `True` apart, which Python merges because `1 == True`.
- NodeLoader.NormalizeData: has the same key-by-`str(id)` approximation for list input as NodeLoader.NormalizeList; dict input and other input are exact.
- `layoutWithSpacing` (src/utils/useLayout.ts:77-84) is written at its callers as `Layout` at `ResolveSpacing(arg)`.
- NodeLoader: file I/O is an in-memory folder; `json.dump` formatting, `os.makedirs` and the print on a failed load are left out. An unreadable folder is `None`.
- BackendUtils: `save_config`, `norm_path`, `encode_image_to_base64` and `encode_pil_image_to_base64` are file and image I/O. `json.dumps` is a parameter of `sse_format`. `DEFAULT_CONFIG.copy()` is shallow, so a caller mutating nested defaults is not modelled.
- PortArg: only `parse_port_arg`; the process spawning, logging and path probing of the shell are OS work.
- EmbeddedPython: download, extraction, pip and the progress display are I/O. `platform.machine()` is the argument of `DetectWindowsArch`, whose `str.lower()` is ASCII lower-casing; Unicode case mappings are not modelled. `write_text` in text mode writes each `\n` as the platform's line separator (`\r\n` on Windows); the model's text keeps `\n`. The `RuntimeError` raised when no `python*._pth` file exists (setup_embedded_python.py:97-98) is directory probing and is not modelled.
- The Flask routes, the MaaFramework wrappers and the front end's HTTP clients are outside this model.

## Findings

| source | as written | input that shows it | evidently intended | confidence | as-written member | corrected member |
|---|---|---|---|---|---|---|
| src/utils/useFlowGraph.js:172-173 | the reference rewrite skips the node whose id is already `newId`, which is the renamed node itself | node `A` with `next: ['A']` renamed to `B`: its edge becomes `B`→`B` but its `next` still names `A` | every node, the renamed one included, has its references rewritten, as the typed edition does for a payload without `newData` (src/utils/useFlowGraph.ts:324-328), so that the edge and the field agree | medium, not executed; the comment at src/utils/useFlowGraph.js:171 speaks of the other nodes, so the case rests on the edge and the field disagreeing | GraphLegacy.LegacyRenameAsWritten, GraphLegacy.LegacyRenameLeavesSelfLink | GraphLegacy.LegacyRename, GraphLegacy.LegacyRenameComplete |

The editor model follows the code as written: `UseFlowGraphLegacy.FlowGraph.RenameNode` and `handleNodeUpdate` use the rename that skips the renamed node. The corrected rename and its proof sit beside it.
