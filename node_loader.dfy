/** The back end's in-memory view of a pipeline folder (backend/untils/__init__.py,
    class `JsonNodeLoader`): one normalised node map per `.json` file, an index
    from node name to the file that defines it, search over that index, and
    creating and saving files. The folder is given as the list of its files
    with their parsed contents; writing files is reduced to the set of names
    that exist on disk. */
module NodeLoader {
  import opened Json

  // ---------------------------------------------------------------------------
  // _normalize_data

  /** The dict key an element of a node list contributes: its `id` when that is
      truthy (as text: ids are keyed by their `str`). */
  function ItemKey(item: Value): Option<string> {
    if item.Obj? && "id" in item.fields && PyTruthy(item.fields["id"]) && Hashable(item.fields["id"])
    then Some(PyStr(item.fields["id"]))
    else None
  }

  /** An element that makes the conversion raise: not a dict (`.get` fails),
      or a truthy id that cannot be a dict key. */
  predicate BadItem(item: Value) {
    !item.Obj? || ("id" in item.fields && PyTruthy(item.fields["id"]) && !Hashable(item.fields["id"]))
  }

  /** The node data an element contributes: its `data`, unwrapped once more
      when that holds a `data` key, and `{}` unless the result is a dict. */
  function ItemPayload(item: Value): (r: Value)
    requires item.Obj?
    ensures r.Obj?
  {
    var nd := if "data" in item.fields then item.fields["data"] else Obj(map[]);
    var inner := if nd.Obj? && "data" in nd.fields then nd.fields["data"] else nd;
    if inner.Obj? then inner else Obj(map[])
  }

  /** No later element of `items` has the same key as element `i`. */
  predicate LastWithKey(items: seq<Value>, i: int)
    requires 0 <= i < |items|
  {
    forall j :: i < j < |items| ==> ItemKey(items[j]) != ItemKey(items[i])
  }

  function KeysOf(items: seq<Value>): set<string> {
    set i | 0 <= i < |items| && ItemKey(items[i]).Some? :: ItemKey(items[i]).value
  }

  function ErrorFor(item: Value): string {
    if !item.Obj? then "AttributeError: element has no get" else "TypeError: unhashable type"
  }

  /** The list branch of `_normalize_data`, element by element: the first bad
      element raises; every element with a key (re)assigns it. */
  function NormalizeList(items: seq<Value>): Result<Record>
    decreases |items|
  {
    if items == [] then Ok(map[])
    else
      var prev := NormalizeList(items[..|items| - 1]);
      var item := items[|items| - 1];
      if prev.Err? then prev
      else if BadItem(item) then Err(ErrorFor(item))
      else if ItemKey(item).Some? then Ok(prev.value[ItemKey(item).value := ItemPayload(item)])
      else prev
  }

  /** What `_normalize_data` returns (or raises) for a value. */
  function Normalized(data: Value): Result<Record> {
    if data.Obj? then Ok(data.fields)
    else if data.Arr? then NormalizeList(data.items)
    else Ok(map[])
  }

  /** `_normalize_data`: a dict is kept, a list of `{id, data}` elements becomes
      the map id -> data, anything else becomes `{}`. */
  method NormalizeData(data: Value) returns (r: Result<Record>)
    ensures r == Normalized(data)
    ensures data.Obj? ==> r == Ok(data.fields)
    ensures !data.Obj? && !data.Arr? ==> r == Ok(map[])
  {
    if data.Obj? {
      return Ok(data.fields);
    }
    if !data.Arr? {
      return Ok(map[]);
    }
    var items := data.items;
    var converted: Record := map[];
    for n := 0 to |items|
      invariant NormalizeList(items[..n]) == Ok(converted)
    {
      var item := items[n];
      assert items[..n + 1][..n] == items[..n];
      if !item.Obj? {
        ErrorPropagates(items, n + 1);
        return Err("AttributeError: element has no get");
      }
      var nid := Get(item.fields, "id");
      var ndata := if "data" in item.fields then item.fields["data"] else Obj(map[]);
      if ndata.Obj? && "data" in ndata.fields {
        ndata := ndata.fields["data"];
      }
      if nid.Some? && PyTruthy(nid.value) {
        if !Hashable(nid.value) {
          ErrorPropagates(items, n + 1);
          return Err("TypeError: unhashable type");
        }
        converted := converted[PyStr(nid.value) := if ndata.Obj? then ndata else Obj(map[])];
      }
    }
    assert items[..|items|] == items;
    return Ok(converted);
  }

  lemma {:induction false} ErrorPropagates(items: seq<Value>, n: nat)
    requires n <= |items| && NormalizeList(items[..n]).Err?
    ensures NormalizeList(items) == NormalizeList(items[..n])
    decreases |items| - n
  {
    if n < |items| {
      assert items[..n + 1][..n] == items[..n];
      ErrorPropagates(items, n + 1);
    } else {
      assert items[..n] == items;
    }
  }

  /** The list conversion fails exactly when some element is bad; otherwise it
      maps every key that occurs to the data of the last element with that key. */
  lemma {:induction false} NormalizeListSpec(items: seq<Value>)
    ensures NormalizeList(items).Err? <==> exists i :: 0 <= i < |items| && BadItem(items[i])
    ensures NormalizeList(items).Ok? ==> NormalizeList(items).value.Keys == KeysOf(items)
    ensures NormalizeList(items).Ok? ==>
      forall i :: 0 <= i < |items| && ItemKey(items[i]).Some? && LastWithKey(items, i) ==>
        NormalizeList(items).value[ItemKey(items[i]).value] == ItemPayload(items[i])
    decreases |items|
  {
    if items != [] {
      var init := items[..|items| - 1];
      var item := items[|items| - 1];
      assert items == init + [item];
      NormalizeListSpec(init);
      KeysOfSnoc(init, item);
      LastWithKeySnoc(init, item);
      forall i | 0 <= i < |init| ensures items[i] == init[i] { }
    }
  }

  lemma KeysOfSnoc(items: seq<Value>, item: Value)
    ensures KeysOf(items + [item]) ==
      KeysOf(items) + (if ItemKey(item).Some? then {ItemKey(item).value} else {})
  {
    var all := items + [item];
    forall i | 0 <= i < |items| ensures all[i] == items[i] { }
    assert all[|items|] == item;
  }

  lemma LastWithKeySnoc(items: seq<Value>, item: Value)
    ensures forall i :: 0 <= i < |items| && LastWithKey(items + [item], i) ==> LastWithKey(items, i)
    ensures forall i :: 0 <= i < |items| && LastWithKey(items + [item], i) ==> ItemKey(items[i]) != ItemKey(item)
  {
    var all := items + [item];
    forall i | 0 <= i < |items| && LastWithKey(all, i)
      ensures LastWithKey(items, i) && ItemKey(items[i]) != ItemKey(item)
    {
      forall j | i < j < |items| ensures ItemKey(items[j]) != ItemKey(items[i]) {
        assert all[j] == items[j];
      }
      assert all[|items|] == item;
    }
  }

  // ---------------------------------------------------------------------------
  // The loader

  /** A parsed file as the loader finds it: JSON that could not be read or
      parsed is skipped. */
  datatype FileContent = Unparsable | Parsed(value: Value)

  /** One directory entry: its name and contents. */
  datatype DirEntry = DirEntry(name: string, content: FileContent)

  /** An entry of `node_index`: the file defining the node, and its value. */
  datatype IndexEntry = IndexEntry(file: string, value: Value)

  /** One element of the list `search_nodes` returns. */
  datatype SearchResult = SearchResult(filename: string, source: string, nodeId: string, displayId: string, kind: Value)

  const JSON_SUFFIX := ".json"

  predicate IsJsonName(name: string) {
    EndsWith(AsciiLower(name), JSON_SUFFIX)
  }

  /** The index entries one file contributes. */
  function FileIndex(file: string, nodes: Record): map<string, IndexEntry> {
    map name | name in nodes :: IndexEntry(file, nodes[name])
  }

  /** `node_index` after indexing the files in order. */
  function IndexOf(files: seq<(string, Record)>): map<string, IndexEntry>
    decreases |files|
  {
    if files == [] then map[]
    else IndexOf(files[..|files| - 1]) + FileIndex(files[|files| - 1].0, files[|files| - 1].1)
  }

  /** `files_data` after storing the files in order. */
  function FilesOf(files: seq<(string, Record)>): map<string, Record>
    decreases |files|
  {
    if files == [] then map[]
    else FilesOf(files[..|files| - 1])[files[|files| - 1].0 := files[|files| - 1].1]
  }

  /** The document a file yields: its JSON, or `{}` when that is falsy. */
  function FileDocument(v: Value): Value {
    if PyTruthy(v) then v else Obj(map[])
  }

  /** The `.json` entries that parse and normalise, with their node maps, in
      listing order. */
  function LoadedFiles(entries: seq<DirEntry>): seq<(string, Record)>
    decreases |entries|
  {
    if entries == [] then []
    else
      var e := entries[|entries| - 1];
      LoadedFiles(entries[..|entries| - 1]) +
        if IsJsonName(e.name) && e.content.Parsed? && Normalized(FileDocument(e.content.value)).Ok?
        then [(e.name, Normalized(FileDocument(e.content.value)).value)]
        else []
  }

  lemma LoadedFilesSnoc(entries: seq<DirEntry>, n: nat)
    requires n < |entries|
    ensures var e := entries[n];
      LoadedFiles(entries[..n + 1]) == LoadedFiles(entries[..n]) +
        if IsJsonName(e.name) && e.content.Parsed? && Normalized(FileDocument(e.content.value)).Ok?
        then [(e.name, Normalized(FileDocument(e.content.value)).value)]
        else []
  {
    assert entries[..n + 1][..n] == entries[..n];
  }

  lemma FilesOfSnoc(files: seq<(string, Record)>, f: (string, Record))
    ensures FilesOf(files + [f]) == FilesOf(files)[f.0 := f.1]
    ensures IndexOf(files + [f]) == IndexOf(files) + FileIndex(f.0, f.1)
  {
    assert (files + [f])[..|files|] == files;
  }

  /** The host platform's `os.path.normpath` and `os.path.join`. */
  datatype PathOps = PathOps(normpath: string -> string, join: (string, string) -> string)

  /** By `create_file`'s rule, the name gets `.json` unless it already ends with
      it in any letter case. */
  function JsonFileName(filename: string): (r: string)
    ensures IsJsonName(r)
    ensures StartsWith(r, filename)
    ensures IsJsonName(filename) ==> r == filename
  {
    if IsJsonName(filename) then filename
    else
      AsciiLowerAppend(filename, JSON_SUFFIX);
      assert AsciiLower(JSON_SUFFIX) == JSON_SUFFIX;
      assert (filename + JSON_SUFFIX)[..|filename|] == filename;
      filename + JSON_SUFFIX
  }

  lemma AsciiLowerAppend(a: string, b: string)
    ensures AsciiLower(a + b) == AsciiLower(a) + AsciiLower(b)
  {
  }

  lemma JsonFileNameIdempotent(filename: string)
    ensures JsonFileName(JsonFileName(filename)) == JsonFileName(filename)
  {
  }

  /** A node matches a plain query when the lower-cased query occurs in the
      lower-cased node id or display id. */
  predicate Matches(queryLower: string, nodeId: string, displayId: string) {
    Contains(AsciiLower(nodeId), queryLower) || Contains(AsciiLower(displayId), queryLower)
  }

  /** `display_id`: the node's own `id` field when its value is a dict holding
      one, else the index key. `repr` is Python's `str` of a list or dict. */
  function DisplayId(nodeId: string, value: Value, repr: Value -> string): string {
    if value.Obj? && "id" in value.fields then
      (if Hashable(value.fields["id"]) then PyStr(value.fields["id"]) else repr(value.fields["id"]))
    else nodeId
  }

  /** `type`: the node's `recognition`, or `"Unknown"` when it has none. */
  function NodeKind(value: Value): Value {
    if value.Obj? && "recognition" in value.fields then value.fields["recognition"] else Str("Unknown")
  }

  class JsonNodeLoader {
    /** The platform's path functions. */
    const paths: PathOps
    /** `folder_path`, normalised. */
    var folderPath: string
    /** `files_data`: file name -> normalised node map. */
    var filesData: map<string, Record>
    /** `node_index`: node name -> defining file and value. */
    var nodeIndex: map<string, IndexEntry>
    /** Names of the files present in the folder. */
    var diskFiles: set<string>

    /** `__init__` and `_load_all_json_files`: `listing` is `None` when the
        folder is not a directory. Files whose name does not end in `.json`
        (any case) are ignored; a file that fails to parse or normalise is
        skipped; every node of a loaded file is indexed, a later file
        overriding an earlier one. The folder is kept as `normpath` gives it. */
    constructor (paths: PathOps, folder: string, listing: Option<seq<DirEntry>>)
      ensures this.paths == paths && folderPath == paths.normpath(folder)
      ensures listing.None? ==> filesData == map[] && nodeIndex == map[] && diskFiles == {}
      ensures listing.Some? ==> diskFiles == set e | e in listing.value :: e.name
      ensures listing.Some? ==> filesData == FilesOf(LoadedFiles(listing.value))
      ensures listing.Some? ==> nodeIndex == IndexOf(LoadedFiles(listing.value))
    {
      this.paths := paths;
      folderPath := paths.normpath(folder);
      filesData := map[];
      nodeIndex := map[];
      diskFiles := {};
      new;
      if listing.Some? {
        LoadAll(listing.value);
      }
    }

    /** The loop of `_load_all_json_files` over the directory listing. */
    method LoadAll(entries: seq<DirEntry>)
      modifies this
      requires filesData == map[] && nodeIndex == map[]
      ensures folderPath == old(folderPath)
      ensures diskFiles == set e | e in entries :: e.name
      ensures filesData == FilesOf(LoadedFiles(entries))
      ensures nodeIndex == IndexOf(LoadedFiles(entries))
    {
      for n := 0 to |entries|
        invariant folderPath == old(folderPath)
        invariant filesData == FilesOf(LoadedFiles(entries[..n]))
        invariant nodeIndex == IndexOf(LoadedFiles(entries[..n]))
      {
        var entry := entries[n];
        LoadedFilesSnoc(entries, n);
        if IsJsonName(entry.name) && entry.content.Parsed? {
          var content := if PyTruthy(entry.content.value) then entry.content.value else Obj(map[]);
          var normalized := NormalizeData(content);
          if normalized.Ok? {
            ghost var before := LoadedFiles(entries[..n]);
            filesData := filesData[entry.name := normalized.value];
            // The inner loop over the file's nodes: each name is indexed once.
            nodeIndex := nodeIndex + FileIndex(entry.name, normalized.value);
            FilesOfSnoc(before, (entry.name, normalized.value));
            assert LoadedFiles(entries[..n + 1]) == before + [(entry.name, normalized.value)];
            assert filesData == FilesOf(LoadedFiles(entries[..n + 1]));
          } else {
            assert LoadedFiles(entries[..n + 1]) == LoadedFiles(entries[..n]);
          }
        } else {
          assert LoadedFiles(entries[..n + 1]) == LoadedFiles(entries[..n]);
        }
      }
      assert entries[..|entries|] == entries;
      diskFiles := set e | e in entries :: e.name;
    }

    /** `get_nodes_by_file`. */
    function GetNodesByFile(filename: string): (r: Option<Record>)
      reads this
      ensures r.Some? <==> filename in filesData
      ensures r.Some? ==> r.value == filesData[filename]
    {
      if filename in filesData then Some(filesData[filename]) else None
    }

    /** `get_node_value`: the value of an indexed node, `None` for an unknown name. */
    function GetNodeValue(nodeName: string): (r: Option<Value>)
      reads this
      ensures r.Some? <==> nodeName in nodeIndex
      ensures r.Some? ==> r.value == nodeIndex[nodeName].value
    {
      if nodeName in nodeIndex then Some(nodeIndex[nodeName].value) else None
    }

    /** `create_file`: adds `.json` by the suffix rule; refuses (returning false,
        changing nothing) when the file already exists; otherwise creates it
        with an empty node map. */
    method CreateFile(filename: string) returns (created: bool)
      modifies this
      ensures var name := JsonFileName(filename);
        created == (old(name !in diskFiles)) &&
        (created ==> filesData == old(filesData)[name := map[]] && diskFiles == old(diskFiles) + {name}) &&
        (!created ==> filesData == old(filesData) && diskFiles == old(diskFiles))
      ensures nodeIndex == old(nodeIndex) && folderPath == old(folderPath)
    {
      var name := filename;
      if !IsJsonName(name) {
        name := name + JSON_SUFFIX;
      }
      if name in diskFiles {
        return false;
      }
      filesData := filesData[name := map[]];
      diskFiles := diskFiles + {name};
      return true;
    }

    /** `save_file_content`: stores the normalised nodes under the file name and
        returns how many there are. A list element that makes normalisation
        raise leaves everything unchanged. The index is not refreshed. */
    method SaveFileContent(filename: string, content: Value) returns (r: Result<nat>)
      modifies this
      ensures r.Ok? ==> (filename in filesData && r.value == |filesData[filename]| &&
        filesData == old(filesData)[filename := filesData[filename]] && diskFiles == old(diskFiles) + {filename})
      ensures r.Ok? ==> Normalized(content).Ok? && filesData[filename] == Normalized(content).value
      ensures r.Ok? && content.Obj? ==> filesData[filename] == content.fields
      ensures r.Ok? && !content.Obj? && !content.Arr? ==> filesData[filename] == map[]
      ensures r.Err? ==> filesData == old(filesData) && diskFiles == old(diskFiles)
      ensures r.Err? <==> content.Arr? && exists i :: 0 <= i < |content.items| && BadItem(content.items[i])
      ensures nodeIndex == old(nodeIndex) && folderPath == old(folderPath)
    {
      var normalized := NormalizeData(content);
      if content.Arr? {
        NormalizeListSpec(content.items);
      }
      if normalized.Err? {
        return Err(normalized.error);
      }
      filesData := filesData[filename := normalized.value];
      diskFiles := diskFiles + {filename};
      return Ok(|normalized.value|);
    }

    /** `search_nodes` in plain (non-regex) mode: one result per indexed node,
        outside `excludeFile`, whose name or display id contains the query
        case-insensitively. The results come in an unspecified order. */
    method SearchNodes(query: string, excludeFile: string, repr: Value -> string) returns (results: seq<SearchResult>)
      ensures query == "" ==> results == []
      ensures forall r :: r in results ==> r.nodeId in nodeIndex && r == ResultFor(r.nodeId, repr)
      ensures query != "" ==> (set r | r in results :: r.nodeId) == MatchingNames(query, excludeFile, repr)
      ensures forall i, j :: 0 <= i < j < |results| ==> results[i].nodeId != results[j].nodeId
    {
      if query == "" {
        return [];
      }
      var queryLower := AsciiLower(query);
      results := [];
      var remaining := nodeIndex.Keys;
      ghost var seen: set<string> := {};
      while remaining != {}
        invariant remaining + seen == nodeIndex.Keys && remaining !! seen
        invariant forall r :: r in results ==> r.nodeId in seen && r == ResultFor(r.nodeId, repr)
        invariant (set r | r in results :: r.nodeId) == MatchingNames(query, excludeFile, repr) * seen
        invariant forall i, j :: 0 <= i < j < |results| ==> results[i].nodeId != results[j].nodeId
        decreases remaining
      {
        var nodeId :| nodeId in remaining;
        remaining := remaining - {nodeId};
        var info := nodeIndex[nodeId];
        var before := results;
        if info.file != excludeFile {
          var displayId := DisplayId(nodeId, info.value, repr);
          if Matches(queryLower, nodeId, displayId) {
            results := results + [SearchResult(info.file, paths.join(folderPath, "pipeline"), nodeId, displayId, NodeKind(info.value))];
          }
        }
        assert (set r | r in results :: r.nodeId) == (set r | r in before :: r.nodeId) +
          (if nodeId in MatchingNames(query, excludeFile, repr) then {nodeId} else {});
        seen := seen + {nodeId};
      }
    }

    /** The result `search_nodes` reports for an indexed node. */
    function ResultFor(nodeId: string, repr: Value -> string): SearchResult
      reads this
      requires nodeId in nodeIndex
    {
      var info := nodeIndex[nodeId];
      SearchResult(info.file, paths.join(folderPath, "pipeline"), nodeId, DisplayId(nodeId, info.value, repr), NodeKind(info.value))
    }

    /** The names of the indexed nodes a plain search for `query` reports. */
    function MatchingNames(query: string, excludeFile: string, repr: Value -> string): set<string>
      reads this
    {
      set name | name in nodeIndex && nodeIndex[name].file != excludeFile &&
        Matches(AsciiLower(query), name, DisplayId(name, nodeIndex[name].value, repr))
    }
  }

  // ---------------------------------------------------------------------------
  // Lemmas

  /** The index holds exactly the names defined by some file, each mapped to the
      last file defining it and the value it has there. */
  lemma {:induction false} LastFileWins(files: seq<(string, Record)>, name: string)
    ensures name in IndexOf(files) <==> exists k :: 0 <= k < |files| && name in files[k].1
    ensures forall k :: (0 <= k < |files| && name in files[k].1 &&
        (forall l :: k < l < |files| ==> name !in files[l].1)) ==>
      IndexOf(files)[name] == IndexEntry(files[k].0, files[k].1[name])
    decreases |files|
  {
    if files != [] {
      var init := files[..|files| - 1];
      var last := files[|files| - 1];
      LastFileWins(init, name);
      forall k | 0 <= k < |init| ensures init[k] == files[k] { }
      if name !in last.1 {
        assert name !in FileIndex(last.0, last.1);
      }
    }
  }
}
