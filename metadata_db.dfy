/**
  metadata/db/db.go: the NODE and FILE_METADATA tables together with the
  package-level ROOT_FOLDER, as one object. Each SQL statement the Go code
  runs is one atomic step here; whether it fails is not up to the program,
  so every operation takes the set of statements that fail (`faults`) and its
  contract covers each outcome, including the rows a failure leaves behind.
 */
module MetadataDb {
  import opened Outcomes
  import opened GoStrings
  import opened GoStrconv
  import opened MetadataUtil
  import opened PgArray
  import opened MetadataTree

  /** The record SaveMetadata receives, without its timestamps. */
  datatype Metadata = Metadata(fileName: string, filePath: string, isFolder: bool, fileSize: int, hashes: seq<string>)

  /** What FetchMetadata gives back: NODE.NAME, FILE_SIZE and HASH_IDS. */
  datatype FileInfo = FileInfo(fileName: string, fileSize: int, hashes: seq<string>)

  /** The errors db.go returns, one per message. */
  datatype Error =
    | UnsupportedFileName   // "unsupported file name"
    | SavingNode            // "error saving node"
    | SavingFile            // "error saving file"
    | FetchingData          // "error fetching data from db"
    | InvalidNodeId         // "invalid node id"
    | DeletingNode          // "error deleting node"
    | DeletingFileMetadata  // "error deleting file_metadata"
    | InsertingRoot         // "error inserting root node"

  datatype Result<T> = Ok(value: T) | Err(error: Error)

  /** The statements the operations run, named so that a caller can say which
      of them fail. */
  datatype Stmt =
    | FindRoot                  // setupDB: the lookup of the node named "root"
    | InsertRoot                // setupDB: the insert of the root folder
    | FindSegment(at: nat)      // SaveMetadata: lookup of the path element at `at`
    | InsertFolder(at: nat)     // SaveMetadata: insert of the path element at `at`
    | InsertFile                // SaveMetadata: insert of the file node
    | InsertFileMetadata        // SaveMetadata: insert of the FILE_METADATA row
    | SelectFile                // FetchMetadata: the join of NODE and FILE_METADATA
    | SelectChildren(of: int)   // DeleteMetadata: the children query for one id
    | DeleteRows(of: int)       // DeleteMetadata: the FILE_METADATA delete for one id
    | DeleteNode(of: int)       // DeleteMetadata: the NODE delete for one id
    | Sweep                     // CleanOrphanNodes: the orphan DELETE

  /** The first `index` elements of `path` hold the segments before and
      including `names`, which follow the `matched` ones. */
  ghost predicate Scanned(path: seq<string>, matched: nat, index: nat, names: seq<string>) {
    && index <= |path|
    && matched + |names| <= |NonEmpty(path)| && names == NonEmpty(path)[matched..matched + |names|]
    && NonEmpty(path[..index]) == NonEmpty(path)[..matched + |names|]
  }

  /** The file node a save adds, if it got that far. */
  function FileNode(fileId: Option<int>, name: string, parent: int): map<int, Node> {
    if fileId.Some? then map[fileId.value := Node(false, name, Some(parent))] else map[]
  }

  /** A save that stops before the file node adds nothing for it. */
  lemma NoFileNode(m: map<int, Node>, name: string, parent: int)
    ensures m + FileNode(None, name, parent) == m
  {
  }

  /** The table after a save over `m`. */
  function Saved(m: map<int, Node>, parent: int, segs: seq<string>, matched: nat, created: nat, first: int,
                 fileId: Option<int>, name: string): map<int, Node>
    requires matched + created <= |segs|
  {
    m + Chain(parent, segs[matched..matched + created], first) + FileNode(fileId, name, ChainEnd(parent, created, first))
  }

  /** A save that stops before phase 2 adds no folders. */
  lemma NoChain(m: map<int, Node>, parent: int, names: seq<string>, first: int)
    requires names == []
    ensures m + Chain(parent, names, first) == m
  {
  }

  /** The rows a save leaves: the folders phase 2 created after the
      `matched` segments, then the file node under the last of them. */
  lemma SaveShape(m: map<int, Node>, mid: map<int, Node>, after: map<int, Node>, parent: int,
                  segs: seq<string>, matched: nat, created: nat, first: int, fileId: Option<int>, name: string)
    requires matched + created <= |segs|
    requires mid == m + Chain(parent, segs[matched..matched + created], first)
    requires after == mid + FileNode(fileId, name, ChainEnd(parent, created, first))
    ensures after == Saved(m, parent, segs, matched, created, first, fileId, name)
  {
  }

  /** Adding the file node keeps every name of the path. */
  lemma NamesKept(before: map<int, Node>, added: map<int, Node>, segs: seq<string>)
    requires forall j :: 0 <= j < |segs| ==> NameExists(before, segs[j])
    requires forall k :: k in added ==> k !in before
    ensures forall j :: 0 <= j < |segs| ==> NameExists(before + added, segs[j])
  {
    forall j | 0 <= j < |segs| ensures NameExists(before + added, segs[j]) {
      NameExistsGrows(before, added, segs[j]);
    }
  }

  /** The folder a folder save returns is named after the path's last segment:
      either the last folder phase 2 created, or, when phase 1 matched every
      segment, the node the last lookup found. */
  lemma FolderSaveTarget(m: map<int, Node>, resolved: int, segs: seq<string>, matched: nat, created: nat, first: int)
    requires matched + created == |segs| > 0
    requires created == 0 ==> resolved in m && m[resolved].name == segs[|segs| - 1]
    ensures var all := m + Chain(resolved, segs[matched..matched + created], first);
      ChainEnd(resolved, created, first) in all && all[ChainEnd(resolved, created, first)].name == segs[|segs| - 1]
  {
    var names := segs[matched..matched + created];
    if created > 0 {
      ChainShape(resolved, names, first);
      assert Chain(resolved, names, first)[first + (created - 1)].name == names[created - 1];
    }
  }

  class Store {
    /** NODE, by ID. */
    var nodes: map<int, Node>
    /** FILE_METADATA, in insertion order. */
    var metadata: seq<FileMeta>
    /** The next value NODE.ID's identity column hands out. */
    var nextId: int
    /** ROOT_FOLDER: -1 until setup has found or inserted the root. */
    var rootFolder: int

    /** What the tables and ROOT_FOLDER keep true between operations: ids come
        from the identity counter, parents precede their children, NODE_ID is a
        foreign key into NODE, and no node has two metadata rows. */
    ghost predicate Valid()
      reads this
    {
      && 1 <= nextId
      && (rootFolder == -1 || 1 <= rootFolder < nextId)
      && (forall id | id in nodes :: 1 <= id < nextId)
      && ParentsPrecede(nodes)
      && (forall k | 0 <= k < |metadata| :: metadata[k].nodeId in nodes)
      && (forall k, l | 0 <= k < l < |metadata| :: metadata[k].nodeId != metadata[l].nodeId)
      && (forall k | 0 <= k < |metadata| :: !nodes[metadata[k].nodeId].folder)
    }

    /** Freshly created tables, before setup. */
    constructor ()
      ensures Valid()
      ensures nodes == map[] && metadata == [] && nextId == 1 && rootFolder == -1
    {
      nodes := map[];
      metadata := [];
      nextId := 1;
      rootFolder := -1;
    }

    /** A new process over the same tables: ROOT_FOLDER starts at -1 again. */
    method Restart()
      requires Valid()
      modifies this
      ensures Valid()
      ensures nodes == old(nodes) && metadata == old(metadata) && nextId == old(nextId)
      ensures rootFolder == -1
    {
      rootFolder := -1;
    }

    // ---- single statements ----

    /** `SELECT ID FROM NODE WHERE NAME = $1` read with QueryRow: some row with
        that name, over the whole table; none when there is none or the
        statement fails. */
    method QueryByName(name: string, fail: bool) returns (r: Option<int>)
      ensures r.Some? ==> r.value in nodes && nodes[r.value].name == name
      ensures r.None? <==> fail || !NameExists(nodes, name)
    {
      if fail || !NameExists(nodes, name) {
        return None;
      }
      var id :| id in nodes && nodes[id].name == name;
      return Some(id);
    }

    /** `INSERT INTO NODE ... RETURNING ID`: the row gets the next identity. */
    method InsertNodeRow(folder: bool, name: string, parent: Option<int>, fail: bool) returns (r: Option<int>)
      requires Valid()
      requires parent.Some? ==> 1 <= parent.value < nextId
      modifies this
      ensures Valid()
      ensures r == (if fail then None else Some(old(nextId)))
      ensures nodes == (if fail then old(nodes) else old(nodes)[old(nextId) := Node(folder, name, parent)])
      ensures nextId == (if fail then old(nextId) else old(nextId) + 1)
      ensures metadata == old(metadata) && rootFolder == old(rootFolder)
    {
      if fail {
        return None;
      }
      r := Some(nextId);
      nodes := nodes[nextId := Node(folder, name, parent)];
      nextId := nextId + 1;
    }

    /** `INSERT INTO FILE_METADATA`: HASH_IDS is the array Postgres reads from
        the literal; an unreadable literal or a NODE_ID that is not in NODE
        makes the statement fail. */
    method InsertMetadataRow(fileType: string, fileSize: int, nodeId: int, hashes: string, fail: bool)
      returns (ok: bool)
      requires Valid()
      requires nodeId in nodes ==> forall k :: 0 <= k < |metadata| ==> metadata[k].nodeId != nodeId
      requires nodeId in nodes ==> !nodes[nodeId].folder
      modifies this
      ensures Valid()
      ensures ok <==> !fail && nodeId in nodes && ParseArray(hashes).Some?
      ensures metadata == (if ok then old(metadata) + [FileMeta(fileType, fileSize, ParseArray(hashes).value, nodeId)]
                           else old(metadata))
      ensures nodes == old(nodes) && nextId == old(nextId) && rootFolder == old(rootFolder)
    {
      var decoded := ParseArray(hashes);
      if fail || nodeId !in nodes || decoded.None? {
        return false;
      }
      metadata := metadata + [FileMeta(fileType, fileSize, decoded.value, nodeId)];
      return true;
    }

    /** `SELECT ID FROM NODE WHERE PARENT_FOLDER = $1`: every child once, in
        whatever order the database returns them (there is no ORDER BY). */
    method QueryChildren(p: int, fail: bool) returns (r: Option<seq<int>>)
      requires Valid()
      ensures r.Some? <==> !fail
      ensures r.Some? ==> NoDup(r.value) && forall x :: x in r.value <==> x in ChildSet(nodes, p)
    {
      if fail {
        return None;
      }
      ghost var ascending := ChildrenBetween(nodes, p, 1, nextId);
      assert NoDup(ascending);
      var children := ChildSet(nodes, p);
      var rows :| NoDup(rows) && (forall x | x in rows :: x in children) && (forall x | x in children :: x in rows);
      return Some(rows);
    }

    /** `DELETE FROM FILE_METADATA WHERE NODE_ID = $1`. */
    method DeleteRowsOf(id: int, fail: bool) returns (ok: bool)
      requires Valid()
      modifies this
      ensures Valid()
      ensures ok == !fail
      ensures metadata == (if ok then RowsWithout(old(metadata), {id}) else old(metadata))
      ensures nodes == old(nodes) && nextId == old(nextId) && rootFolder == old(rootFolder)
    {
      if fail {
        return false;
      }
      forall row | row in RowsWithout(metadata, {id}) ensures row.nodeId in nodes && !nodes[row.nodeId].folder {
        RowsWithoutKeeps(metadata, {id}, row);
        var k :| 0 <= k < |metadata| && metadata[k] == row;
      }
      RowsWithoutDistinct(metadata, {id});
      metadata := RowsWithout(metadata, {id});
      return true;
    }

    /** `DELETE FROM NODE WHERE ID = $1`: refused by the foreign key while a
        metadata row still names the node; deleting an absent id is no error. */
    method DeleteNodeRow(id: int, fail: bool) returns (ok: bool)
      requires Valid()
      modifies this
      ensures Valid()
      ensures ok <==> !fail && forall k :: 0 <= k < |metadata| ==> metadata[k].nodeId != id
      ensures nodes == (if ok then old(nodes) - {id} else old(nodes))
      ensures metadata == old(metadata) && nextId == old(nextId) && rootFolder == old(rootFolder)
    {
      if fail || exists k :: 0 <= k < |metadata| && metadata[k].nodeId == id {
        return false;
      }
      nodes := nodes - {id};
      return true;
    }

    // ---- setupDB ----

    /** The root lookup and insert of setupDB: a node named "root" anywhere in
        NODE becomes ROOT_FOLDER; failing that, ROOT_FOLDER keeps its value,
        and while it is still -1 a root folder with a NULL parent is inserted. */
    method SetupRoot(faults: set<Stmt>) returns (r: Result<()>)
      requires Valid()
      modifies this
      ensures Valid() && metadata == old(metadata)
      ensures r.Ok? <==> 1 <= rootFolder
      ensures FindRoot !in faults && NameExists(old(nodes), "root") ==>
        r.Ok? && nodes == old(nodes) && nextId == old(nextId) &&
        rootFolder in nodes && nodes[rootFolder].name == "root"
      ensures (FindRoot in faults || !NameExists(old(nodes), "root")) && old(rootFolder) != -1 ==>
        r.Ok? && nodes == old(nodes) && nextId == old(nextId) && rootFolder == old(rootFolder)
      ensures (FindRoot in faults || !NameExists(old(nodes), "root")) && old(rootFolder) == -1 ==>
        if InsertRoot in faults then
          r == Err(InsertingRoot) && nodes == old(nodes) && nextId == old(nextId) && rootFolder == -1
        else
          r.Ok? && rootFolder == old(nextId) && nextId == old(nextId) + 1 &&
          nodes == old(nodes)[old(nextId) := Node(true, "root", None)]
    {
      var found := QueryByName("root", FindRoot in faults);
      if found.Some? {
        rootFolder := found.value;
      }
      if rootFolder == -1 {
        var id := InsertNodeRow(true, "root", None, InsertRoot in faults);
        if id.None? {
          return Err(InsertingRoot);
        }
        rootFolder := id.value;
      }
      return Ok(());
    }

    // ---- SaveMetadata ----

    /** The first loop of SaveMetadata: walks the split path, skipping empty
        elements, and looks each one up by name until one is not found.
        `matched` counts the segments found, `index` is where the walk stopped
        and `folderId` the last node found (ROOT_FOLDER when none was). */
    method ResolvePath(path: seq<string>, faults: set<Stmt>) returns (index: nat, folderId: int, ghost matched: nat)
      requires Valid() && 1 <= rootFolder
      ensures index <= |path| && matched <= |NonEmpty(path)|
      ensures NonEmpty(path[..index]) == NonEmpty(path)[..matched]
      ensures forall j :: 0 <= j < matched ==> NameExists(nodes, NonEmpty(path)[j])
      ensures matched < |NonEmpty(path)| ==>
        index < |path| && path[index] == NonEmpty(path)[matched] &&
        (FindSegment(index) in faults || !NameExists(nodes, NonEmpty(path)[matched]))
      ensures matched == 0 ==> folderId == rootFolder
      ensures matched > 0 ==> folderId in nodes && nodes[folderId].name == NonEmpty(path)[matched - 1]
      ensures 1 <= folderId < nextId
      ensures (forall i :: FindSegment(i) !in faults) &&
              (forall j :: 0 <= j < |NonEmpty(path)| ==> NameExists(nodes, NonEmpty(path)[j])) ==>
        matched == |NonEmpty(path)|
    {
      ghost var segs := NonEmpty(path);
      index := 0;
      folderId := rootFolder;
      matched := 0;
      while index < |path|
        invariant index <= |path| && matched <= |segs|
        invariant NonEmpty(path[..index]) == segs[..matched]
        invariant forall j :: 0 <= j < matched ==> NameExists(nodes, segs[j])
        invariant matched == 0 ==> folderId == rootFolder
        invariant matched > 0 ==> folderId in nodes && nodes[folderId].name == segs[matched - 1]
        invariant 1 <= folderId < nextId
      {
        ScanStep(path, index, matched);
        if path[index] == [] {
          index := index + 1;
          continue;
        }
        var found := QueryByName(path[index], FindSegment(index) in faults);
        if found.None? {
          break;
        }
        folderId := found.value;
        matched := matched + 1;
        index := index + 1;
      }
      if index == |path| {
        ScanEnd(path, matched);
      }
    }

    /** Where the folder-creating loop stands after `index` elements: `names`
        are the segments inserted so far, as a chain under `parent` whose ids
        start at `first`, and `folderId` is the last of them. */
    ghost predicate Building(path: seq<string>, matched: nat, parent: int, first: int, base: map<int, Node>,
                             index: nat, names: seq<string>, folderId: int)
      reads this
    {
      Scanned(path, matched, index, names) && ChainBuilt(parent, first, base, names, folderId)
    }

    /** The tables hold `base` and the chain of `names`, and the identity
        counter has moved past it. */
    ghost predicate ChainBuilt(parent: int, first: int, base: map<int, Node>, names: seq<string>, folderId: int)
      reads this
    {
      && nodes == base + Chain(parent, names, first)
      && nextId == first + |names|
      && folderId == ChainEnd(parent, |names|, first)
      && 1 <= folderId < nextId
    }

    /** An empty element creates nothing. */
    lemma SkipEmpty(path: seq<string>, matched: nat, parent: int, first: int, base: map<int, Node>,
                    index: nat, names: seq<string>, folderId: int)
      requires Building(path, matched, parent, first, base, index, names, folderId)
      requires index < |path| && path[index] == []
      ensures Building(path, matched, parent, first, base, index + 1, names, folderId)
    {
      ScanStep(path, index, matched + |names|);
    }

    /** One pass of the folder-creating loop over a non-empty element: the
        folder is inserted under `folderId`, or the insert fails and nothing
        changes. */
    method InsertChainFolder(path: seq<string>, ghost matched: nat, parent: int, ghost first: int,
                             ghost base: map<int, Node>, index: nat, ghost names: seq<string>, folderId: int, fail: bool)
      returns (r: Option<int>)
      requires Valid() && Building(path, matched, parent, first, base, index, names, folderId)
      requires index < |path| && path[index] != []
      modifies this
      ensures Valid() && metadata == old(metadata) && rootFolder == old(rootFolder)
      ensures r.None? ==> fail && nodes == old(nodes) && nextId == old(nextId) &&
                          matched + |names| < |NonEmpty(path)| && path[index] == NonEmpty(path)[matched + |names|]
      ensures r.Some? ==> Building(path, matched, parent, first, base, index + 1, names + [path[index]], r.value)
    {
      ScanStep(path, index, matched + |names|);
      ghost var before := nodes;
      r := InsertNodeRow(true, path[index], Some(folderId), fail);
      if r.Some? {
        ChainStep(base, before, nodes, parent, names, path[index], first);
        SliceSnoc(NonEmpty(path), matched, names);
      }
    }

    /** The second loop of SaveMetadata: from where the first stopped, each
        remaining non-empty element becomes a folder under the previous one.
        `names` are the folders inserted, `failedAt` the element whose insert
        failed; the folders inserted before a failure stay. */
    method CreateFolders(path: seq<string>, start: nat, parent: int, ghost matched: nat, faults: set<Stmt>)
      returns (r: Result<int>, ghost names: seq<string>, ghost failedAt: nat)
      requires Valid()
      requires start <= |path| && matched <= |NonEmpty(path)|
      requires NonEmpty(path[..start]) == NonEmpty(path)[..matched]
      requires 1 <= parent < nextId
      modifies this
      ensures Valid()
      ensures matched + |names| <= |NonEmpty(path)| && names == NonEmpty(path)[matched..matched + |names|]
      ensures nodes == old(nodes) + Chain(parent, names, old(nextId))
      ensures nextId == old(nextId) + |names|
      ensures metadata == old(metadata) && rootFolder == old(rootFolder)
      ensures r.Ok? ==> matched + |names| == |NonEmpty(path)| && r.value == ChainEnd(parent, |names|, old(nextId))
      ensures r.Err? ==> r.error == SavingNode && matched + |names| < |NonEmpty(path)| &&
                         start <= failedAt < |path| && path[failedAt] == NonEmpty(path)[matched + |names|] &&
                         InsertFolder(failedAt) in faults
    {
      ghost var first := nextId;
      var index := start;
      var folderId := parent;
      names, failedAt := [], 0;
      assert nodes == old(nodes) + Chain(parent, [], first);
      while index < |path|
        invariant start <= index
        invariant Valid() && metadata == old(metadata) && rootFolder == old(rootFolder)
        invariant Building(path, matched, parent, first, old(nodes), index, names, folderId)
      {
        if path[index] == [] {
          SkipEmpty(path, matched, parent, first, old(nodes), index, names, folderId);
        } else {
          var id := InsertChainFolder(path, matched, parent, first, old(nodes), index, names, folderId,
                                      InsertFolder(index) in faults);
          if id.None? {
            return Err(SavingNode), names, index;
          }
          names := names + [path[index]];
          folderId := id.value;
        }
        index := index + 1;
      }
      ScanEnd(path, matched + |names|);
      r := Ok(folderId);
    }

    /** The file part of SaveMetadata: the hash literal is built, the file node
        is inserted under `folderId`, then its FILE_METADATA row. If the row's
        insert fails, the file node stays without metadata. */
    method SaveFile(fileName: string, fileExtension: string, fileSize: int, hashedChunks: seq<string>,
                    folderId: int, faults: set<Stmt>)
      returns (r: Result<int>, ghost fileId: Option<int>)
      requires Valid() && 1 <= folderId < nextId
      modifies this
      ensures Valid() && rootFolder == old(rootFolder)
      ensures fileId == (if InsertFile in faults then None else Some(old(nextId)))
      ensures nodes == old(nodes) + FileNode(fileId, fileName, folderId)
      ensures nextId == old(nextId) + (if fileId.Some? then 1 else 0)
      ensures r.Ok? <==>
        InsertFile !in faults && InsertFileMetadata !in faults && ParseArray(ArrayLiteral(hashedChunks)).Some?
      ensures r.Ok? ==>
        r.value == old(nextId) &&
        metadata == old(metadata) + [FileMeta(fileExtension, fileSize, ParseArray(ArrayLiteral(hashedChunks)).value, r.value)]
      ensures r.Err? ==> metadata == old(metadata) && r.error == (if fileId.None? then SavingFile else SavingNode)
    {
      var hashes := FormatHashedChunks(hashedChunks);
      var nodeID := InsertNodeRow(false, fileName, Some(folderId), InsertFile in faults);
      fileId := nodeID;
      if nodeID.None? {
        assert nodes == old(nodes) + map[];
        return Err(SavingFile), fileId;
      }
      assert forall k :: 0 <= k < |metadata| ==> metadata[k].nodeId in old(nodes);
      var ok := InsertMetadataRow(fileExtension, fileSize, nodeID.value, hashes, InsertFileMetadata in faults);
      if !ok {
        return Err(SavingNode), fileId;
      }
      r := Ok(nodeID.value);
    }

    /** Phases 1 and 2 of SaveMetadata on the path's segments: `matched` of
        them are found by name, the next one is not, and the remaining
        `created` ones are inserted as a chain of folders under `resolved`, the
        last one found (ROOT_FOLDER when none was). On success the result is
        the folder the path names. */
    method SavePath(filePath: string, faults: set<Stmt>)
      returns (r: Result<int>, ghost matched: nat, ghost created: nat, ghost resolved: int)
      requires Valid() && 1 <= rootFolder
      modifies this
      ensures Valid() && rootFolder == old(rootFolder) && metadata == old(metadata)
      ensures matched + created <= |Segments(filePath)|
      ensures forall j :: 0 <= j < matched ==> NameExists(old(nodes), Segments(filePath)[j])
      ensures matched < |Segments(filePath)| && (forall i :: FindSegment(i) !in faults) ==>
        !NameExists(old(nodes), Segments(filePath)[matched])
      ensures matched == 0 ==> resolved == rootFolder
      ensures matched > 0 ==> resolved in old(nodes) && old(nodes)[resolved].name == Segments(filePath)[matched - 1]
      ensures 1 <= resolved < old(nextId)
      ensures nodes == old(nodes) + Chain(resolved, Segments(filePath)[matched..matched + created], old(nextId))
      ensures nextId == old(nextId) + created
      ensures r.Ok? ==> matched + created == |Segments(filePath)| && r.value == ChainEnd(resolved, created, old(nextId))
      ensures r.Err? ==> r.error == SavingNode && matched + created < |Segments(filePath)| &&
                         exists i :: InsertFolder(i) in faults
      // a path whose every segment name exists is matched whole and creates nothing
      ensures (forall i :: FindSegment(i) !in faults) &&
              (forall j :: 0 <= j < |Segments(filePath)| ==> NameExists(old(nodes), Segments(filePath)[j])) ==>
        matched == |Segments(filePath)| && created == 0
      // afterwards every segment name exists, so saving the path again matches it all
      ensures r.Ok? ==> forall j :: 0 <= j < |Segments(filePath)| ==> NameExists(nodes, Segments(filePath)[j])
    {
      var path := Split(filePath, '/');
      ghost var segs := NonEmpty(path);
      assert Segments(filePath) == segs;
      var index, folderId;
      index, folderId, matched := ResolvePath(path, faults);
      resolved := folderId;
      var made;
      ghost var names, failedAt;
      made, names, failedAt := CreateFolders(path, index, folderId, matched, faults);
      created := |names|;
      assert names == Segments(filePath)[matched..matched + created];
      assert nodes == old(nodes) + Chain(resolved, Segments(filePath)[matched..matched + created], old(nextId));
      if made.Err? {
        return Err(SavingNode), matched, created, resolved;
      }
      SavedNamesExist(old(nodes), resolved, segs, matched, names, old(nextId));
      r := Ok(made.value);
    }

    /** SaveMetadata. A file whose name has no extension is refused before any
        statement runs. Otherwise the path's non-empty segments are matched by
        name from the left (phase 1), the rest are created as a chain of folders
        (phase 2), and for a file its node and its FILE_METADATA row follow.
        `matched`, `created`, `resolved` (the folder phase 1 ended on) and
        `fileId` (the file node, once inserted) describe what happened. */
    method SaveMetadata(data: Metadata, faults: set<Stmt>)
      returns (r: Result<int>, ghost matched: nat, ghost created: nat, ghost resolved: int, ghost fileId: Option<int>)
      requires Valid() && 1 <= rootFolder
      modifies this
      ensures Valid() && rootFolder == old(rootFolder)
      // the extension check comes first
      ensures !data.isFolder && GetFileExtension(data.fileName).None? ==>
        r == Err(UnsupportedFileName) && nodes == old(nodes) && metadata == old(metadata) && nextId == old(nextId)
      ensures r == Err(UnsupportedFileName) ==> !data.isFolder && GetFileExtension(data.fileName).None?
      ensures matched + created <= |Segments(data.filePath)|
      // phase 1 matches segments by name from the left and stops at the first miss
      ensures forall j :: 0 <= j < matched ==> NameExists(old(nodes), Segments(data.filePath)[j])
      ensures (data.isFolder || GetFileExtension(data.fileName).Some?) && (forall i :: FindSegment(i) !in faults) &&
              matched < |Segments(data.filePath)| ==>
        !NameExists(old(nodes), Segments(data.filePath)[matched])
      ensures matched == 0 ==> resolved == rootFolder
      ensures matched > 0 ==> resolved in old(nodes) && old(nodes)[resolved].name == Segments(data.filePath)[matched - 1]
      // the folders phase 2 created below `resolved` (see SavePath), then the file node
      ensures nodes == Saved(old(nodes), resolved, Segments(data.filePath), matched, created, old(nextId), fileId, data.fileName)
      ensures fileId.Some? ==> fileId.value == old(nextId) + created && !data.isFolder
      ensures nextId == old(nextId) + created + (if fileId.Some? then 1 else 0)
      // a folder save returns the last folder of the path
      ensures r.Ok? && data.isFolder ==>
        matched + created == |Segments(data.filePath)| && fileId.None? && metadata == old(metadata) &&
        r.value == ChainEnd(resolved, created, old(nextId))
      // a file save returns its new node, which has exactly one metadata row
      ensures r.Ok? && !data.isFolder ==>
        matched + created == |Segments(data.filePath)| && fileId == Some(r.value) &&
        GetFileExtension(data.fileName).Some? && ParseArray(ArrayLiteral(data.hashes)).Some?
      ensures r.Ok? && !data.isFolder ==>
        metadata == old(metadata) + [FileMeta(GetFileExtension(data.fileName).value, data.fileSize,
                                              ParseArray(ArrayLiteral(data.hashes)).value, r.value)]
      // failures: what stays behind
      ensures r.Err? ==> metadata == old(metadata)
      ensures r == Err(SavingFile) ==> fileId.None? && InsertFile in faults
      ensures r.Err? && fileId.Some? ==>
        r.error == SavingNode && (InsertFileMetadata in faults || ParseArray(ArrayLiteral(data.hashes)).None?)
      ensures r == Err(SavingNode) && fileId.None? ==>
        matched + created < |Segments(data.filePath)| && exists i :: InsertFolder(i) in faults
      // with no failing statement a well-formed save succeeds
      ensures faults == {} && data.isFolder ==> r.Ok?
      ensures faults == {} && GetFileExtension(data.fileName).Some? && ParseArray(ArrayLiteral(data.hashes)).Some? ==>
        r.Ok?
      // a folder save of a path with no segments ("" or "/") writes nothing and returns ROOT_FOLDER
      ensures data.isFolder && Segments(data.filePath) == [] ==>
        r == Ok(rootFolder) && nodes == old(nodes) && nextId == old(nextId) && metadata == old(metadata)
      // the folder returned is a node named after the last segment, found or created
      ensures r.Ok? && data.isFolder && Segments(data.filePath) != [] ==>
        r.value in nodes && nodes[r.value].name == Segments(data.filePath)[|Segments(data.filePath)| - 1]
      // a path whose every segment name already exists creates no folder
      ensures (data.isFolder || GetFileExtension(data.fileName).Some?) && (forall i :: FindSegment(i) !in faults) &&
              (forall j :: 0 <= j < |Segments(data.filePath)| ==> NameExists(old(nodes), Segments(data.filePath)[j])) ==>
        matched == |Segments(data.filePath)| && created == 0
      // afterwards every segment name exists, so saving the path again matches it all
      ensures r.Ok? ==> forall j :: 0 <= j < |Segments(data.filePath)| ==> NameExists(nodes, Segments(data.filePath)[j])
    {
      matched, created, resolved, fileId := 0, 0, rootFolder, None;
      var fileExtension := GetFileExtension(data.fileName);
      if !data.isFolder && fileExtension.None? {
        NoChain(nodes, resolved, Segments(data.filePath)[0..0], nextId);
        NoFileNode(nodes, data.fileName, ChainEnd(resolved, 0, nextId));
        SaveShape(nodes, nodes, nodes, resolved, Segments(data.filePath), 0, 0, nextId,
                  None, data.fileName);
        r := Err(UnsupportedFileName);
        return;
      }
      r, matched, created, resolved := SavePath(data.filePath, faults);
      ghost var mid := nodes;
      ghost var fileParent := ChainEnd(resolved, created, old(nextId));
      if r.Err? || data.isFolder {
        if r.Ok? && Segments(data.filePath) != [] {
          FolderSaveTarget(old(nodes), resolved, Segments(data.filePath), matched, created, old(nextId));
        }
        NoFileNode(nodes, data.fileName, fileParent);
        SaveShape(old(nodes), mid, nodes, resolved, Segments(data.filePath), matched, created, old(nextId),
                  None, data.fileName);
        return;
      }
      ghost var before := nodes;
      r, fileId := SaveFile(data.fileName, fileExtension.value, data.fileSize, data.hashes, r.value, faults);
      SaveShape(old(nodes), mid, nodes, resolved, Segments(data.filePath), matched, created, old(nextId),
                fileId, data.fileName);
      if r.Ok? {
        NamesKept(before, FileNode(fileId, data.fileName, fileParent), Segments(data.filePath));
      }
    }

    // ---- FetchMetadata ----

    /** FetchMetadata: the join of the node with its FILE_METADATA row, read
        with QueryRow. The id text must read as a bigint, and the node must
        have a metadata row (a folder or an absent id has none); every failure
        is the same error. The hash array is copied out element by element. */
    method FetchMetadata(nodeId: string, faults: set<Stmt>) returns (r: Result<FileInfo>)
      requires Valid()
      ensures r.Ok? <==> SelectFile !in faults && ParseInt64(nodeId).Some? &&
                         FileRow(metadata, ParseInt64(nodeId).value).Some?
      ensures r.Ok? ==>
        var id := ParseInt64(nodeId).value;
        var row := FileRow(metadata, id).value;
        id in nodes && r.value == FileInfo(nodes[id].name, row.fileSize, Values(row.hashIds))
      ensures ParseInt64(nodeId).Some? && ParseInt64(nodeId).value in nodes && nodes[ParseInt64(nodeId).value].folder ==>
        r.Err?
      ensures r.Err? ==> r.error == FetchingData
    {
      var id := ParseInt64(nodeId);
      if SelectFile in faults || id.None? {
        return Err(FetchingData);
      }
      var row := FileRow(metadata, id.value);
      if row.None? {
        return Err(FetchingData);
      }
      var elements := row.value.hashIds;
      var hashes := [];
      for i := 0 to |elements|
        invariant hashes == Values(elements[..i])
      {
        hashes := hashes + [TextOf(elements[i])];
      }
      assert elements[..|elements|] == elements;
      return Ok(FileInfo(nodes[id.value].name, row.value.fileSize, hashes));
    }

    // ---- DeleteMetadata ----

    /** The breadth-first walk of DeleteMetadata: pops the queue's head, appends
        its children to the queue and to `nodeIDs`, until the queue is empty.
        It keeps no visited set; it ends because parents precede children. */
    method CollectSubtree(start: int, faults: set<Stmt>) returns (r: Option<seq<int>>)
      requires Valid()
      ensures (forall k :: SelectChildren(k) !in faults) ==> r.Some?
      ensures r.Some? ==> |r.value| >= 1 && r.value[0] == start && NoDup(r.value)
      ensures r.Some? ==> forall x :: x in r.value <==> InSubtree(nodes, x, start)
      ensures r.Some? ==> forall k :: 0 < k < |r.value| ==>
        r.value[k] in nodes && nodes[r.value[k]].parent.Some? && nodes[r.value[k]].parent.value in r.value[..k]
      // breadth-first: children in their parents' order, level by level
      ensures r.Some? ==> LevelOrder(nodes, r.value)
      ensures r.Some? ==> forall j, k :: 0 <= j < k < |r.value| ==>
        InSubtree(nodes, r.value[j], start) && InSubtree(nodes, r.value[k], start) &&
        Depth(nodes, r.value[j], start) <= Depth(nodes, r.value[k], start)
    {
      var queue := [start];
      var nodeIDs := [start];
      ghost var done := 0;
      ghost var pos: seq<int> := [0];
      while |queue| > 0
        invariant Walking(nodes, start, nodeIDs, pos, done, queue)
        decreases nodes.Keys - Elems(nodeIDs), |queue|
      {
        var current := queue[0];
        var popped := queue;
        var children := QueryChildren(current, SelectChildren(current) in faults);
        if children.None? {
          return None;
        }
        var kids := children.value;
        WalkAdvance(nodes, start, nodeIDs, pos, done, popped, kids);
        queue := popped[1..] + kids;
        nodeIDs := nodeIDs + kids;
        pos := pos + seq(|kids|, _ => done);
        done := done + 1;
      }
      WalkDone(nodes, start, nodeIDs, pos);
      return Some(nodeIDs);
    }

    /** One pass of the delete loop: the id's FILE_METADATA rows, then its
        NODE row; a failing statement stops the pass where it failed. */
    method DeleteOne(id: int, faults: set<Stmt>) returns (r: Result<()>)
      requires Valid()
      modifies this
      ensures Valid() && nextId == old(nextId) && rootFolder == old(rootFolder)
      ensures r.Ok? <==> DeleteRows(id) !in faults && DeleteNode(id) !in faults
      ensures r.Ok? ==> nodes == old(nodes) - {id} && metadata == RowsWithout(old(metadata), {id})
      ensures r.Err? ==> nodes == old(nodes)
      ensures r.Err? && DeleteRows(id) in faults ==> r.error == DeletingFileMetadata && metadata == old(metadata)
      ensures r.Err? && DeleteRows(id) !in faults ==>
        r.error == DeletingNode && metadata == RowsWithout(old(metadata), {id})
    {
      var ok := DeleteRowsOf(id, DeleteRows(id) in faults);
      if !ok {
        return Err(DeletingFileMetadata);
      }
      ok := DeleteNodeRow(id, DeleteNode(id) in faults);
      if !ok {
        return Err(DeletingNode);
      }
      return Ok(());
    }

    /** The delete loop of DeleteMetadata: for each collected id, in order, its
        FILE_METADATA rows and then its NODE row. The first failing statement
        ends the loop: the ids before it are gone, and when it was the node
        delete, that id's rows are gone too. */
    method DeleteCollected(nodeIDs: seq<int>, faults: set<Stmt>)
      returns (r: Result<()>, ghost deleted: nat, ghost rowsCleared: nat)
      requires Valid()
      modifies this
      ensures Valid() && nextId == old(nextId) && rootFolder == old(rootFolder)
      ensures deleted <= rowsCleared <= |nodeIDs| && rowsCleared <= deleted + 1
      ensures nodes == old(nodes) - Elems(nodeIDs[..deleted])
      ensures metadata == RowsWithout(old(metadata), Elems(nodeIDs[..rowsCleared]))
      ensures r.Ok? <==> deleted == |nodeIDs|
      ensures r.Err? ==>
        deleted < |nodeIDs| &&
        ((r.error == DeletingFileMetadata && rowsCleared == deleted && DeleteRows(nodeIDs[deleted]) in faults) ||
         (r.error == DeletingNode && rowsCleared == deleted + 1 && DeleteNode(nodeIDs[deleted]) in faults))
      ensures (forall x :: DeleteRows(x) !in faults && DeleteNode(x) !in faults) ==> r.Ok?
    {
      RowsWithoutNothing(metadata);
      assert nodeIDs[..0] == [] && Elems([]) == {};
      assert nodes == nodes - {};
      var i := 0;
      while i < |nodeIDs|
        invariant 0 <= i <= |nodeIDs|
        invariant Valid() && nextId == old(nextId) && rootFolder == old(rootFolder)
        invariant nodes == old(nodes) - Elems(nodeIDs[..i])
        invariant metadata == RowsWithout(old(metadata), Elems(nodeIDs[..i]))
      {
        var id := nodeIDs[i];
        ghost var done := Elems(nodeIDs[..i]);
        assert Elems(nodeIDs[..i + 1]) == done + {id} by {
          assert nodeIDs[..i + 1] == nodeIDs[..i] + [id];
        }
        RowsWithoutUnion(old(metadata), done, {id});
        var step := DeleteOne(id, faults);
        if step.Err? {
          return step, i, if step.error == DeletingNode then i + 1 else i;
        }
        assert old(nodes) - done - {id} == old(nodes) - (done + {id});
        i := i + 1;
      }
      assert nodeIDs[..i] == nodeIDs;
      return Ok(()), i, i;
    }

    /** DeleteMetadata: reads the id, collects its subtree, then deletes each
        collected id's metadata rows and then its node, in BFS order. */
    method DeleteMetadata(nodeId: string, faults: set<Stmt>)
      returns (r: Result<()>, ghost collected: seq<int>, ghost deleted: nat, ghost rowsCleared: nat)
      requires Valid()
      modifies this
      ensures Valid() && nextId == old(nextId) && rootFolder == old(rootFolder)
      ensures ParseInt64(nodeId).None? ==>
        r == Err(InvalidNodeId) && nodes == old(nodes) && metadata == old(metadata)
      ensures ParseInt64(nodeId).Some? && collected == [] ==>
        r == Err(DeletingNode) && nodes == old(nodes) && metadata == old(metadata)
      ensures collected != [] ==>
        ParseInt64(nodeId).Some? && collected[0] == ParseInt64(nodeId).value && NoDup(collected) &&
        forall x :: x in collected <==> InSubtree(old(nodes), x, collected[0])
      ensures forall k :: 0 < k < |collected| ==>
        collected[k] in old(nodes) && old(nodes)[collected[k]].parent.Some? &&
        old(nodes)[collected[k]].parent.value in collected[..k]
      // breadth-first, as CollectSubtree (which also gives the depth order)
      ensures LevelOrder(old(nodes), collected)
      ensures deleted <= rowsCleared <= |collected| && rowsCleared <= deleted + 1
      ensures nodes == old(nodes) - Elems(collected[..deleted])
      ensures metadata == RowsWithout(old(metadata), Elems(collected[..rowsCleared]))
      ensures r.Ok? <==> collected != [] && deleted == |collected|
      ensures r.Err? && collected != [] ==>
        deleted < |collected| &&
        ((r.error == DeletingFileMetadata && rowsCleared == deleted && DeleteRows(collected[deleted]) in faults) ||
         (r.error == DeletingNode && rowsCleared == deleted + 1 && DeleteNode(collected[deleted]) in faults))
      ensures ParseInt64(nodeId).Some? && faults == {} ==> r.Ok?
    {
      collected, deleted, rowsCleared := [], 0, 0;
      RowsWithoutNothing(metadata);
      assert collected[..0] == [] && Elems([]) == {};
      assert nodes == nodes - {};
      var id := ParseInt64(nodeId);
      if id.None? {
        return Err(InvalidNodeId), collected, deleted, rowsCleared;
      }
      var found := CollectSubtree(id.value, faults);
      if found.None? {
        return Err(DeletingNode), collected, deleted, rowsCleared;
      }
      collected := found.value;
      r, deleted, rowsCleared := DeleteCollected(found.value, faults);
    }

    // ---- CleanOrphanNodes ----

    /** One run of the orphan sweep. The statement is all or nothing: if an
        orphan still has a metadata row, the foreign key refuses the delete and
        nothing changes. */
    method SweepOrphans(faults: set<Stmt>) returns (ok: bool)
      requires Valid()
      modifies this
      ensures Valid()
      ensures ok <==> Sweep !in faults && forall k :: 0 <= k < |metadata| ==> !Orphan(old(nodes), metadata[k].nodeId)
      ensures nodes == (if ok then Swept(old(nodes)) else old(nodes))
      ensures metadata == old(metadata) && nextId == old(nextId) && rootFolder == old(rootFolder)
    {
      if Sweep in faults || exists k :: 0 <= k < |metadata| && Orphan(nodes, metadata[k].nodeId) {
        return false;
      }
      SweptParentsPrecede(nodes);
      nodes := Swept(nodes);
      return true;
    }
  }
}
