/**
  Sequences of calls on one store, as the metadata service's HTTP handlers make
  them: the promises that only show across two operations (a repeated folder
  save, a save followed by a fetch, a save followed by a delete).
 */
module MetadataScenarios {
  import opened Outcomes
  import opened GoStrings
  import opened GoStrconv
  import opened MetadataUtil
  import opened PgArray
  import opened MetadataTree
  import opened MetadataDb

  /** The request body of a folder save. */
  function FolderRequest(path: string): Metadata {
    Metadata("", path, true, 0, [])
  }

  /** Saving the same folder path twice with no failing statement: both saves
      succeed, and the second one creates no node at all, because every
      segment name exists after the first and lookup is by name. The folder
      the second returns is named after the last segment. */
  method SaveFolderTwice(store: Store, path: string)
    returns (first: Result<int>, second: Result<int>, ghost afterFirst: map<int, Node>)
    requires store.Valid() && 1 <= store.rootFolder
    modifies store
    ensures store.Valid()
    ensures first.Ok? && second.Ok?
    ensures store.nodes == afterFirst && store.metadata == old(store.metadata)
    ensures Segments(path) != [] ==>
      second.value in store.nodes && store.nodes[second.value].name == Segments(path)[|Segments(path)| - 1]
  {
    var data := FolderRequest(path);
    ghost var matched, created, resolved, fileId;
    first, matched, created, resolved, fileId := store.SaveMetadata(data, {});
    afterFirst := store.nodes;
    ghost var before := store.nextId;
    second, matched, created, resolved, fileId := store.SaveMetadata(data, {});
    assert matched == |Segments(path)| && created == 0 && fileId.None?;
    NothingAdded(afterFirst, resolved, Segments(path), before, data.fileName);
  }

  /** A file saved with no failing statement reads back through FetchMetadata
      under the decimal form of its id: same name, same size, same hashes in
      the same order, as long as no hash holds a '"' or a '\'. */
  method SaveThenFetch(store: Store, folderPath: string, fileName: string, fileSize: int, hashes: seq<string>)
    returns (saved: Result<int>, fetched: Result<FileInfo>)
    requires store.Valid() && 1 <= store.rootFolder
    requires store.nextId + |Segments(folderPath)| <= MaxInt64
    requires GetFileExtension(fileName).Some?
    requires forall k :: 0 <= k < |hashes| ==> Plain(hashes[k])
    modifies store
    ensures store.Valid()
    ensures saved.Ok? && fetched == Ok(FileInfo(fileName, fileSize, hashes))
  {
    RoundTrip(hashes);
    ValuesAsText(hashes);
    ghost var rowsBefore := store.metadata;
    ghost var nextBefore := store.nextId;
    assert forall k :: 0 <= k < |rowsBefore| ==> rowsBefore[k].nodeId < nextBefore;
    ghost var matched, created, resolved, fileId;
    saved, matched, created, resolved, fileId :=
      store.SaveMetadata(Metadata(fileName, folderPath, false, fileSize, hashes), {});
    var id := saved.value;
    var row := FileMeta(GetFileExtension(fileName).value, fileSize, AsText(hashes), id);
    SavedFileFound(rowsBefore, nextBefore, row);
    SavedFileName(old(store.nodes), resolved, Segments(folderPath), matched, created, nextBefore, id, fileName);
    ParseDecimal(id);
    fetched := store.FetchMetadata(Decimal(id), {});
  }

  /** The row a file save appends under a fresh id is the one a join finds. */
  lemma SavedFileFound(rowsBefore: seq<FileMeta>, nextBefore: int, row: FileMeta)
    requires forall k :: 0 <= k < |rowsBefore| ==> rowsBefore[k].nodeId < nextBefore
    requires nextBefore <= row.nodeId
    ensures FileRow(rowsBefore + [row], row.nodeId) == Some(row)
  {
    FileRowAppend(rowsBefore, row);
  }

  /** The file node is the last entry a save adds, so it keeps its name. */
  lemma SavedFileName(m: map<int, Node>, parent: int, segs: seq<string>, matched: nat, created: nat, first: int,
                      id: int, name: string)
    requires matched + created <= |segs|
    ensures var after := Saved(m, parent, segs, matched, created, first, Some(id), name);
      id in after && after[id].name == name
  {
  }

  /** "a/b" has the segments "a" and "b". */
  lemma SegmentsAB()
    ensures Segments("a/b") == ["a", "b"]
  {
    assert NoSep("a", '/') && NoSep("b", '/');
    JoinSplit(["a", "b"], '/');
    assert Join(["a", "b"], '/') == "a/b";
    assert NonEmpty(["a", "b"][..1]) == ["a"];
  }

  /** "doc.txt" has the extension ".txt". */
  lemma DocExtension()
    ensures GetFileExtension("doc.txt") == Some(".txt")
  {
    var n := "doc.txt";
    assert n[6] == 't' && n[5] == 'x' && n[4] == 't' && n[3] == '.';
    assert ExtFrom(n, 4) == n[3..] == ".txt";
  }

  /** The root, the folders "a" and "b" of the path "a/b", and a file in "b". */
  function TreeAB(file: string): map<int, Node> {
    FoldersAB()[4 := Node(false, file, Some(3))]
  }

  /** The root and the folders "a" and "b" of the path "a/b". */
  function FoldersAB(): map<int, Node> {
    RootOnly()[2 := Node(true, "a", Some(1))][3 := Node(true, "b", Some(2))]
  }

  /** The root alone. */
  function RootOnly(): map<int, Node> {
    map[1 := Node(true, "root", None)]
  }

  /** Setup on fresh tables finds no "root" and inserts it with the first id. */
  method FreshStore() returns (store: Store)
    ensures fresh(store) && store.Valid()
    ensures store.nodes == RootOnly() && store.metadata == [] && store.nextId == 2 && store.rootFolder == 1
  {
    store := new Store();
    var setup := store.SetupRoot({});
  }

  /** Saving the folder "a/b" over the root alone: neither name exists, so
      "a" is created under the root and "b" under "a". */
  method SaveFolderAB(store: Store, path: string) returns (r: Result<int>)
    requires Segments(path) == ["a", "b"]
    requires store.Valid() && store.rootFolder == 1
    requires store.nodes == RootOnly() && store.metadata == [] && store.nextId == 2
    modifies store
    ensures store.Valid() && store.rootFolder == 1
    ensures r == Ok(3)
    ensures store.nodes == FoldersAB() && store.metadata == [] && store.nextId == 4
  {
    assert !NameExists(RootOnly(), "a") by {
      assert forall id | id in RootOnly() :: RootOnly()[id].name == "root";
    }
    ghost var matched, created, resolved, fileId;
    r, matched, created, resolved, fileId := store.SaveMetadata(FolderRequest(path), {});
    assert matched == 0 && created == 2 && resolved == 1;
    ChainABSaved(path);
  }

  /** The folders a save of "a/b" adds over the root alone, when nothing matched. */
  lemma ChainABSaved(path: string)
    requires Segments(path) == ["a", "b"]
    ensures Saved(RootOnly(), 1, Segments(path), 0, 2, 2, None, "") == FoldersAB()
    ensures ChainEnd(1, 2, 2) == 3
  {
    assert Segments(path)[0..2] == ["a", "b"];
    ChainAB();
  }

  /** The chain phase 2 builds for "a" and "b" under the root. */
  lemma ChainAB()
    ensures RootOnly() + Chain(1, ["a", "b"], 2) + FileNode(None, "", ChainEnd(1, 2, 2)) == FoldersAB()
  {
    assert ["a", "b"][..1] == ["a"];
    assert Chain(1, ["a"], 2) == map[2 := Node(true, "a", Some(1))];
  }

  /** The file node added under "b" once "a/b" is matched whole. */
  lemma FileAB(name: string)
    ensures FoldersAB() + Chain(3, [], 4) + FileNode(Some(4), name, ChainEnd(3, 0, 4)) == TreeAB(name)
  {
  }

  /** Saving a file with an extension in "a/b" once "a" and "b" exist: no
      folder is created; the file node gets id 4 under "b", with its row. */
  method SaveFileInAB(store: Store, path: string, name: string, size: int, hashes: seq<string>)
    returns (r: Result<int>)
    requires Segments(path) == ["a", "b"]
    requires GetFileExtension(name).Some? && ParseArray(ArrayLiteral(hashes)) == Some(AsText(hashes))
    requires store.Valid() && store.rootFolder == 1
    requires store.nodes == FoldersAB() && store.metadata == [] && store.nextId == 4
    modifies store
    ensures store.Valid() && store.rootFolder == 1
    ensures r == Ok(4)
    ensures store.nodes == TreeAB(name) && store.metadata == [FileMeta(GetFileExtension(name).value, size, AsText(hashes), 4)]
  {
    NamesAB(FoldersAB());
    ghost var matched, created, resolved, fileId;
    r, matched, created, resolved, fileId := store.SaveMetadata(Metadata(name, path, false, size, hashes), {});
    assert matched == 2 && created == 0;
    OnlyB(FoldersAB(), resolved);
    FileInB(path, name, resolved);
  }

  /** The file node a save adds once "a/b" is matched whole as node 3. */
  lemma FileInB(path: string, name: string, resolved: int)
    requires Segments(path) == ["a", "b"] && resolved == 3
    ensures Saved(FoldersAB(), resolved, Segments(path), 2, 0, 4, Some(4), name) == TreeAB(name)
  {
    assert Segments(path)[2..2] == [];
    FileAB(name);
  }

  /** A node named "b" in a table where only node 3 has that name is node 3. */
  lemma OnlyB(nodes: map<int, Node>, id: int)
    requires forall k | k in nodes && nodes[k].name == "b" :: k == 3
    requires id in nodes && nodes[id].name == "b"
    ensures id == 3
  {
  }

  /** A save that matched the whole path and added no file node left the table as it was. */
  lemma NothingAdded(m: map<int, Node>, parent: int, segs: seq<string>, first: int, name: string)
    ensures Saved(m, parent, segs, |segs|, 0, first, None, name) == m
  {
    assert segs[|segs|..|segs|] == [];
  }

  /** In a table holding "a" as 2 and "b" as 3 and no other "b", both names
      exist and a lookup of "b" can only find 3. */
  lemma NamesAB(nodes: map<int, Node>)
    requires nodes == FoldersAB() || exists file: string :: file != "b" && nodes == TreeAB(file)
    ensures NameExists(nodes, "a") && NameExists(nodes, "b")
    ensures forall id | id in nodes && nodes[id].name == "b" :: id == 3
  {
    assert nodes[2].name == "a" && nodes[3].name == "b";
  }

  /** Saving the folder "a/b" again creates nothing and returns "b". */
  method SaveFolderABAgain(store: Store, path: string, name: string) returns (r: Result<int>)
    requires Segments(path) == ["a", "b"] && name != "b"
    requires store.Valid() && store.rootFolder == 1
    requires store.nodes == TreeAB(name)
    modifies store
    ensures store.Valid()
    ensures r == Ok(3) && store.nodes == TreeAB(name) && store.metadata == old(store.metadata)
  {
    NamesAB(store.nodes);
    ghost var matched, created, resolved, fileId;
    r, matched, created, resolved, fileId := store.SaveMetadata(FolderRequest(path), {});
    assert matched == 2 && created == 0;
    NothingAdded(old(store.nodes), resolved, Segments(path), old(store.nextId), "");
    OnlyB(old(store.nodes), resolved);
  }

  /** Deleting "a" (id 2) from that tree takes "b" and the file with it, and
      the file's metadata row; only the root stays. */
  method DeleteFolderA(store: Store, id: string, name: string, row: FileMeta) returns (r: Result<()>)
    requires ParseInt64(id) == Some(2) && row.nodeId == 4
    requires store.Valid()
    requires store.nodes == TreeAB(name) && store.metadata == [row]
    modifies store
    ensures store.Valid()
    ensures r.Ok?
    ensures store.nodes == RootOnly() && store.metadata == []
  {
    ghost var collected, deleted, rowsCleared;
    SubtreeOfA(name);
    r, collected, deleted, rowsCleared := store.DeleteMetadata(id, {});
    CollectedOfA(name, row, collected);
    assert collected[..deleted] == collected;
  }

  /** Whatever order the children query returns rows in, the walk from "a"
      collects exactly "a", "b" and the file, and deleting them leaves the
      root alone with no metadata row. */
  lemma CollectedOfA(name: string, row: FileMeta, collected: seq<int>)
    requires row.nodeId == 4
    requires ParentsPrecede(TreeAB(name))
    requires forall x :: x in collected <==> InSubtree(TreeAB(name), x, 2)
    ensures TreeAB(name) - Elems(collected) == RootOnly()
    ensures RowsWithout([row], Elems(collected)) == []
  {
    SubtreeOfA(name);
    forall x ensures x in Elems(collected) <==> x in {2, 3, 4} {
      assert x in Elems(collected) <==> InSubtree(TreeAB(name), x, 2);
    }
    assert Elems(collected) == {2, 3, 4};
  }

  /** The subtree of "a" is "a", "b" and the file. */
  lemma SubtreeOfA(name: string)
    ensures ParentsPrecede(TreeAB(name))
    ensures forall x :: InSubtree(TreeAB(name), x, 2) <==> x in {2, 3, 4}
  {
    var nodes := TreeAB(name);
    assert Descends(nodes, 3, 2);
    assert Descends(nodes, 4, 2);
    assert !Descends(nodes, 1, 2);
    assert !Descends(nodes, 2, 2) by { assert !Descends(nodes, 1, 2); }
  }

  /** On fresh tables with nothing failing: setup inserts the root, saving the
      folder "a/b" creates "a" under the root and "b" under "a", saving the file
      "doc.txt" in "a/b" adds one node under "b" and one metadata row, saving
      the folder "a/b" again creates nothing and returns "b", and deleting "a"
      leaves the root alone. */
  method BuildTreeAndDelete()
    returns (store: Store, folder: Result<int>, file: Result<int>, again: Result<int>, deleted: Result<()>)
    ensures folder == Ok(3) && file == Ok(4) && again == Ok(3) && deleted.Ok?
    ensures store.Valid() && store.nodes == RootOnly() && store.metadata == []
  {
    SegmentsAB();
    DocExtension();
    assert Plain("h1");
    RoundTrip(["h1"]);
    assert AsText(["h1"]) == [Text("h1")];
    ParseDecimal(2);
    assert Decimal(2) == "2";
    store := FreshStore();
    folder := SaveFolderAB(store, "a/b");
    file := SaveFileInAB(store, "a/b", "doc.txt", 10, ["h1"]);
    assert store.nodes == TreeAB("doc.txt");
    again := SaveFolderABAgain(store, "a/b", "doc.txt");
    deleted := DeleteFolderA(store, "2", "doc.txt", FileMeta(".txt", 10, [Text("h1")], 4));
  }

  // ---- what the global name lookup does ----

  /** "b" alone is one segment. */
  lemma SegmentsB()
    ensures Segments("b") == ["b"]
  {
    assert NoSep("b", '/');
    SplitNoSep("b", '/');
  }

  /** "doc.txt/x" has the segments "doc.txt" and "x". */
  lemma SegmentsDocX()
    ensures Segments("doc.txt/x") == ["doc.txt", "x"]
  {
    assert NoSep("doc.txt", '/') && NoSep("x", '/');
    JoinSplit(["doc.txt", "x"], '/');
    assert ["doc.txt", "x"][..1] == ["doc.txt"];
    assert Join(["doc.txt", "x"], '/') == "doc.txt/x";
    assert NonEmpty(["doc.txt", "x"][..1]) == ["doc.txt"];
  }

  /** Saving the folder "b" directly under the root, while the only "b" is the
      one under "a": the lookup by name finds that one, so nothing is created
      and the folder returned is not a child of the root. */
  method SaveFolderFindsNameElsewhere(store: Store) returns (r: Result<int>)
    requires store.Valid() && store.rootFolder == 1
    requires store.nodes == FoldersAB()
    modifies store
    ensures store.Valid()
    ensures r == Ok(3) && store.nodes == FoldersAB() && store.metadata == old(store.metadata)
    ensures store.nodes[r.value].parent != Some(store.rootFolder)
  {
    SegmentsB();
    NamesAB(store.nodes);
    ghost var matched, created, resolved, fileId;
    r, matched, created, resolved, fileId := store.SaveMetadata(FolderRequest("b"), {});
    assert matched == 1 && created == 0;
    NothingAdded(old(store.nodes), resolved, Segments("b"), old(store.nextId), "");
    OnlyB(old(store.nodes), resolved);
  }

  /** Saving the folder "doc.txt/x" where "doc.txt" is a file: the lookup does
      not ask for a folder, so "x" is created as a folder under the file node
      instead of the save being refused. */
  method SaveFolderUnderFile(store: Store) returns (r: Result<int>)
    requires store.Valid() && store.rootFolder == 1
    requires store.nodes == TreeAB("doc.txt") && store.nextId == 5
    modifies store
    ensures store.Valid()
    ensures r == Ok(5) && store.nodes == TreeAB("doc.txt")[5 := Node(true, "x", Some(4))]
    ensures !store.nodes[4].folder && store.nodes[5].parent == Some(4)
  {
    SegmentsDocX();
    NamesDocX();
    ghost var matched, created, resolved, fileId;
    r, matched, created, resolved, fileId := store.SaveMetadata(FolderRequest("doc.txt/x"), {});
    ChainUnderFile(matched, created, resolved, store.nodes, r);
  }

  /** In the tree with the file "doc.txt", that name belongs to node 4 only,
      and no node is named "x". */
  lemma NamesDocX()
    ensures NameExists(TreeAB("doc.txt"), "doc.txt")
    ensures forall id | id in TreeAB("doc.txt") && TreeAB("doc.txt")[id].name == "doc.txt" :: id == 4
    ensures !NameExists(TreeAB("doc.txt"), "x")
  {
    var nodes := TreeAB("doc.txt");
    assert nodes[4].name == "doc.txt";
  }

  /** What the save of "doc.txt/x" can have done: matched "doc.txt" as node 4
      and created "x" under it as node 5. */
  lemma ChainUnderFile(matched: nat, created: nat, resolved: int, nodes: map<int, Node>, r: Result<int>)
    requires matched <= 2 && matched + created == 2
    requires forall j :: 0 <= j < matched ==> NameExists(TreeAB("doc.txt"), ["doc.txt", "x"][j])
    requires matched < 2 ==> !NameExists(TreeAB("doc.txt"), ["doc.txt", "x"][matched])
    requires matched > 0 ==> resolved in TreeAB("doc.txt") && TreeAB("doc.txt")[resolved].name == ["doc.txt", "x"][matched - 1]
    requires nodes == Saved(TreeAB("doc.txt"), resolved, ["doc.txt", "x"], matched, created, 5, None, "")
    requires r == Ok(ChainEnd(resolved, created, 5))
    ensures r == Ok(5) && nodes == TreeAB("doc.txt")[5 := Node(true, "x", Some(4))]
  {
    NamesDocX();
    assert matched == 1 && resolved == 4 && created == 1;
    assert ["doc.txt", "x"][1..2] == ["x"];
    assert Chain(4, ["x"], 5) == map[5 := Node(true, "x", Some(4))];
  }

  // ---- where orphans come from ----

  /** ROOT_FOLDER is read once, at setup: deleting the root node leaves it
      naming an id that is gone, and a folder saved at the top afterwards
      hangs under that id, an orphan for the sweep. */
  method DeleteRootThenSave() returns (store: Store, deleted: Result<()>, saved: Result<int>)
    ensures deleted.Ok? && saved == Ok(2)
    ensures store.Valid() && store.rootFolder == 1 && store.metadata == []
    ensures store.nodes == map[2 := Node(true, "x", Some(1))] && Orphan(store.nodes, 2)
  {
    store := FreshStore();
    deleted := DeleteRoot(store);
    saved := SaveTopFolder(store);
  }

  /** Deleting the root of a fresh store empties NODE but keeps ROOT_FOLDER. */
  method DeleteRoot(store: Store) returns (r: Result<()>)
    requires store.Valid() && store.rootFolder == 1
    requires store.nodes == RootOnly() && store.metadata == [] && store.nextId == 2
    modifies store
    ensures r.Ok? && store.Valid() && store.rootFolder == 1
    ensures store.nodes == map[] && store.metadata == [] && store.nextId == 2
  {
    ParseDecimal(1);
    assert Decimal(1) == "1";
    ghost var collected, done, rowsCleared;
    r, collected, done, rowsCleared := store.DeleteMetadata("1", {});
    RootAlone(collected);
    assert collected[..done] == collected;
  }

  /** The folder "x" saved over an empty NODE goes under ROOT_FOLDER as it is. */
  method SaveTopFolder(store: Store) returns (r: Result<int>)
    requires store.Valid() && store.rootFolder == 1
    requires store.nodes == map[] && store.metadata == [] && store.nextId == 2
    modifies store
    ensures r == Ok(2) && store.Valid() && store.rootFolder == 1 && store.metadata == []
    ensures store.nodes == map[2 := Node(true, "x", Some(1))]
  {
    SegmentsX();
    ghost var matched, created, resolved, fileId;
    r, matched, created, resolved, fileId := store.SaveMetadata(FolderRequest("x"), {});
    assert matched == 0 && created == 1;
    OneFolder(old(store.nodes), resolved, 2);
  }

  /** The subtree of the root alone is the root. */
  lemma RootAlone(collected: seq<int>)
    requires forall x :: x in collected <==> InSubtree(RootOnly(), x, 1)
    ensures RootOnly() - Elems(collected) == map[]
  {
    assert InSubtree(RootOnly(), 1, 1);
    assert 1 in Elems(collected);
  }

  /** "x" alone is one segment. */
  lemma SegmentsX()
    ensures Segments("x") == ["x"]
  {
    assert NoSep("x", '/');
    SplitNoSep("x", '/');
  }

  /** Phase 2 creating "x" under `parent` over an empty table. */
  lemma OneFolder(m: map<int, Node>, parent: int, first: int)
    requires m == map[]
    ensures Saved(m, parent, ["x"], 0, 1, first, None, "") == map[first := Node(true, "x", Some(parent))]
  {
    assert ["x"][0..1] == ["x"];
    ChainShape(parent, ["x"], first);
  }
}
