# Skyvault metadata tree, in Dafny

This project models the metadata service of Skyvault, a Dropbox-style storage
backend. The service keeps a folder/file hierarchy in two Postgres tables:

- `NODE(ID, FOLDER, NAME, PARENT_FOLDER)`. `PARENT_FOLDER` is NULL only for the root.
- `FILE_METADATA(FILE_TYPE, FILE_SIZE, HASH_IDS, NODE_ID)`. `NODE_ID` is a foreign key into NODE.

The project also models two helpers from `metadata/util/util.go`:

- the file-extension check;
- the builder of the Postgres array literal that holds a file's chunk hashes.

It also models the two input validators of the auth service: gender and
e-mail.

Modules, one per source file or concern:

- `MetadataDb` (`metadata_db.dfy`): the store as a class `Store`. It holds
  NODE as a `map<int, Node>` and FILE_METADATA as a `seq<FileMeta>`. The
  identity counter is `nextId` and the package-level `ROOT_FOLDER` is
  `rootFolder`. Every SQL statement is one atomic step that can fail. Each
  operation takes the set of failing statements (`faults`), so its contract
  covers every outcome, including the rows a failure leaves behind. The
  operations are the root setup of `setupDB`, `SaveMetadata` (phase 1 lookup
  and phase 2 folder chain, then the file node and its row), `FetchMetadata`,
  `DeleteMetadata` (breadth-first collection, then the delete loop) and the
  orphan-sweep statement of `CleanOrphanNodes`.
- `MetadataTree` (`metadata_tree.dfy`): the tables as values, and the facts the
  operations rely on:
  - the chain of folders a save creates;
  - the subtree a walk collects;
  - the rows a delete leaves;
  - the row a join finds;
  - the nodes one sweep keeps.
- `MetadataUtil` (`metadata_util.dfy`): `GetFileExtension` (Go `filepath.Ext`)
  and `FormatHashedChunks`, with its loop and `break`.
- `PgArray` (`pg_array.dfy`): how Postgres reads that literal back into a
  one-dimensional `text[]`. It skips blanks around elements, accepts quoted and
  unquoted elements with backslash escapes, and reads an unquoted NULL as the
  NULL element. The literal reads back as the hash list exactly when no hash
  holds '"' or '\'; otherwise the missing escaping makes it unreadable or
  changes the list.
- `GoStrings`, `GoStrconv`: `strings.Split`, `strings.ToLower` and
  `strconv.ParseInt(s, 10, 64)`, each with its inverse or reference reading.
- `AuthUtil` (`auth_util.dfy`): `IsValidGender`, and `IsValidEmail` as a
  finite automaton proved equal to a reading of the pattern
  `^[\w-\.]+@([\w-]+\.)+[\w-]{2,4}$`.
- `MetadataScenarios` (`metadata_scenarios.dfy`): calls in sequence on one store.
  These cover a repeated folder save, save then fetch, the worked tree "a/b"
  with "doc.txt", and what the global name lookup does.

Behaviour of the code that differs from what a filesystem would do, and that
the model reproduces:

- Path lookup is `SELECT ID FROM NODE WHERE NAME = $1`, over the whole table.
  - It is not scoped to the current folder's children.
  - It is not restricted to folders.
  - It picks any matching row.

  So saving the folder "b" at the root returns a "b" that lives elsewhere
  (`SaveFolderFindsNameElsewhere`). A segment that names a file gets folders
  created under it, with no conflict error (`SaveFolderUnderFile`).
- The extension check runs first, before any statement, not after the folder
  chain is created.
- The breadth-first walk keeps no visited set. It terminates because identity
  ids grow and every parent was inserted before its children
  (`ParentsPrecede`). Under that ordering it visits each node once (`WalkStep`).
- Nothing is transactional. A failed metadata insert leaves the file node
  without a row. A failed delete leaves a partly deleted subtree.
- Orphans (nodes whose parent is gone) arise in three ways:
  - a delete that stops part-way (`DeleteCollected`);
  - a save after the root itself was deleted, because `ROOT_FOLDER` keeps the
    old id (`DeleteRootThenSave`);
  - the sweep itself, whose victims' children become orphans
    (`SweepLeavesNewOrphans`).
- Deleting an id that is not in NODE succeeds.
- An empty hash list is accepted and stored as `{}`.
- The sweep statement is all or nothing. If one orphan still has a
  FILE_METADATA row, the foreign key refuses the whole statement.
- `metadata/types/type.go` lacks `FileSize` and the timestamp fields that
  `db.go` reads and writes. The model uses the record `db.go` evidently
  intends: name, path, isFolder, size and hashes.

## Model

| member | source | states |
|---|---|---|
| `MetadataDb.Store.SetupRoot` | metadata/db/db.go:87-94 | any node named "root" becomes ROOT_FOLDER; otherwise, while ROOT_FOLDER is -1, a root folder with NULL parent is inserted under the next id; a failed insert is "error inserting root node" and changes nothing |
| `MetadataDb.Store.Restart` | metadata/db/db.go:22 | a new process starts with ROOT_FOLDER = -1 over unchanged tables |
| `MetadataDb.Store.QueryByName` | metadata/db/db.go:123-133 | the lookup yields some node with exactly that name anywhere in NODE, and none exactly when no node has the name or the statement fails |
| `MetadataDb.Store.InsertNodeRow` | metadata/db/db.go:142-147 | an insert adds one row under the next identity value and returns it; a failed insert changes nothing |
| `MetadataDb.Store.InsertMetadataRow` | metadata/db/db.go:175-187 | the FILE_METADATA insert succeeds exactly when the statement runs, NODE_ID names a node (foreign key) and the hash literal parses; it appends one row holding the parsed array; it is only called for the file node just inserted, so rows name file nodes only |
| `MetadataDb.Store.QueryChildren` | metadata/db/db.go:228-250 | the children query returns every node whose PARENT_FOLDER is the id, each once, in any order |
| `MetadataDb.Store.DeleteRowsOf` | metadata/db/db.go:259-269 | deleting by NODE_ID removes exactly that node's rows and keeps all others in order |
| `MetadataDb.Store.DeleteNodeRow` | metadata/db/db.go:271-281 | deleting a node succeeds exactly when no FILE_METADATA row still names it; deleting an absent id is no error |
| `MetadataDb.Store.ResolvePath` | metadata/db/db.go:113-135 | phase 1 skips empty segments, matches segments by name from the left, stops at the first miss, and ends on ROOT_FOLDER or on a node named after the last matched segment |
| `MetadataDb.Store.InsertChainFolder` | metadata/db/db.go:142-153 | one phase-2 insert adds the next segment as a folder under the previous folder, or fails and changes nothing |
| `MetadataDb.Store.CreateFolders` | metadata/db/db.go:136-154 | phase 2 creates the remaining non-empty segments in order as a chain of folders with consecutive ids; a failed insert keeps the folders already created and reports "error saving node" |
| `MetadataDb.Store.SavePath` | metadata/db/db.go:113-154 | phases 1 and 2 together: matched segments exist by name, the first unmatched one did not, the rest are created as a chain under the last match; a path whose names all exist creates nothing; afterwards every segment name exists |
| `MetadataDb.Store.SaveFile` | metadata/db/db.go:158-188 | the file node is inserted under the folder, then its row with extension, size and the parsed hashes; if the row insert fails the node stays without metadata |
| `MetadataDb.Store.SaveMetadata` | metadata/db/db.go:107-189 | a file name without extension fails before any write; a folder save of "" or "/" returns ROOT_FOLDER and writes nothing; the new nodes are exactly the folder chain plus, for a file, one file node with one row; a folder save returns a node named after the last segment; with no failure a well-formed save succeeds |
| `MetadataDb.FolderSaveTarget` | metadata/db/db.go:155-157 | the folder a folder save returns is named after the path's last segment, whether created or found |
| `MetadataDb.Store.FetchMetadata` | metadata/db/db.go:191-211 | succeeds exactly when the id reads as a bigint and has a FILE_METADATA row; it returns the node's name, the row's size and the row's hashes in stored order, a NULL element read as the empty text; a folder or absent id gives "error fetching data from db" |
| `MetadataDb.Store.CollectSubtree` | metadata/db/db.go:221-256 | the walk collects the start id and exactly its transitive descendants, each once, every id after its parent, in breadth-first order: children follow their parents' order and the depth below the start never decreases |
| `MetadataDb.Store.DeleteOne` | metadata/db/db.go:259-281 | one pass of the delete loop: the id's FILE_METADATA rows go, then its node; it succeeds exactly when neither statement fails; a failed row delete changes nothing and a failed node delete leaves the rows gone and the node in place |
| `MetadataDb.Store.DeleteCollected` | metadata/db/db.go:258-285 | for each collected id in order, its rows go and then its node; the first failure stops the loop, and exactly the ids before it are gone |
| `MetadataDb.Store.DeleteMetadata` | metadata/db/db.go:215-286 | a non-integer id is rejected with nothing deleted; otherwise the subtree is collected breadth-first, children listed in their parents' order, and the nodes and rows of the ids processed are removed, the rest untouched; with no failure it succeeds, also for an absent id |
| `MetadataDb.Store.SweepOrphans` | metadata/db/db.go:300-304 | the sweep removes exactly the nodes whose non-NULL parent was absent before it, unless one of them has a metadata row, in which case nothing changes |
| `MetadataTree.WalkStep` | metadata/db/db.go:243-250 | appending the children of the next queued id keeps the walk invariant, and none of them was collected before |
| `MetadataTree.WalkAdvance` | metadata/db/db.go:225-250 | each pass of the BFS loop makes the set of uncollected nodes smaller or the queue shorter, so the loop ends without a visited set |
| `MetadataTree.WalkDone` | metadata/db/db.go:225-256 | when the queue is empty the walk holds exactly the subtree, parents before children, children in their parents' order, and depth never decreasing |
| `MetadataTree.DepthOrdered` | metadata/db/db.go:225-250 | because the queue is first in, first out, a later collected id is never shallower than an earlier one |
| `MetadataTree.DepthStep` | metadata/db/db.go:243-250 | a collected id after the start is one level below the id whose children query returned it |
| `MetadataTree.DepthFirstIsNotLevelOrder` | metadata/db/db.go:225-250 | with 2 and 3 under the root 1 and 4 under 2, the depth-first listing 1, 2, 4, 3 is not an order the walk can produce |
| `MetadataTree.DescendsAbove` | metadata/db/db.go:59-62 | under the identity ordering a descendant's id is larger than its ancestor's, so the parent relation has no cycle |
| `MetadataTree.ClosedHoldsDescendant` | metadata/db/db.go:225-256 | a set closed under taking children that contains the start contains every descendant |
| `MetadataTree.SubtreeRemovalLeavesNoOrphan` | metadata/db/db.go:258-300 | removing a whole subtree leaves no node whose parent was removed |
| `MetadataTree.ChainShape` | metadata/db/db.go:136-154 | the phase-2 chain has one folder per remaining segment, in order; the first hangs under the last match (or ROOT_FOLDER) and each later one under the one before |
| `MetadataTree.SavedNamesExist` | metadata/db/db.go:117-154 | after a save, every segment name of the path exists, so a repeated save matches the whole path |
| `MetadataTree.NameExistsGrows` | metadata/db/db.go:142-147 | inserting rows under fresh ids keeps every existing name |
| `MetadataTree.ChildrenBetween` | metadata/db/db.go:228-235 | the children of an id among a range of ids, each once: a witness that the children query has an answer |
| `MetadataTree.RowsWithoutKeeps` | metadata/db/db.go:259-264 | after the metadata deletes, a row remains exactly when it was there and its node was not deleted |
| `MetadataTree.RowsWithoutDistinct` | metadata/db/db.go:259-264 | deleting rows keeps every node down to at most one metadata row |
| `MetadataTree.RowsWithoutUnion` | metadata/db/db.go:258-283 | deleting the rows of one id after those of earlier ids equals deleting the rows of all of them |
| `MetadataTree.RowsWithoutNothing` | metadata/db/db.go:258-264 | deleting for no id keeps every row |
| `MetadataTree.FileRow` | metadata/db/db.go:194-201 | the join finds a row with that NODE_ID, and none exactly when no row names the id |
| `MetadataTree.FileRowAppend` | metadata/db/db.go:175-201 | the row a file save appends is the row the join then finds |
| `MetadataTree.SweptKeeps` | metadata/db/db.go:300 | a node survives the sweep exactly when its parent is NULL or existed before the statement, and it survives unchanged |
| `MetadataTree.SweepLeavesNewOrphans` | metadata/db/db.go:300 | a child of an orphan survives the sweep that removes its parent and is an orphan afterwards |
| `MetadataTree.SweptParentsPrecede` | metadata/db/db.go:300 | the sweep keeps the parent ordering |
| `MetadataUtil.GetFileExtension` | metadata/util/util.go:11-17 | fails exactly when every '.' of the name is followed by a '/'; otherwise the extension is a suffix of the name that starts with its last '.' and holds no other '.' or '/' |
| `MetadataUtil.ExtFrom` | metadata/util/util.go:12 | the backwards scan of `filepath.Ext` stops at a '/' with no extension, or at a '.' with the suffix from there |
| `MetadataUtil.LastExtensionOnly` | metadata/util/util.go:12 | "a.tar.gz" has extension ".gz" |
| `MetadataUtil.TrailingDot` | metadata/util/util.go:12-16 | "file." yields "." and is accepted |
| `MetadataUtil.NoExtension` | metadata/util/util.go:12-15 | "README" and "dir.d/file" are rejected |
| `MetadataUtil.FormatHashedChunks` | metadata/util/util.go:19-32 | the loop builds '{', each hash in double quotes in input order with single commas between and none after the last, then '}' |
| `MetadataUtil.QuotedListSnoc` | metadata/util/util.go:22-28 | one more hash adds a comma (unless it is the first) and its quoted form |
| `MetadataUtil.ArrayLiteralLength` | metadata/util/util.go:21-29 | the literal's length is 2 + the sum of the hash lengths + 2 per hash + max(n-1, 0) |
| `MetadataUtil.EmptyLiteral` | metadata/util/util.go:21-29 | an empty list gives "{}" |
| `PgArray.ParseArray` | metadata/db/db.go:175-187 | the `text[]` input Postgres applies to the literal; a literal it accepts holds each element's characters plus one ',' or '}' per element, after the opening '{' |
| `PgArray.RoundTrip` | metadata/util/util.go:21-29 | Postgres reads the literal back as the original list of (non-NULL) texts, in order, whenever no hash holds '"' or '\' |
| `PgArray.NotPlainBreaks` | metadata/util/util.go:23 | if some hash holds '"' or '\', the literal is refused or reads back as a different list |
| `PgArray.ReadsBackIff` | metadata/util/util.go:21-29 | the literal reads back as the hash list exactly when no hash holds '"' or '\' |
| `PgArray.QuoteInHash` | metadata/util/util.go:23 | the single hash `a"b` makes the literal unreadable |
| `PgArray.BackslashInHash` | metadata/util/util.go:23 | the single hash `a\b` reads back as `ab`: the backslash is taken as an escape |
| `PgArray.QuoteSplitsHash` | metadata/util/util.go:23 | for plain x and y, the single hash `x","y` reads back as the two elements x and y |
| `PgArray.SpacedQuoteSplitsHash` | metadata/util/util.go:23 | likewise `x", "y`: the blank before the injected element is skipped |
| `PgArray.NullInjected` | metadata/util/util.go:23 | the single hash `x",null,"y` reads back as x, the NULL element and y |
| `GoStrings.SplitJoin` | metadata/db/db.go:113 | joining the pieces of a split gives the path back |
| `GoStrings.JoinSplit` | metadata/db/db.go:113 | splitting the join of separator-free pieces gives the pieces back |
| `GoStrings.SplitPiecesNoSep` | metadata/db/db.go:113 | no piece of a split holds the separator |
| `GoStrings.NonEmptyMembers` | metadata/db/db.go:119-121 | the segments both loops act on are exactly the non-empty pieces |
| `GoStrings.ScanStep` | metadata/db/db.go:117-121 | one step of either loop: an empty piece is skipped and a non-empty one is the next segment |
| `GoStrings.RootPaths` | metadata/db/db.go:113-121 | "" and "/" have no segments |
| `GoStrconv.ParseInt64` | metadata/db/db.go:216 | a parsed id lies in the int64 range and comes from a non-empty text |
| `GoStrconv.ParseDecimal` | metadata/db/db.go:216 | every id the store hands out reads back as itself from its decimal form |
| `GoStrconv.ParseNegativeDecimal` | metadata/db/db.go:216 | a minus sign negates the value, down to the int64 minimum |
| `GoStrconv.ParseRejects` | metadata/db/db.go:216-220 | the empty text, a bare sign, a stray or surrounding character and one past the int64 maximum are rejected |
| `AuthUtil.IsValidGender` | authcomp/util/util.go:16-19 | true exactly when the input spells "male", "female" or "other" in any mix of cases |
| `AuthUtil.LowerEqualsWord` | authcomp/util/util.go:17-18 | the lower-cased input equals a lower-case word exactly when it spells that word ignoring case |
| `AuthUtil.GenderExamples` | authcomp/util/util.go:16-19 | "MALE" and "Other" pass; "" and "man" fail |
| `AuthUtil.IsValidEmail` | authcomp/util/util.go:13 | true exactly when the text is a local part over `\w`, '-' and '.', then '@', then at least two non-empty dot-separated labels over `\w` and '-', the last two to four long |
| `AuthUtil.EmailCorrect` | authcomp/util/util.go:21-24 | the automaton accepts exactly the texts of that shape |
| `AuthUtil.DomainAccepted` | authcomp/util/util.go:13 | after the '@', the automaton accepts exactly a well-formed domain |
| `AuthUtil.ValidEmailShape` | authcomp/util/util.go:13 | an accepted address has exactly one '@', a non-empty local part, and no character outside `\w`, '-', '.' and that '@' |
| `AuthUtil.EmailExamples` | authcomp/util/util.go:13 | "a.b@c.io" passes; "a@b", "a@b.c" and " a@b.io" fail |
| `AuthUtil.EmptyFirstLabel` | authcomp/util/util.go:13 | "a@.com" fails |
| `AuthUtil.EmptyMiddleLabel` | authcomp/util/util.go:13 | "a@b..com" fails |
| `AuthUtil.EmptyLastLabel` | authcomp/util/util.go:13 | "a@b.com." fails |
| `AuthUtil.LongLastLabel` | authcomp/util/util.go:13 | "a@b.comxx" fails |
| `AuthUtil.LocalDotsAccepted` | authcomp/util/util.go:13 | leading, trailing and doubled dots in the local part are accepted |
| `MetadataScenarios.SaveFolderTwice` | metadata/db/db.go:117-157 | saving a folder path twice succeeds both times; the second save creates no node and returns a node named after the last segment |
| `MetadataScenarios.SaveThenFetch` | metadata/db/db.go:159-211 | a saved file fetched by its decimal id returns the same name, size and hashes in order |
| `MetadataScenarios.FreshStore` | metadata/db/db.go:87-94 | setup on empty tables inserts the root as id 1 |
| `MetadataScenarios.SaveFolderAB` | metadata/db/db.go:136-157 | saving "a/b" over the root alone creates "a" under the root and "b" under "a", and returns "b" |
| `MetadataScenarios.SaveFileInAB` | metadata/db/db.go:159-188 | saving a file in "a/b" creates no folder, one file node under "b" and one metadata row |
| `MetadataScenarios.SaveFolderABAgain` | metadata/db/db.go:117-135 | saving "a/b" again creates nothing and returns "b" |
| `MetadataScenarios.DeleteFolderA` | metadata/db/db.go:215-286 | deleting "a" removes "a", "b", the file and its row, leaving the root alone |
| `MetadataScenarios.BuildTreeAndDelete` | metadata/db/db.go:87-286 | setup, folder save, file save, repeated folder save and delete in sequence give 3 nodes and 1 row, then 0 new nodes, then the root alone |
| `MetadataScenarios.SaveFolderFindsNameElsewhere` | metadata/db/db.go:123-134 | a folder save of "b" at the root returns the "b" under "a" and creates nothing |
| `MetadataScenarios.DeleteRoot` | metadata/db/db.go:215-286 | deleting the root of a fresh store succeeds and empties NODE, while the cached `ROOT_FOLDER` stays 1 |
| `MetadataScenarios.SaveTopFolder` | metadata/db/db.go:117-157 | with NODE empty and `ROOT_FOLDER` 1, saving the folder "x" creates node 2 with parent 1 |
| `MetadataScenarios.DeleteRootThenSave` | metadata/db/db.go:87-157 | setup, deleting the root and saving a top-level folder leave one node whose parent id is gone: an orphan made without any failure |
| `MetadataScenarios.SaveFolderUnderFile` | metadata/db/db.go:123-154 | a path segment that names a file is used as a folder, and a new folder is created under the file node |

## Left out

- Connecting to the database, `godotenv`, the pgx pool and the DDL text: environment and I/O. The two tables are in-memory state.
- Timestamps (`CREATED_AT`, `LAST_ACCESS`, `LAST_MODIFIED`, `current_timestamp`): opaque values that no modelled behaviour depends on.
- The ticker, the goroutine and the `ctx.Done()` cancellation of `CleanOrphanNodes`: concurrency. Only its one statement is modelled (`SweepOrphans`).
- Concurrent requests: each operation runs alone against the store. Interleaving statements of two requests is not modelled.
- Store failures are a set of failing statements given to each operation. Which statement fails in reality depends on the database.
- The choice among several nodes with the same name, and the order of children rows, are nondeterministic choices (`:|`). Nothing says which row Postgres returns.
- `MetadataDb.Store.FetchMetadata`: the id text is read by Go's `ParseInt` rules. Postgres's own bigint input also accepts surrounding blanks and, from version 16, `0x`/`0o`/`0b` prefixes and `_` between digits (so "0x2" fetches node 2 there); the model rejects all of those.
- `MetadataDb.Store.InsertNodeRow`: a failed insert leaves `nextId` unchanged. In Postgres a failed INSERT still uses up the identity value it drew, so later ids can skip values. No modelled property depends on ids being consecutive after a failure.
- `PgArray.ParseArray`: multi-dimensional literals and dimension decorations (`[1:2]={...}`) are rejected. Postgres accepts some of those, but `FormatHashedChunks` never writes one: a non-empty literal it builds starts with a quoted element, after which Postgres refuses a nested '{' too.
- `PgArray.ParseArray`: Postgres also refuses a NUL character or invalid UTF-8 in text input; strings here are sequences of characters, so that refusal is not modelled.
- `MetadataDb.Store.SaveMetadata`: the same refusal applies to path segments and file names. A name holding a NUL character makes the lookup or insert fail in Postgres, while the model lets it through, and its promise of success when no statement fails does not cover that case.
- `MetadataDb.Store.DeleteMetadata`: termination assumes the store invariant that every parent id is smaller than its child's. That holds for rows the service writes. It does not hold for rows written by hand in a cycle, where the source would loop forever.
- The HTTP handlers in `metadata/main.go`, including the call to `SaveMetadata` with the wrong signature and `FetchMetadata` being given the file name: request plumbing outside the core.
- `HashPassword` and `IsValidPassword`: foreign calls to bcrypt.
- The chunk store (`blobserver/`), JWT handling, the auth service's SQL and the UI: outside the metadata core.
- Strings are sequences of characters, not UTF-8 bytes. `strings.ToLower` is modelled on ASCII letters. No non-ASCII character lower-cases to a letter of "male", "female" or "other", so `IsValidGender` is unaffected.
