/**
  The NODE and FILE_METADATA tables of the metadata service as values, and the
  facts about them that the store's operations rely on: the chain of folders a
  save creates, the subtree a delete collects, the rows a delete leaves, the
  row a fetch finds and the nodes one orphan sweep keeps.
 */
module MetadataTree {
  import opened Outcomes
  import opened PgArray

  /** A NODE row without its timestamps; `parent` is PARENT_FOLDER (NULL = None). */
  datatype Node = Node(folder: bool, name: string, parent: Option<int>)

  /** A FILE_METADATA row without its own identity column; `nodeId` is NODE_ID. */
  datatype FileMeta = FileMeta(fileType: string, fileSize: int, hashIds: seq<Element>, nodeId: int)

  predicate NoDup(s: seq<int>) {
    forall i, j :: 0 <= i < j < |s| ==> s[i] != s[j]
  }

  /** Every PARENT_FOLDER names a positive id smaller than the child's own id.
      Identity ids only grow and a parent always exists when its child is
      inserted, so the parent relation has no cycles. */
  ghost predicate ParentsPrecede(nodes: map<int, Node>) {
    forall id | id in nodes && nodes[id].parent.Some? :: 1 <= nodes[id].parent.value < id
  }

  /** `SELECT ID FROM NODE WHERE NAME = $1` finds a row: over the whole table,
      folders and files alike. */
  predicate NameExists(nodes: map<int, Node>, name: string) {
    exists id | id in nodes :: nodes[id].name == name
  }

  /** The ids `SELECT ID FROM NODE WHERE PARENT_FOLDER = $1` returns. */
  function ChildSet(nodes: map<int, Node>, p: int): set<int> {
    set c | c in nodes && nodes[c].parent == Some(p)
  }

  /** The children of `p` among the ids `lo..hi-1`, in ascending order: one
      order the children query can return its rows in. */
  function ChildrenBetween(nodes: map<int, Node>, p: int, lo: int, hi: int): (r: seq<int>)
    ensures forall x :: x in r <==> lo <= x < hi && x in ChildSet(nodes, p)
    ensures forall i, j :: 0 <= i < j < |r| ==> r[i] < r[j]
    decreases hi - lo
  {
    if lo >= hi then []
    else
      var rest := ChildrenBetween(nodes, p, lo + 1, hi);
      assert forall k :: 0 <= k < |rest| ==> rest[k] in rest;
      (if lo in ChildSet(nodes, p) then [lo] else []) + rest
  }

  /** `x` reaches `a` by following PARENT_FOLDER one or more times. */
  ghost predicate Descends(nodes: map<int, Node>, x: int, a: int)
    requires ParentsPrecede(nodes)
    decreases x
  {
    && x in nodes
    && nodes[x].parent.Some?
    && (nodes[x].parent.value == a || Descends(nodes, nodes[x].parent.value, a))
  }

  /** `x` is `a` itself or one of its transitive children. */
  ghost predicate InSubtree(nodes: map<int, Node>, x: int, a: int)
    requires ParentsPrecede(nodes)
  {
    x == a || Descends(nodes, x, a)
  }

  /** A descendant has a larger id than its ancestor. */
  lemma {:induction false} DescendsAbove(nodes: map<int, Node>, x: int, a: int)
    requires ParentsPrecede(nodes)
    requires Descends(nodes, x, a)
    ensures a < x
    decreases x
  {
    var p := nodes[x].parent.value;
    if p != a {
      DescendsAbove(nodes, p, a);
    }
  }

  /** A set that holds `a` and the children of each of its members holds the
      whole subtree of `a`. */
  lemma {:induction false} ClosedHoldsDescendant(nodes: map<int, Node>, x: int, a: int, s: set<int>)
    requires ParentsPrecede(nodes)
    requires a in s
    requires forall p :: p in s ==> ChildSet(nodes, p) <= s
    requires Descends(nodes, x, a)
    ensures x in s
    decreases x
  {
    var p := nodes[x].parent.value;
    if p != a {
      ClosedHoldsDescendant(nodes, p, a, s);
    }
    assert x in ChildSet(nodes, p);
  }

  /** The state of DeleteMetadata's breadth-first walk from `start`: `nodeIDs`
      holds the ids collected so far, each once, the first `done` of them have
      had their children appended, and `pos[k]` is where the parent of the
      k-th id sits in `nodeIDs`. */
  ghost predicate Walk(nodes: map<int, Node>, start: int, nodeIDs: seq<int>, pos: seq<int>, done: int)
    requires ParentsPrecede(nodes)
  {
    && 1 <= |nodeIDs| && nodeIDs[0] == start && NoDup(nodeIDs)
    && 0 <= done <= |nodeIDs| && |pos| == |nodeIDs|
    && Linked(nodes, nodeIDs, pos, done)
    && WithinSubtree(nodes, start, nodeIDs)
    && Expanded(nodes, nodeIDs, done)
  }

  /** Every collected id but the first hangs under an expanded id before it,
      and the ids are listed in the order of their parents (the queue is
      first in, first out). */
  ghost predicate Linked(nodes: map<int, Node>, nodeIDs: seq<int>, pos: seq<int>, done: int)
    requires |pos| == |nodeIDs|
  {
    && (forall k :: 0 < k < |nodeIDs| ==>
          0 <= pos[k] < done && pos[k] < k && nodeIDs[k] in nodes && nodes[nodeIDs[k]].parent == Some(nodeIDs[pos[k]]))
    && (forall j, k :: 0 < j < k < |nodeIDs| ==> pos[j] <= pos[k])
  }

  /** The id at position `j` of `ids` hangs under the id at position `p`. */
  ghost predicate ParentAt(nodes: map<int, Node>, ids: seq<int>, j: int, p: int) {
    0 <= j < |ids| && 0 <= p < |ids| && ids[j] in nodes && nodes[ids[j]].parent == Some(ids[p])
  }

  /** Breadth-first order: of two ids after the first, the later one's parent
      is not listed before the earlier one's. */
  ghost predicate LevelOrder(nodes: map<int, Node>, ids: seq<int>) {
    forall j, k, p, q :: 0 < j < k && ParentAt(nodes, ids, j, p) && ParentAt(nodes, ids, k, q) ==> p <= q
  }

  /** How many PARENT_FOLDER steps lead from `x` up to `a`. */
  ghost function Depth(nodes: map<int, Node>, x: int, a: int): nat
    requires ParentsPrecede(nodes) && InSubtree(nodes, x, a)
    decreases x
  {
    if x == a then 0 else 1 + Depth(nodes, nodes[x].parent.value, a)
  }

  /** Every collected id is in the subtree of `start`. */
  ghost predicate WithinSubtree(nodes: map<int, Node>, start: int, nodeIDs: seq<int>)
    requires ParentsPrecede(nodes)
  {
    forall k :: 0 <= k < |nodeIDs| ==> start <= nodeIDs[k] && InSubtree(nodes, nodeIDs[k], start)
  }

  /** The children of each expanded id are collected. */
  ghost predicate Expanded(nodes: map<int, Node>, nodeIDs: seq<int>, done: int)
    requires done <= |nodeIDs|
  {
    forall k :: 0 <= k < done ==> ChildSet(nodes, nodeIDs[k]) <= Elems(nodeIDs)
  }

  /** Appending the children of the next id keeps the walk's invariant; none
      of those children was collected before, so no id is visited twice even
      though the walk keeps no visited set. */
  lemma WalkStep(nodes: map<int, Node>, start: int, nodeIDs: seq<int>, pos: seq<int>, done: int, kids: seq<int>)
    requires ParentsPrecede(nodes)
    requires Walk(nodes, start, nodeIDs, pos, done) && done < |nodeIDs|
    requires NoDup(kids) && forall x :: x in kids <==> x in ChildSet(nodes, nodeIDs[done])
    ensures forall c :: c in kids ==> c in nodes && c !in nodeIDs
    ensures Walk(nodes, start, nodeIDs + kids, pos + seq(|kids|, _ => done), done + 1)
  {
    forall c | c in kids ensures c in nodes && c !in nodeIDs && start < c {
      ChildIsNew(nodes, start, nodeIDs, pos, done, c);
    }
    forall j | 0 <= j < |kids|
      ensures kids[j] in nodes && nodes[kids[j]].parent == Some(nodeIDs[done]) && start < kids[j]
    {
      assert kids[j] in kids;
    }
    AppendNoDup(nodeIDs, kids);
    LinkedStep(nodes, nodeIDs, pos, done, kids);
    WithinSubtreeStep(nodes, start, nodeIDs, done, kids);
    ExpandedStep(nodes, nodeIDs, done, kids);
  }

  /** Two duplicate-free sequences with no common element append to one. */
  lemma AppendNoDup(a: seq<int>, b: seq<int>)
    requires NoDup(a) && NoDup(b)
    requires forall c :: c in b ==> c !in a
    ensures NoDup(a + b)
  {
    var all := a + b;
    forall i, j | 0 <= i < j < |all| ensures all[i] != all[j] {
      if i < |a| <= j {
        assert all[j] in b;
      }
    }
  }

  /** The children appended hang under the id at position `done`. */
  lemma LinkedStep(nodes: map<int, Node>, nodeIDs: seq<int>, pos: seq<int>, done: int, kids: seq<int>)
    requires |pos| == |nodeIDs| && 0 <= done < |nodeIDs|
    requires Linked(nodes, nodeIDs, pos, done)
    requires forall j :: 0 <= j < |kids| ==> kids[j] in nodes && nodes[kids[j]].parent == Some(nodeIDs[done])
    ensures Linked(nodes, nodeIDs + kids, pos + seq(|kids|, _ => done), done + 1)
  {
    var all := nodeIDs + kids;
    var pos' := pos + seq(|kids|, _ => done);
    forall k | 0 < k < |all|
      ensures 0 <= pos'[k] < done + 1 && pos'[k] < k && all[k] in nodes && nodes[all[k]].parent == Some(all[pos'[k]])
    {
      if k >= |nodeIDs| {
        assert all[k] == kids[k - |nodeIDs|];
        assert pos'[k] == done && all[done] == nodeIDs[done];
      } else {
        assert all[k] == nodeIDs[k] && pos'[k] == pos[k] && all[pos[k]] == nodeIDs[pos[k]];
        assert nodeIDs[k] in nodes && nodes[nodeIDs[k]].parent == Some(nodeIDs[pos[k]]);
      }
    }
  }

  /** Children of an id in the subtree are in it too. */
  lemma WithinSubtreeStep(nodes: map<int, Node>, start: int, nodeIDs: seq<int>, done: int, kids: seq<int>)
    requires ParentsPrecede(nodes) && 0 <= done < |nodeIDs|
    requires WithinSubtree(nodes, start, nodeIDs)
    requires forall j :: 0 <= j < |kids| ==>
      kids[j] in nodes && nodes[kids[j]].parent == Some(nodeIDs[done]) && start < kids[j]
    ensures WithinSubtree(nodes, start, nodeIDs + kids)
  {
    var all := nodeIDs + kids;
    forall k | 0 <= k < |all| ensures start <= all[k] && InSubtree(nodes, all[k], start) {
      if k >= |nodeIDs| {
        assert all[k] == kids[k - |nodeIDs|];
        assert InSubtree(nodes, nodeIDs[done], start);
      } else {
        assert all[k] == nodeIDs[k];
      }
    }
  }

  /** Once appended, the children of the id at `done` are collected. */
  lemma ExpandedStep(nodes: map<int, Node>, nodeIDs: seq<int>, done: int, kids: seq<int>)
    requires 0 <= done < |nodeIDs|
    requires Expanded(nodes, nodeIDs, done)
    requires forall x :: x in ChildSet(nodes, nodeIDs[done]) ==> x in kids
    ensures Expanded(nodes, nodeIDs + kids, done + 1)
  {
    var all := nodeIDs + kids;
    assert Elems(nodeIDs) <= Elems(all);
    forall k | 0 <= k < done + 1 ensures ChildSet(nodes, all[k]) <= Elems(all) {
      assert all[k] == nodeIDs[k];
      if k == done {
        forall x | x in ChildSet(nodes, nodeIDs[done]) ensures x in Elems(all) {
          assert x in kids;
        }
      }
    }
  }

  /** The walk with its queue: the collected ids from position `done` on. */
  ghost predicate Walking(nodes: map<int, Node>, start: int, nodeIDs: seq<int>, pos: seq<int>, done: int, queue: seq<int>)
    requires ParentsPrecede(nodes)
  {
    Walk(nodes, start, nodeIDs, pos, done) && queue == nodeIDs[done..]
  }

  /** One step of the walk as the loop takes it: the queue (the positions
      from `done` on) loses its head and gains the children, and either the
      set of ids not collected yet shrinks or it stays and the queue shortens. */
  lemma WalkAdvance(nodes: map<int, Node>, start: int, nodeIDs: seq<int>, pos: seq<int>, done: int,
                    queue: seq<int>, kids: seq<int>)
    requires ParentsPrecede(nodes)
    requires Walk(nodes, start, nodeIDs, pos, done) && done < |nodeIDs| && queue == nodeIDs[done..]
    requires NoDup(kids) && forall x :: x in kids <==> x in ChildSet(nodes, nodeIDs[done])
    ensures Walking(nodes, start, nodeIDs + kids, pos + seq(|kids|, _ => done), done + 1, queue[1..] + kids)
    ensures |kids| > 0 ==> nodes.Keys - Elems(nodeIDs + kids) < nodes.Keys - Elems(nodeIDs)
    ensures |kids| == 0 ==> nodes.Keys - Elems(nodeIDs + kids) == nodes.Keys - Elems(nodeIDs)
  {
    WalkStep(nodes, start, nodeIDs, pos, done, kids);
    assert queue[1..] + kids == (nodeIDs + kids)[done + 1..];
    assert Elems(nodeIDs) <= Elems(nodeIDs + kids);
    if |kids| > 0 {
      assert kids[0] in kids;
      assert kids[0] in nodes.Keys - Elems(nodeIDs);
      assert kids[0] in Elems(nodeIDs + kids);
    } else {
      assert nodeIDs + kids == nodeIDs;
    }
  }

  /** A child of the id at position `done` is in NODE, above `start`, and not
      collected yet: every collected id but `start` hangs under an id before
      position `done`, and `start` is below every child. */
  lemma ChildIsNew(nodes: map<int, Node>, start: int, nodeIDs: seq<int>, pos: seq<int>, done: int, c: int)
    requires ParentsPrecede(nodes)
    requires Walk(nodes, start, nodeIDs, pos, done) && done < |nodeIDs|
    requires c in ChildSet(nodes, nodeIDs[done])
    ensures c in nodes && c !in nodeIDs && start < c
  {
    var current := nodeIDs[done];
    forall m | 0 <= m < |nodeIDs| ensures nodeIDs[m] != c {
      if m > 0 {
        assert nodeIDs[pos[m]] != current;
      }
    }
  }

  /** When every collected id has been expanded, the walk holds exactly the
      subtree of `start`, each id after its parent. */
  lemma WalkDone(nodes: map<int, Node>, start: int, nodeIDs: seq<int>, pos: seq<int>)
    requires ParentsPrecede(nodes)
    requires Walk(nodes, start, nodeIDs, pos, |nodeIDs|)
    ensures forall x :: x in nodeIDs <==> InSubtree(nodes, x, start)
    ensures forall k :: 0 < k < |nodeIDs| ==>
      nodeIDs[k] in nodes && nodes[nodeIDs[k]].parent.Some? && nodes[nodeIDs[k]].parent.value in nodeIDs[..k]
    ensures LevelOrder(nodes, nodeIDs)
    ensures forall j, k :: 0 <= j < k < |nodeIDs| ==> Depth(nodes, nodeIDs[j], start) <= Depth(nodes, nodeIDs[k], start)
  {
    var s := Elems(nodeIDs);
    forall p | p in s ensures ChildSet(nodes, p) <= s {
      var k :| 0 <= k < |nodeIDs| && nodeIDs[k] == p;
    }
    forall x | InSubtree(nodes, x, start) ensures x in nodeIDs {
      if x != start {
        ClosedHoldsDescendant(nodes, x, start, s);
      }
    }
    forall k | 0 < k < |nodeIDs| ensures nodes[nodeIDs[k]].parent.value in nodeIDs[..k] {
      assert nodeIDs[..k][pos[k]] == nodeIDs[pos[k]];
    }
    forall j, k, p, q | 0 < j < k && ParentAt(nodes, nodeIDs, j, p) && ParentAt(nodes, nodeIDs, k, q)
      ensures p <= q
    {
      assert nodeIDs[p] == nodeIDs[pos[j]] && nodeIDs[q] == nodeIDs[pos[k]];
    }
    forall j, k | 0 <= j < k < |nodeIDs|
      ensures Depth(nodes, nodeIDs[j], start) <= Depth(nodes, nodeIDs[k], start)
    {
      DepthOrdered(nodes, start, nodeIDs, pos, j, k);
    }
  }

  /** In a finished walk the depth below `start` never decreases along the
      collected ids: the walk visits the subtree level by level. */
  lemma {:induction false} DepthOrdered(nodes: map<int, Node>, start: int, nodeIDs: seq<int>, pos: seq<int>,
                                        j: int, k: int)
    requires ParentsPrecede(nodes)
    requires Walk(nodes, start, nodeIDs, pos, |nodeIDs|)
    requires 0 <= j < k < |nodeIDs|
    ensures Depth(nodes, nodeIDs[j], start) <= Depth(nodes, nodeIDs[k], start)
    decreases k
  {
    if j > 0 {
      DepthStep(nodes, start, nodeIDs, pos, j);
      DepthStep(nodes, start, nodeIDs, pos, k);
      if pos[j] < pos[k] {
        DepthOrdered(nodes, start, nodeIDs, pos, pos[j], pos[k]);
      }
    }
  }

  /** A collected id after the first is one level below its parent. */
  lemma DepthStep(nodes: map<int, Node>, start: int, nodeIDs: seq<int>, pos: seq<int>, k: int)
    requires ParentsPrecede(nodes)
    requires Walk(nodes, start, nodeIDs, pos, |nodeIDs|)
    requires 0 < k < |nodeIDs|
    ensures Depth(nodes, nodeIDs[k], start) == 1 + Depth(nodes, nodeIDs[pos[k]], start)
  {
    assert nodeIDs[k] != nodeIDs[0];
  }

  /** A depth-first listing of a small tree (2 and 3 under the root 1, 4
      under 2) is not in breadth-first order. */
  lemma DepthFirstIsNotLevelOrder()
    ensures !LevelOrder(map[1 := Node(true, "root", None), 2 := Node(true, "a", Some(1)),
                            3 := Node(true, "c", Some(1)), 4 := Node(true, "b", Some(2))], [1, 2, 4, 3])
  {
    var nodes := map[1 := Node(true, "root", None), 2 := Node(true, "a", Some(1)),
                     3 := Node(true, "c", Some(1)), 4 := Node(true, "b", Some(2))];
    assert ParentAt(nodes, [1, 2, 4, 3], 2, 1) && ParentAt(nodes, [1, 2, 4, 3], 3, 0);
  }

  /** Removing a whole subtree leaves no node whose parent was removed. */
  lemma SubtreeRemovalLeavesNoOrphan(nodes: map<int, Node>, a: int, s: set<int>, y: int)
    requires ParentsPrecede(nodes)
    requires forall x :: x in s <==> InSubtree(nodes, x, a)
    requires y in nodes && y !in s
    requires nodes[y].parent.Some? && nodes[y].parent.value in nodes
    ensures nodes[y].parent.value !in s
  {
    var p := nodes[y].parent.value;
    if p in s {
      assert Descends(nodes, y, a);
    }
  }

  /** Where the k-th folder of a chain hangs: the chain's parent for the first
      one, the folder created just before it for the others. */
  function ChainEnd(parent: int, k: nat, first: int): int {
    if k == 0 then parent else first + k - 1
  }

  /** The folders phase 2 of SaveMetadata inserts for `names`, numbered from
      `first`, the first under `parent` and each later one under the previous. */
  function Chain(parent: int, names: seq<string>, first: int): map<int, Node>
    decreases |names|
  {
    if names == [] then map[]
    else
      var n := |names| - 1;
      Chain(parent, names[..n], first)[first + n := Node(true, names[n], Some(ChainEnd(parent, n, first)))]
  }

  /** The chain has one fresh id per name, consecutive from `first`; each is a
      folder named after its segment, in order. */
  lemma {:induction false} ChainShape(parent: int, names: seq<string>, first: int)
    ensures forall k :: k in Chain(parent, names, first) <==> first <= k < first + |names|
    ensures forall k :: 0 <= k < |names| ==>
      Chain(parent, names, first)[first + k] == Node(true, names[k], Some(ChainEnd(parent, k, first)))
    decreases |names|
  {
    if names != [] {
      var n := |names| - 1;
      ChainShape(parent, names[..n], first);
    }
  }

  /** One more folder at the end of the chain, as the insert loop adds it. */
  lemma ChainStep(base: map<int, Node>, before: map<int, Node>, after: map<int, Node>,
                  parent: int, names: seq<string>, n: string, first: int)
    requires before == base + Chain(parent, names, first)
    requires after == before[first + |names| := Node(true, n, Some(ChainEnd(parent, |names|, first)))]
    ensures after == base + Chain(parent, names + [n], first)
  {
    assert (names + [n])[..|names|] == names;
  }

  /** A slice of `s` grows by the next element. */
  lemma SliceSnoc(s: seq<string>, lo: nat, names: seq<string>)
    requires lo + |names| < |s| && names == s[lo..lo + |names|]
    ensures s[lo..lo + |names| + 1] == names + [s[lo + |names|]]
  {
  }

  /** Adding rows under fresh ids keeps every name that was there. */
  lemma NameExistsGrows(base: map<int, Node>, more: map<int, Node>, name: string)
    requires NameExists(base, name)
    requires forall k :: k in more ==> k !in base
    ensures NameExists(base + more, name)
  {
    var id :| id in base && base[id].name == name;
    assert (base + more)[id] == base[id];
  }

  /** After a chain is added over a table with smaller ids, every name of the
      chain exists, and so does every name that existed before: the names of a
      saved path all exist. */
  lemma SavedNamesExist(base: map<int, Node>, parent: int, segs: seq<string>, matched: nat, names: seq<string>,
                        first: int)
    requires matched + |names| == |segs| && names == segs[matched..matched + |names|]
    requires forall j :: 0 <= j < matched ==> NameExists(base, segs[j])
    requires forall k :: k in base ==> k < first
    ensures forall j :: 0 <= j < |segs| ==> NameExists(base + Chain(parent, names, first), segs[j])
  {
    var chain := Chain(parent, names, first);
    var all := base + chain;
    ChainShape(parent, names, first);
    forall j | 0 <= j < |segs| ensures NameExists(all, segs[j]) {
      if j < matched {
        assert NameExists(base, segs[j]);
        var id :| id in base && base[id].name == segs[j];
        assert id !in chain;
        assert all[id] == base[id];
      } else {
        var id := first + (j - matched);
        assert chain[id].name == names[j - matched] == segs[j];
        assert all[id] == chain[id];
      }
    }
  }

  /** The ids in `s`. */
  function Elems(s: seq<int>): set<int> {
    set x | x in s
  }

  /** FILE_METADATA after `DELETE ... WHERE NODE_ID = $1` for every id in `ids`. */
  function RowsWithout(rows: seq<FileMeta>, ids: set<int>): (r: seq<FileMeta>)
    ensures forall k :: 0 <= k < |r| ==> r[k].nodeId !in ids
    ensures |r| <= |rows|
  {
    if rows == [] then []
    else (if rows[0].nodeId in ids then [] else [rows[0]]) + RowsWithout(rows[1..], ids)
  }

  /** Deleting for no id keeps every row. */
  lemma {:induction false} RowsWithoutNothing(rows: seq<FileMeta>)
    ensures RowsWithout(rows, {}) == rows
  {
    if rows != [] {
      RowsWithoutNothing(rows[1..]);
      assert rows == [rows[0]] + rows[1..];
    }
  }

  /** Exactly the rows of other nodes stay, each one unchanged. */
  lemma {:induction false} RowsWithoutKeeps(rows: seq<FileMeta>, ids: set<int>, row: FileMeta)
    ensures row in RowsWithout(rows, ids) <==> row in rows && row.nodeId !in ids
  {
    if rows != [] {
      RowsWithoutKeeps(rows[1..], ids, row);
      assert rows == [rows[0]] + rows[1..];
    }
  }

  /** Deleting rows keeps every remaining node down to at most one row. */
  lemma {:induction false} RowsWithoutDistinct(rows: seq<FileMeta>, ids: set<int>)
    requires forall k, l :: 0 <= k < l < |rows| ==> rows[k].nodeId != rows[l].nodeId
    ensures var r := RowsWithout(rows, ids);
      forall k, l :: 0 <= k < l < |r| ==> r[k].nodeId != r[l].nodeId
  {
    if rows != [] {
      RowsWithoutDistinct(rows[1..], ids);
      var rest := RowsWithout(rows[1..], ids);
      forall l | 0 <= l < |rest| ensures rest[l].nodeId != rows[0].nodeId {
        RowsWithoutKeeps(rows[1..], ids, rest[l]);
        var m :| 0 <= m < |rows[1..]| && rows[1..][m] == rest[l];
        assert rows[m + 1] == rest[l];
      }
    }
  }

  /** Deleting for one set of ids and then for another is deleting for both. */
  lemma {:induction false} RowsWithoutUnion(rows: seq<FileMeta>, a: set<int>, b: set<int>)
    ensures RowsWithout(RowsWithout(rows, a), b) == RowsWithout(rows, a + b)
  {
    if rows != [] {
      RowsWithoutUnion(rows[1..], a, b);
      var ra := RowsWithout(rows, a);
      if rows[0].nodeId in a {
        assert ra == RowsWithout(rows[1..], a);
      } else {
        assert ra == [rows[0]] + RowsWithout(rows[1..], a);
        assert ra[0] == rows[0] && ra[1..] == RowsWithout(rows[1..], a);
        assert RowsWithout(ra, b) ==
          (if rows[0].nodeId in b then [] else [rows[0]]) + RowsWithout(ra[1..], b);
      }
    }
  }

  /** The row a join on NODE_ID = id finds (the first, if there were several). */
  function FileRow(rows: seq<FileMeta>, id: int): (r: Option<FileMeta>)
    ensures r.Some? ==> r.value in rows && r.value.nodeId == id
    ensures r.None? <==> forall k :: 0 <= k < |rows| ==> rows[k].nodeId != id
  {
    if rows == [] then None
    else if rows[0].nodeId == id then Some(rows[0])
    else
      var r := FileRow(rows[1..], id);
      assert forall k :: 1 <= k < |rows| ==> rows[k] == rows[1..][k - 1];
      r
  }

  /** A row appended for a node that had none is the row a join then finds. */
  lemma {:induction false} FileRowAppend(rows: seq<FileMeta>, row: FileMeta)
    requires forall k :: 0 <= k < |rows| ==> rows[k].nodeId != row.nodeId
    ensures FileRow(rows + [row], row.nodeId) == Some(row)
  {
    if rows != [] {
      assert (rows + [row])[1..] == rows[1..] + [row];
      FileRowAppend(rows[1..], row);
    }
  }

  /** A node the sweep deletes: PARENT_FOLDER is not NULL and names no node. */
  predicate Orphan(nodes: map<int, Node>, id: int) {
    id in nodes && nodes[id].parent.Some? && nodes[id].parent.value !in nodes
  }

  /** NODE after `DELETE FROM NODE WHERE PARENT_FOLDER NOT IN (SELECT ID FROM
      NODE)`: the subquery reads the table as it was before the statement. */
  function Swept(nodes: map<int, Node>): map<int, Node> {
    map id | id in nodes && !Orphan(nodes, id) :: nodes[id]
  }

  /** One sweep removes exactly the orphans; roots (NULL parent) and nodes whose
      parent existed stay, unchanged. */
  lemma SweptKeeps(nodes: map<int, Node>, id: int)
    requires id in nodes
    ensures id in Swept(nodes) <==> (nodes[id].parent.None? || nodes[id].parent.value in nodes)
    ensures id in Swept(nodes) ==> Swept(nodes)[id] == nodes[id]
  {
  }

  /** A child of an orphan survives the sweep that removes its parent and is an
      orphan afterwards: a subtree goes one level per sweep. */
  lemma SweepLeavesNewOrphans(nodes: map<int, Node>, x: int, y: int)
    requires Orphan(nodes, x)
    requires y in nodes && nodes[y].parent == Some(x)
    ensures y in Swept(nodes) && Orphan(Swept(nodes), y)
  {
  }

  /** Sweeping keeps the parent order. */
  lemma SweptParentsPrecede(nodes: map<int, Node>)
    requires ParentsPrecede(nodes)
    ensures ParentsPrecede(Swept(nodes))
  {
  }
}
