/** The category tree kept in a flat table of (id, parent id) rows, and navigation in it by
    model indexes. */
module CategoryTree {

  datatype Category = Category(id: int, parentId: int)

  /** A model index: valid exactly when row and column are not negative. */
  datatype ModelIndex = ModelIndex(row: int, column: int, id: int) {
    predicate IsValid() {
      0 <= row && 0 <= column
    }
  }

  const NO_INDEX := ModelIndex(-1, -1, 0)
  const ROOT_ID := 0
  const ID_COLUMN := 2
  const NO_PARENT := -1

  type Table = seq<Category>

  ghost predicate HasId(t: Table, id: int) {
    exists i :: 0 <= i < |t| && t[i].id == id
  }

  /** The root has id 0 and no parent; every other row hangs under a row with a smaller id. */
  ghost predicate RowOk(t: Table, c: Category) {
    || c == Category(ROOT_ID, NO_PARENT)
    || (0 <= c.parentId < c.id && HasId(t, c.parentId))
  }

  ghost predicate UniqueIds(t: Table) {
    forall i, j :: 0 <= i < j < |t| ==> t[i].id != t[j].id
  }

  ghost predicate WellFormed(t: Table) {
    && HasId(t, ROOT_ID) && UniqueIds(t)
    && forall i {:trigger RowOk(t, t[i])} :: 0 <= i < |t| ==> RowOk(t, t[i])
  }

  // ----- navigation -----

  /** The ids under a parent, in table order. */
  function Children(t: Table, parentId: int): (r: seq<int>)
    ensures |r| <= |t|
  {
    if t == [] then []
    else
      var n := |t| - 1;
      Children(t[..n], parentId) + if t[n].parentId == parentId then [t[n].id] else []
  }

  /** The parent id in the last row with the id, or -1. */
  function ParentId(t: Table, id: int): int {
    if t == [] then NO_PARENT
    else if t[|t| - 1].id == id then t[|t| - 1].parentId
    else ParentId(t[..|t| - 1], id)
  }

  /** The first position of x, or |s|. */
  function Position(s: seq<int>, x: int): (k: nat)
    ensures k <= |s| && (k < |s| ==> s[k] == x)
    ensures forall j :: 0 <= j < k ==> s[j] != x
  {
    if s == [] || s[0] == x then 0 else 1 + Position(s[1..], x)
  }

  function Rank(t: Table, id: int): nat {
    Position(Children(t, ParentId(t, id)), id)
  }

  function NodeId(parent: ModelIndex): int {
    if parent.IsValid() then parent.id else NO_PARENT
  }

  function Index(t: Table, row: int, column: int, parent: ModelIndex): ModelIndex {
    var children := Children(t, NodeId(parent));
    if 0 <= row < |children| && children[row] != -1 then ModelIndex(row, column, children[row]) else NO_INDEX
  }

  function Parent(t: Table, child: ModelIndex): ModelIndex {
    if !child.IsValid() || ParentId(t, child.id) == NO_PARENT then NO_INDEX
    else ModelIndex(Rank(t, ParentId(t, child.id)), 0, ParentId(t, child.id))
  }

  function RowCount(t: Table, parent: ModelIndex): nat {
    if parent.IsValid() then |Children(t, parent.id)| else 1
  }

  /** An index of the model: it names a node of the table at its row among its siblings. */
  ghost predicate IsNode(t: Table, x: ModelIndex) {
    x.IsValid() && HasId(t, x.id) && x.row == Rank(t, x.id)
  }

  lemma {:induction false} ChildrenExactly(t: Table, parentId: int, id: int)
    ensures id in Children(t, parentId) <==> Category(id, parentId) in t
  {
    if t != [] {
      var n := |t| - 1;
      assert t == t[..n] + [t[n]];
      ChildrenExactly(t[..n], parentId, id);
    }
  }

  lemma {:induction false} ChildrenDistinct(t: Table, parentId: int, j: nat, k: nat)
    requires UniqueIds(t) && j < k < |Children(t, parentId)|
    ensures Children(t, parentId)[j] != Children(t, parentId)[k]
  {
    var n := |t| - 1;
    var front := Children(t[..n], parentId);
    if k < |front| {
      ChildrenDistinct(t[..n], parentId, j, k);
    } else {
      ChildrenExactly(t[..n], parentId, front[j]);
      var i :| 0 <= i < n && t[..n][i] == Category(front[j], parentId);
      assert t[i].id == front[j];
    }
  }

  lemma ChildrenInjective(t: Table, parentId: int, j: nat, k: nat)
    requires UniqueIds(t) && j < |Children(t, parentId)| && k < |Children(t, parentId)|
    requires Children(t, parentId)[j] == Children(t, parentId)[k]
    ensures j == k
  {
    if j < k {
      ChildrenDistinct(t, parentId, j, k);
    }
    if k < j {
      ChildrenDistinct(t, parentId, k, j);
    }
  }

  lemma {:induction false} ParentIdAt(t: Table, i: nat)
    requires UniqueIds(t) && i < |t|
    ensures ParentId(t, t[i].id) == t[i].parentId
  {
    if i < |t| - 1 {
      ParentIdAt(t[..|t| - 1], i);
    }
  }

  lemma {:induction false} ParentIdAbsent(t: Table, id: int)
    requires !HasId(t, id)
    ensures ParentId(t, id) == NO_PARENT
  {
    if t != [] {
      assert t[|t| - 1].id != id;
      assert forall i :: 0 <= i < |t| - 1 ==> t[..|t| - 1][i] == t[i];
      ParentIdAbsent(t[..|t| - 1], id);
    }
  }

  /** A child sits under its parent at its rank. */
  lemma ChildAt(t: Table, parentId: int, k: nat)
    requires UniqueIds(t) && k < |Children(t, parentId)|
    ensures var id := Children(t, parentId)[k];
      HasId(t, id) && ParentId(t, id) == parentId && Rank(t, id) == k
  {
    var id := Children(t, parentId)[k];
    ChildrenExactly(t, parentId, id);
    var i :| 0 <= i < |t| && t[i] == Category(id, parentId);
    ParentIdAt(t, i);
    var p := Position(Children(t, parentId), id);
    if p < k {
      ChildrenDistinct(t, parentId, p, k);
    }
  }

  /** A node is found at its rank among its parent's children. */
  lemma NodeAtRank(t: Table, id: int)
    requires WellFormed(t) && HasId(t, id)
    ensures 0 <= id && RowOk(t, Category(id, ParentId(t, id)))
    ensures Rank(t, id) < |Children(t, ParentId(t, id))|
    ensures Children(t, ParentId(t, id))[Rank(t, id)] == id
  {
    var i :| 0 <= i < |t| && t[i].id == id;
    ParentIdAt(t, i);
    assert RowOk(t, t[i]) && t[i] == Category(id, ParentId(t, id));
    ChildrenExactly(t, ParentId(t, id), id);
  }

  lemma OneRoot(t: Table)
    requires WellFormed(t)
    ensures Children(t, NO_PARENT) == [ROOT_ID]
    ensures ParentId(t, ROOT_ID) == NO_PARENT
  {
    NodeAtRank(t, ROOT_ID);
    var children := Children(t, NO_PARENT);
    forall k | 0 <= k < |children|
      ensures children[k] == ROOT_ID
    {
      ChildAt(t, NO_PARENT, k);
      NodeAtRank(t, children[k]);
    }
    if |children| > 1 {
      ChildrenDistinct(t, NO_PARENT, 0, 1);
    }
  }

  /** An index is handed out exactly for the rows a parent has, and it is a node under it. */
  lemma IndexValidIffRow(t: Table, row: int, column: int, parent: ModelIndex)
    requires WellFormed(t) && (parent.IsValid() ==> IsNode(t, parent))
    ensures Index(t, row, column, parent).IsValid() <==> 0 <= row < RowCount(t, parent) && 0 <= column
    ensures Index(t, row, column, parent).IsValid() ==> IsNode(t, Index(t, row, column, parent))
  {
    OneRoot(t);
    var children := Children(t, NodeId(parent));
    if 0 <= row < |children| {
      ChildAt(t, NodeId(parent), row);
      NodeAtRank(t, children[row]);
    }
  }

  /** The parent of an index is the index it was made from, at column 0. */
  lemma ParentOfIndex(t: Table, row: int, column: int, parent: ModelIndex)
    requires WellFormed(t) && (parent.IsValid() ==> IsNode(t, parent))
    requires 0 <= row < RowCount(t, parent) && 0 <= column
    ensures Parent(t, Index(t, row, column, parent)) == if parent.IsValid() then parent.(column := 0) else NO_INDEX
  {
    OneRoot(t);
    ChildAt(t, NodeId(parent), row);
    NodeAtRank(t, Children(t, NodeId(parent))[row]);
    if parent.IsValid() {
      NodeAtRank(t, parent.id);
    }
  }

  /** An index is made again from its row, column and parent. */
  lemma IndexOfParent(t: Table, x: ModelIndex)
    requires WellFormed(t) && IsNode(t, x)
    ensures Index(t, x.row, x.column, Parent(t, x)) == x
    ensures Parent(t, x).IsValid() ==> IsNode(t, Parent(t, x))
    ensures Parent(t, x).IsValid() <==> x.id != ROOT_ID
  {
    OneRoot(t);
    NodeAtRank(t, x.id);
  }

  // ----- insertion -----

  function MaxId(t: Table): (m: int)
    ensures -1 <= m
    ensures forall i :: 0 <= i < |t| ==> t[i].id <= m
    ensures m == -1 || exists i :: 0 <= i < |t| && t[i].id == m
  {
    if t == [] then -1
    else
      var m := MaxId(t[..|t| - 1]);
      assert forall i :: 0 <= i < |t| - 1 ==> t[..|t| - 1][i] == t[i];
      if t[|t| - 1].id > m then t[|t| - 1].id else m
  }

  /** The row insertion adds: the next free id under the parent. */
  function NewRow(t: Table, parentId: int): Category {
    Category(MaxId(t) + 1, parentId)
  }

  /** New rows go at the end of the table, one by one. */
  function Insert(t: Table, count: nat, parentId: int): Table
    decreases count
  {
    if count == 0 then t else Insert(t + [NewRow(t, parentId)], count - 1, parentId)
  }

  lemma AppendKeepsWellFormed(t: Table, id: int, parentId: int)
    requires WellFormed(t) && HasId(t, parentId) && MaxId(t) < id
    ensures WellFormed(t + [Category(id, parentId)])
    ensures HasId(t + [Category(id, parentId)], parentId)
  {
    var u := t + [Category(id, parentId)];
    NodeAtRank(t, parentId);
    AppendKeepsId(t, u[|t|], parentId);
    AppendKeepsId(t, u[|t|], ROOT_ID);
    forall i | 0 <= i < |u|
      ensures RowOk(u, u[i])
    {
      if i < |t| {
        assert RowOk(t, t[i]);
        if HasId(t, t[i].parentId) {
          AppendKeepsId(t, u[|t|], t[i].parentId);
        }
      }
    }
  }

  lemma AppendKeepsId(t: Table, c: Category, id: int)
    requires HasId(t, id)
    ensures HasId(t + [c], id)
  {
    var i :| 0 <= i < |t| && t[i].id == id;
    assert (t + [c])[i].id == id;
  }

  lemma AppendChildren(t: Table, c: Category, parentId: int)
    ensures Children(t + [c], parentId) == Children(t, parentId) + if c.parentId == parentId then [c.id] else []
    ensures c.id != parentId ==> ParentId(t + [c], parentId) == ParentId(t, parentId)
  {
    assert (t + [c])[..|t|] == t;
  }

  lemma AppendSetsMaxId(t: Table, parentId: int)
    ensures MaxId(t + [NewRow(t, parentId)]) == MaxId(t) + 1
  {
    assert (t + [NewRow(t, parentId)])[..|t|] == t;
  }

  /** Insertion keeps a single-rooted tree. */
  lemma {:induction false} InsertKeepsWellFormed(t: Table, count: nat, parentId: int)
    requires WellFormed(t) && HasId(t, parentId)
    ensures WellFormed(Insert(t, count, parentId)) && HasId(Insert(t, count, parentId), parentId)
    decreases count
  {
    if count > 0 {
      AppendKeepsWellFormed(t, MaxId(t) + 1, parentId);
      InsertKeepsWellFormed(t + [NewRow(t, parentId)], count - 1, parentId);
    }
  }

  /** Each old id keeps its parent. */
  lemma {:induction false} InsertKeepsParent(t: Table, count: nat, parentId: int, id: int)
    requires HasId(t, id)
    ensures HasId(Insert(t, count, parentId), id)
    ensures ParentId(Insert(t, count, parentId), id) == ParentId(t, id)
    decreases count
  {
    if count > 0 {
      AppendKeepsId(t, NewRow(t, parentId), id);
      AppendChildren(t, NewRow(t, parentId), id);
      InsertKeepsParent(t + [NewRow(t, parentId)], count - 1, parentId, id);
    }
  }

  function NewIds(from: int, count: nat): (r: seq<int>)
    ensures |r| == count && forall i :: 0 <= i < count ==> r[i] == from + i
    decreases count
  {
    if count == 0 then [] else [from] + NewIds(from + 1, count - 1)
  }

  /** Only the chosen parent's children change: the new ids, in rising order, are its last. */
  lemma {:induction false} InsertedChildren(t: Table, count: nat, parentId: int, id: int)
    ensures id == parentId ==>
            Children(Insert(t, count, parentId), id) == Children(t, id) + NewIds(MaxId(t) + 1, count)
    ensures id != parentId ==> Children(Insert(t, count, parentId), id) == Children(t, id)
    decreases count
  {
    if count > 0 {
      AppendChildren(t, NewRow(t, parentId), id);
      AppendSetsMaxId(t, parentId);
      InsertedChildren(t + [NewRow(t, parentId)], count - 1, parentId, id);
      var first, rest := [MaxId(t) + 1], NewIds(MaxId(t) + 2, count - 1);
      ConcatAssociates(Children(t, id), first, rest);
    }
  }

  lemma ConcatAssociates(a: seq<int>, b: seq<int>, c: seq<int>)
    ensures (a + b) + c == a + (b + c)
  {
  }

  lemma PositionInPrefix(s: seq<int>, more: seq<int>, x: int)
    requires x in s
    ensures Position(s + more, x) == Position(s, x)
  {
    var p, q := Position(s, x), Position(s + more, x);
    var k :| 0 <= k < |s| && s[k] == x;
    assert p <= k;
    assert (s + more)[k] == s[k];
    assert q <= k;
    assert (s + more)[p] == s[p];
    assert (s + more)[q] == s[q];
  }

  /** Every old index still names the node it named, at the same row and under the same
      parent. */
  lemma InsertKeepsNodes(t: Table, count: nat, parentId: int, x: ModelIndex)
    requires WellFormed(t) && HasId(t, parentId) && IsNode(t, x)
    ensures IsNode(Insert(t, count, parentId), x)
    ensures Parent(Insert(t, count, parentId), x) == Parent(t, x)
  {
    InsertKeepsRank(t, count, parentId, x.id);
    NodeAtRank(t, x.id);
    if ParentId(t, x.id) != NO_PARENT {
      InsertKeepsRank(t, count, parentId, ParentId(t, x.id));
    }
  }

  lemma InsertKeepsRank(t: Table, count: nat, parentId: int, id: int)
    requires WellFormed(t) && HasId(t, parentId) && HasId(t, id)
    ensures var u := Insert(t, count, parentId);
      HasId(u, id) && ParentId(u, id) == ParentId(t, id) && Rank(u, id) == Rank(t, id)
  {
    InsertKeepsParent(t, count, parentId, id);
    NodeAtRank(t, id);
    InsertedChildren(t, count, parentId, ParentId(t, id));
    if ParentId(t, id) == parentId {
      PositionInPrefix(Children(t, parentId), NewIds(MaxId(t) + 1, count), id);
    }
  }

  /** The i-th new node is found under the parent at row + i. */
  ghost predicate FoundAt(t: Table, row: int, count: nat, column: nat, parent: ModelIndex, i: nat) {
    Index(Insert(t, count, parent.id), row + i, column, parent) == ModelIndex(row + i, column, MaxId(t) + 1 + i)
  }

  /** The rows the caller announces are those the new nodes get exactly when it announces
      the end of the parent's children. */
  lemma NewNodesAreLastRows(t: Table, row: int, count: nat, column: nat, parent: ModelIndex)
    requires WellFormed(t) && IsNode(t, parent) && 0 < count
    ensures row == RowCount(t, parent) <==> forall i: nat :: i < count ==> FoundAt(t, row, count, column, parent, i)
  {
    InsertKeepsWellFormed(t, count, parent.id);
    InsertedChildren(t, count, parent.id, parent.id);
    var children, n := Children(Insert(t, count, parent.id), parent.id), RowCount(t, parent);
    forall i: nat | row == n && i < count
      ensures FoundAt(t, row, count, column, parent, i)
    {
      assert children[n + i] == MaxId(t) + 1 + i;
    }
    if FoundAt(t, row, count, column, parent, 0) {
      assert children[row] == children[n] == MaxId(t) + 1;
      ChildrenInjective(Insert(t, count, parent.id), parent.id, row, n);
    }
  }

  // ----- subtrees -----

  /** id is node or hangs below it. */
  ghost predicate InSubtree(t: Table, node: int, id: int)
    requires WellFormed(t)
    decreases id
  {
    HasId(t, id) && (id == node || (0 <= ParentId(t, id) < id && InSubtree(t, node, ParentId(t, id))))
  }

  lemma {:induction false} SubtreeOfChild(t: Table, node: int, child: int, id: int)
    requires WellFormed(t) && ParentId(t, child) == node && HasId(t, child) && child != ROOT_ID
    ensures InSubtree(t, child, id) ==> InSubtree(t, node, id)
    decreases id
  {
    if InSubtree(t, child, id) {
      NodeAtRank(t, id);
      NodeAtRank(t, child);
      if id == child {
        assert InSubtree(t, node, node);
      } else {
        SubtreeOfChild(t, node, child, ParentId(t, id));
      }
    }
  }

  /** Everything strictly below a node lies below one of its children. */
  lemma {:induction false} BelowSomeChild(t: Table, node: int, id: int) returns (k: nat)
    requires WellFormed(t) && InSubtree(t, node, id) && id != node
    ensures k < |Children(t, node)| && InSubtree(t, Children(t, node)[k], id)
    decreases id
  {
    NodeAtRank(t, id);
    if ParentId(t, id) == node {
      k := Rank(t, id);
    } else {
      k := BelowSomeChild(t, node, ParentId(t, id));
    }
  }

  /** The id lies below none of the first n children of the node. */
  ghost predicate NotBelowFirst(t: Table, node: int, n: nat, id: int)
    requires WellFormed(t) && n <= |Children(t, node)|
  {
    forall k :: 0 <= k < n ==> !InSubtree(t, Children(t, node)[k], id)
  }

  lemma NotBelowNext(t: Table, node: int, n: nat, id: int)
    requires WellFormed(t) && n < |Children(t, node)|
    requires NotBelowFirst(t, node, n, id) && !InSubtree(t, Children(t, node)[n], id)
    ensures NotBelowFirst(t, node, n + 1, id)
  {
  }

  lemma NotBelowAny(t: Table, node: int, id: int)
    requires WellFormed(t) && id != node && NotBelowFirst(t, node, |Children(t, node)|, id)
    ensures !InSubtree(t, node, id)
  {
    if InSubtree(t, node, id) {
      var k := BelowSomeChild(t, node, id);
    }
  }

  lemma {:induction false} AllBelowRoot(t: Table, id: int)
    requires WellFormed(t)
    ensures InSubtree(t, ROOT_ID, id) <==> HasId(t, id)
    decreases id
  {
    if HasId(t, id) && id != ROOT_ID {
      NodeAtRank(t, id);
      AllBelowRoot(t, ParentId(t, id));
    }
  }

  // ----- the default categories -----

  const DEFAULT_TABLE: Table := [
    Category(0, -1), Category(1, 0), Category(2, 0), Category(3, 2), Category(4, 2),
    Category(5, 2), Category(6, 2), Category(8, 2), Category(7, 0)
  ]

  lemma DefaultIsWellFormed()
    ensures WellFormed(DEFAULT_TABLE)
  {
    var t := DEFAULT_TABLE;
    assert t[0].id == 0 && t[2].id == 2;
    assert HasId(t, 0) && HasId(t, 2);
  }

  /** The default ids are 0 to 8. */
  lemma DefaultIds(id: int)
    ensures HasId(DEFAULT_TABLE, id) <==> 0 <= id <= 8
  {
    var t := DEFAULT_TABLE;
    assert t[0].id == 0 && t[1].id == 1 && t[2].id == 2 && t[3].id == 3 && t[4].id == 4;
    assert t[5].id == 5 && t[6].id == 6 && t[7].id == 8 && t[8].id == 7;
  }

  /** One more row of the default table. */
  lemma DefaultRow(n: nat, parentId: int)
    requires n < 9
    ensures DEFAULT_TABLE[n].parentId == parentId ==>
            Children(DEFAULT_TABLE[..n + 1], parentId) ==
            Children(DEFAULT_TABLE[..n], parentId) + [DEFAULT_TABLE[n].id]
    ensures DEFAULT_TABLE[n].parentId != parentId ==>
            Children(DEFAULT_TABLE[..n + 1], parentId) == Children(DEFAULT_TABLE[..n], parentId)
  {
    assert DEFAULT_TABLE[..n + 1] == DEFAULT_TABLE[..n] + [DEFAULT_TABLE[n]];
    AppendChildren(DEFAULT_TABLE[..n], DEFAULT_TABLE[n], parentId);
  }

  lemma DefaultFront(parentId: int)
    ensures Children(DEFAULT_TABLE[..4], parentId) ==
            if parentId == -1 then [0] else if parentId == 0 then [1, 2] else if parentId == 2 then [3] else []
  {
    DefaultRow(0, parentId);
    DefaultRow(1, parentId);
    DefaultRow(2, parentId);
    DefaultRow(3, parentId);
  }

  lemma DefaultMiddle(parentId: int)
    ensures Children(DEFAULT_TABLE[..7], parentId) ==
            if parentId == -1 then [0] else if parentId == 0 then [1, 2] else if parentId == 2 then [3, 4, 5, 6] else []
  {
    DefaultFront(parentId);
    DefaultRow(4, parentId);
    DefaultRow(5, parentId);
    DefaultRow(6, parentId);
    assert [3] + [4] + [5] + [6] == [3, 4, 5, 6];
  }

  /** The default tree: three categories under the root, five under the second of them, and
      none under any other. */
  lemma DefaultChildren(parentId: int)
    ensures Children(DEFAULT_TABLE, parentId) ==
            if parentId == -1 then [0]
            else if parentId == 0 then [1, 2, 7]
            else if parentId == 2 then [3, 4, 5, 6, 8]
            else []
  {
    DefaultMiddle(parentId);
    DefaultRow(7, parentId);
    DefaultRow(8, parentId);
    assert DEFAULT_TABLE[..9] == DEFAULT_TABLE;
  }

  datatype Insertion = Insertion(parentId: int, count: nat)

  /** The tables insertions lead to; an insertion under an absent id is not made. */
  ghost function ReachedTable(inserts: seq<Insertion>): (t: Table)
    ensures WellFormed(t)
  {
    if inserts == [] then
      DefaultIsWellFormed();
      DEFAULT_TABLE
    else
      var t, ins := ReachedTable(inserts[..|inserts| - 1]), inserts[|inserts| - 1];
      if HasId(t, ins.parentId) then
        InsertKeepsWellFormed(t, ins.count, ins.parentId);
        Insert(t, ins.count, ins.parentId)
      else t
  }
}
