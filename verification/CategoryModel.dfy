/** The category model: navigation by scans over its rows, insertion at the end of the rows,
    and the search for a category from a model index. */
module CategoryModels {
  import opened CategoryTree

  class CategoryModel {
    var modelData: Table

    constructor ()
      ensures WellFormed(modelData) && forall id :: HasId(modelData, id) <==> 0 <= id <= 8
      ensures Children(modelData, 0) == [1, 2, 7] && Children(modelData, 2) == [3, 4, 5, 6, 8]
      ensures modelData == DEFAULT_TABLE
    {
      modelData := DEFAULT_TABLE;
      DefaultIsWellFormed();
      DefaultChildren(0);
      DefaultChildren(2);
      forall id
        ensures HasId(DEFAULT_TABLE, id) <==> 0 <= id <= 8
      {
        DefaultIds(id);
      }
    }

    method Index(row: int, column: int, parent: ModelIndex) returns (r: ModelIndex)
      ensures r == CategoryTree.Index(modelData, row, column, parent)
    {
      var parentCatId := if !parent.IsValid() then -1 else parent.id;
      ghost var children := Children(modelData, parentCatId);
      var childCatId, counter := -1, 0;
      for i := 0 to |modelData|
        invariant childCatId == -1
        invariant counter == |Children(modelData[..i], parentCatId)|
        invariant Children(modelData[..i], parentCatId) <= children
        invariant row < 0 || counter <= row
      {
        ChildrenPrefix(modelData, i + 1, parentCatId);
        assert modelData[..i + 1][..i] == modelData[..i];
        if modelData[i].parentId == parentCatId {
          if row == counter {
            childCatId := modelData[i].id;
            assert childCatId == children[row];
            break;
          }
          counter := counter + 1;
        }
      }
      assert modelData[..|modelData|] == modelData;
      return if childCatId != -1 then ModelIndex(row, column, childCatId) else NO_INDEX;
    }

    static lemma {:induction false} ChildrenPrefix(t: Table, n: nat, parentId: int)
      requires n <= |t|
      ensures Children(t[..n], parentId) <= Children(t, parentId)
      decreases |t|
    {
      if n == |t| {
        assert t[..n] == t;
      } else {
        assert t[..|t| - 1][..n] == t[..n];
        ChildrenPrefix(t[..|t| - 1], n, parentId);
      }
    }

    /** The parent id in the last row with the id, or -1: neither scan for one breaks off. */
    method LookupParentId(id: int) returns (parentCatId: int)
      ensures parentCatId == ParentId(modelData, id)
    {
      parentCatId := -1;
      for i := 0 to |modelData|
        invariant parentCatId == ParentId(modelData[..i], id)
      {
        assert modelData[..i + 1][..i] == modelData[..i];
        if modelData[i].id == id {
          parentCatId := modelData[i].parentId;
        }
      }
      assert modelData[..|modelData|] == modelData;
    }

    method Parent(child: ModelIndex) returns (r: ModelIndex)
      ensures r == CategoryTree.Parent(modelData, child)
    {
      if !child.IsValid() {
        return NO_INDEX;
      }
      var parentCatId := LookupParentId(child.id);
      if parentCatId == -1 {
        return NO_INDEX;
      }
      var ppCatId := LookupParentId(parentCatId);
      ghost var siblings := Children(modelData, ppCatId);
      var atrow := 0;
      for i := 0 to |modelData|
        invariant atrow == |Children(modelData[..i], ppCatId)|
        invariant parentCatId !in Children(modelData[..i], ppCatId)
        invariant Children(modelData[..i], ppCatId) <= siblings
      {
        assert modelData[..i + 1][..i] == modelData[..i];
        ChildrenPrefix(modelData, i + 1, ppCatId);
        if modelData[i].parentId == ppCatId {
          if modelData[i].id == parentCatId {
            assert siblings[atrow] == parentCatId;
            break;
          }
          atrow := atrow + 1;
        }
      }
      assert modelData[..|modelData|] == modelData;
      return ModelIndex(atrow, 0, parentCatId);
    }

    method RowCount(parent: ModelIndex) returns (count: nat)
      ensures count == CategoryTree.RowCount(modelData, parent)
    {
      if !parent.IsValid() {
        return 1;
      }
      count := 0;
      for i := 0 to |modelData|
        invariant count == |Children(modelData[..i], parent.id)|
      {
        assert modelData[..i + 1][..i] == modelData[..i];
        if modelData[i].parentId == parent.id {
          count := count + 1;
        }
      }
      assert modelData[..|modelData|] == modelData;
    }

    /** The id column of an index: a node without parent reads the row of id 0, any other node
        the row with its own id. */
    method DataId(x: ModelIndex) returns (id: int)
      requires WellFormed(modelData) && IsNode(modelData, x)
      ensures id == x.id
    {
      IndexOfParent(modelData, x);
      var pmi := Parent(x);
      var wanted := if !pmi.IsValid() then 0 else x.id;
      for i := 0 to |modelData|
        invariant forall j :: 0 <= j < i ==> modelData[j].id != wanted
      {
        if modelData[i].id == wanted {
          return modelData[i].id;
        }
      }
      assert false;
    }

    method FindMaxId() returns (maxId: int)
      ensures maxId == MaxId(modelData)
    {
      maxId := -1;
      for i := 0 to |modelData|
        invariant maxId == MaxId(modelData[..i])
      {
        assert modelData[..i + 1][..i] == modelData[..i];
        if modelData[i].id > maxId {
          maxId := modelData[i].id;
        }
      }
      assert modelData[..|modelData|] == modelData;
    }

    /** `row` is only announced to the views: the new rows go to the end of the table. An
        invalid parent carries id 0, so the rows then go under the root. */
    method InsertRows(row: int, count: nat, parent: ModelIndex) returns (ok: bool)
      requires |modelData| > 0
      modifies this
      ensures ok && modelData == Insert(old(modelData), count, parent.id)
      ensures Children(modelData, parent.id) ==
              Children(old(modelData), parent.id) + NewIds(MaxId(old(modelData)) + 1, count)
      ensures parent == NO_INDEX ==>
              Children(modelData, 0) == Children(old(modelData), 0) + NewIds(MaxId(old(modelData)) + 1, count)
    {
      InsertedChildren(modelData, count, parent.id, parent.id);
      for c := 0 to count
        invariant Insert(modelData, count - c, parent.id) == Insert(old(modelData), count, parent.id)
      {
        var maxId := FindMaxId();
        modelData := modelData + [Category(maxId + 1, parent.id)];
      }
      return true;
    }

    /** The id read through the id column at an index's row: the index's own. */
    method SiblingDataId(x: ModelIndex) returns (id: int)
      requires WellFormed(modelData) && IsNode(modelData, x)
      ensures id == x.id
    {
      IndexOfParent(modelData, x);
      var parent := Parent(x);
      var catIdx := Index(x.row, ID_COLUMN, parent);
      assert catIdx == x.(column := ID_COLUMN);
      id := DataId(catIdx);
    }

    /** Depth-first search below an index; an invalid one stands for the top of the tree. */
    method FindByCatId(parent: ModelIndex, catId: int) returns (r: ModelIndex)
      requires WellFormed(modelData) && (parent.IsValid() ==> IsNode(modelData, parent))
      ensures r.IsValid() <==>
              if parent.IsValid() then InSubtree(modelData, parent.id, catId) else HasId(modelData, catId)
      ensures r.IsValid() ==> IsNode(modelData, r) && r.id == catId && (r.column == 0 || r == parent)
      decreases if parent.IsValid() then MaxId(modelData) - parent.id else MaxId(modelData) + 1, 1
    {
      if parent.IsValid() {
        var id := SiblingDataId(parent);
        if id == catId {
          return parent;
        }
        r := FindAmongChildren(parent, catId);
      } else {
        OneRoot(modelData);
        AllBelowRoot(modelData, catId);
        IndexValidIffRow(modelData, 0, 0, NO_INDEX);
        NodeAtRank(modelData, ROOT_ID);
        var topCatIdx := Index(0, 0, NO_INDEX);
        r := FindByCatId(topCatIdx, catId);
      }
    }

    /** The loop over the children of a node that is not the one looked for. */
    method FindAmongChildren(parent: ModelIndex, catId: int) returns (r: ModelIndex)
      requires WellFormed(modelData) && parent.IsValid() && IsNode(modelData, parent) && catId != parent.id
      ensures r.IsValid() <==> InSubtree(modelData, parent.id, catId)
      ensures r.IsValid() ==> IsNode(modelData, r) && r.id == catId && r.column == 0
      decreases MaxId(modelData) - parent.id, 0
    {
      var childRowCount := RowCount(parent);
      for i := 0 to childRowCount
        invariant NotBelowFirst(modelData, parent.id, i, catId)
      {
        var childIdx := Index(i, 0, parent);
        ChildStep(modelData, parent, i, catId);
        r := FindByCatId(childIdx, catId);
        if r.IsValid() {
          return;
        }
        NotBelowNext(modelData, parent.id, i, catId);
      }
      r := NO_INDEX;
      NotBelowAny(modelData, parent.id, catId);
    }

    /** The i-th child of a node is a node below it with a larger id. */
    static lemma ChildStep(t: Table, parent: ModelIndex, i: nat, catId: int)
      requires WellFormed(t) && IsNode(t, parent) && i < |Children(t, parent.id)|
      ensures var child := CategoryTree.Index(t, i, 0, parent);
        && child.id == Children(t, parent.id)[i] && IsNode(t, child)
        && parent.id < child.id <= MaxId(t)
        && (InSubtree(t, child.id, catId) ==> InSubtree(t, parent.id, catId))
    {
      IndexValidIffRow(t, i, 0, parent);
      var id := Children(t, parent.id)[i];
      NodeAtRank(t, parent.id);
      ChildAt(t, parent.id, i);
      NodeAtRank(t, id);
      SubtreeOfChild(t, parent.id, id, catId);
    }
  }
}
