/** The segment model: the allocator's list of segments, updated in place together with the
    rows a view shows. Each operation is atomic under the model's mutex. */
module SegmentModels {
  import opened Segments
  import opened SegmentLaws

  class SegmentModel {
    var capacity: nat
    var pointerMap: seq<Segment>
    var modelData: seq<Row>

    ghost function Value(): State
      reads this
    {
      State(capacity, pointerMap, modelData)
    }

    ghost predicate Valid()
      reads this
    {
      Inv(Value())
    }

    constructor ()
      ensures Valid() && Value() == State(0, [], [])
    {
      capacity, pointerMap, modelData := 0, [], [];
    }

    method SortMMList()
      modifies `pointerMap
      ensures pointerMap == Sorted(old(pointerMap))
    {
      if |pointerMap| <= 1 {
        return;
      }
      for i := 0 to |pointerMap| - 1
        invariant pointerMap == BubblePass(old(pointerMap), i)
      {
        var mpt1, mpt2 := pointerMap[i], pointerMap[i + 1];
        if mpt1.start > mpt2.start {
          pointerMap := pointerMap[i := mpt2][i + 1 := mpt1];
        }
      }
    }

    method InsertRow(at: nat, row: Row)
      requires at <= |modelData|
      modifies `modelData
      ensures |modelData| == |old(modelData)| + 1 && modelData[at] == row
      ensures forall i :: 0 <= i < at ==> modelData[i] == old(modelData)[i]
      ensures forall i :: at <= i < |old(modelData)| ==> modelData[i + 1] == old(modelData)[i]
      ensures modelData == Inserted(old(modelData), at, row)
    {
      modelData := modelData[..at] + [row] + modelData[at..];
    }

    method SetCapacity(newCapacity: nat) returns (r: nat)
      requires Valid() && (newCapacity == 0 ==> |pointerMap| > 0)
      modifies this
      ensures Valid() && (Value(), r) == Segments.SetCapacity(old(Value()), newCapacity)
    {
      if |pointerMap| > 0 {
        return 0;
      }
      assert modelData == [];
      capacity := newCapacity;
      pointerMap := [Segment(0, 0, true)];
      InsertRow(0, Row(0, 0, true, 0));
      assert modelData == [Row(0, 0, true, 0)];
      return newCapacity;
    }

    /** The scan for the widest gap, the same whether a segment is busy or stopped. */
    method FindWidest() returns (splitElemIndex: nat, maxInterval: nat)
      requires Valid() && |pointerMap| > 0
      ensures splitElemIndex == Widest(pointerMap, capacity, |pointerMap|)
      ensures maxInterval == Gap(pointerMap, capacity, splitElemIndex)
    {
      splitElemIndex, maxInterval := 0, 0;
      for i := 0 to |pointerMap|
        invariant splitElemIndex == Widest(pointerMap, capacity, i)
        invariant maxInterval == if i == 0 then 0 else Gap(pointerMap, capacity, splitElemIndex)
      {
        var mpt := pointerMap[i];
        assert 0 <= Gap(pointerMap, capacity, i);
        var limit := if i == |pointerMap| - 1 then capacity else pointerMap[i + 1].start;
        if limit - mpt.length - mpt.start > maxInterval {
          maxInterval := limit - mpt.length - mpt.start;
          splitElemIndex := i;
        }
      }
    }

    /** Both branches of malloc end this way. */
    method TakeFrom(splitElemIndex: nat, start: nat)
      requires splitElemIndex < |pointerMap| == |modelData|
      modifies `pointerMap, `modelData
      ensures Value() == HandOut(old(Value()), splitElemIndex, start)
    {
      var mpt := pointerMap[splitElemIndex];
      if !mpt.busy && mpt.length == 0 {
        return;
      }
      var at := splitElemIndex + 1;
      pointerMap := pointerMap[..at] + [Segment(start, 0, true)] + pointerMap[at..];
      InsertRow(at, Row(start, start, true, 0));
    }

    /** Where a segment worth splitting gives its new segment a start. */
    method SplitPoint(splitElemIndex: nat, maxInterval: nat) returns (start: nat)
      requires Valid() && splitElemIndex < |pointerMap|
      requires maxInterval == Gap(pointerMap, capacity, splitElemIndex)
      ensures start == NewStart(pointerMap, capacity, splitElemIndex)
    {
      var outLength := maxInterval / 2;
      if !pointerMap[splitElemIndex].busy {
        start := pointerMap[splitElemIndex].start + pointerMap[splitElemIndex].length;
      } else if splitElemIndex == |pointerMap| - 1 {
        start := capacity - outLength;
      } else {
        start := pointerMap[splitElemIndex + 1].start - outLength;
      }
    }

    /** Malloc on a list that is not empty. */
    method MallocFromList() returns (r: nat)
      requires Valid() && |pointerMap| > 0
      modifies `pointerMap, `modelData
      ensures (Value(), r) == Segments.Malloc(old(Value()))
    {
      SortedKeeps(pointerMap, capacity);
      SortMMList();
      var splitElemIndex, maxInterval := FindWidest();
      var mpt := pointerMap[splitElemIndex];
      if maxInterval > MIN_SPLIT {
        r := SplitPoint(splitElemIndex, maxInterval);
        TakeFrom(splitElemIndex, r);
      } else if !mpt.busy {
        r := mpt.start + mpt.length;
        TakeFrom(splitElemIndex, r);
      } else {
        r := MM_NULL;
      }
    }

    method Malloc() returns (r: nat)
      requires Valid()
      modifies this
      ensures Valid() && (Value(), r) == Segments.Malloc(old(Value()))
    {
      MallocKeepsInv(Value());
      if |pointerMap| == 0 {
        r := MM_NOT_EXIST;
      } else {
        r := MallocFromList();
      }
    }

    /** `SP` must be the start of some segment; the sums stay below the 64-bit range. */
    method Free(SP: nat, size: nat) returns (freeLength: nat)
      requires Valid() && FirstAt(pointerMap, SP) < |pointerMap|
      requires capacity + size <= MM_NOT_EXIST
      modifies this
      ensures Valid() && (Value(), freeLength) == Segments.Free(old(Value()), SP, size)
    {
      FreeKeepsInv(Value(), SP, size);
      freeLength := size;
      for i := 0 to |pointerMap|
        invariant pointerMap == old(pointerMap) && modelData == old(modelData) && capacity == old(capacity)
        invariant forall j :: 0 <= j < i ==> pointerMap[j].start != SP
      {
        if pointerMap[i].start == SP {
          FirstAtIs(pointerMap, SP, i);
          freeLength := GrowAt(i, size);
          return;
        }
      }
      assert false;
    }

    /** The segment at place i, and its row, grow by what fits below the segment's limit. */
    method GrowAt(i: nat, size: nat) returns (freeLength: nat)
      requires Valid() && i < |pointerMap|
      modifies `pointerMap, `modelData
      ensures var length := Grown(old(pointerMap), capacity, i, size);
        && pointerMap == old(pointerMap)[i := old(pointerMap[i]).(length := length)]
        && modelData == old(modelData)[i := old(modelData[i]).(obtained := length)]
      ensures freeLength ==
              if End(old(pointerMap), i) + size > Limit(old(pointerMap), capacity, i) then 0 else size
    {
      assert 0 <= Gap(pointerMap, capacity, i);
      var limit := if i == |pointerMap| - 1 then capacity else pointerMap[i + 1].start;
      if pointerMap[i].start + pointerMap[i].length + size > limit {
        pointerMap := pointerMap[i := pointerMap[i].(length := limit - pointerMap[i].start)];
        freeLength := limit - pointerMap[i].start - pointerMap[i].length;
      } else {
        pointerMap := pointerMap[i := pointerMap[i].(length := pointerMap[i].length + size)];
        freeLength := size;
      }
      modelData := modelData[i := modelData[i].(obtained := pointerMap[i].length)];
    }

    /** Only the segment is marked; its row keeps the old status. */
    method Release(SP: nat) returns (r: nat)
      requires Valid()
      modifies this
      ensures Valid() && Value() == Segments.Release(old(Value()), SP) && r == 0
    {
      FlagsKeepInv(Value(), Segments.Release(Value(), SP));
      for i := 0 to |pointerMap|
        invariant Value() == old(Value())
        invariant forall j :: 0 <= j < i ==> pointerMap[j].start != SP
      {
        if pointerMap[i].start == SP {
          FirstAtIs(pointerMap, SP, i);
          pointerMap := pointerMap[i := pointerMap[i].(busy := false)];
          break;
        }
      }
      return 0;
    }

    method SetBlockBusy(SP: nat, busy: bool)
      requires Valid()
      modifies this
      ensures Valid() && Value() == Segments.SetBlockBusy(old(Value()), SP, busy)
    {
      ghost var target := Segments.SetBlockBusy(Value(), SP, busy);
      FlagsKeepInv(Value(), target);
      for i := 0 to |pointerMap|
        invariant |pointerMap| == |old(pointerMap)| == |modelData| && capacity == old(capacity)
        invariant forall j :: 0 <= j < i ==> pointerMap[j] == target.segs[j] && modelData[j] == target.rows[j]
        invariant forall j :: i <= j < |pointerMap| ==>
          pointerMap[j] == old(pointerMap)[j] && modelData[j] == old(modelData)[j]
      {
        if pointerMap[i].start == SP {
          pointerMap := pointerMap[i := pointerMap[i].(busy := busy)];
          modelData := modelData[i := modelData[i].(status := busy)];
        }
      }
      assert pointerMap == target.segs && modelData == target.rows;
    }

    /** True exactly when every byte of the capacity has been obtained. */
    method IsMemFullAlloced() returns (full: bool)
      requires Valid()
      modifies this
      ensures Valid() && Value() == old(Value())
      ensures full <==> pointerMap != [] && Obtained(pointerMap) == capacity
    {
      SortedKeeps(pointerMap, capacity);
      full := false;
      SortMMList();
      for i := 0 to |pointerMap|
        invariant Value() == old(Value())
        invariant forall j :: 0 <= j < i ==> Gap(pointerMap, capacity, j) == 0
        invariant full == (i > 0)
      {
        var limit := if i == |pointerMap| - 1 then capacity else pointerMap[i + 1].start;
        if pointerMap[i].start + pointerMap[i].length == limit {
          full := true;
        } else {
          assert Gap(pointerMap, capacity, i) != 0;
          full := false;
          break;
        }
      }
      if pointerMap != [] {
        ClosedIffAllObtained(pointerMap, capacity);
      }
    }
  }
}
