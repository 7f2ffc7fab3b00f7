/** What each operation of the allocator does to the segments and rows, field by field. */
module SegmentLaws {
  import opened Segments

  /** Gap k is the first of the widest. */
  ghost predicate FirstWidest(s: seq<Segment>, capacity: nat, k: nat) {
    && k < |s|
    && (forall j :: 0 <= j < |s| ==> Gap(s, capacity, j) <= Gap(s, capacity, k))
    && (forall j :: 0 <= j < k ==> Gap(s, capacity, j) < Gap(s, capacity, k))
  }

  lemma FirstWidestIsChosen(s: seq<Segment>, capacity: nat, k: nat)
    requires s != []
    ensures FirstWidest(s, capacity, k) <==> k == Widest(s, capacity, |s|)
  {
    WidestIsFirstMaximum(s, capacity, |s|);
    var w := Widest(s, capacity, |s|);
    assert FirstWidest(s, capacity, k) ==> Gap(s, capacity, k) == Gap(s, capacity, w);
  }

  /** Segment i is the first that starts at `start`. */
  ghost predicate IsFirstAt(s: seq<Segment>, start: nat, i: nat) {
    i < |s| && s[i].start == start && forall j :: 0 <= j < i ==> s[j].start != start
  }

  lemma FirstAtIs(s: seq<Segment>, start: nat, i: nat)
    ensures IsFirstAt(s, start, i) <==> i == FirstAt(s, start) < |s|
  {
    assert IsFirstAt(s, start, i) ==> FirstAt(s, start) == i;
  }

  /** One owned empty segment and its row were added after place k; all else is as it was. */
  ghost predicate AddedAfter(st: State, t: State, k: nat, start: nat)
    requires k < |st.segs| == |st.rows|
  {
    && t.capacity == st.capacity && |t.segs| == |t.rows| == |st.segs| + 1
    && t.segs[k + 1] == Segment(start, 0, true) && t.rows[k + 1] == Row(start, start, true, 0)
    && (forall i :: 0 <= i <= k ==> t.segs[i] == st.segs[i] && t.rows[i] == st.rows[i])
    && (forall i :: k < i < |st.segs| ==> t.segs[i + 1] == st.segs[i] && t.rows[i + 1] == st.rows[i])
  }

  lemma HandOutAdds(st: State, k: nat, start: nat)
    requires k < |st.segs| == |st.rows| && !Resumable(st.segs[k])
    ensures AddedAfter(st, HandOut(st, k, start), k, start)
  {
    var t := HandOut(st, k, start);
    forall i | 0 <= i < |st.segs|
      ensures var j := if i <= k then i else i + 1; t.segs[j] == st.segs[i] && t.rows[j] == st.rows[i]
    {
      InsertedAt(st.segs, k + 1, Segment(start, 0, true), i);
      InsertedAt(st.rows, k + 1, Row(start, start, true, 0), i);
    }
  }

  lemma MallocOnNothing(st: State)
    requires Inv(st) && st.segs == []
    ensures Malloc(st) == (st, 0xffff_ffff_ffff_ffff)
  {
  }

  /** Where the first widest gap belongs to an owned segment, the segment keeps the larger half
      of a gap above 102400, and a smaller gap is left alone. */
  lemma OwnedIsSplit(st: State, k: nat)
    requires Inv(st) && FirstWidest(st.segs, st.capacity, k) && st.segs[k].busy
    ensures var s, (t, r) := st.segs, Malloc(st);
      var end := s[k].start + s[k].length;
      var limit := if k + 1 < |s| then s[k + 1].start else st.capacity;
      if limit - end <= 102400 then t == st && r == 0
      else AddedAfter(st, t, k, r) && r == limit - (limit - end) / 2
  {
    FirstWidestIsChosen(st.segs, st.capacity, k);
    HandOutAdds(st, k, NewStart(st.segs, st.capacity, k));
  }

  /** Where it belongs to a stopped segment, that is continued at the first byte it is missing,
      or handed out as it is if it has obtained nothing. */
  lemma StoppedIsTakenUp(st: State, k: nat)
    requires Inv(st) && FirstWidest(st.segs, st.capacity, k) && !st.segs[k].busy
    ensures var s, (t, r) := st.segs, Malloc(st);
      r == s[k].start + s[k].length && if s[k].length == 0 then t == st else AddedAfter(st, t, k, r)
  {
    FirstWidestIsChosen(st.segs, st.capacity, k);
    if st.segs[k].length > 0 {
      HandOutAdds(st, k, End(st.segs, k));
    }
  }

  /** The gaps an added segment leaves, and the halves of a split. */
  lemma AddedGaps(st: State, t: State, k: nat, start: nat)
    requires k < |st.segs| == |st.rows| && AddedAfter(st, t, k, start)
    ensures Gap(t.segs, t.capacity, k) == start - st.segs[k].start - st.segs[k].length
    ensures Gap(t.segs, t.capacity, k) + Gap(t.segs, t.capacity, k + 1) == Gap(st.segs, st.capacity, k)
    ensures forall i :: 0 <= i < k ==> Gap(t.segs, t.capacity, i) == Gap(st.segs, st.capacity, i)
    ensures forall i :: k < i < |st.segs| ==> Gap(t.segs, t.capacity, i + 1) == Gap(st.segs, st.capacity, i)
  {
    forall i | k < i < |st.segs|
      ensures Gap(t.segs, t.capacity, i + 1) == Gap(st.segs, st.capacity, i)
    {
      assert t.segs[i + 1] == st.segs[i];
      assert i + 1 < |st.segs| ==> t.segs[i + 2] == st.segs[i + 1];
    }
    assert k + 1 < |st.segs| ==> t.segs[k + 2] == st.segs[k + 1];
  }

  /** Whatever the segments have obtained, splitting a gap above 102400 whose segment has an
      owner leaves the owner the larger half and gives the rest to one new segment. */
  lemma SplitHalves(st: State, k: nat)
    requires Inv(st) && FirstWidest(st.segs, st.capacity, k) && st.segs[k].busy
    requires Gap(st.segs, st.capacity, k) > 102400
    ensures var gap, (t, r) := Gap(st.segs, st.capacity, k), Malloc(st);
      && AddedAfter(st, t, k, r)
      && Gap(t.segs, t.capacity, k) == gap - gap / 2 && Gap(t.segs, t.capacity, k + 1) == gap / 2
  {
    OwnedIsSplit(st, k);
    AddedGaps(st, Malloc(st).0, k, Malloc(st).1);
  }

  /** Nothing but the length of segment i and its row differs. */
  ghost predicate OnlyLengthChanged(st: State, t: State, i: nat, length: nat)
    requires i < |st.segs| == |st.rows|
  {
    && t.capacity == st.capacity && |t.segs| == |st.segs| && |t.rows| == |st.rows|
    && t.segs[i] == Segment(st.segs[i].start, length, st.segs[i].busy)
    && t.rows[i] == Row(st.rows[i].segId, st.rows[i].startOffset, st.rows[i].status, length)
    && forall j :: 0 <= j < |st.segs| && j != i ==> t.segs[j] == st.segs[j] && t.rows[j] == st.rows[j]
  }

  /** A free adds to the first segment with the start as much as fits below its limit. */
  lemma FreeAdds(st: State, start: nat, size: nat, i: nat)
    requires Inv(st) && IsFirstAt(st.segs, start, i)
    ensures FirstAt(st.segs, start) == i
    ensures var s, t := st.segs, Free(st, start, size).0;
      var limit := if i + 1 < |s| then s[i + 1].start else st.capacity;
      var room := limit - s[i].start - s[i].length;
      room >= 0 && OnlyLengthChanged(st, t, i, s[i].length + if size <= room then size else room)
  {
    FirstAtIs(st.segs, start, i);
    assert 0 <= Gap(st.segs, st.capacity, i);
  }

  /** A release stops the first segment with the start; all else is as it was. */
  lemma ReleaseStops(st: State, start: nat, i: nat)
    requires IsFirstAt(st.segs, start, i)
    ensures var s, t := st.segs, Release(st, start);
      && t.capacity == st.capacity && t.rows == st.rows && |t.segs| == |s|
      && !t.segs[i].busy && t.segs[i].start == s[i].start && t.segs[i].length == s[i].length
      && forall j :: 0 <= j < |s| && j != i ==> t.segs[j] == s[j]
  {
    FirstAtIs(st.segs, start, i);
  }

  lemma ReleaseOfNothing(st: State, start: nat)
    requires forall i :: 0 <= i < |st.segs| ==> st.segs[i].start != start
    ensures Release(st, start) == st
  {
  }

  /** A segment released while its gap is the first widest is where the next malloc goes on: at
      the first byte it is missing, with its whole gap. */
  lemma ReleasedIsContinued(st: State, start: nat, i: nat)
    requires Inv(st) && IsFirstAt(st.segs, start, i)
    requires FirstWidest(st.segs, st.capacity, i)
    ensures Inv(Release(st, start))
    ensures Malloc(Release(st, start)).1 == st.segs[i].start + st.segs[i].length
    ensures st.segs[i].length > 0 ==>
      var (t, r) := Malloc(Release(st, start));
      && |t.segs| == |st.segs| + 1 && t.segs[i + 1] == Segment(r, 0, true)
      && Gap(t.segs, t.capacity, i) == 0 && Gap(t.segs, t.capacity, i + 1) == Gap(st.segs, st.capacity, i)
  {
    var u := Release(st, start);
    ReleaseStops(st, start, i);
    FlagsKeepInv(st, u);
    assert forall j :: 0 <= j < |u.segs| ==> Gap(u.segs, u.capacity, j) == Gap(st.segs, st.capacity, j);
    StoppedIsTakenUp(u, i);
    if st.segs[i].length > 0 {
      AddedGaps(u, Malloc(u).0, i, Malloc(u).1);
    }
  }

  /** Marking sets the flag of every segment with the start and of its row, and nothing else. */
  lemma MarkingSetsFlags(st: State, start: nat, busy: bool, i: nat)
    requires i < |st.segs| == |st.rows|
    ensures var s, rows, t := st.segs, st.rows, SetBlockBusy(st, start, busy);
      && t.capacity == st.capacity && |t.segs| == |t.rows| == |s|
      && t.segs[i] == Segment(s[i].start, s[i].length, if s[i].start == start then busy else s[i].busy)
      && t.rows[i] == Row(rows[i].segId, rows[i].startOffset,
                          if s[i].start == start then busy else rows[i].status, rows[i].obtained)
  {
  }

  /** A capacity can be set once. */
  lemma CapacityIsSetOnce(st: State, capacity: nat)
    ensures st.segs == [] && capacity > 0 ==>
            SetCapacity(st, capacity) == (State(capacity, [Segment(0, 0, true)], [Row(0, 0, true, 0)]), capacity)
    ensures st.segs != [] || capacity == 0 ==> SetCapacity(st, capacity) == (st, 0)
  {
  }
}
