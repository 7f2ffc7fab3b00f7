/** What malloc hands out: bounded splitting of a fresh capacity, and who may be given a
    start twice. */
module SegmentSplitting {
  import opened Segments
  import opened SegmentLaws
  import opened SegmentRuns

  /** The state after malloc is called n times. */
  function Mallocs(st: State, n: nat): (t: State)
    requires Inv(st)
    ensures Inv(t)
    decreases n
  {
    if n == 0 then st else MallocKeepsInv(st); Mallocs(Malloc(st).0, n - 1)
  }

  /** A capacity set in an empty model. */
  function Fresh(capacity: nat): (st: State)
    ensures Inv(st)
  {
    SetCapacity(State(0, [], []), capacity).0
  }

  ghost predicate AllOwnedAndEmpty(s: seq<Segment>) {
    forall i :: 0 <= i < |s| ==> s[i].busy && s[i].length == 0
  }

  ghost predicate GapsAtLeast(s: seq<Segment>, capacity: nat, g: nat) {
    forall i :: 0 <= i < |s| ==> g <= Gap(s, capacity, i)
  }

  ghost predicate GapsAtMost(s: seq<Segment>, capacity: nat, g: nat) {
    forall i :: 0 <= i < |s| ==> Gap(s, capacity, i) <= g
  }

  /** Malloc either finds no gap above the minimum, and changes nothing, or halves the first
      of the largest gaps. */
  lemma MallocSplits(st: State)
    requires Inv(st) && st.segs != [] && AllOwnedAndEmpty(st.segs)
    ensures var s, c, (t, r) := st.segs, st.capacity, Malloc(st);
      var k := Widest(s, c, |s|);
      && GapsAtMost(s, c, Gap(s, c, k))
      && AllOwnedAndEmpty(t.segs) && t.capacity == c
      && if Gap(s, c, k) <= 102400 then t == st && r == 0
         else |t.segs| == |s| + 1 && r == t.segs[k + 1].start > 0 &&
              Gap(t.segs, c, k + 1) == Gap(s, c, k) / 2 &&
              Gap(t.segs, c, k) == Gap(s, c, k) - Gap(s, c, k) / 2
  {
    var s, c, t := st.segs, st.capacity, Malloc(st).0;
    var k := Widest(s, c, |s|);
    FirstWidestIsChosen(s, c, k);
    OwnedIsSplit(st, k);
    if Gap(s, c, k) > 102400 {
      SplitHalves(st, k);
      forall i | 0 <= i < |t.segs|
        ensures t.segs[i].busy && t.segs[i].length == 0
      {
        assert i <= k ==> t.segs[i] == s[i];
        assert i > k + 1 ==> t.segs[i] == s[i - 1];
      }
    }
  }

  lemma MallocKeepsGapsAtLeast(st: State)
    requires Inv(st) && st.segs != [] && AllOwnedAndEmpty(st.segs)
    requires GapsAtLeast(st.segs, st.capacity, 51200)
    ensures GapsAtLeast(Malloc(st).0.segs, st.capacity, 51200)
  {
    MallocSplits(st);
    if Malloc(st).0 != st {
      var k := Widest(st.segs, st.capacity, |st.segs|);
      InsertKeepsGapsAtLeast(st.segs, st.capacity, k, NewStart(st.segs, st.capacity, k), 51200);
    }
  }

  lemma InsertKeepsGapsAtLeast(s: seq<Segment>, capacity: nat, k: nat, start: nat, g: nat)
    requires GapsAtLeast(s, capacity, g) && k < |s|
    requires g <= start - End(s, k) && g <= Limit(s, capacity, k) - start
    ensures GapsAtLeast(Inserted(s, k + 1, Segment(start, 0, true)), capacity, g)
  {
    InsertSplitsGap(s, capacity, k, Segment(start, 0, true));
  }

  lemma {:induction false} GapsAddUp(s: seq<Segment>, capacity: nat, g: nat)
    requires GapsAtLeast(s, capacity, g)
    ensures g * |s| <= OpenGaps(s, capacity)
  {
    if s != [] {
      assert g <= Gap(s, capacity, 0);
      forall i | 0 <= i < |s[1..]|
        ensures g <= Gap(s[1..], capacity, i)
      {
        assert g <= Gap(s, capacity, i + 1);
      }
      GapsAddUp(s[1..], capacity, g);
      assert g * |s| == g + g * |s[1..]|;
    }
  }

  lemma {:induction false} NothingObtained(s: seq<Segment>)
    requires AllOwnedAndEmpty(s)
    ensures Obtained(s) == 0
  {
    if s != [] {
      NothingObtained(s[1..]);
    }
  }

  /** What a fresh capacity looks like after some calls of malloc. */
  ghost predicate Splitting(st: State, capacity: nat) {
    && Inv(st) && st.capacity == capacity && st.segs != []
    && AllOwnedAndEmpty(st.segs) && GapsAtLeast(st.segs, capacity, 51200)
  }

  lemma MallocKeepsSplitting(st: State, capacity: nat)
    requires Splitting(st, capacity)
    ensures Splitting(Malloc(st).0, capacity)
    ensures |Malloc(st).0.segs| == |st.segs| + 1 || Malloc(st) == (st, 0)
  {
    MallocKeepsInv(st);
    MallocSplits(st);
    MallocKeepsGapsAtLeast(st);
  }

  /** Every call so far added a segment, or nothing is left. */
  ghost predicate Settling(st: State, capacity: nat, size: int) {
    Splitting(st, capacity) && (|st.segs| == size || Malloc(st) == (st, 0))
  }

  lemma StillSettling(st: State, capacity: nat, size: int)
    requires Settling(st, capacity, size)
    ensures Settling(Malloc(st).0, capacity, size + 1)
  {
    MallocKeepsSplitting(st, capacity);
  }

  lemma {:induction false} MallocsSettle(st: State, capacity: nat, size: int, n: nat)
    requires Settling(st, capacity, size)
    ensures Settling(Mallocs(st, n), capacity, size + n)
    decreases n
  {
    if n > 0 {
      StillSettling(st, capacity, size);
      MallocsSettle(Malloc(st).0, capacity, size + 1, n - 1);
    }
  }

  lemma SplittingIsBounded(st: State, capacity: nat)
    requires Splitting(st, capacity)
    ensures |st.segs| <= capacity / 51200
  {
    GapsAddUp(st.segs, capacity, 51200);
    Conservation(st.segs, capacity);
    NothingObtained(st.segs);
  }

  /** From a fresh capacity there are never more than capacity / 51200 segments, however
      often malloc is called, and no gap falls below 51200. */
  lemma SegmentsAreBounded(capacity: nat, n: nat)
    requires capacity > 102400
    ensures |Mallocs(Fresh(capacity), n).segs| <= capacity / 51200
    ensures GapsAtLeast(Mallocs(Fresh(capacity), n).segs, capacity, 51200)
  {
    MallocsSettle(Fresh(capacity), capacity, 1, n);
    SplittingIsBounded(Mallocs(Fresh(capacity), n), capacity);
  }

  /** After capacity / 51200 calls malloc answers that nothing is left, and every gap is at
      most the minimum worth splitting. */
  lemma SplittingEnds(capacity: nat)
    requires capacity > 102400
    ensures var st := Mallocs(Fresh(capacity), capacity / 51200);
      Malloc(st) == (st, 0) && GapsAtMost(st.segs, capacity, 102400)
  {
    var st := Mallocs(Fresh(capacity), capacity / 51200);
    MallocsSettle(Fresh(capacity), capacity, 1, capacity / 51200);
    SplittingIsBounded(st, capacity);
    MallocSplits(st);
  }

  /** The bound is one for runs of malloc alone. Where every gap is closed and the first segment
      is stopped with bytes obtained, malloc never answers that nothing is left: every call
      hands out the same start and adds another empty segment. */
  lemma ClosedNeverEnds(st: State, n: nat)
    requires Inv(st) && st.segs != [] && AllGapsClosed(st.segs, st.capacity)
    requires !st.segs[0].busy && st.segs[0].length > 0
    ensures ClosedAt(Mallocs(st, n), |st.segs| + n, st.segs[0])
  {
    ClosedMalloc(st);
    MallocsStayClosed(st, |st.segs|, st.segs[0], n);
  }

  lemma {:induction false} MallocsStayClosed(st: State, size: int, first: Segment, n: nat)
    requires ClosedAt(st, size, first) && !first.busy && first.length > 0
    ensures ClosedAt(Mallocs(st, n), size + n, first)
    decreases n
  {
    if n > 0 {
      StillClosed(st, size, first);
      MallocsStayClosed(Malloc(st).0, size + 1, first, n - 1);
    }
  }

  /** Every gap is closed, the first segment is `first`, and malloc hands out its end. */
  ghost predicate ClosedAt(st: State, size: int, first: Segment) {
    && Inv(st) && AllGapsClosed(st.segs, st.capacity)
    && |st.segs| == size > 0 && st.segs[0] == first && Malloc(st).1 == first.start + first.length > 0
  }

  lemma StillClosed(st: State, size: int, first: Segment)
    requires ClosedAt(st, size, first) && !first.busy && first.length > 0
    ensures ClosedAt(Malloc(st).0, size + 1, first)
  {
    MallocKeepsInv(st);
    ClosedMalloc(st);
    ClosedMalloc(Malloc(st).0);
  }

  // ----- who is given what -----

  /** Malloc has something to hand out. */
  ghost predicate Hands(st: State)
    requires Inv(st)
  {
    st.segs != [] &&
    var k := Widest(st.segs, st.capacity, |st.segs|);
    Gap(st.segs, st.capacity, k) > 102400 || !st.segs[k].busy
  }

  /** While some gap is open, malloc never hands out the start of a segment that has an
      owner: the start is new, or that of a stopped segment that obtained nothing. */
  lemma MallocGivesNoOwnedStart(st: State, i: nat)
    requires Inv(st) && i < |st.segs| && !AllGapsClosed(st.segs, st.capacity)
    requires Hands(st)
    requires st.segs[i].start == Malloc(st).1
    ensures Resumable(st.segs[i]) && Malloc(st).0 == st && i == Widest(st.segs, st.capacity, |st.segs|)
  {
    var s, c := st.segs, st.capacity;
    WidestIsFirstMaximum(s, c, |s|);
    var k := Widest(s, c, |s|);
    assert 0 < Gap(s, c, k);
  }

  ghost predicate OwnedAt(s: seq<Segment>, start: nat) {
    exists i :: 0 <= i < |s| && s[i].busy && s[i].start == start
  }

  /** Malloc hands out the start of an owned segment exactly when every gap is closed and the
      first segment is stopped and ends where an owned one starts. */
  lemma GivesOwnedStartIff(st: State)
    requires Inv(st)
    ensures Hands(st) && OwnedAt(st.segs, Malloc(st).1) <==>
            && st.segs != [] && AllGapsClosed(st.segs, st.capacity)
            && !st.segs[0].busy && OwnedAt(st.segs, st.segs[0].length)
  {
    var s, c := st.segs, st.capacity;
    if s != [] && AllGapsClosed(s, c) {
      WidestIsFirstMaximum(s, c, |s|);
      var k := Widest(s, c, |s|);
      assert Gap(s, c, 0) == 0 && Gap(s, c, k) == 0;
      assert k == 0;
    } else if Hands(st) && OwnedAt(s, Malloc(st).1) {
      var i :| 0 <= i < |s| && s[i].busy && s[i].start == Malloc(st).1;
      MallocGivesNoOwnedStart(st, i);
    }
  }

  /** Ten of fifteen bytes obtained by one segment, then stopped; the rest by a second one. */
  const ONE_FULL := State(15, [Segment(0, 10, true)], [Row(0, 0, true, 10)])
  const ONE_STOPPED := State(15, [Segment(0, 10, false)], [Row(0, 0, false, 10)])
  const TWO_OPEN := State(15, [Segment(0, 10, false), Segment(10, 0, true)],
                          [Row(0, 0, false, 10), Row(10, 10, true, 0)])
  const TWO_FULL := State(15, [Segment(0, 10, false), Segment(10, 5, true)],
                          [Row(0, 0, false, 10), Row(10, 10, true, 5)])

  lemma FirstSegmentStops()
    ensures Reached([SetCapacityOp(15)] + [FreeOp(0, 10)] + [SetBlockBusyOp(0, false)]) == ONE_STOPPED
  {
    ReachedNext([], SetCapacityOp(15));
    assert [] + [SetCapacityOp(15)] == [SetCapacityOp(15)];
    assert Reached([SetCapacityOp(15)]).segs == [Segment(0, 0, true)];
    assert FirstAt([Segment(0, 0, true)], 0) == 0;
    ReachedNext([SetCapacityOp(15)], FreeOp(0, 10));
    assert Step(Reached([SetCapacityOp(15)]), FreeOp(0, 10)) == ONE_FULL;
    ReachedNext([SetCapacityOp(15)] + [FreeOp(0, 10)], SetBlockBusyOp(0, false));
  }

  lemma SecondSegmentFills()
    ensures Inv(ONE_STOPPED) && Step(ONE_STOPPED, MallocOp) == TWO_OPEN
    ensures Inv(TWO_OPEN) && Step(TWO_OPEN, FreeOp(10, 5)) == TWO_FULL
  {
    FirstSegmentStops();
    assert Widest(ONE_STOPPED.segs, 15, 1) == 0;
    assert Gap(ONE_STOPPED.segs, 15, 0) == 5;
    MallocKeepsInv(ONE_STOPPED);
    assert TWO_OPEN.segs[1..][0].start == 10;
    assert FirstAt(TWO_OPEN.segs, 10) == 1;
  }

  lemma OwnedStartComesAgain()
    ensures Inv(TWO_FULL) && Hands(TWO_FULL) && OwnedAt(TWO_FULL.segs, Malloc(TWO_FULL).1)
  {
    SecondSegmentFills();
    assert Gap(TWO_FULL.segs, 15, 0) == 0 && Gap(TWO_FULL.segs, 15, 1) == 0;
    assert TWO_FULL.segs[1].start == 10;
    GivesOwnedStartIff(TWO_FULL);
  }

  const OWNED_START_RUN := [
    SetCapacityOp(15), FreeOp(0, 10), SetBlockBusyOp(0, false), MallocOp, FreeOp(10, 5)
  ]

  /** A run after which the start of an owned segment is handed out again. */
  lemma GivesOwnedStartExample()
    ensures Reached(OWNED_START_RUN) == TWO_FULL
    ensures Inv(TWO_FULL) && Hands(TWO_FULL) && OwnedAt(TWO_FULL.segs, Malloc(TWO_FULL).1)
  {
    var run := [SetCapacityOp(15)] + [FreeOp(0, 10)] + [SetBlockBusyOp(0, false)];
    FirstSegmentStops();
    SecondSegmentFills();
    ReachedNext(run, MallocOp);
    run := run + [MallocOp];
    ReachedNext(run, FreeOp(10, 5));
    assert run + [FreeOp(10, 5)] == OWNED_START_RUN;
    OwnedStartComesAgain();
  }

  /** A stopped segment that obtained bytes is continued at the first byte it is missing: it
      is closed off there, and the new segment takes over its whole gap. */
  lemma StoppedIsContinued(st: State)
    requires Inv(st) && st.segs != []
    requires var seg := st.segs[Widest(st.segs, st.capacity, |st.segs|)]; !seg.busy && seg.length > 0
    ensures var k, c, (t, r) := Widest(st.segs, st.capacity, |st.segs|), st.capacity, Malloc(st);
      && |t.segs| == |st.segs| + 1
      && r == End(st.segs, k) && t.segs[k] == st.segs[k] && t.segs[k + 1] == Segment(r, 0, true)
      && Gap(t.segs, c, k) == 0 && Gap(t.segs, c, k + 1) == Gap(st.segs, c, k)
  {
    var k := Widest(st.segs, st.capacity, |st.segs|);
    InsertSplitsGap(st.segs, st.capacity, k, Segment(End(st.segs, k), 0, true));
  }

  /** Two calls in a row hand out the same start. */
  ghost predicate HandsTwice(st: State)
    requires Inv(st)
  {
    MallocKeepsInv(st);
    Hands(st) && Hands(Malloc(st).0) && Malloc(Malloc(st).0).1 == Malloc(st).1
  }

  /** Handing out room closes no gap for good. */
  lemma OpenAfterMalloc(st: State)
    requires Inv(st) && Hands(st) && !AllGapsClosed(st.segs, st.capacity)
    ensures !AllGapsClosed(Malloc(st).0.segs, st.capacity)
  {
    var s, c, t := st.segs, st.capacity, Malloc(st).0;
    var k := Widest(s, c, |s|);
    if !Resumable(s[k]) {
      WidestIsFirstMaximum(s, c, |s|);
      InsertSplitsGap(s, c, k, t.segs[k + 1]);
      assert t.segs == Inserted(s, k + 1, t.segs[k + 1]);
      assert 0 < Gap(s, c, k) == Gap(t.segs, c, k) + Gap(t.segs, c, k + 1);
    }
  }

  /** With an open gap, the same start comes twice exactly when it is a resumed one. */
  lemma OpenHandsTwiceIff(st: State)
    requires Inv(st) && Hands(st) && !AllGapsClosed(st.segs, st.capacity)
    ensures HandsTwice(st) <==> Resumable(st.segs[Widest(st.segs, st.capacity, |st.segs|)])
  {
    var t, k := Malloc(st).0, Widest(st.segs, st.capacity, |st.segs|);
    MallocKeepsInv(st);
    OpenAfterMalloc(st);
    if !Resumable(st.segs[k]) && Hands(t) && Malloc(t).1 == Malloc(st).1 {
      MallocGivesNoOwnedStart(t, k + 1);
    }
  }

  /** With every gap closed and the first segment stopped, malloc hands out the end of that
      segment, and the state stays of that kind. */
  lemma ClosedMalloc(st: State)
    requires Inv(st) && st.segs != [] && AllGapsClosed(st.segs, st.capacity)
    ensures Hands(st) <==> !st.segs[0].busy
    ensures !st.segs[0].busy ==>
      var (t, r) := Malloc(st);
      && r == st.segs[0].length && AllGapsClosed(t.segs, st.capacity) && t.capacity == st.capacity
      && t.segs != [] && t.segs[0] == st.segs[0]
      && |t.segs| == |st.segs| + if st.segs[0].length > 0 then 1 else 0
  {
    var s, c := st.segs, st.capacity;
    WidestIsFirstMaximum(s, c, |s|);
    var k := Widest(s, c, |s|);
    assert Gap(s, c, 0) == 0 && Gap(s, c, k) == 0;
    assert k == 0;
    if !s[0].busy {
      InsertKeepsClosed(s, c, 0, End(s, 0));
    }
  }

  /** Two calls in a row hand out the same start exactly when the segment chosen is stopped and
      has obtained nothing, or every gap is closed and the first segment is stopped. */
  lemma HandsTwiceIff(st: State)
    requires Inv(st) && Hands(st)
    ensures HandsTwice(st) <==>
            || Resumable(st.segs[Widest(st.segs, st.capacity, |st.segs|)])
            || (AllGapsClosed(st.segs, st.capacity) && !st.segs[0].busy)
  {
    if AllGapsClosed(st.segs, st.capacity) {
      ClosedMalloc(st);
      MallocKeepsInv(st);
      ClosedMalloc(Malloc(st).0);
    } else {
      OpenHandsTwiceIff(st);
    }
  }

  /** Marking a start busy when it has been handed out. */
  function Marked(st: State): (u: State)
    requires Inv(st)
    ensures Inv(u)
  {
    MallocKeepsInv(st);
    var (t, r) := Malloc(st);
    FlagsKeepInv(t, SetBlockBusy(t, r, true));
    SetBlockBusy(t, r, true)
  }

  lemma FlagsKeepGaps(t: State, start: nat)
    requires |t.rows| == |t.segs|
    ensures var u := SetBlockBusy(t, start, true);
      && |u.segs| == |t.segs| && u.capacity == t.capacity
      && (AllGapsClosed(u.segs, u.capacity) <==> AllGapsClosed(t.segs, t.capacity))
  {
    var u := SetBlockBusy(t, start, true);
    assert forall i :: 0 <= i < |t.segs| ==> Gap(u.segs, u.capacity, i) == Gap(t.segs, t.capacity, i);
  }

  lemma MarkedKeepsGaps(st: State)
    requires Inv(st)
    ensures var t, u := Malloc(st).0, Marked(st);
      && u.capacity == t.capacity && |u.segs| == |t.segs|
      && (AllGapsClosed(u.segs, u.capacity) <==> AllGapsClosed(t.segs, t.capacity))
  {
    MallocKeepsInv(st);
    FlagsKeepGaps(Malloc(st).0, Malloc(st).1);
  }

  /** With an open gap, a start that was marked is not handed out by the next malloc. */
  lemma OpenMarkedIsKept(st: State)
    requires Inv(st) && Hands(st) && !AllGapsClosed(st.segs, st.capacity)
    ensures Hands(Marked(st)) ==> Malloc(Marked(st)).1 != Malloc(st).1
  {
    var s, c, t, u := st.segs, st.capacity, Malloc(st).0, Marked(st);
    var k := Widest(s, c, |s|);
    MallocKeepsInv(st);
    MarkedKeepsGaps(st);
    OpenAfterMalloc(st);
    var at := if Resumable(s[k]) then k else k + 1;
    assert u.segs[at].busy && u.segs[at].start == Malloc(st).1;
    if Hands(u) && Malloc(u).1 == Malloc(st).1 {
      MallocGivesNoOwnedStart(u, at);
    }
  }

  /** Marking what was handed out prevents the repeat, except where every gap is closed and the
      first segment is stopped with bytes obtained. */
  lemma MarkedHandsTwiceIff(st: State)
    requires Inv(st) && Hands(st)
    ensures Hands(Marked(st)) && Malloc(Marked(st)).1 == Malloc(st).1 <==>
            AllGapsClosed(st.segs, st.capacity) && !st.segs[0].busy && st.segs[0].length > 0
  {
    if AllGapsClosed(st.segs, st.capacity) {
      ClosedMalloc(st);
      MallocKeepsInv(st);
      MarkedKeepsGaps(st);
      ClosedMalloc(Marked(st));
    } else {
      OpenMarkedIsKept(st);
    }
  }

  /** The answer 0 means "nothing left" except when the first segment, stopped before it
      obtained a byte, is the one to resume. */
  lemma NullAnswer(st: State)
    requires Inv(st) && st.segs != []
    ensures var s, c := st.segs, st.capacity;
      var k := Widest(s, c, |s|);
      Malloc(st).1 == 0 <==> (Gap(s, c, k) <= 102400 && s[k].busy) || (k == 0 && Resumable(s[0]))
  {
    var s, c := st.segs, st.capacity;
    WidestIsFirstMaximum(s, c, |s|);
    var k := Widest(s, c, |s|);
    assert 0 <= Gap(s, c, k);
    assert AllGapsClosed(s, c) ==> Gap(s, c, 0) == Gap(s, c, k) == 0;
  }

  /** The answer of a free is all or nothing. It is the number of bytes taken in exactly when
      the free was not cut short, or found its gap already closed; a free cut short at an
      open gap takes that gap in and answers 0. */
  lemma FreeAnswer(st: State, start: nat, size: nat)
    requires Inv(st) && FirstAt(st.segs, start) < |st.segs|
    ensures var i := FirstAt(st.segs, start);
      var gap, (t, r) := Gap(st.segs, st.capacity, i), Free(st, start, size);
      var taken := t.segs[i].length - st.segs[i].length;
      && taken == (if size <= gap then size else gap)
      && r == (if size <= gap then size else 0)
      && (r == taken <==> size <= gap || gap == 0)
  {
    assert 0 <= Gap(st.segs, st.capacity, FirstAt(st.segs, start));
  }

  /** The documented partial answer, between 0 and the size, does not occur. */
  lemma FreeCutShortAnswersZero()
    ensures var st := State(10, [Segment(0, 0, true)], [Row(0, 0, true, 0)]);
      Inv(st) && Free(st, 0, 25).0.segs == [Segment(0, 10, true)] && Free(st, 0, 25).1 == 0
  {
    var st := State(10, [Segment(0, 0, true)], [Row(0, 0, true, 0)]);
    assert FirstAt(st.segs, 0) == 0;
  }
}
