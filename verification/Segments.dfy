/** The download-segment allocator as a state machine: a list of segments over [0, capacity),
    the table of rows that mirrors it, and one transition per operation. */
module Segments {

  /** A segment starts at `start` (SP) and has obtained `length` bytes (CP); it is busy while
      it has an owner. */
  datatype Segment = Segment(start: nat, length: nat, busy: bool)

  /** The columns of a row the allocator writes. */
  datatype Row = Row(segId: nat, startOffset: nat, status: bool, obtained: nat)

  datatype State = State(capacity: nat, segs: seq<Segment>, rows: seq<Row>)

  const MM_NULL: nat := 0
  const MM_NOT_EXIST: nat := 0xffff_ffff_ffff_ffff
  const MIN_SPLIT: nat := 100 * 1024

  function End(s: seq<Segment>, i: nat): nat
    requires i < |s|
  {
    s[i].start + s[i].length
  }

  /** Where segment i has to stop: the next start, or the capacity. */
  function Limit(s: seq<Segment>, capacity: nat, i: nat): nat
    requires i < |s|
  {
    if i + 1 < |s| then s[i + 1].start else capacity
  }

  function Gap(s: seq<Segment>, capacity: nat, i: nat): int
    requires i < |s|
  {
    Limit(s, capacity, i) - End(s, i)
  }

  /** Segments start at 0 and never run into the next one or past the capacity. */
  ghost predicate Ordered(s: seq<Segment>, capacity: nat) {
    && (|s| > 0 ==> s[0].start == 0)
    && forall i :: 0 <= i < |s| ==> 0 <= Gap(s, capacity, i)
  }

  ghost predicate Mirrored(s: seq<Segment>, rows: seq<Row>) {
    |rows| == |s| &&
    forall i :: 0 <= i < |s| ==>
      rows[i].segId == rows[i].startOffset == s[i].start && rows[i].obtained == s[i].length
  }

  ghost predicate AllGapsClosed(s: seq<Segment>, capacity: nat) {
    forall i :: 0 <= i < |s| ==> Gap(s, capacity, i) == 0
  }

  ghost predicate DistinctStarts(s: seq<Segment>) {
    forall i, j :: 0 <= i < j < |s| ==> s[i].start < s[j].start
  }

  ghost predicate Inv(st: State) {
    && Ordered(st.segs, st.capacity)
    && Mirrored(st.segs, st.rows)
    && (DistinctStarts(st.segs) || AllGapsClosed(st.segs, st.capacity))
  }

  // ----- transitions -----

  /** The first of the widest gaps among the first n segments; 0 if none is open. */
  function Widest(s: seq<Segment>, capacity: nat, n: nat): (k: nat)
    requires n <= |s|
    ensures n > 0 ==> k < n
  {
    if n <= 1 then 0
    else
      var k := Widest(s, capacity, n - 1);
      if Gap(s, capacity, n - 1) > Gap(s, capacity, k) then n - 1 else k
  }

  function Inserted<T>(s: seq<T>, at: nat, x: T): seq<T>
    requires at <= |s|
  {
    s[..at] + [x] + s[at..]
  }

  lemma InsertedAt<T>(s: seq<T>, at: nat, x: T, i: nat)
    requires at <= |s| && i < |s|
    ensures |Inserted(s, at, x)| == |s| + 1
    ensures Inserted(s, at, x)[if i < at then i else i + 1] == s[i]
  {
  }

  /** An owned segment keeps the first half of its gap, a stopped one gives all of it. */
  function NewStart(s: seq<Segment>, capacity: nat, k: nat): (start: nat)
    requires k < |s| && Ordered(s, capacity)
    ensures End(s, k) <= start <= Limit(s, capacity, k)
  {
    assert 0 <= Gap(s, capacity, k);
    if s[k].busy then Limit(s, capacity, k) - Gap(s, capacity, k) / 2 else End(s, k)
  }

  /** A stopped segment that obtained nothing is handed out again as it is. */
  predicate Resumable(seg: Segment) {
    !seg.busy && seg.length == 0
  }

  function SetCapacity(st: State, capacity: nat): (State, nat) {
    if st.segs != [] || capacity == 0 then (st, 0)
    else (State(capacity, [Segment(0, 0, true)], [Row(0, 0, true, 0)]), capacity)
  }

  /** A new owned segment goes after k, and its row at the same place. */
  function HandOut(st: State, k: nat, start: nat): State
    requires k < |st.segs| == |st.rows|
  {
    if Resumable(st.segs[k]) then st
    else State(st.capacity, Inserted(st.segs, k + 1, Segment(start, 0, true)),
               Inserted(st.rows, k + 1, Row(start, start, true, 0)))
  }

  function Malloc(st: State): (State, nat)
    requires Inv(st)
  {
    if st.segs == [] then
      (st, MM_NOT_EXIST)
    else
      var k := Widest(st.segs, st.capacity, |st.segs|);
      if Gap(st.segs, st.capacity, k) <= MIN_SPLIT && st.segs[k].busy then
        (st, MM_NULL)
      else
        var start := NewStart(st.segs, st.capacity, k);
        (HandOut(st, k, start), start)
  }

  /** The first segment that starts at `start`, or |s|. */
  function FirstAt(s: seq<Segment>, start: nat): (i: nat)
    ensures i <= |s| && (i < |s| ==> s[i].start == start)
    ensures forall j :: 0 <= j < i ==> s[j].start != start
  {
    if s == [] || s[0].start == start then 0 else 1 + FirstAt(s[1..], start)
  }

  /** What a free makes of the obtained length: clamped at the limit. */
  function Grown(s: seq<Segment>, capacity: nat, i: nat, size: nat): (length: nat)
    requires i < |s| && Ordered(s, capacity)
    ensures s[i].length <= length && s[i].start + length <= Limit(s, capacity, i)
  {
    assert 0 <= Gap(s, capacity, i);
    if End(s, i) + size > Limit(s, capacity, i) then Limit(s, capacity, i) - s[i].start else s[i].length + size
  }

  function Free(st: State, start: nat, size: nat): (State, nat)
    requires Inv(st) && FirstAt(st.segs, start) < |st.segs|
  {
    var i := FirstAt(st.segs, start);
    var length := Grown(st.segs, st.capacity, i, size);
    (st.(segs := st.segs[i := st.segs[i].(length := length)],
         rows := st.rows[i := st.rows[i].(obtained := length)]),
     if End(st.segs, i) + size > Limit(st.segs, st.capacity, i) then 0 else size)
  }

  function Release(st: State, start: nat): State {
    var i := FirstAt(st.segs, start);
    if i < |st.segs| then st.(segs := st.segs[i := st.segs[i].(busy := false)]) else st
  }

  function SetBlockBusy(st: State, start: nat, busy: bool): State
    requires |st.rows| == |st.segs|
  {
    st.(segs := seq(|st.segs|, i requires 0 <= i < |st.segs| =>
                      if st.segs[i].start == start then st.segs[i].(busy := busy) else st.segs[i]),
        rows := seq(|st.rows|, i requires 0 <= i < |st.segs| == |st.rows| =>
                      if st.segs[i].start == start then st.rows[i].(status := busy) else st.rows[i]))
  }

  // ----- what the transitions keep -----

  lemma {:induction false} WidestIsFirstMaximum(s: seq<Segment>, capacity: nat, n: nat)
    requires 0 < n <= |s|
    ensures var k := Widest(s, capacity, n);
      (forall j :: 0 <= j < n ==> Gap(s, capacity, j) <= Gap(s, capacity, k)) &&
      (forall j :: 0 <= j < k ==> Gap(s, capacity, j) < Gap(s, capacity, k))
  {
    if n > 1 {
      WidestIsFirstMaximum(s, capacity, n - 1);
    }
  }

  /** A segment inserted after k, inside k's gap, splits that gap and no other. */
  lemma InsertSplitsGap(s: seq<Segment>, capacity: nat, k: nat, seg: Segment)
    requires k < |s|
    ensures var t := Inserted(s, k + 1, seg);
      |t| == |s| + 1 && t[k + 1] == seg &&
      (forall i :: 0 <= i <= k ==> t[i] == s[i]) &&
      (forall i :: k + 1 < i < |t| ==> t[i] == s[i - 1]) &&
      (forall i :: 0 <= i < k ==> Gap(t, capacity, i) == Gap(s, capacity, i)) &&
      Gap(t, capacity, k) == seg.start - End(s, k) &&
      Gap(t, capacity, k + 1) == Limit(s, capacity, k) - seg.start - seg.length &&
      (forall i :: k + 1 < i < |t| ==> Gap(t, capacity, i) == Gap(s, capacity, i - 1))
  {
  }

  lemma InsertKeepsOrdered(s: seq<Segment>, capacity: nat, k: nat, start: nat)
    requires Ordered(s, capacity) && k < |s| && End(s, k) <= start <= Limit(s, capacity, k)
    ensures Ordered(Inserted(s, k + 1, Segment(start, 0, true)), capacity)
  {
    InsertSplitsGap(s, capacity, k, Segment(start, 0, true));
  }

  /** Strictly between its neighbours, a new start keeps the starts distinct. */
  lemma InsertKeepsStarts(s: seq<Segment>, k: nat, start: nat)
    requires DistinctStarts(s) && k < |s| && s[k].start < start && (k + 1 < |s| ==> start < s[k + 1].start)
    ensures DistinctStarts(Inserted(s, k + 1, Segment(start, 0, true)))
  {
    var t := Inserted(s, k + 1, Segment(start, 0, true));
    forall i, j | 0 <= i < j < |t|
      ensures t[i].start < t[j].start
    {
      assert i <= k ==> t[i] == s[i] && t[i].start <= s[k].start;
      assert k + 1 < j ==> t[j] == s[j - 1] && s[k + 1].start <= t[j].start;
    }
  }

  lemma InsertKeepsMirrored(s: seq<Segment>, rows: seq<Row>, at: nat, start: nat)
    requires Mirrored(s, rows) && at <= |s|
    ensures Mirrored(Inserted(s, at, Segment(start, 0, true)), Inserted(rows, at, Row(start, start, true, 0)))
  {
    var t, u := Inserted(s, at, Segment(start, 0, true)), Inserted(rows, at, Row(start, start, true, 0));
    forall i | 0 <= i < |t|
      ensures u[i].segId == u[i].startOffset == t[i].start && u[i].obtained == t[i].length
    {
      if i < at {
        assert t[i] == s[i] && u[i] == rows[i];
      } else if i > at {
        assert t[i] == s[i - 1] && u[i] == rows[i - 1];
      }
    }
  }

  lemma InsertKeepsClosed(s: seq<Segment>, capacity: nat, k: nat, start: nat)
    requires AllGapsClosed(s, capacity) && k < |s| && start == End(s, k)
    ensures AllGapsClosed(Inserted(s, k + 1, Segment(start, 0, true)), capacity)
  {
    assert Gap(s, capacity, k) == 0;
    InsertSplitsGap(s, capacity, k, Segment(start, 0, true));
  }

  lemma MallocKeepsStarts(st: State, k: nat)
    requires Inv(st) && k < |st.segs| && k == Widest(st.segs, st.capacity, |st.segs|)
    requires !Resumable(st.segs[k]) && (Gap(st.segs, st.capacity, k) > MIN_SPLIT || !st.segs[k].busy)
    ensures var t := Inserted(st.segs, k + 1, Segment(NewStart(st.segs, st.capacity, k), 0, true));
      DistinctStarts(t) || AllGapsClosed(t, st.capacity)
  {
    var s, c := st.segs, st.capacity;
    WidestIsFirstMaximum(s, c, |s|);
    assert 0 <= Gap(s, c, k);
    if Gap(s, c, k) == 0 {
      assert forall i :: 0 <= i < |s| ==> 0 <= Gap(s, c, i) <= Gap(s, c, k);
      InsertKeepsClosed(s, c, k, NewStart(s, c, k));
    } else {
      assert !AllGapsClosed(s, c);
      InsertKeepsStarts(s, k, NewStart(s, c, k));
    }
  }

  lemma MallocKeepsInv(st: State)
    requires Inv(st)
    ensures Inv(Malloc(st).0)
  {
    if st.segs != [] && Malloc(st).0 != st {
      var k := Widest(st.segs, st.capacity, |st.segs|);
      var start := NewStart(st.segs, st.capacity, k);
      assert Malloc(st).0 == HandOut(st, k, start);
      InsertKeepsOrdered(st.segs, st.capacity, k, start);
      InsertKeepsMirrored(st.segs, st.rows, k + 1, start);
      MallocKeepsStarts(st, k);
    }
  }

  lemma FreeKeepsInv(st: State, start: nat, size: nat)
    requires Inv(st) && FirstAt(st.segs, start) < |st.segs|
    ensures Inv(Free(st, start, size).0)
  {
    var s, c, t := st.segs, st.capacity, Free(st, start, size).0.segs;
    forall i | 0 <= i < |s|
      ensures t[i].start == s[i].start && 0 <= Gap(t, c, i) <= Gap(s, c, i)
    {
      assert 0 <= Gap(s, c, i);
    }
  }

  lemma FlagsKeepInv(st: State, t: State)
    requires Inv(st) && t.capacity == st.capacity && |t.segs| == |st.segs| == |t.rows|
    requires forall i :: 0 <= i < |st.segs| ==>
      t.segs[i].start == st.segs[i].start && t.segs[i].length == st.segs[i].length &&
      t.rows[i].segId == st.rows[i].segId && t.rows[i].startOffset == st.rows[i].startOffset &&
      t.rows[i].obtained == st.rows[i].obtained
    ensures Inv(t)
  {
    assert forall i :: 0 <= i < |t.segs| ==> Gap(t.segs, t.capacity, i) == Gap(st.segs, st.capacity, i);
  }

  // ----- conservation -----

  ghost function Obtained(s: seq<Segment>): nat {
    if s == [] then 0 else s[0].length + Obtained(s[1..])
  }

  ghost function OpenGaps(s: seq<Segment>, capacity: nat): int {
    if s == [] then 0 else Gap(s, capacity, 0) + OpenGaps(s[1..], capacity)
  }

  /** Obtained bytes and open gaps add up to what lies between the first start and the
      capacity, whatever the list. */
  lemma {:induction false} Conservation(s: seq<Segment>, capacity: nat)
    requires s != []
    ensures Obtained(s) + OpenGaps(s, capacity) == capacity - s[0].start
  {
    if |s| > 1 {
      Conservation(s[1..], capacity);
    }
  }

  lemma {:induction false} GapsClosedIffSumZero(s: seq<Segment>, capacity: nat)
    requires forall i :: 0 <= i < |s| ==> 0 <= Gap(s, capacity, i)
    ensures 0 <= OpenGaps(s, capacity)
    ensures AllGapsClosed(s, capacity) <==> OpenGaps(s, capacity) == 0
  {
    if s != [] {
      var t := s[1..];
      assert forall i :: 0 <= i < |t| ==> Gap(t, capacity, i) == Gap(s, capacity, i + 1);
      GapsClosedIffSumZero(t, capacity);
      assert AllGapsClosed(s, capacity) <==> Gap(s, capacity, 0) == 0 && AllGapsClosed(t, capacity) by {
        if Gap(s, capacity, 0) == 0 && AllGapsClosed(t, capacity) {
          forall i | 0 <= i < |s|
            ensures Gap(s, capacity, i) == 0
          {
            assert i > 0 ==> Gap(t, capacity, i - 1) == 0;
          }
        }
      }
    }
  }

  /** The gaps are all closed exactly when the obtained lengths sum to the capacity. */
  lemma ClosedIffAllObtained(s: seq<Segment>, capacity: nat)
    requires s != [] && Ordered(s, capacity)
    ensures AllGapsClosed(s, capacity) <==> Obtained(s) == capacity
  {
    Conservation(s, capacity);
    GapsClosedIffSumZero(s, capacity);
  }

  lemma {:induction false} ObtainedConcat(a: seq<Segment>, b: seq<Segment>)
    ensures Obtained(a + b) == Obtained(a) + Obtained(b)
  {
    if a == [] {
      assert a + b == b;
    } else {
      assert (a + b)[1..] == a[1..] + b;
      ObtainedConcat(a[1..], b);
    }
  }

  /** Malloc hands out room but obtains nothing. */
  lemma MallocKeepsObtained(st: State)
    requires Inv(st)
    ensures Obtained(Malloc(st).0.segs) == Obtained(st.segs)
  {
    if st.segs != [] && Malloc(st).0 != st {
      var k := Widest(st.segs, st.capacity, |st.segs|);
      var a, b, seg := st.segs[..k + 1], st.segs[k + 1..], Malloc(st).0.segs[k + 1];
      ObtainedConcat(a + [seg], b);
      ObtainedConcat(a, [seg]);
      ObtainedConcat(a, b);
      assert a + b == st.segs;
    }
  }

  lemma ObtainedUpdate(s: seq<Segment>, i: nat, seg: Segment)
    requires i < |s|
    ensures Obtained(s[i := seg]) == Obtained(s) - s[i].length + seg.length
  {
    var a, b := s[..i], s[i + 1..];
    assert s == a + ([s[i]] + b) && s[i := seg] == a + ([seg] + b);
    ObtainedConcat(a, [s[i]] + b);
    ObtainedConcat(a, [seg] + b);
    ObtainedConcat([s[i]], b);
    ObtainedConcat([seg], b);
  }

  lemma {:induction false} ObtainedByLengths(s: seq<Segment>, t: seq<Segment>)
    requires |s| == |t| && forall i :: 0 <= i < |s| ==> s[i].length == t[i].length
    ensures Obtained(s) == Obtained(t)
  {
    if s != [] {
      ObtainedByLengths(s[1..], t[1..]);
    }
  }

  // ----- the bubble pass -----

  function SwapNext(s: seq<Segment>, i: nat): (t: seq<Segment>)
    requires i + 1 < |s|
    ensures |t| == |s|
  {
    s[..i] + [s[i + 1], s[i]] + s[i + 2..]
  }

  function BubblePass(s: seq<Segment>, n: nat): (t: seq<Segment>)
    requires n == 0 || n < |s|
    ensures |t| == |s|
  {
    if n == 0 then s
    else
      var t := BubblePass(s, n - 1);
      if t[n - 1].start > t[n].start then SwapNext(t, n - 1) else t
  }

  /** One pass over the whole list. */
  function Sorted(s: seq<Segment>): seq<Segment> {
    BubblePass(s, if |s| == 0 then 0 else |s| - 1)
  }

  lemma SwapPermutes(s: seq<Segment>, i: nat)
    requires i + 1 < |s|
    ensures multiset(SwapNext(s, i)) == multiset(s)
  {
    assert s == s[..i] + [s[i], s[i + 1]] + s[i + 2..];
  }

  /** A pass loses no segment and changes none. */
  lemma {:induction false} PassPermutes(s: seq<Segment>, n: nat)
    requires n == 0 || n < |s|
    ensures multiset(BubblePass(s, n)) == multiset(s)
  {
    if n > 0 {
      PassPermutes(s, n - 1);
      SwapPermutes(BubblePass(s, n - 1), n - 1);
    }
  }

  /** A pass carries a largest start to where it ends: one pass alone does not sort. */
  lemma {:induction false} BubblePassCarriesMaximum(s: seq<Segment>, n: nat)
    requires n < |s|
    ensures forall j :: 0 <= j <= n ==> BubblePass(s, n)[j].start <= BubblePass(s, n)[n].start
  {
    if n > 0 {
      BubblePassCarriesMaximum(s, n - 1);
    }
  }

  /** In a valid list no pair is out of order, so the pass swaps nothing and the rows keep
      matching. */
  lemma SortedKeeps(s: seq<Segment>, capacity: nat)
    requires Ordered(s, capacity)
    ensures Sorted(s) == s
  {
    if s != [] {
      PassKeeps(s, capacity, |s| - 1);
    }
  }

  lemma {:induction false} PassKeeps(s: seq<Segment>, capacity: nat, n: nat)
    requires Ordered(s, capacity) && n < |s|
    ensures BubblePass(s, n) == s
  {
    if n > 0 {
      PassKeeps(s, capacity, n - 1);
      assert 0 <= Gap(s, capacity, n - 1);
    }
  }

  /** The largest start among the first n + 1 segments. */
  function MaxStart(s: seq<Segment>, n: nat): (m: nat)
    requires n < |s|
    ensures forall j :: 0 <= j <= n ==> s[j].start <= m
    ensures exists j :: 0 <= j <= n && s[j].start == m
  {
    if n == 0 then s[0].start
    else if MaxStart(s, n - 1) > s[n].start then MaxStart(s, n - 1) else s[n].start
  }

  /** What a pass leaves at each place: behind its end the smaller of the largest start so far
      and the next start, at its end the largest start, beyond it the old segment. */
  lemma {:induction false} PassAt(s: seq<Segment>, n: nat, j: nat)
    requires n < |s| && j < |s|
    ensures n < j ==> BubblePass(s, n)[j] == s[j]
    ensures j == n ==> BubblePass(s, n)[j].start == MaxStart(s, n)
    ensures j < n ==> BubblePass(s, n)[j].start ==
                      if MaxStart(s, j) > s[j + 1].start then s[j + 1].start else MaxStart(s, j)
  {
    if n > 0 {
      PassAt(s, n - 1, n - 1);
      PassAt(s, n - 1, n);
      PassAt(s, n - 1, j);
    }
  }

  ghost predicate Ascending(s: seq<Segment>) {
    forall i :: 0 <= i < |s| - 1 ==> s[i].start <= s[i + 1].start
  }

  /** Two segments before c start strictly after it. */
  ghost predicate TwoLargerBefore(s: seq<Segment>, a: int, b: int, c: int) {
    0 <= a < b < c < |s| && s[a].start > s[c].start && s[b].start > s[c].start
  }

  lemma {:induction false} AscendingFar(s: seq<Segment>, i: nat, j: nat)
    requires Ascending(s) && i <= j < |s|
    ensures s[i].start <= s[j].start
  {
    if i < j {
      AscendingFar(s, i, j - 1);
    }
  }

  /** One pass sorts a list exactly when no segment has two before it that start strictly
      after it. */
  lemma OnePassSortsIff(s: seq<Segment>)
    ensures Ascending(Sorted(s)) <==> forall a, b, c :: !TwoLargerBefore(s, a, b, c)
  {
    if forall a, b, c :: !TwoLargerBefore(s, a, b, c) {
      OnePassSorts(s);
    }
    forall a, b, c | TwoLargerBefore(s, a, b, c)
      ensures !Ascending(Sorted(s))
    {
      TwoLargerStay(s, a, b, c);
    }
  }

  lemma OnePassSorts(s: seq<Segment>)
    requires forall a, b, c :: !TwoLargerBefore(s, a, b, c)
    ensures Ascending(Sorted(s))
  {
    var t := Sorted(s);
    forall i | 0 <= i < |t| - 1
      ensures t[i].start <= t[i + 1].start
    {
      PassAt(s, |s| - 1, i);
      PassAt(s, |s| - 1, i + 1);
      if i + 2 < |s| {
        var a :| 0 <= a <= i && s[a].start == MaxStart(s, i);
        assert !TwoLargerBefore(s, a, i + 1, i + 2);
      }
    }
  }

  lemma LargerStays(s: seq<Segment>, a: nat, b: nat, x: nat)
    requires a < b < |s| && s[a].start > x && s[b].start > x
    ensures Sorted(s)[b - 1].start > x
  {
    PassAt(s, |s| - 1, b - 1);
  }

  lemma TwoLargerStay(s: seq<Segment>, a: int, b: int, c: int)
    requires TwoLargerBefore(s, a, b, c)
    ensures Sorted(s)[b - 1].start > Sorted(s)[c - 1].start
    ensures !Ascending(Sorted(s))
  {
    LargerStays(s, a, b, s[c].start);
    PassAt(s, |s| - 1, c - 1);
    if Ascending(Sorted(s)) {
      AscendingFar(Sorted(s), b - 1, c - 1);
    }
  }
}
