/** Whole runs of the segment allocator: from an empty model through any sequence of its
    operations. */
module SegmentRuns {
  import opened Segments

  /** Bytes [from, to) taken in by one free. */
  datatype Bytes = Bytes(from: nat, to: nat)

  datatype Op =
    | SetCapacityOp(capacity: nat)
    | MallocOp
    | FreeOp(start: nat, size: nat)
    | ReleaseOp(start: nat)
    | SetBlockBusyOp(start: nat, busy: bool)

  function Step(st: State, op: Op): (t: State)
    requires Inv(st)
    ensures Inv(t)
  {
    match op
    case SetCapacityOp(capacity) => SetCapacity(st, capacity).0
    case MallocOp => MallocKeepsInv(st); Malloc(st).0
    case FreeOp(start, size) =>
      if FirstAt(st.segs, start) < |st.segs| then FreeKeepsInv(st, start, size); Free(st, start, size).0 else st
    case ReleaseOp(start) => FlagsKeepInv(st, Release(st, start)); Release(st, start)
    case SetBlockBusyOp(start, busy) => FlagsKeepInv(st, SetBlockBusy(st, start, busy)); SetBlockBusy(st, start, busy)
  }

  /** The bytes an operation obtains: what a free adds to its segment. */
  function Taken(st: State, op: Op): seq<Bytes>
    requires Inv(st)
  {
    match op
    case FreeOp(start, size) =>
      var i := FirstAt(st.segs, start);
      if i < |st.segs| then [Bytes(End(st.segs, i), st.segs[i].start + Grown(st.segs, st.capacity, i, size))] else []
    case _ => []
  }

  function Reached(ops: seq<Op>): (st: State)
    ensures Inv(st)
  {
    if ops == [] then State(0, [], []) else Step(Reached(ops[..|ops| - 1]), ops[|ops| - 1])
  }

  lemma ReachedNext(ops: seq<Op>, op: Op)
    ensures Reached(ops + [op]) == Step(Reached(ops), op)
  {
    assert (ops + [op])[..|ops|] == ops;
  }

  function Log(ops: seq<Op>): seq<Bytes> {
    if ops == [] then [] else Log(ops[..|ops| - 1]) + Taken(Reached(ops[..|ops| - 1]), ops[|ops| - 1])
  }

  function Total(log: seq<Bytes>): int {
    if log == [] then 0 else Total(log[..|log| - 1]) + log[|log| - 1].to - log[|log| - 1].from
  }

  ghost predicate Apart(a: Bytes, b: Bytes) {
    a.to <= b.from || b.to <= a.from
  }

  ghost predicate PairwiseApart(log: seq<Bytes>) {
    forall i, j :: 0 <= i < j < |log| ==> Apart(log[i], log[j])
  }

  ghost predicate Inside(s: seq<Segment>, b: Bytes, i: nat) {
    i < |s| && s[i].start <= b.from <= b.to <= End(s, i)
  }

  /** Every range of the log lies in what some segment has obtained. */
  ghost predicate Covered(s: seq<Segment>, log: seq<Bytes>) {
    forall b :: b in log ==> exists i :: Inside(s, b, i)
  }

  lemma {:induction false} EarlierEndsBefore(s: seq<Segment>, capacity: nat, i: nat, j: nat)
    requires Ordered(s, capacity) && i < j < |s|
    ensures Limit(s, capacity, i) <= s[j].start && End(s, i) <= s[j].start
  {
    assert 0 <= Gap(s, capacity, i) && 0 <= Gap(s, capacity, j - 1);
    if i + 1 < j {
      EarlierEndsBefore(s, capacity, i, j - 1);
    }
  }

  lemma {:induction false} EndsWithinCapacity(s: seq<Segment>, capacity: nat, i: nat)
    requires Ordered(s, capacity) && i < |s|
    ensures End(s, i) <= Limit(s, capacity, i) <= capacity
    decreases |s| - i
  {
    assert 0 <= Gap(s, capacity, i);
    if i + 1 < |s| {
      EndsWithinCapacity(s, capacity, i + 1);
    }
  }

  lemma TakenIsFresh(st: State, start: nat, size: nat, b: Bytes, j: nat)
    requires Inv(st) && FirstAt(st.segs, start) < |st.segs| && Inside(st.segs, b, j)
    ensures Apart(b, Taken(st, FreeOp(start, size))[0])
  {
    var i := FirstAt(st.segs, start);
    if j < i {
      EarlierEndsBefore(st.segs, st.capacity, j, i);
    } else if i < j {
      EarlierEndsBefore(st.segs, st.capacity, i, j);
    }
  }

  /** Segment i is still there at j, having lost nothing. */
  ghost predicate Kept(s: seq<Segment>, t: seq<Segment>, i: nat, j: nat) {
    i < |s| && j < |t| && t[j].start == s[i].start && s[i].length <= t[j].length
  }

  /** Where a step leaves the i-th segment: one place on if a new one went in before it. */
  function PlaceAfter(st: State, op: Op, i: nat): nat
    requires Inv(st) && i < |st.segs|
  {
    if op.MallocOp? && Malloc(st).0 != st && Widest(st.segs, st.capacity, |st.segs|) < i then i + 1 else i
  }

  lemma MallocKeepsSegment(st: State, i: nat)
    requires Inv(st) && i < |st.segs|
    ensures PlaceAfter(st, MallocOp, i) < |Malloc(st).0.segs|
    ensures Malloc(st).0.segs[PlaceAfter(st, MallocOp, i)] == st.segs[i]
  {
    var k := Widest(st.segs, st.capacity, |st.segs|);
    if Malloc(st).0 != st {
      var start := NewStart(st.segs, st.capacity, k);
      assert Malloc(st).0 == HandOut(st, k, start);
      InsertedAt(st.segs, k + 1, Segment(start, 0, true), i);
    }
  }

  lemma StepKeepsSegment(st: State, op: Op, i: nat)
    requires Inv(st) && i < |st.segs|
    ensures Kept(st.segs, Step(st, op).segs, i, PlaceAfter(st, op, i))
  {
    if op.MallocOp? {
      MallocKeepsSegment(st, i);
    }
  }

  /** No step loses a segment or what it has obtained: each old segment keeps a place of its
      own, in the same order. */
  lemma StepKeepsSegments(st: State, op: Op)
    requires Inv(st)
    ensures |st.segs| <= |Step(st, op).segs|
    ensures st.segs != [] ==> Step(st, op).capacity == st.capacity
    ensures forall i: nat :: i < |st.segs| ==> Kept(st.segs, Step(st, op).segs, i, PlaceAfter(st, op, i))
    ensures forall i: nat, j: nat :: i < j < |st.segs| ==> PlaceAfter(st, op, i) < PlaceAfter(st, op, j)
  {
    forall i: nat | i < |st.segs|
      ensures Kept(st.segs, Step(st, op).segs, i, PlaceAfter(st, op, i))
    {
      StepKeepsSegment(st, op, i);
    }
    if st.segs != [] {
      assert Kept(st.segs, Step(st, op).segs, |st.segs| - 1, PlaceAfter(st, op, |st.segs| - 1));
      assert |st.segs| - 1 <= PlaceAfter(st, op, |st.segs| - 1);
    }
  }

  lemma StepKeepsCovered(st: State, op: Op, log: seq<Bytes>)
    requires Inv(st) && Covered(st.segs, log)
    ensures Covered(Step(st, op).segs, log + Taken(st, op))
  {
    var t := Step(st, op).segs;
    forall b | b in log + Taken(st, op)
      ensures exists i :: Inside(t, b, i)
    {
      if b in log {
        var i :| Inside(st.segs, b, i);
        StepKeepsSegment(st, op, i);
        assert Inside(t, b, PlaceAfter(st, op, i));
      } else {
        assert Inside(t, b, FirstAt(st.segs, op.start));
      }
    }
  }

  lemma StepAccounts(st: State, op: Op)
    requires Inv(st)
    ensures Obtained(Step(st, op).segs) == Obtained(st.segs) + Total(Taken(st, op))
  {
    match op
    case SetCapacityOp(capacity) =>
    case MallocOp => MallocKeepsObtained(st);
    case FreeOp(start, size) =>
      var i := FirstAt(st.segs, start);
      if i < |st.segs| {
        ObtainedUpdate(st.segs, i, Step(st, op).segs[i]);
      }
    case ReleaseOp(start) => ObtainedByLengths(st.segs, Release(st, start).segs);
    case SetBlockBusyOp(start, busy) => ObtainedByLengths(st.segs, SetBlockBusy(st, start, busy).segs);
  }

  lemma TotalConcat(a: seq<Bytes>, b: seq<Bytes>)
    requires |b| <= 1
    ensures Total(a + b) == Total(a) + Total(b)
  {
    if b == [] {
      assert a + b == a;
    } else {
      assert (a + b)[..|a|] == a;
    }
  }

  /** No byte is obtained twice: over any run the ranges taken in are pairwise disjoint and
      lie inside the capacity, and together they are what the segments say was obtained. */
  lemma {:induction false} NoByteTwice(ops: seq<Op>)
    ensures PairwiseApart(Log(ops)) && Covered(Reached(ops).segs, Log(ops))
    ensures forall b :: b in Log(ops) ==> b.from <= b.to <= Reached(ops).capacity
    ensures Total(Log(ops)) == Obtained(Reached(ops).segs)
  {
    if ops != [] {
      var before, op := ops[..|ops| - 1], ops[|ops| - 1];
      NoByteTwice(before);
      var st, log, taken := Reached(before), Log(before), Taken(Reached(before), op);
      StepAccounts(st, op);
      TotalConcat(log, taken);
      StepKeepsCovered(st, op, log);
      if taken != [] {
        forall b | b in log
          ensures Apart(b, taken[0])
        {
          var j :| Inside(st.segs, b, j);
          TakenIsFresh(st, op.start, op.size, b, j);
        }
      }
    }
    CoveredWithinCapacity(Reached(ops), Log(ops));
  }

  lemma CoveredWithinCapacity(st: State, log: seq<Bytes>)
    requires Inv(st) && Covered(st.segs, log)
    ensures forall b :: b in log ==> b.from <= b.to <= st.capacity
  {
    forall b | b in log
      ensures b.from <= b.to <= st.capacity
    {
      var i :| Inside(st.segs, b, i);
      EndsWithinCapacity(st.segs, st.capacity, i);
    }
  }

  /** Obtained lengths and open gaps sum to the capacity in every reachable state, and the
      download is complete exactly when no gap is open. */
  lemma ReachedConserves(ops: seq<Op>)
    requires Reached(ops).segs != []
    ensures var st := Reached(ops);
      Total(Log(ops)) + OpenGaps(st.segs, st.capacity) == st.capacity &&
      (AllGapsClosed(st.segs, st.capacity) <==> Total(Log(ops)) == st.capacity)
  {
    var st := Reached(ops);
    NoByteTwice(ops);
    Conservation(st.segs, st.capacity);
    ClosedIffAllObtained(st.segs, st.capacity);
  }
}
