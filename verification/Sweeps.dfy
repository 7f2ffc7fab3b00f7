/** A sweep over a table whose callback may remove or change the entry it is called with. A
    ghost log records every call, so that how often an entry is visited can be stated. */
module Sweeps {
  import opened KeyMap
  import opened Slots
  import opened Rehash

  /** What a callback does with an entry: remove it, or else give it a new value; and whether
      it then ends the sweep. A callback that leaves entries alone changes a value to itself. */
  datatype Callback<!K, !V> = Callback(drop: (K, V) -> bool, change: (K, V) -> V, stop: (K, V) -> bool)

  /** One call: the key it was made with, and the keys of visited entries that its removal, if
      it made one, carried round the array end to slots still to be visited. */
  datatype Call<!K> = Call(key: K, carried: set<K>)

  /** How often a key was called, and how often its entry was carried. */
  ghost function Calls<K>(log: seq<Call<K>>, k: K): nat {
    |CallsOf(log, k)|
  }

  ghost function Carries<K>(log: seq<Call<K>>, k: K): nat {
    |CarriesOf(log, k)|
  }

  ghost function CallsOf<K>(log: seq<Call<K>>, k: K): set<int> {
    set i | 0 <= i < |log| && log[i].key == k
  }

  ghost function CarriesOf<K>(log: seq<Call<K>>, k: K): set<int> {
    set i | 0 <= i < |log| && k in log[i].carried
  }

  /** A key is called again only after a removal carried its entry round the array end. */
  ghost predicate Paced<K>(log: seq<Call<K>>) {
    forall i :: 0 <= i < |log| ==> Calls(log[..i], log[i].key) <= Carries(log[..i], log[i].key)
  }

  /** Only a call that removed its entry carried others. */
  ghost predicate OnlyRemovalsCarry<K, V>(log: seq<Call<K>>, m: map<K, V>) {
    forall i :: 0 <= i < |log| && log[i].carried != {} ==> log[i].key !in m
  }

  /** The value of an entry after n visits that did not remove it. */
  function Visited<K, V>(c: Callback<K, V>, k: K, v: V, n: nat): V {
    if n == 0 then v else c.change(k, Visited(c, k, v, n - 1))
  }

  /** The first n visits of an entry neither removed it nor, if asked, ended the sweep. */
  ghost predicate Survives<K, V>(c: Callback<K, V>, k: K, v: V, n: nat, running: bool) {
    forall i: nat :: i < n ==>
      !c.drop(k, Visited(c, k, v, i)) && (running ==> !c.stop(k, Visited(c, k, v, i)))
  }

  /** The entry is what the calls of the log with its key made of its old value. */
  ghost predicate Stays<K, V>(c: Callback<K, V>, before: map<K, V>, log: seq<Call<K>>, k: K, w: V, running: bool) {
    && k in before && w == Visited(c, k, before[k], Calls(log, k))
    && Survives(c, k, before[k], Calls(log, k), running)
  }

  /** The last call of the log with the key removed its entry. */
  ghost predicate Goes<K, V>(c: Callback<K, V>, before: map<K, V>, log: seq<Call<K>>, k: K)
    requires k in before
  {
    && Calls(log, k) == Carries(log, k) + 1
    && Survives(c, k, before[k], Calls(log, k) - 1, true)
    && c.drop(k, Visited(c, k, before[k], Calls(log, k) - 1))
  }

  /** What the log's calls have made of the table. */
  ghost predicate Swept<K, V>(c: Callback<K, V>, before: map<K, V>, after: map<K, V>, log: seq<Call<K>>,
                              running: bool) {
    && (forall k :: k in after ==> Stays(c, before, log, k, after[k], running))
    && (forall k :: k in before && k !in after ==> Goes(c, before, log, k))
  }

  /** The last call of the log ended the sweep, and no call before it did. */
  ghost predicate StoppedByLast<K, V>(c: Callback<K, V>, before: map<K, V>, log: seq<Call<K>>) {
    && log != [] && log[|log| - 1].key in before
    && var k := log[|log| - 1].key;
       && Survives(c, k, before[k], Calls(log[..|log| - 1], k), true)
       && c.stop(k, Visited(c, k, before[k], Calls(log[..|log| - 1], k)))
  }

  /** Every key of the table has been called, once more often than it was carried round. */
  ghost predicate AllCalled<K, V>(before: map<K, V>, log: seq<Call<K>>) {
    forall k :: k in before ==> Calls(log, k) == Carries(log, k) + 1
  }

  lemma NextCall<K>(log: seq<Call<K>>, e: Call<K>, k: K)
    ensures Calls(log + [e], k) == Calls(log, k) + if e.key == k then 1 else 0
    ensures Carries(log + [e], k) == Carries(log, k) + if k in e.carried then 1 else 0
  {
    NextCallOf(log, e, k);
    NextCarryOf(log, e, k);
  }

  lemma NextCallOf<K>(log: seq<Call<K>>, e: Call<K>, k: K)
    ensures CallsOf(log + [e], k) == if e.key == k then CallsOf(log, k) + {|log|} else CallsOf(log, k)
  {
    var t := log + [e];
    forall i
      ensures i in CallsOf(t, k) <==> i in CallsOf(log, k) || (i == |log| && e.key == k)
    {
      assert 0 <= i < |log| ==> t[i] == log[i];
    }
  }

  lemma NextCarryOf<K>(log: seq<Call<K>>, e: Call<K>, k: K)
    ensures CarriesOf(log + [e], k) == if k in e.carried then CarriesOf(log, k) + {|log|} else CarriesOf(log, k)
  {
    var t := log + [e];
    forall i
      ensures i in CarriesOf(t, k) <==> i in CarriesOf(log, k) || (i == |log| && k in e.carried)
    {
      assert 0 <= i < |log| ==> t[i] == log[i];
    }
  }

  lemma NothingCalled<K>(k: K)
    ensures Calls<K>([], k) == 0 && Carries<K>([], k) == 0
  {
  }

  lemma PacedNext<K>(log: seq<Call<K>>, e: Call<K>)
    requires Paced(log) && Calls(log, e.key) <= Carries(log, e.key)
    ensures Paced(log + [e])
  {
    var t := log + [e];
    forall i | 0 <= i < |t|
      ensures Calls(t[..i], t[i].key) <= Carries(t[..i], t[i].key)
    {
      if i < |log| {
        assert t[..i] == log[..i] && t[i] == log[i];
      } else {
        assert t[..i] == log && t[i] == e;
      }
    }
  }

  lemma RemovalsCarryNext<K, V>(log: seq<Call<K>>, e: Call<K>, m: map<K, V>, t: map<K, V>)
    requires OnlyRemovalsCarry(log, m) && t.Keys <= m.Keys && (e.carried != {} ==> e.key !in t)
    ensures OnlyRemovalsCarry(log + [e], t)
  {
    var u := log + [e];
    forall i | 0 <= i < |u| && u[i].carried != {}
      ensures u[i].key !in t
    {
      if i < |log| {
        assert u[i] == log[i];
      }
    }
  }

  lemma NothingCarried<K>(log: seq<Call<K>>, k: K)
    requires forall i :: 0 <= i < |log| ==> log[i].carried == {}
    ensures Carries(log, k) == 0
  {
    assert CarriesOf(log, k) == {};
  }

  /** A call does nothing to another entry, but may carry it. */
  lemma OtherStays<K, V>(c: Callback<K, V>, before: map<K, V>, log: seq<Call<K>>, e: Call<K>, k: K, w: V,
                         running: bool)
    requires Stays(c, before, log, k, w, true) && k != e.key
    ensures Stays(c, before, log + [e], k, w, running)
  {
    NextCall(log, e, k);
  }

  lemma OtherGone<K, V>(c: Callback<K, V>, before: map<K, V>, log: seq<Call<K>>, e: Call<K>, k: K)
    requires k in before && Goes(c, before, log, k) && k != e.key && k !in e.carried
    ensures Goes(c, before, log + [e], k)
  {
    NextCall(log, e, k);
  }

  lemma CurrentStays<K, V>(c: Callback<K, V>, before: map<K, V>, log: seq<Call<K>>, e: Call<K>, w: V)
    requires Stays(c, before, log, e.key, w, true) && !c.drop(e.key, w)
    ensures Stays(c, before, log + [e], e.key, c.change(e.key, w), !c.stop(e.key, w))
  {
    NextCall(log, e, e.key);
  }

  lemma CurrentGoes<K, V>(c: Callback<K, V>, before: map<K, V>, log: seq<Call<K>>, e: Call<K>, w: V)
    requires Stays(c, before, log, e.key, w, true) && c.drop(e.key, w)
    requires Calls(log, e.key) == Carries(log, e.key) && e.key !in e.carried
    ensures Goes(c, before, log + [e], e.key)
  {
    NextCall(log, e, e.key);
  }

  /** A call that removes its entry. */
  lemma SweepDrops<K, V>(c: Callback<K, V>, before: map<K, V>, m: map<K, V>, log: seq<Call<K>>, e: Call<K>)
    requires Swept(c, before, m, log, true) && e.key in m && c.drop(e.key, m[e.key])
    requires Calls(log, e.key) == Carries(log, e.key) && e.key !in e.carried && e.carried <= m.Keys
    ensures Swept(c, before, m - {e.key}, log + [e], true)
  {
    var t := m - {e.key};
    forall k | k in t
      ensures Stays(c, before, log + [e], k, t[k], true)
    {
      OtherStays(c, before, log, e, k, m[k], true);
    }
    forall k | k in before && k !in t
      ensures Goes(c, before, log + [e], k)
    {
      if k == e.key {
        CurrentGoes(c, before, log, e, m[k]);
      } else {
        OtherGone(c, before, log, e, k);
      }
    }
  }

  /** A call that gives its entry its new value. */
  lemma SweepChanges<K, V>(c: Callback<K, V>, before: map<K, V>, m: map<K, V>, log: seq<Call<K>>, e: Call<K>)
    requires Swept(c, before, m, log, true) && e.key in m && !c.drop(e.key, m[e.key]) && e.carried == {}
    ensures Swept(c, before, m[e.key := c.change(e.key, m[e.key])], log + [e], !c.stop(e.key, m[e.key]))
  {
    var t := m[e.key := c.change(e.key, m[e.key])];
    forall k | k in t
      ensures Stays(c, before, log + [e], k, t[k], !c.stop(e.key, m[e.key]))
    {
      if k == e.key {
        CurrentStays(c, before, log, e, m[k]);
      } else {
        OtherStays(c, before, log, e, k, m[k], !c.stop(e.key, m[e.key]));
      }
    }
    forall k | k in before && k !in t
      ensures Goes(c, before, log + [e], k)
    {
      OtherGone(c, before, log, e, k);
    }
  }

  lemma SweepStops<K, V>(c: Callback<K, V>, before: map<K, V>, m: map<K, V>, log: seq<Call<K>>, e: Call<K>)
    requires Swept(c, before, m, log, true) && e.key in m && c.stop(e.key, m[e.key])
    ensures StoppedByLast(c, before, log + [e])
  {
    assert (log + [e])[..|log|] == log;
    assert Stays(c, before, log, e.key, m[e.key], true);
  }

  // ----- slots -----

  ghost predicate HeldFrom<K, V>(t: seq<Slot<K, V>>, mp: nat, k: K) {
    exists q :: mp <= q < |t| && t[q].Entry? && t[q].key == k
  }

  /** The keys held before slot mp in s that t holds at mp or after. */
  ghost function CarriedKeys<K, V>(s: seq<Slot<K, V>>, t: seq<Slot<K, V>>, mp: nat): set<K>
    requires mp <= |s|
  {
    set j | 0 <= j < mp && s[j].Entry? && HeldFrom(t, mp, s[j].key) :: s[j].key
  }

  /** The entries before mp have been called once more often than carried round, those from mp
      on as often. */
  ghost predicate Round<K, V>(s: seq<Slot<K, V>>, mp: nat, log: seq<Call<K>>) {
    mp <= |s| && forall j :: 0 <= j < |s| && s[j].Entry? ==>
      Calls(log, s[j].key) == Carries(log, s[j].key) + if j < mp then 1 else 0
  }

  /** Where a removal at mp brings an entry from: what is now before mp was before mp. */
  lemma BeforeStaysBefore<K, V>(s: seq<Slot<K, V>>, t: seq<Slot<K, V>>, mp: nat, q: nat) returns (p: nat)
    requires mp < |s| && MovedTowards(t, s, mp) && q < |t| && t[q].Entry?
    ensures p < |s| && s[p] == t[q] && (q < mp ==> p < mp)
  {
    p :| CameFrom(t, s, mp, q, p);
  }

  lemma RoundAfterRemoval<K, V>(s: seq<Slot<K, V>>, m: map<K, V>, t: seq<Slot<K, V>>, u: map<K, V>,
                                mp: nat, log: seq<Call<K>>)
    requires Represents(s, m) && Represents(t, u) && |t| == |s| && Round(s, mp, log)
    requires mp < |s| && s[mp].Entry? && s[mp].key !in u && MovedTowards(t, s, mp)
    ensures Round(t, mp, log + [Call(s[mp].key, CarriedKeys(s, t, mp))])
  {
    var e := Call(s[mp].key, CarriedKeys(s, t, mp));
    forall q | 0 <= q < |t| && t[q].Entry?
      ensures Calls(log + [e], t[q].key) == Carries(log + [e], t[q].key) + if q < mp then 1 else 0
    {
      var p := BeforeStaysBefore(s, t, mp, q);
      NextCall(log, e, t[q].key);
      assert HeldFrom(t, mp, t[q].key) <==> mp <= q;
      assert t[q].key in e.carried <==> p < mp <= q;
    }
  }

  lemma CarriedAreOthers<K, V>(s: seq<Slot<K, V>>, m: map<K, V>, t: seq<Slot<K, V>>, mp: nat)
    requires Represents(s, m) && mp < |s| && s[mp].Entry?
    ensures s[mp].key !in CarriedKeys(s, t, mp) && CarriedKeys(s, t, mp) <= m.Keys
  {
  }

  /** Changing a value moves nothing. */
  lemma NothingMoves<K, V>(s: seq<Slot<K, V>>, m: map<K, V>, mp: nat, value: V)
    requires Represents(s, m) && mp < |s| && s[mp].Entry?
    ensures CarriedKeys(s, s[mp := Entry(s[mp].key, value)], mp) == {}
  {
  }

  lemma RoundAfterChange<K, V>(s: seq<Slot<K, V>>, m: map<K, V>, mp: nat, value: V, log: seq<Call<K>>)
    requires Represents(s, m) && mp < |s| && s[mp].Entry? && Round(s, mp, log)
    ensures Round(s[mp := Entry(s[mp].key, value)], mp + 1, log + [Call(s[mp].key, {})])
  {
    var t, e := s[mp := Entry(s[mp].key, value)], Call(s[mp].key, {});
    forall q | 0 <= q < |t| && t[q].Entry?
      ensures Calls(log + [e], t[q].key) == Carries(log + [e], t[q].key) + if q < mp + 1 then 1 else 0
    {
      NextCall(log, e, t[q].key);
      assert t[q].key == s[q].key;
    }
  }

  lemma RoundSkipsEmpty<K, V>(s: seq<Slot<K, V>>, mp: nat, log: seq<Call<K>>)
    requires mp < |s| && s[mp].Empty? && Round(s, mp, log)
    ensures Round(s, mp + 1, log)
  {
  }

  // ----- what a whole sweep leaves -----

  ghost predicate DropsNone<K, V>(c: Callback<K, V>, m: map<K, V>) {
    forall k :: k in m ==> !c.drop(k, m[k])
  }

  /** What a running sweep that has removed nothing has done. */
  ghost predicate NoneDropped<K, V>(before: map<K, V>, m: map<K, V>, log: seq<Call<K>>) {
    m.Keys == before.Keys && forall i :: 0 <= i < |log| ==> log[i].key in m && log[i].carried == {}
  }

  lemma NotDropped<K, V>(c: Callback<K, V>, before: map<K, V>, m: map<K, V>, log: seq<Call<K>>, k: K)
    requires DropsNone(c, before) && NoneDropped(before, m, log) && Swept(c, before, m, log, true)
    requires k in m && Calls(log, k) == Carries(log, k)
    ensures !c.drop(k, m[k])
  {
    NothingCarried(log, k);
    assert Stays(c, before, log, k, m[k], true);
  }

  /** A sweep that began with the map `before` and goes on at slot mp. */
  ghost predicate Sweeping<K, V>(c: Callback<K, V>, before: map<K, V>, s: seq<Slot<K, V>>, m: map<K, V>,
                                 mp: nat, log: seq<Call<K>>) {
    && Round(s, mp, log)
    && Swept(c, before, m, log, true) && Paced(log) && OnlyRemovalsCarry(log, m)
    && (DropsNone(c, before) ==> NoneDropped(before, m, log))
  }

  /** What is true of the map and the log when a sweep ended at a call. */
  ghost predicate Ended<K, V>(c: Callback<K, V>, before: map<K, V>, m: map<K, V>, log: seq<Call<K>>) {
    && Swept(c, before, m, log, false) && Paced(log) && OnlyRemovalsCarry(log, m)
    && StoppedByLast(c, before, log)
  }

  /** What is true of them when it came to its end. */
  ghost predicate Completed<K, V>(c: Callback<K, V>, before: map<K, V>, m: map<K, V>, log: seq<Call<K>>) {
    && Swept(c, before, m, log, true) && Paced(log) && OnlyRemovalsCarry(log, m)
    && AllCalled(before, log)
  }

  lemma SweepStarts<K, V>(c: Callback<K, V>, s: seq<Slot<K, V>>, m: map<K, V>)
    ensures Sweeping(c, m, s, m, 0, [])
  {
  }

  lemma AfterRemoval<K, V>(c: Callback<K, V>, before: map<K, V>, s: seq<Slot<K, V>>, m: map<K, V>,
                           t: seq<Slot<K, V>>, u: map<K, V>, mp: nat, log: seq<Call<K>>)
    requires Represents(s, m) && Represents(t, u) && |t| == |s| && Sweeping(c, before, s, m, mp, log)
    requires mp < |s| && s[mp].Entry? && c.drop(s[mp].key, s[mp].value)
    requires u == m - {s[mp].key} && MovedTowards(t, s, mp)
    ensures var next := log + [Call(s[mp].key, CarriedKeys(s, t, mp))];
      && Sweeping(c, before, t, u, mp, next)
      && (c.stop(s[mp].key, s[mp].value) ==> Ended(c, before, u, next))
  {
    var e := Call(s[mp].key, CarriedKeys(s, t, mp));
    CarriedAreOthers(s, m, t, mp);
    if DropsNone(c, before) {
      NotDropped(c, before, m, log, e.key);
    }
    RoundAfterRemoval(s, m, t, u, mp, log);
    SweepDrops(c, before, m, log, e);
    PacedNext(log, e);
    RemovalsCarryNext(log, e, m, u);
    if c.stop(e.key, m[e.key]) {
      SweepStops(c, before, m, log, e);
    }
  }

  lemma AfterChange<K, V>(c: Callback<K, V>, before: map<K, V>, s: seq<Slot<K, V>>, m: map<K, V>,
                          t: seq<Slot<K, V>>, u: map<K, V>, mp: nat, log: seq<Call<K>>)
    requires Represents(s, m) && Sweeping(c, before, s, m, mp, log)
    requires mp < |s| && s[mp].Entry? && !c.drop(s[mp].key, s[mp].value)
    requires var value := c.change(s[mp].key, s[mp].value);
      t == s[mp := Entry(s[mp].key, value)] && u == m[s[mp].key := value]
    ensures CarriedKeys(s, t, mp) == {}
    ensures var next := log + [Call(s[mp].key, {})];
      && (!c.stop(s[mp].key, s[mp].value) ==> Sweeping(c, before, t, u, mp + 1, next))
      && (c.stop(s[mp].key, s[mp].value) ==> Ended(c, before, u, next))
  {
    var e: Call<K> := Call(s[mp].key, {});
    NothingMoves(s, m, mp, c.change(s[mp].key, s[mp].value));
    RoundAfterChange(s, m, mp, c.change(s[mp].key, s[mp].value), log);
    SweepChanges(c, before, m, log, e);
    PacedNext(log, e);
    RemovalsCarryNext(log, e, m, u);
    if c.stop(e.key, m[e.key]) {
      SweepStops(c, before, m, log, e);
    }
  }

  lemma RoundOver<K, V>(c: Callback<K, V>, before: map<K, V>, s: seq<Slot<K, V>>, m: map<K, V>, log: seq<Call<K>>)
    requires Represents(s, m) && Round(s, |s|, log) && Swept(c, before, m, log, true)
    ensures AllCalled(before, log)
  {
    forall k | k in before
      ensures Calls(log, k) == Carries(log, k) + 1
    {
      if k in m {
        assert Holds(s, k);
      } else {
        assert Goes(c, before, log, k);
      }
    }
  }

  /** A sweep that was not stopped and removed nothing called every entry exactly once. */
  lemma EachOnce<K, V>(c: Callback<K, V>, before: map<K, V>, after: map<K, V>, log: seq<Call<K>>)
    requires Swept(c, before, after, log, true) && AllCalled(before, log) && NoneDropped(before, after, log)
    ensures forall k :: k in before ==> Calls(log, k) == 1
    ensures |log| == |before|
    ensures after == map k | k in before :: c.change(k, before[k])
  {
    forall k | k in before
      ensures Calls(log, k) == 1 && after[k] == c.change(k, before[k])
    {
      NothingCarried(log, k);
      assert Stays(c, before, log, k, after[k], true);
      assert Visited(c, k, before[k], 1) == c.change(k, Visited(c, k, before[k], 0));
    }
    OneCallEach(log, before.Keys);
  }

  /** Exactly one call an entry makes as many calls as entries. */
  lemma {:induction false} OneCallEach<K>(log: seq<Call<K>>, keys: set<K>)
    requires forall k :: k in keys ==> Calls(log, k) == 1
    requires forall i :: 0 <= i < |log| ==> log[i].key in keys
    ensures |log| == |keys|
  {
    if log == [] {
      if k :| k in keys {
        NothingCalled(k);
        assert false;
      }
    } else {
      var front, last := log[..|log| - 1], log[|log| - 1].key;
      assert log == front + [log[|log| - 1]];
      NextCall(front, log[|log| - 1], last);
      assert Calls(front, last) == 0;
      forall i | 0 <= i < |front|
        ensures front[i].key != last
      {
        if front[i].key == last {
          CalledOnce(front, last, i);
        }
      }
      forall k | k in keys - {last}
        ensures Calls(front, k) == 1
      {
        NextCall(front, log[|log| - 1], k);
      }
      OneCallEach(front, keys - {last});
    }
  }

  lemma CalledOnce<K>(log: seq<Call<K>>, k: K, i: nat)
    requires i < |log| && log[i].key == k
    ensures Calls(log, k) > 0
  {
    assert i in CallsOf(log, k);
  }

  /** Visiting an entry of m again would not remove it or change it further. */
  ghost predicate Stable<K, V>(c: Callback<K, V>, m: map<K, V>) {
    forall k :: k in m && !c.drop(k, m[k]) ==>
      var w := c.change(k, m[k]); !c.drop(k, w) && c.change(k, w) == w
  }

  lemma {:induction false} StableVisits<K, V>(c: Callback<K, V>, m: map<K, V>, k: K, n: nat)
    requires Stable(c, m) && k in m && !c.drop(k, m[k])
    ensures n > 0 ==> Visited(c, k, m[k], n) == c.change(k, m[k])
    ensures !c.drop(k, Visited(c, k, m[k], n))
  {
    if n > 1 {
      StableVisits(c, m, k, n - 1);
    }
  }

  /** A sweep that was not stopped, with such a callback, leaves exactly the entries it does
      not remove, each changed once. */
  lemma StableSweep<K, V>(c: Callback<K, V>, before: map<K, V>, after: map<K, V>, log: seq<Call<K>>)
    requires Stable(c, before) && Swept(c, before, after, log, true) && AllCalled(before, log)
    ensures after == map k | k in before && !c.drop(k, before[k]) :: c.change(k, before[k])
  {
    forall k | k in after
      ensures !c.drop(k, before[k]) && after[k] == c.change(k, before[k])
    {
      assert Stays(c, before, log, k, after[k], true);
      assert !c.drop(k, Visited(c, k, before[k], 0));
      StableVisits(c, before, k, Calls(log, k));
    }
    forall k | k in before && k !in after
      ensures c.drop(k, before[k])
    {
      assert Goes(c, before, log, k);
      if !c.drop(k, before[k]) {
        StableVisits(c, before, k, Calls(log, k) - 1);
      }
    }
  }

  lemma SweepResult<K, V>(c: Callback<K, V>, before: map<K, V>, s: seq<Slot<K, V>>, m: map<K, V>,
                          log: seq<Call<K>>)
    requires Represents(s, m) && Sweeping(c, before, s, m, |s|, log)
    ensures Completed(c, before, m, log)
    ensures DropsNone(c, before) ==>
            m == (map k | k in before :: c.change(k, before[k])) && |log| == |before|
    ensures Stable(c, before) ==> m == map k | k in before && !c.drop(k, before[k]) :: c.change(k, before[k])
  {
    RoundOver(c, before, s, m, log);
    if DropsNone(c, before) {
      EachOnce(c, before, m, log);
    }
    if Stable(c, before) {
      StableSweep(c, before, m, log);
    }
  }
}
