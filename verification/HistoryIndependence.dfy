/** Which slots are filled depends only on the keys held and the size: not on the order of
    the operations that brought them in. */
module HistoryIndependence {
  import opened Cardinality
  import opened KeyMap
  import opened Slots

  /** Every key of a has an equal key in b. */
  ghost predicate KeysWithin<K, V>(a: map<K, V>, b: map<K, V>, test: (K, K) -> bool) {
    forall k {:trigger Held(b, test, k)} :: k in a ==> Held(b, test, k)
  }

  /** The slots a walk from e passes, up to and including i. */
  ghost function After(e: nat, i: nat, n: nat): set<int> {
    set j | 0 <= j < n && 0 < Dist(e, j, n) <= Dist(e, i, n)
  }

  /** The empty slot closest before i: everything between them is filled. */
  lemma {:induction false} NearestEmpty<K, V>(s: seq<Slot<K, V>>, e: nat, i: nat) returns (r: nat)
    requires e < |s| && i < |s| && s[e].Empty? && s[i].Entry?
    ensures r < |s| && s[r].Empty?
    ensures forall j :: j in After(r, i, |s|) ==> s[j].Entry?
    decreases Dist(e, i, |s|)
  {
    if j :| j in After(e, i, |s|) && s[j].Empty? {
      r := NearestEmpty(s, j, i);
    } else {
      r := e;
    }
  }

  /** An entry of s in a walk after an empty slot has its home in that walk. */
  lemma HomeInWalk<K, V>(s: seq<Slot<K, V>>, hash: K -> nat, e: nat, i: nat, j: nat)
    requires Probeable(s, hash)
    requires e < |s| && i < |s| && s[e].Empty? && j in After(e, i, |s|) && s[j].Entry?
    ensures Home(hash, s[j].key, |s|) in After(e, i, |s|)
  {
    var home := Home(hash, s[j].key, |s|);
    assert PathFilled(s, home, j);
    assert !Between(home, e, j);
  }

  /** An entry of t with its home in the walk lies in the walk, before i, if t[i] is empty. */
  lemma SlotInWalk<K, V>(t: seq<Slot<K, V>>, hash: K -> nat, e: nat, i: nat, j: nat)
    requires Probeable(t, hash)
    requires e < |t| && i < |t| && t[i].Empty? && j < |t| && t[j].Entry?
    requires Home(hash, t[j].key, |t|) in After(e, i, |t|)
    ensures j in After(e, i, |t|) - {i}
  {
    var home := Home(hash, t[j].key, |t|);
    assert PathFilled(t, home, j);
    assert !Between(home, i, j);
  }

  /** The slot of t that holds the key of s[j], up to the test. */
  ghost predicate Partner<K, V>(s: seq<Slot<K, V>>, t: seq<Slot<K, V>>, test: (K, K) -> bool, j: int, p: int) {
    0 <= j < |s| && s[j].Entry? && 0 <= p < |t| && t[p].Entry? && test(s[j].key, t[p].key)
  }

  lemma PartnerExists<K, V>(s: seq<Slot<K, V>>, ms: map<K, V>, t: seq<Slot<K, V>>, mt: map<K, V>,
                            test: (K, K) -> bool, j: int)
    requires Represents(s, ms) && Represents(t, mt) && KeysWithin(ms, mt, test)
    requires 0 <= j < |s| && s[j].Entry?
    ensures exists p :: Partner(s, t, test, j, p)
  {
    assert Held(mt, test, s[j].key);
    var k :| k in mt && test(s[j].key, k);
    assert Holds(t, k);
    var p :| 0 <= p < |t| && t[p].Entry? && t[p].key == k;
    assert Partner(s, t, test, j, p);
  }

  lemma PartnersDiffer<K(!new), V>(s: seq<Slot<K, V>>, ms: map<K, V>, t: seq<Slot<K, V>>,
                                   hash: K -> nat, test: (K, K) -> bool, j: int, j': int, p: int)
    requires Agree(hash, test) && Represents(s, ms) && Distinct(ms, test)
    requires Partner(s, t, test, j, p) && Partner(s, t, test, j', p)
    ensures j == j'
  {
    assert test(s[j].key, s[j'].key);
  }

  lemma PartnerMap<K(!new), V>(s: seq<Slot<K, V>>, ms: map<K, V>, t: seq<Slot<K, V>>, mt: map<K, V>,
                               hash: K -> nat, test: (K, K) -> bool, run: set<int>) returns (f: map<int, int>)
    requires Agree(hash, test) && Distinct(ms, test) && KeysWithin(ms, mt, test)
    requires Represents(s, ms) && Represents(t, mt)
    requires forall j :: j in run ==> 0 <= j < |s| && s[j].Entry?
    ensures f.Keys == run && Injective(f)
    ensures forall j :: j in run ==> Partner(s, t, test, j, f[j])
  {
    forall j | j in run
      ensures exists p :: Partner(s, t, test, j, p)
    {
      PartnerExists(s, ms, t, mt, test, j);
    }
    f := map j | j in run :: var p :| Partner(s, t, test, j, p); p;
    forall x, y | x in f && y in f && f[x] == f[y]
      ensures x == y
    {
      PartnersDiffer(s, ms, t, hash, test, x, y, f[x]);
    }
  }

  /** Pigeonhole: a slot filled in s is filled in t, or the entries of the run of s that ends
      there would have to share one slot fewer in t. */
  lemma FilledInBoth<K(!new), V>(s: seq<Slot<K, V>>, ms: map<K, V>, t: seq<Slot<K, V>>, mt: map<K, V>,
                                 hash: K -> nat, test: (K, K) -> bool, i: nat)
    requires Agree(hash, test) && Distinct(ms, test) && KeysWithin(ms, mt, test)
    requires Represents(s, ms) && Probeable(s, hash) && |ms| < |s| == |t|
    requires Represents(t, mt) && Probeable(t, hash)
    requires i < |s| && s[i].Entry?
    ensures t[i].Entry?
  {
    var e0 := EmptySlotExists(s, ms);
    var e := NearestEmpty(s, e0, i);
    var run := After(e, i, |s|);
    var f := PartnerMap(s, ms, t, mt, hash, test, run);
    assert run == (run - {i}) + {i};
    ValueOutside(f, run - {i});
    var j :| j in run && f[j] !in run - {i};
    assert Partner(s, t, test, j, f[j]);
    HomeInWalk(s, hash, e, i, j);
    if t[i].Empty? {
      SlotInWalk(t, hash, e, i, f[j]);
    }
  }

  /** Two tables of one size whose keys are equal up to the test fill the same slots,
      whatever operations led to them. */
  lemma SameKeysSameSlots<K(!new), V>(s: seq<Slot<K, V>>, ms: map<K, V>, t: seq<Slot<K, V>>, mt: map<K, V>,
                                      hash: K -> nat, test: (K, K) -> bool)
    requires Agree(hash, test) && Distinct(ms, test) && Distinct(mt, test)
    requires Represents(s, ms) && Probeable(s, hash) && |ms| < |s| == |t|
    requires Represents(t, mt) && Probeable(t, hash) && |mt| < |t|
    requires KeysWithin(ms, mt, test) && KeysWithin(mt, ms, test)
    ensures FilledSlots(s) == FilledSlots(t)
  {
    forall i | 0 <= i < |s|
      ensures s[i].Entry? <==> t[i].Entry?
    {
      if s[i].Entry? {
        FilledInBoth(s, ms, t, mt, hash, test, i);
      }
      if t[i].Entry? {
        FilledInBoth(t, mt, s, ms, hash, test, i);
      }
    }
  }
}
