/** The slot array of an open-addressed table as a sequence: cyclic probe paths, the
    placement invariant, and what filling, replacing and moving one slot does to it. */
module Slots {
  import opened Cardinality
  import opened KeyMap

  /** An empty slot holds no key: the reserved marker is never a key. */
  datatype Slot<K, V> = Empty | Entry(key: K, value: V)

  function Home<K>(hash: K -> nat, key: K, size: nat): (i: nat)
    requires size > 0
    ensures i < size
  {
    hash(key) % size
  }

  function Next(i: nat, size: nat): nat {
    if i != size - 1 then i + 1 else 0
  }

  /** i lies on the cyclic walk from a up to, but not including, b. */
  predicate Between(a: nat, i: nat, b: nat) {
    if a <= b then a <= i < b else i < b || a <= i
  }

  /** The number of steps a cyclic walk takes from a to i. */
  function Dist(a: nat, i: nat, size: nat): int {
    if a <= i then i - a else i - a + size
  }

  /** Probing is a walk round the array: a step is addition modulo the size, and a slot is
      passed exactly when it is fewer steps away than the end. */
  lemma CyclicWalk(a: nat, i: nat, b: nat, size: nat)
    requires a < size && i < size && b < size
    ensures Next(i, size) == (i + 1) % size
    ensures 0 <= Dist(a, i, size) < size && (a + Dist(a, i, size)) % size == i
    ensures Between(a, i, b) <==> Dist(a, i, size) < Dist(a, b, size)
  {
    Reduce(i + 1, size);
    Reduce(a + Dist(a, i, size), size);
  }

  lemma Reduce(x: nat, n: nat)
    requires 0 < n && x < 2 * n
    ensures x % n == if x < n then x else x - n
  {
    if x >= n {
      assert x == 1 * n + (x - n);
    }
  }

  ghost predicate PathFilled<K, V>(s: seq<Slot<K, V>>, a: nat, b: nat) {
    forall p :: 0 <= p < |s| && Between(a, p, b) ==> s[p].Entry?
  }

  /** No empty slot lies between any entry's home and its slot. */
  ghost predicate Probeable<K, V>(s: seq<Slot<K, V>>, hash: K -> nat) {
    forall j :: 0 <= j < |s| && s[j].Entry? ==> PathFilled(s, Home(hash, s[j].key, |s|), j)
  }

  ghost predicate Holds<K, V>(s: seq<Slot<K, V>>, key: K) {
    exists j :: 0 <= j < |s| && s[j].Entry? && s[j].key == key
  }

  /** The filled slots hold exactly the bindings of m, each once. */
  ghost predicate Represents<K, V>(s: seq<Slot<K, V>>, m: map<K, V>) {
    && (forall j :: 0 <= j < |s| && s[j].Entry? ==> s[j].key in m && m[s[j].key] == s[j].value)
    && (forall k :: k in m ==> Holds(s, k))
    && (forall i, j :: 0 <= i < |s| && 0 <= j < |s| && s[i].Entry? && s[j].Entry? && s[i].key == s[j].key ==> i == j)
  }

  ghost function FilledSlots<K, V>(s: seq<Slot<K, V>>): set<int> {
    set j | 0 <= j < |s| && s[j].Entry?
  }

  lemma FilledSlotsSize<K, V>(s: seq<Slot<K, V>>, m: map<K, V>)
    requires Represents(s, m)
    ensures |FilledSlots(s)| == |m|
  {
    var f := map j | j in FilledSlots(s) :: s[j].key;
    InjectionSize(f);
    forall k | k in m
      ensures k in f.Values
    {
      var j :| 0 <= j < |s| && s[j].Entry? && s[j].key == k;
      assert j in f && f[j] == k;
    }
    assert f.Values == m.Keys;
    assert f.Keys == FilledSlots(s);
  }

  /** A table with fewer bindings than slots has an empty slot. */
  lemma EmptySlotExists<K, V>(s: seq<Slot<K, V>>, m: map<K, V>) returns (e: nat)
    requires Represents(s, m) && |m| < |s|
    ensures e < |s| && s[e].Empty?
  {
    FilledSlotsSize(s, m);
    e := RoomOutside(|s|, FilledSlots(s));
  }

  lemma NothingStored<K, V>(s: seq<Slot<K, V>>, hash: K -> nat)
    requires forall j :: 0 <= j < |s| ==> s[j] == Empty
    ensures Represents(s, map[]) && Probeable(s, hash)
  {
  }

  /** Filling the first empty slot of a key's probe path adds the binding. */
  lemma FillSlot<K, V>(s: seq<Slot<K, V>>, m: map<K, V>, hash: K -> nat, q: nat, key: K, value: V)
    requires Represents(s, m) && Probeable(s, hash) && key !in m
    requires q < |s| && s[q].Empty? && PathFilled(s, Home(hash, key, |s|), q)
    ensures Represents(s[q := Entry(key, value)], m[key := value])
    ensures Probeable(s[q := Entry(key, value)], hash)
  {
    var t := s[q := Entry(key, value)];
    forall k | k in m[key := value]
      ensures Holds(t, k)
    {
      if k == key {
        assert t[q].key == key;
      } else {
        var j :| 0 <= j < |s| && s[j].Entry? && s[j].key == k;
        assert t[j] == s[j];
      }
    }
    forall j | 0 <= j < |t| && t[j].Entry?
      ensures PathFilled(t, Home(hash, t[j].key, |t|), j)
    {
      if j != q {
        assert t[j] == s[j];
      }
    }
  }

  /** Replacing an entry by one whose key has the same home replaces the binding. */
  lemma ReplaceSlot<K, V>(s: seq<Slot<K, V>>, m: map<K, V>, hash: K -> nat, q: nat, key: K, value: V)
    requires Represents(s, m) && Probeable(s, hash)
    requires q < |s| && s[q].Entry? && hash(key) == hash(s[q].key)
    requires key in m ==> key == s[q].key
    ensures Represents(s[q := Entry(key, value)], (m - {s[q].key})[key := value])
    ensures Probeable(s[q := Entry(key, value)], hash)
  {
    var t := s[q := Entry(key, value)];
    forall k | k in (m - {s[q].key})[key := value]
      ensures Holds(t, k)
    {
      if k == key {
        assert t[q].key == key;
      } else {
        var j :| 0 <= j < |s| && s[j].Entry? && s[j].key == k;
        assert t[j] == s[j];
      }
    }
    forall j | 0 <= j < |t| && t[j].Entry?
      ensures PathFilled(t, Home(hash, t[j].key, |t|), j)
    {
      assert Home(hash, t[j].key, |t|) == Home(hash, s[j].key, |s|);
    }
  }

  /** Emptying a slot removes its binding; it may break probe paths. */
  lemma EmptySlot<K, V>(s: seq<Slot<K, V>>, m: map<K, V>, q: nat)
    requires Represents(s, m) && q < |s| && s[q].Entry?
    ensures Represents(s[q := Empty], m - {s[q].key})
  {
    var t := s[q := Empty];
    forall k | k in m - {s[q].key}
      ensures Holds(t, k)
    {
      var j :| 0 <= j < |s| && s[j].Entry? && s[j].key == k;
      assert t[j] == s[j];
    }
  }

  /** Moving an entry to an empty slot keeps every binding. */
  lemma MoveSlot<K, V>(s: seq<Slot<K, V>>, m: map<K, V>, q: nat, j: nat)
    requires Represents(s, m) && q < |s| && j < |s| && s[q].Empty? && s[j].Entry?
    ensures Represents(s[q := s[j]][j := Empty], m)
  {
    var t := s[q := s[j]][j := Empty];
    forall k | k in m
      ensures Holds(t, k)
    {
      var i :| 0 <= i < |s| && s[i].Entry? && s[i].key == k;
      if i == j {
        assert t[q] == s[j];
      } else {
        assert t[i] == s[i];
      }
    }
  }

  /** An empty slot right after a walk of entries that all fail the test: no key of the
      map passes it. */
  lemma AbsentAtEmpty<K(!new), V>(s: seq<Slot<K, V>>, m: map<K, V>, hash: K -> nat, test: (K, K) -> bool,
                                  key: K, i: nat)
    requires Represents(s, m) && Probeable(s, hash) && Agree(hash, test)
    requires i < |s| && s[i].Empty?
    requires forall p :: 0 <= p < |s| && Between(Home(hash, key, |s|), p, i) ==> s[p].Entry? && !test(key, s[p].key)
    ensures !Held(m, test, key)
  {
    forall k | k in m
      ensures !test(key, k)
    {
      assert Holds(s, k);
      var j :| 0 <= j < |s| && s[j].Entry? && s[j].key == k;
      assert PathFilled(s, Home(hash, k, |s|), j);
    }
  }

  // ----- regrowing -----

  /** t holds, in probe order, exactly the entries of the first n slots of s. */
  ghost predicate Transferred<K, V>(s: seq<Slot<K, V>>, all: map<K, V>, n: nat,
                                    t: seq<Slot<K, V>>, m: map<K, V>, hash: K -> nat) {
    && n <= |s|
    && Represents(t, m) && Probeable(t, hash)
    && (forall k :: k in m ==> k in all && m[k] == all[k] && Holds(s[..n], k))
    && (forall k :: k in all && Holds(s[..n], k) ==> k in m)
  }

  lemma TransferNext<K(!new), V>(s: seq<Slot<K, V>>, all: map<K, V>, n: nat, t: seq<Slot<K, V>>, m: map<K, V>,
                           hash: K -> nat, q: nat)
    requires Represents(s, all) && Transferred(s, all, n, t, m, hash)
    requires n < |s| && s[n].Entry?
    requires q < |t| && t[q].Empty? && PathFilled(t, Home(hash, s[n].key, |t|), q)
    ensures Transferred(s, all, n + 1, t[q := s[n]], m[s[n].key := s[n].value], hash)
    ensures s[n].key !in m
  {
    var key := s[n].key;
    assert !Holds(s[..n], key);
    FillSlot(t, m, hash, q, key, s[n].value);
    HoldsNext(s, n);
  }

  lemma TransferSkip<K(!new), V>(s: seq<Slot<K, V>>, all: map<K, V>, n: nat, t: seq<Slot<K, V>>, m: map<K, V>,
                                 hash: K -> nat)
    requires Transferred(s, all, n, t, m, hash) && n < |s| && s[n].Empty?
    ensures Transferred(s, all, n + 1, t, m, hash)
  {
    HoldsNext(s, n);
  }

  lemma HoldsNext<K(!new), V>(s: seq<Slot<K, V>>, n: nat)
    requires n < |s|
    ensures forall k :: Holds(s[..n + 1], k) <==> Holds(s[..n], k) || (s[n].Entry? && s[n].key == k)
  {
    var a, b := s[..n], s[..n + 1];
    assert b == a + [s[n]];
    forall k
      ensures Holds(b, k) <==> Holds(a, k) || (s[n].Entry? && s[n].key == k)
    {
      if j :| 0 <= j < |a| && a[j].Entry? && a[j].key == k {
        assert b[j] == a[j];
      }
      if s[n].Entry? && s[n].key == k {
        assert b[n] == s[n];
      }
      if j :| 0 <= j < |b| && b[j].Entry? && b[j].key == k {
        assert j < n ==> a[j] == b[j];
      }
    }
  }

  lemma TransferDone<K, V>(s: seq<Slot<K, V>>, all: map<K, V>, t: seq<Slot<K, V>>, m: map<K, V>, hash: K -> nat)
    requires Represents(s, all) && Transferred(s, all, |s|, t, m, hash)
    ensures m == all
  {
    assert s[..|s|] == s;
    forall k | k in all
      ensures k in m
    {
      assert Holds(s, k);
    }
  }
}
