/** The open-addressed hash table: linear probing, growth through the prime table and
    deletion that re-places the rest of the cluster. */
module HashTables {
  import opened Cardinality
  import opened KeyMap
  import opened Slots
  import opened Rehash
  import opened Sweeps
  import opened PrimeTable

  /** 1 + items / 0.75, truncated towards zero as the conversion to int does. */
  function SizeFor(items: int): int {
    var thirds := 3 + 4 * items;
    if 0 <= thirds then thirds / 3 else -(-thirds / 3)
  }

  function Threshold(size: int): int {
    3 * size / 4
  }

  /** The purpose of the first size: room for `items` keys at three quarters of the slots. */
  lemma PreallocationSuffices(items: int, size: int)
    requires 1 <= size
    ensures SizeFor(items) <= size <==> 4 * items < 3 * size
    ensures 4 * items < 3 * size ==> items <= Threshold(size)
  {
  }

  class HashTable<K(==, !new), V> {
    const hash: K -> nat
    const test: (K, K) -> bool
    /** What a lookup answers when the key is not held; it is a legal value too. */
    const nullValue: V
    const primes: seq<int>

    var mappings: array<Slot<K, V>>
    var size: nat
    var count: nat
    var resizeThreshold: nat
    var primeOffset: nat

    /** The abstract map, the number of puts and the number of entries moved by grows. */
    ghost var M: map<K, V>
    ghost var puts: nat
    ghost var moved: nat

    ghost predicate Valid()
      reads this, mappings
    {
      && Shape()
      && Represents(mappings[..], M) && Probeable(mappings[..], hash)
      && Distinct(M, test)
    }

    ghost predicate Shape()
      reads this
    {
      && Agree(hash, test)
      && IsTable(primes) && LeftBySearch(primes, size, primeOffset)
      && 13 <= size == mappings.Length
      && resizeThreshold == Threshold(size)
      && count == |M| <= resizeThreshold
      && Accounted()
    }

    /** The debt argument behind amortised growth. */
    ghost predicate Accounted()
      reads this
    {
      && count <= puts
      && moved <= resizeThreshold
      && (moved == 0 || moved < 2 * puts)
    }

    /** In every valid table the count is the number of filled slots, at most three quarters
        of them are filled, and some slot is empty, so every probe ends. */
    lemma Fullness()
      requires Valid()
      ensures count == |FilledSlots(mappings[..])| && 4 * count <= 3 * size
      ensures count < resizeThreshold <==> 4 * (count + 1) <= 3 * size
      ensures exists e :: 0 <= e < size && mappings[e].Empty?
    {
      FilledSlotsSize(mappings[..], M);
      var e := EmptySlotExists(mappings[..], M);
      assert mappings[e].Empty?;
    }

    constructor (items: int, hash: K -> nat, test: (K, K) -> bool, nullValue: V)
      requires -INT_MAX <= SizeFor(items) <= INT_MAX
      requires Agree(hash, test)
      ensures this.hash == hash && this.test == test && this.nullValue == nullValue && primes == PRIMES
      ensures Valid() && fresh(mappings)
      ensures M == map[] && puts == 0 && moved == 0
      ensures IsSmallestFit(primes, SizeFor(items), size)
      ensures items <= resizeThreshold && 4 * items < 3 * size
      ensures forall p :: p in primes && 4 * items < 3 * p ==> size <= p
    {
      this.hash, this.test, this.nullValue := hash, test, nullValue;
      PrimesAreATable();
      var n, offset := PrimeSize(PRIMES, SizeFor(items), 0);
      forall p | 1 <= p
        ensures SizeFor(items) <= p <==> 4 * items < 3 * p
      {
        PreallocationSuffices(items, p);
      }
      primes := PRIMES;
      size, primeOffset, resizeThreshold := n, offset, Threshold(n);
      mappings := new Slot<K, V>[n](_ => Empty);
      count := 0;
      M, puts, moved := map[], 0, 0;
      new;
      NothingStored(mappings[..], hash);
    }

    /** The mapping that matches the key, or the first empty one on its probe path. */
    method FindMapping(key: K) returns (i: nat)
      requires Valid()
      ensures i < size
      ensures PathFilled(mappings[..], hash(key) % size, i)
      ensures mappings[i].Entry? ==> test(key, mappings[i].key)
      ensures mappings[i].Entry? <==> Held(M, test, key)
      ensures mappings[i].Entry? ==> mappings[i].key in M
      ensures Lookup(M, test, key) ==
              if mappings[i].Entry? then Some((mappings[i].key, mappings[i].value)) else None
    {
      ghost var s := mappings[..];
      ghost var e := EmptySlotExists(s, M);
      ghost var home := Home(hash, key, size);
      i := Home(hash, key, size);
      while mappings[i].Entry?
        invariant i < size
        invariant forall p :: 0 <= p < size && Between(home, p, i) ==> s[p].Entry? && !test(key, s[p].key)
        invariant Dist(home, i, size) <= Dist(home, e, size)
        decreases Dist(i, e, size)
      {
        if test(key, mappings[i].key) {
          LookupAt(M, hash, test, key, mappings[i].key);
          return;
        }
        assert s[i].Entry? && i != e;
        i := Next(i, size);
      }
      AbsentAtEmpty(s, M, hash, test, key, i);
    }

    method Get(key: K) returns (value: V)
      requires Valid()
      ensures value == match Lookup(M, test, key) case Some(pair) => pair.1 case None => nullValue
    {
      var i := FindMapping(key);
      value := if mappings[i].Entry? then mappings[i].value else nullValue;
    }

    method GetPair(key: K) returns (pair: Option<(K, V)>)
      requires Valid()
      ensures pair == Lookup(M, test, key)
    {
      var i := FindMapping(key);
      pair := if mappings[i].Entry? then Some((mappings[i].key, mappings[i].value)) else None;
    }

    method Contains(key: K) returns (found: bool)
      requires Valid()
      ensures found == Held(M, test, key)
    {
      var i := FindMapping(key);
      found := mappings[i].Entry?;
    }

    method Count() returns (n: nat)
      requires Valid()
      ensures n == |M|
    {
      n := count;
    }

    /** A first empty slot on the probe path of a key in a bare array, keys not compared. */
    static method FindEmpty(slots: array<Slot<K, V>>, home: nat, ghost m: map<K, V>) returns (q: nat)
      requires home < slots.Length && Represents(slots[..], m) && |m| < slots.Length
      ensures q < slots.Length && slots[q].Empty? && PathFilled(slots[..], home, q)
    {
      ghost var e := EmptySlotExists(slots[..], m);
      var n := slots.Length;
      q := home;
      while slots[q].Entry?
        invariant q < n
        invariant forall p :: 0 <= p < n && Between(home, p, q) ==> slots[p].Entry?
        invariant Dist(home, q, n) <= Dist(home, e, n)
        decreases Dist(q, e, n)
      {
        assert slots[..][q].Entry? && q != e;
        q := Next(q, n);
      }
    }

    /** The loop of a grow: every entry of the old array is placed in the new one; `placed`
        counts the placements. */
    method TransferAll(target: array<Slot<K, V>>) returns (ghost placed: nat)
      requires Valid() && target != mappings && count < target.Length
      requires forall j :: 0 <= j < target.Length ==> target[j] == Empty
      modifies target
      ensures Represents(target[..], M) && Probeable(target[..], hash)
      ensures placed == count
    {
      placed := 0;
      NothingStored(target[..], hash);
      ghost var s, m: map<K, V> := mappings[..], map[];
      for mp := 0 to mappings.Length
        invariant mappings[..] == s
        invariant Transferred(s, M, mp, target[..], m, hash)
        invariant placed == |m|
      {
        ghost var t := target[..];
        if mappings[mp].Entry? {
          SubsetSize(m.Keys, M.Keys);
          var q := FindEmpty(target, Home(hash, mappings[mp].key, target.Length), m);
          TransferNext(s, M, mp, t, m, hash, q);
          SizeWithKey(m, s[mp].key, s[mp].value);
          target[q] := mappings[mp];
          placed := placed + 1;
          assert target[..] == t[q := s[mp]];
          m := m[s[mp].key := s[mp].value];
        } else {
          TransferSkip(s, M, mp, t, m, hash);
        }
      }
      TransferDone(s, M, target[..], m, hash);
    }

    method Grow()
      requires Valid() && 2 * size <= INT_MAX && count == resizeThreshold && count < puts
      modifies this
      ensures Valid() && fresh(mappings)
      ensures M == old(M) && count == old(count) && puts == old(puts)
      ensures moved == old(moved) + old(count)
      ensures count < resizeThreshold
      ensures IsSmallestFit(primes, 2 * old(size), size)
    {
      OffsetStaysSafe(primes, size, primeOffset, 2 * size);
      var newSize, newOffset := PrimeSize(primes, 2 * size, primeOffset);
      var target := new Slot<K, V>[newSize](_ => Empty);
      ghost var placed := TransferAll(target);
      size, primeOffset, resizeThreshold := newSize, newOffset, Threshold(newSize);
      mappings := target;
      moved := moved + placed;
    }

    /** The one call that can run into the int range: a new key in a full table. */
    ghost predicate MayPut(key: K)
      reads this
    {
      Held(M, test, key) || 4 * (count + 1) <= 3 * size || 2 * size <= INT_MAX
    }

    /** Exactly the tables below the last doublable size can always take a new key. */
    lemma MayPutIff(key: K)
      requires Valid()
      ensures MayPut(key) <==> Held(M, test, key) || 4 * (count + 1) <= 3 * size || size < 1174703521
    {
      assert size in primes;
    }

    method UpdateAt(mp: nat, key: K, value: V)
      requires Valid() && mp < size && mappings[mp].Entry? && test(key, mappings[mp].key)
      modifies `M, mappings
      ensures Valid() && M == Without(old(M), test, key)[key := value]
      ensures count == old(count)
      ensures mappings[..] == old(mappings[..])[mp := Entry(key, value)]
    {
      ghost var s := mappings[..];
      LookupAt(M, hash, test, key, s[mp].key);
      StepKeepsDistinct(M, hash, test, Op.Put(key, value));
      ReplaceSlot(s, M, hash, mp, key, value);
      mappings[mp] := Entry(key, value);
      assert mappings[..] == s[mp := Entry(key, value)];
      M := (M - {s[mp].key})[key := value];
    }

    method AddAt(mp: nat, key: K, value: V)
      requires Valid() && !Held(M, test, key) && count < resizeThreshold && count < puts
      requires mp < size && mappings[mp].Empty? && PathFilled(mappings[..], Home(hash, key, size), mp)
      modifies `M, `count, mappings
      ensures Valid() && M == old(M)[key := value]
    {
      ghost var s := mappings[..];
      WithoutAbsent(M, test, key);
      StepKeepsDistinct(M, hash, test, Op.Put(key, value));
      FillSlot(s, M, hash, mp, key, value);
      count := count + 1;
      mappings[mp] := Entry(key, value);
      assert mappings[..] == s[mp := Entry(key, value)];
      M := M[key := value];
    }

    method Put(key: K, value: V)
      requires Valid() && MayPut(key)
      modifies this, mappings
      ensures Valid() && (mappings == old(mappings) || fresh(mappings))
      ensures M == Step(old(M), test, Op.Put(key, value))
      ensures count == if Held(old(M), test, key) then old(count) else old(count) + 1
      ensures puts == old(puts) + 1
      ensures if Held(old(M), test, key) || 4 * (old(count) + 1) <= 3 * old(size)
              then size == old(size) && moved == old(moved)
              else IsSmallestFit(primes, 2 * old(size), size) && moved == old(moved) + old(count)
    {
      assert count < resizeThreshold <==> 4 * (count + 1) <= 3 * size;
      puts := puts + 1;
      var mp := FindMapping(key);
      if mappings[mp].Entry? {
        UpdateAt(mp, key, value);
        return;
      }
      WithoutAbsent(M, test, key);
      if count >= resizeThreshold {
        Grow();
        mp := FindMapping(key);
      }
      AddAt(mp, key, value);
    }

    /** Where re-placing puts the entry at cur: the first hole on its path, or cur itself.
        Comparing keys by identity is enough because stored keys are pairwise different. */
    method NewPlace(cur: nat, ghost m: map<K, V>) returns (q: nat)
      requires size == mappings.Length && Represents(mappings[..], m)
      requires cur < size && mappings[cur].Entry?
      ensures q < size && PathFilled(mappings[..], Home(hash, mappings[cur].key, size), q)
      ensures q == cur || mappings[q].Empty?
      ensures q == cur || Between(Home(hash, mappings[cur].key, size), q, cur)
    {
      ghost var s := mappings[..];
      var key2 := mappings[cur].key;
      ghost var home := Home(hash, key2, size);
      q := Home(hash, key2, size);
      while mappings[q].Entry?
        invariant q < size
        invariant forall p :: 0 <= p < size && Between(home, p, q) ==> mappings[p].Entry?
        invariant Dist(home, q, size) <= Dist(home, cur, size)
        decreases Dist(q, cur, size)
      {
        if key2 == mappings[q].key {
          assert s[q].key == s[cur].key;
          return;
        }
        q := Next(q, size);
      }
    }

    /** Empties a slot and re-places the entries that follow it, up to the next empty slot. */
    method Vacate(from: nat, ghost m: map<K, V>, ghost key: K)
      requires 13 <= size == mappings.Length && from < size
      requires Represents(mappings[..], m) && Probeable(mappings[..], hash)
      requires mappings[from].Entry? && mappings[from].key == key && |m - {key}| < size - 1
      modifies mappings
      ensures Represents(mappings[..], m - {key}) && Probeable(mappings[..], hash)
      ensures MovedTowards(mappings[..], old(mappings[..]), from)
    {
      ghost var before := mappings[..];
      EmptySlot(before, m, from);
      mappings[from] := Empty;
      assert mappings[..] == before[from := Empty];
      RehashAfter(from, before, m - {key});
    }

    method RehashAfter(from: nat, ghost before: seq<Slot<K, V>>, ghost m: map<K, V>)
      requires 13 <= size == mappings.Length && from < size == |before|
      requires before[from].Entry? && mappings[..] == before[from := Empty]
      requires Probeable(before, hash) && Represents(mappings[..], m)
      requires |m| < size - 1
      modifies mappings
      ensures Represents(mappings[..], m) && Probeable(mappings[..], hash)
      ensures MovedTowards(mappings[..], before, from)
    {
      ghost var e := SecondHole(before, m, from);
      RehashStart(before, hash, from, e);
      var mp := Next(from, size);
      while mappings[mp].Entry?
        invariant Rehashing(mappings[..], before, hash, from, mp, e)
        invariant Represents(mappings[..], m)
        decreases size - Dist(from, mp, size)
      {
        FurtherStill(mappings[..], before, hash, from, mp, e);
        RehashOne(mp, from, before, m, e);
        mp := Next(mp, size);
      }
      RehashDone(mappings[..], before, hash, from, mp, e);
    }

    /** One round of the loop: the entry at mp is moved or left, and the loop is one step on. */
    method RehashOne(mp: nat, ghost from: nat, ghost before: seq<Slot<K, V>>, ghost m: map<K, V>, ghost e: nat)
      requires size == mappings.Length && mp < size && mappings[mp].Entry?
      requires Rehashing(mappings[..], before, hash, from, mp, e) && Represents(mappings[..], m)
      modifies mappings
      ensures Rehashing(mappings[..], before, hash, from, Next(mp, size), e) && Represents(mappings[..], m)
    {
      ghost var s := mappings[..];
      var q := NewPlace(mp, m);
      if q != mp {
        ghost var t := s[q := s[mp]][mp := Empty];
        RehashMove(s, before, t, hash, from, mp, e, q);
        MoveSlot(s, m, q, mp);
        mappings[q] := mappings[mp];
        mappings[mp] := Empty;
        assert mappings[..] == t;
      } else {
        RehashStay(s, before, hash, from, mp, e);
      }
    }

    method RemoveAt(mp: nat, ghost key: K)
      requires Valid() && mp < size && mappings[mp].Entry? && mappings[mp].key == key
      modifies `M, `count, mappings
      ensures Valid() && M == old(M) - {key} && count == old(count) - 1
      ensures MovedTowards(mappings[..], old(mappings[..]), mp)
    {
      SizeWithoutKey(M, key);
      count := count - 1;
      M := M - {key};
      assert Shape();
      Vacate(mp, old(M), key);
    }

    /** `from` is the slot the key was found in. */
    method Remove(key: K) returns (removed: bool, ghost from: nat)
      requires Valid()
      modifies `M, `count, mappings
      ensures Valid() && removed == Held(old(M), test, key)
      ensures M == Step(old(M), test, Op.Remove(key))
      ensures count == if removed then old(count) - 1 else old(count)
      ensures from < size && removed == old(mappings[from]).Entry?
      ensures removed ==> test(key, old(mappings[from]).key)
      ensures removed ==> MovedTowards(mappings[..], old(mappings[..]), from)
      ensures !removed ==> mappings[..] == old(mappings[..])
    {
      var mp := FindMapping(key);
      WithoutSize(M, hash, test, key);
      if mappings[mp].Empty? {
        WithoutAbsent(M, test, key);
        return false, mp;
      }
      LookupAt(M, hash, test, key, mappings[mp].key);
      RemoveAt(mp, mappings[mp].key);
      return true, mp;
    }

    /** What a callback does that removes the entry it was called with. */
    method RemoveCurrent(mp: nat, key: K)
      requires Valid() && mp < size && mappings[mp].Entry? && mappings[mp].key == key
      modifies `M, `count, mappings
      ensures Valid() && M == old(M) - {key} && count == old(count) - 1
      ensures MovedTowards(mappings[..], old(mappings[..]), mp)
    {
      ghost var s := mappings[..];
      assert s[mp].key in M;
      LookupAt(M, hash, test, key, key);
      ghost var removed, from := Remove(key);
      assert s[from].key == s[mp].key;
    }

    /** What a callback does that gives the entry it was called with a new value. */
    method ChangeCurrent(mp: nat, key: K, value: V)
      requires Valid() && mp < size && mappings[mp].Entry? && mappings[mp].key == key
      modifies `M, mappings
      ensures Valid() && M == old(M)[key := value] && count == old(count)
      ensures mappings[..] == old(mappings[..])[mp := Entry(key, value)]
    {
      assert mappings[..][mp].key in M;
      LookupAt(M, hash, test, key, key);
      NewValue(M, key, value);
      UpdateAt(mp, key, value);
    }

    /** Calls the callback on every entry in slot order. Removing may shift a later entry into
        the current slot, which is then visited too; an entry that a removal carries round the
        array end may be visited again. */
    method Map(c: Callback<K, V>) returns (stopped: bool, ghost log: seq<Call<K>>)
      requires Valid()
      modifies `M, `count, mappings
      ensures Valid()
      ensures if stopped then Ended(c, old(M), M, log) else Completed(c, old(M), M, log)
      ensures !stopped && DropsNone(c, old(M)) ==>
              M == (map k | k in old(M) :: c.change(k, old(M)[k])) && |log| == |old(M)|
      ensures !stopped && Stable(c, old(M)) ==>
              M == map k | k in old(M) && !c.drop(k, old(M)[k]) :: c.change(k, old(M)[k])
    {
      var mp := 0;
      ghost var before := M;
      log := [];
      SweepStarts(c, mappings[..], M);
      while mp < size
        invariant mp <= size && Valid()
        invariant Sweeping(c, before, mappings[..], M, mp, log)
        decreases size - mp, count
      {
        var repeat;
        stopped, repeat, log := Visit(mp, c, before, log);
        if stopped {
          return;
        }
        mp := if repeat then mp else mp + 1;
      }
      SweepResult(c, before, mappings[..], M, log);
      return false, log;
    }

    /** One visit to a slot, in a sweep that began with the map `before`: whether the sweep ends
        here, and whether the slot now holds another entry, still to be visited. */
    method Visit(mp: nat, c: Callback<K, V>, ghost before: map<K, V>, ghost log: seq<Call<K>>)
      returns (stopped: bool, repeat: bool, ghost next: seq<Call<K>>)
      requires Valid() && mp < size && Sweeping(c, before, mappings[..], M, mp, log)
      modifies `M, `count, mappings
      ensures Valid()
      ensures old(mappings[mp]) == Empty ==>
              mappings[..] == old(mappings[..]) && M == old(M) && next == log && !stopped
      ensures old(mappings[mp]).Entry? ==>
              var key, value := old(mappings[mp]).key, old(mappings[mp]).value;
              && next == log + [Call(key, CarriedKeys(old(mappings[..]), mappings[..], mp))]
              && (stopped <==> c.stop(key, value))
              && M == if c.drop(key, value) then old(M) - {key} else old(M)[key := c.change(key, value)]
      ensures old(mappings[mp]).Entry? && !c.drop(old(mappings[mp]).key, old(mappings[mp]).value) ==>
              var key, value := old(mappings[mp]).key, old(mappings[mp]).value;
              mappings[..] == old(mappings[..])[mp := Entry(key, c.change(key, value))]
      ensures stopped ==> Ended(c, before, M, next)
      ensures !stopped && repeat ==> Sweeping(c, before, mappings[..], M, mp, next)
      ensures !stopped && !repeat ==> Sweeping(c, before, mappings[..], M, mp + 1, next)
      ensures !stopped ==> (repeat <==>
              old(mappings[mp]).Entry? && mappings[mp].Entry? && mappings[mp].key != old(mappings[mp]).key)
      ensures !stopped && repeat ==> count < old(count)
    {
      next := log;
      if mappings[mp].Empty? {
        RoundSkipsEmpty(mappings[..], mp, log);
        return false, false, log;
      }
      var key, value := mappings[mp].key, mappings[mp].value;
      next := CallBack(mp, key, value, c, before, log);
      if c.stop(key, value) {
        return true, false, next;
      }
      if mappings[mp].Entry? && mappings[mp].key != key {
        return false, true, next;
      }
      if mappings[mp].Empty? {
        RoundSkipsEmpty(mappings[..], mp, next);
      }
      return false, false, next;
    }

    /** What the callback does with the entry in slot mp. */
    method CallBack(mp: nat, key: K, value: V, c: Callback<K, V>, ghost before: map<K, V>, ghost log: seq<Call<K>>)
      returns (ghost next: seq<Call<K>>)
      requires Valid() && mp < size && Sweeping(c, before, mappings[..], M, mp, log)
      requires mappings[mp] == Entry(key, value)
      modifies `M, `count, mappings
      ensures Valid()
      ensures next == log + [Call(key, CarriedKeys(old(mappings[..]), mappings[..], mp))]
      ensures c.stop(key, value) ==> Ended(c, before, M, next)
      ensures c.drop(key, value) ==>
              && M == old(M) - {key} && count == old(count) - 1
              && MovedTowards(mappings[..], old(mappings[..]), mp)
              && (mappings[mp].Entry? ==> mappings[mp].key != key)
              && (!c.stop(key, value) ==> Sweeping(c, before, mappings[..], M, mp, next))
      ensures !c.drop(key, value) ==>
              && M == old(M)[key := c.change(key, value)] && count == old(count)
              && mappings[..] == old(mappings[..])[mp := Entry(key, c.change(key, value))]
              && (!c.stop(key, value) ==> Sweeping(c, before, mappings[..], M, mp + 1, next))
    {
      ghost var s, m := mappings[..], M;
      next := log + [Call(key, {})];
      if c.drop(key, value) {
        RemoveCurrent(mp, key);
        assert mappings[mp].Entry? ==> mappings[..][mp].key in M;
        AfterRemoval(c, before, s, m, mappings[..], M, mp, log);
        next := log + [Call(key, CarriedKeys(s, mappings[..], mp))];
      } else {
        ChangeCurrent(mp, key, c.change(key, value));
        AfterChange(c, before, s, m, mappings[..], M, mp, log);
      }
    }

    method Clear()
      requires Valid()
      modifies this, mappings
      ensures Valid() && mappings == old(mappings)
      ensures M == map[] && size == old(size) && puts == old(puts) && moved == old(moved)
    {
      for i := 0 to size
        invariant size == old(size) == mappings.Length && mappings == old(mappings)
        invariant forall j :: 0 <= j < i ==> mappings[j] == Empty
        modifies mappings
      {
        mappings[i] := Empty;
      }
      count := 0;
      M := map[];
      NothingStored(mappings[..], hash);
    }
  }
}
