/** Whole runs of a hash table: from its creation through any sequence of puts, removes and
    clears. */
module HashRuns {
  import opened KeyMap
  import opened Slots
  import opened PrimeTable
  import opened HashTables
  import opened HistoryIndependence

  /** Three quarters of the smallest size that cannot be doubled. */
  const MAX_KEYS := 881027640

  /** The operation puts a key that is new and would fill more than three quarters of the slots. */
  ghost predicate Grows<K, V>(m: map<K, V>, test: (K, K) -> bool, op: Op<K, V>, size: int) {
    op.Put? && !Held(m, test, op.key) && 4 * (|m| + 1) > 3 * size
  }

  ghost function NextSize<K, V>(table: seq<int>, m: map<K, V>, test: (K, K) -> bool, op: Op<K, V>, size: int): int
    requires IsTable(table)
  {
    if Grows(m, test, op, size) && 2 * size <= INT_MAX then SmallestFit(table, 2 * size) else size
  }

  /** The size a table that started with `first` has after a history. */
  ghost function SizeAfter<K, V>(table: seq<int>, first: int, test: (K, K) -> bool, ops: seq<Op<K, V>>): int
    requires IsTable(table)
  {
    if ops == [] then first
    else
      var before := ops[..|ops| - 1];
      NextSize(table, Run(test, before), test, ops[|ops| - 1], SizeAfter(table, first, test, before))
  }

  /** No grow of the run doubles a size out of the int range. */
  ghost predicate StaysInRange<K, V>(table: seq<int>, first: int, test: (K, K) -> bool, ops: seq<Op<K, V>>)
    requires IsTable(table)
  {
    forall i :: 0 <= i < |ops| && Grows(Run(test, ops[..i]), test, ops[i], SizeAfter(table, first, test, ops[..i]))
      ==> 2 * SizeAfter(table, first, test, ops[..i]) <= INT_MAX
  }

  lemma RunNext<K, V>(table: seq<int>, first: int, test: (K, K) -> bool, ops: seq<Op<K, V>>, i: nat)
    requires IsTable(table) && i < |ops|
    ensures Run(test, ops[..i + 1]) == Step(Run(test, ops[..i]), test, ops[i])
    ensures Puts(ops[..i + 1]) == Puts(ops[..i]) + if ops[i].Put? then 1 else 0
    ensures SizeAfter(table, first, test, ops[..i + 1]) ==
            NextSize(table, Run(test, ops[..i]), test, ops[i], SizeAfter(table, first, test, ops[..i]))
  {
    assert ops[..i + 1][..i] == ops[..i];
    assert PutsOf(ops[..i + 1]) == PutsOf(ops[..i]) + if ops[i].Put? then {i} else {};
  }

  /** The run never holds more than `items` keys at once. */
  ghost predicate FitsWithin<K, V>(test: (K, K) -> bool, ops: seq<Op<K, V>>, items: int) {
    forall j :: 0 <= j <= |ops| ==> |Run(test, ops[..j])| <= items
  }

  lemma StepAddsKey<K(!new), V>(m: map<K, V>, test: (K, K) -> bool, op: Op<K, V>, size: int)
    requires Grows(m, test, op, size) && forall a :: test(a, a)
    ensures |Step(m, test, op)| == |m| + 1
  {
    WithoutAbsent(m, test, op.key);
    assert op.key !in m;
    SizeWithKey(m, op.key, op.value);
  }

  /** A run that fits the preallocation keeps the first size throughout. */
  lemma {:induction false} PreallocatedNeverGrows<K(!new), V>(table: seq<int>, first: int, hash: K -> nat,
                                                              test: (K, K) -> bool, ops: seq<Op<K, V>>,
                                                              items: int, i: nat)
    requires IsTable(table) && Agree(hash, test) && i <= |ops|
    requires FitsWithin(test, ops, items) && 4 * items <= 3 * first
    ensures SizeAfter(table, first, test, ops[..i]) == first
  {
    if i > 0 {
      PreallocatedNeverGrows(table, first, hash, test, ops, items, i - 1);
      RunNext(table, first, test, ops, i - 1);
      if Grows(Run(test, ops[..i - 1]), test, ops[i - 1], first) {
        StepAddsKey(Run(test, ops[..i - 1]), test, ops[i - 1], first);
      }
    }
  }

  /** Sizes come from the table. */
  lemma {:induction false} SizeFromTable<K, V>(table: seq<int>, first: int, test: (K, K) -> bool, ops: seq<Op<K, V>>)
    requires IsTable(table) && first in table
    ensures SizeAfter(table, first, test, ops) in table
  {
    if ops != [] {
      SizeFromTable(table, first, test, ops[..|ops| - 1]);
    }
  }

  /** A run stays in the int range if it never holds more than MAX_KEYS keys at once, however
      many puts it makes. */
  lemma FewKeysStayInRange<K(!new), V>(table: seq<int>, first: int, hash: K -> nat, test: (K, K) -> bool,
                                       ops: seq<Op<K, V>>)
    requires IsTable(table) && Agree(hash, test) && first in table
    requires FitsWithin(test, ops, MAX_KEYS)
    ensures StaysInRange(table, first, test, ops)
  {
    forall i | 0 <= i < |ops| && Grows(Run(test, ops[..i]), test, ops[i], SizeAfter(table, first, test, ops[..i]))
      ensures 2 * SizeAfter(table, first, test, ops[..i]) <= INT_MAX
    {
      var size := SizeAfter(table, first, test, ops[..i]);
      SizeFromTable(table, first, test, ops[..i]);
      StepAddsKey(Run(test, ops[..i]), test, ops[i], size);
      RunNext(table, first, test, ops, i);
      assert |Run(test, ops[..i + 1])| <= MAX_KEYS;
      assert size in table && size < LAST_SIZE;
    }
  }

  /** One operation. Only a put of a new key into a full table needs room to grow. */
  method Apply<K(!new), V>(t: HashTable<K, V>, op: Op<K, V>)
    requires t.Valid() && (Grows(t.M, t.test, op, t.size) ==> 2 * t.size <= INT_MAX)
    modifies t, t.mappings
    ensures t.Valid() && (t.mappings == old(t.mappings) || fresh(t.mappings))
    ensures t.M == Step(old(t.M), t.test, op)
    ensures t.puts == old(t.puts) + if op.Put? then 1 else 0
    ensures t.size == NextSize(t.primes, old(t.M), t.test, op, old(t.size))
    ensures t.moved == old(t.moved) + if Grows(old(t.M), t.test, op, old(t.size)) then |old(t.M)| else 0
  {
    match op {
      case Put(key, value) =>
        t.Put(key, value);
        if Grows(old(t.M), t.test, op, old(t.size)) {
          SmallestFitUnique(t.primes, 2 * old(t.size), t.size);
        }
      case Remove(key) =>
        var removed, _ := t.Remove(key);
      case Clear => t.Clear();
    }
  }

  /** A run from an empty table refines the finite map of its history; its size is what its
      history says; all its grows together move fewer than two entries a put; and one that
      fits the table it starts with never grows. */
  method RunOn<K(!new), V>(t: HashTable<K, V>, ops: seq<Op<K, V>>)
    requires t.Valid() && t.M == map[] && t.puts == 0 && t.moved == 0
    requires StaysInRange(t.primes, t.size, t.test, ops)
    modifies t, t.mappings
    ensures t.Valid() && t.M == Run(t.test, ops)
    ensures t.puts == Puts(ops)
    ensures t.size == SizeAfter(t.primes, old(t.size), t.test, ops)
    ensures t.moved == 0 || t.moved < 2 * Puts(ops)
    ensures FitsWithin(t.test, ops, 3 * old(t.size) / 4) ==> t.size == old(t.size) && t.moved == 0
  {
    ghost var table, first, test := t.primes, t.size, t.test;
    assert ops[..0] == [];
    for i := 0 to |ops|
      invariant t.Valid() && (t.mappings == old(t.mappings) || fresh(t.mappings))
      invariant t.M == Run(test, ops[..i]) && t.puts == Puts(ops[..i])
      invariant t.size == SizeAfter(table, first, test, ops[..i])
      invariant first <= t.size && (t.size == first ==> t.moved == 0)
    {
      RunNext(table, first, test, ops, i);
      Apply(t, ops[i]);
    }
    assert ops[..|ops|] == ops;
    if FitsWithin(test, ops, 3 * first / 4) {
      PreallocatedNeverGrows(table, first, t.hash, test, ops, 3 * first / 4, |ops|);
    }
  }

  /** The table of primes as a table sizes are taken from. */
  ghost function Sizes(): (table: seq<int>)
    ensures table == PRIMES && IsTable(table)
  {
    PrimesAreATable();
    PRIMES
  }

  ghost function FirstSize(items: int): (size: int)
    requires SizeFor(items) <= INT_MAX
    ensures IsSmallestFit(Sizes(), SizeFor(items), size)
  {
    SmallestFit(Sizes(), SizeFor(items))
  }

  /** The same from the creation of the table: lookups answer with the last word on a key,
      and a run that never holds more than `items` keys never grows. */
  method Execute<K(!new), V>(items: int, hash: K -> nat, test: (K, K) -> bool, nullValue: V, ops: seq<Op<K, V>>)
    returns (t: HashTable<K, V>)
    requires Agree(hash, test) && -INT_MAX <= SizeFor(items) <= INT_MAX
    requires StaysInRange(Sizes(), FirstSize(items), test, ops)
    ensures t.Valid() && t.hash == hash && t.test == test && t.M == Run(test, ops)
    ensures forall key :: Lookup(t.M, test, key) == LastWord(test, ops, key)
    ensures t.count == |Run(test, ops)|
    ensures t.size == SizeAfter(Sizes(), FirstSize(items), test, ops)
    ensures t.moved == 0 || t.moved < 2 * Puts(ops)
    ensures FitsWithin(test, ops, items) ==> t.size == FirstSize(items) && t.moved == 0
  {
    t := new HashTable(items, hash, test, nullValue);
    SmallestFitUnique(Sizes(), SizeFor(items), t.size);
    assert FitsWithin(test, ops, items) ==> FitsWithin(test, ops, 3 * t.size / 4);
    RunOn(t, ops);
    forall key
      ensures Lookup(t.M, test, key) == LastWord(test, ops, key)
    {
      LookupIsLastWord(hash, test, ops, key);
    }
  }

  /** Two tables of one size whose histories left the same keys fill the same slots. */
  lemma TablesFillTheSameSlots<K(!new), V>(a: HashTable<K, V>, b: HashTable<K, V>)
    requires a.Valid() && b.Valid() && a.size == b.size
    requires a.hash == b.hash && a.test == b.test
    requires KeysWithin(a.M, b.M, a.test) && KeysWithin(b.M, a.M, a.test)
    ensures FilledSlots(a.mappings[..]) == FilledSlots(b.mappings[..])
  {
    SameKeysSameSlots(a.mappings[..], a.M, b.mappings[..], b.M, a.hash, a.test);
  }
}
