/** What a hash table means: a finite map whose keys are told apart by a test function. */
module KeyMap {

  datatype Option<+T> = None | Some(value: T)

  /** The duties of the two callbacks: the test is an equivalence and keys that test equal
      hash equally. */
  ghost predicate Agree<K(!new)>(hash: K -> nat, test: (K, K) -> bool) {
    && (forall a :: test(a, a))
    && (forall a, b :: test(a, b) ==> test(b, a))
    && (forall a, b, c :: test(a, b) && test(b, c) ==> test(a, c))
    && (forall a, b :: test(a, b) ==> hash(a) == hash(b))
  }

  /** No two keys of m test equal. */
  ghost predicate Distinct<K, V>(m: map<K, V>, test: (K, K) -> bool) {
    forall a, b {:trigger test(a, b)} :: a in m && b in m && test(a, b) ==> a == b
  }

  ghost predicate Held<K, V>(m: map<K, V>, test: (K, K) -> bool, key: K) {
    exists k :: k in m && test(key, k)
  }

  /** The stored key and value under which `key` is found. */
  ghost function Lookup<K, V>(m: map<K, V>, test: (K, K) -> bool, key: K): Option<(K, V)> {
    if Held(m, test, key) then
      var k :| k in m && test(key, k);
      Some((k, m[k]))
    else
      None
  }

  ghost function Without<K, V>(m: map<K, V>, test: (K, K) -> bool, key: K): map<K, V> {
    map k | k in m && !test(key, k) :: m[k]
  }

  lemma LookupAt<K(!new), V>(m: map<K, V>, hash: K -> nat, test: (K, K) -> bool, key: K, k: K)
    requires Agree(hash, test) && Distinct(m, test) && k in m && test(key, k)
    ensures Lookup(m, test, key) == Some((k, m[k]))
    ensures Without(m, test, key) == m - {k}
  {
  }

  lemma WithoutAbsent<K, V>(m: map<K, V>, test: (K, K) -> bool, key: K)
    requires !Held(m, test, key)
    ensures Without(m, test, key) == m && Lookup(m, test, key) == None
  {
  }

  // ----- histories -----

  datatype Op<K, V> = Put(key: K, value: V) | Remove(key: K) | Clear

  ghost function Step<K, V>(m: map<K, V>, test: (K, K) -> bool, op: Op<K, V>): map<K, V> {
    match op
    case Put(key, value) => Without(m, test, key)[key := value]
    case Remove(key) => Without(m, test, key)
    case Clear => map[]
  }

  ghost function Run<K, V>(test: (K, K) -> bool, ops: seq<Op<K, V>>): map<K, V> {
    if ops == [] then map[] else Step(Run(test, ops[..|ops| - 1]), test, ops[|ops| - 1])
  }

  ghost function Puts<K, V>(ops: seq<Op<K, V>>): nat {
    |PutsOf(ops)|
  }

  ghost function PutsOf<K, V>(ops: seq<Op<K, V>>): set<int> {
    set i | 0 <= i < |ops| && ops[i].Put?
  }

  /** The last word of a history on a key, read off the operations alone. */
  ghost function LastWord<K, V>(test: (K, K) -> bool, ops: seq<Op<K, V>>, key: K): Option<(K, V)> {
    if ops == [] then
      None
    else
      match ops[|ops| - 1]
      case Put(k, value) =>
        if test(key, k) then Some((k, value)) else LastWord(test, ops[..|ops| - 1], key)
      case Remove(k) =>
        if test(key, k) then None else LastWord(test, ops[..|ops| - 1], key)
      case Clear =>
        None
  }

  lemma StepKeepsDistinct<K(!new), V>(m: map<K, V>, hash: K -> nat, test: (K, K) -> bool, op: Op<K, V>)
    requires Agree(hash, test) && Distinct(m, test)
    ensures Distinct(Step(m, test, op), test)
  {
  }

  lemma {:induction false} RunIsDistinct<K(!new), V>(hash: K -> nat, test: (K, K) -> bool, ops: seq<Op<K, V>>)
    requires Agree(hash, test)
    ensures Distinct(Run(test, ops), test)
  {
    if ops != [] {
      RunIsDistinct(hash, test, ops[..|ops| - 1]);
      StepKeepsDistinct(Run(test, ops[..|ops| - 1]), hash, test, ops[|ops| - 1]);
    }
  }

  /** A lookup after a history answers with the last word on the key: the latest put of an
      equal key, stored key included, unless a later remove or clear took it away. */
  lemma {:induction false} LookupIsLastWord<K(!new), V>(hash: K -> nat, test: (K, K) -> bool,
                                                        ops: seq<Op<K, V>>, key: K)
    requires Agree(hash, test)
    ensures Lookup(Run(test, ops), test, key) == LastWord(test, ops, key)
  {
    if ops != [] {
      var m, op := Run(test, ops[..|ops| - 1]), ops[|ops| - 1];
      LookupIsLastWord(hash, test, ops[..|ops| - 1], key);
      RunIsDistinct(hash, test, ops);
      RunIsDistinct(hash, test, ops[..|ops| - 1]);
      var m' := Step(m, test, op);
      if op.Put? && test(key, op.key) {
        LookupAt(m', hash, test, key, op.key);
      } else if Held(m', test, key) {
        var k :| k in m' && test(key, k);
        LookupAt(m', hash, test, key, k);
        LookupAt(m, hash, test, key, k);
      } else if k :| k in m && test(key, k) {
        assert k !in m';
      }
    }
  }

  lemma WithoutSize<K(!new), V>(m: map<K, V>, hash: K -> nat, test: (K, K) -> bool, key: K)
    requires Agree(hash, test) && Distinct(m, test)
    ensures |Without(m, test, key)| == if Held(m, test, key) then |m| - 1 else |m|
    ensures key !in Without(m, test, key)
  {
    if k :| k in m && test(key, k) {
      LookupAt(m, hash, test, key, k);
      SizeWithoutKey(m, k);
    } else {
      WithoutAbsent(m, test, key);
    }
  }

  lemma SizeWithoutKey<K, V>(m: map<K, V>, key: K)
    requires key in m
    ensures |m - {key}| == |m| - 1
  {
    assert m.Keys == (m - {key}).Keys + {key};
  }

  lemma NewValue<K, V>(m: map<K, V>, key: K, value: V)
    requires key in m
    ensures (m - {key})[key := value] == m[key := value]
  {
  }

  lemma SizeWithKey<K, V>(m: map<K, V>, key: K, value: V)
    requires key !in m
    ensures |m[key := value]| == |m| + 1
  {
    assert m[key := value].Keys == m.Keys + {key};
  }
}
