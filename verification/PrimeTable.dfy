/** The table of primes a hash table takes its sizes from, and the search in it
    that starts at a remembered offset. */
module PrimeTable {

  const INT_MAX := 0x7fff_ffff

  /** The smallest size of the table that cannot be doubled within an int. */
  const LAST_SIZE := 1174703521

  const SMALL_PRIMES: seq<int> := [
    13, 19, 29, 41, 59, 79, 107, 149, 197, 263, 347, 457, 599, 787, 1031,
    1361, 1777, 2333, 3037, 3967, 5167, 6719, 8737, 11369, 14783
  ]

  const MIDDLE_PRIMES: seq<int> := [
    19219, 24989, 32491, 42257, 54941, 71429, 92861, 120721, 156941,
    204047, 265271, 344857, 448321, 582821, 757693, 985003, 1280519,
    1664681, 2164111, 2813353, 3657361, 4754591, 6180989, 8035301
  ]

  const LARGE_PRIMES: seq<int> := [
    10445899, 13579681, 17653589, 22949669, 29834603, 38784989,
    50420551, 65546729, 85210757, 110774011, 144006217, 187208107,
    243370577, 316381771, 411296309, 534685237, 695090819, 903618083,
    1174703521, 1527114613, 1837299131, 2147483647
  ]

  const PRIMES: seq<int> := SMALL_PRIMES + MIDDLE_PRIMES + LARGE_PRIMES

  ghost predicate Ascending(table: seq<int>) {
    forall i, j :: 0 <= i < j < |table| ==> table[i] < table[j]
  }

  /** r is the smallest entry of the table that is at least `request`. */
  ghost predicate IsSmallestFit(table: seq<int>, request: int, r: int) {
    r in table && request <= r && forall p :: p in table && request <= p ==> r <= p
  }

  /** Every entry before `offset` is below `request`: the remembered offset skips
      nothing that a search from the start would have returned. */
  ghost predicate SkipsNothing(table: seq<int>, request: int, offset: nat) {
    offset <= |table| && forall j :: 0 <= j < offset ==> table[j] < request
  }

  /** The search from a remembered offset: it returns what a search of the whole table
      would. The final offset is one past the entry returned. Every int request is met. */
  method PrimeSize(table: seq<int>, request: int, offset: nat) returns (r: int, next: nat)
    requires IsTable(table) && request <= INT_MAX
    requires SkipsNothing(table, request, offset)
    ensures IsSmallestFit(table, request, r)
    ensures LeftBySearch(table, r, next) && 13 <= r
  {
    var i := offset;
    while table[i] < request
      invariant i < |table| && SkipsNothing(table, request, i)
      decreases |table| - i
    {
      i := i + 1;
    }
    return table[i], i + 1;
  }

  /** The offset left behind by a search stays safe for any larger request. */
  lemma {:induction false} OffsetStaysSafe(table: seq<int>, size: int, offset: nat, request: int)
    requires IsTable(table) && LeftBySearch(table, size, offset) && size < request
    ensures SkipsNothing(table, request, offset)
  {
    assert offset - 1 < |table|;
  }

  /** The table ascends from 13 to the largest int, so every int request is met. */
  lemma TableFacts()
    ensures Ascending(PRIMES) && |PRIMES| == 71
    ensures PRIMES[0] == 13 && PRIMES[70] == INT_MAX
    ensures PRIMES[66] <= INT_MAX / 2 && PRIMES[67] == LAST_SIZE
  {
    assert Neighbours(SMALL_PRIMES) && SMALL_PRIMES[|SMALL_PRIMES| - 1] < MIDDLE_PRIMES[0];
    assert Neighbours(MIDDLE_PRIMES) && MIDDLE_PRIMES[|MIDDLE_PRIMES| - 1] < LARGE_PRIMES[0];
    assert Neighbours(LARGE_PRIMES);
    AscendingByNeighbours(PRIMES);
  }

  ghost predicate Neighbours(table: seq<int>) {
    forall k :: 0 <= k < |table| - 1 ==> table[k] < table[k + 1]
  }

  lemma {:induction false} AscendingByNeighbours(table: seq<int>)
    requires Neighbours(table)
    ensures Ascending(table)
  {
    if |table| > 0 {
      var front := table[..|table| - 1];
      AscendingByNeighbours(front);
      forall i, j | 0 <= i < j < |table|
        ensures table[i] < table[j]
      {
        if j == |table| - 1 && i < j - 1 {
          assert front[i] < front[j - 1];
        } else if j < |table| - 1 {
          assert front[i] < front[j];
        }
      }
    }
  }

  /** `size` is the table's entry just before `offset`: what a search leaves behind. */
  ghost predicate LeftBySearch(table: seq<int>, size: int, offset: nat) {
    0 < offset <= |table| && table[offset - 1] == size
  }

  /** A table hash tables can be sized from: it starts at 13, ends with the largest int, and
      its sizes below LAST_SIZE are those that can be doubled. */
  ghost predicate IsTable(table: seq<int>) {
    && Ascending(table) && |table| > 0 && 13 <= table[0] && table[|table| - 1] == INT_MAX
    && forall size {:trigger size in table} :: size in table ==> (size < LAST_SIZE <==> 2 * size <= INT_MAX)
  }

  lemma PrimesAreATable()
    ensures IsTable(PRIMES)
  {
    TableFacts();
    forall size | size in PRIMES
      ensures size < LAST_SIZE <==> 2 * size <= INT_MAX
    {
      var i :| 0 <= i < |PRIMES| && PRIMES[i] == size;
      SplitAt(PRIMES, i, 66);
    }
  }

  /** In an ascending table every entry is at most the k-th or at least the one after it. */
  lemma SplitAt(table: seq<int>, i: nat, k: nat)
    requires Ascending(table) && i < |table| && k + 1 < |table|
    ensures table[i] <= table[k] || table[k + 1] <= table[i]
  {
  }

  lemma SmallestFitExists(table: seq<int>, request: int, i: nat) returns (r: int)
    requires Ascending(table) && i < |table| && request <= table[i]
    ensures IsSmallestFit(table, request, r)
  {
    if j :| 0 <= j < i && request <= table[j] {
      r := SmallestFitExists(table, request, j);
    } else {
      r := table[i];
    }
  }

  ghost function SmallestFit(table: seq<int>, request: int): (r: int)
    requires IsTable(table) && request <= INT_MAX
    ensures IsSmallestFit(table, request, r)
  {
    assert exists r :: IsSmallestFit(table, request, r) by {
      var r := SmallestFitExists(table, request, |table| - 1);
    }
    var r :| IsSmallestFit(table, request, r);
    r
  }

  lemma SmallestFitUnique(table: seq<int>, request: int, r: int)
    requires IsTable(table) && request <= INT_MAX && IsSmallestFit(table, request, r)
    ensures r == SmallestFit(table, request)
  {
  }
}
