/** Pigeonhole facts about finite maps and integer ranges. */
module Cardinality {

  ghost predicate Injective<A, B>(f: map<A, B>) {
    forall x, y :: x in f && y in f && f[x] == f[y] ==> x == y
  }

  lemma {:induction false} InjectionSize<A, B>(f: map<A, B>)
    requires Injective(f)
    ensures |f.Values| == |f|
  {
    if x :| x in f {
      var g := map y | y in f && y != x :: f[y];
      assert g.Keys == f.Keys - {x};
      InjectionSize(g);
      forall b
        ensures b in f.Values - {f[x]} <==> b in g.Values
      {
        if b in f.Values - {f[x]} {
          var y :| y in f && f[y] == b;
          assert y in g && g[y] == b;
        }
        if b in g.Values {
          var y :| y in g && g[y] == b;
          assert f[y] == b;
        }
      }
      assert f.Values == g.Values + {f[x]};
    }
  }

  lemma {:induction false} SubsetSize<A>(a: set<A>, b: set<A>)
    requires a <= b
    ensures |a| <= |b|
  {
    assert b == a + (b - a);
  }

  /** An injection takes some value outside any smaller set. */
  lemma ValueOutside<A, B>(f: map<A, B>, b: set<B>)
    requires Injective(f) && |b| < |f|
    ensures exists x :: x in f && f[x] !in b
  {
    InjectionSize(f);
    if f.Values <= b {
      SubsetSize(f.Values, b);
    }
  }

  function Range(n: nat): (r: set<int>)
    ensures |r| == n
    ensures forall i :: i in r <==> 0 <= i < n
  {
    if n == 0 then {} else Range(n - 1) + {n - 1}
  }

  /** A set smaller than a range leaves some of it out. */
  lemma RoomOutside(n: nat, taken: set<int>) returns (i: nat)
    requires |taken| < n
    ensures i < n && i !in taken
  {
    if Range(n) <= taken {
      SubsetSize(Range(n), taken);
    }
    i :| i in Range(n) && i !in taken;
  }
}
