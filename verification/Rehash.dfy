/** Deletion without tombstones: after one slot of a cluster is emptied, the entries
    after it are re-placed one by one. `cur` is the entry under the loop's hand, `from`
    the slot that was emptied, and `d` a distance walked from `from`. */
module Rehash {
  import opened Cardinality
  import opened Slots

  /** Nothing d or more steps away has been touched. */
  ghost predicate Untouched<K, V>(s: seq<Slot<K, V>>, before: seq<Slot<K, V>>, from: nat, d: int) {
    |s| == |before| && forall p :: 0 <= p < |s| && d <= Dist(from, p, |s|) ==> s[p] == before[p]
  }

  /** A hole on the path of entry j is allowed only when j is still to be re-placed and
      the hole is already behind the loop. */
  ghost predicate HoleBehind(p: nat, j: nat, from: nat, d: int, size: nat) {
    Dist(from, p, size) < d <= Dist(from, j, size)
  }

  ghost predicate PathFilledOrBehind<K, V>(s: seq<Slot<K, V>>, a: nat, j: nat, from: nat, d: int) {
    forall p :: 0 <= p < |s| && Between(a, p, j) ==> s[p].Entry? || HoleBehind(p, j, from, d, |s|)
  }

  ghost predicate HolesBehind<K, V>(s: seq<Slot<K, V>>, hash: K -> nat, from: nat, d: int) {
    forall j :: 0 <= j < |s| && s[j].Entry? ==>
      PathFilledOrBehind(s, Home(hash, s[j].key, |s|), j, from, d)
  }

  /** The entry now at q was at p before, and only moved towards `from`. */
  ghost predicate CameFrom<K, V>(s: seq<Slot<K, V>>, before: seq<Slot<K, V>>, from: nat, q: nat, p: nat) {
    p < |before| == |s| && q < |s| && before[p] == s[q] && Dist(from, q, |s|) <= Dist(from, p, |s|)
  }

  ghost predicate MovedTowards<K, V>(s: seq<Slot<K, V>>, before: seq<Slot<K, V>>, from: nat) {
    |s| == |before| &&
    forall q :: 0 <= q < |s| && s[q].Entry? ==> exists p :: CameFrom(s, before, from, q, p)
  }

  /** The state of the re-placement with `cur` next; e is a slot that was empty all along. */
  ghost predicate Rehashing<K, V>(s: seq<Slot<K, V>>, before: seq<Slot<K, V>>, hash: K -> nat,
                                  from: nat, cur: nat, e: nat) {
    && |s| == |before| && from < |s| && cur < |s| && e < |s|
    && 0 < Dist(from, cur, |s|) <= Dist(from, e, |s|)
    && before[e].Empty?
    && Untouched(s, before, from, Dist(from, cur, |s|))
    && HolesBehind(s, hash, from, Dist(from, cur, |s|))
    && MovedTowards(s, before, from)
  }

  lemma RehashStart<K, V>(before: seq<Slot<K, V>>, hash: K -> nat, from: nat, e: nat)
    requires |before| > 1 && from < |before| && e < |before|
    requires before[from].Entry? && before[e].Empty?
    requires Probeable(before, hash)
    ensures Rehashing(before[from := Empty], before, hash, from, Next(from, |before|), e)
  {
    var s := before[from := Empty];
    assert Dist(from, Next(from, |s|), |s|) == 1;
    forall q | 0 <= q < |s| && s[q].Entry?
      ensures exists p :: CameFrom(s, before, from, q, p)
    {
      assert CameFrom(s, before, from, q, q);
    }
  }

  /** One step on, the loop is one step further from where it started. */
  lemma NextIsFurther(from: nat, cur: nat, e: nat, n: nat)
    requires from < n && cur < n && e < n && Dist(from, cur, n) < Dist(from, e, n)
    ensures Next(cur, n) < n && Dist(from, Next(cur, n), n) == Dist(from, cur, n) + 1
  {
  }

  /** No path runs through the slot that was empty all along, so none wraps past `from`: an
      entry behind the loop has no slot ahead of it on its path. */
  lemma PathStaysBehind<K, V>(s: seq<Slot<K, V>>, from: nat, d: int, e: nat, a: nat, j: nat, p: nat)
    requires from < |s| && e < |s| && a < |s| && j < |s| && p < |s|
    requires PathFilledOrBehind(s, a, j, from, d) && s[e].Empty? && d < Dist(from, e, |s|)
    requires Between(a, p, j) && Dist(from, p, |s|) == d
    ensures d < Dist(from, j, |s|)
  {
    assert !Between(a, e, j);
  }

  /** After a move, the path of any entry other than the moved one is as good as before. */
  lemma MoveKeepsPath<K, V>(s: seq<Slot<K, V>>, t: seq<Slot<K, V>>, from: nat, cur: nat, e: nat, q: nat, a: nat, j: nat)
    requires from < |s| && e < |s| && q < |s| && cur < |s| && j < |s| && a < |s| && j != cur
    requires t == s[q := s[cur]][cur := Empty] && s[cur].Entry?
    requires s[e].Empty? && Dist(from, cur, |s|) < Dist(from, e, |s|)
    requires PathFilledOrBehind(s, a, j, from, Dist(from, cur, |s|))
    ensures PathFilledOrBehind(t, a, j, from, Dist(from, cur, |s|) + 1)
  {
    var d := Dist(from, cur, |s|);
    if Between(a, cur, j) {
      PathStaysBehind(s, from, d, e, a, j, cur);
    }
    forall p | 0 <= p < |s| && Between(a, p, j)
      ensures t[p].Entry? || HoleBehind(p, j, from, d + 1, |s|)
    {
      assert s[p].Entry? || HoleBehind(p, j, from, d, |s|);
      assert Dist(from, j, |s|) == d ==> j == cur;
    }
  }

  lemma MoveKeepsHolesBehind<K, V>(s: seq<Slot<K, V>>, t: seq<Slot<K, V>>, hash: K -> nat,
                                   from: nat, cur: nat, e: nat, q: nat)
    requires from < |s| && e < |s| && cur < |s| && q < |s| && q != cur
    requires t == s[q := s[cur]][cur := Empty] && s[cur].Entry?
    requires s[e].Empty? && Dist(from, cur, |s|) < Dist(from, e, |s|)
    requires HolesBehind(s, hash, from, Dist(from, cur, |s|))
    requires PathFilled(s, Home(hash, s[cur].key, |s|), q) && Between(Home(hash, s[cur].key, |s|), q, cur)
    ensures HolesBehind(t, hash, from, Dist(from, cur, |s|) + 1)
  {
    forall j | 0 <= j < |t| && t[j].Entry?
      ensures PathFilledOrBehind(t, Home(hash, t[j].key, |t|), j, from, Dist(from, cur, |s|) + 1)
    {
      if j == q {
        assert forall p :: 0 <= p < |s| && Between(Home(hash, s[cur].key, |s|), p, q) ==> t[p] == s[p] || p == cur;
      } else {
        MoveKeepsPath(s, t, from, cur, e, q, Home(hash, t[j].key, |t|), j);
      }
    }
  }

  lemma MoveKeepsOrigin<K, V>(s: seq<Slot<K, V>>, before: seq<Slot<K, V>>, from: nat, cur: nat, q: nat)
    requires MovedTowards(s, before, from) && Untouched(s, before, from, Dist(from, cur, |s|))
    requires q < |s| && cur < |s| && Dist(from, q, |s|) < Dist(from, cur, |s|)
    ensures MovedTowards(s[q := s[cur]][cur := Empty], before, from)
  {
    var t := s[q := s[cur]][cur := Empty];
    forall k | 0 <= k < |t| && t[k].Entry?
      ensures exists p :: CameFrom(t, before, from, k, p)
    {
      if k == q {
        assert CameFrom(t, before, from, q, cur);
      } else {
        var p :| CameFrom(s, before, from, k, p);
        assert CameFrom(t, before, from, k, p);
      }
    }
  }

  lemma MoveKeepsUntouched<K, V>(s: seq<Slot<K, V>>, before: seq<Slot<K, V>>, t: seq<Slot<K, V>>,
                                 from: nat, cur: nat, q: nat)
    requires from < |s| && cur < |s| && q < |s| && t == s[q := s[cur]][cur := Empty]
    requires Untouched(s, before, from, Dist(from, cur, |s|))
    requires Dist(from, q, |s|) < Dist(from, cur, |s|)
    ensures Untouched(t, before, from, Dist(from, cur, |s|) + 1)
  {
  }

  lemma HoleIsBehind<K, V>(s: seq<Slot<K, V>>, hash: K -> nat, from: nat, cur: nat, q: nat)
    requires from < |s| && cur < |s| && q < |s| && s[cur].Entry? && s[q].Empty?
    requires HolesBehind(s, hash, from, Dist(from, cur, |s|)) && Between(Home(hash, s[cur].key, |s|), q, cur)
    ensures Dist(from, q, |s|) < Dist(from, cur, |s|)
  {
    assert PathFilledOrBehind(s, Home(hash, s[cur].key, |s|), cur, from, Dist(from, cur, |s|));
    assert HoleBehind(q, cur, from, Dist(from, cur, |s|), |s|);
  }

  /** The first hole on the path of the current entry, if any, takes the entry. */
  lemma RehashMove<K, V>(s: seq<Slot<K, V>>, before: seq<Slot<K, V>>, t: seq<Slot<K, V>>, hash: K -> nat,
                         from: nat, cur: nat, e: nat, q: nat)
    requires Rehashing(s, before, hash, from, cur, e) && s[cur].Entry?
    requires q < |s| && s[q].Empty? && Between(Home(hash, s[cur].key, |s|), q, cur)
    requires PathFilled(s, Home(hash, s[cur].key, |s|), q)
    requires t == s[q := s[cur]][cur := Empty]
    ensures Rehashing(t, before, hash, from, Next(cur, |s|), e)
  {
    assert s[e] == before[e];
    NextIsFurther(from, cur, e, |s|);
    assert Dist(from, q, |s|) < Dist(from, cur, |s|) by {
      HoleIsBehind(s, hash, from, cur, q);
    }
    MoveKeepsUntouched(s, before, t, from, cur, q);
    MoveKeepsOrigin(s, before, from, cur, q);
    MoveKeepsHolesBehind(s, t, hash, from, cur, e, q);
  }

  lemma StayKeepsPath<K, V>(s: seq<Slot<K, V>>, from: nat, cur: nat, a: nat, j: nat)
    requires from < |s| && cur < |s| && j < |s|
    requires PathFilledOrBehind(s, a, j, from, Dist(from, cur, |s|))
    requires j == cur ==> PathFilled(s, a, cur)
    ensures PathFilledOrBehind(s, a, j, from, Dist(from, cur, |s|) + 1)
  {
    assert Dist(from, j, |s|) == Dist(from, cur, |s|) ==> j == cur;
  }

  /** An entry whose whole path is filled stays where it is. */
  lemma RehashStay<K, V>(s: seq<Slot<K, V>>, before: seq<Slot<K, V>>, hash: K -> nat,
                         from: nat, cur: nat, e: nat)
    requires Rehashing(s, before, hash, from, cur, e) && s[cur].Entry?
    requires PathFilled(s, Home(hash, s[cur].key, |s|), cur)
    ensures Rehashing(s, before, hash, from, Next(cur, |s|), e)
  {
    assert s[e] == before[e];
    NextIsFurther(from, cur, e, |s|);
    forall j | 0 <= j < |s| && s[j].Entry?
      ensures PathFilledOrBehind(s, Home(hash, s[j].key, |s|), j, from, Dist(from, cur, |s|) + 1)
    {
      StayKeepsPath(s, from, cur, Home(hash, s[j].key, |s|), j);
    }
  }

  /** The loop has not reached the slot that was empty all along, so it ends. */
  lemma FurtherStill<K, V>(s: seq<Slot<K, V>>, before: seq<Slot<K, V>>, hash: K -> nat,
                           from: nat, cur: nat, e: nat)
    requires Rehashing(s, before, hash, from, cur, e) && s[cur].Entry?
    ensures Next(cur, |s|) < |s| && Dist(from, cur, |s|) < Dist(from, Next(cur, |s|), |s|) < |s|
  {
    assert s[e] == before[e];
    NextIsFurther(from, cur, e, |s|);
  }

  /** A path with a hole behind the loop would run through the empty slot the loop stopped at. */
  lemma PathDone<K, V>(s: seq<Slot<K, V>>, from: nat, cur: nat, a: nat, j: nat)
    requires from < |s| && cur < |s| && a < |s| && j < |s| && s[cur].Empty? && s[j].Entry?
    requires PathFilledOrBehind(s, a, j, from, Dist(from, cur, |s|))
    ensures PathFilled(s, a, j)
  {
    assert !Between(a, cur, j);
  }

  /** At the first empty slot no hole is left behind: every entry can be probed again. */
  lemma RehashDone<K, V>(s: seq<Slot<K, V>>, before: seq<Slot<K, V>>, hash: K -> nat,
                         from: nat, cur: nat, e: nat)
    requires Rehashing(s, before, hash, from, cur, e) && s[cur].Empty?
    ensures Probeable(s, hash)
  {
    forall j | 0 <= j < |s| && s[j].Entry?
      ensures PathFilled(s, Home(hash, s[j].key, |s|), j)
    {
      PathDone(s, from, cur, Home(hash, s[j].key, |s|), j);
    }
  }

  /** With room to spare there is an empty slot besides the one just emptied. */
  lemma SecondHole<K, V>(before: seq<Slot<K, V>>, m: map<K, V>, from: nat) returns (e: nat)
    requires from < |before| && before[from].Entry?
    requires Represents(before[from := Empty], m) && |m| < |before| - 1
    ensures e < |before| && before[e].Empty?
  {
    var s := before[from := Empty];
    FilledSlotsSize(s, m);
    e := RoomOutside(|before|, FilledSlots(s) + {from});
  }
}
