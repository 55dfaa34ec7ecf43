/** The ordering the promotion step puts an overflowing bucket in before it
    shifts the excess out: farthest from the nucleus first. Array.prototype.sort
    is stable (ECMAScript 2019), so records at equal distance keep their order;
    it is modelled here as a stable insertion sort. */
module FarthestFirst {

  /** Every record in `s` has a distance in `dist`. */
  predicate Keyed(s: seq<nat>, dist: seq<real>) {
    forall i :: 0 <= i < |s| ==> s[i] < |dist|
  }

  predicate Distinct(s: seq<nat>) {
    forall i, j :: 0 <= i < j < |s| ==> s[i] != s[j]
  }

  /** Distances never increase along `s`. */
  predicate FarthestFirstOrder(s: seq<nat>, dist: seq<real>)
    requires Keyed(s, dist)
  {
    forall i, j :: 0 <= i < j < |s| ==> dist[s[i]] >= dist[s[j]]
  }

  /** The records of `s` at distance `v`, in their order in `s`. */
  function AtDistance(s: seq<nat>, dist: seq<real>, v: real): (r: seq<nat>)
    requires Keyed(s, dist)
  {
    if s == [] then []
    else (if dist[s[0]] == v then [s[0]] else []) + AtDistance(s[1..], dist, v)
  }

  /** Puts `x` in front of the first record of `t` that is no farther than it. */
  function Insert(x: nat, t: seq<nat>, dist: seq<real>): (r: seq<nat>)
    requires x < |dist| && Keyed(t, dist)
    ensures Keyed(r, dist)
    ensures |r| == |t| + 1
  {
    if t == [] || dist[t[0]] <= dist[x] then [x] + t
    else
      assert t == [t[0]] + t[1..];
      [t[0]] + Insert(x, t[1..], dist)
  }

  /** The comparator `(a, b) => dist(b) - dist(a)` applied by a stable sort. */
  function SortFarthestFirst(s: seq<nat>, dist: seq<real>): (r: seq<nat>)
    requires Keyed(s, dist)
    ensures Keyed(r, dist)
    ensures multiset(r) == multiset(s)
    ensures |r| == |s|
  {
    if s == [] then []
    else
      assert s == [s[0]] + s[1..];
      InsertPermutes(s[0], SortFarthestFirst(s[1..], dist), dist);
      Insert(s[0], SortFarthestFirst(s[1..], dist), dist)
  }

  /** Insertion adds `x` and keeps every record of `t`. */
  lemma {:induction false} InsertPermutes(x: nat, t: seq<nat>, dist: seq<real>)
    requires x < |dist| && Keyed(t, dist)
    ensures multiset(Insert(x, t, dist)) == multiset(t) + multiset{x}
  {
    if t != [] && dist[t[0]] > dist[x] {
      InsertPermutes(x, t[1..], dist);
      assert t == [t[0]] + t[1..];
    }
  }

  lemma {:induction false} InsertOrdered(x: nat, t: seq<nat>, dist: seq<real>)
    requires x < |dist| && Keyed(t, dist) && FarthestFirstOrder(t, dist)
    ensures FarthestFirstOrder(Insert(x, t, dist), dist)
  {
    if t == [] || dist[t[0]] <= dist[x] {
    } else {
      var rest := Insert(x, t[1..], dist);
      InsertOrdered(x, t[1..], dist);
      assert dist[t[0]] >= dist[rest[0]] by {
        if t[1..] != [] && dist[t[1]] > dist[x] {
          assert rest[0] == t[1];
        }
      }
      var s := [t[0]] + rest;
      forall i, j | 0 <= i < j < |s| ensures dist[s[i]] >= dist[s[j]] {
        assert s[j] == rest[j - 1];
        if i > 0 {
          assert s[i] == rest[i - 1];
        } else if j > 1 {
          assert dist[rest[0]] >= dist[rest[j - 1]];
        }
      }
    }
  }

  /** The sort leaves the bucket farthest-first. */
  lemma {:induction false} SortOrdered(s: seq<nat>, dist: seq<real>)
    requires Keyed(s, dist)
    ensures FarthestFirstOrder(SortFarthestFirst(s, dist), dist)
  {
    if s != [] {
      SortOrdered(s[1..], dist);
      InsertOrdered(s[0], SortFarthestFirst(s[1..], dist), dist);
    }
  }

  lemma {:induction false} InsertDistinct(x: nat, t: seq<nat>, dist: seq<real>)
    requires x < |dist| && Keyed(t, dist) && Distinct(t) && x !in t
    ensures Distinct(Insert(x, t, dist))
  {
    if t == [] || dist[t[0]] <= dist[x] {
    } else {
      var rest := Insert(x, t[1..], dist);
      assert t == [t[0]] + t[1..];
      InsertDistinct(x, t[1..], dist);
      InsertPermutes(x, t[1..], dist);
      assert t[0] !in t[1..];
      assert multiset(rest)[t[0]] == 0;
    }
  }

  /** Sorting a bucket of distinct records keeps them distinct. */
  lemma {:induction false} SortDistinct(s: seq<nat>, dist: seq<real>)
    requires Keyed(s, dist) && Distinct(s)
    ensures Distinct(SortFarthestFirst(s, dist))
  {
    if s != [] {
      var t := SortFarthestFirst(s[1..], dist);
      SortDistinct(s[1..], dist);
      assert s[0] !in s[1..];
      assert multiset(t)[s[0]] == 0;
      InsertDistinct(s[0], t, dist);
    }
  }

  lemma AtDistanceCons(y: nat, s: seq<nat>, dist: seq<real>, v: real)
    requires y < |dist| && Keyed(s, dist)
    ensures AtDistance([y] + s, dist, v) == (if dist[y] == v then [y] else []) + AtDistance(s, dist, v)
  {
    assert ([y] + s)[1..] == s;
  }

  lemma {:induction false} InsertStable(x: nat, t: seq<nat>, dist: seq<real>, v: real)
    requires x < |dist| && Keyed(t, dist)
    ensures AtDistance(Insert(x, t, dist), dist, v)
         == (if dist[x] == v then [x] else []) + AtDistance(t, dist, v)
  {
    if t == [] || dist[t[0]] <= dist[x] {
      AtDistanceCons(x, t, dist, v);
    } else {
      var rest := Insert(x, t[1..], dist);
      var hx := if dist[x] == v then [x] else [];
      var h0 := if dist[t[0]] == v then [t[0]] else [];
      var tail := AtDistance(t[1..], dist, v);
      InsertStable(x, t[1..], dist, v);
      AtDistanceCons(t[0], rest, dist, v);
      assert t == [t[0]] + t[1..];
      AtDistanceCons(t[0], t[1..], dist, v);
      assert h0 == [] || hx == [];
      assert h0 + (hx + tail) == hx + (h0 + tail);
    }
  }

  /** Stability: records at any one distance come out in the order they went in. */
  lemma {:induction false} SortStable(s: seq<nat>, dist: seq<real>, v: real)
    requires Keyed(s, dist)
    ensures AtDistance(SortFarthestFirst(s, dist), dist, v) == AtDistance(s, dist, v)
  {
    if s != [] {
      SortStable(s[1..], dist, v);
      InsertStable(s[0], SortFarthestFirst(s[1..], dist), dist, v);
    }
  }
}
