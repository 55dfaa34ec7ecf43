/** Buckets of working records indexed by shell number, as simulateShells
    builds them, and the overflow-promotion sweep over them. A record is the
    index of an electron in particle order; `shell[r]` is its record's shell
    field, which the buckets and the working list share. */
module Occupancy {
  import opened ShellMath
  import opened FarthestFirst

  type Record = nat

  /** Record shells are whole numbers >= 1: seeding floors at 1 and promotion only raises. */
  predicate Positive(shell: seq<int>) {
    forall r :: 0 <= r < |shell| ==> shell[r] >= 1
  }

  /** The records r < m whose shell is k, in particle order. */
  function Members(shell: seq<int>, k: int, m: nat): (r: seq<Record>)
    requires m <= |shell|
    ensures forall x: Record :: x in r <==> x < m && shell[x] == k
    ensures forall i :: 0 <= i < |r| ==> r[i] < m
    ensures forall i, j :: 0 <= i < j < |r| ==> r[i] < r[j]
  {
    if m == 0 then []
    else Members(shell, k, m - 1) + (if shell[m - 1] == k then [m - 1] else [])
  }

  /** The length of the JavaScript bucket array after records 0..m-1 were pushed:
      one more than the largest shell among them. */
  function Height(shell: seq<int>, m: nat): (h: nat)
    requires m <= |shell| && Positive(shell)
    ensures forall r :: 0 <= r < m ==> shell[r] < h
    ensures m == 0 <==> h == 0
    ensures m > 0 ==> exists r :: 0 <= r < m && shell[r] == h - 1
  {
    if m == 0 then 0 else Max(Height(shell, m - 1), shell[m - 1] + 1)
  }

  /** Bucket k holds the records of shell k, in particle order; unused indices below
      the largest shell are empty (holes of the JavaScript array). */
  function Bucketize(shell: seq<int>): seq<seq<Record>>
    requires Positive(shell)
  {
    BucketedPrefix(shell, |shell|)
  }

  /** The buckets after records 0 .. m-1 were pushed. */
  function BucketedPrefix(shell: seq<int>, m: nat): seq<seq<Record>>
    requires Positive(shell) && m <= |shell|
  {
    seq(Height(shell, m), k => Members(shell, k, m))
  }

  datatype Occupancy = Occupancy(buckets: seq<seq<Record>>, shell: seq<int>) {
    /** Every record sits exactly once, in the bucket whose index is its shell. */
    ghost predicate Valid() {
      && Positive(shell)
      && (forall k, i :: 0 <= k < |buckets| && 0 <= i < |buckets[k]| ==>
            buckets[k][i] < |shell| && shell[buckets[k][i]] == k)
      && (forall r :: 0 <= r < |shell| ==> shell[r] < |buckets| && r in buckets[shell[r]])
      && (forall k :: 0 <= k < |buckets| ==> Distinct(buckets[k]))
    }
  }

  /** Buckets 1 .. n-1 hold no more than their capacity. */
  ghost predicate FitsBelow(buckets: seq<seq<Record>>, n: int) {
    forall k :: 1 <= k < n && k < |buckets| ==> |buckets[k]| <= Capacity(k)
  }

  /** Number of entries over all buckets. */
  function TotalSize(b: seq<seq<Record>>): nat {
    if b == [] then 0 else TotalSize(b[..|b| - 1]) + |b[|b| - 1]|
  }

  /** The shells after each record of `moved` went up by one (`shell++`). */
  function Raise(shell: seq<int>, moved: seq<Record>): (s: seq<int>)
    ensures |s| == |shell|
  {
    seq(|shell|, r requires 0 <= r < |shell| => if r in moved then shell[r] + 1 else shell[r])
  }

  /** Bucket n + 1 before the step; a bucket the step creates starts empty. */
  function NextBucket(b: seq<seq<Record>>, n: nat): seq<Record> {
    if n + 1 < |b| then b[n + 1] else []
  }

  /** Whether bucket n holds more than its capacity. */
  predicate Overflows(b: seq<seq<Record>>, n: nat) {
    n < |b| && |b[n]| > Capacity(n)
  }

  /** Bucket n keeps `kept`, and `moved` is appended to bucket n + 1 (created empty
      when bucket n is the last one), each moved record's shell going up by one. */
  function Move(o: Occupancy, n: nat, moved: seq<Record>, kept: seq<Record>): Occupancy
    requires n < |o.buckets|
  {
    var b := if n + 1 == |o.buckets| then o.buckets + [[]] else o.buckets;
    Occupancy(b[n := kept][n + 1 := NextBucket(o.buckets, n) + moved], Raise(o.shell, moved))
  }

  /** One iteration of the promotion loop at shell n: an overflowing bucket is sorted
      farthest-first and its excess shifted, in order, onto bucket n + 1. */
  function PromoteAt(o: Occupancy, dist: seq<real>, n: nat): Occupancy
    requires o.Valid() && |dist| == |o.shell| && 1 <= n
  {
    if !Overflows(o.buckets, n) then o
    else
      var sorted := SortFarthestFirst(o.buckets[n], dist);
      var excess := |sorted| - Capacity(n);
      Move(o, n, sorted[..excess], sorted[excess..])
  }

  /** The farthest record of `near` is no farther than the closest of `far`. */
  ghost predicate NoCloserThan(far: seq<Record>, near: seq<Record>, dist: seq<real>)
    requires Keyed(far, dist) && Keyed(near, dist)
  {
    forall i, j :: 0 <= i < |far| && 0 <= j < |near| ==> dist[far[i]] >= dist[near[j]]
  }

  /** Records of a valid occupancy are below |shell|, so each has a distance. */
  lemma BucketKeyed(o: Occupancy, dist: seq<real>, n: nat)
    requires o.Valid() && |dist| == |o.shell| && n < |o.buckets|
    ensures Keyed(o.buckets[n], dist)
  {
  }

  /** A bucket holds each record at most once, so no more than all of them. */
  lemma {:induction false} DistinctInto(a: seq<Record>, b: seq<Record>)
    requires Distinct(a)
    requires forall i :: 0 <= i < |a| ==> a[i] in b
    ensures |a| <= |b|
  {
    if a != [] {
      var x := a[|a| - 1];
      var j :| 0 <= j < |b| && b[j] == x;
      var a', b' := a[..|a| - 1], b[..j] + b[j + 1..];
      forall i | 0 <= i < |a'| ensures a'[i] in b' {
        assert a'[i] != x;
        var k :| 0 <= k < |b| && b[k] == a'[i];
        if k < j { assert b'[k] == a'[i]; } else { assert b'[k - 1] == a'[i]; }
      }
      DistinctInto(a', b');
    }
  }

  lemma BucketBounded(o: Occupancy, n: nat)
    requires o.Valid() && n < |o.buckets|
    ensures |o.buckets[n]| <= |o.shell|
  {
    var all := seq(|o.shell|, r => r);
    forall i | 0 <= i < |o.buckets[n]| ensures o.buckets[n][i] in all {
      assert all[o.buckets[n][i]] == o.buckets[n][i];
    }
    DistinctInto(o.buckets[n], all);
  }

  /** After bucketing, each record sits exactly once, in the bucket its shell names. */
  lemma BucketizeValid(shell: seq<int>)
    requires Positive(shell)
    ensures Occupancy(Bucketize(shell), shell).Valid()
  {
    var o := Occupancy(Bucketize(shell), shell);
    forall k, i | 0 <= k < |o.buckets| && 0 <= i < |o.buckets[k]|
      ensures o.buckets[k][i] < |shell| && shell[o.buckets[k][i]] == k
    {
      assert o.buckets[k] == Members(shell, k, |shell|);
      assert o.buckets[k][i] in o.buckets[k];
    }
    forall r | 0 <= r < |shell| ensures shell[r] < |o.buckets| && r in o.buckets[shell[r]] {
      assert r in Members(shell, shell[r], |shell|);
    }
    forall k | 0 <= k < |o.buckets| ensures Distinct(o.buckets[k]) {
      assert o.buckets[k] == Members(shell, k, |shell|);
    }
  }

  /** `buckets` is what pushing records 0 .. m-1 produced. */
  ghost predicate BucketedUpTo(buckets: seq<seq<Record>>, shell: seq<int>, m: nat)
    requires Positive(shell) && m <= |shell|
  {
    && |buckets| == Height(shell, m)
    && forall k :: 0 <= k < |buckets| ==> buckets[k] == Members(shell, k, m)
  }

  lemma BucketPush(buckets: seq<seq<Record>>, shell: seq<int>, r: nat)
    requires Positive(shell) && r < |shell| && BucketedUpTo(buckets, shell, r)
    ensures var padded := Padded(buckets, shell[r]);
      BucketedUpTo(padded[shell[r] := padded[shell[r]] + [r]], shell, r + 1)
  {
    var s := shell[r];
    var padded := Padded(buckets, s);
    var next := padded[s := padded[s] + [r]];
    assert |next| == Height(shell, r + 1);
    forall k | 0 <= k < |next| ensures next[k] == Members(shell, k, r + 1) {
      if k >= |buckets| {
        MembersAbove(shell, k, Height(shell, r), r);
        assert padded[k] == [];
      } else {
        assert padded[k] == buckets[k];
      }
    }
  }

  lemma BucketedPrefixIs(b: seq<seq<Record>>, shell: seq<int>, m: nat)
    requires Positive(shell) && m <= |shell| && BucketedUpTo(b, shell, m)
    ensures b == BucketedPrefix(shell, m)
  {
  }

  lemma BucketedPrefixUpTo(shell: seq<int>, m: nat)
    requires Positive(shell) && m <= |shell|
    ensures BucketedUpTo(BucketedPrefix(shell, m), shell, m)
  {
  }

  /** The bucket array with empty slots appended up to index s, as assigning to a missing
      index of a JavaScript array leaves it. */
  function Padded(b: seq<seq<Record>>, s: nat): (p: seq<seq<Record>>)
    ensures |p| == Max(|b|, s + 1)
    ensures forall k :: 0 <= k < |p| ==> p[k] == if k < |b| then b[k] else []
  {
    if s >= |b| then b + seq(s + 1 - |b|, _ => []) else b
  }

  /** Pushing record r onto the buckets of records 0 .. r-1 gives the buckets of 0 .. r. */
  lemma BucketPushPrefix(shell: seq<int>, r: nat)
    requires Positive(shell) && r < |shell|
    ensures BucketedPrefix(shell, r + 1)
      == Padded(BucketedPrefix(shell, r), shell[r])[shell[r] := Padded(BucketedPrefix(shell, r), shell[r])[shell[r]] + [r]]
  {
    BucketedPrefixUpTo(shell, r);
    BucketPush(BucketedPrefix(shell, r), shell, r);
    var padded := Padded(BucketedPrefix(shell, r), shell[r]);
    BucketedPrefixIs(padded[shell[r] := padded[shell[r]] + [r]], shell, r + 1);
  }

  /** `moved` followed by `kept` is a rearrangement of bucket n without repeats. */
  ghost predicate SplitsBucket(o: Occupancy, n: nat, moved: seq<Record>, kept: seq<Record>)
    requires n < |o.buckets|
  {
    && Distinct(moved + kept)
    && (forall x :: x in moved + kept <==> x in o.buckets[n])
  }

  lemma SplitParts(o: Occupancy, n: nat, moved: seq<Record>, kept: seq<Record>)
    requires o.Valid() && n < |o.buckets| && SplitsBucket(o, n, moved, kept)
    ensures forall x :: x in moved ==> x < |o.shell| && o.shell[x] == n && x !in kept
    ensures forall x :: x in kept ==> x < |o.shell| && o.shell[x] == n && x !in moved
    ensures Distinct(moved) && Distinct(kept)
  {
    var mk := moved + kept;
    forall x | x in moved ensures x in mk && x !in kept {
      var i :| 0 <= i < |moved| && moved[i] == x;
      assert mk[i] == x;
      forall j | 0 <= j < |kept| ensures kept[j] != x { assert mk[|moved| + j] == kept[j]; }
    }
    forall x | x in kept ensures x in mk {
      var i :| 0 <= i < |kept| && kept[i] == x;
      assert mk[|moved| + i] == x;
    }
    forall x | x in mk && x in o.buckets[n] ensures x < |o.shell| && o.shell[x] == n {
      var i :| 0 <= i < |o.buckets[n]| && o.buckets[n][i] == x;
    }
    forall i, j | 0 <= i < j < |moved| ensures moved[i] != moved[j] {
      assert mk[i] == moved[i] && mk[j] == moved[j];
    }
    forall i, j | 0 <= i < j < |kept| ensures kept[i] != kept[j] {
      assert mk[|moved| + i] == kept[i] && mk[|moved| + j] == kept[j];
    }
  }

  lemma NextBucketRecords(o: Occupancy, n: nat)
    requires o.Valid() && n < |o.buckets|
    ensures forall x :: x in NextBucket(o.buckets, n) ==> x < |o.shell| && o.shell[x] == n + 1
    ensures Distinct(NextBucket(o.buckets, n))
  {
    forall x | x in NextBucket(o.buckets, n) ensures x < |o.shell| && o.shell[x] == n + 1 {
      var i :| 0 <= i < |o.buckets[n + 1]| && o.buckets[n + 1][i] == x;
    }
  }

  /** Moving part of bucket n up keeps every record, once, in the bucket its shell names. */
  lemma MoveValid(o: Occupancy, n: nat, moved: seq<Record>, kept: seq<Record>)
    requires o.Valid() && n < |o.buckets| && SplitsBucket(o, n, moved, kept)
    ensures Move(o, n, moved, kept).Valid()
  {
    SplitParts(o, n, moved, kept);
    NextBucketRecords(o, n);
    var p := Move(o, n, moved, kept);
    var next := NextBucket(o.buckets, n);
    MovePlaced(o, n, moved, kept);
    forall r | 0 <= r < |p.shell| ensures p.shell[r] < |p.buckets| && r in p.buckets[p.shell[r]] {
      if r in moved {
        assert r in next + moved;
      } else if o.shell[r] == n {
        assert r in o.buckets[n];
        assert r in moved + kept;
      } else if o.shell[r] == n + 1 {
        assert r in next + moved;
      }
    }
    forall i, j | 0 <= i < j < |next + moved| ensures (next + moved)[i] != (next + moved)[j] {
      if j < |next| {
      } else if i >= |next| {
        assert (next + moved)[i] == moved[i - |next|] && (next + moved)[j] == moved[j - |next|];
      } else {
        assert (next + moved)[i] in next && (next + moved)[j] in moved;
      }
    }
  }

  lemma MovePlaced(o: Occupancy, n: nat, moved: seq<Record>, kept: seq<Record>)
    requires o.Valid() && n < |o.buckets| && SplitsBucket(o, n, moved, kept)
    requires forall x :: x in moved ==> x < |o.shell| && o.shell[x] == n && x !in kept
    requires forall x :: x in kept ==> x < |o.shell| && o.shell[x] == n && x !in moved
    requires forall x :: x in NextBucket(o.buckets, n) ==> x < |o.shell| && o.shell[x] == n + 1
    ensures var p := Move(o, n, moved, kept);
      forall k, i :: 0 <= k < |p.buckets| && 0 <= i < |p.buckets[k]| ==>
        p.buckets[k][i] < |p.shell| && p.shell[p.buckets[k][i]] == k
  {
    var p := Move(o, n, moved, kept);
    var next := NextBucket(o.buckets, n);
    forall k, i | 0 <= k < |p.buckets| && 0 <= i < |p.buckets[k]|
      ensures p.buckets[k][i] < |p.shell| && p.shell[p.buckets[k][i]] == k
    {
      if k == n {
        MoveKeptAt(o, n, moved, kept, i);
      } else if k == n + 1 {
        MoveNextAt(o, n, moved, i);
      } else {
        MoveOtherAt(o, n, moved, k, i);
      }
    }
  }

  /** A kept record keeps shell n. */
  lemma MoveKeptAt(o: Occupancy, n: nat, moved: seq<Record>, kept: seq<Record>, i: nat)
    requires i < |kept|
    requires forall x :: x in kept ==> x < |o.shell| && o.shell[x] == n && x !in moved
    ensures kept[i] < |o.shell| && Raise(o.shell, moved)[kept[i]] == n
  {
    assert kept[i] in kept;
  }

  /** Bucket n + 1 after the step: its old records keep shell n + 1, the moved ones reach it. */
  lemma MoveNextAt(o: Occupancy, n: nat, moved: seq<Record>, i: nat)
    requires i < |NextBucket(o.buckets, n) + moved|
    requires forall x :: x in moved ==> x < |o.shell| && o.shell[x] == n
    requires forall x :: x in NextBucket(o.buckets, n) ==> x < |o.shell| && o.shell[x] == n + 1
    ensures var x := (NextBucket(o.buckets, n) + moved)[i];
      x < |o.shell| && Raise(o.shell, moved)[x] == n + 1
  {
    var next := NextBucket(o.buckets, n);
    var x := (next + moved)[i];
    if i < |next| {
      assert x == next[i] && x in next;
      assert x !in moved;
    } else {
      assert x == moved[i - |next|] && x in moved;
    }
  }

  /** Any other bucket is untouched, and so are the shells of its records. */
  lemma MoveOtherAt(o: Occupancy, n: nat, moved: seq<Record>, k: nat, i: nat)
    requires o.Valid() && k < |o.buckets| && k != n && i < |o.buckets[k]|
    requires forall x :: x in moved ==> x < |o.shell| && o.shell[x] == n
    ensures o.buckets[k][i] < |o.shell| && Raise(o.shell, moved)[o.buckets[k][i]] == k
  {
    assert o.buckets[k][i] !in moved;
  }

  lemma SortedSplit(o: Occupancy, dist: seq<real>, n: nat)
    requires o.Valid() && |dist| == |o.shell| && 1 <= n && Overflows(o.buckets, n)
    ensures Keyed(o.buckets[n], dist)
    ensures var sorted := SortFarthestFirst(o.buckets[n], dist);
      var e := |sorted| - Capacity(n);
      SplitsBucket(o, n, sorted[..e], sorted[e..])
  {
    var bucket := o.buckets[n];
    BucketKeyed(o, dist, n);
    var sorted := SortFarthestFirst(bucket, dist);
    var e := |sorted| - Capacity(n);
    SortDistinct(bucket, dist);
    assert sorted[..e] + sorted[e..] == sorted;
    SameElements(sorted, bucket);
  }

  lemma SameElements(a: seq<Record>, b: seq<Record>)
    requires multiset(a) == multiset(b)
    ensures forall x :: x in a <==> x in b
  {
    forall x ensures x in a <==> x in b {
      assert x in a <==> x in multiset(a);
      assert x in b <==> x in multiset(b);
    }
  }

  /** The promotion step keeps every record in the bucket its (possibly raised) shell names. */
  lemma PromoteAtValid(o: Occupancy, dist: seq<real>, n: nat)
    requires o.Valid() && |dist| == |o.shell| && 1 <= n
    ensures PromoteAt(o, dist, n).Valid()
    ensures |PromoteAt(o, dist, n).shell| == |o.shell|
  {
    if Overflows(o.buckets, n) {
      SortedSplit(o, dist, n);
      var sorted := SortFarthestFirst(o.buckets[n], dist);
      var e := |sorted| - Capacity(n);
      MoveValid(o, n, sorted[..e], sorted[e..]);
      assert PromoteAt(o, dist, n) == Move(o, n, sorted[..e], sorted[e..]);
    } else {
      assert PromoteAt(o, dist, n) == o;
    }
  }

  /** The step touches only buckets n and n + 1, creates bucket n + 1 only when bucket n
      overflows at the top, and leaves buckets 1 .. n within capacity. */
  lemma PromoteAtFrame(o: Occupancy, dist: seq<real>, n: nat)
    requires o.Valid() && |dist| == |o.shell| && 1 <= n
    ensures var p := PromoteAt(o, dist, n);
      && |p.buckets| == (if Overflows(o.buckets, n) then Max(|o.buckets|, n + 2) else |o.buckets|)
      && (forall k :: 0 <= k < |o.buckets| && k != n && k != n + 1 ==> p.buckets[k] == o.buckets[k])
      && (FitsBelow(o.buckets, n) ==> FitsBelow(p.buckets, n + 1))
  {
    if Overflows(o.buckets, n) {
      BucketKeyed(o, dist, n);
      var sorted := SortFarthestFirst(o.buckets[n], dist);
      var e := |sorted| - Capacity(n);
      assert |sorted[e..]| == Capacity(n);
    }
  }

  /** A record's shell either stays or is raised from n to n + 1. */
  lemma PromoteAtShells(o: Occupancy, dist: seq<real>, n: nat)
    requires o.Valid() && |dist| == |o.shell| && 1 <= n
    ensures var p := PromoteAt(o, dist, n);
      forall r :: 0 <= r < |o.shell| ==>
        p.shell[r] == o.shell[r] || (o.shell[r] == n && p.shell[r] == n + 1)
  {
    if Overflows(o.buckets, n) {
      SortedSplit(o, dist, n);
      var sorted := SortFarthestFirst(o.buckets[n], dist);
      var e := |sorted| - Capacity(n);
      SplitParts(o, n, sorted[..e], sorted[e..]);
    }
  }

  /** What the sweep needs from one step: validity, capacity below n + 1, shells only
      rising, entries conserved, and a bucket count the termination measure bounds. */
  lemma PromoteStep(o: Occupancy, dist: seq<real>, n: nat)
    requires o.Valid() && |dist| == |o.shell| && 1 <= n && n < |o.buckets| + 1
    requires FitsBelow(o.buckets, n)
    ensures var p := PromoteAt(o, dist, n);
      && p.Valid() && |p.shell| == |o.shell|
      && FitsBelow(p.buckets, n + 1)
      && (forall r :: 0 <= r < |o.shell| ==> o.shell[r] <= p.shell[r])
      && TotalSize(p.buckets) == TotalSize(o.buckets)
      && Max(|p.buckets|, |p.shell| + 2) <= Max(|o.buckets|, |o.shell| + 2)
  {
    PromoteAtValid(o, dist, n);
    PromoteAtFrame(o, dist, n);
    PromoteAtShells(o, dist, n);
    PromoteAtConserves(o, dist, n);
    if Overflows(o.buckets, n) {
      BucketBounded(o, n);
    }
  }

  /** An overflowing bucket loses exactly length - Capacity(n) records and ends at capacity;
      they are appended, farthest first, after what bucket n + 1 already held, and each is at
      least as far from the nucleus as every record left behind. */
  lemma PromoteAtExcess(o: Occupancy, dist: seq<real>, n: nat)
    requires o.Valid() && |dist| == |o.shell| && 1 <= n && Overflows(o.buckets, n)
    ensures var p := PromoteAt(o, dist, n);
      var next := NextBucket(o.buckets, n);
      var excess := |o.buckets[n]| - Capacity(n);
      && n + 1 < |p.buckets|
      && |p.buckets[n]| == Capacity(n)
      && |p.buckets[n + 1]| == |next| + excess
      && p.buckets[n + 1][..|next|] == next
      && Keyed(p.buckets[n], dist) && Keyed(p.buckets[n + 1][|next|..], dist)
      && NoCloserThan(p.buckets[n + 1][|next|..], p.buckets[n], dist)
      && FarthestFirstOrder(p.buckets[n + 1][|next|..], dist)
  {
    BucketKeyed(o, dist, n);
    var sorted := SortFarthestFirst(o.buckets[n], dist);
    SortOrdered(o.buckets[n], dist);
    var e := |sorted| - Capacity(n);
    var p := PromoteAt(o, dist, n);
    var next := NextBucket(o.buckets, n);
    assert p.buckets[n] == sorted[e..];
    assert p.buckets[n + 1] == next + sorted[..e];
    assert p.buckets[n + 1][|next|..] == sorted[..e];
    forall i, j | 0 <= i < e && 0 <= j < |sorted| - e
      ensures dist[sorted[..e][i]] >= dist[sorted[e..][j]]
    {
      assert sorted[e..][j] == sorted[e + j];
    }
  }

  lemma {:induction false} TotalSizeUpdate(b: seq<seq<Record>>, i: nat, x: seq<Record>)
    requires i < |b|
    ensures TotalSize(b[i := x]) == TotalSize(b) - |b[i]| + |x|
  {
    var c := b[i := x];
    if i < |b| - 1 {
      assert c[..|c| - 1] == b[..|b| - 1][i := x];
      TotalSizeUpdate(b[..|b| - 1], i, x);
    } else {
      assert c[..|c| - 1] == b[..|b| - 1];
    }
  }

  /** Promotion moves entries between buckets and neither adds nor drops any. */
  lemma MoveConserves(o: Occupancy, n: nat, moved: seq<Record>, kept: seq<Record>)
    requires n < |o.buckets| && |moved| + |kept| == |o.buckets[n]|
    ensures TotalSize(Move(o, n, moved, kept).buckets) == TotalSize(o.buckets)
  {
    var B := o.buckets;
    var b := if n + 1 == |B| then B + [[]] else B;
    assert TotalSize(b) == TotalSize(B) by {
      if n + 1 == |B| { assert (B + [[]])[..|B|] == B; }
    }
    assert b[n + 1] == NextBucket(B, n);
    TotalSizeUpdate(b, n, kept);
    TotalSizeUpdate(b[n := kept], n + 1, b[n + 1] + moved);
  }

  /** Promotion moves entries between buckets and neither adds nor drops any. */
  lemma PromoteAtConserves(o: Occupancy, dist: seq<real>, n: nat)
    requires o.Valid() && |dist| == |o.shell| && 1 <= n
    ensures TotalSize(PromoteAt(o, dist, n).buckets) == TotalSize(o.buckets)
  {
    if Overflows(o.buckets, n) {
      BucketKeyed(o, dist, n);
      var sorted := SortFarthestFirst(o.buckets[n], dist);
      var e := |sorted| - Capacity(n);
      MoveConserves(o, n, sorted[..e], sorted[e..]);
    }
  }

  /** The promotion loop from shell n on. The bound `shells.length + 1` is re-read on
      every iteration, so a bucket created by the step before is examined too. */
  function PromoteFrom(o: Occupancy, dist: seq<real>, n: nat): (p: Occupancy)
    requires o.Valid() && |dist| == |o.shell| && 1 <= n && FitsBelow(o.buckets, n)
    ensures p.Valid() && |p.shell| == |o.shell|
    ensures forall k :: 1 <= k < |p.buckets| ==> |p.buckets[k]| <= Capacity(k)
    ensures forall r :: 0 <= r < |o.shell| ==> o.shell[r] <= p.shell[r]
    ensures TotalSize(p.buckets) == TotalSize(o.buckets)
    decreases Max(|o.buckets|, |o.shell| + 2) + 1 - n
  {
    if n >= |o.buckets| + 1 then o
    else
      PromoteStep(o, dist, n);
      PromoteFrom(PromoteAt(o, dist, n), dist, n + 1)
  }

  /** The whole sweep, as simulateShells runs it after bucketing. */
  function Promote(o: Occupancy, dist: seq<real>): Occupancy
    requires o.Valid() && |dist| == |o.shell|
  {
    PromoteFrom(o, dist, 1)
  }

  /** Counted over records: after the sweep, at most Capacity(k) records have shell k. */
  lemma {:induction false} MembersFit(o: Occupancy, k: nat)
    requires o.Valid() && 1 <= k
    requires forall j :: 1 <= j < |o.buckets| ==> |o.buckets[j]| <= Capacity(j)
    ensures |Members(o.shell, k, |o.shell|)| <= Capacity(k)
  {
    var m := Members(o.shell, k, |o.shell|);
    if k < |o.buckets| {
      forall i | 0 <= i < |m| ensures m[i] in o.buckets[k] {
        assert m[i] in m;
      }
      DistinctInto(m, o.buckets[k]);
    } else {
      MembersAbove(o.shell, k, |o.buckets|, |o.shell|);
    }
  }

  /** No record has a shell at or beyond the height. */
  lemma {:induction false} MembersAbove(shell: seq<int>, k: int, h: int, m: nat)
    requires m <= |shell| && h <= k
    requires forall r :: 0 <= r < m ==> shell[r] < h
    ensures Members(shell, k, m) == []
  {
    if m > 0 {
      MembersAbove(shell, k, h, m - 1);
      assert shell[m - 1] < h;
      assert Members(shell, k, m) == Members(shell, k, m - 1) + [];
    }
  }
}
