/** Nucleus.simulateShells as the loops it is written with. The electrons' shell
    Maps live in an array indexed by electron and are updated in place; the working
    records (shell number per electron), the bucket array and the working list are
    local values. Each phase is a method proved equal to the ShellSpec function that
    states it, and SimulateShells chains them into ShellPass. */
module Nucleus {
  import opened ShellMath
  import opened FarthestFirst
  import opened Occupancy
  import opened ShellSpec

  /** Initial shell position: the stored shell when it is fresh, else the rounded distance. */
  method SeedShells(maps: array<ShellMap>, nucleus: NucleusId, frame: int, dist: seq<real>)
    returns (shell: seq<int>)
    requires |dist| == maps.Length && NonNegative(dist)
    ensures shell == Seeds(maps[..], nucleus, frame, dist)
  {
    shell := [];
    for r := 0 to maps.Length
      invariant |shell| == r
      invariant forall i :: 0 <= i < r ==> shell[i] == SeedShell(maps[i], nucleus, frame, dist[i])
    {
      var m := maps[r];
      if nucleus in m && frame - m[nucleus].stamp < StickyFrames {
        shell := shell + [m[nucleus].shell];
      } else {
        var closestShell := Max(RoundedDistance(dist[r]), 1);
        shell := shell + [closestShell];
      }
    }
  }

  /** Pushes every record onto the bucket its shell names, creating the bucket (and, as
      a JavaScript array does, empty slots below it) when it is missing. */
  method BucketShells(shell: seq<int>) returns (buckets: seq<seq<Record>>)
    requires Positive(shell)
    ensures buckets == Bucketize(shell)
  {
    buckets := [];
    for r := 0 to |shell|
      invariant buckets == BucketedPrefix(shell, r)
    {
      var s := shell[r];
      ghost var before := buckets;
      if s >= |buckets| {
        buckets := Padded(buckets, s);
      }
      assert buckets == Padded(before, s);
      buckets := buckets[s := buckets[s] + [r]];
      BucketPushPrefix(shell, r);
    }
  }

  /** Raising one more record of a list without repeats updates only that record. */
  lemma RaiseOneMore(shell: seq<int>, s: seq<Record>, i: nat)
    requires i < |s| && Distinct(s) && s[i] < |shell|
    ensures s[i] !in s[..i]
    ensures Raise(shell, s[..i + 1]) == Raise(shell, s[..i])[s[i] := shell[s[i]] + 1]
  {
    assert s[..i + 1] == s[..i] + [s[i]];
  }

  /** The inner loop of the promotion: `excess` times, the head of bucket n is shifted
      off, pushed onto bucket n + 1, and its shell incremented. */
  method ShiftExcess(b0: seq<seq<Record>>, sh0: seq<int>, n: nat, excess: nat)
    returns (b: seq<seq<Record>>, sh: seq<int>)
    requires n + 1 < |b0| && excess <= |b0[n]|
    requires Distinct(b0[n]) && forall i :: 0 <= i < |b0[n]| ==> b0[n][i] < |sh0|
    ensures b == b0[n := b0[n][excess..]][n + 1 := b0[n + 1] + b0[n][..excess]]
    ensures sh == Raise(sh0, b0[n][..excess])
  {
    b, sh := b0, sh0;
    assert b0[n][..0] == [];
    for i := 0 to excess
      invariant |b| == |b0|
      invariant b[n] == b0[n][i..] && b[n + 1] == b0[n + 1] + b0[n][..i]
      invariant forall k :: 0 <= k < |b| && k != n && k != n + 1 ==> b[k] == b0[k]
      invariant sh == Raise(sh0, b0[n][..i])
    {
      var electronToMoveUp := b[n][0];
      assert electronToMoveUp == b0[n][i];
      b := b[n := b[n][1..]];
      b := b[n + 1 := b[n + 1] + [electronToMoveUp]];
      RaiseOneMore(sh0, b0[n], i);
      sh := sh[electronToMoveUp := sh[electronToMoveUp] + 1];
      assert b0[n][..i] + [b0[n][i]] == b0[n][..i + 1];
      assert b0[n][i..][1..] == b0[n][i + 1..];
    }
    ghost var target := b0[n := b0[n][excess..]][n + 1 := b0[n + 1] + b0[n][..excess]];
    assert |b| == |target|;
    forall k | 0 <= k < |b| ensures b[k] == target[k] {
    }
  }

  /** One overflowing shell: create bucket n + 1 if missing, sort bucket n farthest-first
      and shift its excess up. The result is the step PromoteAt states. */
  method PromoteShell(b0: seq<seq<Record>>, sh0: seq<int>, dist: seq<real>, n: nat)
    returns (b: seq<seq<Record>>, sh: seq<int>)
    requires Occupancy(b0, sh0).Valid() && |dist| == |sh0| && 1 <= n && Overflows(b0, n)
    ensures Occupancy(b, sh) == PromoteAt(Occupancy(b0, sh0), dist, n)
  {
    ghost var o := Occupancy(b0, sh0);
    BucketKeyed(o, dist, n);
    SortDistinct(b0[n], dist);
    b := b0;
    if n + 1 == |b| {
      b := b + [[]];
    }
    ghost var extended := b;
    var sorted := SortFarthestFirst(b[n], dist);
    b := b[n := sorted];
    var amtTooMany := |sorted| - 4 * n + 2;
    b, sh := ShiftExcess(b, sh0, n, amtTooMany);
    assert extended[n := sorted][n := sorted[amtTooMany..]] == extended[n := sorted[amtTooMany..]];
    assert extended[n + 1] == NextBucket(b0, n);
  }

  /** The promotion sweep. The bound is re-read each iteration, so a bucket created by
      the previous shell is examined as well. */
  method PromoteOverflow(buckets: seq<seq<Record>>, shell: seq<int>, dist: seq<real>)
    returns (b: seq<seq<Record>>, sh: seq<int>)
    requires Occupancy(buckets, shell).Valid() && |dist| == |shell|
    ensures Occupancy(b, sh) == Promote(Occupancy(buckets, shell), dist)
  {
    b, sh := buckets, shell;
    var shellNumber := 1;
    while shellNumber < |b| + 1
      invariant 1 <= shellNumber
      invariant Occupancy(b, sh).Valid() && |sh| == |shell|
      invariant FitsBelow(b, shellNumber)
      invariant PromoteFrom(Occupancy(b, sh), dist, shellNumber) == Promote(Occupancy(buckets, shell), dist)
      decreases Max(|b|, |sh| + 2) + 1 - shellNumber
    {
      ghost var o := Occupancy(b, sh);
      PromoteStep(o, dist, shellNumber);
      if shellNumber < |b| && |b[shellNumber]| > 4 * (shellNumber - 1) + 2 {
        b, sh := PromoteShell(b, sh, dist, shellNumber);
      }
      shellNumber := shellNumber + 1;
    }
  }

  /** The reverse eviction loop: a record beyond the bound loses its entry for the
      nucleus and is spliced out of the working list. */
  method EvictBeyond(list: seq<Record>, shell: seq<int>, bound: Bound, nucleus: NucleusId,
                     maps: array<ShellMap>) returns (kept: seq<Record>)
    requires |shell| == maps.Length && forall i :: 0 <= i < |list| ==> list[i] < |shell|
    modifies maps
    ensures kept == Survivors(list, shell, bound)
    ensures maps[..] == Evicted(old(maps[..]), list, shell, bound, nucleus)
  {
    kept := list;
    var i := |list| - 1;
    assert list[..i + 1] == list && list[i + 1..] == [];
    while i >= 0
      invariant -1 <= i < |list|
      invariant kept == list[..i + 1] + Survivors(list[i + 1..], shell, bound)
      invariant maps[..] == Evicted(old(maps[..]), list[i + 1..], shell, bound, nucleus)
    {
      SurvivorsStep(list, i, shell, bound, kept);
      EvictedStep(old(maps[..]), list, i, shell, bound, nucleus, maps[..]);
      if Exceeds(shell[kept[i]], bound) {
        var x := kept[i];
        ghost var before := maps[..];
        maps[x] := maps[x] - {nucleus};
        assert maps[..] == before[x := before[x] - {nucleus}];
        kept := kept[..i] + kept[i + 1..];
      }
      i := i - 1;
    }
    assert list[0..] == list;
  }

  /** One iteration of the reverse loop on the working list: index i is either spliced
      out or kept in front of the survivors already decided. */
  lemma SurvivorsStep(list: seq<Record>, i: nat, shell: seq<int>, bound: Bound, kept: seq<Record>)
    requires i < |list| && forall j :: 0 <= j < |list| ==> list[j] < |shell|
    requires kept == list[..i + 1] + Survivors(list[i + 1..], shell, bound)
    ensures i < |kept| && kept[i] == list[i]
    ensures Exceeds(shell[list[i]], bound) ==>
      kept[..i] + kept[i + 1..] == list[..i] + Survivors(list[i..], shell, bound)
    ensures !Exceeds(shell[list[i]], bound) ==>
      kept == list[..i] + Survivors(list[i..], shell, bound)
  {
    var x, tail := list[i], list[i + 1..];
    assert list[i..] == [x] + tail;
    SurvivorsCons(x, tail, shell, bound);
    assert list[..i + 1] == list[..i] + [x];
    SpliceAt(list[..i], x, Survivors(tail, shell, bound));
  }

  /** Splicing out the element after prefix `p` leaves `p` followed by the rest. */
  lemma SpliceAt(p: seq<Record>, x: Record, rest: seq<Record>)
    ensures var s := p + [x] + rest;
      && s == p + ([x] + rest)
      && |p| < |s| && s[|p|] == x
      && s[..|p|] + s[|p| + 1..] == p + rest
  {
    var s := p + [x] + rest;
    assert s[..|p|] == p;
    assert s[|p| + 1..] == rest;
  }

  /** One iteration of the reverse loop on the Maps: `m` already holds the evictions of the
      records after index i; evicting list[i] when it lies beyond the bound extends them. */
  lemma EvictedStep(maps: seq<ShellMap>, list: seq<Record>, i: nat, shell: seq<int>, bound: Bound,
                    nucleus: NucleusId, m: seq<ShellMap>)
    requires |shell| == |maps| && i < |list| && list[i] < |shell|
    requires m == Evicted(maps, list[i + 1..], shell, bound, nucleus)
    ensures Exceeds(shell[list[i]], bound) ==>
      m[list[i] := m[list[i]] - {nucleus}] == Evicted(maps, list[i..], shell, bound, nucleus)
    ensures !Exceeds(shell[list[i]], bound) ==>
      m == Evicted(maps, list[i..], shell, bound, nucleus)
  {
    var x := list[i];
    assert list[i..] == [x] + list[i + 1..];
    if Exceeds(shell[x], bound) {
      assert m[x] - {nucleus} == maps[x] - {nucleus};
    }
  }

  lemma CommittedStep(maps: seq<ShellMap>, list: seq<Record>, i: nat, shell: seq<int>,
                      nucleus: NucleusId, frame: int)
    requires |shell| == |maps| && i < |list| && list[i] < |shell|
    ensures var m: seq<ShellMap> := Committed(maps, list[..i], shell, nucleus, frame);
      var x := list[i];
      var stored: ShellMap := m[x][nucleus := Entry(frame, shell[x])];
      Committed(maps, list[..i + 1], shell, nucleus, frame) == m[x := stored]
  {
    var m := Committed(maps, list[..i], shell, nucleus, frame);
    var x := list[i];
    assert list[..i + 1] == list[..i] + [x];
    assert m[x][nucleus := Entry(frame, shell[x])] == maps[x][nucleus := Entry(frame, shell[x])];
  }

  /** The force loop's shell bookkeeping: one shell out above the threshold, one in
      below its negative (never, as the force given is a length). */
  method AdjustShells(list: seq<Record>, shell: seq<int>, force: seq<real>) returns (sh: seq<int>)
    requires |force| == |shell| && Distinct(list)
    requires forall i :: 0 <= i < |list| ==> list[i] < |shell|
    ensures sh == Adjusted(shell, list, force)
  {
    sh := shell;
    for i := 0 to |list|
      invariant sh == Adjusted(shell, list[..i], force)
    {
      var x := list[i];
      assert list[..i + 1] == list[..i] + [x];
      assert x !in list[..i];
      var s := sh[x];
      if force[x] > KickThreshold {
        s := s + 1;
      }
      if force[x] < -KickThreshold && s > 1 {
        s := s - 1;
      }
      sh := sh[x := s];
    }
    assert list[..|list|] == list;
  }

  /** Stores `[frame, shell]` for the nucleus in every remaining electron's Map. */
  method CommitShells(list: seq<Record>, shell: seq<int>, nucleus: NucleusId, frame: int,
                      maps: array<ShellMap>)
    requires |shell| == maps.Length && forall i :: 0 <= i < |list| ==> list[i] < |shell|
    modifies maps
    ensures maps[..] == Committed(old(maps[..]), list, shell, nucleus, frame)
  {
    for i := 0 to |list|
      invariant maps[..] == Committed(old(maps[..]), list[..i], shell, nucleus, frame)
    {
      var x := list[i];
      CommittedStep(old(maps[..]), list, i, shell, nucleus, frame);
      ghost var before := maps[..];
      maps[x] := maps[x][nucleus := Entry(frame, shell[x])];
      assert maps[..] == before[x := before[x][nucleus := Entry(frame, shell[x])]];
    }
    assert list[..|list|] == list;
  }

  /** One call of simulateShells for `nucleus`: the electrons' Maps end as ShellPass
      says, and every stored shell is still >= 1. */
  method SimulateShells(nucleus: NucleusId, charge: int, frame: int, maps: array<ShellMap>,
                        dist: seq<real>, force: seq<real>)
    requires PassInputs(maps[..], dist, force)
    modifies maps
    ensures maps[..] == ShellPass(old(maps[..]), nucleus, charge, frame, dist, force)
    ensures StoredShellsPositive(maps[..])
  {
    ghost var before := maps[..];
    var seeds := SeedShells(maps, nucleus, frame, dist);
    var shells := BucketShells(seeds);
    BucketizeValid(seeds);
    var _, shell := PromoteOverflow(shells, seeds, dist);

    var electrons := Range(maps.Length);
    var bound := MaxShell(charge);
    SurvivorsOrdered(electrons, shell, bound);
    electrons := EvictBeyond(electrons, shell, bound, nucleus, maps);
    var adjusted := AdjustShells(electrons, shell, force);
    CommitShells(electrons, adjusted, nucleus, frame, maps);

    PhasesComposeToPass(before, shell, bound, nucleus, frame, force);
    PassKeepsShellsPositive(before, nucleus, charge, frame, dist, force);
  }

  /** Seeding, bucketing, promotion, eviction, adjustment and commit, applied in turn,
      give ShellPass. */
  lemma PhasesComposeToPass(maps: seq<ShellMap>, shell: seq<int>, bound: Bound, nucleus: NucleusId,
                            frame: int, force: seq<real>)
    requires |shell| == |maps| && |force| == |maps|
    ensures var kept := Survivors(Range(|maps|), shell, bound);
      Committed(Evicted(maps, Range(|maps|), shell, bound, nucleus), kept,
                Adjusted(shell, kept, force), nucleus, frame)
        == Settle(maps, shell, bound, nucleus, frame, force)
  {
    var all := Range(|maps|);
    var kept := Survivors(all, shell, bound);
    var m := Committed(Evicted(maps, all, shell, bound, nucleus), kept,
                       Adjusted(shell, kept, force), nucleus, frame);
    var settled := Settle(maps, shell, bound, nucleus, frame, force);
    SurvivorsMembers(all, shell, bound);
    forall r | 0 <= r < |maps| ensures m[r] == settled[r] {
      assert r in all by { assert all[r] == r; }
    }
  }
}
