/** What one call of Nucleus.simulateShells does to the electrons' shell maps,
    stated as functions, and the properties of a pass proved about them.

    Electrons are identified by their index among the electrons of the particle
    list; nucleus identities are plain numbers. Each electron's `shell` Map
    (nucleus -> [frame, shell]) is a `ShellMap`. Geometry stays outside: the
    distance of every electron to the nucleus and the length of its projected
    accumulated force are inputs. */
module ShellSpec {
  import opened ShellMath
  import opened FarthestFirst
  import opened Occupancy

  type NucleusId = nat

  /** The `[frame, shell]` pair an electron keeps per nucleus. */
  datatype Entry = Entry(stamp: int, shell: int)

  type ShellMap = map<NucleusId, Entry>

  /** Radial distance between consecutive shells. */
  const ShellInterval: real := 16.0

  /** A stored shell is reused while it is fewer than this many frames old. */
  const StickyFrames: int := 30

  /** A projected force longer than this moves the electron one shell out. */
  const KickThreshold: real := 0.01

  /** Every stored shell is at least 1. Only commits write entries, and they write
      shells >= 1, so this holds of every reachable state. */
  ghost predicate StoredShellsPositive(maps: seq<ShellMap>) {
    forall e, k :: 0 <= e < |maps| && k in maps[e] ==> maps[e][k].shell >= 1
  }

  predicate NonNegative(xs: seq<real>) {
    forall i :: 0 <= i < |xs| ==> xs[i] >= 0.0
  }

  /** Math.round(d / 16) for a distance d >= 0: the nearest whole number, halves rounding up. */
  function RoundedDistance(d: real): (r: int)
    requires d >= 0.0
    ensures r >= 0
    ensures r as real - 0.5 <= d / ShellInterval < r as real + 0.5
  {
    (d / ShellInterval + 0.5).Floor
  }

  /** The electron holds an entry for this nucleus written fewer than 30 frames ago. */
  predicate Sticky(m: ShellMap, nucleus: NucleusId, frame: int) {
    nucleus in m && frame - m[nucleus].stamp < StickyFrames
  }

  /** The shell an electron starts the pass in. */
  function SeedShell(m: ShellMap, nucleus: NucleusId, frame: int, d: real): int
    requires d >= 0.0
  {
    if Sticky(m, nucleus, frame) then m[nucleus].shell else Max(RoundedDistance(d), 1)
  }

  function Seeds(maps: seq<ShellMap>, nucleus: NucleusId, frame: int, dist: seq<real>): (s: seq<int>)
    requires |dist| == |maps| && NonNegative(dist)
    ensures |s| == |maps|
    ensures StoredShellsPositive(maps) ==> Positive(s)
  {
    seq(|maps|, r requires 0 <= r < |maps| => SeedShell(maps[r], nucleus, frame, dist[r]))
  }

  /** The occupancy after bucketing the seeds and running the promotion loop. */
  function Classify(maps: seq<ShellMap>, nucleus: NucleusId, frame: int, dist: seq<real>): (o: Occupancy)
    requires |dist| == |maps| && NonNegative(dist) && StoredShellsPositive(maps)
    ensures o.Valid() && |o.shell| == |maps|
    ensures forall k :: 1 <= k < |o.buckets| ==> |o.buckets[k]| <= Capacity(k)
    ensures forall r :: 0 <= r < |maps| ==> Seeds(maps, nucleus, frame, dist)[r] <= o.shell[r]
  {
    var seeds := Seeds(maps, nucleus, frame, dist);
    BucketizeValid(seeds);
    PromoteFrom(Occupancy(Bucketize(seeds), seeds), dist, 1)
  }

  /** The records of `list` that stay, in their order: the reverse loop splices out
      every record whose shell exceeds the bound. */
  function Survivors(list: seq<Record>, shell: seq<int>, bound: Bound): (r: seq<Record>)
    requires forall i :: 0 <= i < |list| ==> list[i] < |shell|
    ensures forall i :: 0 <= i < |r| ==> r[i] < |shell| && !Exceeds(shell[r[i]], bound)
  {
    if list == [] then []
    else (if Exceeds(shell[list[0]], bound) then [] else [list[0]]) + Survivors(list[1..], shell, bound)
  }

  /** The records 0 .. n-1: the working list in particle order. */
  function Range(n: nat): (r: seq<Record>)
    ensures |r| == n && forall i :: 0 <= i < n ==> r[i] == i
  {
    seq(n, i => i)
  }

  /** The shell maps once every listed record beyond the bound lost its entry for the nucleus. */
  function Evicted(maps: seq<ShellMap>, list: seq<Record>, shell: seq<int>, bound: Bound,
                   nucleus: NucleusId): (m: seq<ShellMap>)
    requires |shell| == |maps|
    ensures |m| == |maps|
  {
    seq(|maps|, r requires 0 <= r < |maps| =>
      if r in list && Exceeds(shell[r], bound) then maps[r] - {nucleus} else maps[r])
  }

  /** The per-electron adjustment of the force loop: one shell out when the projected
      force exceeds 0.01, one in when it is below -0.01 and the shell is above 1. */
  function Adjust(s: int, force: real): (r: int)
    ensures r == s || r == s + 1 || (r == s - 1 && r >= 1)
    ensures force >= 0.0 ==> r == (if force > KickThreshold then s + 1 else s)
  {
    var s1 := if force > KickThreshold then s + 1 else s;
    if force < -KickThreshold && s1 > 1 then s1 - 1 else s1
  }

  /** The record shells after the force loop adjusted every listed record once. */
  function Adjusted(shell: seq<int>, list: seq<Record>, force: seq<real>): (s: seq<int>)
    requires |force| == |shell|
    ensures |s| == |shell|
  {
    seq(|shell|, r requires 0 <= r < |shell| =>
      if r in list then Adjust(shell[r], force[r]) else shell[r])
  }

  /** The shell maps once every listed record stored `[frame, shell]` for the nucleus. */
  function Committed(maps: seq<ShellMap>, list: seq<Record>, shell: seq<int>, nucleus: NucleusId,
                     frame: int): (m: seq<ShellMap>)
    requires |shell| == |maps|
    ensures |m| == |maps|
  {
    seq(|maps|, r requires 0 <= r < |maps| =>
      if r in list then maps[r][nucleus := Entry(frame, shell[r])] else maps[r])
  }

  /** Preconditions of a pass: one distance and one force length, both >= 0, per electron. */
  ghost predicate PassInputs(maps: seq<ShellMap>, dist: seq<real>, force: seq<real>) {
    && |dist| == |maps| && |force| == |maps|
    && NonNegative(dist) && NonNegative(force)
    && StoredShellsPositive(maps)
  }

  /** The shell maps after one call of simulateShells for `nucleus`. */
  function ShellPass(maps: seq<ShellMap>, nucleus: NucleusId, charge: int, frame: int,
                     dist: seq<real>, force: seq<real>): (m: seq<ShellMap>)
    requires PassInputs(maps, dist, force)
    ensures |m| == |maps|
  {
    Settle(maps, Classify(maps, nucleus, frame, dist).shell, MaxShell(charge), nucleus, frame, force)
  }

  /** Each electron's Map once its record shell `shell[r]` is known: the entry for the
      nucleus is deleted beyond the bound, else set to (frame, adjusted shell). */
  function Settle(maps: seq<ShellMap>, shell: seq<int>, bound: Bound, nucleus: NucleusId,
                  frame: int, force: seq<real>): (m: seq<ShellMap>)
    requires |shell| == |maps| && |force| == |maps|
    ensures |m| == |maps|
  {
    seq(|maps|, r requires 0 <= r < |maps| =>
      if Exceeds(shell[r], bound) then maps[r] - {nucleus}
      else maps[r][nucleus := Entry(frame, Adjust(shell[r], force[r]))])
  }

  // ---------------------------------------------------------------- lemmas

  /** Seeding: a stored shell is reused only from an entry for this nucleus that is
      fewer than 30 frames old; otherwise the seed is max(round(d/16), 1). Every seed is >= 1. */
  lemma SeedsAreShells(maps: seq<ShellMap>, nucleus: NucleusId, frame: int, dist: seq<real>, r: nat)
    requires |dist| == |maps| && NonNegative(dist) && StoredShellsPositive(maps) && r < |maps|
    ensures var s := Seeds(maps, nucleus, frame, dist)[r];
      && s >= 1
      && (Sticky(maps[r], nucleus, frame) ==> s == maps[r][nucleus].shell)
      && (!Sticky(maps[r], nucleus, frame) ==>
            s == Max(RoundedDistance(dist[r]), 1) && s as real + 0.5 > dist[r] / ShellInterval)
  {
  }

  lemma {:induction false} SurvivorsMembers(list: seq<Record>, shell: seq<int>, bound: Bound)
    requires forall i :: 0 <= i < |list| ==> list[i] < |shell|
    ensures forall x :: x in Survivors(list, shell, bound) <==>
      x in list && x < |shell| && !Exceeds(shell[x], bound)
  {
    if list != [] {
      SurvivorsMembers(list[1..], shell, bound);
      assert list == [list[0]] + list[1..];
    }
  }

  /** Survivors of a list with one more record in front. */
  lemma SurvivorsCons(x: Record, tail: seq<Record>, shell: seq<int>, bound: Bound)
    requires x < |shell| && forall j :: 0 <= j < |tail| ==> tail[j] < |shell|
    ensures Survivors([x] + tail, shell, bound)
      == (if Exceeds(shell[x], bound) then [] else [x]) + Survivors(tail, shell, bound)
  {
    assert ([x] + tail)[1..] == tail;
  }

  predicate Ascending(s: seq<Record>) {
    forall i, j :: 0 <= i < j < |s| ==> s[i] < s[j]
  }

  /** Survivors keep their relative order: from an ascending list, an ascending list. */
  lemma {:induction false} SurvivorsOrdered(list: seq<Record>, shell: seq<int>, bound: Bound)
    requires forall i :: 0 <= i < |list| ==> list[i] < |shell|
    requires Ascending(list)
    ensures Ascending(Survivors(list, shell, bound))
  {
    if list != [] {
      SurvivorsOrdered(list[1..], shell, bound);
      SurvivorsMembers(list[1..], shell, bound);
      var rest := Survivors(list[1..], shell, bound);
      forall j | 0 <= j < |rest| ensures list[0] < rest[j] {
        assert rest[j] in list[1..];
      }
      AscendingCons(list[0], rest);
    }
  }

  lemma AscendingCons(x: Record, rest: seq<Record>)
    requires Ascending(rest) && forall j :: 0 <= j < |rest| ==> x < rest[j]
    ensures Ascending([x] + rest)
  {
    var s := [x] + rest;
    forall i, j | 0 <= i < j < |s| ensures s[i] < s[j] {
      assert s[j] == rest[j - 1];
      if i > 0 { assert s[i] == rest[i - 1]; }
    }
  }

  /** Eviction: the pass leaves an electron without an entry for the nucleus exactly when
      its shell after promotion exceeds ceil(sqrt(charge/2)). */
  lemma PassEvicts(maps: seq<ShellMap>, nucleus: NucleusId, charge: int, frame: int,
                   dist: seq<real>, force: seq<real>, r: nat)
    requires PassInputs(maps, dist, force) && r < |maps|
    ensures var s := Classify(maps, nucleus, frame, dist).shell[r];
      nucleus !in ShellPass(maps, nucleus, charge, frame, dist, force)[r] <==> Exceeds(s, MaxShell(charge))
  {
  }

  /** Commit: a surviving electron's entry becomes (frame, its shell after promotion plus
      one when the force pushed it out). That shell is >= 1 and, before the push, within
      ceil(sqrt(charge/2)); no decrement can happen because the force length is >= 0. */
  lemma PassCommits(maps: seq<ShellMap>, nucleus: NucleusId, charge: int, frame: int,
                    dist: seq<real>, force: seq<real>, r: nat)
    requires PassInputs(maps, dist, force) && r < |maps|
    requires nucleus in ShellPass(maps, nucleus, charge, frame, dist, force)[r]
    ensures var s := Classify(maps, nucleus, frame, dist).shell[r];
      && 1 <= s
      && (MaxShell(charge).AtMost? ==> s <= MaxShell(charge).shell)
      && ShellPass(maps, nucleus, charge, frame, dist, force)[r][nucleus]
         == Entry(frame, if force[r] > KickThreshold then s + 1 else s)
  {
  }

  /** Entries for every other nucleus are left as they were. */
  lemma PassKeepsOtherNuclei(maps: seq<ShellMap>, nucleus: NucleusId, charge: int, frame: int,
                             dist: seq<real>, force: seq<real>, r: nat, other: NucleusId)
    requires PassInputs(maps, dist, force) && r < |maps| && other != nucleus
    ensures var m := ShellPass(maps, nucleus, charge, frame, dist, force)[r];
      && (other in m <==> other in maps[r])
      && (other in m ==> m[other] == maps[r][other])
  {
    var o := Classify(maps, nucleus, frame, dist);
    SettleKeepsOtherNuclei(maps, o.shell, MaxShell(charge), nucleus, frame, force, r, other);
  }

  lemma SettleKeepsOtherNuclei(maps: seq<ShellMap>, shell: seq<int>, bound: Bound, nucleus: NucleusId,
                               frame: int, force: seq<real>, r: nat, other: NucleusId)
    requires |shell| == |maps| && |force| == |maps| && r < |maps| && other != nucleus
    ensures var m := Settle(maps, shell, bound, nucleus, frame, force)[r];
      && (other in m <==> other in maps[r])
      && (other in m ==> m[other] == maps[r][other])
  {
  }

  /** The pass writes only shells >= 1, so the next pass seeds from whole shells again. */
  lemma PassKeepsShellsPositive(maps: seq<ShellMap>, nucleus: NucleusId, charge: int, frame: int,
                                dist: seq<real>, force: seq<real>)
    requires PassInputs(maps, dist, force)
    ensures StoredShellsPositive(ShellPass(maps, nucleus, charge, frame, dist, force))
  {
    var o := Classify(maps, nucleus, frame, dist);
    SettleKeepsShellsPositive(maps, o.shell, MaxShell(charge), nucleus, frame, force);
  }

  lemma SettleKeepsShellsPositive(maps: seq<ShellMap>, shell: seq<int>, bound: Bound, nucleus: NucleusId,
                                  frame: int, force: seq<real>)
    requires |shell| == |maps| && |force| == |maps|
    requires StoredShellsPositive(maps) && Positive(shell)
    ensures StoredShellsPositive(Settle(maps, shell, bound, nucleus, frame, force))
  {
    var m: seq<ShellMap> := Settle(maps, shell, bound, nucleus, frame, force);
    forall e: nat, k: NucleusId | e < |m| && k in m[e] ensures m[e][k].shell >= 1 {
      assert shell[e] >= 1;
    }
  }

  /** Capacity: after the promotion loop, at most 4(k-1)+2 electrons are classified into
      any shell k >= 1 (the loop re-reads the bucket count, so overflow into a newly
      created bucket is handled in the same pass). */
  lemma PassCapacity(maps: seq<ShellMap>, nucleus: NucleusId, frame: int, dist: seq<real>, k: nat)
    requires |dist| == |maps| && NonNegative(dist) && StoredShellsPositive(maps) && 1 <= k
    ensures var o := Classify(maps, nucleus, frame, dist);
      |Members(o.shell, k, |o.shell|)| <= Capacity(k)
  {
    MembersFit(Classify(maps, nucleus, frame, dist), k);
  }

  /** An electron whose fresh stored shell lies beyond the nucleus's bound is evicted:
      it is reused as the seed, promotion only raises it, and eviction then removes it. */
  lemma StickyBeyondBoundEvicted(maps: seq<ShellMap>, nucleus: NucleusId, charge: int, frame: int,
                                 dist: seq<real>, force: seq<real>, r: nat)
    requires PassInputs(maps, dist, force) && r < |maps|
    requires Sticky(maps[r], nucleus, frame) && Exceeds(maps[r][nucleus].shell, MaxShell(charge))
    ensures nucleus !in ShellPass(maps, nucleus, charge, frame, dist, force)[r]
  {
    var o := Classify(maps, nucleus, frame, dist);
    assert Seeds(maps, nucleus, frame, dist)[r] == maps[r][nucleus].shell;
    assert Exceeds(o.shell[r], MaxShell(charge));
  }

  /** The lone hydrogen electron of CommitCanExceedMaxShell is classified into shell 1. */
  lemma LoneElectronInShellOne()
    ensures Classify([map[]], 0, 0, [16.0]).shell == [1]
  {
    var maps: seq<ShellMap> := [map[]];
    var seeds := Seeds(maps, 0, 0, [16.0]);
    assert RoundedDistance(16.0) == 1;
    assert seeds == [1];
    var b := Bucketize(seeds);
    assert |b| == 2 by { assert Height(seeds, 1) == 2; }
    var o := Occupancy(b, seeds);
    BucketizeValid(seeds);
    assert |b[1]| == 1 by { assert b[1] == Members(seeds, 1, 1) == [0]; }
    assert PromoteAt(o, [16.0], 1) == o;
    assert PromoteAt(o, [16.0], 2) == o;
    assert PromoteFrom(o, [16.0], 3) == o;
    assert PromoteFrom(o, [16.0], 2) == o;
  }

  /** A commit can lie beyond the bound: a hydrogen nucleus (bound 1) with one electron
      one shell interval away and a projected force of 1 stores shell 2. The next pass
      within 30 frames then evicts it (StickyBeyondBoundEvicted). */
  lemma CommitCanExceedMaxShell()
    ensures var m := ShellPass([map[]], 0, 1, 0, [16.0], [1.0]);
      0 in m[0] && m[0][0] == Entry(0, 2) && Exceeds(m[0][0].shell, MaxShell(1))
  {
    LoneElectronInShellOne();
    HydrogenBound();
    LoneElectronPushedOut();
  }

  lemma HydrogenBound()
    ensures MaxShell(1) == AtMost(1)
  {
    CeilSqrtHalfUnique(1, 1);
  }

  lemma LoneElectronPushedOut()
    ensures Settle([map[]], [1], AtMost(1), 0, 0, [1.0]) == [map[0 := Entry(0, 2)]]
  {
    assert Adjust(1, 1.0) == 2;
  }
}
