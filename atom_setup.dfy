/** addAtom: a nucleus of `protons` followed by its electrons, ring by ring. Electron i
    (1-based) goes to ring ceil(sqrt(i/2)), so ring k receives the i with
    2(k-1)² < i <= 2k²: the classifier's capacity 4(k-1)+2 and its bound
    ceil(sqrt(charge/2)) describe the same layout. Positions are kept only as the ring
    number; the angle on the ring is left out. */
module AtomSetup {
  import opened ShellMath
  import opened ShellSpec

  /** What addAtom pushes: the nucleus, and electrons at `ring` shell intervals from it. */
  datatype Particle = NucleusParticle(charge: int) | ElectronParticle(ring: nat)

  /** The fixed number of counter slots addAtom starts with, `[0, 0, 0, 0, 0, 0, 0, 0]`. */
  const Slots: nat := 8

  /** Electrons ring k receives for `protons` (closed form of the counting loop). */
  function ShellCount(protons: int, k: nat): (c: nat)
    ensures k == 0 ==> c == 0
  {
    if k == 0 then 0 else Max(0, Min(protons, 2 * k * k) - 2 * (k - 1) * (k - 1))
  }

  /** The counter array after the counting loop. */
  function ShellCounts(protons: int): (s: seq<nat>)
    ensures |s| == Slots
  {
    seq(Slots, k requires 0 <= k => ShellCount(protons, k))
  }

  function Sum(s: seq<nat>): nat {
    if s == [] then 0 else Sum(s[..|s| - 1]) + s[|s| - 1]
  }

  /** `count` electrons on ring k. */
  function Ring(k: nat, count: nat): (r: seq<Particle>)
    ensures |r| == count && forall j :: 0 <= j < count ==> r[j] == ElectronParticle(k)
  {
    seq(count, _ => ElectronParticle(k))
  }

  /** The electrons the placement loop pushes for the counters `counts`, ring 0 first. */
  function Electrons(counts: seq<nat>): (r: seq<Particle>)
  {
    if counts == [] then [] else Electrons(counts[..|counts| - 1]) + Ring(|counts| - 1, counts[|counts| - 1])
  }

  /** Number of electrons on ring k in `ps`. */
  function OnRing(ps: seq<Particle>, k: nat): nat {
    if ps == [] then 0
    else OnRing(ps[..|ps| - 1], k) + (if ps[|ps| - 1] == ElectronParticle(k) then 1 else 0)
  }

  // ---------------------------------------------------------------- counting

  lemma SquareStep(k: nat)
    requires 1 <= k
    ensures 2 * k * k == 2 * (k - 1) * (k - 1) + Capacity(k)
  {
  }

  /** Proton i lands in ring ceil(sqrt(i/2)): one more electron there, none elsewhere. */
  lemma ShellCountStep(i: int, k: nat)
    requires 1 <= i
    ensures ShellCount(i, k) == ShellCount(i - 1, k) + (if CeilSqrtHalf(i) == k then 1 else 0)
  {
    if k >= 1 {
      CeilSqrtHalfIs(i, k);
      SquareStep(k);
    }
  }

  /** Protons up to 98 never address a counter past the eighth. */
  lemma RingWithinSlots(i: nat)
    requires i <= 2 * (Slots - 1) * (Slots - 1)
    ensures CeilSqrtHalf(i) < Slots
  {
    CeilSqrtHalfMonotone(i, 98);
    CeilSqrtHalfUnique(98, 7);
  }

  /** The counting loop of addAtom: `shells[ceil(sqrt(i / 2))]++` for i = 1 .. protons. */
  method CountElectronsPerShell(protons: int) returns (shells: array<nat>)
    requires protons <= 98
    ensures shells[..] == ShellCounts(protons)
  {
    shells := new nat[Slots](_ => 0);
    var i := 1;
    while i <= protons
      invariant 1 <= i <= Max(protons, 0) + 1
      invariant forall k :: 0 <= k < Slots ==> shells[k] == ShellCount(i - 1, k)
    {
      RingWithinSlots(i);
      var s := CeilSqrtHalf(i);
      shells[s] := shells[s] + 1;
      forall k | 0 <= k < Slots ensures shells[k] == ShellCount(i, k) {
        ShellCountStep(i, k);
      }
      i := i + 1;
    }
    forall k | 0 <= k < Slots ensures shells[k] == ShellCount(protons, k) {
      if protons < 1 {
        NoProtonsNoElectrons(i - 1, k);
        NoProtonsNoElectrons(protons, k);
      }
    }
  }

  /** addAtom: the nucleus, then for each ring i the electrons its counter asks for. */
  method AddAtom(particles: seq<Particle>, protons: int) returns (result: seq<Particle>)
    requires protons <= 98
    ensures result == particles + [NucleusParticle(protons)] + Electrons(ShellCounts(protons))
  {
    result := particles + [NucleusParticle(protons)];
    var shells := CountElectronsPerShell(protons);
    for i := 0 to shells.Length
      invariant result == particles + [NucleusParticle(protons)] + Electrons(shells[..i])
    {
      var shellAmt := shells[i];
      ghost var before := result;
      for j := 0 to shellAmt
        invariant result == before + Ring(i, j)
      {
        result := result + [ElectronParticle(i)];
        assert Ring(i, j + 1) == Ring(i, j) + [ElectronParticle(i)];
      }
      assert shells[..i + 1][..i] == shells[..i];
    }
    assert shells[..shells.Length] == shells[..];
  }

  // ---------------------------------------------------------------- properties

  /** Ring k holds at most 4(k-1)+2 electrons: a fresh atom never overflows a shell. */
  lemma ShellCountFits(protons: int, k: nat)
    requires 1 <= k
    ensures ShellCount(protons, k) <= Capacity(k)
  {
    SquareStep(k);
  }

  /** Rings 1 .. K-1 together hold min(protons, 2(K-1)²) electrons (none when protons <= 0). */
  lemma {:induction false} SumPrefix(protons: int, K: nat)
    requires 1 <= K <= Slots
    ensures Sum(ShellCounts(protons)[..K]) == Min(Max(protons, 0), 2 * (K - 1) * (K - 1))
  {
    var s := ShellCounts(protons)[..K];
    if K == 1 {
      assert s == [0];
      assert Sum(s[..0]) == 0;
    } else {
      SumPrefix(protons, K - 1);
      assert s[..K - 1] == ShellCounts(protons)[..K - 1];
      SquareMonotone(K - 2, K - 1);
    }
  }

  /** All counters together hold exactly `protons` electrons (none when protons <= 0). */
  lemma CountsSumToProtons(protons: int)
    requires protons <= 98
    ensures Sum(ShellCounts(protons)) == Max(protons, 0)
  {
    SumPrefix(protons, Slots);
    assert ShellCounts(protons)[..Slots] == ShellCounts(protons);
  }

  /** Ring k >= 1 is occupied exactly when some proton number i <= protons exceeds 2(k-1)². */
  lemma ShellCountPositive(protons: int, k: nat)
    requires 1 <= k
    ensures ShellCount(protons, k) > 0 <==> 2 * (k - 1) * (k - 1) < protons
  {
    SquareStep(k);
  }

  lemma NoProtonsNoElectrons(protons: int, k: nat)
    requires protons <= 0
    ensures ShellCount(protons, k) == 0
  {
    if k >= 1 {
      ShellCountPositive(protons, k);
      SquareMonotone(0, k - 1);
    }
  }

  /** Ring k is occupied exactly when 1 <= k <= ceil(sqrt(protons/2)). */
  lemma OccupiedRings(protons: int, k: nat)
    ensures ShellCount(protons, k) > 0 <==> protons >= 1 && 1 <= k <= CeilSqrtHalf(protons)
  {
    if protons < 1 {
      NoProtonsNoElectrons(protons, k);
    } else if 1 <= k {
      ShellCountPositive(protons, k);
      RingBelowBound(protons, k);
    }
  }

  lemma RingBelowBound(protons: int, k: nat)
    requires protons >= 1 && 1 <= k
    ensures 2 * (k - 1) * (k - 1) < protons <==> k <= CeilSqrtHalf(protons)
  {
    var c := CeilSqrtHalf(protons);
    if k <= c {
      RingInside(protons, c, k - 1);
    } else {
      RingOutside(protons, c, k - 1);
    }
  }

  /** A ring at or inside ring c sits below 2(c-1)², which is below the proton count. */
  lemma RingInside(protons: int, c: nat, j: nat)
    requires 1 <= c && j <= c - 1 && 2 * (c - 1) * (c - 1) < protons
    ensures 2 * j * j < protons
  {
    var below := (c - 1) * (c - 1);
    assert 2 * (c - 1) * (c - 1) == 2 * below;
    SquareMonotone(j, c - 1);
    assert 2 * j * j == 2 * (j * j);
  }

  /** A ring beyond ring c already holds 2c² >= protons. */
  lemma RingOutside(protons: int, c: nat, j: nat)
    requires c <= j && 2 * c * c >= protons
    ensures 2 * j * j >= protons
  {
    SquareMonotone(c, j);
    assert 2 * c * c == 2 * (c * c);
    assert 2 * j * j == 2 * (j * j);
  }

  /** Every occupied ring below the highest one is full. */
  lemma InnerRingsFull(protons: int, k: nat)
    requires protons >= 1 && 1 <= k < CeilSqrtHalf(protons)
    ensures ShellCount(protons, k) == Capacity(k)
  {
    var c := CeilSqrtHalf(protons);
    RingInside(protons, c, k);
    SquareStep(k);
    assert Min(protons, 2 * k * k) == 2 * k * k;
  }

  /** The highest occupied ring is the nucleus's own bound ceil(sqrt(charge/2)). */
  lemma HighestRingIsMaxShell(protons: int)
    requires protons >= 1
    ensures MaxShell(protons).AtMost?
    ensures ShellCount(protons, MaxShell(protons).shell) > 0
    ensures forall k: nat :: k > MaxShell(protons).shell ==> ShellCount(protons, k) == 0
  {
    OccupiedRings(protons, CeilSqrtHalf(protons));
    forall k: nat | k > MaxShell(protons).shell ensures ShellCount(protons, k) == 0 {
      OccupiedRings(protons, k);
    }
  }

  lemma {:induction false} OnRingAppend(a: seq<Particle>, b: seq<Particle>, k: nat)
    ensures OnRing(a + b, k) == OnRing(a, k) + OnRing(b, k)
  {
    if b != [] {
      assert (a + b)[..|a + b| - 1] == a + b[..|b| - 1];
      OnRingAppend(a, b[..|b| - 1], k);
    } else {
      assert a + b == a;
    }
  }

  lemma {:induction false} OnRingOfRing(i: nat, count: nat, k: nat)
    ensures OnRing(Ring(i, count), k) == if i == k then count else 0
  {
    if count > 0 {
      assert Ring(i, count)[..count - 1] == Ring(i, count - 1);
      OnRingOfRing(i, count - 1, k);
    }
  }

  /** The placement loop puts counts[k] electrons on ring k and nothing else. */
  lemma {:induction false} ElectronsOnRing(counts: seq<nat>, k: nat)
    ensures OnRing(Electrons(counts), k) == if k < |counts| then counts[k] else 0
    ensures forall j :: 0 <= j < |Electrons(counts)| ==> Electrons(counts)[j].ElectronParticle?
    ensures |Electrons(counts)| == Sum(counts)
  {
    if counts != [] {
      var n := |counts| - 1;
      ElectronsOnRing(counts[..n], k);
      OnRingAppend(Electrons(counts[..n]), Ring(n, counts[n]), k);
      OnRingOfRing(n, counts[n], k);
    }
  }

  /** addAtom makes a neutral atom: exactly `protons` electrons (none for protons <= 0),
      ShellCount(protons, k) of them on ring k, so no ring exceeds its capacity. */
  lemma AtomLayout(protons: int, k: nat)
    requires protons <= 98
    ensures var es := Electrons(ShellCounts(protons));
      && |es| == Max(protons, 0)
      && (forall j :: 0 <= j < |es| ==> es[j].ElectronParticle?)
      && OnRing(es, k) == ShellCount(protons, k)
      && (k >= 1 ==> OnRing(es, k) <= Capacity(k))
  {
    ElectronsOnRing(ShellCounts(protons), k);
    CountsSumToProtons(protons);
    if k >= 1 { ShellCountFits(protons, k); }
    if k >= Slots {
      OccupiedRings(protons, k);
      RingWithinSlots(Max(protons, 0));
      CeilSqrtHalfMonotone(Max(protons, 0), 98);
    }
  }

  /** An electron placed on ring k >= 1 (distance 16k) seeds into shell k on the
      classifier's first pass: Math.round(16k / 16) = k. */
  lemma RingSeedsItsShell(k: nat, nucleus: NucleusId, frame: int)
    requires k >= 1
    ensures SeedShell(map[], nucleus, frame, k as real * ShellInterval) == k
  {
    var d := k as real * ShellInterval;
    assert d / ShellInterval == k as real;
    assert (k as real + 0.5).Floor == k;
  }
}
