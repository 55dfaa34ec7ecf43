# Electron shell bookkeeping of the chemistry sketch

This project models the electron-shell bookkeeping of the particle sketch in Dafny.
In the sketch, every nucleus assigns nearby electrons to numbered shells once per frame
(`Nucleus.simulateShells`). `addAtom` lays out a fresh atom's electrons on rings.
The model covers:

- **Seeding.** An electron reuses the shell it stored for this nucleus if that entry is
  fewer than 30 frames old. Otherwise it starts at `max(round(d / 16), 1)`.
- **Bucketing.** Electrons go into a bucket array indexed by shell. Missing indices
  below the largest shell are empty slots.
- **Overflow promotion.** Shell n holds `4(n-1)+2` electrons. An overflowing bucket is
  stable-sorted farthest-first, and its excess is shifted onto bucket n+1 with
  `shell++`.
- **Eviction.** An electron whose shell exceeds `ceil(sqrt(charge/2))` loses its entry
  for the nucleus.
- **Force adjustment.** A projected force longer than 0.01 moves the electron one shell
  out.
- **Commit.** `[frame, shell]` is stored in every remaining electron's Map.
- **addAtom.** It counts electrons per ring (`shells[ceil(sqrt(i/2))]++`) and pushes
  the nucleus and its electrons ring by ring.

Module layout:

- `ShellMath` (shell_math.dfy): the capacity `4(n-1)+2`, and `ceil(sqrt(x/2))` as the
  least k with 2k² ≥ x. `MaxShell` turns it into a `Bound`.
- `FarthestFirst` (farthest_first.dfy): the farthest-first stable sort, as an insertion
  sort with its ordering, permutation, distinctness and stability lemmas.
- `Occupancy` (occupancy.dfy): the bucket array and the per-electron record shells. It
  has the validity invariant (each record sits once, in the bucket its shell names),
  one promotion step `PromoteAt` and the whole sweep `PromoteFrom`.
- `ShellSpec` (shell_spec.dfy): one call of `simulateShells` as functions over the
  electrons' shell Maps (`ShellPass`), with the properties of a pass.
- `Nucleus` (nucleus.dfy): the loops of `simulateShells` as methods over an
  `array<ShellMap>` updated in place. Each phase is proved equal to its `ShellSpec`
  function, and `SimulateShells` is proved to produce `ShellPass`.
- `AtomSetup` (atom_setup.dfy): `addAtom`'s counting loop over an `array<nat>`, its
  placement loop, and the layout lemmas. The layout lemmas show that addAtom's rings
  and the classifier's capacity and bound describe the same atom.

Where the modelled code reads global state, that state is a parameter:

- The global `frame` counter.
- Each electron's Map is an entry of `maps`, indexed by the electron's position among
  the particle list's electrons. Non-electron particles are skipped by the source's
  `instanceof` test, so they have no index.
- Each electron's distance to the nucleus (`dist`) and the length of its projected
  accumulated force (`force`). Both are non-negative reals.

Two behaviours of the code are easy to misread:

- **Promotion cascades within one pass.** The loop bound `shells.length + 1` is re-read
  on every iteration (sketch.js:135). A bucket that promotion just created is therefore
  examined in the same pass, and so every bucket leaves the promotion loop within
  capacity (`PassCapacity`). The force step that follows (sketch.js:201-203) can still
  push committed shells past capacity.
- **A commit can exceed the bound.** Eviction runs before the force adjustment. A
  surviving electron in the top shell that is pushed out therefore stores a shell one
  beyond `ceil(sqrt(charge/2))`. It is evicted on the next pass within 30 frames
  (`CommitCanExceedMaxShell`, `StickyBeyondBoundEvicted`).

## Model

| member | source | states |
|---|---|---|
| ShellMath.MaxShell | sketch.js:167 | the bound is ceil(sqrt(charge/2)) as the least k with 2k² ≥ charge; a negative charge (NaN in JavaScript) gives no bound |
| ShellMath.CeilSqrtHalfIs | sketch.js:245 | ceil(sqrt(i/2)) is k exactly when 2(k-1)² < i ≤ 2k², for i, k ≥ 1 |
| ShellMath.CeilSqrtHalfUnique | sketch.js:167 | the two bounds 2(k-1)² < x ≤ 2k² determine ceil(sqrt(x/2)) uniquely |
| ShellMath.CeilSqrtHalfMonotone | sketch.js:167 | a larger charge never gives a lower highest shell |
| ShellSpec.RoundedDistance | sketch.js:118 | Math.round(d/16) is the whole number within one half of d/16, rounding halves up |
| ShellSpec.SeedsAreShells | sketch.js:102-121 | a seed is the stored shell exactly when the entry for this nucleus is under 30 frames old, else max(round(d/16), 1); every seed is ≥ 1 |
| Nucleus.SeedShells | sketch.js:102-121 | the seeding loop yields the seed of every electron, in particle order |
| Nucleus.BucketShells | sketch.js:123-130 | the push loop builds bucket k = the records of shell k in particle order, with empty slots below the top shell |
| Occupancy.BucketizeValid | sketch.js:123-130 | after bucketing, every record sits exactly once, in the bucket its shell names |
| FarthestFirst.SortFarthestFirst | sketch.js:148-153 | the sorted bucket is a permutation of the bucket |
| FarthestFirst.SortOrdered | sketch.js:148-153 | the sorted bucket is ordered by non-increasing distance |
| FarthestFirst.SortStable | sketch.js:148-153 | records at equal distance keep their relative order |
| FarthestFirst.SortDistinct | sketch.js:148-153 | sorting a bucket without repeats gives one without repeats |
| Occupancy.PromoteAtValid | sketch.js:138-163 | a promotion step keeps every record exactly once, in the bucket its (possibly raised) shell names |
| Occupancy.PromoteAtFrame | sketch.js:142-163 | a step changes only buckets n and n+1, creates bucket n+1 only on overflow, and leaves buckets 1..n within capacity |
| Occupancy.PromoteAtShells | sketch.js:155-163 | every record's shell stays, or goes from n to n+1 |
| Occupancy.PromoteAtExcess | sketch.js:142-163 | an overflowing bucket loses exactly length − (4(n−1)+2) records, which is its length − 4n + 2. These are appended after the old contents of bucket n+1, farthest first, and none of them is closer than a record left behind |
| Occupancy.PromoteAtConserves | sketch.js:155-163 | promotion neither adds nor drops an entry |
| Occupancy.PromoteFrom | sketch.js:133-164 | the sweep with the re-read bound leaves every bucket k ≥ 1 within 4(k-1)+2, every record placed once, shells only raised, entries conserved |
| Occupancy.MembersFit | sketch.js:133-164 | after the sweep, at most 4(k-1)+2 records have shell k |
| Nucleus.ShiftExcess | sketch.js:155-163 | shifting `excess` heads moves exactly the first `excess` sorted records onto bucket n+1, in order, and raises exactly their shells |
| Nucleus.PromoteShell | sketch.js:142-163 | one overflowing shell ends as the promotion step PromoteAt states |
| Nucleus.PromoteOverflow | sketch.js:133-164 | the promotion loop ends as the whole sweep Promote states |
| ShellSpec.Classify | sketch.js:102-164 | the classified records are placed once each, every shell k ≥ 1 is within capacity, and no record ends below its seed |
| ShellSpec.PassCapacity | sketch.js:133-164 | no shell k ≥ 1 holds more than 4(k-1)+2 electrons after promotion |
| ShellSpec.Survivors | sketch.js:166-171 | no surviving record lies beyond the bound |
| ShellSpec.SurvivorsMembers | sketch.js:166-171 | a record survives exactly when it was listed and its shell is within the bound |
| ShellSpec.SurvivorsOrdered | sketch.js:166-171 | splicing from the back keeps the survivors in particle order |
| Nucleus.EvictBeyond | sketch.js:166-171 | the reverse loop leaves exactly the survivors and deletes the nucleus entry of exactly the evicted electrons |
| ShellSpec.Adjust | sketch.js:201-207 | a shell moves by at most one and never below 1; for a force length ≥ 0 it goes out by one exactly when the force exceeds 0.01 |
| Nucleus.AdjustShells | sketch.js:201-207 | the force loop adjusts each surviving record once and no other |
| Nucleus.CommitShells | sketch.js:216-218 | every remaining electron stores [frame, shell] for the nucleus and no other Map changes |
| ShellSpec.PassEvicts | sketch.js:166-171 | an electron loses its entry for the nucleus exactly when its promoted shell exceeds ceil(sqrt(charge/2)) |
| ShellSpec.PassCommits | sketch.js:201-218 | a kept electron stores (frame, its promoted shell, plus one if the force exceeds 0.01); that shell is ≥ 1 and within the bound |
| ShellSpec.PassKeepsOtherNuclei | sketch.js:166-218 | entries for every other nucleus are untouched by a pass |
| ShellSpec.SettleKeepsOtherNuclei | sketch.js:166-218 | eviction and commit touch only the entry of the nucleus being simulated |
| ShellSpec.PassKeepsShellsPositive | sketch.js:216-218 | every stored shell stays ≥ 1 after a pass |
| ShellSpec.SettleKeepsShellsPositive | sketch.js:216-218 | committing shells ≥ 1 keeps every stored shell ≥ 1 |
| ShellSpec.StickyBeyondBoundEvicted | sketch.js:105-171 | an electron whose fresh stored shell exceeds the bound is evicted on the next pass |
| ShellSpec.CommitCanExceedMaxShell | sketch.js:166-218 | a hydrogen electron at distance 16 with force 1 stores shell 2, beyond its bound 1 |
| Nucleus.SimulateShells | sketch.js:98-219 | one call updates the electrons' Maps exactly as ShellPass states, and every stored shell stays ≥ 1 |
| Nucleus.PhasesComposeToPass | sketch.js:166-218 | eviction, adjustment and commit over the working list, applied in turn, give each electron's Map as Settle states |
| AtomSetup.CountElectronsPerShell | sketch.js:242-246 | the counting loop leaves counter k = the number of i in 1..protons with ceil(sqrt(i/2)) = k |
| AtomSetup.AddAtom | sketch.js:239-264 | addAtom appends the nucleus and then, ring by ring, counter-k electrons on ring k |
| AtomSetup.ShellCountFits | sketch.js:242-246 | ring k ≥ 1 receives at most 4(k-1)+2 electrons |
| AtomSetup.CountsSumToProtons | sketch.js:242-246 | the counters add up to the proton count (0 for protons ≤ 0) |
| AtomSetup.OccupiedRings | sketch.js:242-246 | ring k is occupied exactly when 1 ≤ k ≤ ceil(sqrt(protons/2)) |
| AtomSetup.InnerRingsFull | sketch.js:242-246 | every occupied ring below the highest one is full |
| AtomSetup.HighestRingIsMaxShell | sketch.js:244-246 | the highest occupied ring is the nucleus's eviction bound ceil(sqrt(charge/2)) |
| AtomSetup.ElectronsOnRing | sketch.js:248-263 | the placement loop puts counter-k electrons on ring k and nothing else |
| AtomSetup.AtomLayout | sketch.js:239-264 | a fresh atom has exactly `protons` electrons, ShellCount(protons, k) on ring k, none over capacity |
| AtomSetup.RingSeedsItsShell | sketch.js:118 | an electron on ring k ≥ 1 with no stored entry seeds into shell k |

## Left out

- Drawing (`draw` methods, the shell circles at sketch.js:89-95, `drawLoop`) and the physics of `Particle.simulate`: rendering and floating-point motion.
- The force computed in simulateShells (sketch.js:176-199, 209-213): the velocity kicks are floating-point geometry. Only the projected force length enters, as the input `force`.
- `dist` and `project`: distances and projection lengths are inputs (non-negative reals).
- Floating-point rounding: distances are exact reals, so an electron sitting exactly on the nucleus (a NaN in the force) is not modelled.
- The decrement branch (sketch.js:205-207) is modelled in ShellSpec.Adjust but cannot fire, because a projected length is never negative.
- AtomSetup.AddAtom: requires protons ≤ 98. At 99 or more protons the counting loop indexes past the eight counters, the new slot becomes NaN, and electrons are silently dropped. The model does not capture that NaN arithmetic.
- AtomSetup.AddAtom: the electrons' angles and positions (sketch.js:252-257) are reduced to a ring number. The velocities and the angle offset are not modelled.
- A fractional proton count is not modelled; `protons` is a whole number.
- Particles other than electrons are skipped by simulateShells (sketch.js:103), so the model indexes electrons only.
- The animation loop that calls simulateShells for every nucleus in turn: each call is modelled alone, for one nucleus, with the Maps as they stand before it.
