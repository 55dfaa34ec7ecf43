/** Integer formulas shared by the shell classifier and the atom setup:
    shell capacity 4(n-1)+2 and the highest shell ceil(sqrt(charge/2)). */
module ShellMath {

  /** Number of electrons shell `n` holds before it overflows. */
  function Capacity(n: int): int {
    4 * (n - 1) + 2
  }

  function Max(a: int, b: int): int { if a < b then b else a }
  function Min(a: int, b: int): int { if a < b then a else b }

  lemma SquareMonotone(a: nat, b: nat)
    requires a <= b
    ensures a * a <= b * b
  {
    assert a * a <= a * b;
  }

  lemma DoubleSquareMonotone(a: nat, b: nat)
    requires a <= b
    ensures 2 * a * a <= 2 * b * b
  {
    SquareMonotone(a, b);
    assert 2 * a * a == 2 * (a * a) && 2 * b * b == 2 * (b * b);
  }

  /** ceil(sqrt(x / 2)) for a whole number x: the least k with 2k² >= x. */
  function CeilSqrtHalf(x: nat): (k: nat)
    ensures 2 * k * k >= x
    ensures k == 0 || 2 * (k - 1) * (k - 1) < x
  {
    if x == 0 then 0 else SearchFrom(x, 1)
  }

  /** The least k >= `k0` with 2k² >= x, given that 2(k0-1)² < x. */
  function SearchFrom(x: nat, k0: nat): (k: nat)
    requires 1 <= k0 && 2 * (k0 - 1) * (k0 - 1) < x
    ensures k0 <= k
    ensures 2 * k * k >= x && 2 * (k - 1) * (k - 1) < x
    decreases x - k0
  {
    if 2 * k0 * k0 >= x then k0
    else
      assert k0 <= k0 * k0;
      SearchFrom(x, k0 + 1)
  }

  /** The two bounds of CeilSqrtHalf pin it down: any k meeting them is the result. */
  lemma CeilSqrtHalfUnique(x: nat, k: nat)
    requires 2 * k * k >= x
    requires k == 0 || 2 * (k - 1) * (k - 1) < x
    ensures CeilSqrtHalf(x) == k
  {
    var c := CeilSqrtHalf(x);
    if c < k {
      DoubleSquareMonotone(c, k - 1);
    } else if k < c {
      DoubleSquareMonotone(k, c - 1);
    }
  }

  /** ceil(sqrt(i/2)) is k exactly when 2(k-1)² < i <= 2k², for i >= 1 and k >= 1. */
  lemma CeilSqrtHalfIs(i: nat, k: nat)
    requires 1 <= i && 1 <= k
    ensures CeilSqrtHalf(i) == k <==> 2 * (k - 1) * (k - 1) < i <= 2 * k * k
  {
    if 2 * (k - 1) * (k - 1) < i <= 2 * k * k {
      CeilSqrtHalfUnique(i, k);
    }
  }

  /** CeilSqrtHalf does not decrease as its argument grows. */
  lemma CeilSqrtHalfMonotone(x: nat, y: nat)
    requires x <= y
    ensures CeilSqrtHalf(x) <= CeilSqrtHalf(y)
  {
    var cx, cy := CeilSqrtHalf(x), CeilSqrtHalf(y);
    if cy < cx {
      DoubleSquareMonotone(cy, cx - 1);
    }
  }

  /** The highest shell a nucleus hosts. JavaScript's Math.sqrt of a negative
      charge is NaN and `shell > NaN` is false, so such a nucleus evicts nothing. */
  datatype Bound = Unbounded | AtMost(shell: nat)

  function MaxShell(charge: int): (b: Bound)
    ensures charge < 0 <==> b.Unbounded?
    ensures b.AtMost? ==> 2 * b.shell * b.shell >= charge
    ensures b.AtMost? && b.shell > 0 ==> 2 * (b.shell - 1) * (b.shell - 1) < charge
  {
    if charge < 0 then Unbounded else AtMost(CeilSqrtHalf(charge))
  }

  /** Whether shell `s` lies beyond the bound (the eviction test). */
  predicate Exceeds(s: int, b: Bound) {
    b.AtMost? && s > b.shell
  }
}
