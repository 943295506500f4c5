/** Integer and vector helpers (Fluid/src/math/minmath.hpp). */
module MinMath {

  /** A glm::vec2, with its components taken as real numbers. */
  datatype Vec2 = Vec2(x: real, y: real) {
    function Plus(o: Vec2): (r: Vec2)
    {
      Vec2(x + o.x, y + o.y)
    }
  }

  /** The mathematical power a^k. */
  function Power(a: int, k: nat): (r: int)
  {
    if k == 0 then 1 else a * Power(a, k - 1)
  }

  lemma {:induction false} PowerOfTwoPositive(k: nat)
    ensures Power(2, k) >= 1
  {
    if k > 0 {
      PowerOfTwoPositive(k - 1);
    }
  }

  /** 2^k grows strictly with k. */
  lemma {:induction false} PowerOfTwoStrictlyIncreasing(j: nat, k: nat)
    requires j < k
    ensures Power(2, j) < Power(2, k)
  {
    PowerOfTwoPositive(k - 1);
    if j < k - 1 {
      PowerOfTwoStrictlyIncreasing(j, k - 1);
    }
  }

  lemma MulLeft(p: int, a: int, b: int)
    requires 0 <= p && a <= b
    ensures p * a <= p * b
  {
  }

  /** If n lies in the p-sized block number m, it lies in the 2p-sized block number m / 2. */
  lemma HalvingKeepsBounds(p: int, m: int, n: int)
    requires p >= 1 && m >= 0 && p * m <= n < p * (m + 1)
    ensures (2 * p) * (m / 2) <= n < (2 * p) * (m / 2 + 1)
  {
    MulLeft(p, 2 * (m / 2), m);
    MulLeft(p, m + 1, 2 * (m / 2) + 2);
    assert (2 * p) * (m / 2) == p * (2 * (m / 2));
    assert (2 * p) * (m / 2 + 1) == p * (2 * (m / 2) + 2);
  }

  /**
   * powerof2: counts how many halvings bring n down to 0, minus one.
   * For n >= 1 that is the exponent of the largest power of two not above n;
   * for n <= 0 the loop never runs and the result is -1.
   */
  method PowerOf2(n: int) returns (r: int)
    ensures n <= 0 ==> r == -1
    ensures n >= 1 ==> 0 <= r && Power(2, r) <= n < Power(2, r + 1)
  {
    var m := n;
    var i := 0;
    while m > 0
      invariant n <= 0 ==> i == 0 && m == n
      invariant n > 0 ==> 0 <= i && 0 <= m && Power(2, i) * m <= n < Power(2, i) * (m + 1)
      invariant n > 0 && i > 0 ==> Power(2, i - 1) <= n
    {
      PowerOfTwoPositive(i);
      MulLeft(Power(2, i), 1, m);
      HalvingKeepsBounds(Power(2, i), m, n);
      i := i + 1;
      m := m / 2;
    }
    if n > 0 {
      PowerOfTwoPositive(i);
      assert i > 0;
    }
    r := i - 1;
  }

  /** The exponent found by PowerOf2 is the largest one: every higher power of two exceeds n. */
  lemma {:induction false} PowerOf2IsLargest(n: int, r: nat, q: nat)
    requires Power(2, r) <= n < Power(2, r + 1)
    requires q > r
    ensures Power(2, q) > n
  {
    if q > r + 1 {
      PowerOfTwoStrictlyIncreasing(r + 1, q);
    }
  }

  /** The exponent with 2^r <= n < 2^(r+1) is unique. */
  lemma PowerOf2IsUnique(n: int, r: nat, q: nat)
    requires Power(2, r) <= n < Power(2, r + 1)
    requires Power(2, q) <= n < Power(2, q + 1)
    ensures r == q
  {
    if r < q {
      PowerOf2IsLargest(n, r, q);
    } else if q < r {
      PowerOf2IsLargest(n, q, r);
    }
  }

  /** pow: a^k by repeated multiplication; 1 when k <= 0. */
  method Pow(a: int, k: int) returns (r: int)
    ensures k <= 0 ==> r == 1
    ensures k > 0 ==> r == Power(a, k)
  {
    var ret := 1;
    var left := k;
    while left > 0
      invariant k <= 0 ==> left == k && ret == 1
      invariant k > 0 ==> 0 <= left <= k && ret == Power(a, k - left)
    {
      ret := ret * a;
      left := left - 1;
    }
    r := ret;
  }

  /** Max: v1 when it is strictly greater, v2 otherwise. */
  function Max(v1: real, v2: real): (r: real)
    ensures r == v1 || r == v2
    ensures r >= v1 && r >= v2
    ensures v1 <= v2 ==> r == v2
  {
    if v1 > v2 then v1 else v2
  }

  /** Min: v2 when v1 is strictly greater, v1 otherwise. */
  function Min(v1: real, v2: real): (r: real)
    ensures r == v1 || r == v2
    ensures r <= v1 && r <= v2
    ensures v1 <= v2 ==> r == v1
  {
    if v1 > v2 then v2 else v1
  }
}
