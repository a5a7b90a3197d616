/** The bitwise `and` of two unsigned integers, used to pick shards. */
module Bits {

  function BitAnd(x: nat, m: nat): (r: nat)
    ensures r <= m && r <= x
  {
    if x == 0 || m == 0 then 0
    else (if x % 2 == 1 && m % 2 == 1 then 1 else 0) + 2 * BitAnd(x / 2, m / 2)
  }

  function Pow2(k: nat): (r: nat)
    ensures r >= 1
  {
    if k == 0 then 1 else 2 * Pow2(k - 1)
  }

  predicate Bit(x: nat, j: nat) {
    if j == 0 then x % 2 == 1 else Bit(x / 2, j - 1)
  }

  /** It is what it says: a bit is set in the result exactly if it is set in both. */
  lemma {:induction false} BitAndBits(x: nat, m: nat, j: nat)
    ensures Bit(BitAnd(x, m), j) <==> Bit(x, j) && Bit(m, j)
    decreases j
  {
    if x == 0 || m == 0 {
      ZeroHasNoBits(j);
    } else if j > 0 {
      assert BitAnd(x, m) / 2 == BitAnd(x / 2, m / 2);
      BitAndBits(x / 2, m / 2, j - 1);
    }
  }

  lemma {:induction false} ZeroHasNoBits(j: nat)
    ensures !Bit(0, j)
  {
    if j > 0 { ZeroHasNoBits(j - 1); }
  }

  /** Masking with one less than a power of two is the remainder. */
  lemma {:induction false} MaskIsMod(x: nat, k: nat)
    ensures BitAnd(x, Pow2(k) - 1) == x % Pow2(k)
  {
    if k > 0 {
      var p := Pow2(k - 1);
      MaskIsMod(x / 2, k - 1);
      MaskDouble(x, p);
      ModDouble(x, p);
    } else {
      assert x % 1 == 0;
    }
  }

  lemma MaskDouble(x: nat, p: nat)
    requires p >= 1
    ensures BitAnd(x, 2 * p - 1) == x % 2 + 2 * BitAnd(x / 2, p - 1)
  {
    assert (2 * p - 1) / 2 == p - 1 && (2 * p - 1) % 2 == 1;
  }

  lemma ModDouble(x: nat, p: nat)
    requires p >= 1
    ensures x % (2 * p) == x % 2 + 2 * ((x / 2) % p)
  {
    var q := (x / 2) / p;
    var r := x % 2 + 2 * ((x / 2) % p);
    assert x == 2 * (x / 2) + x % 2;
    assert x / 2 == p * q + (x / 2) % p;
    assert x == (2 * p) * q + r;
    DivisionUnique(x, 2 * p, q, r);
  }

  lemma DivisionUnique(x: int, d: int, q: int, r: int)
    requires d > 0 && 0 <= r < d && x == d * q + r
    ensures x % d == r
  {
    var q2, r2 := x / d, x % d;
    assert x == d * q2 + r2 && 0 <= r2 < d;
    if q > q2 {
      MulAtLeast(d, q - q2);
    } else if q < q2 {
      MulAtLeast(d, q2 - q);
    }
  }

  lemma MulAtLeast(d: int, k: int)
    requires d > 0 && k >= 1
    ensures d * k >= d
  {
  }
}
