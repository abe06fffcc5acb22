/** The bits of a 128-bit key and the crit-bit trees built on them. */
module Keys {
  import opened Types

  const KEY_BITS: nat := 128
  const KEY_SIZE: nat := 0x1_0000_0000_0000_0000_0000_0000_0000_0000

  /** The top `n` bits of `k`, that is `k >> (128 - n)`. */
  function Prefix(k: nat, n: nat): nat
    requires n <= KEY_BITS
    decreases KEY_BITS - n
  {
    if n == KEY_BITS then k else Prefix(k, n + 1) / 2
  }

  /** Bit `n` of `k`, counted from the most significant one: `k & (1 << (127 - n)) != 0`. */
  predicate CritBit(k: nat, n: nat)
    requires n < KEY_BITS
  {
    Prefix(k, n + 1) % 2 == 1
  }

  /** Bitwise exclusive or. */
  function Xor(a: nat, b: nat): nat {
    if a == 0 && b == 0 then 0
    else 2 * Xor(a / 2, b / 2) + (if a % 2 != b % 2 then 1 else 0)
  }

  /** Number of leading zeros among the bits of `x` from position `n` on, plus `n`. */
  function LeadingZerosFrom(x: nat, n: nat): (r: nat)
    requires n <= KEY_BITS
    ensures n <= r <= KEY_BITS
    ensures r < KEY_BITS ==> CritBit(x, r)
    decreases KEY_BITS - n
  {
    if n == KEY_BITS then n else if CritBit(x, n) then n else LeadingZerosFrom(x, n + 1)
  }

  function LeadingZeros(x: nat): nat { LeadingZerosFrom(x, 0) }

  /** The number of leading bits two keys have in common, as the tree computes it. */
  function SharedPrefixLen(a: nat, b: nat): (r: nat)
    ensures r <= KEY_BITS
  {
    LeadingZeros(Xor(a, b))
  }

  lemma DoubleAndBit(n: nat, bit: nat)
    requires bit <= 1
    ensures (2 * n + bit) % 2 == bit && (2 * n + bit) / 2 == n
  {
  }

  /** The lowest bit of the exclusive or, and the bits above it. */
  lemma XorBits(a: nat, b: nat)
    ensures Xor(a, b) % 2 == (if a % 2 != b % 2 then 1 else 0) && Xor(a, b) / 2 == Xor(a / 2, b / 2)
  {
    DoubleAndBit(Xor(a / 2, b / 2), if a % 2 != b % 2 then 1 else 0);
  }

  lemma {:induction false} XorPrefix(a: nat, b: nat, n: nat)
    requires n <= KEY_BITS
    ensures Prefix(Xor(a, b), n) == Xor(Prefix(a, n), Prefix(b, n))
    decreases KEY_BITS - n
  {
    if n < KEY_BITS {
      hide Xor;
      XorPrefix(a, b, n + 1);
      XorBits(Prefix(a, n + 1), Prefix(b, n + 1));
    }
  }

  lemma {:induction false} XorZero(a: nat, b: nat)
    ensures Xor(a, b) == 0 <==> a == b
    decreases a + b
  {
    if a != 0 || b != 0 {
      XorZero(a / 2, b / 2);
    }
  }

  lemma {:induction false} PrefixZero(x: nat, n: nat, m: nat)
    requires n <= m <= KEY_BITS
    ensures Prefix(x, m) == 0 ==> Prefix(x, n) == 0
    decreases m - n
  {
    if n < m {
      PrefixZero(x, n + 1, m);
    }
  }

  /** Equal prefixes stay equal when shortened. */
  lemma {:induction false} PrefixShorter(a: nat, b: nat, n: nat, m: nat)
    requires n <= m <= KEY_BITS
    ensures Prefix(a, m) == Prefix(b, m) ==> Prefix(a, n) == Prefix(b, n)
    decreases m - n
  {
    if n < m {
      PrefixShorter(a, b, n + 1, m);
    }
  }

  lemma {:induction false} LeadingZerosPrefix(x: nat, n: nat)
    requires n <= KEY_BITS
    requires Prefix(x, n) == 0
    ensures Prefix(x, LeadingZerosFrom(x, n)) == 0
    decreases KEY_BITS - n
  {
    if n < KEY_BITS && !CritBit(x, n) {
      assert Prefix(x, n) == Prefix(x, n + 1) / 2;
      LeadingZerosPrefix(x, n + 1);
    }
  }

  /** A 128-bit number has no bits above its top one. */
  lemma {:induction false} PrefixBound(k: nat, n: nat, p: nat)
    requires n <= KEY_BITS
    requires k < p * Pow2(KEY_BITS - n)
    ensures Prefix(k, n) < p
    decreases KEY_BITS - n
  {
    if n < KEY_BITS {
      assert p * Pow2(KEY_BITS - n) == (2 * p) * Pow2(KEY_BITS - (n + 1));
      PrefixBound(k, n + 1, 2 * p);
    }
  }

  function Pow2(n: nat): nat { if n == 0 then 1 else 2 * Pow2(n - 1) }

  lemma Pow2Of128()
    ensures Pow2(KEY_BITS) == KEY_SIZE
  {
    Pow2Doubles(4, 16);
    Pow2Doubles(8, 0x100);
    Pow2Doubles(16, 0x1_0000);
    Pow2Doubles(32, 0x1_0000_0000);
    Pow2Doubles(64, U64_SIZE);
  }

  lemma Pow2Doubles(n: nat, p: nat)
    requires Pow2(n) == p
    ensures Pow2(n + n) == p * p
  {
    Pow2Sum(n, n);
  }

  lemma {:induction false} Pow2Sum(a: nat, b: nat)
    ensures Pow2(a + b) == Pow2(a) * Pow2(b)
  {
    if a > 0 {
      Pow2Sum(a - 1, b);
    }
  }

  /** The leading zeros of the exclusive or are the length of the longest common prefix. */
  lemma SharedPrefixLenIsLongest(a: nat, b: nat)
    requires a < KEY_SIZE && b < KEY_SIZE
    ensures var n := SharedPrefixLen(a, b);
            && Prefix(a, n) == Prefix(b, n)
            && (n == KEY_BITS <==> a == b)
            && (n < KEY_BITS ==> CritBit(a, n) != CritBit(b, n))
  {
    var n := SharedPrefixLen(a, b);
    SharedIsZero(a, b);
    hide Prefix, Xor, SharedPrefixLen;
    XorPrefix(a, b, n);
    XorZero(Prefix(a, n), Prefix(b, n));
    XorZero(a, b);
    XorIsAll(a, b);
    if n < KEY_BITS { XorCritBit(a, b, n); }
  }

  /** The bits of the exclusive or before the length found are zero, and the next one is not. */
  lemma SharedIsZero(a: nat, b: nat)
    requires a < KEY_SIZE && b < KEY_SIZE
    ensures var x, n := Xor(a, b), SharedPrefixLen(a, b);
            Prefix(x, n) == 0 && (n < KEY_BITS ==> CritBit(x, n) && x != 0)
  {
    hide Prefix, Xor, Pow2;
    Pow2Of128();
    PrefixBound(a, 0, 1);
    PrefixBound(b, 0, 1);
    XorPrefix(a, b, 0);
    XorZero(0, 0);
    LeadingZerosPrefix(Xor(a, b), 0);
    if SharedPrefixLen(a, b) < KEY_BITS { NotZero(Xor(a, b), SharedPrefixLen(a, b)); }
  }

  lemma NotZero(x: nat, n: nat)
    requires n < KEY_BITS && CritBit(x, n)
    ensures x != 0
  {
    PrefixZero(x, n + 1, KEY_BITS);
  }

  lemma XorIsAll(a: nat, b: nat)
    ensures Prefix(a, KEY_BITS) == a && Prefix(b, KEY_BITS) == b
  {
  }

  /** A bit of the exclusive or is set exactly where the keys differ. */
  lemma XorCritBit(a: nat, b: nat, n: nat)
    requires n < KEY_BITS
    ensures CritBit(Xor(a, b), n) <==> CritBit(a, n) != CritBit(b, n)
  {
    XorPrefix(a, b, n + 1);
    XorBits(Prefix(a, n + 1), Prefix(b, n + 1));
    hide Prefix, Xor;
  }

  /** Keys that share `n` bits and differ in the next one are ordered by that bit. */
  lemma {:induction false} CritBitOrders(a: nat, b: nat, n: nat)
    requires n < KEY_BITS
    requires Prefix(a, n) == Prefix(b, n)
    requires !CritBit(a, n) && CritBit(b, n)
    ensures a < b
  {
    assert Prefix(a, n + 1) < Prefix(b, n + 1);
    PrefixOrders(a, b, n + 1);
  }

  lemma {:induction false} PrefixOrders(a: nat, b: nat, n: nat)
    requires n <= KEY_BITS
    requires Prefix(a, n) < Prefix(b, n)
    ensures a < b
    decreases KEY_BITS - n
  {
    if n < KEY_BITS {
      PrefixOrders(a, b, n + 1);
    }
  }
}
