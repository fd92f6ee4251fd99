/** Bitwise operators on naturals, defined bit by bit, for the packed header and the MAC fold. */
module BitOps {
  import opened Bytes

  function Xor(a: nat, b: nat): nat {
    if a == 0 && b == 0 then 0
    else (a % 2 + b % 2) % 2 + 2 * Xor(a / 2, b / 2)
  }

  function Or(a: nat, b: nat): nat {
    if a == 0 && b == 0 then 0
    else (if a % 2 + b % 2 == 0 then 0 else 1) + 2 * Or(a / 2, b / 2)
  }

  function And(a: nat, b: nat): nat {
    if a == 0 || b == 0 then 0
    else (if a % 2 + b % 2 == 2 then 1 else 0) + 2 * And(a / 2, b / 2)
  }

  function Shl(a: nat, k: nat): nat {
    if k == 0 then a else 2 * Shl(a, k - 1)
  }

  /** `x >> 4` */
  function Shr4(x: nat): nat {
    x / 0x10
  }

  /** The number whose `k` lowest bits are set. */
  function Mask(k: nat): nat {
    if k == 0 then 0 else 1 + 2 * Mask(k - 1)
  }

  lemma MaskValues()
    ensures Mask(4) == 0x0F && Mask(8) == 0xFF
  {
    assert Mask(2) == 3;
    assert Mask(6) == 63;
  }

  lemma {:induction false} XorBound(a: nat, b: nat, k: nat)
    requires a <= Mask(k) && b <= Mask(k)
    ensures Xor(a, b) <= Mask(k)
    decreases k
  {
    if k > 0 { XorBound(a / 2, b / 2, k - 1); }
  }

  /** Masking keeps exactly the low bits; the others are a multiple of the next power of two. */
  lemma {:induction false} MaskSplits(a: nat, k: nat) returns (high: nat)
    ensures And(a, Mask(k)) <= Mask(k)
    ensures a == Shl(high, k) + And(a, Mask(k))
    decreases k
  {
    if k == 0 { high := a; } else { high := MaskSplits(a / 2, k - 1); }
  }

  /** Or-ing a value into the zero bits below a shifted one is addition. */
  lemma {:induction false} OrIsSum(hi: nat, lo: nat, k: nat)
    requires lo <= Mask(k)
    ensures Or(Shl(hi, k), lo) == Shl(hi, k) + lo
    decreases k
  {
    if k == 0 {
      OrZero(hi);
    } else {
      OrIsSum(hi, lo / 2, k - 1);
    }
  }

  lemma {:induction false} OrZero(a: nat)
    ensures Or(a, 0) == a
  {
    if a > 0 { OrZero(a / 2); }
  }

  lemma ShlValues(a: nat)
    ensures Shl(a, 4) == 0x10 * a && Shl(a, 8) == 0x100 * a
  {
    assert Shl(a, 1) == 2 * a;
    assert Shl(a, 2) == 4 * a;
    assert Shl(a, 3) == 8 * a;
    assert Shl(a, 4) == 16 * a;
    assert Shl(a, 5) == 32 * a;
    assert Shl(a, 6) == 64 * a;
    assert Shl(a, 7) == 128 * a;
  }

  lemma SplitAt(a: nat, k: nat, unit: nat) returns (high: nat)
    requires (k == 4 && unit == 0x10) || (k == 8 && unit == 0x100)
    ensures And(a, unit - 1) < unit && a == unit * high + And(a, unit - 1)
  {
    high := MaskSplits(a, k);
    assert Mask(k) == unit - 1 by { MaskValues(); }
    assert Shl(high, k) == unit * high by { ShlValues(high); }
  }

  lemma Remainder(a: nat, high: nat, low: nat, unit: nat)
    requires (unit == 0x10 || unit == 0x100) && low < unit && a == unit * high + low
    ensures a % unit == low
  {
  }

  lemma LowNibble(a: nat)
    ensures And(a, 0x0F) == a % 0x10
  {
    var high := SplitAt(a, 4, 0x10);
    Remainder(a, high, And(a, 0x0F), 0x10);
  }

  lemma LowOctet(a: nat)
    ensures And(a, 0xFF) == a % 0x100
  {
    var high := SplitAt(a, 8, 0x100);
    Remainder(a, high, And(a, 0xFF), 0x100);
  }

  /** The XOR of two octets, `u8 ^ u8`. */
  function Xor8(a: byte, b: byte): byte {
    MaskValues();
    XorBound(a, b, 8);
    Xor(a, b)
  }

  lemma {:induction false} XorZero(a: nat)
    ensures Xor(a, 0) == a && Xor(0, a) == a
  {
    if a > 0 { XorZero(a / 2); }
  }
}
