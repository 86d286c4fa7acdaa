/**
 Bits of natural numbers, C's shifts and masks on them, and the inflate code's bit reversal.
 */
module BitReversal {
  import opened Powers

  function Bit(v: nat, k: nat): (b: nat)
    ensures b <= 1
  {
    if k == 0 then v % 2 else Bit(v / 2, k - 1)
  }

  /** v >> n. */
  function Shr(v: nat, n: nat): nat
    decreases n
  {
    if n == 0 then v else Shr(v / 2, n - 1)
  }

  /** v << n. */
  function Shl(v: nat, n: nat): nat
    decreases n
  {
    if n == 0 then v else Shl(2 * v, n - 1)
  }

  /** v & ((1 << n) - 1). */
  function Low(v: nat, n: nat): (r: nat)
    ensures r < Pow2(n)
    decreases n
  {
    if n == 0 then 0 else 2 * Low(v / 2, n - 1) + v % 2
  }

  /** The low `s` bits of `v` read the other way round: bit 0 comes first and weighs most. */
  function Rev(v: nat, s: nat): (r: nat)
    ensures r < Pow2(s)
    decreases s
  {
    if s == 0 then 0 else 2 * Rev(v, s - 1) + Bit(v, s - 1)
  }

  lemma {:induction false} ShlDouble(v: nat, n: nat)
    ensures Shl(2 * v, n) == 2 * Shl(v, n)
    decreases n
  {
    if n > 0 {
      ShlDouble(2 * v, n - 1);
    }
  }

  /** Comparing with a shifted bound is comparing after shifting down. */
  lemma {:induction false} ShiftCompare(v: nat, c: nat, n: nat)
    ensures v < Shl(c, n) <==> Shr(v, n) < c
    decreases n
  {
    if n > 0 {
      ShlDouble(c, n - 1);
      ShiftCompare(v / 2, c, n - 1);
    }
  }

  lemma {:induction false} BitLow(v: nat, n: nat, k: nat)
    ensures Bit(Low(v, n), k) == if k < n then Bit(v, k) else 0
    decreases n
  {
    if n == 0 {
      ZeroBits(k);
    } else if k > 0 {
      BitLow(v / 2, n - 1, k - 1);
    }
  }

  lemma {:induction false} BitShr(v: nat, n: nat, k: nat)
    ensures Bit(Shr(v, n), k) == Bit(v, n + k)
    decreases n
  {
    if n > 0 {
      BitShr(v / 2, n - 1, k);
    }
  }

  lemma {:induction false} BitShl(v: nat, n: nat, k: nat)
    ensures Bit(Shl(v, n), k) == if k < n then 0 else Bit(v, k - n)
    decreases n
  {
    if n > 0 {
      ShlDouble(v, n - 1);
      if k > 0 {
        BitShl(v, n - 1, k - 1);
      }
    }
  }

  lemma {:induction false} ZeroBits(k: nat)
    ensures Bit(0, k) == 0
  {
    if k > 0 {
      ZeroBits(k - 1);
    }
  }

  lemma {:induction false} HighBits(v: nat, n: nat, k: nat)
    requires v < Pow2(n) && n <= k
    ensures Bit(v, k) == 0
    decreases n
  {
    if n == 0 {
      ZeroBits(k);
    } else {
      HighBits(v / 2, n - 1, k - 1);
    }
  }

  /** Two numbers below 2^n with the same bits are the same. */
  lemma {:induction false} SameBits(a: nat, b: nat, n: nat)
    requires a < Pow2(n) && b < Pow2(n) && forall k | 0 <= k < n :: Bit(a, k) == Bit(b, k)
    ensures a == b
    decreases n
  {
    if n > 0 {
      assert Bit(a, 0) == Bit(b, 0);
      forall k | 0 <= k < n - 1
        ensures Bit(a / 2, k) == Bit(b / 2, k)
      {
        assert Bit(a, k + 1) == Bit(b, k + 1);
      }
      SameBits(a / 2, b / 2, n - 1);
    }
  }

  lemma {:induction false} RevBit(v: nat, s: nat, k: nat)
    requires k < s
    ensures Bit(Rev(v, s), k) == Bit(v, s - 1 - k)
    decreases s
  {
    if k > 0 {
      RevBit(v, s - 1, k - 1);
    }
  }

  /** Only the low bits matter. */
  lemma {:induction false} RevLow(v: nat, n: nat, s: nat)
    requires s <= n
    ensures Rev(Low(v, n), s) == Rev(v, s)
    decreases s
  {
    if s > 0 {
      BitLow(v, n, s - 1);
      RevLow(v, n, s - 1);
    }
  }

  lemma {:induction false} LowSmall(v: nat, n: nat)
    requires v < Pow2(n)
    ensures Low(v, n) == v
    decreases n
  {
    if n > 0 {
      LowSmall(v / 2, n - 1);
    }
  }

  /** Reversing twice gives the number back. */
  lemma {:induction false} RevRev(v: nat, s: nat)
    requires v < Pow2(s)
    ensures Rev(Rev(v, s), s) == v
  {
    forall k | 0 <= k < s
      ensures Bit(Rev(Rev(v, s), s), k) == Bit(v, k)
    {
      RevBit(Rev(v, s), s, k);
      RevBit(v, s, s - 1 - k);
    }
    SameBits(Rev(Rev(v, s), s), v, s);
  }

  /** The low bits of j are c reversed exactly when j reversed is c. */
  lemma {:induction false} RevInverse(j: nat, c: nat, s: nat)
    requires c < Pow2(s)
    ensures Low(j, s) == Rev(c, s) <==> Rev(j, s) == c
  {
    RevLow(j, s, s);
    RevRev(Low(j, s), s);
    RevRev(c, s);
  }

  /** A shorter reading is the longer one cut off. */
  lemma {:induction false} RevShorter(v: nat, s: nat, n: nat)
    requires s <= n
    ensures Shr(Rev(v, n), n - s) == Rev(v, s)
    decreases n
  {
    if s < n {
      assert Rev(v, n) / 2 == Rev(v, n - 1);
      RevShorter(v, s, n - 1);
    }
  }

  // ---- Bitwise operators on non-negative numbers ----

  function And(x: nat, y: nat): (r: nat)
    ensures r <= y
  {
    if x == 0 || y == 0 then 0 else 2 * And(x / 2, y / 2) + if x % 2 == 1 && y % 2 == 1 then 1 else 0
  }

  function Or(x: nat, y: nat): (r: nat)
    ensures r <= x + y
  {
    if x == 0 then y else if y == 0 then x
    else 2 * Or(x / 2, y / 2) + if x % 2 == 1 || y % 2 == 1 then 1 else 0
  }

  lemma {:induction false} AndBit(x: nat, y: nat, k: nat)
    ensures Bit(And(x, y), k) == if Bit(x, k) == 1 && Bit(y, k) == 1 then 1 else 0
    decreases k
  {
    if x == 0 || y == 0 {
      ZeroBits(k);
    } else if k > 0 {
      AndBit(x / 2, y / 2, k - 1);
    }
  }

  lemma {:induction false} OrBit(x: nat, y: nat, k: nat)
    ensures Bit(Or(x, y), k) == if Bit(x, k) == 1 || Bit(y, k) == 1 then 1 else 0
    decreases k
  {
    if x == 0 || y == 0 {
      ZeroBits(k);
    } else if k > 0 {
      OrBit(x / 2, y / 2, k - 1);
    }
  }

  /** One line of the reversal: groups of `s` bits change places with their neighbours. */
  function SwapGroups(n: nat, high: nat, low: nat, s: nat): nat {
    Or(Shr(And(n, high), s), Shl(And(n, low), s))
  }

  /** _ssfn__bitreverse16. */
  function BitReverse16(n: nat): nat {
    var n1 := SwapGroups(n, 0xAAAA, 0x5555, 1);
    var n2 := SwapGroups(n1, 0xCCCC, 0x3333, 2);
    var n3 := SwapGroups(n2, 0xF0F0, 0x0F0F, 4);
    SwapGroups(n3, 0xFF00, 0x00FF, 8)
  }

  /** _ssfn__bit_reverse. */
  function BitReverse(v: nat, bits: nat): nat
    requires bits <= 16
  {
    Shr(BitReverse16(v), 16 - bits)
  }

  lemma {:induction false} NibbleBit(v: nat, low: nat, k: nat)
    requires low < 16
    ensures Bit(16 * v + low, k) == if k < 4 then Bit(low, k) else Bit(v, k - 4)
  {
    var v1, v2, v3 := 8 * v + low / 2, 4 * v + low / 4, 2 * v + low / 8;
    assert (16 * v + low) / 2 == v1 && v1 / 2 == v2 && v2 / 2 == v3 && v3 / 2 == v;
    assert (16 * v + low) % 2 == low % 2 && v1 % 2 == low / 2 % 2 && v2 % 2 == low / 4 % 2 && v3 % 2 == low / 8 % 2;
    assert low / 2 / 2 == low / 4 && low / 4 / 2 == low / 8;
    if k > 0 {
      assert Bit(16 * v + low, k) == Bit(v1, k - 1);
      if k > 1 {
        assert Bit(v1, k - 1) == Bit(v2, k - 2);
        if k > 2 {
          assert Bit(v2, k - 2) == Bit(v3, k - 3);
          if k == 3 {
            assert Bit(low, 3) == Bit(low / 2, 2) == Bit(low / 4, 1) == Bit(low / 8, 0);
          }
        } else {
          assert Bit(low, 2) == Bit(low / 2, 1) == Bit(low / 4, 0);
        }
      }
    }
  }

  /** Bits of a number given by its four hexadecimal digits. */
  lemma {:induction false} HexBit(d3: nat, d2: nat, d1: nat, d0: nat, k: nat)
    requires d3 < 16 && d2 < 16 && d1 < 16 && d0 < 16 && k < 16
    ensures Bit(0x1000 * d3 + 0x100 * d2 + 0x10 * d1 + d0, k) ==
            if k < 4 then Bit(d0, k)
            else if k < 8 then Bit(d1, k - 4)
            else if k < 12 then Bit(d2, k - 8)
            else Bit(d3, k - 12)
  {
    hide Bit;
    NibbleBit(0x100 * d3 + 0x10 * d2 + d1, d0, k);
    if k >= 4 {
      NibbleBit(0x10 * d3 + d2, d1, k - 4);
      if k >= 8 {
        NibbleBit(d3, d2, k - 8);
      }
    }
  }

  /** The group of s bits that bit k lies in, for the four group sizes in use. */
  function Group(k: nat, s: nat): nat {
    if s == 1 then k else if s == 2 then k / 2 else if s == 4 then k / 4 else k / 8
  }

  /** The masks of one line: within 16 bits, `high` keeps the groups of s bits with odd number, `low` the even ones. */
  ghost predicate Masks(high: nat, low: nat, s: nat) {
    high < 0x1_0000 && low < 0x1_0000 &&
    forall i | 0 <= i < 16 :: Bit(high, i) == Group(i, s) % 2 && Bit(low, i) == 1 - Group(i, s) % 2
  }

  lemma {:induction false} Digits()
    ensures Bit(0, 0) == 0 && Bit(0, 1) == 0 && Bit(0, 2) == 0 && Bit(0, 3) == 0
    ensures Bit(3, 0) == 1 && Bit(3, 1) == 1 && Bit(3, 2) == 0 && Bit(3, 3) == 0
    ensures Bit(5, 0) == 1 && Bit(5, 1) == 0 && Bit(5, 2) == 1 && Bit(5, 3) == 0
    ensures Bit(10, 0) == 0 && Bit(10, 1) == 1 && Bit(10, 2) == 0 && Bit(10, 3) == 1
    ensures Bit(12, 0) == 0 && Bit(12, 1) == 0 && Bit(12, 2) == 1 && Bit(12, 3) == 1
    ensures Bit(15, 0) == 1 && Bit(15, 1) == 1 && Bit(15, 2) == 1 && Bit(15, 3) == 1
  {
  }

  lemma {:induction false} Masks1()
    ensures Masks(0xAAAA, 0x5555, 1)
  {
    Digits();
    forall i: nat | i < 16
      ensures Bit(0xAAAA, i) == i / 1 % 2 && Bit(0x5555, i) == 1 - i / 1 % 2
    {
      HexBit(0xA, 0xA, 0xA, 0xA, i);
      HexBit(0x5, 0x5, 0x5, 0x5, i);
    }
  }

  lemma {:induction false} Masks2()
    ensures Masks(0xCCCC, 0x3333, 2)
  {
    Digits();
    forall i: nat | i < 16
      ensures Bit(0xCCCC, i) == i / 2 % 2 && Bit(0x3333, i) == 1 - i / 2 % 2
    {
      HexBit(0xC, 0xC, 0xC, 0xC, i);
      HexBit(0x3, 0x3, 0x3, 0x3, i);
    }
  }

  lemma {:induction false} Masks4()
    ensures Masks(0xF0F0, 0x0F0F, 4)
  {
    Digits();
    forall i: nat | i < 16
      ensures Bit(0xF0F0, i) == i / 4 % 2 && Bit(0x0F0F, i) == 1 - i / 4 % 2
    {
      HexBit(0xF, 0x0, 0xF, 0x0, i);
      HexBit(0x0, 0xF, 0x0, 0xF, i);
    }
  }

  lemma {:induction false} Masks8()
    ensures Masks(0xFF00, 0x00FF, 8)
  {
    Digits();
    forall i: nat | i < 16
      ensures Bit(0xFF00, i) == i / 8 % 2 && Bit(0x00FF, i) == 1 - i / 8 % 2
    {
      HexBit(0xF, 0xF, 0x0, 0x0, i);
      HexBit(0x0, 0x0, 0xF, 0xF, i);
    }
  }

  function Partner(k: nat, s: nat): int {
    if Group(k, s) % 2 == 0 then k + s else k - s
  }

  lemma {:induction false} PartnerParity(k: nat, s: nat)
    requires k < 16 && (s == 1 || s == 2 || s == 4 || s == 8)
    ensures 0 <= Partner(k, s) < 16
    ensures Group(k, s) % 2 == 0 ==> s + k < 16 && Group(s + k, s) % 2 == 1 && (k >= s ==> Group(k - s, s) % 2 == 1)
    ensures Group(k, s) % 2 == 1 ==> k >= s && Group(k - s, s) % 2 == 0 && Group(s + k, s) % 2 == 0
  {
  }

  lemma {:induction false} SwapBit(n: nat, high: nat, low: nat, s: nat, k: nat)
    requires Masks(high, low, s) && k < 16 && (s == 1 || s == 2 || s == 4 || s == 8)
    ensures 0 <= Partner(k, s) < 16
    ensures Bit(SwapGroups(n, high, low, s), k) == Bit(n, Partner(k, s))
  {
    PartnerParity(k, s);
    OrBit(Shr(And(n, high), s), Shl(And(n, low), s), k);
    BitShr(And(n, high), s, k);
    AndBit(n, high, s + k);
    BitShl(And(n, low), s, k);
    if k >= s {
      AndBit(n, low, k - s);
    }
    if s + k >= 16 {
      Pow2Values();
      HighBits(high, 16, s + k);
    }
    hide Bit, And, Or, Shr, Shl;
  }

  /** No line of the reversal leaves 16 bits. */
  lemma {:induction false} SwapBound(n: nat, high: nat, low: nat, s: nat)
    requires Shr(high, s) + Shl(low, s) < 0x1_0000
    ensures SwapGroups(n, high, low, s) < 0x1_0000
  {
    ShrMonotone(And(n, high), high, s);
    ShlMonotone(And(n, low), low, s);
  }

  lemma {:induction false} ShrMonotone(a: nat, b: nat, s: nat)
    requires a <= b
    ensures Shr(a, s) <= Shr(b, s)
    decreases s
  {
    if s > 0 {
      ShrMonotone(a / 2, b / 2, s - 1);
    }
  }

  lemma {:induction false} ShlMonotone(a: nat, b: nat, s: nat)
    requires a <= b
    ensures Shl(a, s) <= Shl(b, s)
    decreases s
  {
    if s > 0 {
      ShlMonotone(2 * a, 2 * b, s - 1);
    }
  }

  /** The four lines send bit k to bit 15 - k. */
  lemma {:induction false} BitReverse16Bit(n: nat, k: nat)
    requires k < 16
    ensures Bit(BitReverse16(n), k) == Bit(n, 15 - k)
  {
    Masks1();
    Masks2();
    Masks4();
    Masks8();
    hide Masks, SwapGroups, Bit;
    var n1 := SwapGroups(n, 0xAAAA, 0x5555, 1);
    var n2 := SwapGroups(n1, 0xCCCC, 0x3333, 2);
    var n3 := SwapGroups(n2, 0xF0F0, 0x0F0F, 4);
    SwapBit(n3, 0xFF00, 0x00FF, 8, k);
    var k3 := Partner(k, 8);
    SwapBit(n2, 0xF0F0, 0x0F0F, 4, k3);
    var k2 := Partner(k3, 4);
    SwapBit(n1, 0xCCCC, 0x3333, 2, k2);
    var k1 := Partner(k2, 2);
    SwapBit(n, 0xAAAA, 0x5555, 1, k1);
    assert Partner(k1, 1) == 15 - k;
  }

  /** The masks and shifts reverse 16 bits, whatever lies above them. */
  lemma {:induction false} BitReverse16Correct(n: nat)
    ensures BitReverse16(n) == Rev(n, 16)
  {
    var r := BitReverse16(n);
    assert r < 0x1_0000 by {
      var n3 := SwapGroups(SwapGroups(SwapGroups(n, 0xAAAA, 0x5555, 1), 0xCCCC, 0x3333, 2), 0xF0F0, 0x0F0F, 4);
      assert Shr(0xFF00, 8) == 0xFF && Shl(0x00FF, 8) == 0xFF00;
      SwapBound(n3, 0xFF00, 0x00FF, 8);
    }
    Pow2Values();
    hide BitReverse16;
    forall k | 0 <= k < 16
      ensures Bit(r, k) == Bit(Rev(n, 16), k)
    {
      BitReverse16Bit(n, k);
      RevBit(n, 16, k);
    }
    SameBits(r, Rev(n, 16), 16);
  }

  /** _ssfn__bit_reverse reverses the low bits. */
  lemma {:induction false} BitReverseCorrect(v: nat, bits: nat)
    requires bits <= 16
    ensures BitReverse(v, bits) == Rev(v, bits)
  {
    BitReverse16Correct(v);
    RevShorter(v, bits, 16);
  }
}
