/**
 * Bitwise operations on unsigned machine words, written as arithmetic on
 * naturals. Bit `k` of `w` is `TestBit(w, k)`; `BitOr`, `BitAnd` and `Not32` are the
 * word-level `|`, `&` and `!` of the source, and `Pow2(k)` is `1 << k`.
 */
module Bits {
  import opened Words

  /** `1 << n` for an unbounded integer. */
  function Pow2(n: nat): (r: nat)
    ensures r >= 1
  {
    if n == 0 then 1 else 2 * Pow2(n - 1)
  }

  /** Bit `k` of `w`, counting from the least significant bit. */
  predicate TestBit(w: nat, k: nat)
  {
    if k == 0 then w % 2 == 1 else TestBit(w / 2, k - 1)
  }

  /** Bitwise OR, bit by bit from the least significant end. */
  function BitOr(v: nat, w: nat): (r: nat)
    decreases v + w
  {
    if v == 0 && w == 0 then 0
    else 2 * BitOr(v / 2, w / 2) + (if v % 2 == 1 || w % 2 == 1 then 1 else 0)
  }

  /** Bitwise AND, bit by bit from the least significant end. */
  function BitAnd(v: nat, w: nat): (r: nat)
    decreases v + w
  {
    if v == 0 || w == 0 then 0
    else 2 * BitAnd(v / 2, w / 2) + (if v % 2 == 1 && w % 2 == 1 then 1 else 0)
  }

  /** Bitwise NOT of a 32-bit word: exactly the low 32 bits flip. */
  function Not32(w: UInt32): (r: UInt32)
    ensures forall k: nat :: TestBit(r, k) == (k < 32 && !TestBit(w, k))
  {
    var r: UInt32 := UINT32_MAX - w;
    Pow2Is32();
    forall k: nat ensures TestBit(r, k) == (k < 32 && !TestBit(w, k)) {
      TestComplement(w, 32, k);
    }
    r
  }

  lemma Pow2Is8()
    ensures Pow2(8) == 0x100
  {
  }

  lemma Pow2Is32()
    ensures Pow2(32) == 0x1_0000_0000
  {
    assert Pow2(4) == 0x10;
    assert Pow2(8) == 0x100;
    assert Pow2(12) == 0x1000;
    assert Pow2(16) == 0x1_0000;
    assert Pow2(20) == 0x10_0000;
    assert Pow2(24) == 0x100_0000;
    assert Pow2(28) == 0x1000_0000;
  }

  lemma {:induction false} TestBitZero(k: nat)
    ensures !TestBit(0, k)
  {
    if k > 0 { TestBitZero(k - 1); }
  }

  /** A value below `2^n` has no bit at or above position `n`. */
  lemma {:induction false} TestBitAbove(x: nat, n: nat, k: nat)
    requires x < Pow2(n) && n <= k
    ensures !TestBit(x, k)
  {
    if n == 0 {
      assert x == 0;
      TestBitZero(k);
    } else {
      TestBitAbove(x / 2, n - 1, k - 1);
    }
  }

  /** The only bit of `1 << j` is bit `j`. */
  lemma {:induction false} TestPow2(j: nat, k: nat)
    ensures TestBit(Pow2(j), k) == (j == k)
  {
    if j == 0 {
      if k > 0 { TestBitZero(k - 1); }
    } else if k > 0 {
      TestPow2(j - 1, k - 1);
    }
  }

  lemma {:induction false} TestOr(v: nat, w: nat, k: nat)
    ensures TestBit(BitOr(v, w), k) == (TestBit(v, k) || TestBit(w, k))
    decreases k
  {
    if v == 0 && w == 0 {
      TestBitZero(k);
    } else if k > 0 {
      TestOr(v / 2, w / 2, k - 1);
    }
  }

  lemma {:induction false} TestAnd(v: nat, w: nat, k: nat)
    ensures TestBit(BitAnd(v, w), k) == (TestBit(v, k) && TestBit(w, k))
    decreases k
  {
    if v == 0 || w == 0 {
      TestBitZero(k);
    } else if k > 0 {
      TestAnd(v / 2, w / 2, k - 1);
    }
  }

  /** All ones below `2^n`: the complement of `x` flips exactly the bits below `n`. */
  lemma {:induction false} TestComplement(x: nat, n: nat, k: nat)
    requires x < Pow2(n)
    ensures TestBit(Pow2(n) - 1 - x, k) == (k < n && !TestBit(x, k))
  {
    if n == 0 {
      TestBitZero(k);
    } else {
      var q := Pow2(n - 1);
      var y := Pow2(n) - 1 - x;
      assert Pow2(n) == 2 * q;
      assert y % 2 == 1 - x % 2 && y / 2 == q - 1 - x / 2;
      if k > 0 {
        TestComplement(x / 2, n - 1, k - 1);
      }
    }
  }

  lemma {:induction false} OrBound(v: nat, w: nat, n: nat)
    requires v < Pow2(n) && w < Pow2(n)
    ensures BitOr(v, w) < Pow2(n)
    decreases v + w
  {
    if (v != 0 || w != 0) && n > 0 {
      OrBound(v / 2, w / 2, n - 1);
    }
  }

  lemma {:induction false} AndBound(v: nat, w: nat)
    ensures BitAnd(v, w) <= v
    decreases v + w
  {
    if v != 0 && w != 0 {
      AndBound(v / 2, w / 2);
    }
  }

  /** A multiple of `2^n` has no bit below position `n`. */
  lemma {:induction false} LowBitsOfMultiple(m: nat, n: nat, k: nat)
    requires k < n
    ensures !TestBit(Pow2(n) * m, k)
  {
    var p := Pow2(n - 1) * m;
    assert Pow2(n) * m == 2 * p;
    if k > 0 {
      LowBitsOfMultiple(m, n - 1, k - 1);
    }
  }

  /** Two values below `2^n` with the same bits below `n` are equal. */
  lemma {:induction false} BitsDetermine(a: nat, b: nat, n: nat)
    requires a < Pow2(n) && b < Pow2(n)
    requires forall k :: 0 <= k < n ==> TestBit(a, k) == TestBit(b, k)
    ensures a == b
  {
    if n > 0 {
      forall k | 0 <= k < n - 1
        ensures TestBit(a / 2, k) == TestBit(b / 2, k)
      {
        assert TestBit(a, k + 1) == TestBit(b, k + 1);
      }
      BitsDetermine(a / 2, b / 2, n - 1);
      assert TestBit(a, 0) == TestBit(b, 0);
    }
  }

  lemma {:induction false} Pow2Increasing(k: nat, n: nat)
    requires k < n
    ensures Pow2(k) < Pow2(n)
  {
    if k < n - 1 { Pow2Increasing(k, n - 1); }
  }

  /** The one-bit word `1 << k` of a 32-bit shift. */
  function Bit32(k: nat): (r: UInt32)
    requires k < 32
    ensures forall j :: TestBit(r, j) == (j == k)
  {
    Pow2Increasing(k, 32);
    Pow2Is32();
    forall j ensures TestBit(Pow2(k), j) == (j == k) { TestPow2(k, j); }
    Pow2(k)
  }

  /** The 32-bit OR of two words is again a word. */
  function Or32(v: UInt32, w: UInt32): (r: UInt32)
    ensures forall k :: TestBit(r, k) == (TestBit(v, k) || TestBit(w, k))
  {
    Pow2Is32();
    OrBound(v, w, 32);
    forall k ensures TestBit(BitOr(v, w), k) == (TestBit(v, k) || TestBit(w, k)) {
      TestOr(v, w, k);
    }
    BitOr(v, w)
  }

  /** The 32-bit AND of two words is again a word. */
  function And32(v: UInt32, w: UInt32): (r: UInt32)
    ensures forall k :: TestBit(r, k) == (TestBit(v, k) && TestBit(w, k))
  {
    AndBound(v, w);
    forall k ensures TestBit(BitAnd(v, w), k) == (TestBit(v, k) && TestBit(w, k)) {
      TestAnd(v, w, k);
    }
    BitAnd(v, w)
  }
}
