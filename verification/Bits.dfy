/** Single-bit operations on unsigned machine words, defined from the least significant bit up. */
module Bits {
  import opened Words

  function Pow2(n: nat): (p: nat)
    ensures p > 0
  {
    if n == 0 then 1 else 2 * Pow2(n - 1)
  }

  lemma WordWidth()
    ensures Pow2(32) == 0x1_0000_0000
  {
    assert Pow2(8) == 256;
    assert Pow2(16) == 0x1_0000;
    assert Pow2(24) == 0x100_0000;
  }

  /** `w & (1 << j)` is not zero. */
  predicate Bit(w: nat, j: nat) {
    if j == 0 then w % 2 == 1 else Bit(w / 2, j - 1)
  }

  /** `w | (1 << j)` */
  function WithBit(w: nat, j: nat): nat {
    if j == 0 then w / 2 * 2 + 1 else 2 * WithBit(w / 2, j - 1) + w % 2
  }

  /** `w & ~(1 << j)` */
  function WithoutBit(w: nat, j: nat): nat {
    if j == 0 then w / 2 * 2 else 2 * WithoutBit(w / 2, j - 1) + w % 2
  }

  lemma {:induction false} SetBit(w: nat, j: nat, k: nat)
    ensures Bit(WithBit(w, j), k) <==> j == k || Bit(w, k)
  {
    if j > 0 && k > 0 {
      SetBit(w / 2, j - 1, k - 1);
    }
  }

  lemma {:induction false} ClearBit(w: nat, j: nat, k: nat)
    ensures Bit(WithoutBit(w, j), k) <==> j != k && Bit(w, k)
  {
    if j > 0 && k > 0 {
      ClearBit(w / 2, j - 1, k - 1);
    }
  }

  /** Neither operation leaves an n-bit word. */
  lemma {:induction false} StaysInWidth(w: nat, j: nat, n: nat)
    requires w < Pow2(n) && j < n
    ensures WithBit(w, j) < Pow2(n) && WithoutBit(w, j) < Pow2(n)
  {
    var p := Pow2(n - 1);
    assert w / 2 < p;
    if j > 0 {
      StaysInWidth(w / 2, j - 1, n - 1);
      assert WithBit(w / 2, j - 1) <= p - 1;
    }
  }

  /** A word none of whose bits is set is zero. */
  lemma {:induction false} NoBits(w: nat, n: nat)
    requires w < Pow2(n) && forall k: nat | k < n :: !Bit(w, k)
    ensures w == 0
  {
    if n > 0 {
      forall k: nat | k < n - 1 ensures !Bit(w / 2, k) {
        assert !Bit(w, k + 1);
      }
      NoBits(w / 2, n - 1);
      assert !Bit(w, 0);
    }
  }

  lemma {:induction false} ZeroHasNoBits(k: nat)
    ensures !Bit(0, k)
  {
    if k > 0 {
      ZeroHasNoBits(k - 1);
    }
  }

  function SetWordBit(w: Word, j: nat): Word
    requires j < 32
  {
    WordWidth(); StaysInWidth(w, j, 32);
    WithBit(w, j)
  }

  function ClearWordBit(w: Word, j: nat): Word
    requires j < 32
  {
    WordWidth(); StaysInWidth(w, j, 32);
    WithoutBit(w, j)
  }
}
