/** Bits of a byte, counted from the least significant one. */
module Bits {
  function Pow2(n: nat): nat { if n == 0 then 1 else 2 * Pow2(n - 1) }

  /** Bit `i` of `b`, i.e. `b >> i & 1`. */
  predicate Bit(b: nat, i: nat) {
    if i == 0 then b % 2 == 1 else Bit(b / 2, i - 1)
  }

  /** `b | 1 << i`. */
  function SetBit(b: nat, i: nat): nat {
    if i == 0 then (if b % 2 == 1 then b else b + 1) else 2 * SetBit(b / 2, i - 1) + b % 2
  }

  lemma {:induction false} SetBitSets(b: nat, i: nat, n: nat)
    requires i < n && b < Pow2(n)
    ensures SetBit(b, i) < Pow2(n) && Bit(SetBit(b, i), i)
    decreases i
  {
    if i > 0 {
      SetBitSets(b / 2, i - 1, n - 1);
      assert (2 * SetBit(b / 2, i - 1) + b % 2) / 2 == SetBit(b / 2, i - 1);
    }
  }

  lemma ByteRange()
    ensures Pow2(8) == 256
  {
    assert Pow2(4) == 16;
  }

  lemma {:induction false} SetBitKeepsOthers(b: nat, i: nat, j: nat)
    requires i != j
    ensures Bit(SetBit(b, i), j) == Bit(b, j)
    decreases i
  {
    if i > 0 {
      var h := SetBit(b / 2, i - 1);
      assert (2 * h + b % 2) / 2 == h && (2 * h + b % 2) % 2 == b % 2;
      if j > 0 { SetBitKeepsOthers(b / 2, i - 1, j - 1); }
    } else {
      assert SetBit(b, 0) / 2 == b / 2;
    }
  }

  /** `u8::count_ones`. */
  function ByteOnes(b: nat): nat { if b == 0 then 0 else b % 2 + ByteOnes(b / 2) }

  lemma {:induction false} SetBitCounts(b: nat, i: nat)
    ensures ByteOnes(SetBit(b, i)) == ByteOnes(b) + if Bit(b, i) then 0 else 1
    decreases i
  {
    if i > 0 {
      SetBitCounts(b / 2, i - 1);
      var h := SetBit(b / 2, i - 1);
      assert (2 * h + b % 2) / 2 == h && (2 * h + b % 2) % 2 == b % 2;
    } else if b % 2 == 0 {
      assert (b + 1) / 2 == b / 2 && (b + 1) % 2 == 1;
    }
  }

  lemma ZeroHasNoBits(i: nat)
    ensures !Bit(0, i)
  {
  }
}
