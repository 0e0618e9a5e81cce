/** Bytes and big-endian numbers, shared by the uTP header, transaction ids, tokens and tracker messages. */
module Bytes {
  type Byte = x: int | 0 <= x < 256
  type U16 = x: int | 0 <= x < 0x1_0000
  type U32 = x: int | 0 <= x < 0x1_0000_0000
  type U64 = x: int | 0 <= x < 0x1_0000_0000_0000_0000

  /** 256 to the n. */
  function Range(n: nat): (r: nat)
    ensures r > 0
  {
    if n == 0 then 1 else 256 * Range(n - 1)
  }

  /** The n-byte big-endian form of the low n bytes of `x`. */
  function Be(x: nat, n: nat): (b: seq<Byte>)
    ensures |b| == n
  {
    if n == 0 then [] else Be(x / 256, n - 1) + [x % 256]
  }

  function FromBe(b: seq<Byte>): nat {
    if b == [] then 0 else FromBe(b[..|b| - 1]) * 256 + b[|b| - 1]
  }

  lemma {:induction false} FromBeOfBe(x: nat, n: nat)
    requires x < Range(n)
    ensures FromBe(Be(x, n)) == x
    decreases n
  {
    if n > 0 {
      FromBeOfBe(x / 256, n - 1);
      assert Be(x, n)[..n - 1] == Be(x / 256, n - 1);
    }
  }

  lemma {:induction false} BeOfFromBe(b: seq<Byte>)
    ensures FromBe(b) < Range(|b|)
    ensures Be(FromBe(b), |b|) == b
    decreases |b|
  {
    if b != [] {
      var n := |b| - 1;
      var high := FromBe(b[..n]);
      BeOfFromBe(b[..n]);
      assert (high * 256 + b[n]) / 256 == high && (high * 256 + b[n]) % 256 == b[n];
      assert b == b[..n] + [b[n]];
    }
  }

  lemma Ranges()
    ensures Range(1) == 256 && Range(2) == 0x1_0000 && Range(4) == 0x1_0000_0000
    ensures Range(8) == 0x1_0000_0000_0000_0000
  {
    assert Range(2) == 0x1_0000;
    assert Range(4) == 256 * 256 * Range(2);
    assert Range(6) == 256 * 256 * Range(4);
    assert Range(8) == 256 * 256 * Range(6);
  }

  lemma RoundTrip16(x: U16)
    ensures FromBe(Be(x, 2)) == x
  {
    Ranges();
    FromBeOfBe(x, 2);
  }

  lemma RoundTrip32(x: U32)
    ensures FromBe(Be(x, 4)) == x
  {
    Ranges();
    FromBeOfBe(x, 4);
  }

  lemma RoundTrip64(x: U64)
    ensures FromBe(Be(x, 8)) == x
  {
    Ranges();
    FromBeOfBe(x, 8);
  }

  /** Numbers read from two and four bytes fit their types. */
  function Read16(b: seq<Byte>): U16
    requires |b| == 2
  {
    BeOfFromBe(b);
    Ranges();
    FromBe(b)
  }

  function Read32(b: seq<Byte>): U32
    requires |b| == 4
  {
    BeOfFromBe(b);
    Ranges();
    FromBe(b)
  }

  function Read64(b: seq<Byte>): U64
    requires |b| == 8
  {
    BeOfFromBe(b);
    Ranges();
    FromBe(b)
  }
}
