/** Memory seen as bytes: little-endian words of four bytes, frames of 4096. */
module Bytes {
  import opened Words
  import opened Mmu

  /** Byte `k` of a number, the least significant byte being byte 0. */
  function Digit(n: nat, k: nat): Byte {
    if k == 0 then n % 256 else Digit(n / 256, k - 1)
  }

  /** The number with byte `k` replaced. */
  function WithDigit(n: nat, k: nat, b: Byte): nat {
    if k == 0 then n / 256 * 256 + b else 256 * WithDigit(n / 256, k - 1, b) + n % 256
  }

  function Pow256(k: nat): nat {
    if k == 0 then 1 else 256 * Pow256(k - 1)
  }

  lemma {:induction false} ReplacedDigit(n: nat, k: nat, b: Byte, j: nat)
    ensures Digit(WithDigit(n, k, b), j) == if j == k then b else Digit(n, j)
  {
    if k > 0 && j > 0 {
      ReplacedDigit(n / 256, k - 1, b, j - 1);
    }
  }

  lemma {:induction false} DigitsFit(n: nat, k: nat, b: Byte, size: nat)
    requires n < Pow256(size) && k < size
    ensures WithDigit(n, k, b) < Pow256(size)
  {
    var p := Pow256(size - 1);
    assert n / 256 < p;
    if k > 0 {
      DigitsFit(n / 256, k - 1, b, size - 1);
      assert WithDigit(n / 256, k - 1, b) <= p - 1;
    }
  }

  function ByteOf(w: Word, k: nat): Byte
    requires k < 4
  {
    Digit(w, k)
  }

  function WithByte(w: Word, k: nat, b: Byte): Word
    requires k < 4
  {
    assert Pow256(4) == 0x1_0000_0000;
    DigitsFit(w, k, b, 4);
    WithDigit(w, k, b)
  }

  function FrameByte(t: Table, o: nat): Byte
    requires o < PAGE_SIZE
  {
    ByteOf(t[o / 4], o % 4)
  }

  function PutByte(t: Table, o: nat, b: Byte): Table
    requires o < PAGE_SIZE
  {
    t[o / 4 := WithByte(t[o / 4], o % 4, b)]
  }

  lemma PutByteEffect(t: Table, o: nat, b: Byte, i: nat)
    requires o < PAGE_SIZE && i < PAGE_SIZE
    ensures FrameByte(PutByte(t, o, b), i) == if i == o then b else FrameByte(t, i)
  {
    if i / 4 == o / 4 {
      ReplacedDigit(t[o / 4], o % 4, b, i % 4);
    }
  }

  /** The frame after `bytes` have been written from its start, one after the other. */
  function PutBytes(t: Table, bytes: seq<Byte>): Table
    requires |bytes| <= PAGE_SIZE
  {
    if bytes == [] then t
    else PutByte(PutBytes(t, bytes[..|bytes| - 1]), |bytes| - 1, bytes[|bytes| - 1])
  }

  lemma {:induction false} PutBytesEffect(t: Table, bytes: seq<Byte>, i: nat)
    requires |bytes| <= PAGE_SIZE && i < PAGE_SIZE
    ensures FrameByte(PutBytes(t, bytes), i) == if i < |bytes| then bytes[i] else FrameByte(t, i)
  {
    if bytes != [] {
      var n := |bytes| - 1;
      PutBytesEffect(t, bytes[..n], i);
      PutByteEffect(PutBytes(t, bytes[..n]), n, bytes[n], i);
    }
  }

  lemma PutNext(t: Table, bytes: seq<Byte>, i: nat)
    requires i < |bytes| <= PAGE_SIZE
    ensures PutBytes(t, bytes[..i + 1]) == PutByte(PutBytes(t, bytes[..i]), i, bytes[i])
  {
    assert bytes[..i + 1][..i] == bytes[..i];
  }
}
