/**
 * Bytes, little-endian numbers and bit flags, stated over mathematical
 * integers. The source works on a DataView and on JavaScript numbers with
 * `&`, `|` and `<<`; here a byte is an integer in 0..255 and a flag word is a
 * natural number whose binary digits are the flags.
 */
module Bits {

  /** One octet of a buffer (what `DataView.getUint8` returns). */
  type byte = x: int | 0 <= x < 256

  function Pow2(k: nat): (r: nat)
    ensures r >= 1
  {
    if k == 0 then 1 else 2 * Pow2(k - 1)
  }

  function Pow256(k: nat): (r: nat)
    ensures r >= 1
  {
    if k == 0 then 1 else 256 * Pow256(k - 1)
  }

  /** Whether binary digit k of the non-negative number x is one. */
  predicate Bit(x: nat, k: nat)
  {
    if k == 0 then x % 2 == 1 else Bit(x / 2, k - 1)
  }

  /** The non-negative number x with binary digit k set to one. */
  function SetBit(x: nat, k: nat): nat
  {
    if Bit(x, k) then x else x + Pow2(k)
  }

  /** Byte k (least significant first) of x, as DataView's little-endian
      setters store it: they keep only the low bytes, so x is taken modulo
      256^width implicitly. */
  function ByteOf(x: nat, k: nat): byte
  {
    (x / Pow256(k)) % 256
  }

  /** The 16-bit value of the two bytes at offset, low byte first. */
  function Uint16At(b: seq<byte>, offset: nat): nat
    requires offset + 1 < |b|
  {
    b[offset] as int + 256 * b[offset + 1] as int
  }

  lemma Pow2Values()
    ensures Pow2(8) == 256 && Pow2(16) == 0x1_0000
  {
    assert Pow2(2) == 4;
    assert Pow2(4) == 16;
    assert Pow2(6) == 64;
    assert Pow2(8) == 256;
    assert Pow2(12) == 4096;
  }

  lemma SmallMod(x: nat, m: nat)
    requires x < m
    ensures x % m == x
  {
  }

  /** The number whose binary digits, least significant first, are `bits`. */
  function FromBits(bits: seq<bool>): nat
  {
    if bits == [] then 0 else (if bits[0] then 1 else 0) + 2 * FromBits(bits[1..])
  }

  /** Reading back a digit of FromBits gives the flag that was put there,
      and every position past the end reads as clear. */
  lemma {:induction false} BitOfFromBits(bits: seq<bool>, k: nat)
    ensures Bit(FromBits(bits), k) == (k < |bits| && bits[k])
  {
    if bits == [] {
      ZeroHasNoBits(k);
    } else if k > 0 {
      BitOfFromBits(bits[1..], k - 1);
    }
  }

  lemma {:induction false} ZeroHasNoBits(k: nat)
    ensures !Bit(0, k)
  {
    if k > 0 {
      ZeroHasNoBits(k - 1);
    }
  }

  lemma {:induction false} FromBitsBound(bits: seq<bool>)
    ensures FromBits(bits) < Pow2(|bits|)
  {
    if bits != [] {
      FromBitsBound(bits[1..]);
    }
  }

  /** Setting a digit of FromBits is the same as setting the flag. */
  lemma {:induction false} SetBitFromBits(bits: seq<bool>, k: nat)
    requires k < |bits|
    ensures SetBit(FromBits(bits), k) == FromBits(bits[k := true])
  {
    var c := if bits[0] then 1 else 0;
    var y := FromBits(bits[1..]);
    var x := FromBits(bits);
    assert x == c + 2 * y;
    if k == 0 {
      assert bits[k := true][1..] == bits[1..];
    } else {
      var rest := bits[1..][k - 1 := true];
      assert bits[k := true][1..] == rest;
      assert bits[k := true][0] == bits[0];
      assert FromBits(bits[k := true]) == c + 2 * FromBits(rest);
      SetBitFromBits(bits[1..], k - 1);
      HalfOfDigits(c, y);
      assert Bit(x, k) == Bit(y, k - 1);
      if !Bit(y, k - 1) {
        assert FromBits(rest) == y + Pow2(k - 1);
        assert 2 * (y + Pow2(k - 1)) == 2 * y + Pow2(k);
      }
    }
  }

  lemma HalfOfDigits(c: nat, y: nat)
    requires c < 2
    ensures (c + 2 * y) / 2 == y
  {
  }

  /** A 16-bit little-endian word split into its two bytes: bit i of the word
      is bit i of the low byte for i < 8 and bit i - 8 of the high byte
      otherwise. */
  lemma {:induction false} BitOfWord(lo: nat, hi: nat, n: nat, i: nat)
    requires lo < Pow2(n)
    ensures Bit(lo + Pow2(n) * hi, i) == if i < n then Bit(lo, i) else Bit(hi, i - n)
  {
    if n == 0 {
      assert lo == 0;
    } else {
      var m := Pow2(n - 1);
      var half := m * hi;
      DoubleProduct(m, hi);
      HalfOfDigits(lo % 2, lo / 2 + half);
      assert lo + Pow2(n) * hi == lo % 2 + 2 * (lo / 2 + half);
      if i > 0 {
        assert lo / 2 < m;
        BitOfWord(lo / 2, hi, n - 1, i - 1);
      }
    }
  }

  lemma DoubleProduct(m: nat, hi: nat)
    ensures (2 * m) * hi == 2 * (m * hi)
  {
  }

  /** The two bytes a 16-bit little-endian store writes rebuild the value. */
  lemma Uint16Bytes(x: nat)
    requires x < 0x1_0000
    ensures ByteOf(x, 0) + 256 * ByteOf(x, 1) == x
  {
    assert Pow256(1) == 256;
  }

  /** DataView's little-endian stores (`setUint16`, `setUint32`,
      `setBigInt64` with `true`): the low `width` bytes of x, least
      significant first, at offset. */
  method SetLittleEndian(data: array<byte>, offset: nat, x: nat, width: nat)
    requires offset + width <= data.Length
    modifies data
    ensures forall k :: 0 <= k < data.Length ==>
      data[k] == if offset <= k < offset + width then ByteOf(x, k - offset) else old(data[k])
  {
    for j := 0 to width
      invariant forall k :: 0 <= k < data.Length ==>
        data[k] == if offset <= k < offset + j then ByteOf(x, k - offset) else old(data[k])
    {
      data[offset + j] := ByteOf(x, j);
    }
  }
}
