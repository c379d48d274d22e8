// Little-endian byte encodings shared by the link and the flash store.
module Bytes {
  type byte = bv8

  function U16(v: bv16): (b: seq<byte>)
    ensures |b| == 2
  {
    [(v & 0xFF) as byte, (v >> 8) as byte]
  }

  function ToU16(lo: byte, hi: byte): bv16 {
    (lo as bv16) | ((hi as bv16) << 8)
  }

  function U32(v: bv32): (b: seq<byte>)
    ensures |b| == 4
  {
    U16((v & 0xFFFF) as bv16) + U16((v >> 16) as bv16)
  }

  function ToU32(b: seq<byte>): bv32
    requires |b| == 4
  {
    (ToU16(b[0], b[1]) as bv32) | ((ToU16(b[2], b[3]) as bv32) << 16)
  }

  function U64(v: bv64): (b: seq<byte>)
    ensures |b| == 8
  {
    U32((v & 0xFFFF_FFFF) as bv32) + U32((v >> 32) as bv32)
  }

  function ToU64(b: seq<byte>): bv64
    requires |b| == 8
  {
    (ToU32(b[..4]) as bv64) | ((ToU32(b[4..]) as bv64) << 32)
  }

  function Val(b: byte): (n: nat)
    ensures n < 256
  {
    b as nat
  }

  lemma ValNext(b: byte)
    requires b != 255
    ensures Val(b + 1) == Val(b) + 1
  {}

  lemma ValInjective(a: byte, b: byte)
    requires Val(a) == Val(b)
    ensures a == b
  {}

  // The byte with a given value.
  function OfNat(n: nat): (b: byte)
    requires n < 256
    ensures Val(b) == n
  {
    if n == 0 then 0 else
      var p := OfNat(n - 1);
      assert p != 255 by { assert Val(255) == 255; }
      ValNext(p);
      hide Val;
      p + 1
  }

  // A length below 2^16 as its two little-endian bytes, and back.
  function LenBytes(n: nat): (b: seq<byte>)
    requires n < 0x1_0000
    ensures |b| == 2 && LenOf(b[0], b[1]) == n
  {
    var lo, hi := OfNat(n % 256), OfNat(n / 256);
    assert LenOf(lo, hi) == n by { hide OfNat; hide Val; }
    hide *;
    [lo, hi]
  }

  lemma LenDigits(n: nat)
    requires n < 0x1_0000
    ensures Val(LenBytes(n)[0]) == n % 256 && Val(LenBytes(n)[1]) == n / 256
  {
    hide OfNat; hide Val;
  }

  function LenOf(lo: byte, hi: byte): (n: nat)
    ensures n < 0x1_0000
  {
    Val(lo) + 256 * Val(hi)
  }

  // Byte i of a word is the word divided by 256^i, modulo 256.

  lemma U16Digits(v: bv16)
    ensures U16(v) == [(v % 256) as byte, (v / 256) as byte]
  {}

  lemma U32Digits(v: bv32)
    ensures U32(v) == [(v % 256) as byte, (v / 0x100 % 256) as byte, (v / 0x1_0000 % 256) as byte,
                       (v / 0x100_0000) as byte]
  {}

  lemma U64Digits(v: bv64)
    ensures U64(v) == [(v % 256) as byte, (v / 0x100 % 256) as byte, (v / 0x1_0000 % 256) as byte,
                       (v / 0x100_0000 % 256) as byte, (v / 0x1_0000_0000 % 256) as byte,
                       (v / 0x100_0000_0000 % 256) as byte, (v / 0x1_0000_0000_0000 % 256) as byte,
                       (v / 0x100_0000_0000_0000) as byte]
  {}

  lemma U16RoundTrip(v: bv16)
    ensures ToU16(U16(v)[0], U16(v)[1]) == v
  {}

  lemma U16Onto(lo: byte, hi: byte)
    ensures U16(ToU16(lo, hi)) == [lo, hi]
  {}

  lemma U32RoundTrip(v: bv32)
    ensures ToU32(U32(v)) == v
  {}

  lemma U32Onto(b: seq<byte>)
    requires |b| == 4
    ensures U32(ToU32(b)) == b
  {}

  lemma U64RoundTrip(v: bv64)
    ensures ToU64(U64(v)) == v
  {
    assert U64(v)[..4] == U32((v & 0xFFFF_FFFF) as bv32);
    assert U64(v)[4..] == U32((v >> 32) as bv32);
    U32RoundTrip((v & 0xFFFF_FFFF) as bv32);
    U32RoundTrip((v >> 32) as bv32);
  }

  lemma SplitU64(lo: bv32, hi: bv32)
    ensures var v := (lo as bv64) | ((hi as bv64) << 32);
            ((v & 0xFFFF_FFFF) as bv32) == lo && ((v >> 32) as bv32) == hi
  {}

  lemma U64Onto(b: seq<byte>)
    requires |b| == 8
    ensures U64(ToU64(b)) == b
  {
    SplitU64(ToU32(b[..4]), ToU32(b[4..]));
    U32Onto(b[..4]);
    U32Onto(b[4..]);
    hide *;
    assert b == b[..4] + b[4..];
  }

  lemma OfNatVal(b: byte)
    ensures OfNat(Val(b)) == b
  {
    hide OfNat;
    ValInjective(OfNat(Val(b)), b);
  }

  lemma DivMod(lo: nat, hi: nat)
    requires lo < 256
    ensures (lo + 256 * hi) % 256 == lo && (lo + 256 * hi) / 256 == hi
  {}

  // Equal lengths have equal bytes: the length field is a bijection on 0..65535.
  lemma LenOnto(lo: byte, hi: byte)
    ensures LenBytes(LenOf(lo, hi)) == [lo, hi]
  {
    hide Val; hide OfNat;
    DivMod(Val(lo), Val(hi));
    OfNatVal(lo);
    OfNatVal(hi);
  }

  lemma SliceOfSlice(s: seq<byte>, a: nat, b: nat, c: nat, d: nat)
    requires a <= b <= |s| && c <= d <= b - a
    ensures s[a..b][c..d] == s[a + c..a + d]
  {
    var x, y := s[a..b][c..d], s[a + c..a + d];
    forall i | 0 <= i < d - c ensures x[i] == y[i] {
      assert x[i] == s[a..b][c + i];
    }
  }

  // Copy `data` to a position of a buffer.
  method Put(out: array<byte>, at: nat, data: seq<byte>)
    requires at + |data| <= out.Length
    modifies out
    ensures out[..at + |data|] == old(out[..at]) + data
    ensures forall i :: at + |data| <= i < out.Length ==> out[i] == old(out[i])
  {
    ghost var head := out[..at];
    for i := 0 to |data|
      invariant out[..at + i] == head + data[..i]
      invariant forall k :: at + i <= k < out.Length ==> out[k] == old(out[k])
    {
      out[at + i] := data[i];
      assert out[..at + i + 1] == out[..at + i] + [data[i]];
    }
  }

  lemma Assoc(a: seq<byte>, b: seq<byte>, c: seq<byte>)
    ensures a + b + c == a + (b + c)
  {}
}
