/**
 The flash store's checksum (CRC-32, least significant bit first) and what it
 detects at every length.
 */
module Crc32 {
  import opened Bytes

  predicate Low(c: bv32) {
    c & 1 != 0
  }

  function Halve(c: bv32): bv32 {
    c >> 1
  }

  function Reduce(c: bv32): bv32 {
    c ^ 0xEDB88320
  }

  function Complement(c: bv32): bv32 {
    c ^ 0xFFFFFFFF
  }

  // One step of the register.
  function Shift(c: bv32): bv32 {
    if Low(c) then Reduce(Halve(c)) else Halve(c)
  }

  function Shifts(c: bv32, n: nat): bv32
    decreases n
  {
    if n == 0 then c else Shifts(Shift(c), n - 1)
  }

  function Xor(c: bv32, d: bv32): bv32 {
    c ^ d
  }

  function Widen(b: byte): bv32 {
    b as bv32
  }

  // A byte enters at the bottom of the register.
  function Mix(c: bv32, b: byte): bv32 {
    Xor(c, Widen(b))
  }

  function Feed(c: bv32, b: byte): bv32 {
    Shifts(Mix(c, b), 8)
  }

  // The register after `data`, byte by byte.
  function From(c: bv32, data: seq<byte>): bv32 {
    if data == [] then c else Feed(From(c, data[..|data| - 1]), data[|data| - 1])
  }

  function Crc(data: seq<byte>): bv32 {
    Complement(From(0xFFFFFFFF, data))
  }

  lemma FromSnoc(c: bv32, data: seq<byte>, i: nat)
    requires i < |data|
    ensures From(c, data[..i + 1]) == Feed(From(c, data[..i]), data[i])
  {
    hide Feed;
    assert data[..i + 1][..i] == data[..i];
  }

  method Compute(data: seq<byte>) returns (crc: bv32)
    ensures crc == Crc(data)
  {
    hide Shift; hide Mix; hide Complement;
    crc := 0xFFFFFFFF;
    for i := 0 to |data|
      invariant crc == From(0xFFFFFFFF, data[..i])
    {
      crc := Mix(crc, data[i]);
      ghost var mixed := crc;
      for b := 0 to 8
        invariant Shifts(mixed, 8) == Shifts(crc, 8 - b)
      {
        crc := Shift(crc);
      }
      FromSnoc(0xFFFFFFFF, data, i);
    }
    assert data[..|data|] == data;
    crc := Complement(crc);
  }

  // ---- The bit-serial register ----

  predicate LowBit(b: byte) {
    b & 1 != 0
  }

  function Down(b: byte): byte {
    b >> 1
  }

  // The first n bits of a byte, least significant first, and what is left of it.
  function LowBits(b: byte, n: nat): (bits: seq<bool>)
    ensures |bits| == n
    decreases n
  {
    if n == 0 then [] else [LowBit(b)] + LowBits(Down(b), n - 1)
  }

  function Rest(b: byte, n: nat): byte
    decreases n
  {
    if n == 0 then b else Rest(Down(b), n - 1)
  }

  // The data as a string of bits, least significant bit of each byte first.
  function Bits(data: seq<byte>): (bits: seq<bool>)
    ensures |bits| == 8 * |data|
  {
    if data == [] then [] else Bits(data[..|data| - 1]) + LowBits(data[|data| - 1], 8)
  }

  function Step(c: bv32, bit: bool): bv32 {
    if Low(c) != bit then Reduce(Halve(c)) else Halve(c)
  }

  function Serial(c: bv32, bits: seq<bool>): bv32
    decreases |bits|
  {
    if bits == [] then c else Serial(Step(c, bits[0]), bits[1..])
  }

  lemma {:induction false} SerialSplit(c: bv32, x: seq<bool>, y: seq<bool>)
    ensures Serial(c, x + y) == Serial(Serial(c, x), y)
    decreases |x|
  {
    hide Step;
    if x == [] {
      assert x + y == y;
    } else {
      assert (x + y)[1..] == x[1..] + y;
      SerialSplit(Step(c, x[0]), x[1..], y);
    }
  }

  lemma LowXor(c: bv32, d: bv32)
    ensures Low(Xor(c, d)) == (Low(c) != Low(d))
  {}

  lemma LowWiden(b: byte)
    ensures Low(Widen(b)) == LowBit(b)
  {}

  lemma HalveXor(c: bv32, d: bv32)
    ensures Halve(Xor(c, d)) == Xor(Halve(c), Halve(d))
  {}

  lemma HalveWiden(b: byte)
    ensures Halve(Widen(b)) == Widen(Down(b))
  {}

  lemma ReduceXor(c: bv32, d: bv32)
    ensures Reduce(Xor(c, d)) == Xor(Reduce(c), d)
  {}

  lemma MixZero(c: bv32)
    ensures Mix(c, 0) == c
  {}

  lemma DownEight(b: byte)
    ensures Down(Down(Down(Down(Down(Down(Down(Down(b)))))))) == 0
  {}

  lemma NothingLeft(b: byte)
    ensures Rest(b, 8) == 0
  {
    DownEight(b);
    hide Down;
    assert Rest(b, 8) == Rest(Down(Down(Down(Down(b)))), 4);
  }

  lemma {:induction false} ShiftsAreSteps(c: bv32, b: byte, n: nat)
    ensures Shifts(Mix(c, b), n) == Mix(Serial(c, LowBits(b, n)), Rest(b, n))
    decreases n
  {
    hide Low; hide LowBit; hide Down; hide Halve; hide Reduce; hide Xor; hide Widen;
    if n > 0 {
      // A bit still to come may be mixed in early or wait outside the register.
      assert Shift(Mix(c, b)) == Mix(Step(c, LowBit(b)), Down(b)) by {
        LowXor(c, Widen(b));
        LowWiden(b);
        HalveXor(c, Widen(b));
        HalveWiden(b);
        ReduceXor(Halve(c), Widen(Down(b)));
      }
      hide Step; hide Shift; hide Mix;
      ShiftsAreSteps(Step(c, LowBit(b)), Down(b), n - 1);
      assert LowBits(b, n)[1..] == LowBits(Down(b), n - 1);
    }
  }

  lemma ByteIsEightSteps(c: bv32, b: byte)
    ensures Feed(c, b) == Serial(c, LowBits(b, 8))
  {
    ShiftsAreSteps(c, b, 8);
    NothingLeft(b);
    MixZero(Serial(c, LowBits(b, 8)));
    hide Mix; hide Shifts; hide Serial; hide LowBits; hide Rest;
  }

  // The byte-wise checksum is the bit-serial register run over all the data.
  lemma {:induction false} BytesRefineBits(c: bv32, data: seq<byte>)
    ensures From(c, data) == Serial(c, Bits(data))
    decreases |data|
  {
    hide Feed; hide LowBits; hide Step;
    if data != [] {
      var init, last := data[..|data| - 1], data[|data| - 1];
      BytesRefineBits(c, init);
      ByteIsEightSteps(From(c, init), last);
      SerialSplit(c, Bits(init), LowBits(last, 8));
    }
  }

  // ---- Burst errors ----

  function Twice(c: bv32): bv32 {
    c << 1
  }

  // Where two registers that meet k bits later must agree: everywhere but in the
  // low k bits.
  function High(k: nat): bv32
    requires k <= 32
  {
    if k <= 11 then High0(k) else if k <= 22 then High1(k - 11) else High2(k - 22)
  }

  function High0(k: nat): bv32
    requires k <= 11
  {
    [
     0xFFFFFFFF, 0xFFFFFFFE, 0xFFFFFFFC, 0xFFFFFFF8, 0xFFFFFFF0, 0xFFFFFFE0,
     0xFFFFFFC0, 0xFFFFFF80, 0xFFFFFF00, 0xFFFFFE00, 0xFFFFFC00, 0xFFFFF800][k]
  }

  function High1(k: nat): bv32
    requires k <= 11
  {
    [
     0xFFFFF800, 0xFFFFF000, 0xFFFFE000, 0xFFFFC000, 0xFFFF8000, 0xFFFF0000,
     0xFFFE0000, 0xFFFC0000, 0xFFF80000, 0xFFF00000, 0xFFE00000, 0xFFC00000][k]
  }

  function High2(k: nat): bv32
    requires k <= 10
  {
    [
     0xFFC00000, 0xFF800000, 0xFF000000, 0xFE000000, 0xFC000000, 0xF8000000,
     0xF0000000, 0xE0000000, 0xC0000000, 0x80000000, 0x00000000][k]
  }

  predicate AgreeOn(x: bv32, y: bv32, mask: bv32) {
    (x ^ y) & mask == 0
  }

  predicate Top(m: bv32) {
    m & 0x80000000 != 0
  }

  lemma High0Doubles(k: nat)
    requires 0 < k <= 11
    ensures High0(k) == Twice(High0(k - 1)) && Top(High0(k - 1))
  {}

  lemma High1Doubles(k: nat)
    requires 0 < k <= 11
    ensures High1(k) == Twice(High1(k - 1)) && Top(High1(k - 1))
  {}

  lemma High2Doubles(k: nat)
    requires 0 < k <= 10
    ensures High2(k) == Twice(High2(k - 1)) && Top(High2(k - 1))
  {}

  lemma HighJoins()
    ensures High0(11) == High1(0) && High1(11) == High2(0)
  {}

  lemma HighDoubles(k: nat)
    requires 0 < k <= 32
    ensures High(k) == Twice(High(k - 1)) && Top(High(k - 1))
  {
    hide High0; hide High1; hide High2; hide Top; hide Twice;
    HighJoins();
    if k <= 11 {
      High0Doubles(k);
    } else if k <= 22 {
      High1Doubles(k - 11);
    } else {
      High2Doubles(k - 22);
    }
  }

  lemma StepMeets(x: bv32, y: bv32, p: bool, q: bool, m: bv32, n: bv32)
    requires AgreeOn(Step(x, p), Step(y, q), n) && m == Twice(n) && Top(n)
    ensures AgreeOn(x, y, m)
  {}

  lemma HalveLosesOnlyLow(x: bv32, y: bv32)
    requires Low(x) == Low(y) && Halve(x) == Halve(y)
    ensures x == y
  {}

  lemma HalveClearsTop(c: bv32)
    ensures !Top(Halve(c))
  {}

  lemma ReducedTop(c: bv32)
    ensures Top(Reduce(Halve(c)))
  {}

  lemma ReduceTwice(c: bv32)
    ensures Reduce(Reduce(c)) == c
  {}

  lemma StepInjective(x: bv32, y: bv32, bit: bool)
    requires Step(x, bit) == Step(y, bit)
    ensures x == y
  {
    HalveClearsTop(x);
    HalveClearsTop(y);
    ReducedTop(x);
    ReducedTop(y);
    ReduceTwice(Halve(x));
    ReduceTwice(Halve(y));
    hide Low; hide Halve; hide Reduce; hide Top;
    HalveLosesOnlyLow(x, y);
  }

  lemma StepSplits(x: bv32, p: bool, q: bool, m: bv32)
    requires p != q && Top(m)
    ensures !AgreeOn(Step(x, p), Step(x, q), m)
  {}

  lemma {:induction false} Apart(x: bv32, y: bv32, bits: seq<bool>)
    requires x != y
    ensures Serial(x, bits) != Serial(y, bits)
    decreases |bits|
  {
    if bits != [] {
      if Step(x, bits[0]) == Step(y, bits[0]) {
        StepInjective(x, y, bits[0]);
      }
      Apart(Step(x, bits[0]), Step(y, bits[0]), bits[1..]);
      hide Step;
    }
  }

  lemma {:induction false} Meet(x: bv32, y: bv32, p: seq<bool>, q: seq<bool>)
    requires |p| == |q| <= 32 && Serial(x, p) == Serial(y, q)
    ensures AgreeOn(x, y, High(|p|))
    decreases |p|
  {
    hide Step; hide AgreeOn; hide High; hide Twice; hide Top;
    if p == [] {
      SelfAgrees(x);
    } else {
      Meet(Step(x, p[0]), Step(y, q[0]), p[1..], q[1..]);
      HighDoubles(|p|);
      StepMeets(x, y, p[0], q[0], High(|p|), High(|p| - 1));
    }
  }

  lemma SelfAgrees(x: bv32)
    ensures AgreeOn(x, x, High(0))
  {}

  lemma {:induction false} ShortWindow(c: bv32, p: seq<bool>, q: seq<bool>)
    requires |p| == |q| <= 32 && p != q
    ensures Serial(c, p) != Serial(c, q)
    decreases |p|
  {
    hide Step; hide AgreeOn; hide High; hide Top; hide Twice;
    if p[0] == q[0] {
      assert p == [p[0]] + p[1..] && q == [q[0]] + q[1..];
      ShortWindow(Step(c, p[0]), p[1..], q[1..]);
    } else if Serial(c, p) == Serial(c, q) {
      Meet(Step(c, p[0]), Step(c, q[0]), p[1..], q[1..]);
      HighDoubles(|p|);
      StepSplits(c, p[0], q[0], High(|p| - 1));
    }
  }

  // Every difference lies in the 32 bits that start at `from`.
  ghost predicate Burst(p: seq<bool>, q: seq<bool>, from: nat) {
    |p| == |q| && p != q &&
    forall j :: 0 <= j < |p| && !(from <= j < from + 32) ==> p[j] == q[j]
  }

  lemma BurstTail(p: seq<bool>, q: seq<bool>, from: nat)
    requires Burst(p, q, from) && from > 0
    ensures p != [] && p[0] == q[0] && Burst(p[1..], q[1..], from - 1)
  {
    assert p != [];
    assert p[0] == q[0];
    assert p == [p[0]] + p[1..] && q == [q[0]] + q[1..];
    var s, t := p[1..], q[1..];
    forall j | 0 <= j < |s| && !(from - 1 <= j < from - 1 + 32) ensures s[j] == t[j] {
      assert s[j] == p[j + 1] && t[j] == q[j + 1];
    }
  }

  lemma {:induction false} BurstChangesRegister(c: bv32, p: seq<bool>, q: seq<bool>, from: nat)
    requires Burst(p, q, from)
    ensures Serial(c, p) != Serial(c, q)
    decreases |p|
  {
    hide Step;
    if from == 0 {
      var n := if |p| < 32 then |p| else 32;
      assert p == p[..n] + p[n..] && q == q[..n] + q[n..];
      assert p[n..] == q[n..];
      SerialSplit(c, p[..n], p[n..]);
      SerialSplit(c, q[..n], q[n..]);
      ShortWindow(c, p[..n], q[..n]);
      Apart(Serial(c, p[..n]), Serial(c, q[..n]), p[n..]);
    } else {
      BurstTail(p, q, from);
      BurstChangesRegister(Step(c, p[0]), p[1..], q[1..], from - 1);
    }
  }

  lemma ComplementInjective(x: bv32, y: bv32)
    requires Complement(x) == Complement(y)
    ensures x == y
  {}

  // A burst of at most 32 bits always changes the checksum, whatever the length.
  lemma BurstDetected(x: seq<byte>, y: seq<byte>, from: nat)
    requires Burst(Bits(x), Bits(y), from)
    ensures Crc(x) != Crc(y)
  {
    hide From; hide Serial; hide Burst; hide Bits; hide Complement;
    BytesRefineBits(0xFFFFFFFF, x);
    BytesRefineBits(0xFFFFFFFF, y);
    BurstChangesRegister(0xFFFFFFFF, Bits(x), Bits(y), from);
    if Crc(x) == Crc(y) {
      ComplementInjective(From(0xFFFFFFFF, x), From(0xFFFFFFFF, y));
    }
  }

  lemma ByteFromBits(a: byte, b: byte)
    requires LowBit(a) == LowBit(b) && Down(a) == Down(b)
    ensures a == b
  {}

  lemma {:induction false} LowBitsInjective(a: byte, b: byte, n: nat)
    requires LowBits(a, n) == LowBits(b, n) && Rest(a, n) == Rest(b, n)
    ensures a == b
    decreases n
  {
    hide LowBit; hide Down;
    if n > 0 {
      assert LowBits(a, n)[0] == LowBits(b, n)[0] && LowBits(a, n)[1..] == LowBits(b, n)[1..];
      LowBitsInjective(Down(a), Down(b), n - 1);
      ByteFromBits(a, b);
    }
  }

  lemma {:induction false} BitsOfByte(data: seq<byte>, i: nat)
    requires i < |data|
    ensures Bits(data)[8 * i..8 * i + 8] == LowBits(data[i], 8)
  {
    hide LowBits;
    var n := |data| - 1;
    if i < n {
      BitsOfByte(data[..n], i);
      assert Bits(data)[8 * i..8 * i + 8] == Bits(data[..n])[8 * i..8 * i + 8];
    }
  }

  // Bytes that differ only in 4 consecutive places differ in such a burst.
  lemma FourBytesAreABurst(x: seq<byte>, y: seq<byte>, at: nat)
    requires |x| == |y| && x != y
    requires forall i :: 0 <= i < |x| && !(at <= i < at + 4) ==> x[i] == y[i]
    ensures Burst(Bits(x), Bits(y), 8 * at)
  {
    hide LowBits; hide Bits; hide Rest;
    var p, q := Bits(x), Bits(y);
    forall j | 0 <= j < |p| && !(8 * at <= j < 8 * at + 32)
      ensures p[j] == q[j]
    {
      var i := j / 8;
      BitsOfByte(x, i);
      BitsOfByte(y, i);
      assert p[j] == p[8 * i..8 * i + 8][j % 8] && q[j] == q[8 * i..8 * i + 8][j % 8];
    }
    var i :| 0 <= i < |x| && x[i] != y[i];
    BitsOfByte(x, i);
    BitsOfByte(y, i);
    NothingLeft(x[i]);
    NothingLeft(y[i]);
    if p == q {
      LowBitsInjective(x[i], y[i], 8);
    }
  }

  // Data changed only within 4 consecutive bytes has another checksum.
  lemma FourBytesDetected(x: seq<byte>, y: seq<byte>, at: nat)
    requires |x| == |y| && x != y
    requires forall i :: 0 <= i < |x| && !(at <= i < at + 4) ==> x[i] == y[i]
    ensures Crc(x) != Crc(y)
  {
    hide Crc; hide Burst;
    FourBytesAreABurst(x, y, at);
    BurstDetected(x, y, 8 * at);
  }

  lemma EightShifts(c: bv32)
    ensures Shifts(c, 8) == Shift(Shift(Shift(Shift(Shift(Shift(Shift(Shift(c))))))))
  {
    hide Shift;
    var c1 := Shift(c);
    var c2 := Shift(c1);
    var c3 := Shift(c2);
    var c4 := Shift(c3);
    assert Shifts(c, 8) == Shifts(c1, 7) == Shifts(c2, 6) == Shifts(c3, 5) == Shifts(c4, 4);
    assert Shifts(c4, 4) == Shifts(Shift(c4), 3) == Shifts(Shift(Shift(c4)), 2);
  }

  // ---- The published check value ----

  lemma FirstDigit()
    ensures Feed(0xFFFFFFFF, 0x31) == 0x7C231048
  {
    EightShifts(Mix(0xFFFFFFFF, 0x31));
  }

  lemma SecondDigit()
    ensures Feed(0x7C231048, 0x32) == 0xB0ACBB32
  {
    EightShifts(Mix(0x7C231048, 0x32));
  }

  lemma ThirdDigit()
    ensures Feed(0xB0ACBB32, 0x33) == 0x77B79C2D
  {
    EightShifts(Mix(0xB0ACBB32, 0x33));
  }

  lemma FourthDigit()
    ensures Feed(0x77B79C2D, 0x34) == 0x641C1F5C
  {
    EightShifts(Mix(0x77B79C2D, 0x34));
  }

  lemma FifthDigit()
    ensures Feed(0x641C1F5C, 0x35) == 0x340AC5E3
  {
    EightShifts(Mix(0x641C1F5C, 0x35));
  }

  lemma SixthDigit()
    ensures Feed(0x340AC5E3, 0x36) == 0xF68D2C9E
  {
    EightShifts(Mix(0x340AC5E3, 0x36));
  }

  lemma SeventhDigit()
    ensures Feed(0xF68D2C9E, 0x37) == 0xAFFC9660
  {
    EightShifts(Mix(0xF68D2C9E, 0x37));
  }

  lemma EighthDigit()
    ensures Feed(0xAFFC9660, 0x38) == 0x651F2550
  {
    EightShifts(Mix(0xAFFC9660, 0x38));
  }

  lemma NinthDigit()
    ensures Feed(0x651F2550, 0x39) == 0x340BC6D9
  {
    EightShifts(Mix(0x651F2550, 0x39));
  }

  // The digits 1 to 9 in ASCII have the check value of the common CRC-32.
  lemma CheckValue()
    ensures Crc([0x31, 0x32, 0x33, 0x34, 0x35, 0x36, 0x37, 0x38, 0x39]) == 0xCBF43926
  {
    hide Feed;
    var d: seq<byte> := [0x31, 0x32, 0x33, 0x34, 0x35, 0x36, 0x37, 0x38, 0x39];
    FromSnoc(0xFFFFFFFF, d, 0);
    FirstDigit();
    FromSnoc(0xFFFFFFFF, d, 1);
    SecondDigit();
    FromSnoc(0xFFFFFFFF, d, 2);
    ThirdDigit();
    FromSnoc(0xFFFFFFFF, d, 3);
    FourthDigit();
    FromSnoc(0xFFFFFFFF, d, 4);
    FifthDigit();
    FromSnoc(0xFFFFFFFF, d, 5);
    SixthDigit();
    FromSnoc(0xFFFFFFFF, d, 6);
    SeventhDigit();
    FromSnoc(0xFFFFFFFF, d, 7);
    EighthDigit();
    FromSnoc(0xFFFFFFFF, d, 8);
    NinthDigit();
    assert d[..0] == [] && d[..9] == d;
  }
}
