/**
 The link checksum (CRC-16/CCITT-FALSE): the byte-wise loop of the code, the
 bit-serial register it stands for, and what it detects at every length.

 The bit-vector operations sit behind small functions; each fact about them is
 a lemma of its own and the inductive proofs never look inside.
 */
module Crc16 {
  import opened Bytes

  predicate Top(c: bv16) {
    c & 0x8000 != 0
  }

  function Double(c: bv16): bv16 {
    c << 1
  }

  // The generator is x^16 + x^12 + x^5 + 1.
  function Reduce(c: bv16): bv16 {
    c ^ 0x1021
  }

  // One step of the register.
  function Shift(c: bv16): bv16 {
    if Top(c) then Reduce(Double(c)) else Double(c)
  }

  function Shifts(c: bv16, n: nat): bv16
    decreases n
  {
    if n == 0 then c else Shifts(Shift(c), n - 1)
  }

  // A message byte enters at the top of the register.
  function Mix(c: bv16, b: byte): bv16 {
    c ^ ((b as bv16) << 8)
  }

  function Feed(c: bv16, b: byte): bv16 {
    Shifts(Mix(c, b), 8)
  }

  // The register after `data`, byte by byte.
  function From(c: bv16, data: seq<byte>): bv16 {
    if data == [] then c else Feed(From(c, data[..|data| - 1]), data[|data| - 1])
  }

  // The register starts at all ones.
  function Crc(data: seq<byte>): bv16 {
    From(0xFFFF, data)
  }

  lemma FromSnoc(c: bv16, data: seq<byte>, i: nat)
    requires i < |data|
    ensures From(c, data[..i + 1]) == Feed(From(c, data[..i]), data[i])
  {
    hide Feed;
    assert data[..i + 1][..i] == data[..i];
  }

  method Compute(data: seq<byte>) returns (crc: bv16)
    ensures crc == Crc(data)
  {
    hide Shift;
    hide Mix;
    crc := 0xFFFF;
    for i := 0 to |data|
      invariant crc == From(0xFFFF, data[..i])
    {
      crc := Mix(crc, data[i]);
      ghost var mixed := crc;
      for b := 0 to 8
        invariant Shifts(mixed, 8) == Shifts(crc, 8 - b)
      {
        crc := Shift(crc);
      }
      FromSnoc(0xFFFF, data, i);
    }
    assert data[..|data|] == data;
  }

  // ---- The bit-serial register ----

  predicate TopBit(b: byte) {
    b & 0x80 != 0
  }

  function Up(b: byte): byte {
    b << 1
  }

  // The first n bits of a byte, most significant first, and what is left of it.
  function TopBits(b: byte, n: nat): (bits: seq<bool>)
    ensures |bits| == n
    decreases n
  {
    if n == 0 then [] else [TopBit(b)] + TopBits(Up(b), n - 1)
  }

  function Rest(b: byte, n: nat): byte
    decreases n
  {
    if n == 0 then b else Rest(Up(b), n - 1)
  }

  // The message as a string of bits, most significant bit of each byte first.
  function Bits(data: seq<byte>): (bits: seq<bool>)
    ensures |bits| == 8 * |data|
  {
    if data == [] then [] else Bits(data[..|data| - 1]) + TopBits(data[|data| - 1], 8)
  }

  // One message bit is compared with the bit leaving the register.
  function Step(c: bv16, bit: bool): bv16 {
    if Top(c) != bit then Reduce(Double(c)) else Double(c)
  }

  function Serial(c: bv16, bits: seq<bool>): bv16
    decreases |bits|
  {
    if bits == [] then c else Serial(Step(c, bits[0]), bits[1..])
  }

  lemma {:induction false} SerialSplit(c: bv16, x: seq<bool>, y: seq<bool>)
    ensures Serial(c, x + y) == Serial(Serial(c, x), y)
    decreases |x|
  {
    hide Step;
    if x == [] {
      assert x + y == y;
    } else {
      assert (x + y)[1..] == x[1..] + y;
      SerialSplit(Step(c, x[0]), x[1..], y);
    }
  }

  lemma TopMix(c: bv16, b: byte)
    ensures Top(Mix(c, b)) == (Top(c) != TopBit(b))
  {}

  lemma DoubleMix(c: bv16, b: byte)
    ensures Double(Mix(c, b)) == Mix(Double(c), Up(b))
  {}

  lemma ReduceMix(c: bv16, b: byte)
    ensures Reduce(Mix(c, b)) == Mix(Reduce(c), b)
  {}

  // Bits still to come may be mixed in early or wait outside the register.
  lemma StepAbsorbs(c: bv16, b: byte)
    ensures Shift(Mix(c, b)) == Mix(Step(c, TopBit(b)), Up(b))
  {
    TopMix(c, b);
    DoubleMix(c, b);
    ReduceMix(Double(c), Up(b));
    hide Top; hide Mix; hide TopBit; hide Up; hide Double; hide Reduce;
  }

  lemma MixZero(c: bv16)
    ensures Mix(c, 0) == c
  {}

  lemma UpEight(b: byte)
    ensures Up(Up(Up(Up(Up(Up(Up(Up(b)))))))) == 0
  {}

  lemma NothingLeft(b: byte)
    ensures Rest(b, 8) == 0
  {
    UpEight(b);
    hide Up;
    assert Rest(b, 8) == Rest(Up(Up(Up(Up(b)))), 4);
  }

  lemma {:induction false} ShiftsAreSteps(c: bv16, b: byte, n: nat)
    ensures Shifts(Mix(c, b), n) == Mix(Serial(c, TopBits(b, n)), Rest(b, n))
    decreases n
  {
    hide Step; hide Shift; hide Mix; hide Up; hide TopBit;
    if n > 0 {
      StepAbsorbs(c, b);
      ShiftsAreSteps(Step(c, TopBit(b)), Up(b), n - 1);
      assert TopBits(b, n)[1..] == TopBits(Up(b), n - 1);
    }
  }

  lemma ByteIsEightSteps(c: bv16, b: byte)
    ensures Feed(c, b) == Serial(c, TopBits(b, 8))
  {
    ShiftsAreSteps(c, b, 8);
    NothingLeft(b);
    MixZero(Serial(c, TopBits(b, 8)));
    hide *;
    assert Feed(c, b) == Shifts(Mix(c, b), 8) by { FeedDef(c, b); }
  }

  lemma FeedDef(c: bv16, b: byte)
    ensures Feed(c, b) == Shifts(Mix(c, b), 8)
  {
    hide Shifts; hide Mix;
  }

  // The byte-wise checksum is the bit-serial register run over the whole message.
  lemma {:induction false} BytesRefineBits(c: bv16, data: seq<byte>)
    ensures From(c, data) == Serial(c, Bits(data))
    decreases |data|
  {
    hide Feed; hide TopBits; hide Step;
    if data != [] {
      var init, last := data[..|data| - 1], data[|data| - 1];
      BytesRefineBits(c, init);
      ByteIsEightSteps(From(c, init), last);
      SerialSplit(c, Bits(init), TopBits(last, 8));
    }
  }

  // ---- Burst errors ----

  // Where the low bits of a register that can still differ k bits before two
  // runs meet: none of the low 16 - k.
  function Low(k: nat): bv16
    requires k <= 16
  {
    [0xFFFF, 0x7FFF, 0x3FFF, 0x1FFF, 0x0FFF, 0x07FF, 0x03FF, 0x01FF, 0x00FF,
     0x007F, 0x003F, 0x001F, 0x000F, 0x0007, 0x0003, 0x0001, 0x0000][k]
  }

  predicate AgreeOn(x: bv16, y: bv16, mask: bv16) {
    (x ^ y) & mask == 0
  }

  predicate HalfOf(m: bv16, n: bv16) {
    m == n >> 1
  }

  predicate Odd(m: bv16) {
    m & 1 == 1
  }

  lemma LowHalves(k: nat)
    requires 0 < k <= 16
    ensures HalfOf(Low(k), Low(k - 1)) && Odd(Low(k - 1))
  {}

  lemma StepMeets(x: bv16, y: bv16, p: bool, q: bool, m: bv16, n: bv16)
    requires AgreeOn(Step(x, p), Step(y, q), n) && HalfOf(m, n) && Odd(n)
    ensures AgreeOn(x, y, m)
  {}

  lemma DoubleLosesOnlyTop(x: bv16, y: bv16)
    requires Top(x) == Top(y) && Double(x) == Double(y)
    ensures x == y
  {}

  lemma DoubleEven(c: bv16)
    ensures !Odd(Double(c))
  {}

  lemma ReducedOdd(c: bv16)
    ensures Odd(Reduce(Double(c)))
  {}

  lemma ReduceTwice(c: bv16)
    ensures Reduce(Reduce(c)) == c
  {}

  lemma StepInjective(x: bv16, y: bv16, bit: bool)
    requires Step(x, bit) == Step(y, bit)
    ensures x == y
  {
    DoubleEven(x);
    DoubleEven(y);
    ReducedOdd(x);
    ReducedOdd(y);
    ReduceTwice(Double(x));
    ReduceTwice(Double(y));
    hide Top; hide Double; hide Reduce; hide Odd;
    DoubleLosesOnlyTop(x, y);
  }

  lemma StepSplits(x: bv16, p: bool, q: bool, m: bv16)
    requires p != q && Odd(m)
    ensures !AgreeOn(Step(x, p), Step(x, q), m)
  {}

  lemma {:induction false} Apart(x: bv16, y: bv16, bits: seq<bool>)
    requires x != y
    ensures Serial(x, bits) != Serial(y, bits)
    decreases |bits|
  {
    if bits != [] {
      if Step(x, bits[0]) == Step(y, bits[0]) {
        StepInjective(x, y, bits[0]);
      }
      Apart(Step(x, bits[0]), Step(y, bits[0]), bits[1..]);
      hide Step;
    }
  }

  lemma {:induction false} Meet(x: bv16, y: bv16, p: seq<bool>, q: seq<bool>)
    requires |p| == |q| <= 16 && Serial(x, p) == Serial(y, q)
    ensures AgreeOn(x, y, Low(|p|))
    decreases |p|
  {
    if p == [] {
      SelfAgrees(x);
    } else {
      Meet(Step(x, p[0]), Step(y, q[0]), p[1..], q[1..]);
      LowHalves(|p|);
      StepMeets(x, y, p[0], q[0], Low(|p|), Low(|p| - 1));
    }
    hide *;
  }

  lemma SelfAgrees(x: bv16)
    ensures AgreeOn(x, x, Low(0))
  {}

  lemma {:induction false} ShortWindow(c: bv16, p: seq<bool>, q: seq<bool>)
    requires |p| == |q| <= 16 && p != q
    ensures Serial(c, p) != Serial(c, q)
    decreases |p|
  {
    hide Step; hide AgreeOn; hide Low; hide Odd;
    if p[0] == q[0] {
      assert p == [p[0]] + p[1..] && q == [q[0]] + q[1..];
      ShortWindow(Step(c, p[0]), p[1..], q[1..]);
    } else if Serial(c, p) == Serial(c, q) {
      Meet(Step(c, p[0]), Step(c, q[0]), p[1..], q[1..]);
      LowHalves(|p|);
      StepSplits(c, p[0], q[0], Low(|p| - 1));
    }
  }

  // Every difference lies in the 16 bits that start at `from`.
  ghost predicate Burst(p: seq<bool>, q: seq<bool>, from: nat) {
    |p| == |q| && p != q &&
    forall j :: 0 <= j < |p| && !(from <= j < from + 16) ==> p[j] == q[j]
  }

  lemma BurstTail(p: seq<bool>, q: seq<bool>, from: nat)
    requires Burst(p, q, from) && from > 0
    ensures p != [] && p[0] == q[0] && Burst(p[1..], q[1..], from - 1)
  {
    assert p != [];
    assert p[0] == q[0];
    assert p == [p[0]] + p[1..] && q == [q[0]] + q[1..];
    var s, t := p[1..], q[1..];
    forall j | 0 <= j < |s| && !(from - 1 <= j < from - 1 + 16) ensures s[j] == t[j] {
      assert s[j] == p[j + 1] && t[j] == q[j + 1];
    }
  }

  lemma {:induction false} BurstChangesRegister(c: bv16, p: seq<bool>, q: seq<bool>, from: nat)
    requires Burst(p, q, from)
    ensures Serial(c, p) != Serial(c, q)
    decreases |p|
  {
    hide Step;
    if from == 0 {
      var n := if |p| < 16 then |p| else 16;
      assert p == p[..n] + p[n..] && q == q[..n] + q[n..];
      assert p[n..] == q[n..];
      SerialSplit(c, p[..n], p[n..]);
      SerialSplit(c, q[..n], q[n..]);
      ShortWindow(c, p[..n], q[..n]);
      Apart(Serial(c, p[..n]), Serial(c, q[..n]), p[n..]);
    } else {
      BurstTail(p, q, from);
      BurstChangesRegister(Step(c, p[0]), p[1..], q[1..], from - 1);
    }
  }

  // A burst of at most 16 bits always changes the checksum, whatever the length.
  lemma BurstDetected(x: seq<byte>, y: seq<byte>, from: nat)
    requires Burst(Bits(x), Bits(y), from)
    ensures Crc(x) != Crc(y)
  {
    BytesRefineBits(0xFFFF, x);
    BytesRefineBits(0xFFFF, y);
    BurstChangesRegister(0xFFFF, Bits(x), Bits(y), from);
    hide From; hide Serial; hide Burst; hide Bits;
  }

  lemma ByteFromBits(a: byte, b: byte)
    requires TopBit(a) == TopBit(b) && Up(a) == Up(b)
    ensures a == b
  {}

  lemma {:induction false} TopBitsInjective(a: byte, b: byte, n: nat)
    requires TopBits(a, n) == TopBits(b, n) && Rest(a, n) == Rest(b, n)
    ensures a == b
    decreases n
  {
    hide TopBit; hide Up;
    if n > 0 {
      assert TopBits(a, n)[0] == TopBits(b, n)[0] && TopBits(a, n)[1..] == TopBits(b, n)[1..];
      TopBitsInjective(Up(a), Up(b), n - 1);
      ByteFromBits(a, b);
    }
  }

  lemma {:induction false} BitsOfByte(data: seq<byte>, i: nat)
    requires i < |data|
    ensures Bits(data)[8 * i..8 * i + 8] == TopBits(data[i], 8)
  {
    hide TopBits;
    var n := |data| - 1;
    if i < n {
      BitsOfByte(data[..n], i);
      assert Bits(data)[8 * i..8 * i + 8] == Bits(data[..n])[8 * i..8 * i + 8];
    }
  }

  // Bytes that differ only in 2 consecutive places differ in such a burst.
  lemma TwoBytesAreABurst(x: seq<byte>, y: seq<byte>, at: nat)
    requires |x| == |y| && x != y
    requires forall i :: 0 <= i < |x| && !(at <= i < at + 2) ==> x[i] == y[i]
    ensures Burst(Bits(x), Bits(y), 8 * at)
  {
    hide TopBits; hide Bits; hide Rest;
    var p, q := Bits(x), Bits(y);
    forall j | 0 <= j < |p| && !(8 * at <= j < 8 * at + 16)
      ensures p[j] == q[j]
    {
      var i := j / 8;
      BitsOfByte(x, i);
      BitsOfByte(y, i);
      assert p[j] == p[8 * i..8 * i + 8][j % 8] && q[j] == q[8 * i..8 * i + 8][j % 8];
    }
    var i :| 0 <= i < |x| && x[i] != y[i];
    BitsOfByte(x, i);
    BitsOfByte(y, i);
    NothingLeft(x[i]);
    NothingLeft(y[i]);
    if p == q {
      TopBitsInjective(x[i], y[i], 8);
    }
  }

  // Data changed only within 2 adjacent bytes has another checksum, in whatever order
  // the bits of a byte travel.
  lemma TwoBytesDetected(x: seq<byte>, y: seq<byte>, at: nat)
    requires |x| == |y| && x != y
    requires forall i :: 0 <= i < |x| && !(at <= i < at + 2) ==> x[i] == y[i]
    ensures Crc(x) != Crc(y)
  {
    hide Crc; hide Burst;
    TwoBytesAreABurst(x, y, at);
    BurstDetected(x, y, 8 * at);
  }

  // ---- The edge of the checksum ----

  function Xor(x: bv16, y: bv16): bv16 {
    x ^ y
  }

  function XorByte(b: byte, d: byte): byte {
    b ^ d
  }

  function Out(c: bv16): bv16 {
    c >> 15
  }

  function Left5(t: bv16): bv16 {
    t << 5
  }

  function Left12(t: bv16): bv16 {
    t << 12
  }

  function Spread(t: bv16): bv16 {
    Xor(Xor(t, Left5(t)), Left12(t))
  }

  // A step without a branch: the bit that leaves comes back in three places.
  function Move(c: bv16): bv16 {
    Xor(Double(c), Spread(Out(c)))
  }

  lemma MoveReduces(c: bv16)
    ensures !Top(c) || Reduce(Double(c)) == Move(c)
  {}

  lemma MoveDoubles(c: bv16)
    ensures Top(c) || Double(c) == Move(c)
  {}

  lemma ShiftIsMove(c: bv16)
    ensures Shift(c) == Move(c)
  {
    hide Top; hide Reduce; hide Double; hide Move;
    MoveReduces(c);
    MoveDoubles(c);
  }

  lemma DoubleXor(x: bv16, y: bv16)
    ensures Double(Xor(x, y)) == Xor(Double(x), Double(y))
  {}

  lemma OutXor(x: bv16, y: bv16)
    ensures Out(Xor(x, y)) == Xor(Out(x), Out(y))
  {}

  lemma Left5Xor(x: bv16, y: bv16)
    ensures Left5(Xor(x, y)) == Xor(Left5(x), Left5(y))
  {}

  lemma Left12Xor(x: bv16, y: bv16)
    ensures Left12(Xor(x, y)) == Xor(Left12(x), Left12(y))
  {}

  lemma XorAssoc(x: bv16, y: bv16, z: bv16)
    ensures Xor(Xor(x, y), z) == Xor(x, Xor(y, z))
  {}

  lemma XorCommutes(x: bv16, y: bv16)
    ensures Xor(x, y) == Xor(y, x)
  {}

  lemma XorExchange(a: bv16, b: bv16, c: bv16, d: bv16)
    ensures Xor(Xor(a, b), Xor(c, d)) == Xor(Xor(a, c), Xor(b, d))
  {
    hide Xor;
    XorAssoc(a, b, Xor(c, d));
    XorAssoc(b, c, d);
    XorCommutes(b, c);
    XorAssoc(c, b, d);
    XorAssoc(a, c, Xor(b, d));
  }

  lemma SpreadXor(x: bv16, y: bv16)
    ensures Spread(Xor(x, y)) == Xor(Spread(x), Spread(y))
  {
    hide Xor; hide Left5; hide Left12;
    Left5Xor(x, y);
    Left12Xor(x, y);
    XorExchange(x, y, Left5(x), Left5(y));
    XorExchange(Xor(x, Left5(x)), Xor(y, Left5(y)), Left12(x), Left12(y));
  }

  lemma MoveXor(x: bv16, y: bv16)
    ensures Move(Xor(x, y)) == Xor(Move(x), Move(y))
  {
    hide Xor; hide Double; hide Out; hide Spread;
    DoubleXor(x, y);
    OutXor(x, y);
    SpreadXor(Out(x), Out(y));
    XorExchange(Double(x), Double(y), Spread(Out(x)), Spread(Out(y)));
  }

  lemma {:induction false} ShiftsXor(x: bv16, y: bv16, n: nat)
    ensures Shifts(Xor(x, y), n) == Xor(Shifts(x, n), Shifts(y, n))
    decreases n
  {
    hide Shift; hide Move; hide Xor;
    if n > 0 {
      ShiftIsMove(x);
      ShiftIsMove(y);
      ShiftIsMove(Xor(x, y));
      MoveXor(x, y);
      ShiftsXor(Shift(x), Shift(y), n - 1);
    }
  }

  lemma MixXor(c: bv16, b: byte, d: byte)
    ensures Mix(c, XorByte(b, d)) == Xor(Mix(c, b), Mix(0, d))
  {}

  // The checksum is linear: a changed byte changes it by the checksum of the change.
  lemma FeedXor(c: bv16, b: byte, d: byte)
    ensures Feed(c, XorByte(b, d)) == Xor(Feed(c, b), Feed(0, d))
  {
    hide Mix; hide Xor; hide XorByte; hide Shifts;
    MixXor(c, b, d);
    ShiftsXor(Mix(c, b), Mix(0, d), 8);
  }

  // Where the checksum of a single changed byte leaves the high byte alone.
  lemma Table(d: bv16, c1: bv16, c2: bv16, c3: bv16, c4: bv16, c5: bv16, c6: bv16, c7: bv16, c8: bv16)
    requires c1 == ((d << 8) << 1) ^ ((d << 8) >> 15) ^ (((d << 8) >> 15) << 5) ^ (((d << 8) >> 15) << 12)
    requires c2 == (c1 << 1) ^ (c1 >> 15) ^ ((c1 >> 15) << 5) ^ ((c1 >> 15) << 12)
    requires c3 == (c2 << 1) ^ (c2 >> 15) ^ ((c2 >> 15) << 5) ^ ((c2 >> 15) << 12)
    requires c4 == (c3 << 1) ^ (c3 >> 15) ^ ((c3 >> 15) << 5) ^ ((c3 >> 15) << 12)
    requires c5 == (c4 << 1) ^ (c4 >> 15) ^ ((c4 >> 15) << 5) ^ ((c4 >> 15) << 12)
    requires c6 == (c5 << 1) ^ (c5 >> 15) ^ ((c5 >> 15) << 5) ^ ((c5 >> 15) << 12)
    requires c7 == (c6 << 1) ^ (c6 >> 15) ^ ((c6 >> 15) << 5) ^ ((c6 >> 15) << 12)
    requires c8 == (c7 << 1) ^ (c7 >> 15) ^ ((c7 >> 15) << 5) ^ ((c7 >> 15) << 12)
    requires d <= 0xFF
    ensures c8 & 0xFF00 == 0 ==> d == 0 || d == 0x89
    ensures d == 0 ==> c8 == 0
    ensures d == 0x89 ==> c8 == 0xA1
  {}

  lemma MoveIs(c: bv16)
    ensures Move(c) == (c << 1) ^ (c >> 15) ^ ((c >> 15) << 5) ^ ((c >> 15) << 12)
  {}

  lemma MixedByte(d: byte)
    ensures Mix(0, d) == (d as bv16) << 8
  {}

  lemma ShiftPlain(c: bv16)
    ensures Shift(c) == (c << 1) ^ (c >> 15) ^ ((c >> 15) << 5) ^ ((c >> 15) << 12)
  {
    hide Shift; hide Move;
    ShiftIsMove(c);
    MoveIs(c);
  }

  lemma EightShifts(c: bv16)
    ensures Shifts(c, 8) == Shift(Shift(Shift(Shift(Shift(Shift(Shift(Shift(c))))))))
  {
    hide Shift;
    var c1 := Shift(c);
    var c2 := Shift(c1);
    var c3 := Shift(c2);
    var c4 := Shift(c3);
    assert Shifts(c, 8) == Shifts(c1, 7) == Shifts(c2, 6) == Shifts(c3, 5) == Shifts(c4, 4);
    assert Shifts(c4, 4) == Shifts(Shift(c4), 3) == Shifts(Shift(Shift(c4)), 2);
  }

  function Wide(d: byte): bv16 {
    d as bv16
  }

  predicate HighZero(c: bv16) {
    c & 0xFF00 == 0
  }

  lemma WideByte(d: byte)
    ensures d as bv16 <= 0xFF
  {}

  lemma TableOf(d: byte)
    ensures HighZero(Feed(0, d)) ==> Wide(d) == 0 || Wide(d) == 0x89
    ensures Wide(d) == 0 ==> Feed(0, d) == 0
    ensures Wide(d) == 0x89 ==> Feed(0, d) == 0xA1
  {
    hide Shift; hide Shifts; hide Mix;
    MixedByte(d);
    WideByte(d);
    var c := (d as bv16) << 8;
    EightShifts(c);
    var c1 := Shift(c);
    var c2 := Shift(c1);
    var c3 := Shift(c2);
    var c4 := Shift(c3);
    var c5 := Shift(c4);
    var c6 := Shift(c5);
    var c7 := Shift(c6);
    var c8 := Shift(c7);
    ShiftPlain(c);
    ShiftPlain(c1);
    ShiftPlain(c2);
    ShiftPlain(c3);
    ShiftPlain(c4);
    ShiftPlain(c5);
    ShiftPlain(c6);
    ShiftPlain(c7);
    Table(d as bv16, c1, c2, c3, c4, c5, c6, c7, c8);
  }

  lemma NarrowZero(d: byte)
    ensures Wide(d) == 0 <==> d == 0
  {}

  lemma NarrowEdge(d: byte)
    ensures Wide(d) == 0x89 <==> d == 0x89
  {}

  lemma NarrowSeal(e: byte)
    ensures Wide(e) == 0xA1 <==> e == 0xA1
  {}

  lemma WideHighZero(e: byte)
    ensures HighZero(Wide(e))
  {}

  lemma XorCancels(x: bv16, a: bv16, b: bv16)
    ensures Xor(x, a) == Xor(x, b) <==> a == b
  {}

  lemma SealXor(lo: byte, hi: byte, e: byte)
    ensures ToU16(XorByte(lo, e), hi) == Xor(ToU16(lo, hi), Wide(e))
  {}

  lemma EdgeTable(d: byte, e: byte)
    ensures Feed(0, d) == Wide(e) <==> (d == 0 && e == 0) || (d == 0x89 && e == 0xA1)
  {
    hide Feed; hide Wide; hide HighZero;
    TableOf(d);
    WideHighZero(e);
    NarrowZero(d);
    NarrowEdge(d);
    NarrowZero(e);
    NarrowSeal(e);
  }

  lemma CrcSnoc(init: seq<byte>, last: byte)
    ensures Crc(init + [last]) == Feed(From(0xFFFF, init), last)
  {
    hide Feed;
    assert (init + [last])[..|init|] == init;
  }

  // The last byte of a message and the first byte of its checksum change, the second
  // does not: the checksum still fits for exactly one such change, whatever the message.
  lemma EdgeChangeIff(init: seq<byte>, last: byte, lo: byte, hi: byte, d: byte, e: byte)
    requires Crc(init + [last]) == ToU16(lo, hi)
    ensures Crc(init + [XorByte(last, d)]) == ToU16(XorByte(lo, e), hi) <==>
            (d == 0 && e == 0) || (d == 0x89 && e == 0xA1)
  {
    hide Feed; hide Xor; hide XorByte; hide ToU16; hide From; hide Crc; hide Wide;
    var c := From(0xFFFF, init);
    CrcSnoc(init, last);
    CrcSnoc(init, XorByte(last, d));
    FeedXor(c, last, d);
    SealXor(lo, hi, e);
    XorCancels(Feed(c, last), Feed(0, d), Wide(e));
    EdgeTable(d, e);
  }

  // ---- Odd numbers of flipped bits ----

  function OddOnes(bits: seq<bool>): bool {
    if bits == [] then false else bits[0] != OddOnes(bits[1..])
  }

  function Flips(p: seq<bool>, q: seq<bool>): nat
    requires |p| == |q|
  {
    if p == [] then 0 else (if p[0] != q[0] then 1 else 0) + Flips(p[1..], q[1..])
  }

  lemma {:induction false} FlipsParity(p: seq<bool>, q: seq<bool>)
    requires |p| == |q|
    ensures (Flips(p, q) % 2 == 1) == (OddOnes(p) != OddOnes(q))
  {
    if p != [] {
      FlipsParity(p[1..], q[1..]);
    }
  }

  lemma {:induction false} OddOnesSplit(p: seq<bool>, q: seq<bool>)
    ensures OddOnes(p + q) == (OddOnes(p) != OddOnes(q))
  {
    if p == [] {
      assert p + q == q;
    } else {
      assert (p + q)[1..] == p[1..] + q;
      OddOnesSplit(p[1..], q);
    }
  }

  // Parity of a byte by folding halves onto each other, and of a register.
  function Fold8(c: byte): bool {
    var b := c ^ (c >> 4);
    var d := b ^ (b >> 2);
    (d ^ (d >> 1)) & 1 == 1
  }

  function Lo(c: bv16): byte {
    (c & 0xFF) as byte
  }

  function Hi(c: bv16): byte {
    (c >> 8) as byte
  }

  function Fold16(c: bv16): bool {
    Fold8(Lo(c)) != Fold8(Hi(c))
  }

  function WithLow(b: byte, bit: bool): byte {
    if bit then b ^ 1 else b
  }

  lemma LoDouble(c: bv16)
    ensures Lo(Double(c)) == Up(Lo(c))
  {}

  lemma HiDouble(c: bv16)
    ensures Hi(Double(c)) == WithLow(Up(Hi(c)), TopBit(Lo(c)))
  {}

  lemma TopIsHiTop(c: bv16)
    ensures Top(c) == TopBit(Hi(c))
  {}

  lemma LoReduce(c: bv16)
    ensures Lo(Reduce(c)) == Lo(c) ^ 0x21
  {}

  lemma HiReduce(c: bv16)
    ensures Hi(Reduce(c)) == Hi(c) ^ 0x10
  {}

  lemma FoldLow(b: byte)
    ensures Fold8(b ^ 1) != Fold8(b)
  {}

  lemma FoldTwo(b: byte)
    ensures Fold8(b ^ 0x21) == Fold8(b)
  {}

  lemma FoldOne(b: byte)
    ensures Fold8(b ^ 0x10) != Fold8(b)
  {}

  lemma FoldDouble(c: bv16)
    ensures Fold16(Double(c)) == (Fold16(c) != Top(c))
  {
    LoDouble(c);
    HiDouble(c);
    TopIsHiTop(c);
    FoldUp(Lo(c));
    FoldUp(Hi(c));
    FoldLow(Up(Hi(c)));
    hide Double; hide Lo; hide Hi; hide Up; hide TopBit; hide Top; hide Fold8;
  }

  lemma FoldReduce(c: bv16)
    ensures Fold16(Reduce(c)) != Fold16(c)
  {
    LoReduce(c);
    HiReduce(c);
    FoldTwo(Lo(c));
    FoldOne(Hi(c));
    hide Reduce; hide Lo; hide Hi; hide Fold8;
  }

  lemma FoldUp(b: byte)
    ensures Fold8(Up(b)) == (Fold8(b) != TopBit(b))
  {}

  lemma FoldPair(lo: byte, hi: byte)
    ensures Fold16(ToU16(lo, hi)) == (Fold8(lo) != Fold8(hi))
  {}

  lemma FoldZero()
    ensures !Fold8(0)
  {}

  lemma FoldOnes()
    ensures !Fold16(0xFFFF)
  {}

  lemma StepParity(c: bv16, bit: bool)
    ensures Fold16(Step(c, bit)) == (Fold16(c) != bit)
  {
    FoldDouble(c);
    FoldReduce(Double(c));
    hide Fold16; hide Double; hide Reduce; hide Top;
  }

  lemma {:induction false} SerialParity(c: bv16, bits: seq<bool>)
    ensures Fold16(Serial(c, bits)) == (Fold16(c) != OddOnes(bits))
    decreases |bits|
  {
    hide Fold16; hide Step;
    if bits != [] {
      StepParity(c, bits[0]);
      SerialParity(Step(c, bits[0]), bits[1..]);
    }
  }

  lemma {:induction false} TopBitsParity(b: byte, n: nat)
    ensures OddOnes(TopBits(b, n)) == (Fold8(b) != Fold8(Rest(b, n)))
    decreases n
  {
    hide Fold8; hide TopBit; hide Up;
    if n > 0 {
      FoldUp(b);
      TopBitsParity(Up(b), n - 1);
      assert TopBits(b, n)[1..] == TopBits(Up(b), n - 1);
    }
  }

  lemma ByteParity(b: byte)
    ensures OddOnes(TopBits(b, 8)) == Fold8(b)
  {
    TopBitsParity(b, 8);
    NothingLeft(b);
    FoldZero();
    hide *;
  }

  // A message followed by its checksum has an even number of one bits.
  lemma SealedIsEven(data: seq<byte>, lo: byte, hi: byte)
    requires Crc(data) == ToU16(lo, hi)
    ensures !OddOnes(Bits(data + [lo, hi]))
  {
    BytesRefineBits(0xFFFF, data);
    SerialParity(0xFFFF, Bits(data));
    FoldOnes();
    FoldPair(lo, hi);
    ByteParity(lo);
    ByteParity(hi);
    hide Fold16; hide Fold8; hide ToU16; hide Serial; hide TopBits; hide OddOnes; hide From;
    var d := data + [lo, hi];
    assert d[..|d| - 1] == data + [lo] && (data + [lo])[..|data|] == data;
    OddOnesSplit(Bits(data) + TopBits(lo, 8), TopBits(hi, 8));
    OddOnesSplit(Bits(data), TopBits(lo, 8));
  }

  // Flipping any odd number of bits of a sealed message, checksum included, shows.
  lemma OddFlipsDetected(x: seq<byte>, xlo: byte, xhi: byte, y: seq<byte>, ylo: byte, yhi: byte)
    requires |x| == |y| && Crc(x) == ToU16(xlo, xhi)
    requires Flips(Bits(x + [xlo, xhi]), Bits(y + [ylo, yhi])) % 2 == 1
    ensures Crc(y) != ToU16(ylo, yhi)
  {
    FlipsParity(Bits(x + [xlo, xhi]), Bits(y + [ylo, yhi]));
    SealedIsEven(x, xlo, xhi);
    if Crc(y) == ToU16(ylo, yhi) {
      SealedIsEven(y, ylo, yhi);
    }
    hide *;
  }

  // ---- The published check value ----

  lemma FirstDigit()
    ensures Feed(0xFFFF, 0x31) == 0xC782
  {
    EightShifts(Mix(0xFFFF, 0x31));
  }

  lemma SecondDigit()
    ensures Feed(0xC782, 0x32) == 0x3DBA
  {
    EightShifts(Mix(0xC782, 0x32));
  }

  lemma ThirdDigit()
    ensures Feed(0x3DBA, 0x33) == 0x5BCE
  {
    EightShifts(Mix(0x3DBA, 0x33));
  }

  lemma FourthDigit()
    ensures Feed(0x5BCE, 0x34) == 0x5349
  {
    EightShifts(Mix(0x5BCE, 0x34));
  }

  lemma FifthDigit()
    ensures Feed(0x5349, 0x35) == 0x4560
  {
    EightShifts(Mix(0x5349, 0x35));
  }

  lemma SixthDigit()
    ensures Feed(0x4560, 0x36) == 0x2EF4
  {
    EightShifts(Mix(0x4560, 0x36));
  }

  lemma SeventhDigit()
    ensures Feed(0x2EF4, 0x37) == 0x7718
  {
    EightShifts(Mix(0x2EF4, 0x37));
  }

  lemma EighthDigit()
    ensures Feed(0x7718, 0x38) == 0xA12B
  {
    EightShifts(Mix(0x7718, 0x38));
  }

  lemma NinthDigit()
    ensures Feed(0xA12B, 0x39) == 0x29B1
  {
    EightShifts(Mix(0xA12B, 0x39));
  }

  // The digits 1 to 9 in ASCII have the check value that catalogues of checksums list for
  // this polynomial and start value.
  lemma CheckValue()
    ensures Crc([0x31, 0x32, 0x33, 0x34, 0x35, 0x36, 0x37, 0x38, 0x39]) == 0x29B1
  {
    hide Feed;
    var d: seq<byte> := [0x31, 0x32, 0x33, 0x34, 0x35, 0x36, 0x37, 0x38, 0x39];
    FromSnoc(0xFFFF, d, 0);
    FirstDigit();
    FromSnoc(0xFFFF, d, 1);
    SecondDigit();
    FromSnoc(0xFFFF, d, 2);
    ThirdDigit();
    FromSnoc(0xFFFF, d, 3);
    FourthDigit();
    FromSnoc(0xFFFF, d, 4);
    FifthDigit();
    FromSnoc(0xFFFF, d, 5);
    SixthDigit();
    FromSnoc(0xFFFF, d, 6);
    SeventhDigit();
    FromSnoc(0xFFFF, d, 7);
    EighthDigit();
    FromSnoc(0xFFFF, d, 8);
    NinthDigit();
    assert d[..0] == [] && d[..9] == d;
  }
}
