/** CRC-32 by table, and the division of polynomials that it stands for (section 8 of RFC 1952). */
module Crc32 {

  const POLYNOMIAL: bv32 := 0xEDB88320

  // ---- Bit by bit ----

  /** One bit of the reflected division. */
  function Shift(c: bv32): bv32 {
    if c & 1 == 1 then (c >> 1) ^ POLYNOMIAL else c >> 1
  }

  function Shift8(c: bv32): bv32 {
    Shift(Shift(Shift(Shift(Shift(Shift(Shift(Shift(c))))))))
  }

  function DivideByte(c: bv32, byte: bv8): bv32 {
    Shift8(c ^ (byte as bv32))
  }

  /** A function applied to one element after the other. */
  function Fold<S, B>(f: (S, B) -> S, s: S, bytes: seq<B>): S {
    if bytes == [] then s else f(Fold(f, s, bytes[..|bytes| - 1]), bytes[|bytes| - 1])
  }

  /** The state after the bytes, one bit at a time. */
  function Divided(c: bv32, bytes: seq<bv8>): bv32 {
    Fold(DivideByte, c, bytes)
  }

  // ---- By table ----

  /** One of the sixteen entries of a row. */
  function Pick(k: bv8,
                e0: bv32, e1: bv32, e2: bv32, e3: bv32, e4: bv32, e5: bv32, e6: bv32, e7: bv32,
                e8: bv32, e9: bv32, e10: bv32, e11: bv32, e12: bv32, e13: bv32, e14: bv32, e15: bv32): bv32
  {
    if k == 0 then e0
    else if k == 1 then e1
    else if k == 2 then e2
    else if k == 3 then e3
    else if k == 4 then e4
    else if k == 5 then e5
    else if k == 6 then e6
    else if k == 7 then e7
    else if k == 8 then e8
    else if k == 9 then e9
    else if k == 10 then e10
    else if k == 11 then e11
    else if k == 12 then e12
    else if k == 13 then e13
    else if k == 14 then e14
    else e15
  }

  /** The table of 256 entries, row by row. */
  function CrcTable(index: bv8): bv32 {
    var low, high := index & 0x0F, index >> 4;
    if high == 0x0 then
      Pick(low,
           0x00000000, 0x77073096, 0xee0e612c, 0x990951ba, 0x076dc419, 0x706af48f, 0xe963a535, 0x9e6495a3,
           0x0edb8832, 0x79dcb8a4, 0xe0d5e91e, 0x97d2d988, 0x09b64c2b, 0x7eb17cbd, 0xe7b82d07, 0x90bf1d91)
    else if high == 0x1 then
      Pick(low,
           0x1db71064, 0x6ab020f2, 0xf3b97148, 0x84be41de, 0x1adad47d, 0x6ddde4eb, 0xf4d4b551, 0x83d385c7,
           0x136c9856, 0x646ba8c0, 0xfd62f97a, 0x8a65c9ec, 0x14015c4f, 0x63066cd9, 0xfa0f3d63, 0x8d080df5)
    else if high == 0x2 then
      Pick(low,
           0x3b6e20c8, 0x4c69105e, 0xd56041e4, 0xa2677172, 0x3c03e4d1, 0x4b04d447, 0xd20d85fd, 0xa50ab56b,
           0x35b5a8fa, 0x42b2986c, 0xdbbbc9d6, 0xacbcf940, 0x32d86ce3, 0x45df5c75, 0xdcd60dcf, 0xabd13d59)
    else if high == 0x3 then
      Pick(low,
           0x26d930ac, 0x51de003a, 0xc8d75180, 0xbfd06116, 0x21b4f4b5, 0x56b3c423, 0xcfba9599, 0xb8bda50f,
           0x2802b89e, 0x5f058808, 0xc60cd9b2, 0xb10be924, 0x2f6f7c87, 0x58684c11, 0xc1611dab, 0xb6662d3d)
    else if high == 0x4 then
      Pick(low,
           0x76dc4190, 0x01db7106, 0x98d220bc, 0xefd5102a, 0x71b18589, 0x06b6b51f, 0x9fbfe4a5, 0xe8b8d433,
           0x7807c9a2, 0x0f00f934, 0x9609a88e, 0xe10e9818, 0x7f6a0dbb, 0x086d3d2d, 0x91646c97, 0xe6635c01)
    else if high == 0x5 then
      Pick(low,
           0x6b6b51f4, 0x1c6c6162, 0x856530d8, 0xf262004e, 0x6c0695ed, 0x1b01a57b, 0x8208f4c1, 0xf50fc457,
           0x65b0d9c6, 0x12b7e950, 0x8bbeb8ea, 0xfcb9887c, 0x62dd1ddf, 0x15da2d49, 0x8cd37cf3, 0xfbd44c65)
    else if high == 0x6 then
      Pick(low,
           0x4db26158, 0x3ab551ce, 0xa3bc0074, 0xd4bb30e2, 0x4adfa541, 0x3dd895d7, 0xa4d1c46d, 0xd3d6f4fb,
           0x4369e96a, 0x346ed9fc, 0xad678846, 0xda60b8d0, 0x44042d73, 0x33031de5, 0xaa0a4c5f, 0xdd0d7cc9)
    else if high == 0x7 then
      Pick(low,
           0x5005713c, 0x270241aa, 0xbe0b1010, 0xc90c2086, 0x5768b525, 0x206f85b3, 0xb966d409, 0xce61e49f,
           0x5edef90e, 0x29d9c998, 0xb0d09822, 0xc7d7a8b4, 0x59b33d17, 0x2eb40d81, 0xb7bd5c3b, 0xc0ba6cad)
    else if high == 0x8 then
      Pick(low,
           0xedb88320, 0x9abfb3b6, 0x03b6e20c, 0x74b1d29a, 0xead54739, 0x9dd277af, 0x04db2615, 0x73dc1683,
           0xe3630b12, 0x94643b84, 0x0d6d6a3e, 0x7a6a5aa8, 0xe40ecf0b, 0x9309ff9d, 0x0a00ae27, 0x7d079eb1)
    else if high == 0x9 then
      Pick(low,
           0xf00f9344, 0x8708a3d2, 0x1e01f268, 0x6906c2fe, 0xf762575d, 0x806567cb, 0x196c3671, 0x6e6b06e7,
           0xfed41b76, 0x89d32be0, 0x10da7a5a, 0x67dd4acc, 0xf9b9df6f, 0x8ebeeff9, 0x17b7be43, 0x60b08ed5)
    else if high == 0xa then
      Pick(low,
           0xd6d6a3e8, 0xa1d1937e, 0x38d8c2c4, 0x4fdff252, 0xd1bb67f1, 0xa6bc5767, 0x3fb506dd, 0x48b2364b,
           0xd80d2bda, 0xaf0a1b4c, 0x36034af6, 0x41047a60, 0xdf60efc3, 0xa867df55, 0x316e8eef, 0x4669be79)
    else if high == 0xb then
      Pick(low,
           0xcb61b38c, 0xbc66831a, 0x256fd2a0, 0x5268e236, 0xcc0c7795, 0xbb0b4703, 0x220216b9, 0x5505262f,
           0xc5ba3bbe, 0xb2bd0b28, 0x2bb45a92, 0x5cb36a04, 0xc2d7ffa7, 0xb5d0cf31, 0x2cd99e8b, 0x5bdeae1d)
    else if high == 0xc then
      Pick(low,
           0x9b64c2b0, 0xec63f226, 0x756aa39c, 0x026d930a, 0x9c0906a9, 0xeb0e363f, 0x72076785, 0x05005713,
           0x95bf4a82, 0xe2b87a14, 0x7bb12bae, 0x0cb61b38, 0x92d28e9b, 0xe5d5be0d, 0x7cdcefb7, 0x0bdbdf21)
    else if high == 0xd then
      Pick(low,
           0x86d3d2d4, 0xf1d4e242, 0x68ddb3f8, 0x1fda836e, 0x81be16cd, 0xf6b9265b, 0x6fb077e1, 0x18b74777,
           0x88085ae6, 0xff0f6a70, 0x66063bca, 0x11010b5c, 0x8f659eff, 0xf862ae69, 0x616bffd3, 0x166ccf45)
    else if high == 0xe then
      Pick(low,
           0xa00ae278, 0xd70dd2ee, 0x4e048354, 0x3903b3c2, 0xa7672661, 0xd06016f7, 0x4969474d, 0x3e6e77db,
           0xaed16a4a, 0xd9d65adc, 0x40df0b66, 0x37d83bf0, 0xa9bcae53, 0xdebb9ec5, 0x47b2cf7f, 0x30b5ffe9)
    else Pick(low,
           0xbdbdf21c, 0xcabac28a, 0x53b39330, 0x24b4a3a6, 0xbad03605, 0xcdd70693, 0x54de5729, 0x23d967bf,
           0xb3667a2e, 0xc4614ab8, 0x5d681b02, 0x2a6f2b94, 0xb40bbe37, 0xc30c8ea1, 0x5a05df1b, 0x2d02ef8d)
  }

  lemma Row0(i: bv8)
    requires i & 0xF0 == 0x00
    ensures CrcTable(i) == Shift8(i as bv32)
  {
  }

  lemma Row1(i: bv8)
    requires i & 0xF0 == 0x10
    ensures CrcTable(i) == Shift8(i as bv32)
  {
  }

  lemma Rows0And1(i: bv8)
    requires i & 0xE0 == 0x00
    ensures CrcTable(i) == Shift8(i as bv32)
  {
    if i & 0xF0 == 0x00 {
      Row0(i);
    } else {
      assert i & 0xF0 == 0x10;
      Row1(i);
    }
  }

  lemma Rows2And3(i: bv8)
    requires i & 0xE0 == 0x20
    ensures CrcTable(i) == Shift8(i as bv32)
  {
  }

  lemma Rows4And5(i: bv8)
    requires i & 0xE0 == 0x40
    ensures CrcTable(i) == Shift8(i as bv32)
  {
  }

  lemma Rows6And7(i: bv8)
    requires i & 0xE0 == 0x60
    ensures CrcTable(i) == Shift8(i as bv32)
  {
  }

  lemma Rows8And9(i: bv8)
    requires i & 0xE0 == 0x80
    ensures CrcTable(i) == Shift8(i as bv32)
  {
  }

  lemma Rows10And11(i: bv8)
    requires i & 0xE0 == 0xa0
    ensures CrcTable(i) == Shift8(i as bv32)
  {
  }

  lemma Rows12And13(i: bv8)
    requires i & 0xE0 == 0xc0
    ensures CrcTable(i) == Shift8(i as bv32)
  {
  }

  lemma Rows14And15(i: bv8)
    requires i & 0xE0 == 0xe0
    ensures CrcTable(i) == Shift8(i as bv32)
  {
  }

  /** Every entry is what eight steps of the division make of its index. */
  lemma TableIsDivision(i: bv8)
    ensures CrcTable(i) == Shift8(i as bv32)
  {
    var rows := i & 0xE0;
    if rows == 0x00 {
      Rows0And1(i);
    } else if rows == 0x20 {
      Rows2And3(i);
    } else if rows == 0x40 {
      Rows4And5(i);
    } else if rows == 0x60 {
      Rows6And7(i);
    } else if rows == 0x80 {
      Rows8And9(i);
    } else if rows == 0xa0 {
      Rows10And11(i);
    } else if rows == 0xc0 {
      Rows12And13(i);
    } else {
      assert rows == 0xe0;
      Rows14And15(i);
    }
  }

  // ---- The division is linear ----

  function Xor(x: bv32, y: bv32): bv32 {
    x ^ y
  }

  lemma BothOdd(x: bv32, y: bv32)
    requires x & 1 == 1 && y & 1 == 1
    ensures Shift(x ^ y) == Shift(x) ^ Shift(y)
  {
  }

  lemma FirstOdd(x: bv32, y: bv32)
    requires x & 1 == 1 && y & 1 != 1
    ensures Shift(x ^ y) == Shift(x) ^ Shift(y)
  {
  }

  lemma SecondOdd(x: bv32, y: bv32)
    requires x & 1 != 1 && y & 1 == 1
    ensures Shift(x ^ y) == Shift(x) ^ Shift(y)
  {
  }

  lemma NoneOdd(x: bv32, y: bv32)
    requires x & 1 != 1 && y & 1 != 1
    ensures Shift(x ^ y) == Shift(x) ^ Shift(y)
  {
  }

  lemma ShiftLinear(x: bv32, y: bv32)
    ensures Shift(x ^ y) == Shift(x) ^ Shift(y)
  {
    if x & 1 == 1 {
      if y & 1 == 1 {
        BothOdd(x, y);
      } else {
        FirstOdd(x, y);
      }
    } else {
      if y & 1 == 1 {
        SecondOdd(x, y);
      } else {
        NoneOdd(x, y);
      }
    }
  }

  /** The rest of the argument needs no bits, only that a step is linear. */
  ghost predicate Linear<T(!new)>(f: T -> T, plus: (T, T) -> T) {
    forall x, y :: f(plus(x, y)) == plus(f(x), f(y))
  }

  function Eight<T>(f: T -> T, c: T): T {
    f(f(f(f(f(f(f(f(c))))))))
  }

  lemma EightLinear<T(!new)>(f: T -> T, plus: (T, T) -> T)
    requires Linear(f, plus)
    ensures Linear(c => Eight(f, c), plus)
  {
    forall x, y ensures Eight(f, plus(x, y)) == plus(Eight(f, x), Eight(f, y)) {
    }
  }

  lemma Shift8IsEight(c: bv32)
    ensures Eight(Shift, c) == Shift8(c)
  {
  }

  lemma ShiftIsLinear()
    ensures Linear(Shift, Xor)
  {
    forall x, y ensures Shift(Xor(x, y)) == Xor(Shift(x), Shift(y)) {
      ShiftLinear(x, y);
    }
  }

  /** Eight steps on a sum are the sum of eight steps. */
  lemma Shift8Linear(x: bv32, y: bv32)
    ensures Shift8(Xor(x, y)) == Xor(Shift8(x), Shift8(y))
  {
    ShiftIsLinear();
    EightLinear(Shift, Xor);
    Shift8IsEight(x);
    Shift8IsEight(y);
    Shift8IsEight(Xor(x, y));
    assert (c => Eight(Shift, c))(Xor(x, y)) == Xor((c => Eight(Shift, c))(x), (c => Eight(Shift, c))(y));
  }

  // ---- One byte ----

  /** Without low bits the division only shifts. */
  lemma ShiftHigh(c: bv32)
    requires c & 0xFF == 0
    ensures Shift8(c) == c >> 8
  {
  }

  lemma LowByte(low: bv32)
    requires low & 0xFF == low
    ensures low <= 0xFF && (low as bv8) as bv32 == low
  {
  }

  lemma LowAndHigh(x: bv32)
    ensures (x & 0xFF) & 0xFF == x & 0xFF <= 0xFF
    ensures (x ^ (x & 0xFF)) & 0xFF == 0
    ensures Xor(x ^ (x & 0xFF), x & 0xFF) == x
  {
  }

  lemma HighPart(c: bv32, byte: bv8)
    ensures var x := c ^ (byte as bv32); (x ^ (x & 0xFF)) >> 8 == c >> 8
  {
  }

  lemma TableLow(low: bv32)
    requires low & 0xFF == low
    ensures low <= 0xFF && CrcTable(low as bv8) == Shift8(low)
  {
    LowByte(low);
    TableIsDivision(low as bv8);
  }

  lemma ShiftSum(high: bv32, low: bv32)
    requires high & 0xFF == 0
    ensures Shift8(Xor(high, low)) == Xor(high >> 8, Shift8(low))
  {
    Shift8Linear(high, low);
    ShiftHigh(high);
  }

  lemma SplitShift(x: bv32)
    ensures Shift8(x) == Xor((x ^ (x & 0xFF)) >> 8, Shift8(x & 0xFF))
  {
    LowAndHigh(x);
    ShiftSum(x ^ (x & 0xFF), x & 0xFF);
  }

  lemma SplitTable(x: bv32)
    ensures x & 0xFF <= 0xFF
    ensures Shift8(x) == Xor((x ^ (x & 0xFF)) >> 8, CrcTable((x & 0xFF) as bv8))
  {
    SplitShift(x);
    LowAndHigh(x);
    TableLow(x & 0xFF);
  }

  /** One byte by table: the shifted state, and the entry for its low byte. */
  function TableStep(c: bv32, byte: bv8): bv32 {
    var x := c ^ (byte as bv32);
    LowAndHigh(x);
    Xor(c >> 8, CrcTable((x & 0xFF) as bv8))
  }

  /** One byte by table equals one byte bit by bit. */
  lemma TableStepIsShift8(c: bv32, byte: bv8)
    ensures TableStep(c, byte) == DivideByte(c, byte)
  {
    SplitTable(c ^ (byte as bv32));
    HighPart(c, byte);
  }

  // ---- Streams of bytes ----

  const ONES: bv32 := 0xFFFF_FFFF

  class Crc32 {
    var state: bv32

    constructor ()
      ensures state == ONES
    {
      state := ONES;
    }

    /** Goes on with the given bytes. */
    method Update(bytes: seq<bv8>)
      modifies this
      ensures state == Divided(old(state), bytes)
    {
      for i := 0 to |bytes|
        invariant state == Divided(old(state), bytes[..i])
      {
        TableStepIsShift8(state, bytes[i]);
        FoldOne(DivideByte, old(state), bytes, i);
        state := TableStep(state, bytes[i]);
      }
      assert bytes[..|bytes|] == bytes;
    }

    method Finalize() returns (r: bv32)
      ensures r == Xor(state, ONES)
    {
      r := Xor(state, ONES);
    }
  }

  lemma FoldOne<S, B>(f: (S, B) -> S, s: S, bytes: seq<B>, i: nat)
    requires i < |bytes|
    ensures Fold(f, s, bytes[..i + 1]) == f(Fold(f, s, bytes[..i]), bytes[i])
  {
    assert bytes[..i + 1][..i] == bytes[..i];
  }

  function Checksum(bytes: seq<bv8>): bv32 {
    Xor(Divided(ONES, bytes), ONES)
  }

  method ComputeCrc32(input: seq<bv8>) returns (r: bv32)
    ensures r == Checksum(input)
  {
    var crc := new Crc32();
    crc.Update(input);
    r := crc.Finalize();
  }

  lemma {:induction false} FoldConcat<S, B>(f: (S, B) -> S, s: S, a: seq<B>, b: seq<B>)
    ensures Fold(f, s, a + b) == Fold(f, Fold(f, s, a), b)
    decreases |b|
  {
    if b == [] {
      assert a + b == a;
    } else {
      var n := |b| - 1;
      assert (a + b)[..|a| + n] == a + b[..n];
      FoldConcat(f, s, a, b[..n]);
    }
  }

  /** Going on with two pieces is going on with the whole. */
  lemma DividedConcat(c: bv32, a: seq<bv8>, b: seq<bv8>)
    ensures Divided(c, a + b) == Divided(Divided(c, a), b)
  {
    FoldConcat(DivideByte, c, a, b);
  }

  // ---- The start value and the final sum ----

  function Flip(x: bv8): bv8 {
    x ^ 0xFF
  }

  /** The message with its first four bytes complemented. */
  function Complemented(m: seq<bv8>): seq<bv8>
    requires |m| >= 4
  {
    [Flip(m[0]), Flip(m[1]), Flip(m[2]), Flip(m[3])] + m[4..]
  }

  lemma FoldFour<S, B>(f: (S, B) -> S, s: S, a: B, b: B, c: B, d: B)
    ensures Fold(f, s, [a, b, c, d]) == f(f(f(f(s, a), b), c), d)
  {
    assert [a, b, c, d][..3] == [a, b, c] && [a, b, c][..2] == [a, b] && [a, b][..1] == [a] && [a][..0] == [];
    assert Fold(f, s, [a]) == f(s, a);
    assert Fold(f, s, [a, b]) == f(f(s, a), b);
    assert Fold(f, s, [a, b, c]) == f(f(f(s, a), b), c);
  }

  lemma ZipFour<B>(g: (B, B) -> B, a: B, b: B, c: B, d: B, w: B, x: B, y: B, z: B)
    ensures Zip(g, [a, b, c, d], [w, x, y, z]) == [g(a, w), g(b, x), g(c, y), g(d, z)]
  {
  }

  /** Four bytes of ones shift the start value out. */
  lemma StartIsOnes()
    ensures Divided(0xFFFF_FFFF, [0, 0, 0, 0]) == Divided(0, [0xFF, 0xFF, 0xFF, 0xFF])
  {
    FoldFour(DivideByte, 0xFFFF_FFFF, 0, 0, 0, 0);
    FoldFour(DivideByte, 0, 0xFF, 0xFF, 0xFF, 0xFF);
    StartByByte();
  }

  lemma StartByByte()
    ensures DivideByte(DivideByte(DivideByte(DivideByte(0xFFFF_FFFF, 0), 0), 0), 0)
            == DivideByte(DivideByte(DivideByte(DivideByte(0, 0xFF), 0xFF), 0xFF), 0xFF)
  {
  }

  lemma ZeroSums(x: bv8, c: bv32)
    ensures Xor8(0, x) == x && Xor8(0xFF, x) == Flip(x)
    ensures Xor(c, 0) == c
  {
  }

  lemma ZeroSteps(a: bv8, b: bv8, c: bv8, d: bv8)
    ensures Difference([0, 0, 0, 0], [a, b, c, d]) == [a, b, c, d]
    ensures Difference([0xFF, 0xFF, 0xFF, 0xFF], [a, b, c, d]) == [Flip(a), Flip(b), Flip(c), Flip(d)]
  {
    ZipFour(Xor8, 0, 0, 0, 0, a, b, c, d);
    ZipFour(Xor8, 0xFF, 0xFF, 0xFF, 0xFF, a, b, c, d);
    ZeroSums(a, 0);
    ZeroSums(b, 0);
    ZeroSums(c, 0);
    ZeroSums(d, 0);
  }

  lemma FourComplemented(a: bv8, b: bv8, c: bv8, d: bv8)
    ensures Divided(0xFFFF_FFFF, [a, b, c, d]) == Divided(0, [Flip(a), Flip(b), Flip(c), Flip(d)])
  {
    StartIsOnes();
    DividedLinear(0xFFFF_FFFF, 0, [0, 0, 0, 0], [a, b, c, d]);
    DividedLinear(0, 0, [0xFF, 0xFF, 0xFF, 0xFF], [a, b, c, d]);
    ZeroSteps(a, b, c, d);
    ZeroSums(0, 0xFFFF_FFFF);
    ZeroSums(0, 0);
  }

  lemma GoOnEqually(s: bv32, t: bv32, a: seq<bv8>, b: seq<bv8>, tail: seq<bv8>)
    requires Divided(s, a) == Divided(t, b)
    ensures Divided(s, a + tail) == Divided(t, b + tail)
  {
    DividedConcat(s, a, tail);
    DividedConcat(t, b, tail);
  }

  /** For a message of at least four bytes, starting with ones is starting with zero and the first
      four bytes complemented. */
  lemma StartComplements(m: seq<bv8>)
    requires |m| >= 4
    ensures Divided(0xFFFF_FFFF, m) == Divided(0, Complemented(m))
  {
    FourComplemented(m[0], m[1], m[2], m[3]);
    GoOnEqually(0xFFFF_FFFF, 0, [m[0], m[1], m[2], m[3]], [Flip(m[0]), Flip(m[1]), Flip(m[2]), Flip(m[3])], m[4..]);
    assert m == [m[0], m[1], m[2], m[3]] + m[4..];
  }

  /** The checksum is the complement of the remainder of the message with its first four bytes
      complemented. */
  lemma ChecksumIsComplement(m: seq<bv8>)
    requires |m| >= 4
    ensures Checksum(m) == Xor(Divided(0, Complemented(m)), 0xFFFF_FFFF)
  {
    StartComplements(m);
  }

  /** The checksums of no byte and of a single zero byte. */
  lemma ShortChecksums()
    ensures Checksum([]) == 0 && Checksum([0]) == 0xD202EF8D
  {
    assert [0][..0] == [];
    assert Divided(ONES, [0]) == DivideByte(ONES, 0);
    OneZero();
  }

  lemma OneZero()
    ensures Xor(DivideByte(0xFFFF_FFFF, 0), 0xFFFF_FFFF) == 0xD202EF8D && Xor(0xFFFF_FFFF, 0xFFFF_FFFF) == 0
  {
  }

  // ---- Which errors the checksum detects ----

  /** The difference of two messages of the same length. */
  function Difference(a: seq<bv8>, b: seq<bv8>): seq<bv8>
    requires |a| == |b|
  {
    Zip(Xor8, a, b)
  }

  function Xor8(a: bv8, b: bv8): bv8 {
    a ^ b
  }

  function Zip<B>(g: (B, B) -> B, a: seq<B>, b: seq<B>): (r: seq<B>)
    requires |a| == |b|
    ensures |r| == |a| && forall i :: 0 <= i < |a| ==> r[i] == g(a[i], b[i])
  {
    seq(|a|, i requires 0 <= i < |a| => g(a[i], b[i]))
  }

  /** A fold of a function that respects sums respects sums. */
  lemma {:induction false} FoldLinear<S(!new), B(!new)>(
    f: (S, B) -> S, plus: (S, S) -> S, plusB: (B, B) -> B, s: S, t: S, a: seq<B>, b: seq<B>)
    requires forall s, t, x, y :: f(plus(s, t), plusB(x, y)) == plus(f(s, x), f(t, y))
    requires |a| == |b|
    ensures Fold(f, plus(s, t), Zip(plusB, a, b)) == plus(Fold(f, s, a), Fold(f, t, b))
    decreases |a|
  {
    if a != [] {
      var n := |a| - 1;
      FoldLinear(f, plus, plusB, s, t, a[..n], b[..n]);
      assert Zip(plusB, a, b)[..n] == Zip(plusB, a[..n], b[..n]);
    }
  }

  lemma Interchange(s: bv32, t: bv32, x: bv8, y: bv8)
    ensures (s ^ t) ^ ((x ^ y) as bv32) == (s ^ (x as bv32)) ^ (t ^ (y as bv32))
  {
  }

  lemma DivideByteLinear(s: bv32, t: bv32, x: bv8, y: bv8)
    ensures DivideByte(Xor(s, t), Xor8(x, y)) == Xor(DivideByte(s, x), DivideByte(t, y))
  {
    Interchange(s, t, x, y);
    Shift8Linear(s ^ (x as bv32), t ^ (y as bv32));
  }

  lemma DividedLinear(s: bv32, t: bv32, a: seq<bv8>, b: seq<bv8>)
    requires |a| == |b|
    ensures Divided(Xor(s, t), Difference(a, b)) == Xor(Divided(s, a), Divided(t, b))
  {
    forall s, t, x, y ensures DivideByte(Xor(s, t), Xor8(x, y)) == Xor(DivideByte(s, x), DivideByte(t, y)) {
      DivideByteLinear(s, t, x, y);
    }
    FoldLinear(DivideByte, Xor, Xor8, s, t, a, b);
  }

  lemma XorLaws(x: bv32, y: bv32)
    ensures Xor(Xor(x, y), y) == x
    ensures Xor(0, y) == y
    ensures Xor(x, x) == 0
  {
  }

  /** Sums with a third are equal exactly if the sum of both is zero. */
  lemma SumsAgree<T(!new)>(plus: (T, T) -> T, zero: T, a: T, b: T, c: T)
    requires forall x, y :: plus(plus(x, y), y) == x
    requires forall y :: plus(zero, y) == y
    requires forall x :: plus(x, x) == zero
    ensures plus(a, c) == plus(b, c) <==> plus(a, b) == zero
  {
    assert plus(plus(a, c), c) == a && plus(plus(b, c), c) == b;
    assert plus(plus(a, b), b) == a;
  }

  lemma XorAgree(a: bv32, b: bv32, c: bv32)
    ensures Xor(a, c) == Xor(b, c) <==> Xor(a, b) == 0
  {
    forall x, y ensures Xor(Xor(x, y), y) == x {
      XorLaws(x, y);
    }
    forall y ensures Xor(0, y) == y {
      XorLaws(0, y);
    }
    forall x ensures Xor(x, x) == 0 {
      XorLaws(x, x);
    }
    SumsAgree(Xor, 0, a, b, c);
  }

  /** Two messages of the same length have the same checksum exactly if the polynomial
      divides their difference. */
  lemma SameChecksumWhen(a: seq<bv8>, b: seq<bv8>)
    requires |a| == |b|
    ensures Checksum(a) == Checksum(b) <==> Divided(0, Difference(a, b)) == 0
  {
    DividedLinear(ONES, ONES, a, b);
    XorLaws(ONES, ONES);
    XorAgree(Divided(ONES, a), Divided(ONES, b), ONES);
  }

  lemma OddStaysNonzero(c: bv32)
    requires c & 1 == 1
    ensures Shift(c) != 0
  {
  }

  lemma EvenStaysNonzero(c: bv32)
    requires c & 1 != 1 && c != 0
    ensures Shift(c) != 0
  {
  }

  lemma EightNonzero<T(!new)>(f: T -> T, zero: T, c: T)
    requires forall x :: x != zero ==> f(x) != zero
    ensures c != zero ==> Eight(f, c) != zero
  {
  }

  /** The division never forgets that there was a difference. */
  lemma Shift8Nonzero(c: bv32)
    requires c != 0
    ensures Shift8(c) != 0
  {
    forall x | x != 0 ensures Shift(x) != 0 {
      if x & 1 == 1 {
        OddStaysNonzero(x);
      } else {
        EvenStaysNonzero(x);
      }
    }
    EightNonzero(Shift, 0, c);
    Shift8IsEight(c);
  }

  function Zeros(n: nat): seq<bv8> {
    seq(n, _ => 0)
  }

  lemma PlusZero(s: bv32)
    ensures s ^ (0 as bv8 as bv32) == s
    ensures Shift8(0) == 0
  {
  }

  lemma {:induction false} ZerosKeep(s: bv32, n: nat)
    ensures s == 0 <==> Divided(s, Zeros(n)) == 0
    decreases n
  {
    if n > 0 {
      ZerosKeep(s, n - 1);
      assert Zeros(n)[..n - 1] == Zeros(n - 1);
      var before := Divided(s, Zeros(n - 1));
      PlusZero(before);
      if before != 0 {
        Shift8Nonzero(before);
      }
    }
  }

  lemma OneByte(d: bv8)
    requires d != 0
    ensures DivideByte(0, d) != 0
  {
    NonzeroByte(d);
    Shift8Nonzero(0 ^ (d as bv32));
  }

  lemma NonzeroByte(d: bv8)
    requires d != 0
    ensures 0 ^ (d as bv32) != 0
  {
  }

  lemma SameBytes(x: bv8, y: bv8)
    ensures x == y ==> Xor8(x, y) == 0
    ensures x != y ==> Xor8(x, y) != 0
  {
  }

  /** A change of one byte always changes the checksum. */
  lemma DetectsOneByte(a: seq<bv8>, b: seq<bv8>, i: nat)
    requires |a| == |b| && i < |a| && a[i] != b[i]
    requires forall j :: 0 <= j < |a| && j != i ==> a[j] == b[j]
    ensures Checksum(a) != Checksum(b)
  {
    var d := Difference(a, b);
    forall j | 0 <= j < |a| ensures d[j] == 0 <==> j != i {
      SameBytes(a[j], b[j]);
    }
    assert d == (Zeros(i) + [d[i]]) + Zeros(|a| - i - 1);
    DividedConcat(0, Zeros(i) + [d[i]], Zeros(|a| - i - 1));
    ZerosKeep(0, i);
    FoldOne(DivideByte, 0, Zeros(i) + [d[i]], i);
    assert (Zeros(i) + [d[i]])[..i] == Zeros(i) && (Zeros(i) + [d[i]])[..i + 1] == Zeros(i) + [d[i]];
    OneByte(d[i]);
    ZerosKeep(DivideByte(0, d[i]), |a| - i - 1);
    SameChecksumWhen(a, b);
  }
}
