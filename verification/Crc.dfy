// Table-driven CRC-32 (libpi/libc/crc.c) against the bit-at-a-time CRC of
// section 8 of RFC 1952, and the error bursts the checksum is guaranteed to see.
module Crc {

  // ----- The reference: one message bit at a time -----

  /** The generator polynomial, reflected. */
  const POLY: bv32 := 0xEDB88320

  /** One division step: the bit leaving at the bottom decides the subtraction. */
  function Shift1(c: bv32): bv32 {
    if c & 1 == 1 then (c >> 1) ^ POLY else c >> 1
  }

  /** Words are polynomials over GF(2); this is their sum. */
  function Add(a: bv32, b: bv32): bv32 {
    a ^ b
  }

  function Bit(b: bool): bv32 {
    if b then 1 else 0
  }

  function Shift(c: bv32, n: nat): bv32
    decreases n
  {
    if n == 0 then c else Shift(Shift1(c), n - 1)
  }

  /** Absorbs a bit string, first bit first. */
  function FeedBits(c: bv32, bits: seq<bool>): bv32
    decreases |bits|
  {
    if bits == [] then c
    else FeedBits(Shift1(Add(c, Bit(bits[0]))), bits[1..])
  }

  /** The bits of a byte in transmission order: least significant first. */
  function ByteBits(b: bv8): (bits: seq<bool>)
    ensures |bits| == 8
  {
    [b & 1 != 0, b & 2 != 0, b & 4 != 0, b & 8 != 0,
     b & 16 != 0, b & 32 != 0, b & 64 != 0, b & 128 != 0]
  }

  function Bits(s: seq<bv8>): (bits: seq<bool>)
    ensures |bits| == 8 * |s|
  {
    if s == [] then [] else ByteBits(s[0]) + Bits(s[1..])
  }

  function Complement(c: bv32): bv32 {
    c ^ 0xFFFFFFFF
  }

  /** The CRC of `s` continued from the finished checksum `crc`, bit by bit. */
  function Crc32Inc(s: seq<bv8>, crc: bv32): bv32 {
    Complement(FeedBits(Complement(crc), Bits(s)))
  }

  function Crc32(s: seq<bv8>): bv32 {
    Crc32Inc(s, 0)
  }

  // ----- The table -----

  const ROW_0: seq<bv32> := [
    0x00000000, 0x77073096, 0xee0e612c, 0x990951ba, 0x076dc419, 0x706af48f, 0xe963a535, 0x9e6495a3,
    0x0edb8832, 0x79dcb8a4, 0xe0d5e91e, 0x97d2d988, 0x09b64c2b, 0x7eb17cbd, 0xe7b82d07, 0x90bf1d91
  ]
  const ROW_1: seq<bv32> := [
    0x1db71064, 0x6ab020f2, 0xf3b97148, 0x84be41de, 0x1adad47d, 0x6ddde4eb, 0xf4d4b551, 0x83d385c7,
    0x136c9856, 0x646ba8c0, 0xfd62f97a, 0x8a65c9ec, 0x14015c4f, 0x63066cd9, 0xfa0f3d63, 0x8d080df5
  ]
  const ROW_2: seq<bv32> := [
    0x3b6e20c8, 0x4c69105e, 0xd56041e4, 0xa2677172, 0x3c03e4d1, 0x4b04d447, 0xd20d85fd, 0xa50ab56b,
    0x35b5a8fa, 0x42b2986c, 0xdbbbc9d6, 0xacbcf940, 0x32d86ce3, 0x45df5c75, 0xdcd60dcf, 0xabd13d59
  ]
  const ROW_3: seq<bv32> := [
    0x26d930ac, 0x51de003a, 0xc8d75180, 0xbfd06116, 0x21b4f4b5, 0x56b3c423, 0xcfba9599, 0xb8bda50f,
    0x2802b89e, 0x5f058808, 0xc60cd9b2, 0xb10be924, 0x2f6f7c87, 0x58684c11, 0xc1611dab, 0xb6662d3d
  ]
  const ROW_4: seq<bv32> := [
    0x76dc4190, 0x01db7106, 0x98d220bc, 0xefd5102a, 0x71b18589, 0x06b6b51f, 0x9fbfe4a5, 0xe8b8d433,
    0x7807c9a2, 0x0f00f934, 0x9609a88e, 0xe10e9818, 0x7f6a0dbb, 0x086d3d2d, 0x91646c97, 0xe6635c01
  ]
  const ROW_5: seq<bv32> := [
    0x6b6b51f4, 0x1c6c6162, 0x856530d8, 0xf262004e, 0x6c0695ed, 0x1b01a57b, 0x8208f4c1, 0xf50fc457,
    0x65b0d9c6, 0x12b7e950, 0x8bbeb8ea, 0xfcb9887c, 0x62dd1ddf, 0x15da2d49, 0x8cd37cf3, 0xfbd44c65
  ]
  const ROW_6: seq<bv32> := [
    0x4db26158, 0x3ab551ce, 0xa3bc0074, 0xd4bb30e2, 0x4adfa541, 0x3dd895d7, 0xa4d1c46d, 0xd3d6f4fb,
    0x4369e96a, 0x346ed9fc, 0xad678846, 0xda60b8d0, 0x44042d73, 0x33031de5, 0xaa0a4c5f, 0xdd0d7cc9
  ]
  const ROW_7: seq<bv32> := [
    0x5005713c, 0x270241aa, 0xbe0b1010, 0xc90c2086, 0x5768b525, 0x206f85b3, 0xb966d409, 0xce61e49f,
    0x5edef90e, 0x29d9c998, 0xb0d09822, 0xc7d7a8b4, 0x59b33d17, 0x2eb40d81, 0xb7bd5c3b, 0xc0ba6cad
  ]
  const ROW_8: seq<bv32> := [
    0xedb88320, 0x9abfb3b6, 0x03b6e20c, 0x74b1d29a, 0xead54739, 0x9dd277af, 0x04db2615, 0x73dc1683,
    0xe3630b12, 0x94643b84, 0x0d6d6a3e, 0x7a6a5aa8, 0xe40ecf0b, 0x9309ff9d, 0x0a00ae27, 0x7d079eb1
  ]
  const ROW_9: seq<bv32> := [
    0xf00f9344, 0x8708a3d2, 0x1e01f268, 0x6906c2fe, 0xf762575d, 0x806567cb, 0x196c3671, 0x6e6b06e7,
    0xfed41b76, 0x89d32be0, 0x10da7a5a, 0x67dd4acc, 0xf9b9df6f, 0x8ebeeff9, 0x17b7be43, 0x60b08ed5
  ]
  const ROW_A: seq<bv32> := [
    0xd6d6a3e8, 0xa1d1937e, 0x38d8c2c4, 0x4fdff252, 0xd1bb67f1, 0xa6bc5767, 0x3fb506dd, 0x48b2364b,
    0xd80d2bda, 0xaf0a1b4c, 0x36034af6, 0x41047a60, 0xdf60efc3, 0xa867df55, 0x316e8eef, 0x4669be79
  ]
  const ROW_B: seq<bv32> := [
    0xcb61b38c, 0xbc66831a, 0x256fd2a0, 0x5268e236, 0xcc0c7795, 0xbb0b4703, 0x220216b9, 0x5505262f,
    0xc5ba3bbe, 0xb2bd0b28, 0x2bb45a92, 0x5cb36a04, 0xc2d7ffa7, 0xb5d0cf31, 0x2cd99e8b, 0x5bdeae1d
  ]
  const ROW_C: seq<bv32> := [
    0x9b64c2b0, 0xec63f226, 0x756aa39c, 0x026d930a, 0x9c0906a9, 0xeb0e363f, 0x72076785, 0x05005713,
    0x95bf4a82, 0xe2b87a14, 0x7bb12bae, 0x0cb61b38, 0x92d28e9b, 0xe5d5be0d, 0x7cdcefb7, 0x0bdbdf21
  ]
  const ROW_D: seq<bv32> := [
    0x86d3d2d4, 0xf1d4e242, 0x68ddb3f8, 0x1fda836e, 0x81be16cd, 0xf6b9265b, 0x6fb077e1, 0x18b74777,
    0x88085ae6, 0xff0f6a70, 0x66063bca, 0x11010b5c, 0x8f659eff, 0xf862ae69, 0x616bffd3, 0x166ccf45
  ]
  const ROW_E: seq<bv32> := [
    0xa00ae278, 0xd70dd2ee, 0x4e048354, 0x3903b3c2, 0xa7672661, 0xd06016f7, 0x4969474d, 0x3e6e77db,
    0xaed16a4a, 0xd9d65adc, 0x40df0b66, 0x37d83bf0, 0xa9bcae53, 0xdebb9ec5, 0x47b2cf7f, 0x30b5ffe9
  ]
  const ROW_F: seq<bv32> := [
    0xbdbdf21c, 0xcabac28a, 0x53b39330, 0x24b4a3a6, 0xbad03605, 0xcdd70693, 0x54de5729, 0x23d967bf,
    0xb3667a2e, 0xc4614ab8, 0x5d681b02, 0x2a6f2b94, 0xb40bbe37, 0xc30c8ea1, 0x5a05df1b, 0x2d02ef8d
  ]

  /** crc32_tab, cut into sixteen rows. */
  const CRC32_TAB: seq<bv32> :=
    ROW_0 + ROW_1 + ROW_2 + ROW_3 + ROW_4 + ROW_5 + ROW_6 + ROW_7
    + ROW_8 + ROW_9 + ROW_A + ROW_B + ROW_C + ROW_D + ROW_E + ROW_F

  // ----- The program -----

  function Low(y: bv32): bv32 {
    y & 0xFF
  }

  function High(y: bv32): bv32 {
    y >> 8
  }

  /** The loop body: crc32_tab[(crc ^ *p++) & 0xFF] ^ (crc >> 8). */
  function TableStep(c: bv32, b: bv8): bv32 {
    Add(CRC32_TAB[Low(Add(c, b as bv32)) as int], High(c))
  }

  /** The program's loop computes the bit-at-a-time CRC, for every start value. */
  method OurCrc32Inc(buf: array<bv8>, size: nat, crc0: bv32) returns (r: bv32)
    requires size <= buf.Length
    ensures r == Crc32Inc(buf[..size], crc0)
  {
    var crc, p, left := crc0 ^ 0xFFFFFFFF, 0, size;
    while left != 0
      invariant left + p == size
      invariant FeedBits(crc, Bits(buf[p..size])) == FeedBits(Complement(crc0), Bits(buf[..size]))
    {
      left := left - 1;
      FeedByte(crc, buf[p], buf[p + 1..size]);
      assert buf[p..size] == [buf[p]] + buf[p + 1..size];
      crc := TableStep(crc, buf[p]);
      p := p + 1;
    }
    return crc ^ 0xFFFFFFFF;
  }

  method OurCrc32(buf: array<bv8>, size: nat) returns (r: bv32)
    requires size <= buf.Length
    ensures r == Crc32(buf[..size])
  {
    r := OurCrc32Inc(buf, size, 0);
  }

  // ----- The table holds the remainders of all byte values -----

  /** Eight division steps. */
  function Shift8(c: bv32): bv32 {
    Shift1(Shift1(Shift1(Shift1(Shift1(Shift1(Shift1(Shift1(c))))))))
  }

  lemma TableRow0(x: bv8)
    requires x >> 4 == 0
    ensures CRC32_TAB[x as int] == Shift8(x as bv32)
  {
    assert CRC32_TAB[x as int] == ROW_0[x as int - 0];
  }

  lemma TableRow1(x: bv8)
    requires x >> 4 == 1
    ensures CRC32_TAB[x as int] == Shift8(x as bv32)
  {
    assert CRC32_TAB[x as int] == ROW_1[x as int - 16];
  }

  lemma TableRow2(x: bv8)
    requires x >> 4 == 2
    ensures CRC32_TAB[x as int] == Shift8(x as bv32)
  {
    assert CRC32_TAB[x as int] == ROW_2[x as int - 32];
  }

  lemma TableRow3(x: bv8)
    requires x >> 4 == 3
    ensures CRC32_TAB[x as int] == Shift8(x as bv32)
  {
    assert CRC32_TAB[x as int] == ROW_3[x as int - 48];
  }

  lemma TableRow4(x: bv8)
    requires x >> 4 == 4
    ensures CRC32_TAB[x as int] == Shift8(x as bv32)
  {
    assert CRC32_TAB[x as int] == ROW_4[x as int - 64];
  }

  lemma TableRow5(x: bv8)
    requires x >> 4 == 5
    ensures CRC32_TAB[x as int] == Shift8(x as bv32)
  {
    assert CRC32_TAB[x as int] == ROW_5[x as int - 80];
  }

  lemma TableRow6(x: bv8)
    requires x >> 4 == 6
    ensures CRC32_TAB[x as int] == Shift8(x as bv32)
  {
    assert CRC32_TAB[x as int] == ROW_6[x as int - 96];
  }

  lemma TableRow7(x: bv8)
    requires x >> 4 == 7
    ensures CRC32_TAB[x as int] == Shift8(x as bv32)
  {
    assert CRC32_TAB[x as int] == ROW_7[x as int - 112];
  }

  lemma TableRow8(x: bv8)
    requires x >> 4 == 8
    ensures CRC32_TAB[x as int] == Shift8(x as bv32)
  {
    assert CRC32_TAB[x as int] == ROW_8[x as int - 128];
  }

  lemma TableRow9(x: bv8)
    requires x >> 4 == 9
    ensures CRC32_TAB[x as int] == Shift8(x as bv32)
  {
    assert CRC32_TAB[x as int] == ROW_9[x as int - 144];
  }

  lemma TableRowA(x: bv8)
    requires x >> 4 == 10
    ensures CRC32_TAB[x as int] == Shift8(x as bv32)
  {
    assert CRC32_TAB[x as int] == ROW_A[x as int - 160];
  }

  lemma TableRowB(x: bv8)
    requires x >> 4 == 11
    ensures CRC32_TAB[x as int] == Shift8(x as bv32)
  {
    assert CRC32_TAB[x as int] == ROW_B[x as int - 176];
  }

  lemma TableRowC(x: bv8)
    requires x >> 4 == 12
    ensures CRC32_TAB[x as int] == Shift8(x as bv32)
  {
    assert CRC32_TAB[x as int] == ROW_C[x as int - 192];
  }

  lemma TableRowD(x: bv8)
    requires x >> 4 == 13
    ensures CRC32_TAB[x as int] == Shift8(x as bv32)
  {
    assert CRC32_TAB[x as int] == ROW_D[x as int - 208];
  }

  lemma TableRowE(x: bv8)
    requires x >> 4 == 14
    ensures CRC32_TAB[x as int] == Shift8(x as bv32)
  {
    assert CRC32_TAB[x as int] == ROW_E[x as int - 224];
  }

  lemma TableRowFLower(x: bv8)
    requires x >> 3 == 30
    ensures CRC32_TAB[x as int] == Shift8(x as bv32)
  {
    assert CRC32_TAB[x as int] == ROW_F[x as int - 240];
    assert x == 240 || x == 241 || x == 242 || x == 243 || x == 244 || x == 245 || x == 246 || x == 247;
  }

  lemma TableRowFUpper(x: bv8)
    requires x >> 3 == 31
    ensures CRC32_TAB[x as int] == Shift8(x as bv32)
  {
    assert CRC32_TAB[x as int] == ROW_F[x as int - 240];
    assert x == 248 || x == 249 || x == 250 || x == 251 || x == 252 || x == 253 || x == 254 || x == 255;
  }

  /** Every entry of the table is the remainder the bit-at-a-time form computes. */
  lemma TableIsShift8(x: bv8)
    ensures CRC32_TAB[x as int] == Shift8(x as bv32)
  {
    hide Shift8;
    var row := x >> 4;
    if row == 0 {
      TableRow0(x);
    } else if row == 1 {
      TableRow1(x);
    } else if row == 2 {
      TableRow2(x);
    } else if row == 3 {
      TableRow3(x);
    } else if row == 4 {
      TableRow4(x);
    } else if row == 5 {
      TableRow5(x);
    } else if row == 6 {
      TableRow6(x);
    } else if row == 7 {
      TableRow7(x);
    } else if row == 8 {
      TableRow8(x);
    } else if row == 9 {
      TableRow9(x);
    } else if row == 10 {
      TableRowA(x);
    } else if row == 11 {
      TableRowB(x);
    } else if row == 12 {
      TableRowC(x);
    } else if row == 13 {
      TableRowD(x);
    } else if row == 14 {
      TableRowE(x);
    } else if x >> 3 == 30 {
      TableRowFLower(x);
    } else {
      TableRowFUpper(x);
    }
  }

  // ----- Linearity of the division step -----

  predicate Odd(c: bv32) {
    c & 1 == 1
  }

  function Half(m: bv32): bv32 {
    m >> 1
  }

  lemma Shift1Cases(c: bv32)
    ensures Shift1(c) == if Odd(c) then Add(Half(c), POLY) else Half(c)
  {
  }

  lemma OddAdd(x: bv32, y: bv32)
    ensures Odd(Add(x, y)) <==> Odd(x) != Odd(y)
  {
    assert (x ^ y) & 1 == (x & 1) ^ (y & 1);
    assert (x & 1 == 0 || x & 1 == 1) && (y & 1 == 0 || y & 1 == 1);
  }

  lemma HalfAdd(x: bv32, y: bv32)
    ensures Half(Add(x, y)) == Add(Half(x), Half(y))
  {
  }

  lemma AddAssociates(a: bv32, b: bv32, p: bv32)
    ensures Add(Add(a, b), p) == Add(a, Add(b, p))
  {
  }

  lemma AddCommutes(a: bv32, b: bv32)
    ensures Add(a, b) == Add(b, a)
  {
  }

  lemma AddZero(a: bv32)
    ensures Add(a, 0) == a
    ensures Add(a, a) == 0
  {
  }

  lemma AddLaws(a: bv32, b: bv32, p: bv32)
    ensures Add(Add(a, p), Add(b, p)) == Add(a, b)
    ensures Add(Add(a, b), p) == Add(Add(a, p), b)
    ensures Add(Add(a, b), p) == Add(a, Add(b, p))
  {
    hide *;
    AddAssociates(a, b, p);
    AddAssociates(a, p, b);
    AddCommutes(b, p);
    AddAssociates(a, p, Add(b, p));
    AddCommutes(p, Add(b, p));
    AddAssociates(b, p, p);
    AddZero(p);
    AddZero(b);
  }

  lemma AddCancels(a: bv32, b: bv32, p: bv32)
    requires Add(a, p) == Add(b, p)
    ensures a == b
  {
    assert (a ^ p) ^ p == a && (b ^ p) ^ p == b;
  }

  lemma Shift1Linear(x: bv32, y: bv32)
    ensures Shift1(Add(x, y)) == Add(Shift1(x), Shift1(y))
  {
    hide *;
    Shift1Cases(x);
    Shift1Cases(y);
    Shift1Cases(Add(x, y));
    OddAdd(x, y);
    HalfAdd(x, y);
    AddLaws(Half(x), Half(y), POLY);
  }

  lemma {:induction false} ShiftLinear(x: bv32, y: bv32, n: nat)
    ensures Shift(Add(x, y), n) == Add(Shift(x, n), Shift(y, n))
    decreases n
  {
    hide Shift1, Add;
    if n > 0 {
      Shift1Linear(x, y);
      ShiftLinear(Shift1(x), Shift1(y), n - 1);
    }
  }

  /** A division step loses nothing: the polynomial's top bit remembers the bit shifted out. */
  lemma Shift1Injective(x: bv32, y: bv32)
    requires Shift1(x) == Shift1(y)
    ensures x == y
  {
  }

  lemma {:induction false} ShiftInjective(x: bv32, y: bv32, n: nat)
    requires Shift(x, n) == Shift(y, n)
    ensures x == y
    decreases n
  {
    hide Shift1;
    if n > 0 {
      ShiftInjective(Shift1(x), Shift1(y), n - 1);
      Shift1Injective(x, y);
    }
  }

  // ----- Up to 32 message bits act as one word -----

  function TimesX(p: bv32): bv32 {
    p << 1
  }

  function Pack(w: seq<bool>): bv32 {
    if w == [] then 0 else Add(Bit(w[0]), TimesX(Pack(w[1..])))
  }

  lemma EvenStep(p: bv32)
    requires p < 0x8000_0000
    ensures Shift1(TimesX(p)) == p
  {
  }

  /** A bit that is not at the bottom passes through the step unchanged. */
  lemma Shift1HighBits(c: bv32, p: bv32)
    requires p < 0x8000_0000
    ensures Shift1(Add(c, TimesX(p))) == Add(Shift1(c), p)
  {
    hide *;
    Shift1Linear(c, TimesX(p));
    EvenStep(p);
  }

  /** 2^n, read down from the top bit of the word. */
  function Limit(n: nat): bv32
    requires n <= 31
    decreases 31 - n
  {
    if n == 31 then 0x8000_0000 else Half(Limit(n + 1))
  }

  predicate Below(p: bv32, m: bv32) {
    p < m <= 0x8000_0000
  }

  lemma {:induction false} LimitFits(n: nat)
    requires n <= 31
    ensures Limit(n) <= 0x8000_0000
    ensures Below(0, Limit(0))
    decreases 31 - n
  {
    if n < 31 {
      LimitFits(n + 1);
    }
    assert Limit(26) == 0x400_0000;
    assert Limit(21) == 0x20_0000;
    assert Limit(16) == 0x1_0000;
    assert Limit(11) == 0x800;
    assert Limit(6) == 0x40;
    assert Limit(1) == 2;
  }

  lemma LimitHalves(n: nat)
    requires n < 31
    ensures Limit(n) == Half(Limit(n + 1))
    ensures Limit(n + 1) <= 0x8000_0000
  {
    LimitFits(n + 1);
  }

  lemma PackStep(p: bv32, b: bool, m: bv32)
    requires m <= 0x8000_0000
    requires Below(p, Half(m))
    ensures Below(Add(Bit(b), TimesX(p)), m)
  {
  }

  lemma UnpackStep(p: bv32, b: bool, q: bv32, c: bool)
    requires p < 0x8000_0000 && q < 0x8000_0000
    requires Add(Bit(b), TimesX(p)) == Add(Bit(c), TimesX(q))
    ensures b == c && p == q
  {
  }

  lemma {:induction false} PackFits(w: seq<bool>)
    requires |w| <= 31
    ensures Below(Pack(w), Limit(|w|))
  {
    hide Add, TimesX, Half, Bit, Limit, Below;
    LimitFits(|w|);
    if w != [] {
      PackFits(w[1..]);
      LimitHalves(|w| - 1);
      PackStep(Pack(w[1..]), w[0], Limit(|w|));
    }
  }

  lemma {:induction false} PackInjective(v: seq<bool>, w: seq<bool>)
    requires |v| == |w| <= 32
    requires Pack(v) == Pack(w)
    ensures v == w
  {
    hide Add, TimesX, Bit;
    if v != [] {
      PackFits(v[1..]);
      PackFits(w[1..]);
      UnpackStep(Pack(v[1..]), v[0], Pack(w[1..]), w[0]);
      PackInjective(v[1..], w[1..]);
      assert v == [v[0]] + v[1..] && w == [w[0]] + w[1..];
    }
  }

  /** Feeding at most 32 bits is adding them as one word and dividing afterwards. */
  lemma {:induction false} FeedIsShift(c: bv32, w: seq<bool>)
    requires |w| <= 32
    ensures FeedBits(c, w) == Shift(Add(c, Pack(w)), |w|)
    decreases |w|
  {
    hide Shift1, Add, TimesX, Bit;
    if w == [] {
      AddZero(c);
    } else {
      var b, p := Bit(w[0]), Pack(w[1..]);
      PackFits(w[1..]);
      FeedIsShift(Shift1(Add(c, b)), w[1..]);
      Shift1HighBits(Add(c, b), p);
      AddAssociates(c, b, TimesX(p));
    }
  }

  // ----- The table form refines the bit form -----

  lemma PackPair(w: seq<bool>)
    requires |w| >= 2
    ensures Pack(w) == Add(Bit(w[0]), TimesX(Add(Bit(w[1]), TimesX(Pack(w[2..])))))
  {
    hide Add, TimesX, Bit;
    assert w[1..][1..] == w[2..];
  }

  lemma PackByte(b: bv8)
    ensures Pack(ByteBits(b)) == b as bv32
  {
    var w := ByteBits(b);
    ByteAsWord(b, w);
    hide *;
    PackPair(w);
    PackPair(w[2..]);
    assert w[2..][2..] == w[4..];
    PackPair(w[4..]);
    assert w[4..][2..] == w[6..];
    PackPair(w[6..]);
    assert w[6..][2..] == [];
    PackEmpty();
  }

  lemma PackEmpty()
    ensures Pack([]) == 0
  {
  }

  lemma ByteAsWord(b: bv8, w: seq<bool>)
    requires w == ByteBits(b)
    ensures b as bv32 == Add(Bit(w[0]), TimesX(Add(Bit(w[1]), TimesX(Add(Bit(w[2]), TimesX(Add(Bit(w[3]), TimesX(
                         Add(Bit(w[4]), TimesX(Add(Bit(w[5]), TimesX(Add(Bit(w[6]), TimesX(Add(Bit(w[7]), TimesX(0))))))))))))))))
  {
  }

  lemma {:induction false} FeedAppend(c: bv32, v: seq<bool>, w: seq<bool>)
    ensures FeedBits(c, v + w) == FeedBits(FeedBits(c, v), w)
    decreases |v|
  {
    hide Shift1, Add;
    if v == [] {
      assert v + w == w;
    } else {
      FeedAppend(Shift1(Add(c, Bit(v[0]))), v[1..], w);
      assert (v + w)[1..] == v[1..] + w;
    }
  }

  lemma Shift8Unrolls(c: bv32)
    ensures Shift(c, 8) == Shift8(c)
  {
    hide Shift1;
    var c4 := Shift1(Shift1(Shift1(Shift1(c))));
    assert Shift(c, 8) == Shift(Shift1(Shift1(c)), 6) == Shift(c4, 4);
    assert Shift(c4, 4) == Shift(Shift1(Shift1(c4)), 2);
  }

  function TimesX8(p: bv32): bv32 {
    TimesX(TimesX(TimesX(TimesX(TimesX(TimesX(TimesX(TimesX(p))))))))
  }

  /** Bits above the low byte only move down during eight division steps. */
  lemma Shift8HighBits(h: bv32)
    requires h < 0x100_0000
    ensures Shift8(TimesX8(h)) == h
  {
    var h1, h2, h3 := TimesX(h), TimesX(TimesX(h)), TimesX(TimesX(TimesX(h)));
    var h4 := TimesX(h3);
    var h5, h6, h7 := TimesX(h4), TimesX(TimesX(h4)), TimesX(TimesX(TimesX(h4)));
    assert h7 < 0x8000_0000 && h6 < 0x8000_0000 && h5 < 0x8000_0000 && h4 < 0x8000_0000
        && h3 < 0x8000_0000 && h2 < 0x8000_0000 && h1 < 0x8000_0000;
    hide Shift1, TimesX;
    EvenStep(h7);
    EvenStep(h6);
    EvenStep(h5);
    EvenStep(h4);
    EvenStep(h3);
    EvenStep(h2);
    EvenStep(h1);
    EvenStep(h);
  }

  lemma LowByte(y: bv32)
    ensures Low(y) == (Low(y) as bv8) as bv32
    ensures Low(y) as int == (Low(y) as bv8) as int
  {
  }

  lemma LookUp(y: bv32)
    ensures CRC32_TAB[Low(y) as int] == Shift8(Low(y))
  {
    LowByte(y);
    TableIsShift8(Low(y) as bv8);
    hide *;
  }

  lemma TableStepIsShift8(c: bv32, b: bv8)
    ensures TableStep(c, b) == Add(Shift8(Low(Add(c, b as bv32))), High(c))
  {
    hide Shift8, Add, Low, High;
    LookUp(Add(c, b as bv32));
  }

  lemma SplitWord(c: bv32, b: bv8)
    ensures Add(c, b as bv32) == Add(Low(Add(c, b as bv32)), TimesX8(High(c)))
    ensures High(c) < 0x100_0000
  {
  }

  /** One table look-up does the work of eight division steps. */
  lemma TableStepIsByte(c: bv32, b: bv8)
    ensures TableStep(c, b) == FeedBits(c, ByteBits(b))
  {
    hide *;
    var lo, hi := Low(Add(c, b as bv32)), High(c);
    TableStepIsShift8(c, b);
    SplitWord(c, b);
    PackByte(b);
    FeedIsShift(c, ByteBits(b));
    ShiftLinear(lo, TimesX8(hi), 8);
    Shift8Unrolls(lo);
    Shift8Unrolls(TimesX8(hi));
    Shift8HighBits(hi);
  }

  lemma FeedByte(c: bv32, b: bv8, rest: seq<bv8>)
    ensures FeedBits(c, Bits([b] + rest)) == FeedBits(TableStep(c, b), Bits(rest))
  {
    hide TableStep, ByteBits, FeedBits;
    assert ([b] + rest)[1..] == rest;
    FeedAppend(c, ByteBits(b), Bits(rest));
    TableStepIsByte(c, b);
  }

  lemma {:induction false} BitsAppend(a: seq<bv8>, b: seq<bv8>)
    ensures Bits(a + b) == Bits(a) + Bits(b)
  {
    if a == [] {
      assert a + b == b;
    } else {
      assert (a + b)[1..] == a[1..] + b;
      BitsAppend(a[1..], b);
    }
  }

  /** Checksumming in pieces: continuing from the checksum of `a` gives the checksum of `a + b`. */
  lemma IncrementalCrc(a: seq<bv8>, b: seq<bv8>, start: bv32)
    ensures Crc32Inc(b, Crc32Inc(a, start)) == Crc32Inc(a + b, start)
  {
    hide FeedBits, Complement;
    BitsAppend(a, b);
    FeedAppend(Complement(start), Bits(a), Bits(b));
    DoubleComplement(FeedBits(Complement(start), Bits(a)));
  }

  lemma DoubleComplement(c: bv32)
    ensures Complement(Complement(c)) == c
  {
  }

  // ----- Error detection -----

  /** Equal bits keep different states different. */
  lemma {:induction false} FeedInjective(c: bv32, d: bv32, w: seq<bool>)
    requires FeedBits(c, w) == FeedBits(d, w)
    ensures c == d
    decreases |w|
  {
    hide Shift1, Add, Bit;
    if w != [] {
      var b := Bit(w[0]);
      FeedInjective(Shift1(Add(c, b)), Shift1(Add(d, b)), w[1..]);
      Shift1Injective(Add(c, b), Add(d, b));
      AddCancels(c, d, b);
    }
  }

  /** Different words of at most 32 bits drive one state into different states. */
  lemma WindowInjective(c: bv32, v: seq<bool>, w: seq<bool>)
    requires |v| == |w| <= 32
    requires FeedBits(c, v) == FeedBits(c, w)
    ensures v == w
  {
    hide FeedBits, Shift, Add, Pack;
    FeedIsShift(c, v);
    FeedIsShift(c, w);
    ShiftInjective(Add(c, Pack(v)), Add(c, Pack(w)), |v|);
    AddCommutes(c, Pack(v));
    AddCommutes(c, Pack(w));
    AddCancels(Pack(v), Pack(w), c);
    PackInjective(v, w);
  }

  /** A burst: the two bit strings agree everywhere outside the window [lo, hi). */
  ghost predicate AgreeOutside(v: seq<bool>, w: seq<bool>, lo: nat, hi: nat)
    requires |v| == |w|
  {
    forall i | 0 <= i < |v| && !(lo <= i < hi) :: v[i] == w[i]
  }

  lemma BurstInBits(c: bv32, v: seq<bool>, w: seq<bool>, lo: nat)
    requires |v| == |w|
    requires AgreeOutside(v, w, lo, lo + 32)
    requires FeedBits(c, v) == FeedBits(c, w)
    ensures v == w
  {
    hide FeedBits;
    var p := if lo <= |v| then lo else |v|;
    var q := if p + 32 <= |v| then p + 32 else |v|;
    assert v == v[..p] + (v[p..q] + v[q..]);
    assert w == v[..p] + (w[p..q] + v[q..]);
    FeedAppend(c, v[..p], v[p..q] + v[q..]);
    FeedAppend(c, v[..p], w[p..q] + v[q..]);
    var d := FeedBits(c, v[..p]);
    FeedAppend(d, v[p..q], v[q..]);
    FeedAppend(d, w[p..q], v[q..]);
    FeedInjective(FeedBits(d, v[p..q]), FeedBits(d, w[p..q]), v[q..]);
    WindowInjective(d, v[p..q], w[p..q]);
  }

  lemma ByteBitsInjective(x: bv8, y: bv8)
    requires ByteBits(x) == ByteBits(y)
    ensures x == y
  {
    var v, w := ByteBits(x), ByteBits(y);
    assert forall i | 0 <= i < 8 :: v[i] == w[i];
    assert v[0] == w[0] && v[1] == w[1] && v[2] == w[2] && v[3] == w[3];
    assert v[4] == w[4] && v[5] == w[5] && v[6] == w[6] && v[7] == w[7];
  }

  lemma {:induction false} BitsInjective(a: seq<bv8>, b: seq<bv8>)
    requires |a| == |b|
    requires Bits(a) == Bits(b)
    ensures a == b
  {
    hide ByteBits;
    if a != [] {
      assert ByteBits(a[0]) == Bits(a)[..8] && ByteBits(b[0]) == Bits(b)[..8];
      assert Bits(a[1..]) == Bits(a)[8..] && Bits(b[1..]) == Bits(b)[8..];
      ByteBitsInjective(a[0], b[0]);
      BitsInjective(a[1..], b[1..]);
      assert a == [a[0]] + a[1..] && b == [b[0]] + b[1..];
    }
  }

  /**
   * Every burst of at most 32 bits is detected: two different buffers of one
   * length whose bits differ only inside a 32-bit window, at any bit offset and
   * with any common prefix and suffix, have different checksums.
   */
  lemma BurstDetected(a: seq<bv8>, b: seq<bv8>, lo: nat)
    requires |a| == |b| && a != b
    requires AgreeOutside(Bits(a), Bits(b), lo, lo + 32)
    ensures Crc32(a) != Crc32(b)
  {
    hide FeedBits, Bits, Complement;
    var c := Complement(0);
    if Crc32(a) == Crc32(b) {
      DoubleComplement(FeedBits(c, Bits(a)));
      DoubleComplement(FeedBits(c, Bits(b)));
      BurstInBits(c, Bits(a), Bits(b), lo);
      BitsInjective(a, b);
      assert false;
    }
  }

  lemma {:induction false} BitsAt(s: seq<bv8>, i: nat)
    requires i < 8 * |s|
    ensures Bits(s)[i] == ByteBits(s[i / 8])[i % 8]
  {
    hide ByteBits;
    if i >= 8 {
      BitsAt(s[1..], i - 8);
      assert s[1..][(i - 8) / 8] == s[i / 8];
    }
  }

  /** The same promise in bytes: any change confined to four consecutive bytes is detected. */
  lemma ByteBurstDetected(pre: seq<bv8>, x: seq<bv8>, y: seq<bv8>, post: seq<bv8>)
    requires |x| == |y| <= 4 && x != y
    ensures Crc32(pre + x + post) != Crc32(pre + y + post)
  {
    hide Bits, Crc32;
    var a, b, n := pre + x + post, pre + y + post, |pre|;
    assert x == a[n..n + |x|] && y == b[n..n + |y|];
    forall i | 0 <= i < |Bits(a)| && !(8 * n <= i < 8 * n + 32)
      ensures Bits(a)[i] == Bits(b)[i]
    {
      BitsAt(a, i);
      BitsAt(b, i);
      assert a[i / 8] == b[i / 8];
    }
    BurstDetected(a, b, 8 * n);
  }

  lemma ByteStep(c: bv32, b: bv8, d: bv32, rest: seq<bv8>)
    requires Add(Shift8(Low(Add(c, b as bv32))), High(c)) == d
    ensures FeedBits(c, Bits([b] + rest)) == FeedBits(d, Bits(rest))
  {
    hide *;
    TableStepIsShift8(c, b);
    FeedByte(c, b, rest);
  }

  /** 32 bits is the limit: a 33-bit burst with the generator's own pattern goes unseen. */
  lemma LongerBurstMissed()
    ensures Crc32([0, 0, 0, 0, 0]) == Crc32([0x41, 0x06, 0x71, 0xDB, 0x01])
  {
    hide FeedBits;
    ByteStep(0xFFFFFFFF, 0x00, 0x2DFD1072, [0, 0, 0, 0]);
    ByteStep(0x2DFD1072, 0x00, 0xBE26ED00, [0, 0, 0]);
    ByteStep(0xBE26ED00, 0x00, 0xBE26ED, [0, 0]);
    ByteStep(0xBE26ED, 0x00, 0xDEBB20E3, [0]);
    ByteStep(0xDEBB20E3, 0x00, 0x39DD08E2, []);
    ByteStep(0xFFFFFFFF, 0x41, 0x2C266174, [0x06, 0x71, 0xDB, 0x01]);
    ByteStep(0x2C266174, 0x06, 0xBE273671, [0x71, 0xDB, 0x01]);
    ByteStep(0xBE273671, 0x71, 0xBE2736, [0xDB, 0x01]);
    ByteStep(0xBE2736, 0xDB, 0xDEBB20E2, [0x01]);
    ByteStep(0xDEBB20E2, 0x01, 0x39DD08E2, []);
  }

  // ----- What the two complements are for -----

  /** A leading zero byte changes every checksum: the register does not start at zero. */
  lemma LeadingZeroIsSeen(s: seq<bv8>)
    ensures Crc32([0] + s) != Crc32(s)
  {
    FeedByte(Complement(0), 0, s);
    StartMoves();
    hide *;
    if Crc32([0] + s) == Crc32(s) {
      SameChecksum([0] + s, s);
      FeedInjective(TableStep(Complement(0), 0), Complement(0), Bits(s));
    }
  }

  lemma StartMoves()
    ensures TableStep(Complement(0), 0) == 0x2DFD1072 != Complement(0)
  {
    TableStepIsShift8(Complement(0), 0);
    hide TableStep;
  }

  lemma SameChecksum(a: seq<bv8>, b: seq<bv8>)
    requires Crc32(a) == Crc32(b)
    ensures FeedBits(Complement(0), Bits(a)) == FeedBits(Complement(0), Bits(b))
  {
    hide FeedBits, Complement;
    DoubleComplement(FeedBits(Complement(0), Bits(a)));
    DoubleComplement(FeedBits(Complement(0), Bits(b)));
  }

  /** A word as it is sent: least significant byte first. */
  function LittleEndian(w: bv32): (s: seq<bv8>)
    ensures |s| == 4
  {
    [(w & 0xFF) as bv8, ((w >> 8) & 0xFF) as bv8, ((w >> 16) & 0xFF) as bv8, ((w >> 24) & 0xFF) as bv8]
  }

  function LastByte(w: bv32): bv8 {
    (w & 0xFF) as bv8
  }

  lemma BytesOfComplement(c: bv32)
    ensures LittleEndian(Complement(c)) == [LastByte(Complement(c)), LastByte(Complement(High(c))),
      LastByte(Complement(High(High(c)))), LastByte(Complement(High(High(High(c)))))]
    ensures High(High(High(High(c)))) == 0
  {
  }

  /** A byte of the complement cancels that byte of the register, whatever has been added to it. */
  lemma ComplementCancels(k: bv32, u: bv32)
    ensures Low(Add(Add(k, u), LastByte(Complement(u)) as bv32)) == Low(Complement(k))
    ensures High(Add(k, u)) == Add(High(k), High(u))
  {
  }

  lemma ResidueStep(k: bv32, u: bv32)
    ensures TableStep(Add(k, u), LastByte(Complement(u))) == Add(Add(Shift8(Low(Complement(k))), High(k)), High(u))
  {
    hide *;
    TableStepIsShift8(Add(k, u), LastByte(Complement(u)));
    ComplementCancels(k, u);
    AddAssociates(Shift8(Low(Complement(k))), High(k), High(u));
  }

  lemma ResidueConstants()
    ensures Add(Shift8(Low(Complement(0))), High(0)) == 0x2D02EF8D
    ensures Add(Shift8(Low(Complement(0x2D02EF8D))), High(0x2D02EF8D)) == 0xBE2612FF
    ensures Add(Shift8(Low(Complement(0xBE2612FF))), High(0xBE2612FF)) == 0x00BE2612
    ensures Add(Shift8(Low(Complement(0x00BE2612))), High(0x00BE2612)) == 0xDEBB20E3
    ensures Complement(0xDEBB20E3) == 0x2144DF1C
  {
  }

  /** Four more bytes, the complement of the register, leave a constant in it. */
  lemma ComplementFed(c: bv32)
    ensures FeedBits(c, Bits(LittleEndian(Complement(c)))) == 0xDEBB20E3
  {
    BytesOfComplement(c);
    ResidueConstants();
    AddZero(c);
    AddCommutes(0, c);
    AddZero(0xDEBB20E3);
    hide *;
    var u1, u2, u3 := High(c), High(High(c)), High(High(High(c)));
    var b0, b1, b2, b3 := LastByte(Complement(c)), LastByte(Complement(u1)), LastByte(Complement(u2)), LastByte(Complement(u3));
    ResidueStep(0, c);
    ResidueStep(0x2D02EF8D, u1);
    ResidueStep(0xBE2612FF, u2);
    ResidueStep(0x00BE2612, u3);
    FeedByte(c, b0, [b1, b2, b3]);
    assert [b0] + [b1, b2, b3] == [b0, b1, b2, b3];
    FeedByte(Add(0x2D02EF8D, u1), b1, [b2, b3]);
    assert [b1] + [b2, b3] == [b1, b2, b3];
    FeedByte(Add(0xBE2612FF, u2), b2, [b3]);
    assert [b2] + [b3] == [b2, b3];
    FeedByte(Add(0x00BE2612, u3), b3, []);
    assert [b3] + [] == [b3];
    FedNothing(0xDEBB20E3);
  }

  lemma FedNothing(c: bv32)
    ensures FeedBits(c, Bits([])) == c
  {
  }

  /** The residue: a message followed by its own checksum has one and the same checksum, whatever the message. */
  lemma ResidueIsConstant(s: seq<bv8>)
    ensures Crc32(s + LittleEndian(Crc32(s))) == 0x2144DF1C
  {
    ResidueConstants();
    hide FeedBits, Complement, LittleEndian, Bits;
    var c := FeedBits(Complement(0), Bits(s));
    BitsAppend(s, LittleEndian(Complement(c)));
    FeedAppend(Complement(0), Bits(s), Bits(LittleEndian(Complement(c))));
    ComplementFed(c);
  }

  lemma CheckStep(c: bv32, b: bv8)
    ensures TableStep(c, b) == Add(Shift8(Low(Add(c, b as bv32))), High(c))
  {
    hide *;
    TableStepIsShift8(c, b);
  }

  lemma CheckSteps()
    ensures TableStep(0xFFFFFFFF, 0x31) == 0x7C231048
    ensures TableStep(0x7C231048, 0x32) == 0xB0ACBB32
    ensures TableStep(0xB0ACBB32, 0x33) == 0x77B79C2D
    ensures TableStep(0x77B79C2D, 0x34) == 0x641C1F5C
    ensures TableStep(0x641C1F5C, 0x35) == 0x340AC5E3
    ensures TableStep(0x340AC5E3, 0x36) == 0xF68D2C9E
    ensures TableStep(0xF68D2C9E, 0x37) == 0xAFFC9660
    ensures TableStep(0xAFFC9660, 0x38) == 0x651F2550
    ensures TableStep(0x651F2550, 0x39) == 0x340BC6D9
  {
    CheckStep(0xFFFFFFFF, 0x31);
    CheckStep(0x7C231048, 0x32);
    CheckStep(0xB0ACBB32, 0x33);
    CheckStep(0x77B79C2D, 0x34);
    CheckStep(0x641C1F5C, 0x35);
    CheckStep(0x340AC5E3, 0x36);
    CheckStep(0xF68D2C9E, 0x37);
    CheckStep(0xAFFC9660, 0x38);
    CheckStep(0x651F2550, 0x39);
    hide TableStep;  }

  /** The loop of the program from a place in the buffer on. */
  function LoopFrom(c: bv32, m: seq<bv8>, i: nat): bv32
    requires i <= |m|
    decreases |m| - i
  {
    if i == |m| then c else LoopFrom(TableStep(c, m[i]), m, i + 1)
  }

  lemma {:induction false} LoopFeeds(c: bv32, m: seq<bv8>, i: nat)
    requires i <= |m|
    ensures FeedBits(c, Bits(m[i..])) == LoopFrom(c, m, i)
    decreases |m| - i
  {
    hide TableStep, FeedBits, Bits;
    if i < |m| {
      FeedByte(c, m[i], m[i + 1..]);
      assert [m[i]] + m[i + 1..] == m[i..];
      LoopFeeds(TableStep(c, m[i]), m, i + 1);
    } else {
      FedNothing(c);
    }
  }

  lemma LoopOnce(c: bv32, m: seq<bv8>, i: nat)
    requires i < |m|
    ensures LoopFrom(c, m, i) == LoopFrom(TableStep(c, m[i]), m, i + 1)
  {
  }

  lemma LoopEnds(c: bv32, m: seq<bv8>)
    ensures LoopFrom(c, m, |m|) == c
  {
  }

  lemma CheckedLoop(m: seq<bv8>)
    requires |m| == 9
    requires m[0] == 0x31 && m[1] == 0x32 && m[2] == 0x33 && m[3] == 0x34 && m[4] == 0x35
    requires m[5] == 0x36 && m[6] == 0x37 && m[7] == 0x38 && m[8] == 0x39
    ensures LoopFrom(0xFFFFFFFF, m, 0) == 0x340BC6D9
  {
    hide *;
    CheckSteps();
    LoopOnce(0xFFFFFFFF, m, 0);
    LoopOnce(0x7C231048, m, 1);
    LoopOnce(0xB0ACBB32, m, 2);
    LoopOnce(0x77B79C2D, m, 3);
    LoopOnce(0x641C1F5C, m, 4);
    LoopOnce(0x340AC5E3, m, 5);
    LoopOnce(0xF68D2C9E, m, 6);
    LoopOnce(0xAFFC9660, m, 7);
    LoopOnce(0x651F2550, m, 8);
    LoopEnds(0x340BC6D9, m);
  }

  /** The check value of this CRC: the nine digits "123456789" give 0xCBF43926. */
  lemma CheckValue()
    ensures Crc32([0x31, 0x32, 0x33, 0x34, 0x35, 0x36, 0x37, 0x38, 0x39]) == 0xCBF43926
  {
    assert Complement(0) == 0xFFFFFFFF && Complement(0x340BC6D9) == 0xCBF43926;
    hide TableStep, Bits, FeedBits, Complement, LoopFrom;
    var m: seq<bv8> := [0x31, 0x32, 0x33, 0x34, 0x35, 0x36, 0x37, 0x38, 0x39];
    assert m[0..] == m;
    CheckedLoop(m);
    LoopFeeds(0xFFFFFFFF, m, 0);
  }
}
