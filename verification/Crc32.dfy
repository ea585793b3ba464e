// The table-driven CRC-32 and the bit-at-a-time CRC-32 of section 8 of RFC 1952.
module Checksum {

  datatype Result = Ok(crc: bv32) | OutOfRange

  const MAX_UINT64 := 0xFFFF_FFFF_FFFF_FFFF

  // ---------- the definition ----------

  const POLYNOMIAL: bv32 := 0xEDB8_8320

  // The operations on words have names of their own, so that most proofs need not look into bits.
  function Xor(a: bv32, b: bv32): bv32 {
    a ^ b
  }

  function Half(a: bv32): bv32 {
    a >> 1
  }

  function Low(a: bv32): bv32 {
    a & 1
  }

  function Word(byte: bv8): bv32 {
    byte as bv32
  }

  // One bit through the reflected shift register.
  function Bit(c: bv32): bv32 {
    if Low(c) == 1 then Xor(POLYNOMIAL, Half(c)) else Half(c)
  }

  function Step8(c: bv32): bv32 {
    Bit(Bit(Bit(Bit(Bit(Bit(Bit(Bit(c))))))))
  }

  // One bit of data into the register.
  function Feed(c: bv32, bit: bv32): bv32 {
    Bit(Xor(c, bit))
  }

  // The lowest n bits of a byte into the register, lowest first.
  function FeedBits(n: nat, c: bv32, bits: bv32): bv32 {
    if n == 0 then c else FeedBits(n - 1, Feed(c, Low(bits)), Half(bits))
  }

  // A whole message, bit by bit.
  function Serial(c: bv32, data: seq<bv8>): bv32 {
    if data == [] then c else FeedBits(8, Serial(c, data[..|data| - 1]), Word(data[|data| - 1]))
  }

  function Reference(data: seq<bv8>): bv32 {
    Xor(Serial(0xFFFF_FFFF, data), 0xFFFF_FFFF)
  }

  // ---------- the mapping table, eight entries a row ----------

  function Row(r: nat): (row: seq<bv32>)
    requires r < 32
    ensures |row| == 8
  {
    if r < 8 then Quarter0(r) else if r < 16 then Quarter1(r - 8)
    else if r < 24 then Quarter2(r - 16) else Quarter3(r - 24)
  }

  function Quarter0(r: nat): (row: seq<bv32>)
    requires r < 8
    ensures |row| == 8
  {
    match r
    case 0 => [0x00000000, 0x77073096, 0xEE0E612C, 0x990951BA, 0x076DC419, 0x706AF48F, 0xE963A535, 0x9E6495A3]
    case 1 => [0x0EDB8832, 0x79DCB8A4, 0xE0D5E91E, 0x97D2D988, 0x09B64C2B, 0x7EB17CBD, 0xE7B82D07, 0x90BF1D91]
    case 2 => [0x1DB71064, 0x6AB020F2, 0xF3B97148, 0x84BE41DE, 0x1ADAD47D, 0x6DDDE4EB, 0xF4D4B551, 0x83D385C7]
    case 3 => [0x136C9856, 0x646BA8C0, 0xFD62F97A, 0x8A65C9EC, 0x14015C4F, 0x63066CD9, 0xFA0F3D63, 0x8D080DF5]
    case 4 => [0x3B6E20C8, 0x4C69105E, 0xD56041E4, 0xA2677172, 0x3C03E4D1, 0x4B04D447, 0xD20D85FD, 0xA50AB56B]
    case 5 => [0x35B5A8FA, 0x42B2986C, 0xDBBBC9D6, 0xACBCF940, 0x32D86CE3, 0x45DF5C75, 0xDCD60DCF, 0xABD13D59]
    case 6 => [0x26D930AC, 0x51DE003A, 0xC8D75180, 0xBFD06116, 0x21B4F4B5, 0x56B3C423, 0xCFBA9599, 0xB8BDA50F]
    case _ => [0x2802B89E, 0x5F058808, 0xC60CD9B2, 0xB10BE924, 0x2F6F7C87, 0x58684C11, 0xC1611DAB, 0xB6662D3D]
  }

  function Quarter1(r: nat): (row: seq<bv32>)
    requires r < 8
    ensures |row| == 8
  {
    match r
    case 0 => [0x76DC4190, 0x01DB7106, 0x98D220BC, 0xEFD5102A, 0x71B18589, 0x06B6B51F, 0x9FBFE4A5, 0xE8B8D433]
    case 1 => [0x7807C9A2, 0x0F00F934, 0x9609A88E, 0xE10E9818, 0x7F6A0DBB, 0x086D3D2D, 0x91646C97, 0xE6635C01]
    case 2 => [0x6B6B51F4, 0x1C6C6162, 0x856530D8, 0xF262004E, 0x6C0695ED, 0x1B01A57B, 0x8208F4C1, 0xF50FC457]
    case 3 => [0x65B0D9C6, 0x12B7E950, 0x8BBEB8EA, 0xFCB9887C, 0x62DD1DDF, 0x15DA2D49, 0x8CD37CF3, 0xFBD44C65]
    case 4 => [0x4DB26158, 0x3AB551CE, 0xA3BC0074, 0xD4BB30E2, 0x4ADFA541, 0x3DD895D7, 0xA4D1C46D, 0xD3D6F4FB]
    case 5 => [0x4369E96A, 0x346ED9FC, 0xAD678846, 0xDA60B8D0, 0x44042D73, 0x33031DE5, 0xAA0A4C5F, 0xDD0D7CC9]
    case 6 => [0x5005713C, 0x270241AA, 0xBE0B1010, 0xC90C2086, 0x5768B525, 0x206F85B3, 0xB966D409, 0xCE61E49F]
    case _ => [0x5EDEF90E, 0x29D9C998, 0xB0D09822, 0xC7D7A8B4, 0x59B33D17, 0x2EB40D81, 0xB7BD5C3B, 0xC0BA6CAD]
  }

  function Quarter2(r: nat): (row: seq<bv32>)
    requires r < 8
    ensures |row| == 8
  {
    match r
    case 0 => [0xEDB88320, 0x9ABFB3B6, 0x03B6E20C, 0x74B1D29A, 0xEAD54739, 0x9DD277AF, 0x04DB2615, 0x73DC1683]
    case 1 => [0xE3630B12, 0x94643B84, 0x0D6D6A3E, 0x7A6A5AA8, 0xE40ECF0B, 0x9309FF9D, 0x0A00AE27, 0x7D079EB1]
    case 2 => [0xF00F9344, 0x8708A3D2, 0x1E01F268, 0x6906C2FE, 0xF762575D, 0x806567CB, 0x196C3671, 0x6E6B06E7]
    case 3 => [0xFED41B76, 0x89D32BE0, 0x10DA7A5A, 0x67DD4ACC, 0xF9B9DF6F, 0x8EBEEFF9, 0x17B7BE43, 0x60B08ED5]
    case 4 => [0xD6D6A3E8, 0xA1D1937E, 0x38D8C2C4, 0x4FDFF252, 0xD1BB67F1, 0xA6BC5767, 0x3FB506DD, 0x48B2364B]
    case 5 => [0xD80D2BDA, 0xAF0A1B4C, 0x36034AF6, 0x41047A60, 0xDF60EFC3, 0xA867DF55, 0x316E8EEF, 0x4669BE79]
    case 6 => [0xCB61B38C, 0xBC66831A, 0x256FD2A0, 0x5268E236, 0xCC0C7795, 0xBB0B4703, 0x220216B9, 0x5505262F]
    case _ => [0xC5BA3BBE, 0xB2BD0B28, 0x2BB45A92, 0x5CB36A04, 0xC2D7FFA7, 0xB5D0CF31, 0x2CD99E8B, 0x5BDEAE1D]
  }

  function Quarter3(r: nat): (row: seq<bv32>)
    requires r < 8
    ensures |row| == 8
  {
    match r
    case 0 => [0x9B64C2B0, 0xEC63F226, 0x756AA39C, 0x026D930A, 0x9C0906A9, 0xEB0E363F, 0x72076785, 0x05005713]
    case 1 => [0x95BF4A82, 0xE2B87A14, 0x7BB12BAE, 0x0CB61B38, 0x92D28E9B, 0xE5D5BE0D, 0x7CDCEFB7, 0x0BDBDF21]
    case 2 => [0x86D3D2D4, 0xF1D4E242, 0x68DDB3F8, 0x1FDA836E, 0x81BE16CD, 0xF6B9265B, 0x6FB077E1, 0x18B74777]
    case 3 => [0x88085AE6, 0xFF0F6A70, 0x66063BCA, 0x11010B5C, 0x8F659EFF, 0xF862AE69, 0x616BFFD3, 0x166CCF45]
    case 4 => [0xA00AE278, 0xD70DD2EE, 0x4E048354, 0x3903B3C2, 0xA7672661, 0xD06016F7, 0x4969474D, 0x3E6E77DB]
    case 5 => [0xAED16A4A, 0xD9D65ADC, 0x40DF0B66, 0x37D83BF0, 0xA9BCAE53, 0xDEBB9EC5, 0x47B2CF7F, 0x30B5FFE9]
    case 6 => [0xBDBDF21C, 0xCABAC28A, 0x53B39330, 0x24B4A3A6, 0xBAD03605, 0xCDD70693, 0x54DE5729, 0x23D967BF]
    case _ => [0xB3667A2E, 0xC4614AB8, 0x5D681B02, 0x2A6F2B94, 0xB40BBE37, 0xC30C8EA1, 0x5A05DF1B, 0x2D02EF8D]
  }

  function MappingTable(i: bv8): bv32 {
    RowBound(i);
    Row((i >> 3) as nat)[(i & 7) as nat]
  }

  lemma RowBound(i: bv8)
    ensures (i >> 3) as nat < 32 && (i & 7) as nat < 8
  {
  }

  // ---------- linearity of the bit step ----------

  lemma XorAssociative(a: bv32, b: bv32, c: bv32)
    ensures Xor(Xor(a, b), c) == Xor(a, Xor(b, c))
  {
  }

  lemma XorCommutes(a: bv32, b: bv32)
    ensures Xor(a, b) == Xor(b, a)
  {
  }

  lemma XorUndoes(p: bv32, a: bv32)
    ensures Xor(p, Xor(p, a)) == a
  {
  }

  lemma XorRight(a: bv32, b: bv32, p: bv32)
    ensures Xor(a, Xor(p, b)) == Xor(p, Xor(a, b))
  {
    hide Xor;
    XorCommutes(p, b);
    XorAssociative(a, b, p);
    XorCommutes(Xor(a, b), p);
  }

  lemma XorBoth(a: bv32, b: bv32, p: bv32)
    ensures Xor(Xor(p, a), Xor(p, b)) == Xor(a, b)
  {
    hide Xor;
    XorAssociative(p, a, Xor(p, b));
    XorRight(a, b, p);
    XorUndoes(p, Xor(a, b));
  }

  lemma HalfXor(a: bv32, b: bv32)
    ensures Half(Xor(a, b)) == Xor(Half(a), Half(b))
  {
  }

  lemma LowXor(a: bv32, b: bv32)
    ensures Low(Xor(a, b)) == if Low(a) == Low(b) then 0 else 1
  {
  }

  lemma LowIsBit(a: bv32)
    ensures Low(a) == 0 || Low(a) == 1
  {
  }

  lemma BitOf(c: bv32)
    ensures Low(c) == 1 ==> Bit(c) == Xor(POLYNOMIAL, Half(c))
    ensures Low(c) != 1 ==> Bit(c) == Half(c)
  {
    hide Xor, Half, Low;
  }

  lemma BitLinear(a: bv32, b: bv32)
    ensures Bit(Xor(a, b)) == Xor(Bit(a), Bit(b))
  {
    HalfXor(a, b);
    LowXor(a, b);
    LowIsBit(a);
    LowIsBit(b);
    BitOf(a);
    BitOf(b);
    BitOf(Xor(a, b));
    hide Xor, Half, Low, Bit;
    if Low(a) == 1 && Low(b) == 1 {
      XorBoth(Half(a), Half(b), POLYNOMIAL);
    } else if Low(a) == 1 {
      XorAssociative(POLYNOMIAL, Half(a), Half(b));
    } else if Low(b) == 1 {
      XorRight(Half(a), Half(b), POLYNOMIAL);
    }
  }

  lemma Step8Linear(a: bv32, b: bv32)
    ensures Step8(Xor(a, b)) == Xor(Step8(a), Step8(b))
  {
    hide Bit, Xor;
    var a1, b1 := Bit(a), Bit(b);
    var a2, b2 := Bit(a1), Bit(b1);
    var a3, b3 := Bit(a2), Bit(b2);
    var a4, b4 := Bit(a3), Bit(b3);
    var a5, b5 := Bit(a4), Bit(b4);
    var a6, b6 := Bit(a5), Bit(b5);
    var a7, b7 := Bit(a6), Bit(b6);
    BitLinear(a, b);
    BitLinear(a1, b1);
    BitLinear(a2, b2);
    BitLinear(a3, b3);
    BitLinear(a4, b4);
    BitLinear(a5, b5);
    BitLinear(a6, b6);
    BitLinear(a7, b7);
  }

  // ---------- the table holds the remainders ----------

  // A row told by its first entry: the others follow by linearity.
  ghost function RowFrom(first: bv32): seq<bv32> {
    [Xor(first, 0x00000000), Xor(first, 0x77073096), Xor(first, 0xEE0E612C), Xor(first, 0x990951BA),
     Xor(first, 0x076DC419), Xor(first, 0x706AF48F), Xor(first, 0xE963A535), Xor(first, 0x9E6495A3)]
  }

  ghost predicate RowIs(r: nat, base: bv32, first: bv32)
    requires r < 32
  {
    first == Step8(base) && Row(r) == RowFrom(first)
  }

  lemma Heads0()
    ensures Step8(0) == 0x00000000 && Step8(8) == 0x0EDB8832
    ensures Step8(16) == 0x1DB71064 && Step8(24) == 0x136C9856
    ensures Step8(32) == 0x3B6E20C8 && Step8(40) == 0x35B5A8FA
    ensures Step8(48) == 0x26D930AC && Step8(56) == 0x2802B89E
  {
  }

  lemma Rows0()
    ensures Row(0) == RowFrom(0x00000000) && Row(1) == RowFrom(0x0EDB8832)
    ensures Row(2) == RowFrom(0x1DB71064) && Row(3) == RowFrom(0x136C9856)
    ensures Row(4) == RowFrom(0x3B6E20C8) && Row(5) == RowFrom(0x35B5A8FA)
    ensures Row(6) == RowFrom(0x26D930AC) && Row(7) == RowFrom(0x2802B89E)
  {
  }

  lemma RowsFrom0(r: bv8) returns (first: bv32)
    requires r < 8
    ensures RowIs(r as nat, Word(r << 3), first)
  {
    Heads0();
    Rows0();
    hide Step8, Row, RowFrom;
    if r == 0 {
      first := 0x00000000;
      assert RowIs(0, 0, first);
    } else if r == 1 {
      first := 0x0EDB8832;
      assert RowIs(1, 8, first);
    } else if r == 2 {
      first := 0x1DB71064;
      assert RowIs(2, 16, first);
    } else if r == 3 {
      first := 0x136C9856;
      assert RowIs(3, 24, first);
    } else if r == 4 {
      first := 0x3B6E20C8;
      assert RowIs(4, 32, first);
    } else if r == 5 {
      first := 0x35B5A8FA;
      assert RowIs(5, 40, first);
    } else if r == 6 {
      first := 0x26D930AC;
      assert RowIs(6, 48, first);
    } else {
      first := 0x2802B89E;
      assert RowIs(7, 56, first);
    }
  }

  lemma Heads8()
    ensures Step8(64) == 0x76DC4190 && Step8(72) == 0x7807C9A2
    ensures Step8(80) == 0x6B6B51F4 && Step8(88) == 0x65B0D9C6
    ensures Step8(96) == 0x4DB26158 && Step8(104) == 0x4369E96A
    ensures Step8(112) == 0x5005713C && Step8(120) == 0x5EDEF90E
  {
  }

  lemma Rows8()
    ensures Row(8) == RowFrom(0x76DC4190) && Row(9) == RowFrom(0x7807C9A2)
    ensures Row(10) == RowFrom(0x6B6B51F4) && Row(11) == RowFrom(0x65B0D9C6)
    ensures Row(12) == RowFrom(0x4DB26158) && Row(13) == RowFrom(0x4369E96A)
    ensures Row(14) == RowFrom(0x5005713C) && Row(15) == RowFrom(0x5EDEF90E)
  {
  }

  lemma RowsFrom8(r: bv8) returns (first: bv32)
    requires 8 <= r < 16
    ensures RowIs(r as nat, Word(r << 3), first)
  {
    Heads8();
    Rows8();
    hide Step8, Row, RowFrom;
    if r == 8 {
      first := 0x76DC4190;
      assert RowIs(8, 64, first);
    } else if r == 9 {
      first := 0x7807C9A2;
      assert RowIs(9, 72, first);
    } else if r == 10 {
      first := 0x6B6B51F4;
      assert RowIs(10, 80, first);
    } else if r == 11 {
      first := 0x65B0D9C6;
      assert RowIs(11, 88, first);
    } else if r == 12 {
      first := 0x4DB26158;
      assert RowIs(12, 96, first);
    } else if r == 13 {
      first := 0x4369E96A;
      assert RowIs(13, 104, first);
    } else if r == 14 {
      first := 0x5005713C;
      assert RowIs(14, 112, first);
    } else {
      first := 0x5EDEF90E;
      assert RowIs(15, 120, first);
    }
  }

  lemma Heads16()
    ensures Step8(128) == 0xEDB88320 && Step8(136) == 0xE3630B12
    ensures Step8(144) == 0xF00F9344 && Step8(152) == 0xFED41B76
    ensures Step8(160) == 0xD6D6A3E8 && Step8(168) == 0xD80D2BDA
    ensures Step8(176) == 0xCB61B38C && Step8(184) == 0xC5BA3BBE
  {
  }

  lemma Rows16()
    ensures Row(16) == RowFrom(0xEDB88320) && Row(17) == RowFrom(0xE3630B12)
    ensures Row(18) == RowFrom(0xF00F9344) && Row(19) == RowFrom(0xFED41B76)
    ensures Row(20) == RowFrom(0xD6D6A3E8) && Row(21) == RowFrom(0xD80D2BDA)
    ensures Row(22) == RowFrom(0xCB61B38C) && Row(23) == RowFrom(0xC5BA3BBE)
  {
  }

  lemma RowsFrom16(r: bv8) returns (first: bv32)
    requires 16 <= r < 24
    ensures RowIs(r as nat, Word(r << 3), first)
  {
    Heads16();
    Rows16();
    hide Step8, Row, RowFrom;
    if r == 16 {
      first := 0xEDB88320;
      assert RowIs(16, 128, first);
    } else if r == 17 {
      first := 0xE3630B12;
      assert RowIs(17, 136, first);
    } else if r == 18 {
      first := 0xF00F9344;
      assert RowIs(18, 144, first);
    } else if r == 19 {
      first := 0xFED41B76;
      assert RowIs(19, 152, first);
    } else if r == 20 {
      first := 0xD6D6A3E8;
      assert RowIs(20, 160, first);
    } else if r == 21 {
      first := 0xD80D2BDA;
      assert RowIs(21, 168, first);
    } else if r == 22 {
      first := 0xCB61B38C;
      assert RowIs(22, 176, first);
    } else {
      first := 0xC5BA3BBE;
      assert RowIs(23, 184, first);
    }
  }

  lemma Heads24()
    ensures Step8(192) == 0x9B64C2B0 && Step8(200) == 0x95BF4A82
    ensures Step8(208) == 0x86D3D2D4 && Step8(216) == 0x88085AE6
    ensures Step8(224) == 0xA00AE278 && Step8(232) == 0xAED16A4A
    ensures Step8(240) == 0xBDBDF21C && Step8(248) == 0xB3667A2E
  {
  }

  lemma Rows24()
    ensures Row(24) == RowFrom(0x9B64C2B0) && Row(25) == RowFrom(0x95BF4A82)
    ensures Row(26) == RowFrom(0x86D3D2D4) && Row(27) == RowFrom(0x88085AE6)
    ensures Row(28) == RowFrom(0xA00AE278) && Row(29) == RowFrom(0xAED16A4A)
    ensures Row(30) == RowFrom(0xBDBDF21C) && Row(31) == RowFrom(0xB3667A2E)
  {
  }

  lemma RowsFrom24(r: bv8) returns (first: bv32)
    requires 24 <= r < 32
    ensures RowIs(r as nat, Word(r << 3), first)
  {
    Heads24();
    Rows24();
    hide Step8, Row, RowFrom;
    if r == 24 {
      first := 0x9B64C2B0;
      assert RowIs(24, 192, first);
    } else if r == 25 {
      first := 0x95BF4A82;
      assert RowIs(25, 200, first);
    } else if r == 26 {
      first := 0x86D3D2D4;
      assert RowIs(26, 208, first);
    } else if r == 27 {
      first := 0x88085AE6;
      assert RowIs(27, 216, first);
    } else if r == 28 {
      first := 0xA00AE278;
      assert RowIs(28, 224, first);
    } else if r == 29 {
      first := 0xAED16A4A;
      assert RowIs(29, 232, first);
    } else if r == 30 {
      first := 0xBDBDF21C;
      assert RowIs(30, 240, first);
    } else {
      first := 0xB3667A2E;
      assert RowIs(31, 248, first);
    }
  }

  lemma RowsRight(r: bv8) returns (first: bv32)
    requires r < 32
    ensures RowIs(r as nat, Word(r << 3), first)
  {
    hide RowIs;
    if r < 8 {
      first := RowsFrom0(r);
    } else if r < 16 {
      first := RowsFrom8(r);
    } else if r < 24 {
      first := RowsFrom16(r);
    } else {
      first := RowsFrom24(r);
    }
  }

  lemma FirstRow(j: bv8)
    requires j < 8
    ensures Row(0)[j as nat] == Step8(Word(j))
  {
    if j == 0 {
    } else if j == 1 {
    } else if j == 2 {
    } else if j == 3 {
    } else if j == 4 {
    } else if j == 5 {
    } else if j == 6 {
    } else {
    }
  }

  lemma IndexSplits(i: bv8)
    ensures (i >> 3) < 32 && (i & 7) < 8 && Word(i) == Xor(Word((i >> 3) << 3), Word(i & 7))
  {
  }

  lemma RowEntry(r: nat, base: bv32, first: bv32, j: nat)
    requires r < 32 && j < 8 && RowIs(r, base, first)
    ensures Row(r)[j] == Xor(Step8(base), Row(0)[j])
  {
    hide Step8, Xor;
    assert Row(0) == [0x00000000, 0x77073096, 0xEE0E612C, 0x990951BA, 0x076DC419, 0x706AF48F, 0xE963A535, 0x9E6495A3];
    hide Row;
  }

  lemma XorZero(a: bv32)
    ensures Xor(a, 0) == a
  {
  }

  // All 256 entries are the eight-step remainders of their indices.
  lemma TableIsRemainders(i: bv8)
    ensures MappingTable(i) == Step8(Word(i))
  {
    hide Row, Step8, RowIs, Xor, Word;
    IndexSplits(i);
    RowBound(i);
    var r, j := i >> 3, i & 7;
    var first := RowsRight(r);
    RowEntry(r as nat, Word(r << 3), first, j as nat);
    FirstRow(j);
    Step8Linear(Word(r << 3), Word(j));
  }

  // ---------- the byte step ----------

  function HighBits(x: bv32): bv32 {
    x & 0xFFFF_FF00
  }

  function LowByte(x: bv32): (byte: bv8)
  {
    assert x & 0xFF <= 0xFF;
    (x & 0xFF) as bv8
  }

  function ByteShift(x: bv32): bv32 {
    x >> 8
  }

  function Shifts8(x: bv32): bv32 {
    Half(Half(Half(Half(Half(Half(Half(Half(x))))))))
  }

  lemma EvenHalf(y: bv32)
    requires Low(y) == 0
    ensures Bit(y) == Half(y)
  {
  }

  lemma LowBitsEmpty(x: bv32)
    ensures var y := HighBits(x);
            && Low(y) == 0 && Low(Half(y)) == 0 && Low(Half(Half(y))) == 0 && Low(Half(Half(Half(y)))) == 0
  {
  }

  lemma MoreLowBitsEmpty(x: bv32)
    ensures var y := Half(Half(Half(Half(HighBits(x)))));
            && Low(y) == 0 && Low(Half(y)) == 0 && Low(Half(Half(y))) == 0 && Low(Half(Half(Half(y)))) == 0
  {
  }

  lemma EightHalves(x: bv32)
    ensures Shifts8(HighBits(x)) == ByteShift(x)
  {
  }

  // Eight steps only shift a register whose low byte is empty.
  lemma HighBitsShift(x: bv32)
    ensures Step8(HighBits(x)) == ByteShift(x)
  {
    LowBitsEmpty(x);
    MoreLowBitsEmpty(x);
    EightHalves(x);
    hide Bit, Low, Half, HighBits, ByteShift;
    var y := HighBits(x);
    EvenHalf(y);
    EvenHalf(Half(y));
    EvenHalf(Half(Half(y)));
    EvenHalf(Half(Half(Half(y))));
    var z := Half(Half(Half(Half(y))));
    EvenHalf(z);
    EvenHalf(Half(z));
    EvenHalf(Half(Half(z)));
    EvenHalf(Half(Half(Half(z))));
  }

  lemma SplitLowByte(x: bv32)
    ensures x == Xor(HighBits(x), Word(LowByte(x)))
  {
  }

  lemma ByteShifts(c: bv32, byte: bv8)
    ensures ByteShift(Xor(c, Word(byte))) == ByteShift(c)
  {
  }

  // The table step of one byte is eight steps of the register with the byte in its low end.
  lemma TableStep(c: bv32, byte: bv8)
    ensures Xor(ByteShift(c), MappingTable(LowByte(Xor(c, Word(byte))))) == Step8(Xor(c, Word(byte)))
  {
    hide Step8, MappingTable, Xor, HighBits, LowByte, ByteShift, Word;
    var x := Xor(c, Word(byte));
    SplitLowByte(x);
    HighBitsShift(x);
    ByteShifts(c, byte);
    TableIsRemainders(LowByte(x));
    Step8Linear(HighBits(x), Word(LowByte(x)));
  }

  // ---------- eight bits one after the other ----------

  function Rest(bits: bv32): bv32 {
    bits ^ (bits & 1)
  }

  lemma RestIsEven(bits: bv32)
    ensures Low(Rest(bits)) == 0 && Half(Rest(bits)) == Half(bits)
  {
  }

  lemma LowAndRest(bits: bv32)
    ensures bits == Xor(Low(bits), Rest(bits))
  {
  }

  lemma BitsApart(c: bv32, bits: bv32)
    ensures Xor(c, bits) == Xor(Xor(c, Low(bits)), Rest(bits))
  {
    LowAndRest(bits);
    hide Xor, Low, Rest;
    XorAssociative(c, Low(bits), Rest(bits));
  }

  lemma OneBit(c: bv32, bits: bv32)
    ensures Bit(Xor(c, bits)) == Xor(Feed(c, Low(bits)), Half(bits))
  {
    BitsApart(c, bits);
    RestIsEven(bits);
    hide Bit, Xor, Low, Half, Rest;
    BitLinear(Xor(c, Low(bits)), Rest(bits));
    EvenHalf(Rest(bits));
  }

  lemma BitsRunOut(byte: bv8)
    ensures Shifts8(Word(byte)) == 0
  {
  }

  lemma ByteIsBits(c: bv32, byte: bv8)
    ensures Step8(Xor(c, Word(byte))) == FeedBits(8, c, Word(byte))
  {
    BitsRunOut(byte);
    hide Bit, Feed, Xor, Half, Low, Word, FeedBits;
    var b0 := Word(byte);
    var b1 := Half(b0);
    var b2 := Half(b1);
    var b3 := Half(b2);
    var b4 := Half(b3);
    var b5 := Half(b4);
    var b6 := Half(b5);
    var b7 := Half(b6);
    var c1 := Feed(c, Low(b0));
    var c2 := Feed(c1, Low(b1));
    var c3 := Feed(c2, Low(b2));
    var c4 := Feed(c3, Low(b3));
    var c5 := Feed(c4, Low(b4));
    var c6 := Feed(c5, Low(b5));
    var c7 := Feed(c6, Low(b6));
    var c8 := Feed(c7, Low(b7));
    OneBit(c, b0);
    OneBit(c1, b1);
    OneBit(c2, b2);
    OneBit(c3, b3);
    OneBit(c4, b4);
    OneBit(c5, b5);
    OneBit(c6, b6);
    OneBit(c7, b7);
    XorZero(c8);
    FeedEight(c, b0);
  }

  lemma FeedOne(n: nat, c: bv32, bits: bv32)
    ensures FeedBits(n + 1, c, bits) == FeedBits(n, Feed(c, Low(bits)), Half(bits))
  {
  }

  // FeedBits, written out for the eight bits of a byte.
  lemma FeedEight(c: bv32, b0: bv32)
    ensures var b1 := Half(b0); var b2 := Half(b1); var b3 := Half(b2);
            var b4 := Half(b3); var b5 := Half(b4); var b6 := Half(b5); var b7 := Half(b6);
            FeedBits(8, c, b0) ==
            Feed(Feed(Feed(Feed(Feed(Feed(Feed(Feed(c, Low(b0)), Low(b1)), Low(b2)), Low(b3)),
                                Low(b4)), Low(b5)), Low(b6)), Low(b7))
  {
    hide Feed, Half, Low;
    var b1 := Half(b0);
    var b2 := Half(b1);
    var b3 := Half(b2);
    var b4 := Half(b3);
    var c1 := Feed(c, Low(b0));
    var c2 := Feed(c1, Low(b1));
    var c3 := Feed(c2, Low(b2));
    var c4 := Feed(c3, Low(b3));
    FeedOne(7, c, b0);
    FeedOne(6, c1, b1);
    FeedOne(5, c2, b2);
    FeedOne(4, c3, b3);
    FeedFour(c4, b4);
  }

  lemma FeedFour(c: bv32, b0: bv32)
    ensures var b1 := Half(b0); var b2 := Half(b1); var b3 := Half(b2);
            FeedBits(4, c, b0) == Feed(Feed(Feed(Feed(c, Low(b0)), Low(b1)), Low(b2)), Low(b3))
  {
    hide Feed, Half, Low;
    var b1 := Half(b0);
    var b2 := Half(b1);
    var b3 := Half(b2);
    var c1 := Feed(c, Low(b0));
    var c2 := Feed(c1, Low(b1));
    var c3 := Feed(c2, Low(b2));
    FeedOne(3, c, b0);
    FeedOne(2, c1, b1);
    FeedOne(1, c2, b2);
    FeedOne(0, c3, b3);
  }

  // ---------- the program ----------

  // The table-driven loop computes the bit-at-a-time checksum of the bytes asked for; the largest
  // length asks for all of them.
  method Crc32(data: seq<bv8>, length: nat) returns (r: Result)
    requires length <= 0xFFFF_FFFF_FFFF_FFFF
    ensures length != 0xFFFF_FFFF_FFFF_FFFF && length > |data| <==> r.OutOfRange?
    ensures r.Ok? ==> r.crc == Reference(if length == 0xFFFF_FFFF_FFFF_FFFF then data else data[..length])
  {
    hide FeedBits, MappingTable, Xor, ByteShift, LowByte, Word;
    var effective := if length == MAX_UINT64 then |data| else length;
    if effective > |data| {
      return OutOfRange;
    }
    var crc: bv32 := 0xFFFF_FFFF;
    for i := 0 to effective
      invariant crc == Serial(0xFFFF_FFFF, data[..i])
    {
      TableStep(crc, data[i]);
      ByteIsBits(crc, data[i]);
      assert data[..i + 1][..i] == data[..i];
      crc := Xor(ByteShift(crc), MappingTable(LowByte(Xor(crc, Word(data[i])))));
    }
    assert data[..|data|] == data;
    r := Ok(Xor(crc, 0xFFFF_FFFF));
  }

  // ---------- what the checksum detects ----------

  function TopBit(c: bv32): bv32 {
    c & 0x8000_0000
  }

  lemma TopBitOfHalf(c: bv32)
    ensures TopBit(Half(c)) == 0 && TopBit(Xor(POLYNOMIAL, Half(c))) != 0
  {
  }

  lemma HalvesAndLow(a: bv32, b: bv32)
    requires Half(a) == Half(b) && Low(a) == Low(b)
    ensures a == b
  {
  }

  lemma XorCancels(a: bv32, b: bv32, p: bv32)
    requires Xor(p, a) == Xor(p, b)
    ensures a == b
  {
  }

  lemma WordInjective(x: bv8, y: bv8)
    requires Word(x) == Word(y)
    ensures x == y
  {
  }

  lemma BitInjective(a: bv32, b: bv32)
    requires Bit(a) == Bit(b)
    ensures a == b
  {
    TopBitOfHalf(a);
    TopBitOfHalf(b);
    LowIsBit(a);
    LowIsBit(b);
    hide Xor, Half, Low, TopBit;
    if Low(a) == 1 {
      XorCancels(Half(a), Half(b), POLYNOMIAL);
    }
    HalvesAndLow(a, b);
  }

  lemma FeedInjective(a: bv32, b: bv32, bit: bv32)
    requires Feed(a, bit) == Feed(b, bit)
    ensures a == b
  {
    hide Bit, Xor;
    BitInjective(Xor(a, bit), Xor(b, bit));
    XorCommutes(a, bit);
    XorCommutes(b, bit);
    XorCancels(a, b, bit);
  }

  lemma {:induction false} FeedBitsInjective(n: nat, a: bv32, b: bv32, bits: bv32)
    requires FeedBits(n, a, bits) == FeedBits(n, b, bits)
    ensures a == b
  {
    hide Feed, Low, Half;
    if n > 0 {
      FeedBitsInjective(n - 1, Feed(a, Low(bits)), Feed(b, Low(bits)), Half(bits));
      FeedInjective(a, b, Low(bits));
    }
  }

  lemma Step8Injective(a: bv32, b: bv32)
    requires Step8(a) == Step8(b)
    ensures a == b
  {
    hide Bit;
    var a1, b1 := Bit(a), Bit(b);
    var a2, b2 := Bit(a1), Bit(b1);
    var a3, b3 := Bit(a2), Bit(b2);
    var a4, b4 := Bit(a3), Bit(b3);
    var a5, b5 := Bit(a4), Bit(b4);
    var a6, b6 := Bit(a5), Bit(b5);
    var a7, b7 := Bit(a6), Bit(b6);
    BitInjective(a7, b7);
    BitInjective(a6, b6);
    BitInjective(a5, b5);
    BitInjective(a4, b4);
    BitInjective(a3, b3);
    BitInjective(a2, b2);
    BitInjective(a1, b1);
    BitInjective(a, b);
  }

  lemma BytesDiffer(c: bv32, x: bv8, y: bv8)
    requires x != y
    ensures FeedBits(8, c, Word(x)) != FeedBits(8, c, Word(y))
  {
    hide Step8, FeedBits, Xor, Word;
    ByteIsBits(c, x);
    ByteIsBits(c, y);
    if Step8(Xor(c, Word(x))) == Step8(Xor(c, Word(y))) {
      Step8Injective(Xor(c, Word(x)), Xor(c, Word(y)));
      XorCancels(Word(x), Word(y), c);
      WordInjective(x, y);
    }
  }

  // Messages that differ in one byte have different checksums, wherever the byte is and however
  // long they are.
  lemma OneByteDetected(data: seq<bv8>, other: seq<bv8>, k: nat)
    requires |data| == |other| && k < |data| && data[k] != other[k]
    requires forall i :: 0 <= i < |data| && i != k ==> data[i] == other[i]
    ensures Reference(data) != Reference(other)
  {
    hide Xor, Serial;
    SerialDiffers(0xFFFF_FFFF, data, other, k);
    var a, b := Serial(0xFFFF_FFFF, data), Serial(0xFFFF_FFFF, other);
    XorCommutes(a, 0xFFFF_FFFF);
    XorCommutes(b, 0xFFFF_FFFF);
    if Xor(0xFFFF_FFFF, a) == Xor(0xFFFF_FFFF, b) {
      XorCancels(a, b, 0xFFFF_FFFF);
    }
  }

  lemma {:induction false} SerialDiffers(c: bv32, data: seq<bv8>, other: seq<bv8>, k: nat)
    requires |data| == |other| && k < |data| && data[k] != other[k]
    requires forall i :: 0 <= i < |data| && i != k ==> data[i] == other[i]
    ensures Serial(c, data) != Serial(c, other)
    decreases |data|
  {
    hide FeedBits, Word;
    var n := |data| - 1;
    if k == n {
      assert data[..n] == other[..n];
      BytesDiffer(Serial(c, data[..n]), data[n], other[n]);
    } else {
      SerialDiffers(c, data[..n], other[..n], k);
      var a, b := Serial(c, data[..n]), Serial(c, other[..n]);
      if FeedBits(8, a, Word(data[n])) == FeedBits(8, b, Word(data[n])) {
        FeedBitsInjective(8, a, b, Word(data[n]));
      }
    }
  }

  // ---------- what the checksum is ----------

  // The four bytes of a word, lowest first.
  function Bytes(w: bv32): seq<bv8> {
    [LowByte(w), LowByte(ByteShift(w)), LowByte(ByteShift(ByteShift(w))), LowByte(ByteShift(ByteShift(ByteShift(w))))]
  }

  lemma EmptyText()
    ensures Reference([]) == 0
  {
  }

  lemma SerialStep(c: bv32, data: seq<bv8>, byte: bv8)
    ensures Serial(c, data + [byte]) == Step8(Xor(Serial(c, data), Word(byte)))
  {
    hide FeedBits, Step8, Xor, Word;
    assert (data + [byte])[..|data|] == data;
    ByteIsBits(Serial(c, data), byte);
  }

  // Feeding the low byte of a word leaves the rest of the word to be fed.
  lemma FeedLow(c: bv32, w: bv32)
    ensures Step8(Xor(c, w)) == Xor(Step8(Xor(c, Word(LowByte(w)))), ByteShift(w))
  {
    SplitLowByte(w);
    HighBitsShift(w);
    hide Step8, Xor, HighBits, LowByte, ByteShift, Word;
    var high, low := HighBits(w), Word(LowByte(w));
    XorCommutes(high, low);
    XorAssociative(c, low, high);
    Step8Linear(Xor(c, low), high);
  }

  lemma FourShiftsEmpty(w: bv32)
    ensures ByteShift(ByteShift(ByteShift(ByteShift(w)))) == 0
  {
  }

  // Feeding the four bytes of a word is 32 steps from the register with the word in it.
  lemma FeedWord(c: bv32, w: bv32)
    ensures var c1 := Step8(Xor(c, Word(LowByte(w)))); var w1 := ByteShift(w);
            var c2 := Step8(Xor(c1, Word(LowByte(w1)))); var w2 := ByteShift(w1);
            var c3 := Step8(Xor(c2, Word(LowByte(w2)))); var w3 := ByteShift(w2);
            Step8(Xor(c3, Word(LowByte(w3)))) == Step8(Step8(Step8(Step8(Xor(c, w)))))
  {
    FourShiftsEmpty(w);
    hide Step8, Xor, LowByte, ByteShift, Word;
    var c1 := Step8(Xor(c, Word(LowByte(w))));
    var w1 := ByteShift(w);
    var c2 := Step8(Xor(c1, Word(LowByte(w1))));
    var w2 := ByteShift(w1);
    var c3 := Step8(Xor(c2, Word(LowByte(w2))));
    var w3 := ByteShift(w2);
    FeedLow(c, w);
    FeedLow(c1, w1);
    FeedLow(c2, w2);
    FeedLow(c3, w3);
    XorZero(Step8(Xor(c3, Word(LowByte(w3)))));
  }

  lemma AllOnes(c: bv32)
    ensures Xor(c, Xor(c, 0xFFFF_FFFF)) == 0xFFFF_FFFF
  {
  }

  lemma OnesFor32()
    ensures Step8(Step8(Step8(Step8(0xFFFF_FFFF)))) == 0xDEBB_20E3
  {
    assert Step8(0xFFFF_FFFF) == 0x2DFD_1072;
    assert Step8(0x2DFD_1072) == 0xBE26_ED00;
    assert Step8(0xBE26_ED00) == 0x00BE_26ED;
    assert Step8(0x00BE_26ED) == 0xDEBB_20E3;
  }

  // The residue law: a message followed by its own checksum always has the same checksum.
  lemma Residue(data: seq<bv8>)
    ensures Reference(data + Bytes(Reference(data))) == 0x2144_DF1C
  {
    hide Serial, Step8, LowByte, ByteShift, Word;
    var c, w := Serial(0xFFFF_FFFF, data), Reference(data);
    var w1 := ByteShift(w);
    var w2 := ByteShift(w1);
    var w3 := ByteShift(w2);
    var d1 := data + [LowByte(w)];
    var d2 := d1 + [LowByte(w1)];
    var d3 := d2 + [LowByte(w2)];
    SerialStep(0xFFFF_FFFF, data, LowByte(w));
    SerialStep(0xFFFF_FFFF, d1, LowByte(w1));
    SerialStep(0xFFFF_FFFF, d2, LowByte(w2));
    SerialStep(0xFFFF_FFFF, d3, LowByte(w3));
    assert data + Bytes(w) == d3 + [LowByte(w3)];
    FeedWord(c, w);
    AllOnes(c);
    OnesFor32();
  }

  lemma CheckSteps0()
    ensures Step8(Xor(0xFFFF_FFFF, Word(0x31))) == 0x7C23_1048
    ensures Step8(Xor(0x7C23_1048, Word(0x32))) == 0xB0AC_BB32
    ensures Step8(Xor(0xB0AC_BB32, Word(0x33))) == 0x77B7_9C2D
  {
  }

  lemma CheckSteps1()
    ensures Step8(Xor(0x77B7_9C2D, Word(0x34))) == 0x641C_1F5C
    ensures Step8(Xor(0x641C_1F5C, Word(0x35))) == 0x340A_C5E3
    ensures Step8(Xor(0x340A_C5E3, Word(0x36))) == 0xF68D_2C9E
  {
  }

  lemma CheckSteps2()
    ensures Step8(Xor(0xF68D_2C9E, Word(0x37))) == 0xAFFC_9660
    ensures Step8(Xor(0xAFFC_9660, Word(0x38))) == 0x651F_2550
    ensures Step8(Xor(0x651F_2550, Word(0x39))) == 0x340B_C6D9
  {
  }

  // The published check value, of the nine digits.
  lemma CheckValue()
    ensures Reference([0x31, 0x32, 0x33, 0x34, 0x35, 0x36, 0x37, 0x38, 0x39]) == 0xCBF4_3926
  {
    hide Step8, Word, FeedBits;
    CheckSteps0();
    CheckSteps1();
    CheckSteps2();
    var d0: seq<bv8> := [];
    assert Serial(0xFFFF_FFFF, d0) == 0xFFFF_FFFF;
    var d1 := d0 + [0x31];
    SerialStep(0xFFFF_FFFF, d0, 0x31);
    var d2 := d1 + [0x32];
    SerialStep(0xFFFF_FFFF, d1, 0x32);
    var d3 := d2 + [0x33];
    SerialStep(0xFFFF_FFFF, d2, 0x33);
    var d4 := d3 + [0x34];
    SerialStep(0xFFFF_FFFF, d3, 0x34);
    var d5 := d4 + [0x35];
    SerialStep(0xFFFF_FFFF, d4, 0x35);
    var d6 := d5 + [0x36];
    SerialStep(0xFFFF_FFFF, d5, 0x36);
    var d7 := d6 + [0x37];
    SerialStep(0xFFFF_FFFF, d6, 0x37);
    var d8 := d7 + [0x38];
    SerialStep(0xFFFF_FFFF, d7, 0x38);
    var d9 := d8 + [0x39];
    SerialStep(0xFFFF_FFFF, d8, 0x39);
    assert d9 == [0x31, 0x32, 0x33, 0x34, 0x35, 0x36, 0x37, 0x38, 0x39];
  }
}
