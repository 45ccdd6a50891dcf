/** stbiw__crc32: the CRC a byte at a time, through a table of 256 remainders. */
module StbCrc {
  import opened BitStrings
  import opened PngFormat

  // ---------- Dividing is linear ----------

  lemma ShiftOfXor(a: bv32, b: bv32)
    ensures (a ^ b) >> 1 == (a >> 1) ^ (b >> 1)
    ensures ((a ^ b) & 1 == 1) == ((a & 1 == 1) != (b & 1 == 1))
  {
  }

  lemma XorTwice(a: bv32, b: bv32, p: bv32)
    ensures (a ^ p) ^ (b ^ p) == a ^ b && (a ^ p) ^ b == (a ^ b) ^ p && a ^ (b ^ p) == (a ^ b) ^ p
  {
  }

  lemma BitOfXor(a: bv32, b: bv32)
    ensures CrcBit(a ^ b) == CrcBit(a) ^ CrcBit(b)
  {
    ShiftOfXor(a, b);
    XorTwice(a >> 1, b >> 1, POLYNOMIAL);
  }

  lemma BitLinear(a: bv32, b: bv32, c: bv32)
    requires c == XorWord(a, b)
    ensures CrcBit(c) == XorWord(CrcBit(a), CrcBit(b))
  {
    hide CrcBit;
    BitOfXor(a, b);
  }

  lemma ByteLinear(a: bv32, b: bv32, c: bv32)
    requires c == XorWord(a, b)
    ensures CrcByte(c) == XorWord(CrcByte(a), CrcByte(b))
  {
    hide CrcBit, XorWord;
    var a1, b1, c1 := CrcBit(a), CrcBit(b), CrcBit(c);
    var a2, b2, c2 := CrcBit(a1), CrcBit(b1), CrcBit(c1);
    var a3, b3, c3 := CrcBit(a2), CrcBit(b2), CrcBit(c2);
    var a4, b4, c4 := CrcBit(a3), CrcBit(b3), CrcBit(c3);
    var a5, b5, c5 := CrcBit(a4), CrcBit(b4), CrcBit(c4);
    var a6, b6, c6 := CrcBit(a5), CrcBit(b5), CrcBit(c5);
    var a7, b7, c7 := CrcBit(a6), CrcBit(b6), CrcBit(c6);
    BitLinear(a, b, c);
    BitLinear(a1, b1, c1);
    BitLinear(a2, b2, c2);
    BitLinear(a3, b3, c3);
    BitLinear(a4, b4, c4);
    BitLinear(a5, b5, c5);
    BitLinear(a6, b6, c6);
    BitLinear(a7, b7, c7);
  }

  /** Dividing shifts zeros out. */
  lemma ZerosOut(h: bv32)
    requires h & 0xFF == 0
    ensures CrcByte(h) == h >> 8
  {
  }

  // ---------- The table ----------

  /** The 256 words of the table, eight to a row. */
  const CRC_ROWS: seq<seq<bv32>> := [
    [0x00000000, 0x77073096, 0xEE0E612C, 0x990951BA, 0x076DC419, 0x706AF48F, 0xE963A535, 0x9E6495A3],
    [0x0EDB8832, 0x79DCB8A4, 0xE0D5E91E, 0x97D2D988, 0x09B64C2B, 0x7EB17CBD, 0xE7B82D07, 0x90BF1D91],
    [0x1DB71064, 0x6AB020F2, 0xF3B97148, 0x84BE41DE, 0x1ADAD47D, 0x6DDDE4EB, 0xF4D4B551, 0x83D385C7],
    [0x136C9856, 0x646BA8C0, 0xFD62F97A, 0x8A65C9EC, 0x14015C4F, 0x63066CD9, 0xFA0F3D63, 0x8D080DF5],
    [0x3B6E20C8, 0x4C69105E, 0xD56041E4, 0xA2677172, 0x3C03E4D1, 0x4B04D447, 0xD20D85FD, 0xA50AB56B],
    [0x35B5A8FA, 0x42B2986C, 0xDBBBC9D6, 0xACBCF940, 0x32D86CE3, 0x45DF5C75, 0xDCD60DCF, 0xABD13D59],
    [0x26D930AC, 0x51DE003A, 0xC8D75180, 0xBFD06116, 0x21B4F4B5, 0x56B3C423, 0xCFBA9599, 0xB8BDA50F],
    [0x2802B89E, 0x5F058808, 0xC60CD9B2, 0xB10BE924, 0x2F6F7C87, 0x58684C11, 0xC1611DAB, 0xB6662D3D],
    [0x76DC4190, 0x01DB7106, 0x98D220BC, 0xEFD5102A, 0x71B18589, 0x06B6B51F, 0x9FBFE4A5, 0xE8B8D433],
    [0x7807C9A2, 0x0F00F934, 0x9609A88E, 0xE10E9818, 0x7F6A0DBB, 0x086D3D2D, 0x91646C97, 0xE6635C01],
    [0x6B6B51F4, 0x1C6C6162, 0x856530D8, 0xF262004E, 0x6C0695ED, 0x1B01A57B, 0x8208F4C1, 0xF50FC457],
    [0x65B0D9C6, 0x12B7E950, 0x8BBEB8EA, 0xFCB9887C, 0x62DD1DDF, 0x15DA2D49, 0x8CD37CF3, 0xFBD44C65],
    [0x4DB26158, 0x3AB551CE, 0xA3BC0074, 0xD4BB30E2, 0x4ADFA541, 0x3DD895D7, 0xA4D1C46D, 0xD3D6F4FB],
    [0x4369E96A, 0x346ED9FC, 0xAD678846, 0xDA60B8D0, 0x44042D73, 0x33031DE5, 0xAA0A4C5F, 0xDD0D7CC9],
    [0x5005713C, 0x270241AA, 0xBE0B1010, 0xC90C2086, 0x5768B525, 0x206F85B3, 0xB966D409, 0xCE61E49F],
    [0x5EDEF90E, 0x29D9C998, 0xB0D09822, 0xC7D7A8B4, 0x59B33D17, 0x2EB40D81, 0xB7BD5C3B, 0xC0BA6CAD],
    [0xEDB88320, 0x9ABFB3B6, 0x03B6E20C, 0x74B1D29A, 0xEAD54739, 0x9DD277AF, 0x04DB2615, 0x73DC1683],
    [0xE3630B12, 0x94643B84, 0x0D6D6A3E, 0x7A6A5AA8, 0xE40ECF0B, 0x9309FF9D, 0x0A00AE27, 0x7D079EB1],
    [0xF00F9344, 0x8708A3D2, 0x1E01F268, 0x6906C2FE, 0xF762575D, 0x806567CB, 0x196C3671, 0x6E6B06E7],
    [0xFED41B76, 0x89D32BE0, 0x10DA7A5A, 0x67DD4ACC, 0xF9B9DF6F, 0x8EBEEFF9, 0x17B7BE43, 0x60B08ED5],
    [0xD6D6A3E8, 0xA1D1937E, 0x38D8C2C4, 0x4FDFF252, 0xD1BB67F1, 0xA6BC5767, 0x3FB506DD, 0x48B2364B],
    [0xD80D2BDA, 0xAF0A1B4C, 0x36034AF6, 0x41047A60, 0xDF60EFC3, 0xA867DF55, 0x316E8EEF, 0x4669BE79],
    [0xCB61B38C, 0xBC66831A, 0x256FD2A0, 0x5268E236, 0xCC0C7795, 0xBB0B4703, 0x220216B9, 0x5505262F],
    [0xC5BA3BBE, 0xB2BD0B28, 0x2BB45A92, 0x5CB36A04, 0xC2D7FFA7, 0xB5D0CF31, 0x2CD99E8B, 0x5BDEAE1D],
    [0x9B64C2B0, 0xEC63F226, 0x756AA39C, 0x026D930A, 0x9C0906A9, 0xEB0E363F, 0x72076785, 0x05005713],
    [0x95BF4A82, 0xE2B87A14, 0x7BB12BAE, 0x0CB61B38, 0x92D28E9B, 0xE5D5BE0D, 0x7CDCEFB7, 0x0BDBDF21],
    [0x86D3D2D4, 0xF1D4E242, 0x68DDB3F8, 0x1FDA836E, 0x81BE16CD, 0xF6B9265B, 0x6FB077E1, 0x18B74777],
    [0x88085AE6, 0xFF0F6A70, 0x66063BCA, 0x11010B5C, 0x8F659EFF, 0xF862AE69, 0x616BFFD3, 0x166CCF45],
    [0xA00AE278, 0xD70DD2EE, 0x4E048354, 0x3903B3C2, 0xA7672661, 0xD06016F7, 0x4969474D, 0x3E6E77DB],
    [0xAED16A4A, 0xD9D65ADC, 0x40DF0B66, 0x37D83BF0, 0xA9BCAE53, 0xDEBB9EC5, 0x47B2CF7F, 0x30B5FFE9],
    [0xBDBDF21C, 0xCABAC28A, 0x53B39330, 0x24B4A3A6, 0xBAD03605, 0xCDD70693, 0x54DE5729, 0x23D967BF],
    [0xB3667A2E, 0xC4614AB8, 0x5D681B02, 0x2A6F2B94, 0xB40BBE37, 0xC30C8EA1, 0x5A05DF1B, 0x2D02EF8D]
  ]

  function Row(r: nat): (row: seq<bv32>)
    requires r < 32
    ensures |row| == 8
  {
    CRC_ROWS[r]
  }

  function RowOf(index: bv8): (r: nat)
    ensures r < 32
  {
    ((index >> 3) as bv5) as nat
  }

  function ColumnOf(index: bv8): (j: nat)
    ensures j < 8
  {
    ((index & 7) as bv3) as nat
  }

  function Entry(index: bv8): bv32 {
    Row(RowOf(index))[ColumnOf(index)]
  }

  /** A row is the first row with its first word added to each. */
  predicate RowSum(row: seq<bv32>, low: seq<bv32>)
    requires |row| == |low| == 8
  {
    && row[0] == XorWord(row[0], low[0]) && row[1] == XorWord(row[0], low[1]) && row[2] == XorWord(row[0], low[2])
    && row[3] == XorWord(row[0], low[3]) && row[4] == XorWord(row[0], low[4]) && row[5] == XorWord(row[0], low[5])
    && row[6] == XorWord(row[0], low[6]) && row[7] == XorWord(row[0], low[7])
  }

  lemma RowSums0(r: nat)
    requires r < 4
    ensures RowSum(Row(r), Row(0))
  {
  }

  lemma RowSums4(r: nat)
    requires 4 <= r < 8
    ensures RowSum(Row(r), Row(0))
  {
  }

  lemma RowSums8(r: nat)
    requires 8 <= r < 16
    ensures RowSum(Row(r), Row(0))
  {
    if r < 12 {
    } else {
    }
  }

  lemma RowSums16(r: nat)
    requires 16 <= r < 24
    ensures RowSum(Row(r), Row(0))
  {
    if r < 20 {
    } else {
    }
  }

  lemma RowSums24(r: nat)
    requires 24 <= r < 32
    ensures RowSum(Row(r), Row(0))
  {
    if r < 28 {
    } else {
    }
  }

  /** The index of a row's first word. */
  function RowStart(r: nat): bv32
    requires r < 32
  {
    ((r as bv5) as bv32) << 3
  }

  lemma FirstWords0(r: nat)
    requires r < 8
    ensures Row(r)[0] == CrcByte(RowStart(r))
  {
  }

  lemma FirstWords8(r: nat)
    requires 8 <= r < 16
    ensures Row(r)[0] == CrcByte(RowStart(r))
  {
  }

  lemma FirstWords16(r: nat)
    requires 16 <= r < 24
    ensures Row(r)[0] == CrcByte(RowStart(r))
  {
    if r < 20 {
    } else {
    }
  }

  lemma FirstWords24(r: nat)
    requires 24 <= r < 32
    ensures Row(r)[0] == CrcByte(RowStart(r))
  {
    if r < 28 {
    } else {
    }
  }

  /** The index of a word in the first row. */
  function Column(j: nat): bv32
    requires j < 8
  {
    (j as bv3) as bv32
  }

  lemma FirstRow(j: nat)
    requires j < 8
    ensures Row(0)[j] == CrcByte(Column(j))
  {
  }

  lemma RowSums(r: nat, j: nat)
    requires r < 32 && j < 8
    ensures Row(r)[j] == XorWord(Row(r)[0], Row(0)[j])
  {
    hide Row, XorWord;
    if r < 4 {
      RowSums0(r);
    } else if r < 8 {
      RowSums4(r);
    } else if r < 16 {
      RowSums8(r);
    } else if r < 24 {
      RowSums16(r);
    } else {
      RowSums24(r);
    }
  }

  lemma FirstWords(r: nat)
    requires r < 32
    ensures Row(r)[0] == CrcByte(RowStart(r))
  {
    hide Row, CrcByte, RowStart;
    if r < 8 {
      FirstWords0(r);
    } else if r < 16 {
      FirstWords8(r);
    } else if r < 24 {
      FirstWords16(r);
    } else {
      FirstWords24(r);
    }
  }

  lemma IndexParts(index: bv8)
    ensures XorWord(RowStart(RowOf(index)), Column(ColumnOf(index))) == index as bv32
  {
    var high, low := (index >> 3) as bv5, (index & 7) as bv3;
    assert (high as nat) as bv5 == high && (low as nat) as bv3 == low;
    PartsMeet(index);
  }

  lemma PartsMeet(index: bv8)
    ensures ((((index >> 3) as bv5) as bv32) << 3) ^ (((index & 7) as bv3) as bv32) == index as bv32
  {
  }

  /** Each of the 256 words is the remainder of its index. */
  lemma EntryIsRemainder(index: bv8)
    ensures Entry(index) == CrcByte(index as bv32)
  {
    hide Row, CrcByte, XorWord, RowOf, ColumnOf, RowStart, Column;
    var r, j := RowOf(index), ColumnOf(index);
    IndexParts(index);
    RowSums(r, j);
    FirstWords(r);
    FirstRow(j);
    ByteLinear(RowStart(r), Column(j), index as bv32);
  }

  // ---------- stbiw__crc32 ----------

  /** The index that a byte selects. */
  function Index(c: bv32, b: bv8): bv8 {
    ((c & 0xFF) as bv8) ^ b
  }

  function ShiftByte(c: bv32): bv32 {
    c >> 8
  }

  function High(c: bv32): (h: bv32)
    ensures h & 0xFF == 0
  {
    c & 0xFFFF_FF00
  }

  lemma SplitBits(c: bv32, b: bv8, high: bv32, index: bv8)
    requires high == c & 0xFFFF_FF00 && index == ((c & 0xFF) as bv8) ^ b
    ensures c ^ (b as bv32) == high ^ (index as bv32)
  {
  }

  lemma SplitXor(c: bv32, b: bv8, high: bv32, index: bv8)
    requires high == High(c) && index == Index(c, b)
    ensures c ^ (b as bv32) == high ^ (index as bv32)
  {
    SplitBits(c, b, high, index);
  }

  lemma SplitWord(c: bv32, b: bv8)
    ensures XorWord(c, b as bv32) == XorWord(High(c), Index(c, b) as bv32)
  {
    hide High, Index;
    SplitXor(c, b, High(c), Index(c, b));
  }

  lemma ShiftHigh(c: bv32)
    ensures (c & 0xFFFF_FF00) >> 8 == c >> 8
  {
  }

  lemma HighOut(c: bv32)
    ensures CrcByte(High(c)) == ShiftByte(c)
  {
    hide CrcByte;
    ShiftHigh(c);
    ZerosOut(High(c));
  }

  /** A byte at a time through the table is a bit at a time without one. */
  lemma TableStep(c: bv32, b: bv8)
    ensures XorWord(ShiftByte(c), Entry(Index(c, b))) == CrcByte(XorWord(c, b as bv32))
  {
    hide Entry, CrcByte, XorWord, High, Index, ShiftByte;
    SplitWord(c, b);
    HighOut(c);
    EntryIsRemainder(Index(c, b));
    ByteLinear(High(c), Index(c, b) as bv32, XorWord(c, b as bv32));
  }

  lemma Complement(w: bv32)
    ensures !w == w ^ 0xFFFF_FFFF
  {
  }

  method Crc(buffer: seq<Byte>) returns (crc: nat)
    ensures crc == Crc32(buffer)
  {
    hide Entry, CrcByte, XorWord, Index, ShiftByte;
    var register: bv32 := 0xFFFF_FFFF;
    for i := 0 to |buffer|
      invariant register == CrcRegister(buffer[..i])
    {
      assert buffer[..i + 1][..i] == buffer[..i];
      TableStep(register, buffer[i] as bv8);
      register := XorWord(ShiftByte(register), Entry(Index(register, buffer[i] as bv8)));
    }
    assert buffer[..|buffer|] == buffer;
    Complement(register);
    crc := (!register) as nat;
  }
}
