/**
 The zlib compressor of stb_image_write.h: a bit writer, LZ77 matching over hash buckets with lazy
 evaluation, the fixed Huffman code, the stored fallback and the deferred-modulo Adler-32.
 */
module StbZlib {
  import Arithmetic
  import opened BitStrings
  import opened StbMatch
  import opened Wrappers
  import opened ZlibFormat
  import opened ZlibTokens

  // ---------- stbiw__zlib_bitrev and the bit buffer ----------

  /** Reverses the low codebits of code, so that packing the result low bit first sends code high bit first. */
  method BitReverse(code: nat, codebits: nat) returns (res: nat)
    ensures res < Pow2(codebits)
    ensures Lsb(res, codebits) == Msb(code, codebits)
  {
    res := 0;
    var c, left := code, codebits;
    while left > 0
      invariant 0 <= left <= codebits
      invariant res < Pow2(codebits - left)
      invariant Msb(code, codebits) == Msb(c, left) + Lsb(res, codebits - left)
    {
      var bit := c % 2;
      ghost var next := Lsb(2 * res + bit, codebits - left + 1);
      assert next == [bit == 1] + Lsb(res, codebits - left) by {
        assert (2 * res + bit) / 2 == res && (2 * res + bit) % 2 == bit;
      }
      assert Msb(c, left) == Msb(c / 2, left - 1) + [bit == 1];
      res := 2 * res + bit;
      c := c / 2;
      left := left - 1;
    }
  }

  /** Left shift of a 32-bit unsigned int. */
  function Shl32(x: nat, k: nat): nat {
    x * Pow2(k) % 0x1_0000_0000
  }

  /** The output buffer together with the bits that do not fill a byte yet. */
  class BitWriter {
    var out: seq<Byte>
    var bitbuf: nat
    var bitcount: nat

    ghost predicate Valid()
      reads this
    {
      bitcount < 8 && bitbuf < Pow2(bitcount)
    }

    /** Everything written so far, as a bit string. */
    ghost function Bits(): seq<bool>
      reads this
    {
      BytesToBits(out) + Lsb(bitbuf, bitcount)
    }

    constructor ()
      ensures Valid() && out == [] && bitcount == 0 && Bits() == []
    {
      out, bitbuf, bitcount := [], 0, 0;
    }

    /** stbiw__zlib_flushf: moves whole bytes from the bit buffer to the output. */
    method Flush()
      requires bitbuf < Pow2(bitcount)
      modifies this
      ensures Valid() && Bits() == old(Bits())
      ensures bitcount == old(bitcount) % 8
    {
      hide Lsb, BytesToBits, Pow2;
      while bitcount >= 8
        invariant bitbuf < Pow2(bitcount)
        invariant bitcount % 8 == old(bitcount) % 8
        invariant Bits() == old(Bits())
      {
        Pow2Byte(bitcount);
        PushedByte(out, bitbuf, bitcount);
        out := out + [Uchar(bitbuf)];
        bitbuf := bitbuf / 256;
        bitcount := bitcount - 8;
      }
    }

    /** stbiw__zlib_add: appends the low codebits of code, least-significant bit first. */
    method Add(code: nat, codebits: nat)
      requires Valid() && codebits <= 13 && code < Pow2(codebits)
      modifies this
      ensures Valid() && Bits() == old(Bits()) + Lsb(code, codebits)
      ensures bitcount == (old(bitcount) + codebits) % 8
    {
      hide Lsb, BytesToBits, Pow2, Or, Shl32;
      PlacedCode(bitbuf, bitcount, code, codebits);
      ConcatAssociates(BytesToBits(out), Lsb(bitbuf, bitcount), Lsb(code, codebits));
      bitbuf := Or(bitbuf, Shl32(code, bitcount));
      bitcount := bitcount + codebits;
      Flush();
    }

    /** stbiw__zlib_huffa: appends a Huffman code, most-significant bit first. */
    method AddCode(code: nat, codebits: nat)
      requires Valid() && codebits <= 13
      modifies this
      ensures Valid() && Bits() == old(Bits()) + Msb(code, codebits)
    {
      var reversed := BitReverse(code, codebits);
      Add(reversed, codebits);
    }

    /** stbiw__zlib_huff: the fixed code of any literal/length symbol. */
    method Huff(n: nat)
      requires Valid() && n <= 287
      modifies this
      ensures Valid() && Bits() == old(Bits()) + SymbolBits(n)
    {
      hide Bits, Msb, Pow2;
      if n <= 143 {
        AddCode(0x30 + n, 8);
      } else if n <= 255 {
        AddCode(0x190 + n - 144, 9);
      } else if n <= 279 {
        AddCode(0 + n - 256, 7);
      } else {
        AddCode(0xC0 + n - 280, 8);
      }
    }

    /** stbiw__zlib_huffb: the fixed code of a literal byte. */
    method HuffByte(n: Byte)
      requires Valid()
      modifies this
      ensures Valid() && Bits() == old(Bits()) + SymbolBits(n)
    {
      hide Bits, Msb, Pow2;
      if n <= 143 {
        AddCode(0x30 + n as int, 8);
      } else {
        AddCode(0x190 + n as int - 144, 9);
      }
    }

    /** Pads with zero bits to a byte boundary. */
    method Pad() returns (ghost pad: seq<bool>)
      requires Valid()
      modifies this
      ensures Valid() && bitcount == 0 && |pad| < 8 && forall b :: b in pad ==> !b
      ensures BytesToBits(out) == old(Bits()) + pad
    {
      hide Lsb, BytesToBits, Pow2;
      OneBit();
      pad := [];
      while bitcount != 0
        invariant Valid() && Bits() == old(Bits()) + pad && forall b :: b in pad ==> !b
        invariant if bitcount == 0 then |pad| < 8 else |pad| + 8 - bitcount < 8
        decreases if bitcount == 0 then 0 else 8 - bitcount
      {
        ghost var before := Bits();
        Add(0, 1);
        ConcatAssociates(old(Bits()), pad, Lsb(0, 1));
        ZeroBit();
        pad := pad + Lsb(0, 1);
      }
      assert Bits() == BytesToBits(out);
    }
  }

  lemma OneBit()
    ensures Pow2(1) == 2
  {
  }

  lemma ZeroBit()
    ensures Lsb(0, 1) == [false]
  {
  }

  lemma PushedByte(out: seq<Byte>, buf: nat, count: nat)
    requires 8 <= count
    ensures BytesToBits(out + [Uchar(buf)]) + Lsb(buf / 256, count - 8) == BytesToBits(out) + Lsb(buf, count)
  {
    BytesToBitsSnoc(out, Uchar(buf));
    LsbByte(buf, count - 8);
    ConcatAssociates(BytesToBits(out), Lsb(Uchar(buf), 8), Lsb(buf / 256, count - 8));
  }

  lemma ProductFits(code: nat, q: nat, p: nat)
    requires code < q <= 8192 && p <= 128
    ensures code * p < 0x1_0000_0000 && code * p + p <= q * p
  {
    Arithmetic.MulMono(code, p, 128);
    Arithmetic.MulMono(p, code + 1, q);
  }

  lemma SmallPow2(n: nat)
    ensures n <= 13 ==> Pow2(n) <= 8192
    ensures n <= 7 ==> Pow2(n) <= 128
  {
    assert Pow2(13) == 8192 && Pow2(7) == 128;
    if n <= 13 {
      Pow2Monotone(n, 13);
    }
    if n <= 7 {
      Pow2Monotone(n, 7);
    }
  }

  /** No bit is lost to the 32-bit buffer, and the or never overlaps. */
  lemma ShiftFits(code: nat, codebits: nat, count: nat)
    requires codebits <= 13 && code < Pow2(codebits) && count < 8
    ensures Shl32(code, count) == code * Pow2(count)
    ensures code * Pow2(count) + Pow2(count) <= Pow2(count + codebits)
  {
    hide Pow2;
    SmallPow2(codebits);
    SmallPow2(count);
    Pow2Add(codebits, count);
    ProductFits(code, Pow2(codebits), Pow2(count));
  }

  /** The buffer after adding a code holds the old bits followed by the new ones. */
  lemma PlacedCode(buf: nat, count: nat, code: nat, codebits: nat)
    requires codebits <= 13 && code < Pow2(codebits) && count < 8 && buf < Pow2(count)
    ensures Or(buf, Shl32(code, count)) < Pow2(count + codebits)
    ensures Lsb(Or(buf, Shl32(code, count)), count + codebits) == Lsb(buf, count) + Lsb(code, codebits)
  {
    hide Pow2, Lsb, Or, Shl32;
    ShiftFits(code, codebits, count);
    OrDisjoint(buf, code, count);
    LsbConcat(buf, count, code, codebits);
  }

  // ---------- Length and distance codes ----------

  const LENGTHC: seq<nat> := [3, 4, 5, 6, 7, 8, 9, 10, 11, 13, 15, 17, 19, 23, 27, 31, 35, 43, 51, 59, 67, 83, 99, 115,
                              131, 163, 195, 227, 258, 259]
  const LENGTHEB: seq<nat> := [0, 0, 0, 0, 0, 0, 0, 0, 1, 1, 1, 1, 2, 2, 2, 2, 3, 3, 3, 3, 4, 4, 4, 4, 5, 5, 5, 5, 0]
  const DISTC: seq<nat> := [1, 2, 3, 4, 5, 7, 9, 13, 17, 25, 33, 49, 65, 97, 129, 193, 257, 385, 513, 769, 1025, 1537,
                            2049, 3073, 4097, 6145, 8193, 12289, 16385, 24577, 32768]
  const DISTEB: seq<nat> := [0, 0, 0, 0, 1, 1, 2, 2, 3, 3, 4, 4, 5, 5, 6, 6, 7, 7, 8, 8, 9, 9, 10, 10, 11, 11, 12, 12,
                             13, 13]

  lemma SmallPowers()
    ensures Pow2(0) == 1 && Pow2(1) == 2 && Pow2(2) == 4 && Pow2(3) == 8 && Pow2(4) == 16 && Pow2(5) == 32
  {
  }

  lemma LargerPowers()
    ensures Pow2(6) == 64 && Pow2(7) == 128 && Pow2(8) == 256 && Pow2(9) == 512 && Pow2(10) == 1024 && Pow2(11) == 2048
    ensures Pow2(12) == 4096 && Pow2(13) == 8192
  {
  }

  lemma LengthExtraTable(j: nat)
    requires j <= 28
    ensures LENGTHEB[j] == LengthExtra(j) <= 5
  {
  }

  /** The encoder's length tables are those of section 3.2.5 of RFC 1951; the last entry only ends a search. */
  lemma LengthGap(j: nat)
    requires j <= 28
    ensures LENGTHEB[j] == LengthExtra(j) <= 5
    ensures LENGTHC[j] < LENGTHC[j + 1] <= LENGTHC[j] + Pow2(LengthExtra(j))
    ensures j < 27 ==> LENGTHC[j + 1] == LENGTHC[j] + Pow2(LengthExtra(j))
  {
    LengthExtraTable(j);
    if j < 27 {
      LengthNext(j);
    } else {
      SmallPowers();
    }
  }

  lemma LengthNext(j: nat)
    requires j < 27
    ensures LENGTHC[j + 1] == LENGTHC[j] + Pow2(LENGTHEB[j])
  {
    hide Pow2;
    SmallPowers();
    if j < 8 {
    } else if j < 16 {
    } else {
    }
  }

  lemma {:induction false} LengthTable(j: nat)
    requires j <= 28
    ensures LENGTHC[j] == LengthBase(j)
  {
    if 0 < j < 28 {
      LengthTable(j - 1);
      LengthGap(j - 1);
    }
  }

  lemma DistanceExtraTable(j: nat)
    requires j <= 29
    ensures DISTEB[j] == DistanceExtra(j) <= 13
  {
  }

  lemma DistanceGap(j: nat)
    requires j <= 29
    ensures DISTEB[j] == DistanceExtra(j) <= 13
    ensures DISTC[j] < DISTC[j + 1] <= DISTC[j] + Pow2(DistanceExtra(j))
    ensures j < 29 ==> DISTC[j + 1] == DISTC[j] + Pow2(DistanceExtra(j))
  {
    DistanceExtraTable(j);
    if j < 29 {
      DistanceNext(j);
    } else {
      LargerPowers();
    }
  }

  lemma DistanceNext(j: nat)
    requires j < 29
    ensures DISTC[j + 1] == DISTC[j] + Pow2(DISTEB[j])
  {
    hide Pow2;
    SmallPowers();
    LargerPowers();
    if j < 8 {
    } else if j < 16 {
    } else if j < 24 {
    } else {
    }
  }

  lemma {:induction false} DistanceTable(j: nat)
    requires j <= 29
    ensures DISTC[j] == DistanceBase(j)
  {
    if 0 < j {
      DistanceTable(j - 1);
      DistanceGap(j - 1);
    }
  }

  /** The last code up to j whose base does not exceed the length. */
  function LengthCode(length: nat, j: nat): (c: nat)
    requires j <= 28
    ensures c <= j
  {
    if j == 0 || LengthBase(j) <= length then j else LengthCode(length, j - 1)
  }

  function DistanceCode(distance: nat, j: nat): (c: nat)
    ensures c <= j
  {
    if j == 0 || DistanceBase(j) <= distance then j else DistanceCode(distance, j - 1)
  }

  lemma {:induction false} LengthCodeFound(length: nat, c: nat, j: nat)
    requires c <= j <= 28 && LENGTHC[c] <= length < LENGTHC[c + 1]
    ensures LengthCode(length, j) == c
    decreases j
  {
    LengthTable(j);
    if j > c {
      LengthsGrow(c + 1, j);
      LengthCodeFound(length, c, j - 1);
    }
  }

  lemma {:induction false} LengthsGrow(c: nat, j: nat)
    requires c <= j <= 28
    ensures LENGTHC[c] <= LENGTHC[j]
    decreases j
  {
    if c < j {
      LengthGap(j - 1);
      LengthsGrow(c, j - 1);
    }
  }

  lemma {:induction false} DistanceCodeFound(distance: nat, c: nat, j: nat)
    requires c <= j <= 29 && DISTC[c] <= distance < DISTC[c + 1]
    ensures DistanceCode(distance, j) == c
    decreases j
  {
    DistanceTable(j);
    if j > c {
      DistancesGrow(c + 1, j);
      DistanceCodeFound(distance, c, j - 1);
    }
  }

  lemma {:induction false} DistancesGrow(c: nat, j: nat)
    requires c <= j <= 29
    ensures DISTC[c] <= DISTC[j]
    decreases j
  {
    if c < j {
      DistanceGap(j - 1);
      DistancesGrow(c, j - 1);
    }
  }

  /** The linear search for the last length code whose base does not exceed the length, and what exceeds that base. */
  method FindLengthCode(best: nat) returns (j: nat, rest: nat, extra: nat)
    requires 3 <= best <= 258
    ensures IsLengthCode(best, j, rest) && extra == LengthExtra(j) <= 5 && j == LengthCode(best, 28)
  {
    j := 0;
    while best > LENGTHC[j + 1] - 1
      invariant j <= 28 && LENGTHC[j] <= best
      decreases 28 - j
    {
      assert LENGTHC[29] == 259;
      j := j + 1;
    }
    LengthGap(j);
    LengthTable(j);
    LengthCodeFound(best, j, 28);
    rest, extra := best - LENGTHC[j], LENGTHEB[j];
  }

  lemma DistanceFound(d: nat, j: nat)
    requires j <= 29 && DISTC[j] <= d < DISTC[j + 1]
    ensures IsDistanceCode(d, j, d - DISTC[j]) && DISTEB[j] == DistanceExtra(j) <= 13 && j == DistanceCode(d, 29)
  {
    hide Pow2, DistanceCode;
    DistanceGap(j);
    DistanceTable(j);
    DistanceCodeFound(d, j, 29);
  }

  /** The same search among the distance codes. */
  method FindDistanceCode(d: nat) returns (j: nat, rest: nat, extra: nat)
    requires 1 <= d <= 32767
    ensures IsDistanceCode(d, j, rest) && extra == DistanceExtra(j) <= 13 && j == DistanceCode(d, 29)
  {
    j := 0;
    while d > DISTC[j + 1] - 1
      invariant j <= 29 && DISTC[j] <= d
      decreases 29 - j
    {
      assert DISTC[30] == 32768;
      j := j + 1;
    }
    DistanceFound(d, j);
    rest, extra := d - DISTC[j], DISTEB[j];
  }

  /** Extra bits are skipped when there are none. */
  method WriteExtra(w: BitWriter, value: nat, n: nat)
    requires w.Valid() && n <= 13 && value < Pow2(n)
    modifies w
    ensures w.Valid() && w.Bits() == old(w.Bits()) + Lsb(value, n)
  {
    if n != 0 {
      w.Add(value, n);
    } else {
      assert w.Bits() + Lsb(value, n) == w.Bits();
    }
  }

  /** Writes the length half of a match: its symbol and extra bits. */
  method WriteLength(w: BitWriter, best: Length) returns (ghost j: nat, ghost lx: nat)
    requires w.Valid()
    modifies w
    ensures w.Valid() && IsLengthCode(best, j, lx) && j == LengthCode(best, 28)
    ensures w.Bits() == old(w.Bits()) + LengthBits(j, lx)
  {
    var lc, rest, extra := FindLengthCode(best);
    j, lx := lc, rest;
    ghost var before := w.Bits();
    w.Huff(lc + 257);
    WriteExtra(w, rest, extra);
    ConcatAssociates(before, SymbolBits(257 + j), Lsb(rest, extra));
  }

  /** Writes the distance half of a match: its five-bit code and extra bits. */
  method WriteDistance(w: BitWriter, d: nat) returns (ghost k: nat, ghost dx: nat)
    requires w.Valid() && 1 <= d <= 32767
    modifies w
    ensures w.Valid() && IsDistanceCode(d, k, dx) && k == DistanceCode(d, 29)
    ensures w.Bits() == old(w.Bits()) + DistanceBits(k, dx)
  {
    var dc, rest, extra := FindDistanceCode(d);
    k, dx := dc, rest;
    ghost var before := w.Bits();
    w.AddCode(dc, 5);
    WriteExtra(w, rest, extra);
    ConcatAssociates(before, Msb(k, 5), Lsb(rest, extra));
  }

  // ---------- Tokens as bits ----------

  /** A literal in the fixed code, a match in the last codes whose bases do not exceed its length and its distance. */
  function TokenBits(t: Token): seq<bool> {
    match t
    case Literal(byte) => SymbolBits(byte)
    case Match(length, distance) =>
      var j, k := LengthCode(length, 28), DistanceCode(distance, 29);
      MatchBits(j, BitsOver(length, LengthBase(j)), k, BitsOver(distance, DistanceBase(k)))
  }

  function BitsOver(value: nat, base: nat): nat {
    if base <= value then value - base else 0
  }

  function TokensBits(tokens: seq<Token>): seq<bool> {
    if tokens == [] then [] else TokensBits(tokens[..|tokens| - 1]) + TokenBits(tokens[|tokens| - 1])
  }

  lemma {:induction false} TokensSnoc(tokens: seq<Token>, t: Token)
    ensures TokensBits(tokens + [t]) == TokensBits(tokens) + TokenBits(t)
    ensures EndOf(tokens + [t]) == EndOf(tokens) + Advance(t)
    ensures Starts(tokens + [t]) == Starts(tokens) + [EndOf(tokens)]
  {
    assert (tokens + [t])[..|tokens|] == tokens;
  }

  /** The codes that the encoder finds are those of the token. */
  lemma MatchTokenBits(length: Length, distance: Distance, j: nat, lx: nat, k: nat, dx: nat)
    requires IsLengthCode(length, j, lx) && j == LengthCode(length, 28)
    requires IsDistanceCode(distance, k, dx) && k == DistanceCode(distance, 29)
    ensures TokenBits(Match(length, distance)) == MatchBits(j, lx, k, dx)
  {
    hide MatchBits;
  }

  lemma {:induction false} LengthCodeFits(length: Length, j: nat)
    requires j <= 28 && length < LENGTHC[j + 1]
    ensures var c := LengthCode(length, j); IsLengthCode(length, c, BitsOver(length, LengthBase(c)))
    decreases j
  {
    hide Pow2;
    LengthGap(j);
    LengthTable(j);
    if LengthBase(j) > length {
      LengthCodeFits(length, j - 1);
    }
  }

  lemma {:induction false} DistanceCodeFits(distance: Distance, j: nat)
    requires j <= 29 && distance < DISTC[j + 1]
    ensures var c := DistanceCode(distance, j); IsDistanceCode(distance, c, BitsOver(distance, DistanceBase(c)))
    decreases j
  {
    hide Pow2;
    DistanceGap(j);
    DistanceTable(j);
    if DistanceBase(j) > distance {
      DistanceCodeFits(distance, j - 1);
    }
  }

  /** Whatever data and quality, the bits of the tokens decode to the bytes that the tokens stand for. */
  lemma {:induction false} TokensDecode(data: seq<Byte>, quality: nat, tokens: seq<Token>)
    requires quality >= 1 && Parsed(data, quality, tokens)
    ensures EndOf(tokens) <= |data| && Decodes(TokensBits(tokens), data[..EndOf(tokens)])
    decreases |tokens|
  {
    hide Decodes, IsToken, TokenBits;
    if tokens == [] {
      DecodesNothing();
      assert data[..0] == [];
    } else {
      var init, t := tokens[..|tokens| - 1], tokens[|tokens| - 1];
      TokensDecode(data, quality, init);
      OneMoreDecodes(data, quality, init, t);
    }
  }

  lemma LiteralIs(data: seq<Byte>, quality: nat, starts: seq<nat>, i: nat, b: Byte)
    requires i < |data| && quality >= 1 && forall p :: p in starts ==> p < i
    requires if i + 3 < |data| then IsToken(data, quality, starts, i, Literal(b)) else b == data[i]
    ensures b == data[i]
  {
  }

  lemma OneMoreDecodes(data: seq<Byte>, quality: nat, init: seq<Token>, t: Token)
    requires quality >= 1 && EndOf(init) < |data|
    requires if EndOf(init) + 3 < |data| then IsToken(data, quality, Starts(init), EndOf(init), t)
             else t == Literal(data[EndOf(init)])
    requires Decodes(TokensBits(init), data[..EndOf(init)])
    ensures var end := EndOf(init) + Advance(t);
      end <= |data| && Decodes(TokensBits(init) + TokenBits(t), data[..end])
  {
    hide Decodes, IsToken, Starts, TokensBits, TokenBits, EndOf;
    var i := EndOf(init);
    match t {
      case Literal(byte) =>
        LiteralIs(data, quality, Starts(init), i, byte);
        LiteralTokenDecodes(TokensBits(init), data, i);
      case Match(length, distance) =>
        MatchRepeats(data, quality, Starts(init), i, length, distance);
        MatchTokenDecodes(TokensBits(init), data, i, length, distance);
    }
  }

  lemma LiteralTokenDecodes(bits: seq<bool>, data: seq<Byte>, i: nat)
    requires i < |data| && Decodes(bits, data[..i])
    ensures Decodes(bits + TokenBits(Literal(data[i])), data[..i + 1])
  {
    hide Decodes, SymbolBits;
    DecodesLiteral(bits, data[..i], data[i]);
    assert data[..i] + [data[i]] == data[..i + 1];
  }

  lemma MatchTokenDecodes(bits: seq<bool>, data: seq<Byte>, i: nat, length: Length, distance: Distance)
    requires distance <= 32767 && distance <= i && i + length <= |data| && Decodes(bits, data[..i])
    requires forall p :: i <= p < i + length ==> data[p] == data[p - distance]
    ensures Decodes(bits + TokenBits(Match(length, distance)), data[..i + length])
  {
    hide Decodes, MatchBits, LengthCode, DistanceCode, IsLengthCode, IsDistanceCode;
    var c, e := LengthCode(length, 28), DistanceCode(distance, 29);
    LengthCodeFits(length, 28);
    DistanceCodeFits(distance, 29);
    DecodesMatch(bits, data[..i], length, c, BitsOver(length, LengthBase(c)),
                 distance, e, BitsOver(distance, DistanceBase(e)));
    CopyBackRepeats(data, i, length, distance);
  }

  // ---------- stbi_zlib_compress ----------

  const HEADER: seq<Byte> := [0x78, 0x5E]

  ghost function FirstBits(): seq<bool> {
    BytesToBits(HEADER) + Lsb(1, 1) + Lsb(1, 2)
  }

  method WriteLiteral(w: BitWriter, b: Byte)
    requires w.Valid()
    modifies w
    ensures w.Valid() && w.Bits() == old(w.Bits()) + TokenBits(Literal(b))
  {
    w.HuffByte(b);
  }

  method WriteMatch(w: BitWriter, best: Length, d: Distance)
    requires w.Valid() && d <= 32767
    modifies w
    ensures w.Valid() && w.Bits() == old(w.Bits()) + TokenBits(Match(best, d))
  {
    hide TokenBits;
    ghost var bits := w.Bits();
    ghost var j, lx := WriteLength(w, best);
    ghost var k, dx := WriteDistance(w, d);
    ConcatAssociates(bits, LengthBits(j, lx), DistanceBits(k, dx));
    MatchTokenBits(best, d, j, lx, k, dx);
  }

  /** What has been written starts the block and holds the tokens, which are those of the data up to i. */
  ghost predicate Written(bits: seq<bool>, data: seq<Byte>, quality: nat, tokens: seq<Token>, i: nat)
    requires quality >= 1
  {
    Parsed(data, quality, tokens) && EndOf(tokens) == i && bits == FirstBits() + TokensBits(tokens)
  }

  lemma WrittenMore(bits: seq<bool>, data: seq<Byte>, quality: nat, tokens: seq<Token>, i: nat, t: Token)
    requires quality >= 1 && i < |data| && Written(bits, data, quality, tokens, i)
    requires if i + 3 < |data| then IsToken(data, quality, Starts(tokens), i, t) else t == Literal(data[i])
    ensures Written(bits + TokenBits(t), data, quality, tokens + [t], i + Advance(t))
  {
    hide IsToken, TokenBits, FirstBits;
    TokensSnoc(tokens, t);
    ConcatAssociates(FirstBits(), TokensBits(tokens), TokenBits(t));
    assert (tokens + [t])[..|tokens|] == tokens;
  }

  lemma WrittenInside(bits: seq<bool>, data: seq<Byte>, quality: nat, tokens: seq<Token>, i: nat)
    requires quality >= 1 && Written(bits, data, quality, tokens, i)
    ensures i <= |data| && i == EndOf(tokens)
  {
    hide IsToken, FirstBits;
    TokensDecode(data, quality, tokens);
  }

  lemma WrittenNothing(data: seq<Byte>, quality: nat)
    requires quality >= 1
    ensures Written(FirstBits(), data, quality, [], 0) && Starts([]) == []
  {
    assert FirstBits() + [] == FirstBits();
  }

  /** The matching loop: at each position the token that the positions passed determine. */
  method WriteMatches(w: BitWriter, data: seq<Byte>, quality: nat) returns (i: nat, ghost tokens: seq<Token>)
    requires w.Valid() && w.Bits() == FirstBits() && quality >= 5
    modifies w
    ensures w.Valid() && Written(w.Bits(), data, quality, tokens, i)
    ensures i <= |data| < i + 4
  {
    hide Written, IsToken, BucketAt, Bucket, TokenBits, Starts, Parsed, Records, EndOf, TokensBits, FirstBits;
    var table := new seq<nat>[ZHASH](_ => []);
    i, tokens := 0, [];
    RecordsNothing(table[..], data, quality);
    WrittenNothing(data, quality);
    while i + 3 < |data|
      invariant 0 <= i <= |data| && w.Valid() && fresh(table)
      invariant Written(w.Bits(), data, quality, tokens, i) && i == EndOf(tokens)
      invariant Records(table[..], data, quality, Starts(tokens))
    {
      var best, bestloc := ChooseMatch(table, data, i, quality, Starts(tokens));
      ghost var t := TokenOf(data, i, best, bestloc);
      WrittenMore(w.Bits(), data, quality, tokens, i, t);
      TokensSnoc(tokens, t);
      if bestloc.Some? {
        WriteMatch(w, best, i - bestloc.value);
        i := i + best;
      } else {
        WriteLiteral(w, data[i]);
        i := i + 1;
      }
      tokens := tokens + [t];
      WrittenInside(w.Bits(), data, quality, tokens, i);
    }
  }

  /** The matching loop, then the final bytes as literals. */
  method WriteSymbols(w: BitWriter, data: seq<Byte>, quality: nat) returns (ghost tokens: seq<Token>)
    requires w.Valid() && w.Bits() == FirstBits() && quality >= 5
    modifies w
    ensures w.Valid() && Written(w.Bits(), data, quality, tokens, |data|)
  {
    hide Written, TokenBits, IsToken;
    var i;
    i, tokens := WriteMatches(w, data, quality);
    while i < |data|
      invariant i <= |data| < i + 4 && w.Valid()
      invariant Written(w.Bits(), data, quality, tokens, i)
    {
      WrittenMore(w.Bits(), data, quality, tokens, i, Literal(data[i]));
      WriteLiteral(w, data[i]);
      tokens := tokens + [Literal(data[i])];
      i := i + 1;
    }
  }

  /** Header bytes and one final block of these tokens. */
  ghost function FixedBits(tokens: seq<Token>): seq<bool> {
    FirstBits() + TokensBits(tokens) + SymbolBits(256)
  }

  /** The bytes hold the bits and, up to the end of the last byte, zero bits. */
  ghost predicate Packs(bytes: seq<Byte>, bits: seq<bool>) {
    exists pad: seq<bool> :: |pad| < 8 && (forall b :: b in pad ==> !b) && BytesToBits(bytes) == bits + pad
  }

  /** The whole fixed-Huffman stream: header bytes, one final block with the tokens of the data, zero padding. */
  method CompressFixed(data: seq<Byte>, quality: nat) returns (out: seq<Byte>, ghost tokens: seq<Token>)
    requires quality >= 5
    ensures |out| >= 4 && out[..2] == HEADER
    ensures InflatesTo(out[2..], data)
    ensures Parsed(data, quality, tokens) && EndOf(tokens) == |data| && Packs(out, FixedBits(tokens))
  {
    hide Parsed, InflatesTo;
    var w := new BitWriter();
    w.out := w.out + [0x78];
    w.out := w.out + [0x5E];
    StartsBlock(w.out);
    w.Add(1, 1);
    w.Add(1, 2);
    tokens := WriteSymbols(w, data, quality);
    TokensDecode(data, quality, tokens);
    assert data[..|data|] == data;
    w.Huff(256);
    ghost var pad := w.Pad();
    out := w.out;
    FixedStream(out, TokensBits(tokens), data, pad);
  }

  lemma StartsBlock(out: seq<Byte>)
    requires out == [] + [0x78] + [0x5E]
    ensures BytesToBits(out) + Lsb(0, 0) + Lsb(1, 1) + Lsb(1, 2) == FirstBits()
    ensures Pow2(0) == 1 && Pow2(1) == 2 && Pow2(2) == 4
  {
    assert out == HEADER;
    assert BytesToBits(out) + Lsb(0, 0) == BytesToBits(out);
  }

  /** The bytes hold complete DEFLATE blocks that inflate to the data, with less than a byte left over. */
  ghost predicate InflatesTo(body: seq<Byte>, data: seq<Byte>) {
    var r := InflateBlocks(BytesToBits(body), []);
    r.Some? && r.value.0 == data && |r.value.1| < 8
  }

  lemma FixedStream(out: seq<Byte>, symbols: seq<bool>, data: seq<Byte>, pad: seq<bool>)
    requires Decodes(symbols, data) && |pad| < 8
    requires BytesToBits(out) == FirstBits() + symbols + SymbolBits(256) + pad
    ensures |out| >= 4 && out[..2] == HEADER && InflatesTo(out[2..], data)
  {
    var end := SymbolBits(256);
    var block := Lsb(1, 1) + Lsb(1, 2) + symbols + end + pad;
    FirstBitsThen(symbols, end, pad);
    BytesToBitsPrefix(out, HEADER, block);
    InflateFixedBlock(symbols, data, pad);
    assert |block| >= 10 && |BytesToBits(out[2..])| == 8 * (|out| - 2);
  }

  lemma FirstBitsThen(a: seq<bool>, b: seq<bool>, c: seq<bool>)
    ensures FirstBits() + a + b + c == BytesToBits(HEADER) + (Lsb(1, 1) + Lsb(1, 2) + a + b + c)
  {
    ConcatFive(BytesToBits(HEADER), Lsb(1, 1), Lsb(1, 2), a, b, c);
  }

  lemma ConcatFive<T>(h: seq<T>, x: seq<T>, y: seq<T>, a: seq<T>, b: seq<T>, c: seq<T>)
    ensures h + x + y + a + b + c == h + (x + y + a + b + c)
  {
    ConcatAssociates(h, x, y);
    ConcatAssociates(h, x + y, a);
    ConcatAssociates(h, x + y + a, b);
    ConcatAssociates(h, x + y + a + b, c);
  }

  // ---------- Stored fallback ----------

  /** The stored blocks for data[j..]. */
  function StoredFrom(data: seq<Byte>, j: nat): (r: seq<Byte>)
    requires j <= |data|
    ensures |r| == |data| - j + 5 * ((|data| - j + 32766) / 32767)
    decreases |data| - j
  {
    if j == |data| then []
    else
      var n := if |data| - j > 32767 then 32767 else |data| - j;
      StoredBlock(|data| - j == n, data[j..j + n]) + StoredFrom(data, j + n)
  }

  /** Stored blocks inflate to the bytes they hold, but only if there is at least one. */
  lemma {:induction false} StoredInflates(data: seq<Byte>, j: nat)
    requires j < |data|
    ensures InflateBlocks(BytesToBits(StoredFrom(data, j)), data[..j]) == Some((data, []))
    decreases |data| - j
  {
    hide InflateBlocks, BytesToBits, StoredFrom, StoredBlock;
    var n := if |data| - j > 32767 then 32767 else |data| - j;
    var s := data[j..j + n];
    var rest := StoredFrom(data, j + n);
    StoredFromBlock(data, j, n);
    InflateStoredBlock(|data| - j == n, s, rest, data[..j]);
    assert data[..j] + s == data[..j + n];
    if j + n < |data| {
      StoredInflates(data, j + n);
    } else {
      assert data[..j + n] == data;
    }
  }

  /** The blocks from j on are the one at j and those behind it. */
  lemma StoredFromBlock(data: seq<Byte>, j: nat, n: nat)
    requires j < |data| && n == if |data| - j > 32767 then 32767 else |data| - j
    ensures StoredFrom(data, j) == StoredBlock(|data| - j == n, data[j..j + n]) + StoredFrom(data, j + n)
    ensures j + n == |data| ==> StoredFrom(data, j + n) == []
  {
  }

  /** The five header bytes of a stored block, as the encoder computes them. */
  method StoredHeader(remaining: nat, blocklen: nat) returns (header: seq<Byte>)
    requires blocklen <= 32767
    ensures header == [if remaining == blocklen then 1 else 0] + StoredLengths(blocklen)
  {
    header := [if remaining == blocklen then 1 else 0];
    header := header + [Uchar(blocklen)];
    header := header + [Uchar(blocklen / 256)];
    header := header + [Uchar(-1 - blocklen)];
    header := header + [Uchar((-1 - blocklen) / 256)];
  }

  /** What the output has when every block is stored; the fallback is taken when it is longer than that. */
  function StoredBound(n: nat): nat {
    n + 2 + (n + 32766) / 32767 * 5
  }

  /** memcpy behind the last byte: the buffer does not grow for it, so that there must be room. */
  method CopyBehind(out: seq<Byte>, s: seq<Byte>, ghost room: nat) returns (out': seq<Byte>)
    requires |out| + |s| <= room
    ensures out' == out + s
  {
    out' := out + s;
  }

  /**
   Replaces the compressed bytes after the zlib header by stored blocks. Every block fits where the longer output has
   been.
   */
  method StoreUncompressed(out: seq<Byte>, data: seq<Byte>) returns (out': seq<Byte>)
    requires |out| >= 2 && |out| > StoredBound(|data|)
    ensures out' == out[..2] + StoredFrom(data, 0)
    ensures |out'| == StoredBound(|data|) < |out|
  {
    hide StoredFrom, StoredBlock;
    StoredFromEnd(data);
    out' := out[..2];
    var j := 0;
    while j < |data|
      invariant 0 <= j <= |data|
      invariant out' + StoredFrom(data, j) == out[..2] + StoredFrom(data, 0)
      invariant |out'| <= StoredBound(|data|)
    {
      var blocklen := |data| - j;
      if blocklen > 32767 {
        blocklen := 32767;
      }
      var header := StoredHeader(|data| - j, blocklen);
      StoredFromBlock(data, j, blocklen);
      StoredBlockParts(|data| - j == blocklen, data[j..j + blocklen]);
      assert |out'| + |StoredFrom(data, j)| == StoredBound(|data|);
      out' := out' + header;
      out' := CopyBehind(out', data[j..j + blocklen], |out|);
      j := j + blocklen;
    }
  }

  lemma StoredFromEnd(data: seq<Byte>)
    ensures StoredFrom(data, |data|) == []
  {
  }

  lemma StoredBlockParts(final: bool, s: seq<Byte>)
    requires |s| <= 32767
    ensures StoredBlock(final, s) == [if final then 1 else 0] + StoredLengths(|s|) + s
  {
  }

  // ---------- Adler-32 ----------

  const WORD: nat := 0x1_0000_0000

  /** How large the sums can be after n bytes of a block that started below the modulus. */
  function MaxS2(n: nat): nat {
    if n == 0 then 65520 else MaxS2(n - 1) + 65520 + 255 * n
  }

  lemma {:induction false} MaxS2Closed(n: nat)
    ensures 2 * MaxS2(n) == 131040 + 131295 * n + 255 * n * n
  {
    if n == 0 {
    } else {
      MaxS2Closed(n - 1);
      assert 255 * n * n == 255 * (n - 1) * (n - 1) + 510 * n - 255;
    }
  }

  lemma MaxS2Fits(n: nat)
    requires n <= 5552
    ensures MaxS2(n) < WORD
  {
    hide MaxS2;
    MaxS2Closed(n);
    var square := n * n;
    Arithmetic.MulMono(n, n, 5552);
    assert square <= 5552 * 5552;
    assert 255 * n * n == 255 * square;
  }

  /** The residues of the two sums are the checksum of the first p bytes. */
  predicate SumsOf(data: seq<Byte>, p: nat, s1: nat, s2: nat)
    requires p <= |data|
  {
    s1 % ADLER_BASE == AdlerSums(data[..p]).0 && s2 % ADLER_BASE == AdlerSums(data[..p]).1
  }

  /** One byte further: reducing late gives the same residues as reducing at every byte. */
  lemma AdlerStep(data: seq<Byte>, p: nat, s1: nat, s2: nat)
    requires p < |data| && SumsOf(data, p, s1, s2)
    ensures SumsOf(data, p + 1, s1 + data[p], s2 + (s1 + data[p]))
  {
    assert data[..p + 1][..p] == data[..p];
    var (t1, t2) := AdlerSums(data[..p]);
    ResidueAdd(s1, t1, data[p]);
    ResidueAdd(s2, t2, s1 + data[p]);
    ResidueAdd(s1 + data[p], (t1 + data[p]) % ADLER_BASE, t2);
  }

  lemma ResidueAdd(a: nat, a': nat, b: nat)
    requires a % ADLER_BASE == a' % ADLER_BASE
    ensures (a + b) % ADLER_BASE == (a' + b) % ADLER_BASE
  {
  }

  /** The sums after i bytes of the block at j: the right residues, small enough not to wrap. */
  predicate InBlock(data: seq<Byte>, j: nat, i: nat, s1: nat, s2: nat)
    requires j + i <= |data|
  {
    s1 <= 65520 + 255 * i && s2 <= MaxS2(i) && SumsOf(data, j + i, s1, s2)
  }

  lemma InBlockStep(data: seq<Byte>, j: nat, i: nat, s1: nat, s2: nat)
    requires i < 5552 && j + i < |data| && InBlock(data, j, i, s1, s2)
    ensures s1 + data[j + i] < WORD && s2 + (s1 + data[j + i]) < WORD
    ensures InBlock(data, j, i + 1, s1 + data[j + i], s2 + (s1 + data[j + i]))
  {
    MaxS2Fits(i + 1);
    AdlerStep(data, j + i, s1, s2);
  }

  /** The inner loop over one block, in 32-bit arithmetic that never wraps. */
  method AdlerBlock(data: seq<Byte>, j: nat, blocklen: nat, sum1: nat, sum2: nat) returns (s1: nat, s2: nat)
    requires blocklen <= 5552 && j + blocklen <= |data|
    requires sum1 < ADLER_BASE && sum2 < ADLER_BASE && SumsOf(data, j, sum1, sum2)
    ensures SumsOf(data, j + blocklen, s1, s2)
  {
    s1, s2 := sum1, sum2;
    hide AdlerSums, SumsOf;
    assert InBlock(data, j, 0, s1, s2);
    hide MaxS2;
    for i := 0 to blocklen
      invariant InBlock(data, j, i, s1, s2)
    {
      InBlockStep(data, j, i, s1, s2);
      s1 := (s1 + data[j + i]) % WORD;
      s2 := (s2 + s1) % WORD;
    }
  }

  /** The checksum loop: blocks of 5552 bytes, the first one short, with one reduction at the end of each. */
  method AdlerBlocks(data: seq<Byte>) returns (s1: nat, s2: nat)
    ensures (s1, s2) == AdlerSums(data)
  {
    hide SumsOf;
    s1, s2 := 1, 0;
    var blocklen := |data| % 5552;
    ghost var blocks := |data| / 5552;
    var j := 0;
    SumsStart(data);
    while j < |data|
      invariant 0 <= j <= |data| && 0 <= blocklen <= 5552
      invariant j < |data| ==> |data| - j == blocklen + 5552 * blocks
      invariant s1 < ADLER_BASE && s2 < ADLER_BASE && SumsOf(data, j, s1, s2)
      decreases |data| - j, 5552 - blocklen
    {
      s1, s2 := AdlerBlock(data, j, blocklen, s1, s2);
      SumsReduce(data, j + blocklen, s1, s2);
      s1 := s1 % 65521;
      s2 := s2 % 65521;
      j := j + blocklen;
      blocklen := 5552;
      blocks := if blocks > 0 then blocks - 1 else 0;
    }
    SumsDone(data, s1, s2);
  }

  lemma SumsStart(data: seq<Byte>)
    ensures SumsOf(data, 0, 1, 0)
  {
    assert data[..0] == [];
  }

  lemma SumsReduce(data: seq<Byte>, p: nat, s1: nat, s2: nat)
    requires p <= |data| && SumsOf(data, p, s1, s2)
    ensures SumsOf(data, p, s1 % ADLER_BASE, s2 % ADLER_BASE)
  {
  }

  lemma SumsDone(data: seq<Byte>, s1: nat, s2: nat)
    requires SumsOf(data, |data|, s1, s2) && s1 < ADLER_BASE && s2 < ADLER_BASE
    ensures (s1, s2) == AdlerSums(data)
  {
    hide AdlerSums;
    assert data[..|data|] == data;
  }

  /** The four checksum bytes, most-significant first. */
  method ChecksumBytes(s1: nat, s2: nat) returns (trailer: seq<Byte>)
    requires s1 < ADLER_BASE && s2 < ADLER_BASE
    ensures |trailer| == 4 && BigEndian32(trailer) == s2 * 65536 + s1
  {
    trailer := [Uchar(s2 / 256)];
    trailer := trailer + [Uchar(s2)];
    trailer := trailer + [Uchar(s1 / 256)];
    trailer := trailer + [Uchar(s1)];
  }

  /** The decoder's verdict on header, body and a right checksum is its verdict on the body. */
  lemma DecodeContainer(body: seq<Byte>, data: seq<Byte>, trailer: seq<Byte>)
    requires |trailer| == 4 && BigEndian32(trailer) == Adler32(data)
    ensures InflatesTo(body, data) ==> ZlibDecode(HEADER + body + trailer) == Some(data)
    ensures body == [] ==> ZlibDecode(HEADER + body + trailer) == None
  {
    hide BigEndian32, Adler32, BytesToBits, InflateFixed, InflateStored, TakeBits;
    var bytes := HEADER + body + trailer;
    assert bytes[2..|bytes| - 4] == body;
    assert bytes[|bytes| - 4..] == trailer;
  }

  /** The bytes that the bits take up. */
  function ByteCount(bits: nat): nat {
    (bits + 7) / 8
  }

  lemma PackedSize(bytes: seq<Byte>, bits: seq<bool>)
    requires Packs(bytes, bits)
    ensures |bytes| == ByteCount(|bits|)
  {
  }

  /**
   The output for these tokens: the block that holds them or, if that is longer than storing everything, the stored
   blocks, and then the checksum.
   */
  ghost predicate CompressedAs(data: seq<Byte>, quality: int, tokens: seq<Token>, out: seq<Byte>) {
    && Parsed(data, if quality < 5 then 5 else quality, tokens) && EndOf(tokens) == |data|
    && |out| >= 4 && BigEndian32(out[|out| - 4..]) == Adler32(data)
    && if ByteCount(|FixedBits(tokens)|) > StoredBound(|data|) then out[..|out| - 4] == HEADER + StoredFrom(data, 0)
       else Packs(out[..|out| - 4], FixedBits(tokens))
  }

  ghost predicate Compressed(data: seq<Byte>, quality: int, out: seq<Byte>) {
    exists tokens :: CompressedAs(data, quality, tokens, out)
  }

  lemma PacksOnce(a: seq<Byte>, b: seq<Byte>, bits: seq<bool>)
    requires Packs(a, bits) && Packs(b, bits)
    ensures a == b
  {
    hide BytesToBits;
    var pad :| |pad| < 8 && (forall x :: x in pad ==> !x) && BytesToBits(a) == bits + pad;
    var pad' :| |pad'| < 8 && (forall x :: x in pad' ==> !x) && BytesToBits(b) == bits + pad';
    assert |pad| == |pad'|;
    forall k | 0 <= k < |pad| ensures pad[k] == pad'[k] {
      assert pad[k] in pad && pad'[k] in pad';
    }
    assert BytesToBits(a) == BytesToBits(b) + [];
    BytesToBitsPrefix(a, b, []);
    assert a[..|b|] == a;
  }

  lemma NumberOnce(a: seq<Byte>, b: seq<Byte>)
    requires |a| == |b| == 4 && BigEndian32(a) == BigEndian32(b)
    ensures a == b
  {
    var a1: nat := 256 * a[0] as int + a[1] as int;
    var b1: nat := 256 * b[0] as int + b[1] as int;
    LastDigit(256 * a1 + a[2] as int, a[3], 256 * b1 + b[2] as int, b[3]);
    LastDigit(a1, a[2], b1, b[2]);
    LastDigit(a[0], a[1], b[0], b[1]);
  }

  /** Data and quality determine the output, byte for byte. */
  lemma CompressedOnce(data: seq<Byte>, quality: int, a: seq<Byte>, b: seq<Byte>)
    requires Compressed(data, quality, a) && Compressed(data, quality, b)
    ensures a == b
  {
    hide Parsed, FixedBits, StoredFrom, Packs, BigEndian32, Adler32;
    var tokens :| CompressedAs(data, quality, tokens, a);
    var tokens' :| CompressedAs(data, quality, tokens', b);
    ParseUnique(data, if quality < 5 then 5 else quality, tokens, tokens');
    NumberOnce(a[|a| - 4..], b[|b| - 4..]);
    if ByteCount(|FixedBits(tokens)|) <= StoredBound(|data|) {
      PacksOnce(a[..|a| - 4], b[..|b| - 4], FixedBits(tokens));
    }
    assert a == a[..|a| - 4] + a[|a| - 4..] && b == b[..|b| - 4] + b[|b| - 4..];
  }

  /**
   stbi_zlib_compress. Any standard inflater gives the data back, exactly when there is some: for no data the
   stored fallback is taken and writes no block at all. The output never grows by more than the stored framing.
   */
  method ZlibCompress(data: seq<Byte>, quality: int) returns (out: seq<Byte>)
    ensures ZlibDecode(out) == if data != [] then Some(data) else None
    ensures |out| <= StoredBound(|data|) + 4
    ensures Compressed(data, quality, out)
  {
    hide InflatesTo, ZlibDecode, AdlerSums, StoredFrom, Parsed, Packs, FixedBits, BigEndian32;
    var q := quality;
    if q < 5 {
      q := 5;
    }
    ghost var tokens;
    out, tokens := CompressFixed(data, q);
    PackedSize(out, FixedBits(tokens));
    ghost var body := out[2..];
    assert out == HEADER + body;
    if |out| > StoredBound(|data|) {
      out := StoreUncompressed(out, data);
      body := StoredFrom(data, 0);
      StoredBody(data);
    }
    var s1, s2 := AdlerBlocks(data);
    var trailer := ChecksumBytes(s1, s2);
    DecodeContainer(body, data, trailer);
    assert (out + trailer)[..|out|] == out && (out + trailer)[|out|..] == trailer;
    out := out + trailer;
    assert CompressedAs(data, quality, tokens, out);
  }

  lemma StoredBody(data: seq<Byte>)
    ensures data != [] ==> InflatesTo(StoredFrom(data, 0), data)
    ensures data == [] ==> StoredFrom(data, 0) == []
  {
    if data != [] {
      StoredInflates(data, 0);
      assert data[..0] == [];
    }
  }
}
