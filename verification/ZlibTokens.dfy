/**
 LZ77 tokens: what they mean as bytes, how they are written in the fixed Huffman code, and that the
 reference decoder reads back what was written.
 */
module ZlibTokens {
  import opened BitStrings
  import opened Wrappers
  import opened ZlibFormat

  /** The bits of a fixed-code symbol. */
  function SymbolBits(symbol: nat): seq<bool>
    requires symbol <= 287
  {
    var (code, n) := FixedCode(symbol);
    Msb(code, n)
  }

  /** Length code offset j with extra-bits value lx denotes this length. */
  predicate IsLengthCode(length: nat, j: nat, lx: nat) {
    j <= 28 && lx < Pow2(LengthExtra(j)) && length == LengthBase(j) + lx
  }

  /** Distance code k with extra-bits value dx denotes this distance. */
  predicate IsDistanceCode(distance: nat, k: nat, dx: nat) {
    k <= 29 && dx < Pow2(DistanceExtra(k)) && distance == DistanceBase(k) + dx
  }

  /** Length symbol and extra length bits. */
  function LengthBits(j: nat, lx: nat): seq<bool>
    requires j <= 28
  {
    SymbolBits(257 + j) + Lsb(lx, LengthExtra(j))
  }

  /** Distance code, high bit first, and extra distance bits. */
  function DistanceBits(k: nat, dx: nat): seq<bool>
  {
    Msb(k, 5) + Lsb(dx, DistanceExtra(k))
  }

  function MatchBits(j: nat, lx: nat, k: nat, dx: nat): seq<bool>
    requires j <= 28
  {
    LengthBits(j, lx) + DistanceBits(k, dx)
  }

  // ---------- Reading back what was written ----------

  lemma TakeLsb(v: nat, n: nat, rest: seq<bool>)
    requires v < Pow2(n)
    ensures TakeBits(Lsb(v, n) + rest, n) == Some((v, rest))
  {
    FromLsbLsb(v, n);
    assert (Lsb(v, n) + rest)[..n] == Lsb(v, n);
    assert (Lsb(v, n) + rest)[n..] == rest;
  }

  lemma TakeMsb(v: nat, n: nat, rest: seq<bool>)
    requires v < Pow2(n)
    ensures TakeCode(Msb(v, n) + rest, n) == Some((v, rest))
  {
    FromMsbMsb(v, n);
    assert (Msb(v, n) + rest)[..n] == Msb(v, n);
    assert (Msb(v, n) + rest)[n..] == rest;
  }

  /** Reading one bit less than a code has yields the code without its low bit. */
  lemma TakeMsbShort(v: nat, n: nat, rest: seq<bool>)
    requires n > 0 && v < Pow2(n)
    ensures Msb(v, n) + rest == Msb(v / 2, n - 1) + ([v % 2 == 1] + rest)
    ensures TakeCode(Msb(v, n) + rest, n - 1) == Some((v / 2, [v % 2 == 1] + rest))
  {
    ConcatAssociates(Msb(v / 2, n - 1), [v % 2 == 1], rest);
    TakeMsb(v / 2, n - 1, [v % 2 == 1] + rest);
  }

  /** What the decoder finds in the first seven and eight bits of a longer code. */
  lemma TakeEight(code: nat, rest: seq<bool>)
    requires code < 256
    ensures TakeCode(Msb(code, 8) + rest, 8) == Some((code, rest))
    ensures var r := TakeCode(Msb(code, 8) + rest, 7); r.Some? && r.value.0 == code / 2
  {
    assert Pow2(8) == 256;
    TakeMsb(code, 8, rest);
    TakeMsbShort(code, 8, rest);
  }

  lemma TakeNine(code: nat, rest: seq<bool>)
    requires code < 512
    ensures TakeCode(Msb(code, 9) + rest, 9) == Some((code, rest))
    ensures var r := TakeCode(Msb(code, 9) + rest, 8); r.Some? && r.value.0 == code / 2
    ensures var r := TakeCode(Msb(code, 9) + rest, 7); r.Some? && r.value.0 == code / 2 / 2
  {
    assert Pow2(9) == 512;
    TakeMsb(code, 9, rest);
    TakeMsbShort(code, 9, rest);
    TakeEight(code / 2, [code % 2 == 1] + rest);
  }

  lemma TakeSeven(code: nat, rest: seq<bool>)
    requires code < 128
    ensures TakeCode(Msb(code, 7) + rest, 7) == Some((code, rest))
  {
    assert Pow2(7) == 128;
    TakeMsb(code, 7, rest);
  }

  /** The fixed code is a prefix code: whatever follows, the decoder stops after exactly the code written. */
  lemma TakeSymbolBits(symbol: nat, rest: seq<bool>)
    requires symbol <= 287
    ensures TakeSymbol(SymbolBits(symbol) + rest) == Some((symbol, rest))
  {
    hide Msb, TakeCode;
    var (code, n) := FixedCode(symbol);
    if n == 7 {
      TakeSeven(code, rest);
    } else if n == 8 {
      TakeEight(code, rest);
    } else {
      TakeNine(code, rest);
    }
  }

  lemma InflateLiteral(b: Byte, rest: seq<bool>, out: seq<Byte>)
    ensures InflateFixed(SymbolBits(b) + rest, out) == InflateFixed(rest, out + [b])
  {
    TakeSymbolBits(b, rest);
  }

  lemma InflateEnd(rest: seq<bool>, out: seq<Byte>)
    ensures InflateFixed(SymbolBits(256) + rest, out) == Some((out, rest))
  {
    TakeSymbolBits(256, rest);
  }

  lemma TakeMatchStep(bits: seq<bool>, length: nat, j: nat, lx: nat, afterLength: seq<bool>,
                      distance: nat, k: nat, afterCode: seq<bool>, dx: nat, rest: seq<bool>)
    requires IsLengthCode(length, j, lx) && IsDistanceCode(distance, k, dx)
    requires TakeBits(bits, LengthExtra(j)) == Some((lx, afterLength))
    requires TakeCode(afterLength, 5) == Some((k, afterCode))
    requires TakeBits(afterCode, DistanceExtra(k)) == Some((dx, rest))
    ensures TakeMatch(257 + j, bits) == Some(((length, distance), rest))
  {
  }

  lemma TakeMatchBits(length: nat, j: nat, lx: nat, distance: nat, k: nat, dx: nat, rest: seq<bool>)
    requires IsLengthCode(length, j, lx) && IsDistanceCode(distance, k, dx)
    ensures TakeMatch(257 + j, Lsb(lx, LengthExtra(j)) + (DistanceBits(k, dx) + rest))
         == Some(((length, distance), rest))
  {
    var afterCode := Lsb(dx, DistanceExtra(k)) + rest;
    var afterLength := Msb(k, 5) + afterCode;
    ConcatAssociates(Msb(k, 5), Lsb(dx, DistanceExtra(k)), rest);
    TakeLsb(lx, LengthExtra(j), afterLength);
    TakeFive(k, afterCode);
    TakeLsb(dx, DistanceExtra(k), rest);
    TakeMatchStep(Lsb(lx, LengthExtra(j)) + afterLength, length, j, lx, afterLength, distance, k, afterCode, dx, rest);
  }

  lemma TakeFive(k: nat, rest: seq<bool>)
    requires k < 32
    ensures TakeCode(Msb(k, 5) + rest, 5) == Some((k, rest))
  {
    assert Pow2(5) == 32;
    TakeMsb(k, 5, rest);
  }

  lemma InflateMatchStep(bits: seq<bool>, symbol: nat, tail: seq<bool>, length: nat, distance: nat,
                         rest: seq<bool>, out: seq<Byte>)
    requires 257 <= symbol <= 285 && 1 <= distance <= |out|
    requires TakeSymbol(bits) == Some((symbol, tail))
    requires TakeMatch(symbol, tail) == Some(((length, distance), rest))
    ensures InflateFixed(bits, out) == InflateFixed(rest, CopyBack(out, length, distance))
  {
  }

  lemma InflateMatch(length: nat, j: nat, lx: nat, distance: nat, k: nat, dx: nat, rest: seq<bool>, out: seq<Byte>)
    requires IsLengthCode(length, j, lx) && IsDistanceCode(distance, k, dx) && 1 <= distance <= |out|
    ensures InflateFixed(MatchBits(j, lx, k, dx) + rest, out) == InflateFixed(rest, CopyBack(out, length, distance))
  {
    var tail := Lsb(lx, LengthExtra(j)) + (DistanceBits(k, dx) + rest);
    ConcatAssociates(LengthBits(j, lx), DistanceBits(k, dx), rest);
    ConcatAssociates(SymbolBits(257 + j), Lsb(lx, LengthExtra(j)), DistanceBits(k, dx) + rest);
    TakeSymbolBits(257 + j, tail);
    TakeMatchBits(length, j, lx, distance, k, dx, rest);
    InflateMatchStep(SymbolBits(257 + j) + tail, 257 + j, tail, length, distance, rest, out);
  }

  // ---------- What was written decodes to the data ----------

  ghost predicate DecodesBefore(bits: seq<bool>, data: seq<Byte>, rest: seq<bool>) {
    InflateFixed(bits + rest, []) == InflateFixed(rest, data)
  }

  /** The bits decode, from empty output, to the data, whatever follows. */
  ghost predicate Decodes(bits: seq<bool>, data: seq<Byte>) {
    forall rest: seq<bool> :: DecodesBefore(bits, data, rest)
  }

  lemma DecodesNothing()
    ensures Decodes([], [])
  {
    forall rest: seq<bool> ensures DecodesBefore([], [], rest) {
      assert [] + rest == rest;
    }
  }

  lemma DecodesLiteral(bits: seq<bool>, data: seq<Byte>, b: Byte)
    requires Decodes(bits, data)
    ensures Decodes(bits + SymbolBits(b), data + [b])
  {
    var s := SymbolBits(b);
    forall rest: seq<bool> ensures DecodesBefore(bits + s, data + [b], rest) {
      assert bits + s + rest == bits + (s + rest);
      assert DecodesBefore(bits, data, s + rest);
      InflateLiteral(b, rest, data);
    }
  }

  lemma DecodesMatch(bits: seq<bool>, data: seq<Byte>, length: nat, j: nat, lx: nat, distance: nat, k: nat, dx: nat)
    requires Decodes(bits, data)
    requires IsLengthCode(length, j, lx) && IsDistanceCode(distance, k, dx) && 1 <= distance <= |data|
    ensures Decodes(bits + MatchBits(j, lx, k, dx), CopyBack(data, length, distance))
  {
    var m, copied := MatchBits(j, lx, k, dx), CopyBack(data, length, distance);
    forall rest: seq<bool> ensures DecodesBefore(bits + m, copied, rest) {
      ConcatAssociates(bits, m, rest);
      assert DecodesBefore(bits, data, m + rest);
      InflateMatch(length, j, lx, distance, k, dx, rest, data);
    }
  }

  /** Copying a stretch that the source repeats at this distance reproduces the source. */
  lemma {:induction false} CopyBackRepeats(data: seq<Byte>, i: nat, length: nat, distance: nat)
    requires 1 <= distance <= i && i + length <= |data|
    requires forall p :: i <= p < i + length ==> data[p] == data[p - distance]
    ensures CopyBack(data[..i], length, distance) == data[..i + length]
    decreases length
  {
    if length == 0 {
    } else {
      assert data[..i] + [data[i]] == data[..i + 1];
      CopyBackRepeats(data, i + 1, length - 1, distance);
    }
  }

  /** A whole fixed-Huffman block: final bit, type 1, symbols, end of block. */
  lemma InflateFixedBlock(symbols: seq<bool>, data: seq<Byte>, pad: seq<bool>)
    requires Decodes(symbols, data)
    ensures InflateBlocks(Lsb(1, 1) + Lsb(1, 2) + symbols + SymbolBits(256) + pad, []) == Some((data, pad))
  {
    var body := symbols + (SymbolBits(256) + pad);
    assert Lsb(1, 1) + Lsb(1, 2) + symbols + SymbolBits(256) + pad == Lsb(1, 1) + (Lsb(1, 2) + body);
    assert Pow2(1) == 2 && Pow2(2) == 4;
    TakeLsb(1, 1, Lsb(1, 2) + body);
    TakeLsb(1, 2, body);
    InflateEnd(pad, data);
    assert DecodesBefore(symbols, data, SymbolBits(256) + pad);
    assert InflateFixed(body, []) == Some((data, pad));
  }

  // ---------- Stored blocks ----------

  lemma {:induction false} TakeBytesBack(s: seq<Byte>, rest: seq<bool>)
    ensures TakeBytes(BytesToBits(s) + rest, |s|) == Some((s, rest))
  {
    if s == [] {
      assert BytesToBits(s) + rest == rest;
    } else {
      hide Lsb, TakeBits, Pow2;
      var tail := BytesToBits(s[1..]) + rest;
      ConcatAssociates(Lsb(s[0], 8), BytesToBits(s[1..]), rest);
      TakeByte(s[0], tail);
      TakeBytesBack(s[1..], rest);
      assert s == [s[0]] + s[1..];
    }
  }

  lemma TakeByte(b: Byte, rest: seq<bool>)
    ensures TakeBits(Lsb(b, 8) + rest, 8) == Some((b, rest))
  {
    assert Pow2(8) == 256;
    TakeLsb(b, 8, rest);
  }

  /** LEN and NLEN, least-significant byte first (section 3.2.4 of RFC 1951). */
  function StoredLengths(n: nat): seq<Byte>
    requires n <= 0xFFFF
  {
    [n % 256, n / 256, (0xFFFF - n) % 256, (0xFFFF - n) / 256]
  }

  /** The byte layout of one stored block on a byte boundary. */
  function StoredBlock(final: bool, s: seq<Byte>): (r: seq<Byte>)
    requires |s| <= 0xFFFF
    ensures |r| == |s| + 5
  {
    [if final then 1 else 0] + StoredLengths(|s|) + s
  }

  lemma TakeSixteen(v: nat, rest: seq<bool>)
    requires v <= 0xFFFF
    ensures TakeBits(BytesToBits([v % 256, v / 256]) + rest, 16) == Some((v, rest))
  {
    var two: seq<Byte> := [v % 256, v / 256];
    assert two[1..] == [two[1]] && two[1..][1..] == [];
    assert BytesToBits(two) == Lsb(v % 256, 8) + (Lsb(v / 256, 8) + []);
    assert Lsb(v / 256, 8) + [] == Lsb(v / 256, 8);
    LsbByte(v, 8);
    assert Pow2(8) == 256;
    Pow2Add(8, 8);
    TakeLsb(v, 16, rest);
  }

  lemma InflateStoredStep(bits: seq<bool>, afterLen: seq<bool>, afterNlen: seq<bool>, s: seq<Byte>,
                          rest: seq<bool>, out: seq<Byte>)
    requires |s| <= 0xFFFF
    requires TakeBits(bits[|bits| % 8..], 16) == Some((|s|, afterLen))
    requires TakeBits(afterLen, 16) == Some((0xFFFF - |s|, afterNlen))
    requires TakeBytes(afterNlen, |s|) == Some((s, rest))
    ensures InflateStored(bits, out) == Some((out + s, rest))
  {
  }

  lemma TakeStoredLengths(n: nat, tail: seq<bool>)
    requires n <= 0xFFFF
    ensures var r := TakeBits(BytesToBits(StoredLengths(n)) + tail, 16);
            r.Some? && r.value.0 == n && TakeBits(r.value.1, 16) == Some((0xFFFF - n, tail))
  {
    var len: seq<Byte> := [n % 256, n / 256];
    var nlen: seq<Byte> := [(0xFFFF - n) % 256, (0xFFFF - n) / 256];
    assert StoredLengths(n) == len + nlen;
    BytesToBitsAppend(len, nlen);
    ConcatAssociates(BytesToBits(len), BytesToBits(nlen), tail);
    TakeSixteen(n, BytesToBits(nlen) + tail);
    TakeSixteen(0xFFFF - n, tail);
  }

  lemma SkipToByte(skipped: seq<bool>, bits: seq<bool>, n: nat)
    requires |skipped| < 8 && |bits| == 8 * n
    ensures |skipped + bits| % 8 == |skipped| && (skipped + bits)[|skipped|..] == bits
  {
  }

  /** The decoder reads LEN, NLEN and the bytes of a stored block, skipping to the byte boundary first. */
  lemma InflateStoredBody(s: seq<Byte>, rest: seq<Byte>, out: seq<Byte>, skipped: seq<bool>)
    requires |s| <= 0xFFFF && |skipped| < 8
    ensures InflateStored(skipped + (BytesToBits(StoredLengths(|s|)) + (BytesToBits(s) + BytesToBits(rest))), out)
         == Some((out + s, BytesToBits(rest)))
  {
    var tail := BytesToBits(s) + BytesToBits(rest);
    var bits := BytesToBits(StoredLengths(|s|)) + tail;
    SkipToByte(skipped, bits, 4 + |s| + |rest|);
    TakeStoredLengths(|s|, tail);
    TakeBytesBack(s, BytesToBits(rest));
    InflateStoredStep(skipped + bits, TakeBits(bits, 16).value.1, tail, s, BytesToBits(rest), out);
  }

  lemma StoredBlockBits(final: bool, s: seq<Byte>, rest: seq<Byte>)
    requires |s| <= 0xFFFF
    ensures BytesToBits(StoredBlock(final, s) + rest)
         == Lsb(if final then 1 else 0, 8)
            + (BytesToBits(StoredLengths(|s|)) + (BytesToBits(s) + BytesToBits(rest)))
  {
    var f: Byte := if final then 1 else 0;
    assert StoredBlock(final, s) + rest == [f] + (StoredLengths(|s|) + (s + rest));
    BytesToBitsAppend([f], StoredLengths(|s|) + (s + rest));
    BytesToBitsAppend(StoredLengths(|s|), s + rest);
    BytesToBitsAppend(s, rest);
    assert BytesToBits([f]) == Lsb(f, 8) + BytesToBits([f][1..]);
  }

  lemma InflateStoredStart(bits: seq<bool>, final: bool, afterFinal: seq<bool>, afterKind: seq<bool>,
                           out: seq<Byte>, out': seq<Byte>, rest: seq<bool>)
    requires TakeBits(bits, 1) == Some((if final then 1 else 0, afterFinal))
    requires TakeBits(afterFinal, 2) == Some((0, afterKind))
    requires InflateStored(afterKind, out) == Some((out', rest))
    ensures InflateBlocks(bits, out) == if final then Some((out', rest)) else InflateBlocks(rest, out')
  {
  }

  /** The decoder reads a stored block, appends its bytes and carries on unless it was the final one. */
  lemma InflateStoredBlock(final: bool, s: seq<Byte>, rest: seq<Byte>, out: seq<Byte>)
    requires |s| <= 0xFFFF
    ensures InflateBlocks(BytesToBits(StoredBlock(final, s) + rest), out)
         == if final then Some((out + s, BytesToBits(rest))) else InflateBlocks(BytesToBits(rest), out + s)
  {
    var f: Byte := if final then 1 else 0;
    var after := BytesToBits(StoredLengths(|s|)) + (BytesToBits(s) + BytesToBits(rest));
    StoredBlockBits(final, s, rest);
    HeaderByte(f, after);
    InflateStoredBody(s, rest, out, Lsb(0, 5));
    InflateStoredStart(Lsb(f, 8) + after, final, Lsb(0, 7) + after, Lsb(0, 5) + after,
                       out, out + s, BytesToBits(rest));
  }

  lemma HeaderByte(f: Byte, after: seq<bool>)
    requires f <= 1
    ensures TakeBits(Lsb(f, 8) + after, 1) == Some((f, Lsb(0, 7) + after))
    ensures TakeBits(Lsb(0, 7) + after, 2) == Some((0, Lsb(0, 5) + after))
  {
    assert Pow2(1) == 2 && Pow2(2) == 4;
    LsbConcat(f, 1, 0, 7);
    LsbConcat(0, 2, 0, 5);
    assert Lsb(f, 8) + after == Lsb(f, 1) + (Lsb(0, 7) + after);
    assert Lsb(0, 7) + after == Lsb(0, 2) + (Lsb(0, 5) + after);
    TakeLsb(f, 1, Lsb(0, 7) + after);
    TakeLsb(0, 2, Lsb(0, 5) + after);
  }
}
