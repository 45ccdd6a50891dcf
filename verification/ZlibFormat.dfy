/**
 A reference decoder for the zlib container (RFC 1950) and for DEFLATE blocks (RFC 1951), written from the
 two standards and independently of the encoder. Blocks with dynamic Huffman codes are rejected: the
 encoder modelled here never emits one.
 */
module ZlibFormat {
  import opened BitStrings
  import opened Wrappers

  /** A decoding step yields a value and the bits that are left. */
  type Step<T> = Option<(T, seq<bool>)>

  function TakeBits(bits: seq<bool>, n: nat): (r: Step<nat>)
    ensures r.Some? ==> |r.value.1| == |bits| - n
  {
    if |bits| < n then None else Some((FromLsb(bits[..n]), bits[n..]))
  }

  function TakeCode(bits: seq<bool>, n: nat): (r: Step<nat>)
    ensures r.Some? ==> |r.value.1| == |bits| - n
  {
    if |bits| < n then None else Some((FromMsb(bits[..n]), bits[n..]))
  }

  function TakeBytes(bits: seq<bool>, n: nat): (r: Step<seq<Byte>>)
    ensures r.Some? ==> |r.value.1| == |bits| - 8 * n
    decreases n
  {
    if n == 0 then Some(([], bits))
    else
      var (b, rest) :- TakeBits(bits, 8);
      var (bs, rest') :- TakeBytes(rest, n - 1);
      Some(([b % 256] + bs, rest'))
  }

  // ---------- Section 3.2.5 of RFC 1951: lengths and distances, as code offset j, base and extra bits ----------

  function LengthExtra(j: nat): nat
    requires j <= 28
  {
    if j < 4 || j == 28 then 0 else j / 4 - 1
  }

  function LengthBase(j: nat): nat
    requires j <= 28
  {
    if j == 28 then 258
    else if j == 0 then 3
    else LengthBase(j - 1) + Pow2(LengthExtra(j - 1))
  }

  function DistanceExtra(j: nat): nat {
    if j < 2 then 0 else j / 2 - 1
  }

  function DistanceBase(j: nat): nat {
    if j == 0 then 1 else DistanceBase(j - 1) + Pow2(DistanceExtra(j - 1))
  }

  // ---------- Section 3.2.6 of RFC 1951: the fixed literal/length code ----------

  /** Code and code length of a literal/length symbol. */
  function FixedCode(symbol: nat): (nat, nat)
    requires symbol <= 287
  {
    if symbol <= 143 then (0x30 + symbol, 8)
    else if symbol <= 255 then (0x190 + (symbol - 144), 9)
    else if symbol <= 279 then (symbol - 256, 7)
    else (0xC0 + (symbol - 280), 8)
  }

  /** Reads one symbol by trying the three code lengths in turn. */
  function TakeSymbol(bits: seq<bool>): (r: Step<nat>)
    ensures r.Some? ==> |r.value.1| < |bits| && r.value.0 <= 287
  {
    var (c7, rest7) :- TakeCode(bits, 7);
    if c7 <= 0x17 then Some((256 + c7, rest7))
    else
      var (c8, rest8) :- TakeCode(bits, 8);
      if 0x30 <= c8 <= 0xBF then Some((c8 - 0x30, rest8))
      else if 0xC0 <= c8 <= 0xC7 then Some((280 + (c8 - 0xC0), rest8))
      else
        var (c9, rest9) :- TakeCode(bits, 9);
        if 0x190 <= c9 <= 0x1FF then Some((144 + (c9 - 0x190), rest9)) else None
  }

  /** Copies length bytes from distance bytes back, one at a time, so that a copy may overlap its own output. */
  function CopyBack(out: seq<Byte>, length: nat, distance: nat): (r: seq<Byte>)
    requires 1 <= distance <= |out|
    ensures |r| == |out| + length
    decreases length
  {
    if length == 0 then out
    else CopyBack(out + [out[|out| - distance]], length - 1, distance)
  }

  /** The rest of a match after its length symbol: length extra bits, distance code, distance extra bits. */
  function TakeMatch(symbol: nat, bits: seq<bool>): (r: Step<(nat, nat)>)
    requires 257 <= symbol <= 285
    ensures r.Some? ==> |r.value.1| <= |bits|
  {
    var (lx, rest) :- TakeBits(bits, LengthExtra(symbol - 257));
    var (dc, rest) :- TakeCode(rest, 5);
    if dc > 29 then None
    else
      var (dx, rest) :- TakeBits(rest, DistanceExtra(dc));
      Some(((LengthBase(symbol - 257) + lx, DistanceBase(dc) + dx), rest))
  }

  /** The symbols of one fixed-Huffman block, up to its end-of-block symbol. */
  function InflateFixed(bits: seq<bool>, out: seq<Byte>): (r: Step<seq<Byte>>)
    ensures r.Some? ==> |r.value.1| < |bits|
    decreases |bits|
  {
    var (symbol, rest) :- TakeSymbol(bits);
    if symbol < 256 then InflateFixed(rest, out + [symbol])
    else if symbol == 256 then Some((out, rest))
    else if symbol > 285 then None
    else
      var ((length, distance), rest) :- TakeMatch(symbol, rest);
      if !(1 <= distance <= |out|) then None
      else InflateFixed(rest, CopyBack(out, length, distance))
  }

  /** One stored block: skip to a byte boundary, LEN, its one's complement NLEN, LEN bytes. */
  function InflateStored(bits: seq<bool>, out: seq<Byte>): (r: Step<seq<Byte>>)
    ensures r.Some? ==> |r.value.1| <= |bits|
  {
    var (len, rest) :- TakeBits(bits[|bits| % 8..], 16);
    var (nlen, rest) :- TakeBits(rest, 16);
    if len + nlen != 0xFFFF then None
    else
      var (bytes, rest) :- TakeBytes(rest, len);
      Some((out + bytes, rest))
  }

  /** A series of blocks, up to and including the one marked final. */
  function InflateBlocks(bits: seq<bool>, out: seq<Byte>): (r: Step<seq<Byte>>)
    decreases |bits|
  {
    var (final, rest) :- TakeBits(bits, 1);
    var (kind, rest) :- TakeBits(rest, 2);
    var (out, rest) :- if kind == 0 then InflateStored(rest, out)
                       else if kind == 1 then InflateFixed(rest, out)
                       else None;
    if final == 1 then Some((out, rest)) else InflateBlocks(rest, out)
  }

  // ---------- RFC 1950: the zlib container ----------

  const ADLER_BASE: nat := 65521

  /** Section 2.2 of RFC 1950: s1 is one plus the sum of the bytes, s2 the sum of the s1 values, both mod 65521. */
  function AdlerSums(data: seq<Byte>): (s: (nat, nat))
    ensures s.0 < ADLER_BASE && s.1 < ADLER_BASE
  {
    if data == [] then (1, 0)
    else
      var (s1, s2) := AdlerSums(data[..|data| - 1]);
      var s1' := (s1 + data[|data| - 1]) % ADLER_BASE;
      (s1', (s2 + s1') % ADLER_BASE)
  }

  function Adler32(data: seq<Byte>): nat {
    var (s1, s2) := AdlerSums(data);
    s2 * 65536 + s1
  }

  function BigEndian32(bytes: seq<Byte>): nat
    requires |bytes| == 4
  {
    bytes[0] as int * 0x1000000 + bytes[1] as int * 0x10000 + bytes[2] as int * 0x100 + bytes[3] as int
  }

  /** Header, blocks, padding to a byte boundary, and exactly the four bytes of a matching Adler-32. */
  function ZlibDecode(bytes: seq<Byte>): Option<seq<Byte>> {
    if |bytes| < 6 || bytes[0] % 16 != 8 || bytes[0] / 16 > 7
       || (bytes[0] as int * 256 + bytes[1] as int) % 31 != 0 || (bytes[1] / 32) % 2 != 0 then None
    else
      var body := bytes[2..|bytes| - 4];
      var (data, rest) :- InflateBlocks(BytesToBits(body), []);
      if |rest| >= 8 || BigEndian32(bytes[|bytes| - 4..]) != Adler32(data) then None
      else Some(data)
  }
}
