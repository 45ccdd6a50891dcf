/**
 A reference decoder for the part of PNG that the encoder writes: one zlib stream over 8-bit samples without
 interlacing (RFC 2083).
 */
module PngFormat {
  import opened BitStrings
  import opened Wrappers
  import ZlibFormat

  /** Rows from top to bottom; channels samples per pixel. */
  datatype Image = Image(width: nat, height: nat, channels: nat, rows: seq<seq<Byte>>)

  // ---------- Section 6: filters ----------

  function Abs(x: int): nat {
    if x < 0 then -x else x
  }

  /** Section 6.6: whichever of left, above and upper left is nearest to left + above - upper left, in that order. */
  function PaethPredictor(a: Byte, b: Byte, c: Byte): Byte {
    var p := a + b - c;
    if Abs(p - a) <= Abs(p - b) && Abs(p - a) <= Abs(p - c) then a
    else if Abs(p - b) <= Abs(p - c) then b else c
  }

  /** What filter type predicts from the bytes to the left, above and to the upper left. */
  function Predict(filter: nat, a: Byte, b: Byte, c: Byte): Byte {
    if filter == 1 then a
    else if filter == 2 then b
    else if filter == 3 then (a + b) / 2
    else if filter == 4 then PaethPredictor(a, b, c)
    else 0
  }

  /** The byte at i, or zero to the left of the row. */
  function At(row: seq<Byte>, i: int): Byte {
    if 0 <= i < |row| then row[i] else 0
  }

  /** Undoes a filter from left to right; bpp is the number of bytes per pixel. */
  function Unfilter(filter: nat, line: seq<Byte>, prior: seq<Byte>, bpp: nat): (row: seq<Byte>)
    ensures |row| == |line|
  {
    if line == [] then []
    else
      var i := |line| - 1;
      var row := Unfilter(filter, line[..i], prior, bpp);
      row + [(line[i] + Predict(filter, At(row, i - bpp), At(prior, i), At(prior, i - bpp))) % 256]
  }

  function Zeros(n: nat): seq<Byte> {
    seq(n, _ => 0)
  }

  /** Filter byte and filtered line of each remaining row; the first row has zeros above it. */
  function UnfilterRows(bytes: seq<Byte>, rowLength: nat, bpp: nat, count: nat,
                        done: seq<seq<Byte>>): Option<seq<seq<Byte>>>
    decreases count
  {
    if count == 0 then
      if bytes == [] then Some(done) else None
    else if |bytes| < 1 + rowLength || bytes[0] > 4 then None
    else
      var prior := if done == [] then Zeros(rowLength) else done[|done| - 1];
      var row := Unfilter(bytes[0], bytes[1..1 + rowLength], prior, bpp);
      UnfilterRows(bytes[1 + rowLength..], rowLength, bpp, count - 1, done + [row])
  }

  // ---------- Section 3.4: the CRC ----------

  /** The reflected polynomial. */
  const POLYNOMIAL: bv32 := 0xEDB8_8320

  /** One bit of the division: shift towards the least-significant bit, which decides on the polynomial. */
  function CrcBit(c: bv32): bv32 {
    if c & 1 == 1 then (c >> 1) ^ POLYNOMIAL else c >> 1
  }

  function CrcByte(c: bv32): bv32 {
    CrcBit(CrcBit(CrcBit(CrcBit(CrcBit(CrcBit(CrcBit(CrcBit(c))))))))
  }

  function XorWord(a: bv32, b: bv32): bv32 {
    a ^ b
  }

  /** A byte at the low end of a word. */
  function Word(b: Byte): bv32 {
    (b as bv8) as bv32
  }

  /** The register: all ones at first, then each byte enters at its low end. */
  function CrcRegister(data: seq<Byte>): bv32 {
    if data == [] then 0xFFFF_FFFF else CrcByte(XorWord(CrcRegister(data[..|data| - 1]), Word(data[|data| - 1])))
  }

  /** The ones' complement of the register. */
  function Crc32(data: seq<Byte>): (crc: nat)
    ensures crc < 0x1_0000_0000
  {
    (CrcRegister(data) ^ 0xFFFF_FFFF) as nat
  }

  // ---------- Section 3.2: chunks ----------

  type Tag = seq<Byte>

  const IHDR: Tag := [73, 72, 68, 82]
  const IDAT: Tag := [73, 68, 65, 84]
  const IEND: Tag := [73, 69, 78, 68]

  /** The types are what the letters say. */
  lemma TypesSpell()
    ensures |IHDR| == |IDAT| == |IEND| == 4
    ensures forall i :: 0 <= i < 4 ==> IHDR[i] == "IHDR"[i] as int
    ensures forall i :: 0 <= i < 4 ==> IDAT[i] == "IDAT"[i] as int
    ensures forall i :: 0 <= i < 4 ==> IEND[i] == "IEND"[i] as int
  {
  }

  datatype ChunkStep = ChunkStep(tag: Tag, data: seq<Byte>, rest: seq<Byte>)

  /** Length, type, data and a matching CRC over type and data. */
  function TakeChunk(bytes: seq<Byte>): (r: Option<ChunkStep>)
    ensures r.Some? ==> |r.value.rest| < |bytes|
  {
    if |bytes| < 12 then None
    else
      var n := ZlibFormat.BigEndian32(bytes[..4]);
      if |bytes| < 12 + n || ZlibFormat.BigEndian32(bytes[8 + n..12 + n]) != Crc32(bytes[4..8 + n]) then None
      else Some(ChunkStep(bytes[4..8], bytes[8..8 + n], bytes[12 + n..]))
  }

  /** The data of the IDAT chunks up to the final IEND chunk. */
  function TakeImageData(bytes: seq<Byte>): Option<seq<Byte>>
    decreases |bytes|
  {
    var chunk :- TakeChunk(bytes);
    if chunk.tag == IDAT then
      var more :- TakeImageData(chunk.rest);
      Some(chunk.data + more)
    else if chunk.tag == IEND && chunk.data == [] && chunk.rest == [] then Some([])
    else None
  }

  // ---------- The whole file ----------

  const SIGNATURE: seq<Byte> := [137, 80, 78, 71, 13, 10, 26, 10]

  /** Section 4.1.1: samples per pixel of a color type without palette. */
  function Channels(colorType: Byte): nat {
    if colorType == 0 then 1 else if colorType == 4 then 2 else if colorType == 2 then 3
    else if colorType == 6 then 4 else 0
  }

  function RowLength(width: nat, channels: nat): nat {
    width * channels
  }

  /** The pixels behind a header: neither dimension is zero, and the image data inflates to all of its rows. */
  function DecodeBody(header: seq<Byte>, rest: seq<Byte>): Option<Image>
    requires |header| == 13
  {
    var width, height := ZlibFormat.BigEndian32(header[..4]), ZlibFormat.BigEndian32(header[4..8]);
    var channels := Channels(header[9]);
    if width == 0 || height == 0 || header[8] != 8 || channels == 0 || header[10..] != [0, 0, 0] then None
    else
      var compressed :- TakeImageData(rest);
      var filtered :- ZlibFormat.ZlibDecode(compressed);
      var rows :- UnfilterRows(filtered, RowLength(width, channels), channels, height, []);
      Some(Image(width, height, channels, rows))
  }

  function PngDecode(bytes: seq<Byte>): Option<Image> {
    if !(SIGNATURE <= bytes) then None
    else
      var header :- TakeChunk(bytes[8..]);
      if header.tag != IHDR || |header.data| != 13 then None else DecodeBody(header.data, header.rest)
  }
}
