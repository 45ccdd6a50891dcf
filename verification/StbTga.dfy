/**
 The run-length coded TGA writer of stb_image_write.h and its 64-byte buffer, against a decoder of run-length
 packets as the TGA format defines them.
 */
module StbTga {
  import Arithmetic
  import opened BitStrings
  import Sequences
  import opened Wrappers

  // ---------- The format ----------

  type Pixel = seq<Byte>

  /** A pixel of red, green and blue or of grey, and alpha last, from blue, green, red and alpha as they are stored. */
  function TakeSamples(b: seq<Byte>): Pixel {
    if |b| == 3 then
      var (blue, green, red) := (b[0], b[1], b[2]);
      [red, green, blue]
    else if |b| == 4 then
      var (blue, green, red, alpha) := (b[0], b[1], b[2], b[3]);
      [red, green, blue, alpha]
    else b
  }

  /** What the writer makes of a pixel. */
  function StoredPixel(p: Pixel): (b: seq<Byte>)
    ensures |b| == |p|
  {
    if |p| == 3 then [p[2], p[1], p[0]] else if |p| == 4 then [p[2], p[1], p[0], p[3]] else p
  }

  lemma SamplesBack(p: Pixel)
    ensures TakeSamples(StoredPixel(p)) == p
  {
  }

  datatype RowStep = RowStep(pixels: seq<Pixel>, rest: seq<Byte>)

  /** So many pixels, stored one after the other. */
  function TakePixels(bytes: seq<Byte>, size: nat, n: nat): Option<RowStep>
    decreases n
  {
    if n == 0 then Some(RowStep([], bytes))
    else if |bytes| < size then None
    else
      var more :- TakePixels(bytes[size..], size, n - 1);
      Some(RowStep([TakeSamples(bytes[..size])] + more.pixels, more.rest))
  }

  /**
   A row of n more pixels. A packet's first byte holds its length less one in seven bits; with the high bit set, one
   pixel follows and stands for all, otherwise every pixel follows. No packet goes beyond the row.
   */
  function TakeRow(bytes: seq<Byte>, size: nat, n: nat, done: seq<Pixel>): Option<RowStep>
    decreases n
  {
    if n == 0 then Some(RowStep(done, bytes))
    else if bytes == [] then None
    else
      var length := bytes[0] % 128 + 1;
      if length > n then None
      else if bytes[0] >= 128 then
        var one :- TakePixels(bytes[1..], size, 1);
        TakeRow(one.rest, size, n - length, done + Sequences.Repeat(one.pixels[0], length))
      else
        var all :- TakePixels(bytes[1..], size, length);
        TakeRow(all.rest, size, n - length, done + all.pixels)
  }

  /** Rows in the order of the file, with nothing behind them. */
  function TakeRows(bytes: seq<Byte>, size: nat, width: nat, height: nat,
                    done: seq<seq<Pixel>>): Option<seq<seq<Pixel>>>
    decreases height
  {
    if height == 0 then
      if bytes == [] then Some(done) else None
    else
      var row :- TakeRow(bytes, size, width, []);
      TakeRows(row.rest, size, width, height - 1, done + [row.pixels])
  }

  datatype Image = Image(width: nat, height: nat, rows: seq<seq<Pixel>>)

  function LittleEndian16(a: Byte, b: Byte): nat {
    a + 256 * b
  }

  /** An uncommented, run-length coded true-color or grey image with its origin at the lower left. */
  function TgaDecode(bytes: seq<Byte>): Option<Image> {
    if |bytes| < 18 || bytes[0] != 0 || bytes[1] != 0 || bytes[16] % 8 != 0 then None
    else
      var size, alpha := bytes[16] / 8, bytes[17] / 8;
      var width, height := LittleEndian16(bytes[12], bytes[13]), LittleEndian16(bytes[14], bytes[15]);
      if bytes[17] % 8 != 0 || alpha > 1 || size <= alpha || bytes[2] != (if size - alpha < 2 then 11 else 10) then None
      else
        var rows :- TakeRows(bytes[18..], size, width, height, []);
        Some(Image(width, height, rows))
  }

  // ---------- The buffered writer ----------

  class Writer {
    const buffer: array<Byte>
    var bufUsed: nat
    /** What the callback has been given. */
    var written: seq<Byte>

    ghost predicate Valid()
      reads this
    {
      buffer.Length == 64 && bufUsed <= 64
    }

    /** The stream so far: what has been given to the callback and what still waits. */
    ghost function Stream(): seq<Byte>
      reads this, buffer
      requires Valid()
    {
      written + buffer[..bufUsed]
    }

    constructor ()
      ensures Valid() && Stream() == [] && written == [] && fresh(buffer)
    {
      buffer := new Byte[64];
      bufUsed, written := 0, [];
    }

    /** A direct call of the callback, made only while nothing waits. */
    method Put(bytes: seq<Byte>)
      requires Valid() && bufUsed == 0
      modifies this`written
      ensures Valid() && Stream() == old(Stream()) + bytes && written == old(written) + bytes
    {
      written := written + bytes;
    }

    method Flush()
      requires Valid()
      modifies this
      ensures Valid() && Stream() == old(Stream()) && bufUsed == 0 && written == Stream()
    {
      if bufUsed > 0 {
        written := written + buffer[..bufUsed];
        bufUsed := 0;
      }
    }

    method Write1(a: Byte)
      requires Valid()
      modifies this, buffer
      ensures Valid() && Stream() == old(Stream()) + [a]
      ensures written == if old(bufUsed) == 64 then old(Stream()) else old(written)
    {
      if bufUsed + 1 > buffer.Length {
        Flush();
      }
      ghost var before := buffer[..bufUsed];
      buffer[bufUsed] := a;
      bufUsed := bufUsed + 1;
      assert buffer[..bufUsed] == before + [a];
    }

    method Write3(a: Byte, b: Byte, c: Byte)
      requires Valid()
      modifies this, buffer
      ensures Valid() && Stream() == old(Stream()) + [a, b, c]
      ensures written == if old(bufUsed) + 3 > 64 then old(Stream()) else old(written)
    {
      if bufUsed + 3 > buffer.Length {
        Flush();
      }
      ghost var before := buffer[..bufUsed];
      var n := bufUsed;
      bufUsed := n + 3;
      buffer[n + 0] := a;
      buffer[n + 1] := b;
      buffer[n + 2] := c;
      assert buffer[..bufUsed] == before + [a, b, c];
    }

    /** stbiw__write_pixel in the direction and with the alpha that TGA asks for. */
    method WritePixel(d: Pixel)
      requires Valid() && 1 <= |d| <= 4
      modifies this, buffer
      ensures Valid() && Stream() == old(Stream()) + StoredPixel(d)
    {
      ghost var before := Stream();
      if |d| <= 2 {
        Write1(d[0]);
      } else {
        Write3(d[2], d[1], d[0]);
      }
      if |d| == 2 || |d| == 4 {
        Write1(d[|d| - 1]);
      }
      assert Stream() == before + StoredPixel(d);
    }
  }

  // ---------- Packets ----------

  function StoredPixels(pixels: seq<Pixel>): seq<Byte> {
    if pixels == [] then [] else StoredPixels(pixels[..|pixels| - 1]) + StoredPixel(pixels[|pixels| - 1])
  }

  predicate AllOfSize(pixels: seq<Pixel>, size: nat) {
    forall i :: 0 <= i < |pixels| ==> |pixels[i]| == size
  }

  lemma {:induction false} TakePixelsBack(pixels: seq<Pixel>, size: nat, rest: seq<Byte>)
    requires AllOfSize(pixels, size)
    ensures TakePixels(StoredPixels(pixels) + rest, size, |pixels|) == Some(RowStep(pixels, rest))
    decreases |pixels|
  {
    hide StoredPixel, StoredPixels;
    if pixels == [] {
      NoPixels();
      assert [] + rest == rest;
    } else {
      var tail := pixels[1..];
      var more := StoredPixels(tail) + rest;
      StoredFirst(pixels);
      ConcatAssociates(StoredPixel(pixels[0]), StoredPixels(tail), rest);
      TakePixelsBack(tail, size, rest);
      TakeOnePixel(pixels[0], size, |tail|, more, tail, rest);
      assert pixels == [pixels[0]] + tail;
    }
  }

  lemma NoPixels()
    ensures StoredPixels([]) == []
  {
  }

  /** The decoder takes a stored pixel and then what follows. */
  lemma TakeOnePixel(p: Pixel, size: nat, n: nat, more: seq<Byte>, tail: seq<Pixel>, rest: seq<Byte>)
    requires |p| == size && TakePixels(more, size, n) == Some(RowStep(tail, rest))
    ensures TakePixels(StoredPixel(p) + more, size, n + 1) == Some(RowStep([p] + tail, rest))
  {
    hide StoredPixel, TakeSamples;
    SamplesBack(p);
    var bytes := StoredPixel(p) + more;
    assert bytes[..size] == StoredPixel(p) && bytes[size..] == more;
  }

  lemma {:induction false} StoredFirst(pixels: seq<Pixel>)
    requires pixels != []
    ensures StoredPixels(pixels) == StoredPixel(pixels[0]) + StoredPixels(pixels[1..])
    decreases |pixels|
  {
    hide StoredPixel;
    var n := |pixels| - 1;
    if n == 0 {
      assert pixels[..n] == [] && pixels[1..] == [];
    } else {
      StoredFirst(pixels[..n]);
      assert pixels[..n][1..] == pixels[1..][..n - 1];
      ConcatAssociates(StoredPixel(pixels[0]), StoredPixels(pixels[1..][..n - 1]), StoredPixel(pixels[n]));
    }
  }

  /** Whatever follows, the decoder consumes exactly these bytes for the pixels done so far. */
  ghost predicate RowReaches(bytes: seq<Byte>, size: nat, width: nat, done: seq<Pixel>) {
    |done| <= width
    && forall rest: seq<Byte> :: TakeRow(bytes + rest, size, width, []) == TakeRow(rest, size, width - |done|, done)
  }

  lemma TakeRaw(bytes: seq<Byte>, size: nat, n: nat, done: seq<Pixel>, all: RowStep)
    requires bytes != [] && bytes[0] < 128 && bytes[0] + 1 <= n && |all.pixels| == bytes[0] + 1
    requires TakePixels(bytes[1..], size, bytes[0] + 1) == Some(all)
    ensures TakeRow(bytes, size, n, done) == TakeRow(all.rest, size, n - |all.pixels|, done + all.pixels)
  {
  }

  lemma TakeRun(bytes: seq<Byte>, size: nat, n: nat, done: seq<Pixel>, length: nat, one: RowStep)
    requires bytes != [] && bytes[0] == length + 127 && 1 <= length <= n && |one.pixels| == 1
    requires TakePixels(bytes[1..], size, 1) == Some(one)
    ensures TakeRow(bytes, size, n, done)
         == TakeRow(one.rest, size, n - length, done + Sequences.Repeat(one.pixels[0], length))
  {
    hide TakePixels, Sequences.Repeat;
  }

  /** A packet that is taken whatever follows extends what the decoder consumes. */
  lemma RowExtends(bytes: seq<Byte>, packet: seq<Byte>, size: nat, width: nat, done: seq<Pixel>, left: nat,
                   more: seq<Pixel>)
    requires RowReaches(bytes, size, width, done) && left == width - |done| && |more| <= left
    requires forall rest: seq<Byte> :: PacketTaken(packet, rest, size, left, done, more)
    ensures RowReaches(bytes + packet, size, width, done + more)
  {
    hide TakeRow;
    forall rest: seq<Byte>
      ensures TakeRow(bytes + packet + rest, size, width, [])
           == TakeRow(rest, size, width - |done| - |more|, done + more)
    {
      ConcatAssociates(bytes, packet, rest);
      assert PacketTaken(packet, rest, size, left, done, more);
    }
  }

  predicate PacketTaken(packet: seq<Byte>, rest: seq<Byte>, size: nat, n: nat, done: seq<Pixel>, more: seq<Pixel>) {
    |more| <= n && TakeRow(packet + rest, size, n, done) == TakeRow(rest, size, n - |more|, done + more)
  }

  lemma RawPacket(bytes: seq<Byte>, size: nat, width: nat, done: seq<Pixel>, pixels: seq<Pixel>)
    requires RowReaches(bytes, size, width, done) && AllOfSize(pixels, size)
    requires 1 <= |pixels| <= 128 && |done| + |pixels| <= width
    ensures RowReaches(bytes + ([Uchar(|pixels| - 1)] + StoredPixels(pixels)), size, width, done + pixels)
  {
    hide StoredPixels, TakePixels, TakeRow, RowReaches;
    var packet, left := [Uchar(|pixels| - 1)] + StoredPixels(pixels), width - |done|;
    forall rest: seq<Byte> ensures PacketTaken(packet, rest, size, left, done, pixels) {
      var next := packet + rest;
      assert next[0] == |pixels| - 1 && next[1..] == StoredPixels(pixels) + rest;
      TakePixelsBack(pixels, size, rest);
      TakeRaw(next, size, left, done, RowStep(pixels, rest));
    }
    RowExtends(bytes, packet, size, width, done, left, pixels);
  }

  lemma RunPacket(bytes: seq<Byte>, size: nat, width: nat, done: seq<Pixel>, p: Pixel, n: nat)
    requires RowReaches(bytes, size, width, done) && |p| == size && 1 <= n <= 128 && |done| + n <= width
    ensures RowReaches(bytes + ([Uchar(n as int - 129)] + StoredPixel(p)), size, width, done + Sequences.Repeat(p, n))
  {
    hide StoredPixel, TakePixels, Sequences.Repeat, TakeRow, RowReaches;
    var packet, left := [Uchar(n as int - 129)] + StoredPixel(p), width - |done|;
    OnePixel(p);
    forall rest: seq<Byte> ensures PacketTaken(packet, rest, size, left, done, Sequences.Repeat(p, n)) {
      var next := packet + rest;
      assert next[0] == n + 127 && next[1..] == StoredPixels([p]) + rest;
      TakePixelsBack([p], size, rest);
      TakeRun(next, size, left, done, n, RowStep([p], rest));
    }
    RowExtends(bytes, packet, size, width, done, left, Sequences.Repeat(p, n));
  }

  lemma OnePixel(p: Pixel)
    ensures StoredPixels([p]) == StoredPixel(p)
  {
    assert [p][..0] == [];
  }

  // ---------- Rows ----------

  /** Where the first pixel from k on is that equals the one two before it. */
  function FirstRepeat(row: seq<Pixel>, k: nat): (r: nat)
    requires 2 <= k <= |row|
    ensures k <= r <= |row| && (r < |row| ==> row[r] == row[r - 2])
    decreases |row| - k
  {
    if k == |row| || row[k] == row[k - 2] then k else FirstRepeat(row, k + 1)
  }

  /** Where the pixels equal to p end. */
  function EqualEnd(row: seq<Pixel>, k: nat, p: Pixel): (end: nat)
    requires k <= |row|
    ensures k <= end <= |row| && (forall m :: k <= m < end ==> row[m] == p)
    decreases |row| - k
  {
    if k == |row| || row[k] != p then k else EqualEnd(row, k + 1, p)
  }

  /**
   Kind and length of the packet at pixel i: a run of the equal pixels or, if the next pixel differs, the pixels up to
   the last but one before the first that equals the one two before it; at most 128 in either case.
   */
  function PacketAt(row: seq<Pixel>, i: nat): (packet: (bool, nat))
    requires i < |row|
    ensures 1 <= packet.1 <= 128 && i + packet.1 <= |row|
  {
    if i + 1 == |row| then (true, 1)
    else if row[i] == row[i + 1] then (false, Arithmetic.Min(128, EqualEnd(row, i, row[i]) - i))
    else
      var repeat := FirstRepeat(row, i + 2);
      if repeat < |row| && repeat - i < 128 then (true, repeat - i - 1) else (true, Arithmetic.Min(128, |row| - i))
  }

  /** The count and the pixels of a raw packet, or the count with the high bit and the pixel of a run. */
  function PacketBytes(row: seq<Pixel>, i: nat, diff: bool, len: nat): seq<Byte>
    requires 1 <= len <= 128 && i + len <= |row|
  {
    if diff then [len - 1] + StoredPixels(row[i..i + len]) else [len + 127] + StoredPixel(row[i])
  }

  /** The packets of a row from pixel i on. */
  function RowBytes(row: seq<Pixel>, i: nat): seq<Byte>
    requires i <= |row|
    decreases |row| - i
  {
    if i == |row| then []
    else
      var (diff, len) := PacketAt(row, i);
      PacketBytes(row, i, diff, len) + RowBytes(row, i + len)
  }

  lemma {:induction false} RepeatIs(row: seq<Pixel>, k: nat, r: nat)
    requires 2 <= k <= r <= |row| && (r < |row| ==> row[r] == row[r - 2])
    requires forall m :: k <= m < r ==> row[m] != row[m - 2]
    ensures FirstRepeat(row, k) == r
    decreases r - k
  {
    if k < r {
      RepeatIs(row, k + 1, r);
    }
  }

  lemma {:induction false} NoRepeatBefore(row: seq<Pixel>, k: nat, r: nat)
    requires 2 <= k <= r <= |row| && forall m :: k <= m < r ==> row[m] != row[m - 2]
    ensures FirstRepeat(row, k) >= r
    decreases r - k
  {
    if k < r {
      NoRepeatBefore(row, k + 1, r);
    }
  }

  lemma {:induction false} EqualUpTo(row: seq<Pixel>, k: nat, end: nat, p: Pixel)
    requires k <= end <= |row| && forall m :: k <= m < end ==> row[m] == p
    ensures EqualEnd(row, k, p) >= end && (end == |row| || row[end] != p ==> EqualEnd(row, k, p) == end)
    decreases end - k
  {
    if k < end {
      EqualUpTo(row, k + 1, end, p);
    }
  }

  /**
   The length and kind of the packet that starts at pixel i: as many equal pixels as there are, or pixels that differ
   from the one two before them, less the last if the next pixel does not.
   */
  method MeasurePacket(row: seq<Pixel>, i: nat) returns (diff: bool, len: nat)
    requires i < |row|
    ensures 1 <= len <= 128 && i + len <= |row|
    ensures !diff ==> forall k :: i <= k < i + len ==> row[k] == row[i]
    ensures !diff ==> len >= 2 && (len == 128 || i + len == |row| || row[i + len] != row[i])
    ensures diff && i + 1 < |row| ==> row[i] != row[i + 1]
    ensures diff ==> forall k :: i + 2 <= k < i + len ==> row[k] != row[k - 2]
    ensures diff ==> len == 128 || i + len == |row|
                     || (i + len + 1 < |row| && row[i + len + 1] == row[i + len - 1])
    ensures (diff, len) == PacketAt(row, i)
  {
    hide FirstRepeat, EqualEnd;
    diff, len := true, 1;
    if i < |row| - 1 {
      len := len + 1;
      diff := row[i] != row[i + 1];
      if diff {
        var prev, k := i, i + 2;
        while k < |row| && len < 128
          invariant k == i + len && prev == k - 2 && 2 <= len <= 128 && k <= |row|
          invariant forall m :: i + 2 <= m < k ==> row[m] != row[m - 2]
        {
          if row[prev] != row[k] {
            prev := prev + 1;
            len := len + 1;
          } else {
            RepeatIs(row, i + 2, k);
            len := len - 1;
            return;
          }
          k := k + 1;
        }
        NoRepeatBefore(row, i + 2, k);
      } else {
        var k := i + 2;
        while k < |row| && len < 128
          invariant k == i + len && 2 <= len <= 128 && k <= |row|
          invariant forall m :: i <= m < k ==> row[m] == row[i]
        {
          if row[i] == row[k] {
            len := len + 1;
          } else {
            break;
          }
          k := k + 1;
        }
        EqualUpTo(row, i, k, row[i]);
      }
    }
  }

  method WriteRow(w: Writer, row: seq<Pixel>, ghost size: nat) returns (ghost bytes: seq<Byte>)
    requires w.Valid() && AllOfSize(row, size) && 1 <= size <= 4
    modifies w, w.buffer
    ensures w.Valid() && w.Stream() == old(w.Stream()) + bytes
    ensures RowReaches(bytes, size, |row|, row) && bytes == RowBytes(row, 0)
  {
    hide TakeRow, StoredPixel, StoredPixels, Sequences.Repeat, RowReaches, PacketAt, PacketBytes;
    bytes := [];
    var i := 0;
    RowStart(size, |row|);
    assert row[..0] == [];
    while i < |row|
      invariant i <= |row| && w.Valid() && w.Stream() == old(w.Stream()) + bytes
      invariant RowReaches(bytes, size, |row|, row[..i]) && bytes + RowBytes(row, i) == RowBytes(row, 0)
    {
      NextPacket(bytes, row, i);
      var diff, len := MeasurePacket(row, i);
      ghost var packet := WritePacket(w, row, i, diff, len, size, bytes);
      ConcatAssociates(old(w.Stream()), bytes, packet);
      bytes := bytes + packet;
      i := i + len;
    }
    assert row[..|row|] == row;
  }

  lemma NextPacket(bytes: seq<Byte>, row: seq<Pixel>, i: nat)
    requires i < |row|
    ensures var (diff, len) := PacketAt(row, i);
      bytes + RowBytes(row, i) == bytes + PacketBytes(row, i, diff, len) + RowBytes(row, i + len)
  {
    hide PacketAt, PacketBytes;
    var (diff, len) := PacketAt(row, i);
    ConcatAssociates(bytes, PacketBytes(row, i, diff, len), RowBytes(row, i + len));
  }

  /** Writes a packet of len pixels from pixel i on; it extends what the decoder takes by these pixels. */
  method WritePacket(w: Writer, row: seq<Pixel>, i: nat, diff: bool, len: nat, ghost size: nat, ghost bytes: seq<Byte>)
    returns (ghost packet: seq<Byte>)
    requires w.Valid() && AllOfSize(row, size) && 1 <= size <= 4 && 1 <= len <= 128 && i + len <= |row|
    requires !diff ==> forall k :: i <= k < i + len ==> row[k] == row[i]
    requires RowReaches(bytes, size, |row|, row[..i])
    modifies w, w.buffer
    ensures w.Valid() && w.Stream() == old(w.Stream()) + packet && packet == PacketBytes(row, i, diff, len)
    ensures RowReaches(bytes + packet, size, |row|, row[..i + len])
  {
    hide TakeRow, StoredPixel, StoredPixels, Sequences.Repeat, RowReaches;
    ghost var before := w.Stream();
    if diff {
      w.Write1(Uchar(len - 1));
      WritePixels(w, row[i..i + len], size);
      packet := [Uchar(len - 1)] + StoredPixels(row[i..i + len]);
      ConcatAssociates(before, [Uchar(len - 1)], StoredPixels(row[i..i + len]));
      RawPacket(bytes, size, |row|, row[..i], row[i..i + len]);
      assert row[..i] + row[i..i + len] == row[..i + len];
    } else {
      w.Write1(Uchar(len as int - 129));
      w.WritePixel(row[i]);
      packet := [Uchar(len as int - 129)] + StoredPixel(row[i]);
      ConcatAssociates(before, [Uchar(len as int - 129)], StoredPixel(row[i]));
      RunPacket(bytes, size, |row|, row[..i], row[i], len);
      EqualPixels(row, i, len);
    }
  }

  lemma EqualPixels(row: seq<Pixel>, i: nat, len: nat)
    requires 1 <= len && i + len <= |row| && forall k :: i <= k < i + len ==> row[k] == row[i]
    ensures row[..i] + Sequences.Repeat(row[i], len) == row[..i + len]
  {
  }

  method WritePixels(w: Writer, pixels: seq<Pixel>, ghost size: nat)
    requires w.Valid() && AllOfSize(pixels, size) && 1 <= size <= 4
    modifies w, w.buffer
    ensures w.Valid() && w.Stream() == old(w.Stream()) + StoredPixels(pixels)
  {
    assert pixels[..0] == [];
    for k := 0 to |pixels|
      invariant w.Valid() && w.Stream() == old(w.Stream()) + StoredPixels(pixels[..k])
    {
      assert pixels[..k + 1][..k] == pixels[..k];
      w.WritePixel(pixels[k]);
    }
    assert pixels[..|pixels|] == pixels;
  }

  lemma RowStart(size: nat, width: nat)
    ensures RowReaches([], size, width, [])
  {
    hide TakeRow;
    forall rest: seq<Byte> ensures [] + rest == rest {
    }
  }

  // ---------- The file ----------

  function PixelOffset(x: nat, comp: nat, j: nat, i: nat): nat {
    (j * x + i) * comp
  }

  lemma PixelInside(x: nat, y: nat, comp: nat, j: nat, i: nat)
    requires j < y && i < x
    ensures PixelOffset(x, comp, j, i) + comp <= PixelOffset(x, comp, y, 0)
  {
    Arithmetic.MulMono(x, j + 1, y);
    assert x * (j + 1) == j * x + x && x * y == y * x;
    Arithmetic.MulMono(comp, j * x + i + 1, y * x);
    assert comp * (j * x + i + 1) == (j * x + i) * comp + comp && comp * (y * x) == (y * x + 0) * comp;
  }

  predicate HoldsImage(data: seq<Byte>, x: nat, y: nat, comp: nat) {
    PixelOffset(x, comp, y, 0) <= |data|
  }

  function PixelAt(data: seq<Byte>, x: nat, y: nat, comp: nat, j: nat, i: nat): (p: Pixel)
    requires HoldsImage(data, x, y, comp) && j < y && i < x
    ensures |p| == comp
  {
    PixelInside(x, y, comp, j, i);
    data[PixelOffset(x, comp, j, i)..][..comp]
  }

  /** The first n pixels of row j. */
  function RowPixels(data: seq<Byte>, x: nat, y: nat, comp: nat, j: nat, n: nat): (row: seq<Pixel>)
    requires HoldsImage(data, x, y, comp) && j < y && n <= x
    ensures |row| == n && AllOfSize(row, comp)
    ensures forall i :: 0 <= i < n ==> row[i] == PixelAt(data, x, y, comp, j, i)
  {
    if n == 0 then [] else RowPixels(data, x, y, comp, j, n - 1) + [PixelAt(data, x, y, comp, j, n - 1)]
  }

  /** The first n rows of the file: from the bottom row up or, if writing is flipped, from the top row down. */
  function FileRows(data: seq<Byte>, x: nat, y: nat, comp: nat, flip: bool, n: nat): (rows: seq<seq<Pixel>>)
    requires HoldsImage(data, x, y, comp) && n <= y
    ensures |rows| == n
    ensures forall k :: 0 <= k < n ==> rows[k] == RowPixels(data, x, y, comp, if flip then k else y - 1 - k, x)
  {
    if n == 0 then []
    else FileRows(data, x, y, comp, flip, n - 1) + [RowPixels(data, x, y, comp, if flip then n - 1 else y - n, x)]
  }

  /** Every sample of the file's rows is where a caller put it. */
  lemma FileSample(data: seq<Byte>, x: nat, y: nat, comp: nat, flip: bool, k: nat, i: nat, c: nat)
    requires HoldsImage(data, x, y, comp) && k < y && i < x && c < comp
    ensures var j := if flip then k else y - 1 - k;
      0 <= (j * x + i) * comp + c < |data|
      && FileRows(data, x, y, comp, flip, y)[k][i][c] == data[(j * x + i) * comp + c]
  {
    var j := if flip then k else y - 1 - k;
    PixelInside(x, y, comp, j, i);
    assert FileRows(data, x, y, comp, flip, y)[k] == RowPixels(data, x, y, comp, j, x);
  }

  /** The rows' packets one after the other. */
  function BodyBytes(rows: seq<seq<Pixel>>): seq<Byte> {
    if rows == [] then [] else BodyBytes(rows[..|rows| - 1]) + RowBytes(rows[|rows| - 1], 0)
  }

  ghost predicate FileReaches(bytes: seq<Byte>, size: nat, width: nat, height: nat, rows: seq<seq<Pixel>>) {
    |rows| <= height
    && forall rest: seq<Byte> :: TakeRows(bytes + rest, size, width, height, [])
                              == TakeRows(rest, size, width, height - |rows|, rows)
  }

  lemma FileStart(size: nat, width: nat, height: nat)
    ensures FileReaches([], size, width, height, [])
  {
    hide TakeRows;
    forall rest: seq<Byte> ensures [] + rest == rest {
    }
  }

  lemma RowComplete(rest: seq<Byte>, size: nat, row: seq<Pixel>)
    ensures TakeRow(rest, size, 0, row) == Some(RowStep(row, rest))
  {
  }

  lemma FileRow(bytes: seq<Byte>, size: nat, width: nat, height: nat, rows: seq<seq<Pixel>>, packets: seq<Byte>,
                row: seq<Pixel>)
    requires FileReaches(bytes, size, width, height, rows) && |rows| < height
    requires |row| == width && RowReaches(packets, size, width, row)
    ensures FileReaches(bytes + packets, size, width, height, rows + [row])
  {
    hide TakeRow;
    assert forall rest: seq<Byte> :: TakeRow(rest, size, 0, row) == Some(RowStep(row, rest)) by {
      forall rest: seq<Byte> ensures TakeRow(rest, size, 0, row) == Some(RowStep(row, rest)) {
        RowComplete(rest, size, row);
      }
    }
    forall rest: seq<Byte>
      ensures TakeRows(bytes + packets + rest, size, width, height, [])
           == TakeRows(rest, size, width, height - |rows| - 1, rows + [row])
    {
      ConcatAssociates(bytes, packets, rest);
      assert TakeRow(packets + rest, size, width, []) == TakeRow(rest, size, 0, row) == Some(RowStep(row, rest));
    }
  }

  function HeaderBytes(x: nat, y: nat, comp: nat): (h: seq<Byte>)
    requires 1 <= comp <= 4
    ensures |h| == 18
  {
    var alpha := if comp % 2 == 0 then 1 else 0;
    [0, 0, if comp - alpha < 2 then 11 else 10] + [0, 0, 0, 0, 0]
    + [0, 0, 0, 0, Uchar(x), Uchar(x / 256), Uchar(y), Uchar(y / 256)] + [comp * 8, alpha * 8]
  }

  /** A width of 65536 goes into the header as no width at all. */
  lemma OversizeHeader(y: nat, comp: nat)
    requires 1 <= comp <= 4
    ensures HeaderBytes(65536, y, comp) == HeaderBytes(0, y, comp)
  {
  }

  /** The header says what the image is as long as its sizes fit 16 bits. */
  lemma DecodeFile(x: nat, y: nat, comp: nat, body: seq<Byte>, rows: seq<seq<Pixel>>)
    requires 1 <= comp <= 4 && FileReaches(body, comp, x, y, rows) && |rows| == y
    ensures TgaDecode(HeaderBytes(x, y, comp) + body) == Some(Image(x, y, rows)) <==> x < 65536 && y < 65536
  {
    hide TakeRows;
    var header := HeaderBytes(x, y, comp);
    var bytes := header + body;
    assert forall i :: 0 <= i < 18 ==> bytes[i] == header[i];
    assert bytes[18..] == body && body + [] == body;
    if x < 65536 && y < 65536 {
      LittleEndianBack(x);
      LittleEndianBack(y);
      RowsDone(comp, x, rows);
    }
  }

  lemma RowsDone(size: nat, width: nat, rows: seq<seq<Pixel>>)
    ensures TakeRows([], size, width, 0, rows) == Some(rows)
  {
  }

  lemma LittleEndianBack(v: nat)
    requires v < 65536
    ensures LittleEndian16(Uchar(v), Uchar(v / 256)) == v
  {
  }

  /** The offsets of all rows and of all pixels in a row fit the original's int. */
  predicate FitsInt(x: nat, y: nat, comp: nat) {
    && x < 0x8000_0000 && y < 0x8000_0000
    && (x > 0 && y > 0 ==> (y - 1) * x * comp < 0x8000_0000 && (x - 1) * comp < 0x8000_0000)
  }

  lemma RowOffsetFits(x: nat, y: nat, comp: nat, j: nat)
    requires FitsInt(x, y, comp) && j < y
    ensures j * x * comp < 0x8000_0000
  {
    if x > 0 {
      Arithmetic.MulMono(x, j, y - 1);
      Arithmetic.MulMono(comp, j * x, (y - 1) * x);
    }
  }

  /**
   stbi_write_tga_core with run-length coding: a decoder gives every row back exactly when the sizes fit the header.
   Negative sizes write nothing. Images are those whose offsets the original's ints can hold.
   */
  method WriteTga(s: Writer, x: int, y: int, comp: nat, data: seq<Byte>, flip: bool) returns (ok: bool)
    requires s.Valid() && s.Stream() == [] && s.written == [] && s.bufUsed == 0 && 1 <= comp <= 4
    requires x >= 0 && y >= 0 ==> HoldsImage(data, x, y, comp) && FitsInt(x, y, comp)
    modifies s, s.buffer
    ensures ok == (x >= 0 && y >= 0) && (!ok ==> s.written == [])
    ensures ok ==>
      (TgaDecode(s.written) == Some(Image(x, y, FileRows(data, x, y, comp, flip, y))) <==> x < 65536 && y < 65536)
    ensures ok ==> s.written == HeaderBytes(x, y, comp) + BodyBytes(FileRows(data, x, y, comp, flip, y))
  {
    hide BodyBytes, TgaDecode, FileReaches, FileRows, HoldsImage, HeaderBytes, FitsInt;
    if y < 0 || x < 0 {
      return false;
    }
    WriteHeader(s, x, y, comp);
    ghost var body := WriteRows(s, x, y, comp, data, flip);
    s.Flush();
    DecodeFile(x, y, comp, body, FileRows(data, x, y, comp, flip, y));
    return true;
  }

  method WriteHeader(s: Writer, x: nat, y: nat, comp: nat)
    requires s.Valid() && s.Stream() == [] && s.bufUsed == 0 && 1 <= comp <= 4
    modifies s
    ensures s.Valid() && s.Stream() == HeaderBytes(x, y, comp)
  {
    hide HeaderBytes, Uchar;
    var alpha := if comp == 2 || comp == 4 then 1 else 0;
    var format := if comp - alpha < 2 then 3 else 2;
    HeaderFields(x, y, comp, alpha, format);
    s.Put([0, 0, format + 8]);
    s.Put([0, 0, 0, 0, 0]);
    s.Put([0, 0, 0, 0, Uchar(x), Uchar(x / 256), Uchar(y), Uchar(y / 256)]);
    s.Put([comp * 8, alpha * 8]);
  }

  lemma HeaderFields(x: nat, y: nat, comp: nat, alpha: Byte, format: Byte)
    requires 1 <= comp <= 4 && alpha == (if comp == 2 || comp == 4 then 1 else 0)
    requires format == if comp - alpha < 2 then 3 else 2
    ensures HeaderBytes(x, y, comp)
         == [] + [0, 0, format + 8] + [0, 0, 0, 0, 0]
            + [0, 0, 0, 0, Uchar(x), Uchar(x / 256), Uchar(y), Uchar(y / 256)] + [comp * 8, alpha * 8]
  {
    hide Uchar;
    assert [] + [0, 0, format + 8] == [0, 0, format + 8];
  }

  method WriteRows(s: Writer, x: nat, y: nat, comp: nat, data: seq<Byte>, flip: bool) returns (ghost body: seq<Byte>)
    requires s.Valid() && 1 <= comp <= 4 && HoldsImage(data, x, y, comp) && FitsInt(x, y, comp)
    modifies s, s.buffer
    ensures s.Valid() && s.Stream() == old(s.Stream()) + body
    ensures FileReaches(body, comp, x, y, FileRows(data, x, y, comp, flip, y))
    ensures body == BodyBytes(FileRows(data, x, y, comp, flip, y))
  {
    hide RowBytes, FileReaches, RowReaches, FileRows, RowPixels, HoldsImage, AllOfSize, FitsInt;
    var j := if flip then 0 else y - 1;
    var jend := if flip then y else -1;
    var jdir := if flip then 1 else -1;
    ghost var done := 0;
    body := [];
    FileStart(comp, x, y);
    NoRows(data, x, y, comp, flip);
    while j != jend
      invariant s.Valid() && s.Stream() == old(s.Stream()) + body
      invariant 0 <= done <= y && j == if flip then done else y - 1 - done
      invariant FileReaches(body, comp, x, y, FileRows(data, x, y, comp, flip, done))
      invariant body == BodyBytes(FileRows(data, x, y, comp, flip, done))
      decreases y - done
    {
      RowOffsetFits(x, y, comp, j);
      assert j * x * comp < 0x8000_0000;
      var row := RowPixels(data, x, y, comp, j, x);
      ghost var packets := WriteRow(s, row, comp);
      FileRow(body, comp, x, y, FileRows(data, x, y, comp, flip, done), packets, row);
      MoreRows(data, x, y, comp, flip, done + 1);
      BodySnoc(FileRows(data, x, y, comp, flip, done), row);
      body, done := body + packets, done + 1;
      j := j + jdir;
    }
  }

  lemma BodySnoc(rows: seq<seq<Pixel>>, row: seq<Pixel>)
    ensures BodyBytes(rows + [row]) == BodyBytes(rows) + RowBytes(row, 0)
  {
    assert (rows + [row])[..|rows|] == rows;
  }

  lemma NoRows(data: seq<Byte>, x: nat, y: nat, comp: nat, flip: bool)
    requires HoldsImage(data, x, y, comp)
    ensures FileRows(data, x, y, comp, flip, 0) == []
  {
  }

  lemma MoreRows(data: seq<Byte>, x: nat, y: nat, comp: nat, flip: bool, n: nat)
    requires HoldsImage(data, x, y, comp) && 0 < n <= y
    ensures FileRows(data, x, y, comp, flip, n)
         == FileRows(data, x, y, comp, flip, n - 1) + [RowPixels(data, x, y, comp, if flip then n - 1 else y - n, x)]
  {
  }
}
