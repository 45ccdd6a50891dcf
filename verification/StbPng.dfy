/** The PNG encoder of stb_image_write.h: line filters with a heuristic choice, chunks and their CRC. */
module StbPng {
  import Arithmetic
  import opened BitStrings
  import opened PngFormat
  import StbCrc
  import StbZlib
  import opened Wrappers
  import ZlibFormat

  // ---------- 32-bit arithmetic ----------

  predicate InInt(v: int) {
    -0x8000_0000 <= v < 0x8000_0000
  }

  /** A 32-bit signed int; C leaves what happens on overflow open, and here it wraps around. */
  function Int32(v: int): (r: int)
    ensures InInt(r)
    ensures r == v <==> InInt(v)
    ensures (v - r) % 0x1_0000_0000 == 0
  {
    (v + 0x8000_0000) % 0x1_0000_0000 - 0x8000_0000
  }

  // ---------- stbiw__encode_png_line ----------

  /** The pixels as a caller hands them over: a pointer into memory and a signed distance from row to row. */
  datatype Raster = Raster(memory: seq<Byte>, origin: nat, stride: int, height: nat, length: nat, flip: bool) {
    function RowOffset(y: nat): int
      requires y < height
    {
      stride * if flip then height - 1 - y else y
    }

    /** From a row of the output to the next one. */
    function SignedStride(): int {
      if flip then -stride else stride
    }

    predicate RowInside(y: nat)
      requires y < height
    {
      0 <= origin + RowOffset(y) && origin + RowOffset(y) + length <= |memory|
    }

    /** Memory holds the first row and the last one, and so the rows between them. */
    predicate Holds() {
      height > 0 ==> RowInside(0) && RowInside(height - 1)
    }

    /**
     Offsets of rows are computed in ints, and so are positions in the row above a row, if there is one to look at.
     */
    predicate FitsInt(looksUp: bool) {
      height > 0 ==>
        && InInt(stride * (height - 1)) && InInt(SignedStride())
        && (looksUp && height > 1 ==> InInt(length - 1 - SignedStride()))
    }

    function OutputRow(y: nat): (row: seq<Byte>)
      requires y < height && Holds()
      ensures |row| == length
    {
      RowBetween(this, y);
      memory[origin + RowOffset(y)..][..length]
    }

    /** What the decoder knows to be above a row. */
    function PriorRow(y: nat): (row: seq<Byte>)
      requires y < height && Holds()
      ensures |row| == length
    {
      if y == 0 then Zeros(length) else OutputRow(y - 1)
    }

    function OutputRows(count: nat): (rows: seq<seq<Byte>>)
      requires count <= height && Holds()
      ensures |rows| == count
      ensures forall y :: 0 <= y < count ==> rows[y] == OutputRow(y)
    {
      if count == 0 then [] else OutputRows(count - 1) + [OutputRow(count - 1)]
    }
  }

  lemma Between(stride: int, k: nat, last: nat)
    requires k <= last
    ensures 0 <= stride * k <= stride * last || stride * last <= stride * k <= 0
  {
    if stride >= 0 {
      Arithmetic.MulMono(stride, k, last);
    } else {
      Arithmetic.MulMono(-stride, k, last);
      assert stride * k == -(-stride * k) && stride * last == -(-stride * last);
    }
  }

  lemma RowBetween(r: Raster, y: nat)
    requires y < r.height && r.Holds()
    ensures r.RowInside(y)
  {
    Between(r.stride, if r.flip then r.height - 1 - y else y, r.height - 1);
  }

  /** The offset of every row fits. */
  lemma OffsetFits(r: Raster, y: nat, looksUp: bool)
    requires y < r.height && r.FitsInt(looksUp)
    ensures InInt(r.RowOffset(y))
  {
    Between(r.stride, if r.flip then r.height - 1 - y else y, r.height - 1);
  }

  /** The row above in the output is one signed stride back in memory. */
  lemma RowAbove(r: Raster, y: nat)
    requires 0 < y < r.height
    ensures r.RowOffset(y) - r.SignedStride() == r.RowOffset(y - 1)
  {
    var k := if r.flip then r.height - 1 - y else y;
    assert r.stride * (k + 1) == r.stride * k + r.stride && r.stride * (k - 1) == r.stride * k - r.stride;
  }

  /** Every byte of the output's rows is where a caller put it. */
  lemma OutputByte(r: Raster, y: nat, i: nat)
    requires y < r.height && i < r.length && r.Holds()
    ensures var place := r.origin + r.stride * (if r.flip then r.height - 1 - y else y) + i;
      0 <= place < |r.memory| && r.OutputRow(y)[i] == r.OutputRows(r.height)[y][i] == r.memory[place]
  {
    RowBetween(r, y);
  }

  /** The filter that the first row's table of filters uses in place of one that would look above it. */
  function FirstMap(filter: nat): nat {
    if filter == 2 then 0 else if filter == 3 then 5 else if filter == 4 then 6 else filter
  }

  method Paeth(a: Byte, b: Byte, c: Byte) returns (r: Byte)
    ensures r == PaethPredictor(a, b, c)
  {
    var p := a + b - c;
    var pa, pb, pc := Abs(p - a), Abs(p - b), Abs(p - c);
    if pa <= pb && pa <= pc {
      return Uchar(a);
    }
    if pb <= pc {
      return Uchar(b);
    }
    return Uchar(c);
  }

  /** Adding the prediction back undoes the subtraction. */
  lemma AddBack(x: Byte, p: Byte)
    ensures (Uchar(x as int - p as int) + p) % 256 == x
  {
  }

  /** One more byte of a filtered line. */
  lemma UnfilterMore(filter: nat, line: seq<Byte>, row: seq<Byte>, prior: seq<Byte>, bpp: nat, b: Byte)
    requires |line| < |row| && bpp > 0 && Unfilter(filter, line, prior, bpp) == row[..|line|]
    requires b == Uchar(row[|line|] as int - Predict(filter, At(row, |line| - bpp), At(prior, |line|),
                                                     At(prior, |line| - bpp)))
    ensures Unfilter(filter, line + [b], prior, bpp) == row[..|line| + 1]
  {
    hide Predict;
    var i := |line|;
    assert (line + [b])[..i] == line;
    assert At(row[..i], i - bpp) == At(row, i - bpp);
    AddBack(row[i], Predict(filter, At(row, i - bpp), At(prior, i), At(prior, i - bpp)));
  }

  /** What the loops subtract for each kind of filter, the two extra kinds of the first row included. */
  function KindPredict(kind: nat, a: Byte, b: Byte, c: Byte): Byte {
    if kind == 5 then a / 2 else if kind == 6 then PaethPredictor(a, 0, 0) else Predict(kind, a, b, c)
  }

  /** With nothing above, the first row's kind of filter predicts what the recorded filter predicts. */
  lemma FirstMapPredicts(filter: nat, a: Byte)
    requires filter <= 4
    ensures KindPredict(FirstMap(filter), a, 0, 0) == Predict(filter, a, 0, 0)
  {
  }

  predicate LooksUp(kind: nat) {
    2 <= kind <= 4
  }

  function PixelAt(pixels: seq<Byte>, i: int): Byte {
    if 0 <= i < |pixels| then pixels[i] else 0
  }

  /** A byte of the first pixel, which has nothing to its left. */
  method FirstPixelByte(pixels: seq<Byte>, z: nat, i: nat, signedStride: int, kind: nat) returns (b: Byte)
    requires z + i < |pixels| && kind <= 6
    requires LooksUp(kind) ==> InInt(i - signedStride) && 0 <= z + i - signedStride < |pixels|
    ensures b == Uchar(pixels[z + i] as int - KindPredict(kind, 0, PixelAt(pixels, z + i - signedStride), 0))
  {
    match kind {
      case 2 => b := Uchar(pixels[z + i] as int - pixels[z + Int32(i - signedStride)]);
      case 3 => b := Uchar(pixels[z + i] as int - pixels[z + Int32(i - signedStride)] / 2);
      case 4 =>
        var p := Paeth(0, pixels[z + Int32(i - signedStride)], 0);
        b := Uchar(pixels[z + i] as int - p);
      case _ => b := pixels[z + i];
    }
  }

  /** A byte of a later pixel. */
  method NextPixelByte(pixels: seq<Byte>, z: nat, i: nat, signedStride: int, n: nat, kind: nat) returns (b: Byte)
    requires n <= i && z + i < |pixels| && 1 <= kind <= 6
    requires LooksUp(kind) ==> InInt(i - signedStride) && n <= z + i - signedStride < |pixels|
    requires InInt(signedStride)
    ensures var up := z + i - signedStride;
      b == Uchar(pixels[z + i] as int
                 - KindPredict(kind, pixels[z + i - n], PixelAt(pixels, up), PixelAt(pixels, up - n)))
  {
    match kind {
      case 1 => b := Uchar(pixels[z + i] as int - pixels[z + i - n]);
      case 2 => b := Uchar(pixels[z + i] as int - pixels[z + Int32(i - signedStride)]);
      case 3 =>
        b := Uchar(pixels[z + i] as int - (pixels[z + i - n] as int + pixels[z + Int32(i - signedStride)] as int) / 2);
      case 4 =>
        var p := Paeth(pixels[z + i - n], pixels[z + Int32(i - signedStride)], pixels[z + Int32(i - signedStride - n)]);
        b := Uchar(pixels[z + i] as int - p);
      case 5 => b := Uchar(pixels[z + i] as int - pixels[z + i - n] / 2);
      case _ =>
        var p := Paeth(pixels[z + i - n], 0, 0);
        b := Uchar(pixels[z + i] as int - p);
    }
  }

  /** A row of the output and what lies above it, by position in the pixels; nothing lies above the first row. */
  predicate Placed(pixels: seq<Byte>, z: nat, up: int, row: seq<Byte>, prior: seq<Byte>, first: bool) {
    && |prior| == |row| && z + |row| <= |pixels| && row == pixels[z..z + |row|]
    && if first then prior == Zeros(|row|) else 0 <= up && up + |row| <= |pixels| && prior == pixels[up..up + |row|]
  }

  function KindOf(filter: nat, first: bool): nat {
    if first then FirstMap(filter) else filter
  }

  lemma FirstPixelIs(pixels: seq<Byte>, z: nat, up: int, row: seq<Byte>, prior: seq<Byte>, first: bool, n: nat,
                     filter: nat, i: nat)
    requires Placed(pixels, z, up, row, prior, first) && filter <= 4 && i < n && i < |row|
    ensures LooksUp(KindOf(filter, first)) ==> 0 <= up + i < |pixels|
    ensures KindPredict(KindOf(filter, first), 0, PixelAt(pixels, up + i), 0)
         == Predict(filter, At(row, i - n), At(prior, i), At(prior, i - n))
  {
    hide PaethPredictor;
    FirstMapPredicts(filter, 0);
  }

  lemma NextPixelIs(pixels: seq<Byte>, z: nat, up: int, row: seq<Byte>, prior: seq<Byte>, first: bool, n: nat,
                    filter: nat, i: nat)
    requires Placed(pixels, z, up, row, prior, first) && filter <= 4 && n <= i < |row|
    ensures LooksUp(KindOf(filter, first)) ==> n <= up + i < |pixels|
    ensures KindPredict(KindOf(filter, first), pixels[z + i - n], PixelAt(pixels, up + i), PixelAt(pixels, up + i - n))
         == Predict(filter, At(row, i - n), At(prior, i), At(prior, i - n))
  {
    hide PaethPredictor;
    FirstMapPredicts(filter, row[i - n]);
  }

  /** Positions in the row above are computed in ints. */
  predicate UpFits(kind: nat, length: nat, signedStride: int) {
    InInt(signedStride) && (LooksUp(kind) ==> InInt(length - 1 - signedStride))
  }

  lemma UpFitsAt(kind: nat, length: nat, signedStride: int, i: nat)
    requires UpFits(kind, length, signedStride) && i < length
    ensures LooksUp(kind) ==> InInt(i - signedStride)
    ensures InInt(signedStride)
  {
  }

  /** Filters one row into the line buffer, in the kind that the row's position asks for. */
  method EncodeRow(pixels: seq<Byte>, z: nat, signedStride: int, n: nat, filter: nat, line: array<Byte>, first: bool,
                   ghost row: seq<Byte>, ghost prior: seq<Byte>)
    requires Placed(pixels, z, z - signedStride, row, prior, first)
    requires filter <= 4 && 0 < n <= line.Length == |row| && UpFits(KindOf(filter, first), |row|, signedStride)
    modifies line
    ensures Unfilter(filter, line[..], prior, n) == row
  {
    hide Unfilter, KindPredict, Predict, FirstMap, Placed, KindOf, LooksUp, At, PixelAt, Uchar, InInt, UpFits;
    var kind := KindOf(filter, first);
    ghost var up := z - signedStride;
    KindBounds(filter, first);
    PlacedInside(pixels, z, up, row, prior, first);
    if kind == 0 {
      CopyRow(pixels, z, line);
      CopiedRow(pixels, z, up, row, prior, first, n, filter, |row|);
      assert line[..] == row && row[..|row|] == row;
      return;
    }
    NothingFiltered(filter, prior, n);
    for i := 0 to n
      invariant Unfilter(filter, line[..i], prior, n) == row[..i]
    {
      FirstPixelIs(pixels, z, up, row, prior, first, n, filter, i);
      UpFitsAt(kind, |row|, signedStride, i);
      var b := FirstPixelByte(pixels, z, i, signedStride, kind);
      UnfilterMore(filter, line[..i], row, prior, n, b);
      line[i] := b;
      assert line[..i + 1] == line[..i] + [b];
    }
    for i := n to line.Length
      invariant Unfilter(filter, line[..i], prior, n) == row[..i]
    {
      NextPixelIs(pixels, z, up, row, prior, first, n, filter, i);
      UpFitsAt(kind, |row|, signedStride, i);
      var b := NextPixelByte(pixels, z, i, signedStride, n, kind);
      UnfilterMore(filter, line[..i], row, prior, n, b);
      line[i] := b;
      assert line[..i + 1] == line[..i] + [b];
    }
    assert line[..line.Length] == line[..] && row[..|row|] == row;
  }

  method CopyRow(pixels: seq<Byte>, z: nat, line: array<Byte>)
    requires z + line.Length <= |pixels|
    modifies line
    ensures line[..] == pixels[z..z + line.Length]
  {
    for i := 0 to line.Length
      invariant forall j :: 0 <= j < i ==> line[j] == pixels[z + j]
    {
      line[i] := pixels[z + i];
    }
  }

  /** A copied row unfilters to itself if its kind is to copy. */
  lemma {:induction false} CopiedRow(pixels: seq<Byte>, z: nat, up: int, row: seq<Byte>, prior: seq<Byte>, first: bool,
                                     n: nat, filter: nat, i: nat)
    requires Placed(pixels, z, up, row, prior, first) && filter <= 4 && n > 0
    requires KindOf(filter, first) == 0 && i <= |row|
    ensures Unfilter(filter, row[..i], prior, n) == row[..i]
    decreases i
  {
    hide Unfilter;
    if i == 0 {
      NothingFiltered(filter, prior, n);
    } else {
      CopiedRow(pixels, z, up, row, prior, first, n, filter, i - 1);
      UnfilterMore(filter, row[..i - 1], row, prior, n, row[i - 1]);
      assert row[..i] == row[..i - 1] + [row[i - 1]];
    }
  }

  lemma KindBounds(filter: nat, first: bool)
    requires filter <= 4
    ensures KindOf(filter, first) <= 6
  {
  }

  lemma NothingFiltered(filter: nat, prior: seq<Byte>, bpp: nat)
    ensures Unfilter(filter, [], prior, bpp) == []
  {
  }

  lemma PlacedInside(pixels: seq<Byte>, z: nat, up: int, row: seq<Byte>, prior: seq<Byte>, first: bool)
    requires Placed(pixels, z, up, row, prior, first)
    ensures z + |row| <= |pixels| && forall i :: 0 <= i < |row| ==> row[i] == pixels[z + i]
  {
  }

  /** Where a row and the one above it are found, by the pointer and the signed stride. */
  lemma RowPlaced(r: Raster, y: nat)
    requires y < r.height && r.Holds()
    ensures r.RowInside(y)
    ensures Placed(r.memory, r.origin + r.RowOffset(y), r.origin + r.RowOffset(y) - r.SignedStride(),
                   r.OutputRow(y), r.PriorRow(y), y == 0)
  {
    RowBetween(r, y);
    if y > 0 {
      RowAbove(r, y);
      RowBetween(r, y - 1);
    }
  }

  lemma UpFitsRow(r: Raster, y: nat, filter: nat)
    requires y < r.height && r.FitsInt(filter >= 2)
    ensures UpFits(KindOf(filter, y == 0), r.length, r.SignedStride())
  {
  }

  /** stbiw__encode_png_line: unfiltering the line with the recorded filter gives the row back, for every filter. */
  method EncodeLine(r: Raster, y: nat, n: nat, filter: nat, line: array<Byte>)
    requires y < r.height && filter <= 4 && 0 < n <= line.Length == r.length && r.Holds() && r.FitsInt(filter >= 2)
    modifies line
    ensures Unfilter(filter, line[..], r.PriorRow(y), n) == r.OutputRow(y)
  {
    hide Unfilter, Placed, UpFits, KindOf;
    OffsetFits(r, y, filter >= 2);
    RowPlaced(r, y);
    UpFitsRow(r, y, filter);
    var z := r.origin + Int32(r.stride * if r.flip then r.height - 1 - y else y);
    var signedStride := Int32(if r.flip then -r.stride else r.stride);
    EncodeRow(r.memory, z, signedStride, n, filter, line, y == 0, r.OutputRow(y), r.PriorRow(y));
  }

  // ---------- The choice of a filter ----------

  /** The sum of the bytes' magnitudes as signed numbers. */
  function Magnitude(line: seq<Byte>): nat {
    if line == [] then 0
    else
      var b := line[|line| - 1];
      Magnitude(line[..|line| - 1]) + if b < 128 then b else 256 - b
  }

  lemma SumInInt32(a: int, b: int)
    ensures Int32(Int32(a) + b) == Int32(a + b)
  {
  }

  /** The sum over the line is its magnitude exactly if that fits. */
  method Estimate(line: array<Byte>) returns (est: int)
    ensures est == Int32(Magnitude(line[..]))
    ensures est == Magnitude(line[..]) <==> Magnitude(line[..]) < 0x8000_0000
  {
    hide Int32;
    est := 0;
    for i := 0 to line.Length
      invariant est == Int32(Magnitude(line[..i]))
    {
      assert line[..i + 1][..i] == line[..i];
      var signed: int := if line[i] < 128 then line[i] else line[i] as int - 256;
      SumInInt32(Magnitude(line[..i]), Abs(signed));
      est := Int32(est + Abs(signed));
    }
    assert line[..line.Length] == line[..];
  }

  lemma {:induction false} MagnitudeBound(line: seq<Byte>)
    ensures Magnitude(line) <= 128 * |line|
  {
    if line != [] {
      MagnitudeBound(line[..|line| - 1]);
    }
  }

  lemma {:induction false} MagnitudeOfEqual(b: Byte, n: nat)
    ensures Magnitude(seq(n, _ => b)) == n * if b < 128 then b else 256 - b
  {
    var line: seq<Byte> := seq(n, _ => b);
    if n > 0 {
      assert line[..n - 1] == seq(n - 1, _ => b);
      MagnitudeOfEqual(b, n - 1);
    }
  }

  /** A row has one filtered line for each filter. */
  lemma {:induction false} UnfilterInjective(filter: nat, a: seq<Byte>, b: seq<Byte>, prior: seq<Byte>, bpp: nat)
    requires Unfilter(filter, a, prior, bpp) == Unfilter(filter, b, prior, bpp)
    ensures a == b
    decreases |a|
  {
    hide Predict;
    assert |a| == |b|;
    if a != [] {
      var n := |a| - 1;
      var p, q := Unfilter(filter, a[..n], prior, bpp), Unfilter(filter, b[..n], prior, bpp);
      assert Unfilter(filter, a, prior, bpp)[..n] == p && Unfilter(filter, b, prior, bpp)[..n] == q;
      UnfilterInjective(filter, a[..n], b[..n], prior, bpp);
      SameByte(a[n], b[n], Predict(filter, At(p, n - bpp), At(prior, n), At(prior, n - bpp)));
      assert a == a[..n] + [a[n]] && b == b[..n] + [b[n]];
    }
  }

  lemma SameByte(x: Byte, y: Byte, p: Byte)
    requires (x + p) % 256 == (y + p) % 256
    ensures x == y
  {
  }

  const EST_LIMIT: int := 0x7FFFFFFF

  /** Section 6: each byte less what the filter predicts from the row and the one above it. */
  function FilteredLine(filter: nat, row: seq<Byte>, prior: seq<Byte>, n: nat): (line: seq<Byte>)
    ensures |line| == |row|
  {
    seq(|row|, i requires 0 <= i < |row| =>
      Uchar(row[i] as int - Predict(filter, At(row, i - n), At(prior, i), At(prior, i - n))))
  }

  lemma {:induction false} FilteredPrefix(filter: nat, row: seq<Byte>, prior: seq<Byte>, n: nat, i: nat)
    requires n > 0 && i <= |row|
    ensures Unfilter(filter, FilteredLine(filter, row, prior, n)[..i], prior, n) == row[..i]
    decreases i
  {
    hide Unfilter, Predict;
    var line := FilteredLine(filter, row, prior, n);
    if i == 0 {
      NothingFiltered(filter, prior, n);
    } else {
      FilteredPrefix(filter, row, prior, n, i - 1);
      UnfilterMore(filter, line[..i - 1], row, prior, n, line[i - 1]);
      assert line[..i] == line[..i - 1] + [line[i - 1]];
    }
  }

  /** The filtered line is what unfilters to the row, and nothing else is. */
  lemma FilteredExactly(filter: nat, row: seq<Byte>, prior: seq<Byte>, n: nat, line: seq<Byte>)
    requires n > 0
    ensures Unfilter(filter, line, prior, n) == row <==> line == FilteredLine(filter, row, prior, n)
  {
    hide Unfilter, FilteredLine;
    var filtered := FilteredLine(filter, row, prior, n);
    FilteredPrefix(filter, row, prior, n, |row|);
    assert filtered[..|row|] == filtered && row[..|row|] == row;
    if Unfilter(filter, line, prior, n) == row {
      UnfilterInjective(filter, line, filtered, prior, n);
    }
  }

  /** What the encoder takes for the magnitude of a row under a filter. */
  function Estimated(filter: nat, row: seq<Byte>, prior: seq<Byte>, n: nat): int {
    Int32(Magnitude(FilteredLine(filter, row, prior, n)))
  }

  /** The first filter of least estimate, as long as some estimate is below the limit; otherwise the first one. */
  predicate IsChosen(filter: nat, row: seq<Byte>, prior: seq<Byte>, n: nat) {
    && filter < 5
    && if Estimated(filter, row, prior, n) < EST_LIMIT then
         forall t: nat :: t < 5 ==>
           && Estimated(filter, row, prior, n) <= Estimated(t, row, prior, n)
           && (t < filter ==> Estimated(filter, row, prior, n) < Estimated(t, row, prior, n))
       else filter == 0 && forall t: nat :: t < 5 ==> EST_LIMIT <= Estimated(t, row, prior, n)
  }

  /** The first filter of least magnitude. */
  predicate IsLeast(filter: nat, row: seq<Byte>, prior: seq<Byte>, n: nat) {
    && filter < 5
    && forall t: nat :: t < 5 ==>
         && Magnitude(FilteredLine(filter, row, prior, n)) <= Magnitude(FilteredLine(t, row, prior, n))
         && (t < filter ==>
               Magnitude(FilteredLine(filter, row, prior, n)) < Magnitude(FilteredLine(t, row, prior, n)))
  }

  /** The loop body over rows: a forced filter, or the one that the estimates choose. The line buffer holds its line. */
  method FilterRow(r: Raster, y: nat, n: nat, forceFilter: int, line: array<Byte>) returns (filter: nat)
    requires y < r.height && 0 < n <= line.Length == r.length && forceFilter <= 4
    requires r.Holds() && r.FitsInt(LooksUpEver(forceFilter))
    modifies line
    ensures filter <= 4 && (forceFilter > -1 ==> filter == forceFilter)
    ensures Unfilter(filter, line[..], r.PriorRow(y), n) == r.OutputRow(y)
    ensures forceFilter <= -1 ==> IsChosen(filter, r.OutputRow(y), r.PriorRow(y), n)
    ensures forceFilter <= -1 && r.length < 0x100_0000 ==> IsLeast(filter, r.OutputRow(y), r.PriorRow(y), n)
  {
    hide Unfilter, Magnitude, Int32, FilteredLine;
    if forceFilter > -1 {
      EncodeLine(r, y, n, forceFilter, line);
      return forceFilter;
    }
    ghost var row, prior := r.OutputRow(y), r.PriorRow(y);
    var bestFilter, bestFilterVal := 0, EST_LIMIT;
    for t := 0 to 5
      invariant bestFilter <= 4 && bestFilterVal <= EST_LIMIT
      invariant bestFilterVal < EST_LIMIT ==> bestFilter < t && Estimated(bestFilter, row, prior, n) == bestFilterVal
      invariant bestFilterVal == EST_LIMIT ==> bestFilter == 0
      invariant forall u: nat :: u < t ==> bestFilterVal <= Estimated(u, row, prior, n)
      invariant forall u: nat :: u < t && u < bestFilter ==> bestFilterVal < Estimated(u, row, prior, n)
    {
      EncodeLine(r, y, n, t, line);
      FilteredExactly(t, row, prior, n, line[..]);
      var est := Estimate(line);
      assert est == Estimated(t, row, prior, n);
      if est < bestFilterVal {
        bestFilterVal := est;
        bestFilter := t;
      }
    }
    EncodeLine(r, y, n, bestFilter, line);
    filter := bestFilter;
    if r.length < 0x100_0000 {
      EstimatesExact(filter, row, prior, n);
    }
  }

  /** Some filter that a row can come to be filtered with looks at the row above. */
  predicate LooksUpEver(forceFilter: int) {
    !(0 <= forceFilter <= 1)
  }

  lemma EstimatesExact(filter: nat, row: seq<Byte>, prior: seq<Byte>, n: nat)
    requires IsChosen(filter, row, prior, n) && |row| < 0x100_0000
    ensures IsLeast(filter, row, prior, n)
  {
    hide Magnitude, Int32, FilteredLine;
    forall t: nat | t < 5
      ensures Estimated(t, row, prior, n) == Magnitude(FilteredLine(t, row, prior, n)) < EST_LIMIT
    {
      MagnitudeBound(FilteredLine(t, row, prior, n));
    }
  }

  lemma {:induction false} MagnitudeConcat(a: seq<Byte>, b: seq<Byte>)
    ensures Magnitude(a + b) == Magnitude(a) + Magnitude(b)
    decreases |b|
  {
    if b == [] {
      assert a + b == a;
    } else {
      var n := |b| - 1;
      assert (a + b)[..|a + b| - 1] == a + b[..n];
      MagnitudeConcat(a, b[..n]);
    }
  }

  /** 16 MiB of the byte of largest magnitude, then zeros. */
  function WideRow(length: nat): (row: seq<Byte>)
    requires length >= 0x100_0000
    ensures |row| == length
  {
    seq(0x100_0000, _ => 128) + seq(length - 0x100_0000, _ => 0)
  }

  lemma WideMagnitude(length: nat)
    requires length >= 0x100_0000
    ensures Magnitude(WideRow(length)) == 0x8000_0000
  {
    hide Magnitude;
    MagnitudeConcat(seq(0x100_0000, _ => 128), seq(length - 0x100_0000, _ => 0));
    MagnitudeOfEqual(128, 0x100_0000);
    MagnitudeOfEqual(0, length - 0x100_0000);
  }

  lemma WideAt(length: nat, i: nat)
    requires length >= 0x100_0000 && i < length
    ensures WideRow(length)[i] == if i < 0x100_0000 then 128 else 0
  {
  }

  lemma SubAt(row: seq<Byte>, n: nat, i: nat)
    requires n <= i < |row|
    ensures FilteredLine(1, row, Zeros(|row|), n)[i] == Uchar(row[i] as int - row[i - n])
  {
  }

  /** Where a byte equals the one a pixel before, the difference is zero. */
  lemma WideDifference(length: nat, n: nat, i: nat)
    requires length >= 0x100_0000 && 0 < n <= 4 && n <= i < length
    requires i < 0x100_0000 || 0x100_0000 + n <= i
    ensures FilteredLine(1, WideRow(length), Zeros(length), n)[i] == 0
  {
    hide WideRow, FilteredLine;
    SubAt(WideRow(length), n, i);
    WideAt(length, i);
    WideAt(length, i - n);
  }

  /** All but the first pixel of either part costs nothing. */
  lemma WideBySub(length: nat, n: nat)
    requires length >= 0x100_0000 && 0 < n <= 4
    ensures Magnitude(FilteredLine(1, WideRow(length), Zeros(length), n)) <= 256 * n
  {
    hide Magnitude, FilteredLine, WideRow;
    var line := FilteredLine(1, WideRow(length), Zeros(length), n);
    var m := if length <= 0x100_0000 + n then length else 0x100_0000 + n;
    ZerosBetween(line, n, 0x100_0000) by {
      forall i: nat | n <= i < 0x100_0000 ensures line[i] == 0 {
        WideDifference(length, n, i);
      }
    }
    ZerosBetween(line, m, length) by {
      forall i: nat | m <= i < length ensures line[i] == 0 {
        WideDifference(length, n, i);
      }
    }
    assert line[..length] == line;
    MagnitudeBound(line[..n]);
    assert line[..m] == line[..0x100_0000] + line[0x100_0000..m];
    MagnitudeConcat(line[..0x100_0000], line[0x100_0000..m]);
    MagnitudeBound(line[0x100_0000..m]);
  }

  /** A stretch of zeros adds nothing. */
  lemma ZerosBetween(line: seq<Byte>, from: nat, to: nat)
    requires from <= to <= |line| && forall i: nat :: from <= i < to ==> line[i] == 0
    ensures Magnitude(line[..to]) == Magnitude(line[..from])
  {
    hide Magnitude;
    assert line[..to] == line[..from] + line[from..to] && line[from..to] == seq(to - from, _ => 0);
    MagnitudeConcat(line[..from], line[from..to]);
    MagnitudeOfEqual(0, to - from);
  }

  lemma WideUnfiltered(length: nat, n: nat)
    requires length >= 0x100_0000
    ensures FilteredLine(0, WideRow(length), Zeros(length), n) == WideRow(length)
  {
  }

  /** A first row of 16 MiB: its estimate wraps around below all others, and the row goes out as it is. */
  lemma WideRowMisjudged(length: nat, n: nat)
    requires length >= 0x100_0000 && 0 < n <= 4
    ensures IsChosen(0, WideRow(length), Zeros(length), n) && !IsLeast(0, WideRow(length), Zeros(length), n)
  {
    hide Magnitude, FilteredLine, WideRow;
    WideUnfiltered(length, n);
    WideMagnitude(length);
    WideBySub(length, n);
    assert Estimated(0, WideRow(length), Zeros(length), n) == -0x8000_0000;
  }

  /** Every row of a length is filtered with a filter of least magnitude exactly if that length is below 16 MiB. */
  lemma LeastExactly(length: nat, n: nat)
    requires 0 < n <= 4
    ensures length < 0x100_0000
       <==> forall row, prior, filter ::
              |row| == |prior| == length && IsChosen(filter, row, prior, n) ==> IsLeast(filter, row, prior, n)
  {
    hide IsChosen, IsLeast, WideRow;
    if length < 0x100_0000 {
      forall row, prior, filter | |row| == |prior| == length && IsChosen(filter, row, prior, n)
        ensures IsLeast(filter, row, prior, n)
      {
        EstimatesExact(filter, row, prior, n);
      }
    } else {
      WideRowMisjudged(length, n);
    }
  }

  // ---------- All rows ----------

  /** Whatever follows, the decoder consumes exactly these bytes for the rows done so far. */
  ghost predicate Reaches(filtered: seq<Byte>, length: nat, bpp: nat, height: nat, rows: seq<seq<Byte>>) {
    |rows| <= height
    && forall rest: seq<Byte> :: UnfilterRows(filtered + rest, length, bpp, height, [])
                              == UnfilterRows(rest, length, bpp, height - |rows|, rows)
  }

  /** The decoder takes one row from the front. */
  lemma TakeFilteredRow(bytes: seq<Byte>, length: nat, bpp: nat, count: nat, done: seq<seq<Byte>>, row: seq<Byte>)
    requires |bytes| >= 1 + length && bytes[0] <= 4
    requires row == Unfilter(bytes[0], bytes[1..1 + length],
                             if done == [] then Zeros(length) else done[|done| - 1], bpp)
    ensures UnfilterRows(bytes, length, bpp, count + 1, done)
         == UnfilterRows(bytes[1 + length..], length, bpp, count, done + [row])
  {
    hide Unfilter;
  }

  lemma ReachesRow(filtered: seq<Byte>, length: nat, bpp: nat, height: nat, rows: seq<seq<Byte>>, filter: Byte,
                   line: seq<Byte>, row: seq<Byte>)
    requires Reaches(filtered, length, bpp, height, rows) && |rows| < height && filter <= 4 && |line| == length
    requires row == Unfilter(filter, line, if rows == [] then Zeros(length) else rows[|rows| - 1], bpp)
    ensures Reaches(filtered + [filter] + line, length, bpp, height, rows + [row])
  {
    hide Unfilter, UnfilterRows;
    forall rest: seq<Byte>
      ensures UnfilterRows(filtered + [filter] + line + rest, length, bpp, height, [])
           == UnfilterRows(rest, length, bpp, height - |rows| - 1, rows + [row])
    {
      var next := [filter] + (line + rest);
      ConcatAssociates(filtered + [filter], line, rest);
      ConcatAssociates(filtered, [filter], line + rest);
      assert next[1..1 + length] == line && next[1 + length..] == rest;
      TakeFilteredRow(next, length, bpp, height - |rows| - 1, rows, row);
    }
  }

  /** The filter of a row: the forced one or, if none of the five is forced, the one that the estimates choose. */
  predicate RightFilter(r: Raster, y: nat, n: nat, forceFilter: int, filter: nat)
    requires y < r.height && r.Holds()
  {
    filter <= 4
    && if 0 <= forceFilter <= 4 then filter == forceFilter else IsChosen(filter, r.OutputRow(y), r.PriorRow(y), n)
  }

  /** The filter and the filtered line of each of the first rows. */
  function FilteredBytes(r: Raster, n: nat, filters: seq<nat>): seq<Byte>
    requires |filters| <= r.height && r.Holds()
  {
    if filters == [] then []
    else
      var y := |filters| - 1;
      FilteredBytes(r, n, filters[..y]) + [filters[y] % 256]
      + FilteredLine(filters[y], r.OutputRow(y), r.PriorRow(y), n)
  }

  ghost predicate RightFilters(r: Raster, n: nat, forceFilter: int, filters: seq<nat>)
    requires |filters| <= r.height && r.Holds()
  {
    forall y :: 0 <= y < |filters| ==> RightFilter(r, y, n, forceFilter, filters[y])
  }

  lemma FilteredNothing(r: Raster, n: nat, forceFilter: int)
    requires r.Holds()
    ensures RightFilters(r, n, forceFilter, []) && FilteredBytes(r, n, []) == []
  {
  }

  lemma FilteredMore(r: Raster, n: nat, forceFilter: int, filters: seq<nat>, filter: nat, line: seq<Byte>)
    requires n > 0 && r.Holds() && |filters| < r.height && RightFilters(r, n, forceFilter, filters)
    requires RightFilter(r, |filters|, n, forceFilter, filter)
    requires Unfilter(filter, line, r.PriorRow(|filters|), n) == r.OutputRow(|filters|)
    ensures RightFilters(r, n, forceFilter, filters + [filter])
    ensures FilteredBytes(r, n, filters + [filter]) == FilteredBytes(r, n, filters) + [filter] + line
  {
    hide Unfilter, FilteredLine, IsChosen;
    assert (filters + [filter])[..|filters|] == filters;
    FilteredExactly(filter, r.OutputRow(|filters|), r.PriorRow(|filters|), n, line);
  }

  /** Estimates choose one filter. */
  lemma RightFilterOnce(r: Raster, y: nat, n: nat, forceFilter: int, a: nat, b: nat)
    requires y < r.height && r.Holds() && RightFilter(r, y, n, forceFilter, a) && RightFilter(r, y, n, forceFilter, b)
    ensures a == b
  {
    hide Estimated;
    assert a < b || b < a || a == b;
  }

  /** The filtered image: each row's filter and line, which decode to the rows of the output. */
  method FilterRows(r: Raster, width: nat, n: nat, forceFilter: int)
    returns (filt: seq<Byte>, ghost filters: seq<nat>)
    requires 0 < n && 0 < width && r.length == RowLength(width, n)
    requires r.Holds() && r.FitsInt(LooksUpEver(forceFilter))
    ensures UnfilterRows(filt, r.length, n, r.height, []) == Some(r.OutputRows(r.height))
    ensures |filt| == r.height * (r.length + 1)
    ensures |filters| == r.height && RightFilters(r, n, forceFilter, filters) && filt == FilteredBytes(r, n, filters)
  {
    hide Unfilter, UnfilterRows, Reaches, IsChosen, IsLeast, FirstMap, FilteredBytes, RightFilters, Raster.OutputRow,
         Raster.Holds, Raster.FitsInt;
    var length := width * n;
    Arithmetic.MulMono(n, 1, width);
    assert n * width == width * n;
    var force := if forceFilter >= 5 then -1 else forceFilter;
    var line := new Byte[length];
    filt, filters := [], [];
    ghost var rows: seq<seq<Byte>> := [];
    ReachesNothing(length, n, r.height);
    FilteredNothing(r, n, forceFilter);
    for y := 0 to r.height
      invariant rows == r.OutputRows(y)
      invariant Reaches(filt, length, n, r.height, rows) && |filt| == y * (length + 1)
      invariant |filters| == y && RightFilters(r, n, forceFilter, filters) && filt == FilteredBytes(r, n, filters)
    {
      var filter := FilterRow(r, y, n, force, line);
      FilteredMore(r, n, forceFilter, filters, filter, line[..]);
      ReachesRow(filt, length, n, r.height, rows, filter, line[..], r.OutputRow(y));
      rows := rows + [r.OutputRow(y)];
      assert (y + 1) * (length + 1) == y * (length + 1) + 1 + length;
      filt := filt + [filter] + line[..];
      filters := filters + [filter];
    }
    ReachesAll(filt, length, n, r.height, rows);
  }

  lemma ReachesNothing(length: nat, bpp: nat, height: nat)
    ensures Reaches([], length, bpp, height, [])
  {
    hide UnfilterRows;
    forall rest: seq<Byte> ensures [] + rest == rest {
    }
  }

  lemma ReachesAll(filtered: seq<Byte>, length: nat, bpp: nat, height: nat, rows: seq<seq<Byte>>)
    requires Reaches(filtered, length, bpp, height, rows) && |rows| == height
    ensures UnfilterRows(filtered, length, bpp, height, []) == Some(rows)
  {
    assert filtered + [] == filtered;
  }

  // ---------- Chunks ----------

  /** stbiw__wp32: the four bytes of a number, most-significant first. */
  function BigEndianBytes(v: nat): (bytes: seq<Byte>)
    ensures |bytes| == 4
  {
    [Uchar(v / 0x1000000), Uchar(v / 0x10000), Uchar(v / 0x100), Uchar(v)]
  }

  lemma DivideTwice(v: nat)
    ensures v / 0x100 / 0x100 == v / 0x10000
  {
  }

  lemma DivideThrice(v: nat)
    ensures v / 0x10000 / 0x100 == v / 0x1000000
  {
  }

  /** The bytes read back as the number if it fits 32 bits. */
  lemma BigEndianBack(v: nat)
    requires v < StbZlib.WORD
    ensures ZlibFormat.BigEndian32(BigEndianBytes(v)) == v
  {
    var q1, q2, q3 := v / 0x100, v / 0x10000, v / 0x1000000;
    DivideTwice(v);
    DivideThrice(v);
    assert v == 0x100 * q1 + Uchar(v) as int;
    assert q1 == 0x100 * q2 + Uchar(q1) as int;
    assert q2 == 0x100 * q3 + Uchar(q2) as int;
    assert q3 < 0x100 && Uchar(q3) == q3;
  }

  function ChunkBytes(tag: Tag, data: seq<Byte>): seq<Byte> {
    BigEndianBytes(|data|) + tag + data + BigEndianBytes(Crc32(tag + data))
  }

  /** The decoder takes a chunk back as it was written. */
  lemma TakeChunkBack(tag: Tag, data: seq<Byte>, rest: seq<Byte>)
    requires |tag| == 4 && |data| < StbZlib.WORD
    ensures TakeChunk(ChunkBytes(tag, data) + rest) == Some(ChunkStep(tag, data, rest))
  {
    hide Crc32, ZlibFormat.BigEndian32, BigEndianBytes;
    BigEndianBack(Crc32(tag + data));
    BigEndianBack(|data|);
    var bytes, n := ChunkBytes(tag, data) + rest, |data|;
    assert bytes[..4] == BigEndianBytes(n);
    assert bytes[4..8] == tag && bytes[8..8 + n] == data;
    assert bytes[4..8 + n] == tag + data;
    assert bytes[8 + n..12 + n] == BigEndianBytes(Crc32(tag + data));
    assert bytes[12 + n..] == rest;
  }

  /** Writes a chunk; the CRC covers what has just been written from the tag on. */
  method WriteChunk(out: seq<Byte>, tag: Tag, data: seq<Byte>) returns (o: seq<Byte>)
    requires |tag| == 4
    ensures o == out + ChunkBytes(tag, data)
  {
    hide Crc32, BigEndianBytes;
    o := out + BigEndianBytes(|data|);
    o := o + tag;
    o := o + data;
    assert o[|o| - |data| - 4..] == tag + data;
    var crc := StbCrc.Crc(o[|o| - |data| - 4..]);
    o := o + BigEndianBytes(crc);
  }

  // ---------- stbi_write_png_to_mem ----------

  function ColorType(n: nat): Byte
    requires 1 <= n <= 4
  {
    [0, 4, 2, 6][n - 1]
  }

  function HeaderData(width: nat, height: nat, n: nat): (header: seq<Byte>)
    requires 1 <= n <= 4
    ensures |header| == 13
  {
    BigEndianBytes(width) + BigEndianBytes(height) + [8, ColorType(n), 0, 0, 0]
  }

  /** The three chunks decode to the image behind the compressed rows. */
  lemma DecodeFile(width: nat, height: nat, n: nat, zlib: seq<Byte>, filt: seq<Byte>, rows: seq<seq<Byte>>)
    requires 0 < width < StbZlib.WORD && height < StbZlib.WORD && 1 <= n <= 4 && |zlib| < StbZlib.WORD
    requires height > 0 ==> ZlibFormat.ZlibDecode(zlib) == Some(filt)
    requires height > 0 ==> UnfilterRows(filt, RowLength(width, n), n, height, []) == Some(rows)
    ensures PngDecode(SIGNATURE + ChunkBytes(IHDR, HeaderData(width, height, n)) + ChunkBytes(IDAT, zlib)
                      + ChunkBytes(IEND, []))
         == if height > 0 then Some(Image(width, height, n, rows)) else None
  {
    hide ZlibFormat.ZlibDecode, UnfilterRows, ChunkBytes, TakeChunk, ZlibFormat.BigEndian32, DecodeBody;
    var header := HeaderData(width, height, n);
    var afterData := ChunkBytes(IEND, []);
    var afterHeader := ChunkBytes(IDAT, zlib) + afterData;
    var bytes := SIGNATURE + ChunkBytes(IHDR, header) + ChunkBytes(IDAT, zlib) + afterData;
    assert bytes == SIGNATURE + (ChunkBytes(IHDR, header) + afterHeader);
    assert bytes[8..] == ChunkBytes(IHDR, header) + afterHeader;
    TakeChunkBack(IHDR, header, afterHeader);
    DecodeChunks(width, height, n, zlib, filt, rows);
  }

  lemma DecodeChunks(width: nat, height: nat, n: nat, zlib: seq<Byte>, filt: seq<Byte>, rows: seq<seq<Byte>>)
    requires 0 < width < StbZlib.WORD && height < StbZlib.WORD && 1 <= n <= 4 && |zlib| < StbZlib.WORD
    requires height > 0 ==> ZlibFormat.ZlibDecode(zlib) == Some(filt)
    requires height > 0 ==> UnfilterRows(filt, RowLength(width, n), n, height, []) == Some(rows)
    ensures DecodeBody(HeaderData(width, height, n), ChunkBytes(IDAT, zlib) + ChunkBytes(IEND, []))
         == if height > 0 then Some(Image(width, height, n, rows)) else None
  {
    hide ZlibFormat.ZlibDecode, UnfilterRows, ChunkBytes, TakeChunk, ZlibFormat.BigEndian32;
    var header, afterData := HeaderData(width, height, n), ChunkBytes(IEND, []);
    BigEndianBack(width);
    BigEndianBack(height);
    assert header[..4] == BigEndianBytes(width) && header[4..8] == BigEndianBytes(height);
    assert header[8] == 8 && header[9] == ColorType(n) && header[10..] == [0, 0, 0];
    assert afterData + [] == afterData && zlib + [] == zlib;
    TakeChunkBack(IDAT, zlib, afterData);
    TakeChunkBack(IEND, [], []);
    assert TakeImageData(afterData) == Some([]);
    assert TakeImageData(ChunkBytes(IDAT, zlib) + afterData) == Some(zlib);
  }

  function PixelRaster(memory: seq<Byte>, origin: nat, strideBytes: int, width: nat, height: nat, n: nat,
                       flip: bool): Raster
  {
    Raster(memory, origin, if strideBytes == 0 then RowLength(width, n) else strideBytes, height, RowLength(width, n),
           flip)
  }

  function PngBytes(width: nat, height: nat, n: nat, zlib: seq<Byte>): seq<Byte>
    requires 1 <= n <= 4
  {
    SIGNATURE + ChunkBytes(IHDR, HeaderData(width, height, n)) + ChunkBytes(IDAT, zlib) + ChunkBytes(IEND, [])
  }

  /** The file holds the compressed rows, filtered as forced or chosen. */
  ghost predicate IsFile(r: Raster, width: nat, n: nat, forceFilter: int, compressionLevel: int, out: seq<Byte>)
    requires 1 <= n <= 4 && r.Holds()
  {
    exists filters: seq<nat>, zlib: seq<Byte> ::
      && |filters| == r.height && RightFilters(r, n, forceFilter, filters)
      && StbZlib.Compressed(FilteredBytes(r, n, filters), compressionLevel, zlib)
      && out == PngBytes(width, r.height, n, zlib)
  }

  /** Pixels, forced filter and compression level determine the file, byte for byte. */
  lemma FileOnce(r: Raster, width: nat, n: nat, forceFilter: int, compressionLevel: int, a: seq<Byte>, b: seq<Byte>)
    requires 1 <= n <= 4 && r.Holds()
    requires IsFile(r, width, n, forceFilter, compressionLevel, a)
    requires IsFile(r, width, n, forceFilter, compressionLevel, b)
    ensures a == b
  {
    hide PngBytes, FilteredBytes, RightFilter, StbZlib.Compressed;
    var filters, zlib :|
      && |filters| == r.height && RightFilters(r, n, forceFilter, filters)
      && StbZlib.Compressed(FilteredBytes(r, n, filters), compressionLevel, zlib)
      && a == PngBytes(width, r.height, n, zlib);
    var filters', zlib' :|
      && |filters'| == r.height && RightFilters(r, n, forceFilter, filters')
      && StbZlib.Compressed(FilteredBytes(r, n, filters'), compressionLevel, zlib')
      && b == PngBytes(width, r.height, n, zlib');
    forall y | 0 <= y < r.height ensures filters[y] == filters'[y] {
      RightFilterOnce(r, y, n, forceFilter, filters[y], filters'[y]);
    }
    assert filters == filters';
    StbZlib.CompressedOnce(FilteredBytes(r, n, filters), compressionLevel, zlib, zlib');
  }

  /**
   stbi_write_png_to_mem: a standard decoder gives back the width, the height and every row of the pixels, from the
   last one up if writing is flipped, exactly when there is a row. The stride may be negative. Sizes, offsets and
   positions are those that the original's ints can hold.
   */
  method WritePng(memory: seq<Byte>, origin: nat, strideBytes: int, width: nat, height: nat, n: nat, forceFilter: int,
                  flip: bool, compressionLevel: int)
    returns (out: seq<Byte>)
    requires 0 < width < 0x8000_0000 && height < 0x8000_0000 && 1 <= n <= 4 && InInt(strideBytes)
    requires InInt(RowLength(width, n) + 1)
    requires InInt(StbZlib.StoredBound(height * (RowLength(width, n) + 1)) + 4)
    requires PixelRaster(memory, origin, strideBytes, width, height, n, flip).Holds()
    requires PixelRaster(memory, origin, strideBytes, width, height, n, flip).FitsInt(LooksUpEver(forceFilter))
    ensures PngDecode(out) == if height == 0 then None else
      Some(Image(width, height, n,
                 PixelRaster(memory, origin, strideBytes, width, height, n, flip).OutputRows(height)))
    ensures IsFile(PixelRaster(memory, origin, strideBytes, width, height, n, flip), width, n, forceFilter,
                   compressionLevel, out)
  {
    hide UnfilterRows, ZlibFormat.ZlibDecode, PngDecode, RowLength, FilteredBytes, StbZlib.Compressed, RightFilters;
    var stride := if strideBytes == 0 then width * n else strideBytes;
    LengthIs(width, n);
    var raster := Raster(memory, origin, stride, height, RowLength(width, n), flip);
    var filt;
    ghost var filters;
    filt, filters := FilterRows(raster, width, n, forceFilter);
    FilteredEmpty(height, RowLength(width, n), filt);
    var zlib := StbZlib.ZlibCompress(filt, compressionLevel);
    out := [137, 80, 78, 71, 13, 10, 26, 10];
    out := WriteChunk(out, [73, 72, 68, 82], HeaderData(width, height, n));
    out := WriteChunk(out, [73, 68, 65, 84], zlib);
    out := WriteChunk(out, [73, 69, 78, 68], []);
    assert out == PngBytes(width, height, n, zlib);
    DecodeFile(width, height, n, zlib, filt, raster.OutputRows(height));
  }

  lemma LengthIs(width: nat, n: nat)
    ensures RowLength(width, n) == width * n
  {
  }

  lemma FilteredEmpty(height: nat, length: nat, filt: seq<Byte>)
    requires |filt| == height * (length + 1)
    ensures height > 0 ==> filt != []
  {
    if height > 0 {
      Arithmetic.MulMono(length + 1, 1, height);
      assert (length + 1) * height == height * (length + 1);
    }
  }
}
