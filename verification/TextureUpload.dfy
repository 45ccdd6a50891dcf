/**
 Staging of texture data: the layout of every subresource, and the loops that copy it row by row into the staging
 buffer.
 */
module TextureUpload {
  import Arithmetic
  import opened BitStrings
  import opened Wrappers

  // ---------- Layouts ----------

  const REMAINING: nat := 0xFFFF_FFFF

  datatype Extent = Extent(width: nat, height: nat, depth: nat)

  datatype Offset = Offset(x: nat, y: nat, z: nat)

  /** The size of the texture and the block of its format. */
  datatype TextureDesc = TextureDesc(size: Extent, blockWidth: nat, blockHeight: nat, blockSize: nat)

  datatype Layout = Layout(size: Extent, rowPitch: nat, slicePitch: nat, rowCount: nat, sizeInBytes: nat)

  predicate DescOk(desc: TextureDesc) {
    0 < desc.blockWidth && 0 < desc.blockHeight && 0 < desc.blockSize
  }

  function MipSize(size: nat, mip: nat): nat {
    Arithmetic.Max(1, size / Pow2(mip))
  }

  /** One dimension of the region: what is left of the mip if no extent is given, unless nothing is. */
  function ResolveExtent(extent: nat, offset: nat, size: nat, mip: nat): Option<nat> {
    if extent != REMAINING then Some(extent)
    else if offset >= MipSize(size, mip) then None
    else Some(MipSize(size, mip) - offset)
  }

  function DivideRoundedUp(value: nat, divisor: nat): nat
    requires divisor > 0
  {
    (value + divisor - 1) / divisor
  }

  /** calcSubresourceRegionLayout; None for an offset outside the mip. */
  function CalcSubresourceRegionLayout(desc: TextureDesc, mip: nat, offset: Offset, extent: Extent,
                                       rowAlignment: nat): Option<Layout>
    requires DescOk(desc) && rowAlignment > 0
  {
    var width :- ResolveExtent(extent.width, offset.x, desc.size.width, mip);
    var height :- ResolveExtent(extent.height, offset.y, desc.size.height, mip);
    var depth :- ResolveExtent(extent.depth, offset.z, desc.size.depth, mip);
    var rowSize := RowSize(desc, width);
    var rowCount := DivideRoundedUp(height, desc.blockHeight);
    var rowPitch := Arithmetic.CalcAligned(rowSize, rowAlignment);
    var layerPitch := Product(rowPitch, rowCount);
    Some(Layout(Extent(width, height, depth), rowPitch, layerPitch, rowCount, Product(layerPitch, depth)))
  }

  function Product(a: nat, b: nat): nat {
    a * b
  }

  function RowSize(desc: TextureDesc, width: nat): nat
    requires DescOk(desc)
  {
    Product(DivideRoundedUp(width, desc.blockWidth), desc.blockSize)
  }

  /** Slices are whole rows, the region is whole slices, and rounding up adds at the end only. */
  predicate LayoutOk(l: Layout) {
    l.slicePitch == Product(l.rowPitch, l.rowCount) && Product(l.slicePitch, l.size.depth) <= l.sizeInBytes
  }

  /** Each mip has half the size of the one before, rounded down, and never less than one. */
  lemma MipHalves(size: nat, mip: nat)
    ensures MipSize(size, 0) == Arithmetic.Max(1, size)
    ensures MipSize(size, mip + 1) == Arithmetic.Max(1, MipSize(size, mip) / 2)
  {
    HalfQuotient(size, Pow2(mip));
  }

  lemma HalfQuotient(size: nat, p: nat)
    requires p > 0
    ensures size / (2 * p) == size / p / 2
  {
    var q := size / p;
    var h := q / 2;
    assert size == p * q + size % p && q == 2 * h + q % 2;
    Multiples(p, h, q, size % p);
  }

  lemma Multiples(p: nat, h: nat, q: nat, r: nat)
    requires p > 0 && r < p && 2 * h <= q <= 2 * h + 1
    ensures (p * q + r) / (2 * p) == h
  {
    var n, d := p * q + r, 2 * p;
    Arithmetic.MulMono(p, 2 * h, q);
    Arithmetic.MulMono(p, q, 2 * h + 1);
    assert p * (2 * h) == d * h && p * (2 * h + 1) == d * h + p;
    QuotientIs(n, d, h);
  }

  lemma QuotientIs(n: nat, d: nat, h: nat)
    requires d > 0 && d * h <= n < d * h + d
    ensures n / d == h
  {
    var q := n / d;
    assert n == d * q + n % d;
    assert d * (q + 1) == d * q + d && d * (h + 1) == d * h + d;
    if q < h {
      Arithmetic.MulMono(d, q + 1, h);
    } else if q > h {
      Arithmetic.MulMono(d, h + 1, q);
    }
  }

  /** The least number of blocks that covers a length. */
  predicate CoveredBy(length: nat, blocks: nat, block: nat) {
    length <= blocks * block < length + block
  }

  lemma RoundedUpCovers(value: nat, divisor: nat)
    requires divisor > 0
    ensures CoveredBy(value, DivideRoundedUp(value, divisor), divisor)
  {
    var t, q := value + divisor - 1, DivideRoundedUp(value, divisor);
    assert t == divisor * (t / divisor) + t % divisor;
    assert q * divisor == divisor * (t / divisor);
  }

  /** One dimension of the region: as given or, if left open, up to the end of the mip. */
  predicate Spans(given: nat, offset: nat, size: nat, mip: nat, extent: nat) {
    if given != 0xFFFF_FFFF then extent == given else offset + extent == MipSize(size, mip) && extent > 0
  }

  /**
   A layout for a region of a mip: its blocks cover the region and no more than that needs, rows of whole blocks start
   at the row alignment as closely as they can, and slices follow each other row by row.
   */
  ghost predicate RegionLayout(desc: TextureDesc, mip: nat, offset: Offset, extent: Extent, rowAlignment: nat,
                               l: Layout)
    requires rowAlignment > 0
  {
    && Spans(extent.width, offset.x, desc.size.width, mip, l.size.width)
    && Spans(extent.height, offset.y, desc.size.height, mip, l.size.height)
    && Spans(extent.depth, offset.z, desc.size.depth, mip, l.size.depth)
    && CoveredBy(l.size.height, l.rowCount, desc.blockHeight)
    && (exists blocks: nat :: CoveredBy(l.size.width, blocks, desc.blockWidth)
          && l.rowPitch % rowAlignment == 0
          && blocks * desc.blockSize <= l.rowPitch < blocks * desc.blockSize + rowAlignment)
    && l.slicePitch == l.rowPitch * l.rowCount
  }

  /** The layout of a region, unless an open dimension starts outside the mip. */
  lemma LayoutOfRegion(desc: TextureDesc, mip: nat, offset: Offset, extent: Extent, rowAlignment: nat)
    requires DescOk(desc) && rowAlignment > 0
    ensures CalcSubresourceRegionLayout(desc, mip, offset, extent, rowAlignment).None? <==>
      (extent.width == REMAINING && offset.x >= MipSize(desc.size.width, mip))
      || (extent.height == REMAINING && offset.y >= MipSize(desc.size.height, mip))
      || (extent.depth == REMAINING && offset.z >= MipSize(desc.size.depth, mip))
    ensures CalcSubresourceRegionLayout(desc, mip, offset, extent, rowAlignment).Some? ==>
      var l := CalcSubresourceRegionLayout(desc, mip, offset, extent, rowAlignment).value;
      RegionLayout(desc, mip, offset, extent, rowAlignment, l) && l.sizeInBytes == l.slicePitch * l.size.depth
  {
    hide MipSize, DivideRoundedUp, CoveredBy;
    if CalcSubresourceRegionLayout(desc, mip, offset, extent, rowAlignment).Some? {
      var l := CalcSubresourceRegionLayout(desc, mip, offset, extent, rowAlignment).value;
      RoundedUpCovers(l.size.height, desc.blockHeight);
      RoundedUpCovers(l.size.width, desc.blockWidth);
      assert CoveredBy(l.size.width, DivideRoundedUp(l.size.width, desc.blockWidth), desc.blockWidth);
    }
  }

  /** Where a subresource starts: behind all before it. */
  function Base(layouts: seq<Layout>, s: nat): nat
    requires s <= |layouts|
  {
    if s == 0 then 0 else Base(layouts, s - 1) + layouts[s - 1].sizeInBytes
  }

  lemma {:induction false} BaseOfPrefix(a: seq<Layout>, l: Layout, s: nat)
    requires s <= |a|
    ensures Base(a + [l], s) == Base(a, s)
  {
    if s > 0 {
      BaseOfPrefix(a, l, s - 1);
    }
  }

  lemma {:induction false} BaseAligned(layouts: seq<Layout>, s: nat, alignment: nat)
    requires s <= |layouts| && alignment > 0
    requires forall t :: 0 <= t < |layouts| ==> layouts[t].sizeInBytes % alignment == 0
    ensures Base(layouts, s) % alignment == 0
  {
    if s > 0 {
      BaseAligned(layouts, s - 1, alignment);
      Arithmetic.SumOfMultiples(Base(layouts, s - 1), layouts[s - 1].sizeInBytes, alignment);
    }
  }

  lemma {:induction false} BaseGrows(layouts: seq<Layout>, s: nat, t: nat)
    requires s <= t <= |layouts|
    ensures Base(layouts, s) <= Base(layouts, t)
  {
    if s < t {
      BaseGrows(layouts, s, t - 1);
    }
  }

  predicate SizesAligned(layouts: seq<Layout>, alignment: nat)
    requires alignment > 0
  {
    forall t :: 0 <= t < |layouts| ==> LayoutOk(layouts[t]) && layouts[t].sizeInBytes % alignment == 0
  }

  lemma LayoutIsOk(desc: TextureDesc, mip: nat, offset: Offset, extent: Extent, rowAlignment: nat)
    requires DescOk(desc) && rowAlignment > 0
    requires CalcSubresourceRegionLayout(desc, mip, offset, extent, rowAlignment).Some?
    ensures LayoutOk(CalcSubresourceRegionLayout(desc, mip, offset, extent, rowAlignment).value)
  {
    hide MipSize, DivideRoundedUp, Product;
  }

  predicate QueriesSucceed(desc: TextureDesc, firstMip: nat, mipCount: nat, offset: Offset, extent: Extent,
                           rowAlignment: nat)
    requires DescOk(desc) && rowAlignment > 0
  {
    forall mip :: firstMip <= mip < firstMip + mipCount ==>
      CalcSubresourceRegionLayout(desc, mip, offset, extent, rowAlignment).Some?
  }

  /** The region's layout in one mip level, its size rounded up so that the next subresource starts aligned. */
  function StagedLayout(desc: TextureDesc, mip: nat, offset: Offset, extent: Extent, rowAlignment: nat,
                        offsetAlignment: nat): Layout
    requires DescOk(desc) && rowAlignment > 0 && offsetAlignment > 0
    requires CalcSubresourceRegionLayout(desc, mip, offset, extent, rowAlignment).Some?
  {
    var layout := CalcSubresourceRegionLayout(desc, mip, offset, extent, rowAlignment).value;
    layout.(sizeInBytes := Arithmetic.CalcAligned(layout.sizeInBytes, offsetAlignment))
  }

  function MipLayouts(desc: TextureDesc, firstMip: nat, mipCount: nat, offset: Offset, extent: Extent,
                      rowAlignment: nat,
                      offsetAlignment: nat): (layouts: seq<Layout>)
    requires DescOk(desc) && rowAlignment > 0 && offsetAlignment > 0
    requires QueriesSucceed(desc, firstMip, mipCount, offset, extent, rowAlignment)
    ensures |layouts| == mipCount
  {
    if mipCount == 0 then []
    else MipLayouts(desc, firstMip, mipCount - 1, offset, extent, rowAlignment, offsetAlignment)
         + [StagedLayout(desc, firstMip + mipCount - 1, offset, extent, rowAlignment, offsetAlignment)]
  }

  /** The same layouts once for each layer. */
  function LayerLayouts(mips: seq<Layout>, layerCount: nat): seq<Layout> {
    if layerCount == 0 then [] else LayerLayouts(mips, layerCount - 1) + mips
  }

  /** A layout in the staging buffer: the region's, with the size rounded up to the offset alignment and no further. */
  ghost predicate StagedRegion(desc: TextureDesc, mip: nat, offset: Offset, extent: Extent, rowAlignment: nat,
                               offsetAlignment: nat, l: Layout)
    requires rowAlignment > 0 && offsetAlignment > 0
  {
    && RegionLayout(desc, mip, offset, extent, rowAlignment, l)
    && l.sizeInBytes % offsetAlignment == 0
    && l.slicePitch * l.size.depth <= l.sizeInBytes < l.slicePitch * l.size.depth + offsetAlignment
  }

  lemma {:induction false} MipLayoutAt(desc: TextureDesc, firstMip: nat, mipCount: nat, offset: Offset, extent: Extent,
                                       rowAlignment: nat, offsetAlignment: nat, m: nat)
    requires DescOk(desc) && rowAlignment > 0 && offsetAlignment > 0 && m < mipCount
    requires QueriesSucceed(desc, firstMip, mipCount, offset, extent, rowAlignment)
    ensures StagedRegion(desc, firstMip + m, offset, extent, rowAlignment, offsetAlignment,
                         MipLayouts(desc, firstMip, mipCount, offset, extent, rowAlignment, offsetAlignment)[m])
    decreases mipCount
  {
    hide CalcSubresourceRegionLayout;
    if m == mipCount - 1 {
      LayoutOfRegion(desc, firstMip + m, offset, extent, rowAlignment);
      var l := CalcSubresourceRegionLayout(desc, firstMip + m, offset, extent, rowAlignment).value;
      Restaged(desc, firstMip + m, offset, extent, rowAlignment, offsetAlignment, l);
    } else {
      MipLayoutAt(desc, firstMip, mipCount - 1, offset, extent, rowAlignment, offsetAlignment, m);
    }
  }

  lemma Restaged(desc: TextureDesc, mip: nat, offset: Offset, extent: Extent, rowAlignment: nat, offsetAlignment: nat,
                 l: Layout)
    requires rowAlignment > 0 && offsetAlignment > 0 && l.sizeInBytes == l.slicePitch * l.size.depth
    requires RegionLayout(desc, mip, offset, extent, rowAlignment, l)
    ensures StagedRegion(desc, mip, offset, extent, rowAlignment, offsetAlignment,
                         l.(sizeInBytes := Arithmetic.CalcAligned(l.sizeInBytes, offsetAlignment)))
  {
    hide Spans, CoveredBy, Arithmetic.CalcAligned;
  }

  lemma {:induction false} LayerLayoutAt(mips: seq<Layout>, layerCount: nat, layer: nat, m: nat)
    requires layer < layerCount && m < |mips|
    ensures layer * |mips| + m < |LayerLayouts(mips, layerCount)|
    ensures LayerLayouts(mips, layerCount)[layer * |mips| + m] == mips[m]
    decreases layerCount
  {
    LayerCount(mips, layerCount - 1);
    if layer < layerCount - 1 {
      LayerLayoutAt(mips, layerCount - 1, layer, m);
    } else {
      assert layer * |mips| == Product(layerCount - 1, |mips|);
    }
  }

  /** The layouts layer by layer and mip by mip, and the size of all subresources together. */
  method GatherLayouts(desc: TextureDesc, firstMip: nat, layerCount: nat, mipCount: nat, offset: Offset, extent: Extent,
                       rowAlignment: nat, offsetAlignment: nat)
    returns (layouts: seq<Layout>, totalSize: nat)
    requires DescOk(desc) && rowAlignment > 0 && offsetAlignment > 0
    requires QueriesSucceed(desc, firstMip, mipCount, offset, extent, rowAlignment)
    ensures layouts == LayerLayouts(MipLayouts(desc, firstMip, mipCount, offset, extent, rowAlignment, offsetAlignment),
                                    layerCount)
    ensures totalSize == Base(layouts, |layouts|) && SizesAligned(layouts, offsetAlignment)
  {
    hide CalcSubresourceRegionLayout;
    ghost var mips := MipLayouts(desc, firstMip, mipCount, offset, extent, rowAlignment, offsetAlignment);
    layouts, totalSize := [], 0;
    for layer := 0 to layerCount
      invariant layouts == LayerLayouts(mips, layer)
      invariant totalSize == Base(layouts, |layouts|) && SizesAligned(layouts, offsetAlignment)
    {
      for m := 0 to mipCount
        invariant layouts == LayerLayouts(mips, layer)
                             + MipLayouts(desc, firstMip, m, offset, extent, rowAlignment, offsetAlignment)
        invariant totalSize == Base(layouts, |layouts|) && SizesAligned(layouts, offsetAlignment)
      {
        LayoutIsOk(desc, firstMip + m, offset, extent, rowAlignment);
        var layout := CalcSubresourceRegionLayout(desc, firstMip + m, offset, extent, rowAlignment).value;
        layout := layout.(sizeInBytes := Arithmetic.CalcAligned(layout.sizeInBytes, offsetAlignment));
        totalSize := totalSize + layout.sizeInBytes;
        BaseOfPrefix(layouts, layout, |layouts|);
        layouts := layouts + [layout];
      }
    }
  }

  // ---------- Copying ----------

  /** What the caller supplies for one subresource. */
  datatype Source = Source(data: seq<Byte>, rowPitch: nat, slicePitch: nat)

  function RowCopyPitch(src: Source, l: Layout): nat {
    Arithmetic.Min(src.rowPitch, l.rowPitch)
  }

  function SourceAddress(src: Source, slice: nat, row: nat): nat {
    Product(slice, src.slicePitch) + Product(row, src.rowPitch)
  }

  function DestAddress(base: nat, l: Layout, slice: nat, row: nat): nat {
    base + Product(slice, l.slicePitch) + Product(row, l.rowPitch)
  }

  /** The source holds every byte that is read. */
  predicate Readable(src: Source, l: Layout) {
    forall slice, row :: 0 <= slice < l.size.depth && 0 <= row < l.rowCount ==>
      SourceAddress(src, slice, row) + RowCopyPitch(src, l) <= |src.data|
  }

  function Bytes(data: seq<Byte>, at: nat, n: nat): seq<Byte> {
    if at + n <= |data| then data[at..at + n] else []
  }

  /** The staging buffer holds the leading bytes of this source row. */
  predicate RowHeld(dst: seq<Byte>, base: nat, l: Layout, src: Source, slice: nat, row: nat) {
    DestAddress(base, l, slice, row) + RowCopyPitch(src, l) <= |dst|
    && Bytes(dst, DestAddress(base, l, slice, row), RowCopyPitch(src, l))
       == Bytes(src.data, SourceAddress(src, slice, row), RowCopyPitch(src, l))
  }

  /** Rows end where the next row or the next slice starts, and the last one before the region's end. */
  lemma RowEnds(base: nat, l: Layout, slice: nat, row: nat, slice': nat, row': nat)
    requires LayoutOk(l) && slice < l.size.depth && row < l.rowCount
    ensures DestAddress(base, l, slice, row) + l.rowPitch <= base + l.sizeInBytes
    ensures slice' < slice || (slice' == slice && row' < row) ==>
      (row' < l.rowCount ==> DestAddress(base, l, slice', row') + l.rowPitch <= DestAddress(base, l, slice, row))
  {
    RowInSlice(l, row);
    RowInSlice(l, row');
    SliceInRegion(l, slice);
    Consecutive(l.slicePitch, slice, l.size.depth);
    if slice' < slice {
      Consecutive(l.slicePitch, slice', slice);
      assert Product(row, l.rowPitch) >= 0;
    } else if slice' == slice && row' < row {
      Consecutive(l.rowPitch, row', row);
    }
  }

  lemma Consecutive(pitch: nat, a: nat, b: nat)
    requires a < b
    ensures Product(a, pitch) + pitch <= Product(b, pitch)
  {
    Arithmetic.MulMono(pitch, a + 1, b);
    assert pitch * (a + 1) == a * pitch + pitch && pitch * b == b * pitch;
  }

  lemma RowInSlice(l: Layout, row: nat)
    requires LayoutOk(l)
    ensures row < l.rowCount ==> Product(row, l.rowPitch) + l.rowPitch <= l.slicePitch
  {
    if row < l.rowCount {
      Consecutive(l.rowPitch, row, l.rowCount);
      assert Product(l.rowCount, l.rowPitch) == Product(l.rowPitch, l.rowCount);
    }
  }

  lemma SliceInRegion(l: Layout, slice: nat)
    requires LayoutOk(l) && slice < l.size.depth
    ensures Product(slice, l.slicePitch) + l.slicePitch <= l.sizeInBytes
  {
    Consecutive(l.slicePitch, slice, l.size.depth);
    assert Product(l.size.depth, l.slicePitch) == Product(l.slicePitch, l.size.depth);
  }

  /** memcpy of one row. */
  method CopyRow(dst: array<Byte>, at: nat, src: seq<Byte>, from: nat, n: nat)
    requires at + n <= dst.Length && from + n <= |src|
    modifies dst
    ensures Bytes(dst[..], at, n) == Bytes(src, from, n)
    ensures forall k :: 0 <= k < dst.Length && (k < at || at + n <= k) ==> dst[k] == old(dst[k])
  {
    for i := 0 to n
      invariant forall k :: at <= k < at + i ==> dst[k] == src[from + (k - at)]
      invariant forall k :: 0 <= k < dst.Length && (k < at || at + i <= k) ==> dst[k] == old(dst[k])
    {
      dst[at + i] := src[from + i];
    }
  }

  /** Nothing outside the range has changed. */
  predicate OnlyWithin(before: seq<Byte>, after: seq<Byte>, from: nat, to: nat) {
    |after| == |before| && forall k :: 0 <= k < |before| && (k < from || to <= k) ==> after[k] == before[k]
  }

  /** A row that is held, byte by byte. */
  lemma HeldByte(dst: seq<Byte>, base: nat, l: Layout, src: Source, slice: nat, row: nat, k: nat)
    requires RowHeld(dst, base, l, src, slice, row) && k < src.rowPitch && k < l.rowPitch
    requires SourceAddress(src, slice, row) + RowCopyPitch(src, l) <= |src.data|
    ensures var at, from := base + slice * l.slicePitch + row * l.rowPitch, slice * src.slicePitch + row * src.rowPitch;
      0 <= at + k < |dst| && 0 <= from + k < |src.data| && dst[at + k] == src.data[from + k]
  {
    var at, from, n := DestAddress(base, l, slice, row), SourceAddress(src, slice, row), RowCopyPitch(src, l);
    assert dst[at..at + n][k] == src.data[from..from + n][k];
  }

  /** A row outside a range in which alone the buffer has changed is still held. */
  lemma StillHeld(before: seq<Byte>, after: seq<Byte>, from: nat, to: nat, base: nat, l: Layout, src: Source,
                  slice: nat, row: nat)
    requires RowHeld(before, base, l, src, slice, row) && |after| == |before|
    requires forall k :: 0 <= k < |before| && (k < from || to <= k) ==> after[k] == before[k]
    requires var at := DestAddress(base, l, slice, row); at + RowCopyPitch(src, l) <= from || to <= at
    ensures RowHeld(after, base, l, src, slice, row)
  {
    hide DestAddress, RowCopyPitch, SourceAddress;
    var at, n := DestAddress(base, l, slice, row), RowCopyPitch(src, l);
    assert before[at..at + n] == after[at..at + n];
  }

  predicate SlicesHeld(dst: seq<Byte>, base: nat, l: Layout, src: Source, slices: nat) {
    forall slice, row :: 0 <= slice < slices && 0 <= row < l.rowCount ==> RowHeld(dst, base, l, src, slice, row)
  }

  predicate RowsHeld(dst: seq<Byte>, base: nat, l: Layout, src: Source, slice: nat, rows: nat) {
    forall row :: 0 <= row < rows ==> RowHeld(dst, base, l, src, slice, row)
  }

  /** One more row overwrites nothing that has been copied. */
  lemma RowKeeps(before: seq<Byte>, after: seq<Byte>, base: nat, l: Layout, src: Source, slice: nat, row: nat)
    requires LayoutOk(l) && slice < l.size.depth && row < l.rowCount && |after| == |before|
    requires SlicesHeld(before, base, l, src, slice) && RowsHeld(before, base, l, src, slice, row)
    requires var at := DestAddress(base, l, slice, row);
      forall k :: 0 <= k < |before| && (k < at || at + RowCopyPitch(src, l) <= k) ==> after[k] == before[k]
    requires RowHeld(after, base, l, src, slice, row)
    ensures SlicesHeld(after, base, l, src, slice) && RowsHeld(after, base, l, src, slice, row + 1)
  {
    hide DestAddress, SourceAddress, LayoutOk, RowHeld;
    var at, n := DestAddress(base, l, slice, row), RowCopyPitch(src, l);
    forall s, r | 0 <= s < slice && 0 <= r < l.rowCount ensures RowHeld(after, base, l, src, s, r) {
      assert RowHeld(before, base, l, src, s, r);
      RowEnds(base, l, slice, row, s, r);
      StillHeld(before, after, at, at + n, base, l, src, s, r);
    }
    forall r | 0 <= r < row ensures RowHeld(after, base, l, src, slice, r) {
      assert RowHeld(before, base, l, src, slice, r);
      RowEnds(base, l, slice, row, slice, r);
      StillHeld(before, after, at, at + n, base, l, src, slice, r);
    }
  }

  /** The two inner loops for one subresource. */
  method CopySubresource(dst: array<Byte>, base: nat, l: Layout, src: Source)
    requires LayoutOk(l) && Readable(src, l) && base + l.sizeInBytes <= dst.Length
    modifies dst
    ensures SlicesHeld(dst[..], base, l, src, l.size.depth)
    ensures OnlyWithin(old(dst[..]), dst[..], base, base + l.sizeInBytes)
  {
    hide RowHeld, LayoutOk;
    var rowCopyPitch := Arithmetic.Min(src.rowPitch, l.rowPitch);
    var sliceSrc, sliceDest := 0, base;
    for slice := 0 to l.size.depth
      invariant sliceSrc == Product(slice, src.slicePitch) && sliceDest == base + Product(slice, l.slicePitch)
      invariant SlicesHeld(dst[..], base, l, src, slice)
      invariant OnlyWithin(old(dst[..]), dst[..], base, base + l.sizeInBytes)
    {
      var rowSrc, rowDest := sliceSrc, sliceDest;
      for row := 0 to l.rowCount
        invariant rowSrc == SourceAddress(src, slice, row) && rowDest == DestAddress(base, l, slice, row)
        invariant SlicesHeld(dst[..], base, l, src, slice) && RowsHeld(dst[..], base, l, src, slice, row)
        invariant OnlyWithin(old(dst[..]), dst[..], base, base + l.sizeInBytes)
      {
        ghost var before := dst[..];
        RowEnds(base, l, slice, row, slice, row);
        CopyRow(dst, rowDest, src.data, rowSrc, rowCopyPitch);
        CopiedIsHeld(dst[..], base, l, src, slice, row);
        RowKeeps(before, dst[..], base, l, src, slice, row);
        rowSrc := rowSrc + src.rowPitch;
        rowDest := rowDest + l.rowPitch;
        NextProduct(row, src.rowPitch);
        NextProduct(row, l.rowPitch);
      }
      sliceSrc := sliceSrc + src.slicePitch;
      sliceDest := sliceDest + l.slicePitch;
      NextProduct(slice, src.slicePitch);
      NextProduct(slice, l.slicePitch);
      SliceDone(dst[..], base, l, src, slice);
    }
  }

  lemma NextProduct(a: nat, b: nat)
    ensures Product(a + 1, b) == Product(a, b) + b && Product(0, b) == 0
  {
  }

  lemma CopiedIsHeld(dst: seq<Byte>, base: nat, l: Layout, src: Source, slice: nat, row: nat)
    requires DestAddress(base, l, slice, row) + RowCopyPitch(src, l) <= |dst|
    requires Bytes(dst, DestAddress(base, l, slice, row), RowCopyPitch(src, l))
          == Bytes(src.data, SourceAddress(src, slice, row), RowCopyPitch(src, l))
    ensures RowHeld(dst, base, l, src, slice, row)
  {
  }

  lemma SliceDone(dst: seq<Byte>, base: nat, l: Layout, src: Source, slice: nat)
    requires SlicesHeld(dst, base, l, src, slice) && RowsHeld(dst, base, l, src, slice, l.rowCount)
    ensures SlicesHeld(dst, base, l, src, slice + 1)
  {
    hide RowHeld;
    forall s, r | 0 <= s < slice + 1 && 0 <= r < l.rowCount ensures RowHeld(dst, base, l, src, s, r) {
      if s == slice {
        assert RowHeld(dst, base, l, src, slice, r);
      }
    }
  }

  /** A subresource stays as it is when later ones are copied behind it. */
  lemma SubresourceStays(before: seq<Byte>, after: seq<Byte>, from: nat, to: nat, base: nat, l: Layout, src: Source)
    requires LayoutOk(l) && SlicesHeld(before, base, l, src, l.size.depth)
    requires OnlyWithin(before, after, from, to) && base + l.sizeInBytes <= from
    ensures SlicesHeld(after, base, l, src, l.size.depth)
  {
    hide RowHeld, DestAddress, LayoutOk;
    forall slice, row | 0 <= slice < l.size.depth && 0 <= row < l.rowCount
      ensures RowHeld(after, base, l, src, slice, row)
    {
      assert RowHeld(before, base, l, src, slice, row);
      RowEnds(base, l, slice, row, slice, row);
      StillHeld(before, after, from, to, base, l, src, slice, row);
    }
  }

  /** The first n subresources are staged. */
  predicate Staged(dst: seq<Byte>, layouts: seq<Layout>, sources: seq<Source>, n: nat)
    requires |sources| == |layouts|
  {
    n <= |layouts|
    && forall s :: 0 <= s < n ==> SlicesHeld(dst, Base(layouts, s), layouts[s], sources[s], layouts[s].size.depth)
  }

  /** The copy loops over layers and mip levels. */
  method CopySubresources(dst: array<Byte>, layouts: seq<Layout>, sources: seq<Source>, layerCount: nat, mipCount: nat)
    requires |layouts| == |sources| == Product(layerCount, mipCount) && dst.Length == Base(layouts, |layouts|)
    requires forall s :: 0 <= s < |layouts| ==> LayoutOk(layouts[s]) && Readable(sources[s], layouts[s])
    modifies dst
    ensures Staged(dst[..], layouts, sources, |layouts|)
  {
    hide LayoutOk, Readable, SlicesHeld, OnlyWithin, Base;
    var s, srDest := 0, 0;
    NoSubresource(dst[..], layouts, sources);
    for layer := 0 to layerCount
      invariant s == layer * mipCount && s <= |layouts| && srDest == Base(layouts, s)
      invariant Staged(dst[..], layouts, sources, s)
    {
      Arithmetic.MulMono(mipCount, layer + 1, layerCount);
      assert mipCount * (layer + 1) == layer * mipCount + mipCount;
      assert mipCount * layerCount == Product(layerCount, mipCount);
      for m := 0 to mipCount
        invariant s == layer * mipCount + m && s <= |layouts| && srDest == Base(layouts, s)
        invariant Staged(dst[..], layouts, sources, s)
      {
        ghost var before := dst[..];
        NextBase(layouts, s);
        CopySubresource(dst, srDest, layouts[s], sources[s]);
        NextStaged(before, dst[..], layouts, sources, s);
        srDest := srDest + layouts[s].sizeInBytes;
        s := s + 1;
      }
      assert (layer + 1) * mipCount == layer * mipCount + mipCount;
    }
  }

  lemma NoSubresource(dst: seq<Byte>, layouts: seq<Layout>, sources: seq<Source>)
    requires |sources| == |layouts|
    ensures Base(layouts, 0) == 0 && Staged(dst, layouts, sources, 0)
  {
  }

  lemma NextBase(layouts: seq<Layout>, s: nat)
    requires s < |layouts|
    ensures Base(layouts, s + 1) == Base(layouts, s) + layouts[s].sizeInBytes
    ensures Base(layouts, s + 1) <= Base(layouts, |layouts|)
  {
    BaseGrows(layouts, s + 1, |layouts|);
  }

  lemma NextStaged(before: seq<Byte>, after: seq<Byte>, layouts: seq<Layout>, sources: seq<Source>, s: nat)
    requires |sources| == |layouts| && s < |layouts| && forall t :: 0 <= t < |layouts| ==> LayoutOk(layouts[t])
    requires Staged(before, layouts, sources, s)
    requires OnlyWithin(before, after, Base(layouts, s), Base(layouts, s) + layouts[s].sizeInBytes)
    requires SlicesHeld(after, Base(layouts, s), layouts[s], sources[s], layouts[s].size.depth)
    ensures Staged(after, layouts, sources, s + 1)
  {
    hide LayoutOk, SlicesHeld, OnlyWithin, Base;
    forall t | 0 <= t < s ensures SlicesHeld(after, Base(layouts, t), layouts[t], sources[t], layouts[t].size.depth) {
      NextBase(layouts, t);
      BaseGrows(layouts, t + 1, s);
      SubresourceStays(before, after, Base(layouts, s), Base(layouts, s) + layouts[s].sizeInBytes,
                       Base(layouts, t), layouts[t], sources[t]);
    }
  }

  /** The layout of a layer's mip is behind those of all layers before it and of the layer's mips before it. */
  ghost predicate SubresourceAt(desc: TextureDesc, firstMip: nat, mipCount: nat, offset: Offset, extent: Extent,
                                rowAlignment: nat, offsetAlignment: nat, layouts: seq<Layout>, layer: nat, m: nat)
    requires rowAlignment > 0 && offsetAlignment > 0
  {
    var s := layer * mipCount + m;
    s < |layouts| && StagedRegion(desc, firstMip + m, offset, extent, rowAlignment, offsetAlignment, layouts[s])
  }

  /**
   uploadTextureData, given a staging allocation of the total size at an aligned offset: in the end every row of every
   subresource is in the buffer, whatever the source's pitches, and every subresource starts aligned in the buffer.
   */
  method UploadTextureData(desc: TextureDesc, firstMip: nat, layerCount: nat, mipCount: nat, offset: Offset,
                           extent: Extent, rowAlignment: nat, offsetAlignment: nat, sources: seq<Source>,
                           handleOffset: nat)
    returns (layouts: seq<Layout>, staging: array<Byte>)
    requires DescOk(desc) && rowAlignment > 0 && offsetAlignment > 0 && handleOffset % offsetAlignment == 0
    requires QueriesSucceed(desc, firstMip, mipCount, offset, extent, rowAlignment)
    requires var mips := MipLayouts(desc, firstMip, mipCount, offset, extent, rowAlignment, offsetAlignment);
      var needed := LayerLayouts(mips, layerCount);
      |sources| == |needed| && forall s :: 0 <= s < |needed| ==> Readable(sources[s], needed[s])
    ensures layouts == LayerLayouts(MipLayouts(desc, firstMip, mipCount, offset, extent, rowAlignment, offsetAlignment),
                                    layerCount)
    ensures forall layer: nat, m: nat :: layer < layerCount && m < mipCount ==>
      SubresourceAt(desc, firstMip, mipCount, offset, extent, rowAlignment, offsetAlignment, layouts, layer, m)
    ensures |layouts| == |sources| && fresh(staging) && staging.Length == Base(layouts, |layouts|)
    ensures Staged(staging[..], layouts, sources, |layouts|)
    ensures forall s :: 0 <= s < |layouts| ==> (handleOffset + Base(layouts, s)) % offsetAlignment == 0
  {
    hide Readable, Staged, MipLayouts, LayerLayouts;
    var totalSize;
    layouts, totalSize :=
      GatherLayouts(desc, firstMip, layerCount, mipCount, offset, extent, rowAlignment, offsetAlignment);
    staging := new Byte[totalSize];
    LayerCount(MipLayouts(desc, firstMip, mipCount, offset, extent, rowAlignment, offsetAlignment), layerCount);
    CopySubresources(staging, layouts, sources, layerCount, mipCount);
    forall layer: nat, m: nat | layer < layerCount && m < mipCount
      ensures SubresourceAt(desc, firstMip, mipCount, offset, extent, rowAlignment, offsetAlignment, layouts, layer, m)
    {
      MipLayoutAt(desc, firstMip, mipCount, offset, extent, rowAlignment, offsetAlignment, m);
      LayerLayoutAt(MipLayouts(desc, firstMip, mipCount, offset, extent, rowAlignment, offsetAlignment), layerCount,
                    layer, m);
    }
    forall s | 0 <= s < |layouts| ensures (handleOffset + Base(layouts, s)) % offsetAlignment == 0 {
      BaseAligned(layouts, s, offsetAlignment);
      Arithmetic.SumOfMultiples(handleOffset, Base(layouts, s), offsetAlignment);
    }
  }

  lemma {:induction false} LayerCount(mips: seq<Layout>, layerCount: nat)
    ensures |LayerLayouts(mips, layerCount)| == Product(layerCount, |mips|)
  {
    if layerCount > 0 {
      LayerCount(mips, layerCount - 1);
      NextProduct(layerCount - 1, |mips|);
    }
  }
}
