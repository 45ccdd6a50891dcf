/**
 The Radiance scanline writer of stb_image_write.h, from the RGBE bytes on, against a decoder of its run-length code.
 */
module StbHdr {
  import opened BitStrings
  import Sequences
  import opened Wrappers

  // ---------- The format ----------

  datatype Rgbe = Rgbe(r: Byte, g: Byte, b: Byte, e: Byte)

  datatype PlaneStep = PlaneStep(bytes: seq<Byte>, rest: seq<Byte>)

  /**
   n more bytes of a plane: a count above 128 announces a run, any other that many bytes; no count is zero or too
   large.
   */
  function TakePlane(bytes: seq<Byte>, n: nat, done: seq<Byte>): Option<PlaneStep>
    decreases n
  {
    if n == 0 then Some(PlaneStep(done, bytes))
    else if |bytes| < 2 then None
    else
      var count := bytes[0];
      if count > 128 then
        if count - 128 > n then None
        else TakePlane(bytes[2..], n - (count - 128), done + Sequences.Repeat(bytes[1], count - 128))
      else if count == 0 || count > n || |bytes| < 1 + count then None
      else TakePlane(bytes[1 + count..], n - count, done + bytes[1..1 + count])
  }

  datatype ScanlineStep = ScanlineStep(pixels: seq<Rgbe>, rest: seq<Byte>)

  /** Pixels stored one after the other. */
  function TakeFlat(bytes: seq<Byte>, n: nat): Option<ScanlineStep>
    decreases n
  {
    if n == 0 then Some(ScanlineStep([], bytes))
    else if |bytes| < 4 then None
    else
      var more :- TakeFlat(bytes[4..], n - 1);
      Some(ScanlineStep([Rgbe(bytes[0], bytes[1], bytes[2], bytes[3])] + more.pixels, more.rest))
  }

  /** Scanlines of 8 to 32767 pixels repeat their width behind a mark and code the four planes one after the other. */
  function TakeScanline(bytes: seq<Byte>, width: nat): Option<ScanlineStep> {
    if width < 8 || width >= 32768 then TakeFlat(bytes, width)
    else if |bytes| < 4 || bytes[0] != 2 || bytes[1] != 2 || bytes[2] as int * 256 + bytes[3] as int != width then None
    else
      var r :- TakePlane(bytes[4..], width, []);
      var g :- TakePlane(r.rest, width, []);
      var b :- TakePlane(g.rest, width, []);
      var e :- TakePlane(b.rest, width, []);
      Some(ScanlineStep(Joined(r.bytes, g.bytes, b.bytes, e.bytes, width), e.rest))
  }

  function ByteAt(plane: seq<Byte>, i: nat): Byte {
    if i < |plane| then plane[i] else 0
  }

  function Joined(r: seq<Byte>, g: seq<Byte>, b: seq<Byte>, e: seq<Byte>, n: nat): (pixels: seq<Rgbe>)
    ensures |pixels| == n
  {
    if n == 0 then []
    else Joined(r, g, b, e, n - 1) + [Rgbe(ByteAt(r, n - 1), ByteAt(g, n - 1), ByteAt(b, n - 1), ByteAt(e, n - 1))]
  }

  // ---------- One plane ----------

  ghost predicate PlaneReaches(bytes: seq<Byte>, width: nat, done: seq<Byte>) {
    |done| <= width
    && forall rest: seq<Byte> :: TakePlane(bytes + rest, width, []) == TakePlane(rest, width - |done|, done)
  }

  lemma PlaneStart(width: nat)
    ensures PlaneReaches([], width, [])
  {
    hide TakePlane;
    forall rest: seq<Byte> ensures [] + rest == rest {
    }
  }

  lemma Dump(bytes: seq<Byte>, width: nat, done: seq<Byte>, data: seq<Byte>)
    requires PlaneReaches(bytes, width, done) && 1 <= |data| <= 128 && |done| + |data| <= width
    ensures PlaneReaches(bytes + ([|data|] + data), width, done + data)
  {
    var packet := [|data|] + data;
    forall rest: seq<Byte>
      ensures TakePlane(bytes + packet + rest, width, []) == TakePlane(rest, width - |done| - |data|, done + data)
    {
      var next := packet + rest;
      assert bytes + packet + rest == bytes + next;
      assert next[0] == |data| && next[1..1 + |data|] == data && next[1 + |data|..] == rest;
    }
  }

  lemma TakeRunOf(bytes: seq<Byte>, n: nat, done: seq<Byte>, count: nat)
    requires |bytes| >= 2 && bytes[0] == count + 128 && 1 <= count <= n
    ensures TakePlane(bytes, n, done) == TakePlane(bytes[2..], n - count, done + Sequences.Repeat(bytes[1], count))
  {
    hide Sequences.Repeat;
  }

  lemma Run(bytes: seq<Byte>, width: nat, done: seq<Byte>, b: Byte, n: nat)
    requires PlaneReaches(bytes, width, done) && 1 <= n <= 127 && |done| + n <= width
    ensures PlaneReaches(bytes + [Uchar(n + 128), b], width, done + Sequences.Repeat(b, n))
  {
    hide Sequences.Repeat, TakePlane;
    var packet: seq<Byte> := [Uchar(n + 128), b];
    forall rest: seq<Byte>
      ensures TakePlane(bytes + packet + rest, width, [])
           == TakePlane(rest, width - |done| - n, done + Sequences.Repeat(b, n))
    {
      var next := packet + rest;
      assert bytes + packet + rest == bytes + next;
      assert next[0] == n + 128 && next[1] == b && next[2..] == rest;
      TakeRunOf(next, width - |done|, done, n);
    }
  }

  /** Three equal bytes. */
  predicate StartsRun(comp: seq<Byte>, r: nat) {
    r + 2 < |comp| && comp[r] == comp[r + 1] == comp[r + 2]
  }

  /** Where the next run begins. */
  function RunStart(comp: seq<Byte>, x: nat): (r: nat)
    requires x <= |comp|
    ensures x <= r <= |comp| && (r < |comp| ==> StartsRun(comp, r))
    decreases |comp| - x
  {
    if x == |comp| || StartsRun(comp, x) then x else RunStart(comp, x + 1)
  }

  lemma {:induction false} RunStartIs(comp: seq<Byte>, x: nat, r: nat)
    requires x <= r <= |comp| && (r < |comp| ==> StartsRun(comp, r))
    requires forall k :: x <= k < r ==> !StartsRun(comp, k)
    ensures RunStart(comp, x) == r
    decreases r - x
  {
    if x < r {
      RunStartIs(comp, x + 1, r);
    }
  }

  /** Where the bytes equal to b end. */
  function RunEnd(comp: seq<Byte>, r: nat, b: Byte): (end: nat)
    requires r <= |comp|
    ensures r <= end <= |comp| && (forall k :: r <= k < end ==> comp[k] == b) && (end < |comp| ==> comp[end] != b)
    decreases |comp| - r
  {
    if r == |comp| || comp[r] != b then r else RunEnd(comp, r + 1, b)
  }

  /** Bytes as they are, at most 128 behind each count. */
  function DumpBytes(data: seq<Byte>): seq<Byte> {
    if data == [] then []
    else
      var len := if |data| > 128 then 128 else |data|;
      [len] + data[..len] + DumpBytes(data[len..])
  }

  /** A run, at most 127 bytes for each count. */
  function RunBytes(b: Byte, n: nat): seq<Byte> {
    if n == 0 then []
    else
      var len: nat := if n > 127 then 127 else n;
      [128 + len, b] + RunBytes(b, n - len)
  }

  /** A plane from x on: what is before a run as dumps, every run of three or more as runs. */
  function PlaneBytes(comp: seq<Byte>, x: nat): seq<Byte>
    requires x <= |comp|
    decreases |comp| - x
  {
    if x == |comp| then []
    else
      var r := RunStart(comp, x);
      if r == |comp| then DumpBytes(comp[x..r])
      else
        var end := RunEnd(comp, r, comp[r]);
        DumpBytes(comp[x..r]) + RunBytes(comp[r], end - r) + PlaneBytes(comp, end)
  }

  /** Where the next run of three equal bytes begins; the width if there is none. */
  method FindRun(comp: seq<Byte>, x: nat) returns (r: nat)
    requires x < |comp|
    ensures x <= r <= |comp|
    ensures r + 2 < |comp| ==> comp[r] == comp[r + 1] == comp[r + 2]
    ensures r + 2 >= |comp| ==> r == |comp|
    ensures forall k :: x <= k < r && k + 2 < |comp| ==> !(comp[k] == comp[k + 1] == comp[k + 2])
    ensures r == RunStart(comp, x)
  {
    r := x;
    while r + 2 < |comp|
      invariant x <= r <= |comp|
      invariant forall k :: x <= k < r && k + 2 < |comp| ==> !(comp[k] == comp[k + 1] == comp[k + 2])
    {
      if comp[r] == comp[r + 1] && comp[r] == comp[r + 2] {
        break;
      }
      r := r + 1;
    }
    if r + 2 >= |comp| {
      r := |comp|;
    }
    RunStartIs(comp, x, r);
  }

  /** Dumps of at most 128 bytes up to r. */
  method WriteDumps(comp: seq<Byte>, x0: nat, r: nat, out: seq<Byte>) returns (out': seq<Byte>)
    requires x0 <= r <= |comp| && PlaneReaches(out, |comp|, comp[..x0])
    ensures PlaneReaches(out', |comp|, comp[..r]) && out' == out + DumpBytes(comp[x0..r])
  {
    hide PlaneReaches, DumpBytes;
    out' := out;
    var x := x0;
    NoDump(out');
    while x < r
      invariant x0 <= x <= r && PlaneReaches(out', |comp|, comp[..x])
      invariant out' + DumpBytes(comp[x..r]) == out + DumpBytes(comp[x0..r])
    {
      var len := r - x;
      if len > 128 {
        len := 128;
      }
      Dump(out', |comp|, comp[..x], comp[x..x + len]);
      assert comp[..x] + comp[x..x + len] == comp[..x + len];
      NextDump(out', comp[x..r]);
      assert comp[x..r][..len] == comp[x..x + len] && comp[x..r][len..] == comp[x + len..r];
      out' := out' + ([Uchar(len)] + comp[x..x + len]);
      x := x + len;
    }
    NoDump(out');
    assert comp[r..r] == [];
  }

  lemma NoDump(out: seq<Byte>)
    ensures out + DumpBytes([]) == out
  {
  }

  lemma NextDump(out: seq<Byte>, data: seq<Byte>)
    requires data != []
    ensures var len := if |data| > 128 then 128 else |data|;
      out + DumpBytes(data) == out + ([len] + data[..len]) + DumpBytes(data[len..])
  {
    var len := if |data| > 128 then 128 else |data|;
    ConcatAssociates(out, [len] + data[..len], DumpBytes(data[len..]));
  }

  lemma NextRun(out: seq<Byte>, b: Byte, n: nat)
    requires n > 0
    ensures var len: nat := if n > 127 then 127 else n;
      out + RunBytes(b, n) == out + [128 + len, b] + RunBytes(b, n - len)
  {
    var len: nat := if n > 127 then 127 else n;
    ConcatAssociates(out, [128 + len, b], RunBytes(b, n - len));
  }

  /** Runs of at most 127 bytes up to r. */
  method WriteRuns(comp: seq<Byte>, x0: nat, r: nat, out: seq<Byte>) returns (out': seq<Byte>)
    requires x0 <= r <= |comp| && PlaneReaches(out, |comp|, comp[..x0])
    requires forall k :: x0 <= k < r ==> comp[k] == comp[x0]
    ensures PlaneReaches(out', |comp|, comp[..r])
    ensures x0 < r ==> out' == out + RunBytes(comp[x0], r - x0)
  {
    hide PlaneReaches, Sequences.Repeat;
    out' := out;
    var x := x0;
    while x < r
      invariant x0 <= x <= r && PlaneReaches(out', |comp|, comp[..x])
      invariant x0 < r ==> out' + RunBytes(comp[x0], r - x) == out + RunBytes(comp[x0], r - x0)
    {
      var len := r - x;
      if len > 127 {
        len := 127;
      }
      Run(out', |comp|, comp[..x], comp[x], len);
      assert comp[..x] + Sequences.Repeat(comp[x], len) == comp[..x + len];
      NextRun(out', comp[x0], r - x);
      out' := out' + [Uchar(len + 128), comp[x]];
      x := x + len;
    }
  }

  /** A decoder takes the plane back; what is before a run is dumped, and every run goes out as runs. */
  method WritePlane(comp: seq<Byte>) returns (out: seq<Byte>)
    ensures PlaneReaches(out, |comp|, comp) && out == PlaneBytes(comp, 0)
  {
    hide PlaneReaches, DumpBytes, RunBytes, RunStart;
    out := [];
    var x := 0;
    PlaneStart(|comp|);
    assert comp[..0] == [];
    while x < |comp|
      invariant x <= |comp| && PlaneReaches(out, |comp|, comp[..x])
      invariant out + PlaneBytes(comp, x) == PlaneBytes(comp, 0)
    {
      ghost var before, from := out, x;
      var r := FindRun(comp, x);
      out := WriteDumps(comp, x, r, out);
      x := r;
      if r + 2 < |comp| {
        while r < |comp| && comp[r] == comp[x]
          invariant x <= r <= |comp| && (r > x || (r + 2 < |comp| && comp[r] == comp[x]))
          invariant forall k :: x <= k < r ==> comp[k] == comp[x]
          invariant RunEnd(comp, r, comp[x]) == RunEnd(comp, x, comp[x])
        {
          r := r + 1;
        }
        out := WriteRuns(comp, x, r, out);
        NextStretch(before, comp, from, x, r);
        x := r;
      } else {
        LastStretch(before, comp, from);
      }
    }
    assert comp[..|comp|] == comp;
  }

  lemma NextStretch(out: seq<Byte>, comp: seq<Byte>, x: nat, r: nat, end: nat)
    requires x <= r < |comp| && r == RunStart(comp, x) && end == RunEnd(comp, r, comp[r])
    ensures out + PlaneBytes(comp, x)
         == out + DumpBytes(comp[x..r]) + RunBytes(comp[r], end - r) + PlaneBytes(comp, end)
  {
    hide DumpBytes, RunBytes, RunStart, RunEnd;
    ConcatAssociates(DumpBytes(comp[x..r]), RunBytes(comp[r], end - r), PlaneBytes(comp, end));
    ConcatAssociates(out, DumpBytes(comp[x..r]), RunBytes(comp[r], end - r) + PlaneBytes(comp, end));
    ConcatAssociates(out + DumpBytes(comp[x..r]), RunBytes(comp[r], end - r), PlaneBytes(comp, end));
  }

  lemma LastStretch(out: seq<Byte>, comp: seq<Byte>, x: nat)
    requires x < |comp| && RunStart(comp, x) == |comp|
    ensures out + PlaneBytes(comp, x) == out + DumpBytes(comp[x..|comp|]) + PlaneBytes(comp, |comp|)
  {
    hide DumpBytes, RunStart;
    assert out + DumpBytes(comp[x..|comp|]) + [] == out + DumpBytes(comp[x..|comp|]);
  }

  // ---------- Scanlines ----------

  /** One byte of every pixel. */
  function Plane(pixels: seq<Rgbe>, c: nat): (plane: seq<Byte>)
    ensures |plane| == |pixels|
    ensures forall i :: 0 <= i < |pixels| ==> plane[i] == Component(pixels[i], c)
  {
    if pixels == [] then [] else Plane(pixels[..|pixels| - 1], c) + [Component(pixels[|pixels| - 1], c)]
  }

  function Component(p: Rgbe, c: nat): Byte {
    if c == 0 then p.r else if c == 1 then p.g else if c == 2 then p.b else p.e
  }

  lemma {:induction false} JoinedBack(pixels: seq<Rgbe>, n: nat)
    requires n <= |pixels|
    ensures Joined(Plane(pixels, 0), Plane(pixels, 1), Plane(pixels, 2), Plane(pixels, 3), n) == pixels[..n]
  {
    hide Plane;
    if n > 0 {
      JoinedBack(pixels, n - 1);
      assert pixels[..n] == pixels[..n - 1] + [pixels[n - 1]];
    }
  }

  function FlatBytes(pixels: seq<Rgbe>): seq<Byte> {
    if pixels == [] then []
    else
      var p := pixels[|pixels| - 1];
      FlatBytes(pixels[..|pixels| - 1]) + [p.r, p.g, p.b, p.e]
  }

  lemma {:induction false} TakeFlatBack(pixels: seq<Rgbe>, n: nat, rest: seq<Byte>)
    requires n <= |pixels|
    ensures TakeFlat(FlatBytes(pixels[..n]) + rest, |pixels|)
         == match TakeFlat(rest, |pixels| - n)
            case None => None
            case Some(more) => Some(ScanlineStep(pixels[..n] + more.pixels, more.rest))
  {
    if n == 0 {
      assert FlatBytes(pixels[..0]) + rest == rest;
      match TakeFlat(rest, |pixels|) {
        case None =>
        case Some(more) => assert pixels[..0] + more.pixels == more.pixels;
      }
    } else {
      var p := pixels[n - 1];
      var quad := [p.r, p.g, p.b, p.e];
      assert pixels[..n][..n - 1] == pixels[..n - 1];
      assert FlatBytes(pixels[..n]) + rest == FlatBytes(pixels[..n - 1]) + (quad + rest);
      TakeFlatBack(pixels, n - 1, quad + rest);
      assert (quad + rest)[4..] == rest;
      match TakeFlat(rest, |pixels| - n) {
        case None =>
        case Some(more) => assert pixels[..n - 1] + ([p] + more.pixels) == pixels[..n] + more.pixels;
      }
    }
  }

  /** The four planes behind the mark, each followed by the next, make up the scanline. */
  lemma TakePlanes(pixels: seq<Rgbe>, r: seq<Byte>, g: seq<Byte>, b: seq<Byte>, e: seq<Byte>, rest: seq<Byte>)
    requires 8 <= |pixels| < 32768
    requires PlaneReaches(r, |pixels|, Plane(pixels, 0)) && PlaneReaches(g, |pixels|, Plane(pixels, 1))
    requires PlaneReaches(b, |pixels|, Plane(pixels, 2)) && PlaneReaches(e, |pixels|, Plane(pixels, 3))
    ensures TakeScanline([2, 2, Uchar(|pixels| / 256), Uchar(|pixels|)] + r + g + b + e + rest, |pixels|)
         == Some(ScanlineStep(pixels, rest))
  {
    hide Plane, Joined, TakePlane, PlaneReaches;
    var n := |pixels|;
    var mark := [2, 2, Uchar(n / 256), Uchar(n)];
    var bytes := mark + r + g + b + e + rest;
    var tail := r + (g + (b + (e + rest)));
    Reassociate(mark, r, g, b, e, rest);
    assert bytes == mark + tail && bytes[4..] == tail;
    assert bytes[0] == 2 && bytes[1] == 2 && bytes[2] == mark[2] && bytes[3] == mark[3];
    WidthBack(n);
    PlaneBack(r, n, Plane(pixels, 0), g + (b + (e + rest)));
    PlaneBack(g, n, Plane(pixels, 1), b + (e + rest));
    PlaneBack(b, n, Plane(pixels, 2), e + rest);
    PlaneBack(e, n, Plane(pixels, 3), rest);
    JoinedBack(pixels, n);
    assert pixels[..n] == pixels;
  }

  lemma WidthBack(n: nat)
    requires n < 32768
    ensures Uchar(n / 256) as int * 256 + Uchar(n) as int == n
  {
  }

  lemma Reassociate(m: seq<Byte>, r: seq<Byte>, g: seq<Byte>, b: seq<Byte>, e: seq<Byte>, rest: seq<Byte>)
    ensures m + r + g + b + e + rest == m + (r + (g + (b + (e + rest))))
  {
    ConcatAssociates(m + r + g + b, e, rest);
    ConcatAssociates(m + r + g, b, e + rest);
    ConcatAssociates(m + r, g, b + (e + rest));
    ConcatAssociates(m, r, g + (b + (e + rest)));
  }

  lemma PlaneBack(bytes: seq<Byte>, width: nat, plane: seq<Byte>, rest: seq<Byte>)
    requires PlaneReaches(bytes, width, plane) && |plane| == width
    ensures TakePlane(bytes + rest, width, []) == Some(PlaneStep(plane, rest))
  {
    assert TakePlane(rest, 0, plane) == Some(PlaneStep(plane, rest));
  }

  predicate PlaneAt(scratch: seq<Byte>, from: nat, plane: seq<Byte>) {
    from + |plane| <= |scratch| && scratch[from..from + |plane|] == plane
  }

  /** The first x bytes of a plane are in their place. */
  predicate Filled(scratch: seq<Byte>, from: nat, pixels: seq<Rgbe>, c: nat, x: nat) {
    && x <= |pixels| && from + |pixels| <= |scratch|
    && forall i :: 0 <= i < x ==> scratch[from + i] == Component(pixels[i], c)
  }

  lemma FilledMore(before: seq<Byte>, after: seq<Byte>, from: nat, pixels: seq<Rgbe>, c: nat, x: nat)
    requires Filled(before, from, pixels, c, x) && x < |pixels| && |after| == |before|
    requires forall k :: from <= k < from + x ==> after[k] == before[k]
    requires after[from + x] == Component(pixels[x], c)
    ensures Filled(after, from, pixels, c, x + 1)
  {
    forall i | 0 <= i < x + 1 ensures after[from + i] == Component(pixels[i], c) {
      var k := from + i;
      assert k < from + x ==> after[k] == before[k];
    }
  }

  lemma FilledPlane(scratch: seq<Byte>, from: nat, pixels: seq<Rgbe>, c: nat)
    requires Filled(scratch, from, pixels, c, |pixels|)
    ensures PlaneAt(scratch, from, Plane(pixels, c))
  {
  }

  /** The planes side by side in the scratch buffer. */
  method SplitPlanes(pixels: seq<Rgbe>, scratch: array<Byte>)
    requires scratch.Length >= 4 * |pixels|
    modifies scratch
    ensures PlaneAt(scratch[..], 0, Plane(pixels, 0)) && PlaneAt(scratch[..], |pixels|, Plane(pixels, 1))
    ensures PlaneAt(scratch[..], 2 * |pixels|, Plane(pixels, 2)) && PlaneAt(scratch[..], 3 * |pixels|, Plane(pixels, 3))
  {
    hide Filled;
    var width := |pixels|;
    FilledStart(scratch[..], pixels);
    for x := 0 to width
      invariant Filled(scratch[..], 0, pixels, 0, x) && Filled(scratch[..], width, pixels, 1, x)
      invariant Filled(scratch[..], 2 * width, pixels, 2, x) && Filled(scratch[..], 3 * width, pixels, 3, x)
    {
      ghost var before := scratch[..];
      PutPixel(scratch, x, width, pixels[x]);
      FilledMore(before, scratch[..], 0, pixels, 0, x);
      FilledMore(before, scratch[..], width, pixels, 1, x);
      FilledMore(before, scratch[..], 2 * width, pixels, 2, x);
      FilledMore(before, scratch[..], 3 * width, pixels, 3, x);
    }
    FilledPlane(scratch[..], 0, pixels, 0);
    FilledPlane(scratch[..], width, pixels, 1);
    FilledPlane(scratch[..], 2 * width, pixels, 2);
    FilledPlane(scratch[..], 3 * width, pixels, 3);
  }

  lemma FilledStart(scratch: seq<Byte>, pixels: seq<Rgbe>)
    requires |scratch| >= 4 * |pixels|
    ensures Filled(scratch, 0, pixels, 0, 0) && Filled(scratch, |pixels|, pixels, 1, 0)
    ensures Filled(scratch, 2 * |pixels|, pixels, 2, 0) && Filled(scratch, 3 * |pixels|, pixels, 3, 0)
  {
  }

  method PutPixel(scratch: array<Byte>, x: nat, width: nat, p: Rgbe)
    requires x < width && 4 * width <= scratch.Length
    modifies scratch
    ensures scratch[x] == p.r && scratch[width + x] == p.g
    ensures scratch[2 * width + x] == p.b && scratch[3 * width + x] == p.e
    ensures forall k ::
      0 <= k < scratch.Length && k != x && k != width + x && k != 2 * width + x && k != 3 * width + x ==>
        scratch[k] == old(scratch[k])
  {
    scratch[x + width * 0] := p.r;
    scratch[x + width * 1] := p.g;
    scratch[x + width * 2] := p.b;
    scratch[x + width * 3] := p.e;
  }

  /** The bytes of a scanline: its pixels or, for widths that can be coded, the mark and the four planes. */
  function ScanlineBytes(pixels: seq<Rgbe>): seq<Byte> {
    var n := |pixels|;
    if n < 8 || n >= 32768 then FlatBytes(pixels)
    else
      [2, 2, n / 256, n % 256] + PlaneBytes(Plane(pixels, 0), 0) + PlaneBytes(Plane(pixels, 1), 0)
      + PlaneBytes(Plane(pixels, 2), 0) + PlaneBytes(Plane(pixels, 3), 0)
  }

  /** stbiw__write_hdr_scanline: whatever follows, a decoder takes the same pixels back, for every width. */
  method WriteScanline(pixels: seq<Rgbe>, scratch: array<Byte>) returns (out: seq<Byte>)
    requires scratch.Length >= 4 * |pixels|
    modifies scratch
    ensures forall rest: seq<Byte> :: TakeScanline(out + rest, |pixels|) == Some(ScanlineStep(pixels, rest))
    ensures out == ScanlineBytes(pixels)
  {
    hide TakeScanline;
    if |pixels| < 8 || |pixels| >= 32768 {
      out := WriteFlat(pixels);
    } else {
      out := WritePlanes(pixels, scratch);
    }
  }

  /** The four bytes of each pixel, for scanlines that cannot be run-length coded. */
  method WriteFlat(pixels: seq<Rgbe>) returns (out: seq<Byte>)
    requires |pixels| < 8 || |pixels| >= 32768
    ensures forall rest: seq<Byte> :: TakeScanline(out + rest, |pixels|) == Some(ScanlineStep(pixels, rest))
    ensures out == ScanlineBytes(pixels)
  {
    hide TakeFlat;
    assert pixels[..|pixels|] == pixels;
    out := [];
    for x := 0 to |pixels|
      invariant out == FlatBytes(pixels[..x])
    {
      assert pixels[..x + 1][..x] == pixels[..x];
      out := out + [pixels[x].r, pixels[x].g, pixels[x].b, pixels[x].e];
    }
    forall rest: seq<Byte> ensures TakeScanline(out + rest, |pixels|) == Some(ScanlineStep(pixels, rest)) {
      FlatDone(pixels, rest);
      assert pixels[..|pixels|] == pixels;
    }
  }

  /** The mark and the four planes, each run-length coded. */
  method WritePlanes(pixels: seq<Rgbe>, scratch: array<Byte>) returns (out: seq<Byte>)
    requires 8 <= |pixels| < 32768 && scratch.Length >= 4 * |pixels|
    modifies scratch
    ensures forall rest: seq<Byte> :: TakeScanline(out + rest, |pixels|) == Some(ScanlineStep(pixels, rest))
    ensures out == ScanlineBytes(pixels)
  {
    hide PlaneReaches, TakeFlat, Plane, TakeScanline, PlaneBytes, ScanlineBytes;
    var width := |pixels|;
    SplitPlanes(pixels, scratch);
    out := [2, 2, Uchar(width / 256), Uchar(width)];
    var planes: seq<seq<Byte>> := [];
    ghost var split := scratch[..];
    for c := 0 to 4
      invariant scratch[..] == split && |planes| == c
      invariant forall i :: 0 <= i < c ==> PlaneReaches(planes[i], width, Plane(pixels, i))
      invariant forall i :: 0 <= i < c ==> planes[i] == PlaneBytes(Plane(pixels, i), 0)
      invariant out == AfterPlanes([2, 2, Uchar(width / 256), Uchar(width)], planes)
    {
      var comp := width * c;
      assert PlaneAt(scratch[..], comp, Plane(pixels, c)) by {
        assert c == 0 || c == 1 || c == 2 || c == 3;
      }
      assert scratch[comp..comp + width] == scratch[..][comp..comp + width];
      var plane := WritePlane(scratch[comp..comp + width]);
      assert (planes + [plane])[..c] == planes;
      out := out + plane;
      planes := planes + [plane];
    }
    FourPlanes([2, 2, Uchar(width / 256), Uchar(width)], planes);
    CodedScanline(pixels, planes[0], planes[1], planes[2], planes[3], out);
    CodedBytes(pixels, planes[0], planes[1], planes[2], planes[3]);
  }

  lemma CodedScanline(pixels: seq<Rgbe>, r: seq<Byte>, g: seq<Byte>, b: seq<Byte>, e: seq<Byte>, out: seq<Byte>)
    requires 8 <= |pixels| < 32768
    requires PlaneReaches(r, |pixels|, Plane(pixels, 0)) && PlaneReaches(g, |pixels|, Plane(pixels, 1))
    requires PlaneReaches(b, |pixels|, Plane(pixels, 2)) && PlaneReaches(e, |pixels|, Plane(pixels, 3))
    requires out == [2, 2, Uchar(|pixels| / 256), Uchar(|pixels|)] + r + g + b + e
    ensures forall rest: seq<Byte> :: TakeScanline(out + rest, |pixels|) == Some(ScanlineStep(pixels, rest))
  {
    hide PlaneReaches, TakeScanline, Plane, PlaneBytes, Uchar;
    forall rest: seq<Byte> ensures TakeScanline(out + rest, |pixels|) == Some(ScanlineStep(pixels, rest)) {
      TakePlanes(pixels, r, g, b, e, rest);
    }
  }

  lemma CodedBytes(pixels: seq<Rgbe>, r: seq<Byte>, g: seq<Byte>, b: seq<Byte>, e: seq<Byte>)
    requires 8 <= |pixels| < 32768
    requires r == PlaneBytes(Plane(pixels, 0), 0) && g == PlaneBytes(Plane(pixels, 1), 0)
    requires b == PlaneBytes(Plane(pixels, 2), 0) && e == PlaneBytes(Plane(pixels, 3), 0)
    ensures [2, 2, Uchar(|pixels| / 256), Uchar(|pixels|)] + r + g + b + e == ScanlineBytes(pixels)
  {
    hide Plane, PlaneBytes, Uchar;
    MarkBytes(|pixels|);
  }

  lemma MarkBytes(n: nat)
    requires n < 32768
    ensures Uchar(n / 256) == n / 256 && Uchar(n) == n % 256
  {
  }

  ghost function AfterPlanes(mark: seq<Byte>, planes: seq<seq<Byte>>): seq<Byte> {
    if planes == [] then mark else AfterPlanes(mark, planes[..|planes| - 1]) + planes[|planes| - 1]
  }

  lemma FourPlanes(mark: seq<Byte>, planes: seq<seq<Byte>>)
    requires |planes| == 4
    ensures AfterPlanes(mark, planes) == mark + planes[0] + planes[1] + planes[2] + planes[3]
  {
    var p1, p2, p3 := planes[..1], planes[..2], planes[..3];
    assert p3[..2] == p2 && p2[..1] == p1 && p1[..0] == [];
    assert AfterPlanes(mark, p1) == mark + planes[0];
    assert AfterPlanes(mark, p2) == AfterPlanes(mark, p1) + planes[1];
    assert AfterPlanes(mark, p3) == AfterPlanes(mark, p2) + planes[2];
  }

  lemma FlatDone(pixels: seq<Rgbe>, rest: seq<Byte>)
    ensures TakeFlat(FlatBytes(pixels) + rest, |pixels|) == Some(ScanlineStep(pixels, rest))
  {
    TakeFlatBack(pixels, |pixels|, rest);
    assert pixels[..|pixels|] == pixels && pixels + [] == pixels;
    assert TakeFlat(rest, 0) == Some(ScanlineStep([], rest));
  }
}
