/** The storage tools together: what resizing keeps for the unpacker, and what flashing a dumped
    partition keeps of the others. */
module LpStack {
  import opened Bytes
  import opened LpAllocator
  import opened LpMetadata
  import opened LpResize
  import opened LpUnpack
  import opened LpSuper
  import LpSuperRuns
  import L = EdlLayout
  import EdlFlash
  import LpDump

  ghost predicate AllLinear(exts: seq<Extent>) {
    forall k :: 0 <= k < |exts| ==> exts[k].kind == LINEAR
  }

  // ------------------------------------------------------------------ the allocator and the flashers

  /** In a safe layout a partition's extents are disjoint on the device and inside it. */
  lemma SafePieces(l: Layout, i: nat, size: nat)
    requires Safe(l) && i < |l.parts| && AllLinear(l.parts[i].extents) && L.SUPER_OFFSET + l.devices[0].size <= size
    ensures var p := PiecesOf(l.parts[i].extents); L.InDevice(p, size) && L.Disjoint(p)
  {
    var exts, p := l.parts[i].extents, PiecesOf(l.parts[i].extents);
    forall a | 0 <= a < |p| ensures L.Addr(p[a]) + L.Size(p[a]) <= size {
      PieceAt(exts, a);
    }
    forall a, b | 0 <= a < |p| && 0 <= b < |p| && a != b ensures L.Apart(p[a], p[b]) {
      PieceAt(exts, a);
      PieceAt(exts, b);
      PiecesApart(l, i, a, i, b);
    }
  }

  lemma PiecesApart(l: Layout, i: nat, a: nat, j: nat, b: nat)
    requires Safe(l) && i < |l.parts| && a < |l.parts[i].extents| && l.parts[i].extents[a].kind == LINEAR
    requires j < |l.parts| && b < |l.parts[j].extents| && l.parts[j].extents[b].kind == LINEAR && (i, a) != (j, b)
    ensures var x, y := l.parts[i].extents[a], l.parts[j].extents[b];
            L.Apart(L.Piece(x.data, x.sectors), L.Piece(y.data, y.sectors))
  {
  }

  /** Every extent the allocator hands out passes the flasher's alignment check, so a partition
      that could be flashed before a resize can be flashed after it. */
  lemma ResizedStillFlashes(l: Layout, target: Name, bytes: int)
    requires Grow(l, target, bytes).Added?
    requires L.AllAligned(PiecesOf(l.parts[Grow(l, target, bytes).idx].extents))
    ensures var idx := Grow(l, target, bytes).idx;
            idx < |Grown(l, target, bytes).parts| && L.AllAligned(PiecesOf(Grown(l, target, bytes).parts[idx].extents))
  {
    var Added(idx, e) := Grow(l, target, bytes);
    NewExtentIsFree(l, target, bytes, 0, 0);
    SectorsAlign(e.data, e.sectors);
    AlignedAppend(l.parts[idx].extents, e);
  }

  lemma SectorsAlign(data: nat, sectors: nat)
    requires data % ALIGN == 0 && sectors % ALIGN == 0
    ensures L.Aligned(L.Piece(data, sectors))
  {
    var j, k := data / ALIGN, sectors / ALIGN;
    assert L.SUPER_OFFSET + data * 512 == L.SECTOR * (0xb208 + j) && sectors * 512 == L.SECTOR * k;
  }

  lemma AlignedAppend(exts: seq<Extent>, e: Extent)
    requires L.AllAligned(PiecesOf(exts)) && L.Aligned(L.Piece(e.data, e.sectors))
    ensures L.AllAligned(PiecesOf(exts + [e]))
  {
    assert (exts + [e])[..|exts|] == exts;
    assert PiecesOf(exts + [e]) == PiecesOf(exts) + [L.Piece(e.data, e.sectors)];
  }

  /** Writing one partition leaves what any other one reads as. */
  lemma OtherKept(l: Layout, i: nat, j: nat, dev: seq<byte>, c: seq<byte>)
    requires Safe(l) && i < |l.parts| && j < |l.parts| && i != j
    requires AllLinear(l.parts[i].extents) && AllLinear(l.parts[j].extents)
    requires var p, q := PiecesOf(l.parts[i].extents), PiecesOf(l.parts[j].extents);
             L.InDevice(p, |dev|) && L.InDevice(q, |dev|) && |c| == L.Total(p)
    ensures var p, q := PiecesOf(l.parts[i].extents), PiecesOf(l.parts[j].extents);
            L.Gather(L.Scatter(dev, p, c), q) == L.Gather(dev, q)
  {
    var p, q := PiecesOf(l.parts[i].extents), PiecesOf(l.parts[j].extents);
    var after := L.Scatter(dev, p, c);
    forall o | 0 <= o < L.Total(q) ensures L.Gather(after, q)[o] == L.Gather(dev, q)[o] {
      L.GatherAt(after, q, o);
      L.GatherAt(dev, q, o);
      OtherFree(l, i, j, o);
      L.ScatterFree(dev, p, c, L.Where(q, o));
    }
  }

  lemma OtherFree(l: Layout, i: nat, j: nat, o: nat)
    requires Safe(l) && i < |l.parts| && j < |l.parts| && i != j
    requires AllLinear(l.parts[i].extents) && AllLinear(l.parts[j].extents)
    requires o < L.Total(PiecesOf(l.parts[j].extents))
    ensures L.Free(PiecesOf(l.parts[i].extents), L.Where(PiecesOf(l.parts[j].extents), o))
  {
    var p, q := PiecesOf(l.parts[i].extents), PiecesOf(l.parts[j].extents);
    var b := L.WhereInside(q, o);
    PieceAt(l.parts[j].extents, b);
    forall a | 0 <= a < |p| ensures !L.Holds(p[a], L.Where(q, o)) {
      PieceAt(l.parts[i].extents, a);
      PiecesApart(l, i, a, j, b);
    }
  }

  /** Dump, flash, extract: for a partition with a name of its own whose extents are all LINEAR,
      not empty and on device sectors, the flasher gets exactly its extents from the dump;
      extracting it afterwards gives the image, zeros to the next sector and the old contents;
      and every other LINEAR partition still extracts as before. */
  lemma FlashThenExtract(l: Layout, i: nat, j: nat, dev: seq<byte>, img: seq<byte>)
    requires Safe(l) && LpDump.OnlyNamed(l.parts, i) && AllLinear(l.parts[i].extents) && LpDump.AllShowable(l.parts[i].extents, 0)
    requires j < |l.parts| && j != i && AllLinear(l.parts[j].extents)
    requires L.SUPER_OFFSET + l.devices[0].size <= |dev|
    requires var p := PiecesOf(l.parts[i].extents); L.AllAligned(p) && |img| <= L.Total(p)
    ensures var p := PiecesOf(l.parts[i].extents);
            && LpDump.FlashFrom(LpDump.Printed(l.parts), l.parts[i].name, false) == p
            && L.InDevice(p, |dev|) && |img| + EdlFlash.Pad(|img|) <= L.Total(p)
            && var c := EdlFlash.Content(img, L.Gather(dev, p));
               var after := L.Scatter(dev, p, c)[L.SUPER_OFFSET..];
               && Extracted(after, l.parts[i].extents) == Got(c)
               && Extracted(after, l.parts[j].extents) == Extracted(dev[L.SUPER_OFFSET..], l.parts[j].extents)
  {
    var p, q := PiecesOf(l.parts[i].extents), PiecesOf(l.parts[j].extents);
    LpDump.DumpRoundTrip(l.parts, i);
    SafePieces(l, i, |dev|);
    SafePieces(l, j, |dev|);
    EdlFlash.PaddedFits(img, p);
    var c := EdlFlash.Content(img, L.Gather(dev, p));
    var after := L.Scatter(dev, p, c);
    L.GatherScatter(dev, p, c);
    OtherKept(l, i, j, dev, c);
    ExtractedIsGathered(after, l.parts[i].extents);
    ExtractedIsGathered(after, l.parts[j].extents);
    ExtractedIsGathered(dev, l.parts[j].extents);
  }

  // ------------------------------------------------------------------ resizing and the unpacker

  /** All data lies behind the metadata. */
  ghost predicate DataBehind(l: Layout, n: nat) {
    forall i, a :: 0 <= i < |l.parts| && 0 <= a < |l.parts[i].extents| && l.parts[i].extents[a].kind == LINEAR ==>
      n <= l.parts[i].extents[a].data * SECTOR
  }

  lemma FirstBehind(l: Layout, n: nat)
    requires Contained(l) && n <= l.devices[0].first * SECTOR
    ensures DataBehind(l, n)
  {
  }

  /** Partition `j` of the grown layout `m` extracts from `out` as it did from `d` before, or is
      the target and starts with what it was. */
  ghost predicate DataKept(d: seq<byte>, out: seq<byte>, l: Layout, m: Layout, target: Name, j: nat)
    requires j < |l.parts| == |m.parts|
  {
    if m.parts[j] == l.parts[j] then Extracted(out, m.parts[j].extents) == Extracted(d, l.parts[j].extents)
    else
      && m.parts[j].name == target
      && (Extracted(out, m.parts[j].extents).Got? ==>
            Extracted(d, l.parts[j].extents).Got?
            && Extracted(d, l.parts[j].extents).image <= Extracted(out, m.parts[j].extents).image)
  }

  lemma GrownExtracts(d: seq<byte>, out: seq<byte>, n: nat, l: Layout, target: Name, bytes: int, j: nat)
    requires n <= |d| == |out| && out[n..] == d[n..] && DataBehind(l, n) && j < |l.parts|
    ensures var m := Grown(l, target, bytes); |m.parts| == |l.parts| && DataKept(d, out, l, m, target, j)
  {
    ExtractedElsewhere(d, out, n, l.parts[j].extents);
    OneGrows(l, target, bytes, j);
    var m := Grown(l, target, bytes);
    if m.parts[j] != l.parts[j] {
      ExtractedMore(out, l.parts[j].extents, m.parts[j].extents[|l.parts[j].extents|]);
    }
  }

  lemma RegionMeans(d: seq<byte>, slot: nat, target: seq<byte>, bytes: int, sha: Hash, f: Patching, q: nat, l: Layout, max: nat, count: nat,
                    out: seq<byte>)
    requires META_BASE <= |d| && Patches(f, target, bytes, sha) && Resize(d, slot, f).Written? && out == Resize(d, slot, f).image
    requires max == MaxSize(d) && count == SlotCount(d) && slot < count && (q == slot || q == count + slot)
    requires InImage(d, q, max) && LpSuperRuns.Means(Region(d, q, max), l)
    ensures InImage(out, q, max) && LpSuperRuns.Means(Region(out, q, max), Grown(l, target, bytes))
  {
    LpSuperRuns.SlotIsolated(d, slot, f, q);
    LpSuperRuns.CopyMeaning(Region(d, q, max), l, target, bytes, sha, f);
  }

  /** After a run, each copy of the slot that had metadata means the grown layout, and from the
      rewritten image the unpacker extracts every other partition exactly as before, and the
      grown one with its old image in front. */
  lemma ResizeKeepsData(d: seq<byte>, slot: nat, target: seq<byte>, bytes: int, sha: Hash, f: Patching, q: nat, l: Layout, j: nat,
                        max: nat, count: nat, out: seq<byte>)
    requires META_BASE <= |d| && Patches(f, target, bytes, sha) && Resize(d, slot, f).Written? && out == Resize(d, slot, f).image
    requires max == MaxSize(d) && count == SlotCount(d) && slot < count && (q == slot || q == count + slot)
    requires InImage(d, q, max) && LpSuperRuns.Means(Region(d, q, max), l) && Safe(l) && j < |l.parts|
    requires META_BASE + Span(2 * count, max) <= l.devices[0].first * SECTOR
    ensures InImage(out, q, max) && LpSuperRuns.Means(Region(out, q, max), Grown(l, target, bytes))
    ensures |Grown(l, target, bytes).parts| == |l.parts| && DataKept(d, out, l, Grown(l, target, bytes), target, j)
  {
    RegionMeans(d, slot, target, bytes, sha, f, q, l, max, count, out);
    DataBehindKept(d, slot, f, q, l, max, count, out, target, bytes, j);
  }

  lemma DataBehindKept(d: seq<byte>, slot: nat, f: Patching, q: nat, l: Layout, max: nat, count: nat, out: seq<byte>,
                       target: seq<byte>, bytes: int, j: nat)
    requires META_BASE <= |d| && Resize(d, slot, f).Written? && out == Resize(d, slot, f).image
    requires max == MaxSize(d) && count == SlotCount(d) && q < 2 * count && Contained(l) && j < |l.parts|
    requires META_BASE + Span(2 * count, max) <= l.devices[0].first * SECTOR
    ensures |Grown(l, target, bytes).parts| == |l.parts| && DataKept(d, out, l, Grown(l, target, bytes), target, j)
  {
    BehindKept(d, slot, f, q);
    FirstBehind(l, META_BASE + Span(2 * count, max));
    GrownExtracts(d, out, META_BASE + Span(2 * count, max), l, target, bytes, j);
  }

  lemma BehindKept(d: seq<byte>, slot: nat, f: Patching, q: nat)
    requires META_BASE <= |d| && Resize(d, slot, f).Written? && q < 2 * SlotCount(d)
    ensures var out, n := Resize(d, slot, f).image, META_BASE + Span(2 * SlotCount(d), MaxSize(d));
            n <= |d| == |out| && out[n..] == d[n..]
  {
    LpSuperRuns.SlotIsolated(d, slot, f, q);
  }

  lemma OneGrows(l: Layout, target: Name, bytes: int, j: nat)
    requires j < |l.parts|
    ensures var m := Grown(l, target, bytes);
            && |m.parts| == |l.parts|
            && (m.parts[j] == l.parts[j]
                || (m.parts[j].name == target && |m.parts[j].extents| == |l.parts[j].extents| + 1
                    && m.parts[j].extents == l.parts[j].extents + [m.parts[j].extents[|l.parts[j].extents|]]))
  {
  }

  lemma ExtractedMore(f: seq<byte>, exts: seq<Extent>, e: Extent)
    ensures Extracted(f, exts + [e]).Got? ==> Extracted(f, exts).Got? && Extracted(f, exts).image <= Extracted(f, exts + [e]).image
  {
    assert (exts + [e])[..|exts|] == exts;
  }
}
