/** lpunpack.py: the reader of the same metadata, and the extraction of a partition's image. */
module LpUnpack {
  import opened Common
  import opened Bytes
  import opened LpAllocator
  import opened LpMetadata
  import EdlLayout

  const ZERO := 1

  datatype PartRow = PartRow(name: seq<byte>, attributes: nat, first: nat, count: nat, group: nat)

  datatype Extraction = Got(image: seq<byte>) | Unsupported(kind: nat) | Truncated(short: nat)

  // ------------------------------------------------------------------ the tables

  function PartRowOf(e: seq<byte>): PartRow
    requires 52 <= |e|
  {
    PartRow(NameOf(e), Get32(e, 36), First(e), Count(e), Get32(e, 48))
  }

  lemma EntryIs(m: seq<byte>, start: nat, num: nat, sz: nat, i: nat)
    requires start + Span(num, sz) <= |m| && i < num
    ensures start + Span(i, sz) + sz <= |m|
    ensures Entry(m, start, sz, i) == m[start + Span(i, sz)..start + Span(i, sz) + sz]
  {
    SpanGrows(i + 1, num, sz);
  }

  /** A field of entry `i` read straight from the metadata. */
  lemma FieldAt(m: seq<byte>, start: nat, num: nat, sz: nat, i: nat, lo: nat, hi: nat)
    requires start + Span(num, sz) <= |m| && i < num && lo <= hi <= sz
    ensures start + Span(i, sz) + hi <= |m|
    ensures |Entry(m, start, sz, i)| == sz
    ensures m[start + Span(i, sz) + lo..start + Span(i, sz) + hi] == Entry(m, start, sz, i)[lo..hi]
  {
    var at, e := start + Span(i, sz), Entry(m, start, sz, i);
    EntryIs(m, start, num, sz, i);
    SubSlice(m, at, sz, lo, hi);
    assert e[lo..hi] == m[at + lo..at + hi];
  }

  method ParsePartitions(m: seq<byte>) returns (out: seq<PartRow>)
    requires WellFormed(m)
    ensures |out| == |Load(m).parts| && AllAtLeast(Load(m).parts, 52)
    ensures forall i :: 0 <= i < |out| ==> out[i] == PartRowOf(Load(m).parts[i])
  {
    var h := ReadHeader(m);
    var t := h.parts;
    var base := h.size + t.off;
    LoadSized(m);
    out := [];
    for i := 0 to t.num
      invariant |out| == i && forall k :: 0 <= k < i ==> out[k] == PartRowOf(Load(m).parts[k])
    {
      SpanIsProduct(i, t.size);
      var row := ReadPartRow(m, base, t.num, t.size, i, base + i * t.size);
      EntryAt(m, base, t.num, t.size, i);
      out := out + [row];
    }
  }

  method ReadPartRow(m: seq<byte>, base: nat, num: nat, sz: nat, i: nat, off: nat) returns (row: PartRow)
    requires base + Span(num, sz) <= |m| && i < num && 52 <= sz && off == base + Span(i, sz)
    ensures |Entry(m, base, sz, i)| == sz && row == PartRowOf(Entry(m, base, sz, i))
  {
    FieldAt(m, base, num, sz, i, 0, 36);
    FieldAt(m, base, num, sz, i, 36, 40);
    FieldAt(m, base, num, sz, i, 40, 44);
    FieldAt(m, base, num, sz, i, 44, 48);
    FieldAt(m, base, num, sz, i, 48, 52);
    row := PartRow(UpToNul(m[off..off + 36]), Get32(m, off + 36), Get32(m, off + 40), Get32(m, off + 44), Get32(m, off + 48));
  }

  method ParseExtents(m: seq<byte>) returns (out: seq<Extent>)
    requires WellFormed(m)
    ensures |out| == |Load(m).exts| && AllAtLeast(Load(m).exts, 24)
    ensures forall i :: 0 <= i < |out| ==> out[i] == ExtentOf(Load(m).exts[i])
  {
    var h := ReadHeader(m);
    var t := h.exts;
    var base := h.size + t.off;
    LoadSized(m);
    out := [];
    for i := 0 to t.num
      invariant |out| == i && forall k :: 0 <= k < i ==> out[k] == ExtentOf(Load(m).exts[k])
    {
      SpanIsProduct(i, t.size);
      var row := ReadExtentRow(m, base, t.num, t.size, i, base + i * t.size);
      EntryAt(m, base, t.num, t.size, i);
      out := out + [row];
    }
  }

  method ReadExtentRow(m: seq<byte>, base: nat, num: nat, sz: nat, i: nat, off: nat) returns (e: Extent)
    requires base + Span(num, sz) <= |m| && i < num && 24 <= sz && off == base + Span(i, sz)
    ensures |Entry(m, base, sz, i)| == sz && e == ExtentOf(Entry(m, base, sz, i))
  {
    FieldAt(m, base, num, sz, i, 0, 8);
    FieldAt(m, base, num, sz, i, 8, 12);
    FieldAt(m, base, num, sz, i, 12, 20);
    FieldAt(m, base, num, sz, i, 20, 24);
    e := Extent(Get64(m, off), Get32(m, off + 8), Get64(m, off + 12), Get32(m, off + 20));
  }

  /** The rows of both tables together mean what the metadata means: the extents a row points at
      are its partition's, in order. */
  lemma RowsMean(m: seq<byte>, rows: seq<PartRow>, exts: seq<Extent>, i: nat)
    requires Sound(m) && Sized(Load(m)) && i < |rows| == |Load(m).parts| && |exts| == |Load(m).exts|
    requires rows[i] == PartRowOf(Load(m).parts[i])
    requires forall k :: 0 <= k < |exts| ==> exts[k] == ExtentOf(Load(m).exts[k])
    ensures RowMeans(Meaning(Load(m)).parts[i], rows[i], exts)
  {
    RowMeansRaw(Load(m), rows[i], exts, i);
  }

  ghost predicate RowMeans(p: Partition, row: PartRow, exts: seq<Extent>) {
    && p.name == row.name && p.attributes == row.attributes && p.group == row.group
    && row.first + row.count <= |exts| && p.extents == exts[row.first..row.first + row.count]
  }

  lemma RowMeansRaw(r: Raw, row: PartRow, exts: seq<Extent>, i: nat)
    requires Sized(r) && i < |r.parts| && |exts| == |r.exts| && RunsInside(r.parts, |r.exts|)
    requires row == PartRowOf(r.parts[i])
    requires forall k :: 0 <= k < |exts| ==> exts[k] == ExtentOf(r.exts[k])
    ensures RowMeans(Meaning(r).parts[i], row, exts)
  {
    PlanSized(r.parts, r.exts);
    PartitionAt(r.parts, Plan(r.parts, r.exts), i);
    PlanAt(r.parts, r.exts, i);
    assert row.first + row.count <= |exts|;
    EntryMeans(r.parts[i], row, r.exts, exts);
  }

  lemma EntryMeans(p: seq<byte>, row: PartRow, raw: seq<seq<byte>>, exts: seq<Extent>)
    requires 52 <= |p| && row == PartRowOf(p) && AllAtLeast(raw, 24) && |exts| == |raw| && row.first + row.count <= |raw|
    requires forall k :: 0 <= k < |exts| ==> exts[k] == ExtentOf(raw[k])
    ensures AllAtLeast(Run(p, raw), 24) && RowMeans(PartitionOf(p, Run(p, raw)), row, exts)
  {
    RunMeans(raw, exts, row.first, row.count);
  }

  lemma RunMeans(raw: seq<seq<byte>>, exts: seq<Extent>, first: nat, count: nat)
    requires AllAtLeast(raw, 24) && |exts| == |raw| && first + count <= |raw|
    requires forall k :: 0 <= k < |exts| ==> exts[k] == ExtentOf(raw[k])
    ensures var run := Slice(raw, first, first + count);
            AllAtLeast(run, 24) && ExtentsOf(run) == exts[first..first + count]
  {
    var run := Slice(raw, first, first + count);
    assert run == raw[first..first + count];
    forall k | 0 <= k < count ensures ExtentsOf(run)[k] == exts[first + k] {
      ExtentAt(run, k);
    }
  }

  // ------------------------------------------------------------------ sizes and extraction

  method PartitionSize(row: PartRow, exts: seq<Extent>) returns (total: nat)
    requires row.first + row.count <= |exts|
    ensures total == Sectors(exts[row.first..row.first + row.count]) * SECTOR
  {
    total := 0;
    for i := 0 to row.count
      invariant total == Sectors(exts[row.first..row.first + i]) * SECTOR
    {
      total := total + exts[row.first + i].sectors * SECTOR;
      assert exts[row.first..row.first + i + 1][..i] == exts[row.first..row.first + i];
    }
  }

  function Max0(n: int): nat { if n > 0 then n else 0 }

  function LinearBytes(f: seq<byte>, at: nat, length: nat): Extraction {
    if length > 0 && at + length > |f| then Truncated(length - Max0(|f| - at)) else Got(Slice(f, at, at + length))
  }

  /** The bytes of one extent. */
  function ExtentBytes(f: seq<byte>, e: Extent): Extraction {
    if e.kind == ZERO then Got(Zeros(e.sectors * SECTOR))
    else if e.kind != LINEAR then Unsupported(e.kind)
    else LinearBytes(f, e.data * SECTOR, e.sectors * SECTOR)
  }

  function Then(a: Extraction, b: Extraction): Extraction {
    if a.Got? && b.Got? then Got(a.image + b.image) else if a.Got? then b else a
  }

  /** The bytes of a partition: its extents' bytes in order, up to the first that has none. */
  function Extracted(f: seq<byte>, exts: seq<Extent>): Extraction {
    if exts == [] then Got([]) else Then(Extracted(f, exts[..|exts| - 1]), ExtentBytes(f, exts[|exts| - 1]))
  }

  // ------------------------------------------------------------------ byte by byte

  /** Byte `o` of extent `i`. */
  predicate InExtent(exts: seq<Extent>, i: nat, o: nat) {
    i < |exts| && o < 512 * exts[i].sectors
  }

  /** Where extent `i` starts in the partition. */
  function StartOf(exts: seq<Extent>, i: nat): nat
    requires i <= |exts|
  {
    512 * Sectors(exts[..i])
  }

  /** Byte `o` of a ZERO extent is 0, and of a LINEAR one the byte of the image at its place. */
  ghost predicate ByteIs(f: seq<byte>, e: Extent, o: nat, b: byte) {
    (e.kind == 1 && b == 0) || (e.kind == 0 && 512 * e.data + o < |f| && b == f[512 * e.data + o])
  }

  /** The bytes are those of all extents in order. */
  ghost predicate Spells(f: seq<byte>, exts: seq<Extent>, image: seq<byte>) {
    && |image| == 512 * Sectors(exts)
    && forall i: nat, o: nat :: InExtent(exts, i, o) ==>
         StartOf(exts, i) + o < |image| && ByteIs(f, exts[i], o, image[StartOf(exts, i) + o])
  }

  /** The extent can be read: it is ZERO, or LINEAR and inside the image. */
  predicate Readable(f: seq<byte>, e: Extent) {
    e.kind == 1 || (e.kind == 0 && (e.sectors == 0 || 512 * (e.data + e.sectors) <= |f|))
  }

  /** Extent `i` is the first that cannot be read: of neither kind, or missing that many bytes. */
  ghost predicate FailsAt(f: seq<byte>, exts: seq<Extent>, i: nat, r: Extraction) {
    && i < |exts| && !Readable(f, exts[i]) && (forall j :: 0 <= j < i ==> Readable(f, exts[j]))
    && r == if exts[i].kind > 1 then Unsupported(exts[i].kind)
            else Truncated(Min(512 * exts[i].sectors, 512 * (exts[i].data + exts[i].sectors) - |f|))
  }

  ghost predicate ExtractsAs(f: seq<byte>, exts: seq<Extent>, r: Extraction) {
    if r.Got? then Spells(f, exts, r.image) else exists i :: FailsAt(f, exts, i, r)
  }

  lemma ExtentSpells(f: seq<byte>, e: Extent)
    ensures ExtentBytes(f, e).Got? <==> Readable(f, e)
    ensures ExtentBytes(f, e).Got? ==>
              && |ExtentBytes(f, e).image| == 512 * e.sectors
              && forall o :: 0 <= o < 512 * e.sectors ==> ByteIs(f, e, o, ExtentBytes(f, e).image[o])
    ensures !ExtentBytes(f, e).Got? ==>
              ExtentBytes(f, e) == if e.kind > 1 then Unsupported(e.kind)
                                   else Truncated(Min(512 * e.sectors, 512 * (e.data + e.sectors) - |f|))
  {
  }

  lemma SpellsOn(f: seq<byte>, exts: seq<Extent>, before: seq<byte>, e: Extent, piece: seq<byte>)
    requires Spells(f, exts, before) && |piece| == 512 * e.sectors
    requires forall o :: 0 <= o < |piece| ==> ByteIs(f, e, o, piece[o])
    ensures Spells(f, exts + [e], before + piece)
  {
    var all, image := exts + [e], before + piece;
    assert all[..|exts|] == exts;
    forall i: nat, o: nat | InExtent(all, i, o)
      ensures StartOf(all, i) + o < |image| && ByteIs(f, all[i], o, image[StartOf(all, i) + o])
    {
      if i < |exts| {
        assert all[..i] == exts[..i] && InExtent(exts, i, o);
      } else {
        assert image[|before| + o] == piece[o];
      }
    }
  }

  /** Every extraction, byte by byte: the partition's extents in order, zeros for ZERO and the image's
      bytes for LINEAR, or the first extent that cannot be read and what it lacks. */
  lemma {:induction false} ExtractedExactly(f: seq<byte>, exts: seq<Extent>)
    ensures ExtractsAs(f, exts, Extracted(f, exts))
    ensures Extracted(f, exts).Got? ==> forall j :: 0 <= j < |exts| ==> Readable(f, exts[j])
  {
    if exts != [] {
      var n := |exts| - 1;
      ExtractedExactly(f, exts[..n]);
      ExtentSpells(f, exts[n]);
      assert exts[..n] + [exts[n]] == exts;
      var before := Extracted(f, exts[..n]);
      if before.Got? {
        if Readable(f, exts[n]) {
          SpellsOn(f, exts[..n], before.image, exts[n], ExtentBytes(f, exts[n]).image);
        } else {
          assert FailsAt(f, exts, n, Extracted(f, exts));
        }
      } else {
        var i :| FailsAt(f, exts[..n], i, before);
        assert FailsAt(f, exts, i, before);
      }
    }
  }

  method WriteZeros(length: nat, chunk: nat) returns (out: seq<byte>)
    requires chunk > 0
    ensures out == Zeros(length)
  {
    out := [];
    var remaining: nat := length;
    var zeros := Zeros(Min(chunk, remaining));
    while remaining > 0
      invariant remaining <= length && out == Zeros(length - remaining)
    {
      var n := Min(chunk, remaining);
      out := out + zeros[..n];
      remaining := remaining - n;
    }
  }

  method CopyLinear(f: seq<byte>, at: nat, length: nat, chunk: nat) returns (r: Extraction)
    requires chunk > 0
    ensures r == LinearBytes(f, at, length)
  {
    var remaining: nat := length;
    var out := [];
    while remaining > 0
      invariant |out| + remaining == length && ReadSoFar(f, at, |out|, out)
    {
      var want := Min(chunk, remaining);
      var buf := Slice(f, at + |out|, at + |out| + want);
      ReadOn(f, at, |out|, out, want);
      if buf == [] {
        AtEnd(f, at, length, |out|);
        return Truncated(remaining);
      }
      out := out + buf;
      remaining := remaining - |buf|;
    }
    ReadAll(f, at, length, out);
    r := Got(out);
  }

  lemma ReadAll(f: seq<byte>, at: nat, length: nat, out: seq<byte>)
    requires ReadSoFar(f, at, length, out)
    ensures LinearBytes(f, at, length) == Got(out)
  {
  }

  /** One more read: nothing at the end of the file, else it goes on where the last one ended. */
  lemma ReadOn(f: seq<byte>, at: nat, n: nat, out: seq<byte>, want: nat)
    requires ReadSoFar(f, at, n, out) && want > 0
    ensures var buf := Slice(f, at + n, at + n + want);
            && |buf| <= want && (buf == [] <==> |f| <= at + n)
            && (buf != [] ==> ReadSoFar(f, at, n + |buf|, out + buf))
  {
    if at + n < |f| {
      SliceOn(f, at, at + n, at + n + want);
    }
  }

  ghost predicate ReadSoFar(f: seq<byte>, at: nat, n: nat, out: seq<byte>) {
    |out| == n && out == Slice(f, at, at + n) && (n > 0 ==> at + n <= |f|)
  }

  lemma AtEnd(f: seq<byte>, at: nat, length: nat, got: nat)
    requires got < length && (got > 0 ==> at + got <= |f|) && |f| <= at + got
    ensures LinearBytes(f, at, length) == Truncated(length - got)
  {
  }

  /** Reading on from where the last read ended. */
  lemma SliceOn(f: seq<byte>, lo: nat, mid: nat, hi: nat)
    requires lo <= mid < hi && mid < |f|
    ensures var buf := Slice(f, mid, hi);
            && 0 < |buf| <= hi - mid && mid + |buf| <= |f|
            && Slice(f, lo, mid) + buf == Slice(f, lo, mid + |buf|)
            && |Slice(f, lo, mid + |buf|)| == mid + |buf| - lo
  {
    var buf := Slice(f, mid, hi);
    assert Slice(f, lo, mid) == f[lo..mid];
    assert f[lo..mid] + buf == f[lo..mid + |buf|];
  }

  method ExtractExtent(f: seq<byte>, e: Extent, chunk: nat) returns (piece: Extraction)
    requires chunk > 0
    ensures piece == ExtentBytes(f, e)
  {
    if e.kind == ZERO {
      var zeros := WriteZeros(e.sectors * SECTOR, chunk);
      piece := Got(zeros);
    } else if e.kind != LINEAR {
      piece := Unsupported(e.kind);
    } else {
      piece := CopyLinear(f, e.data * SECTOR, e.sectors * SECTOR, chunk);
    }
  }

  lemma ExtractStep(f: seq<byte>, exts: seq<Extent>, i: nat)
    requires i < |exts|
    ensures Extracted(f, exts[..i + 1]) == Then(Extracted(f, exts[..i]), ExtentBytes(f, exts[i]))
  {
    assert exts[..i + 1][..i] == exts[..i];
  }

  method Extract(f: seq<byte>, row: PartRow, exts: seq<Extent>, chunk: nat) returns (r: Extraction)
    requires row.first + row.count <= |exts| && chunk > 0
    ensures r == Extracted(f, exts[row.first..row.first + row.count])
    ensures ExtractsAs(f, exts[row.first..row.first + row.count], r)
  {
    ghost var all := exts[row.first..row.first + row.count];
    ExtractedExactly(f, all);
    var out := [];
    for i := 0 to row.count
      invariant Extracted(f, all[..i]) == Got(out)
    {
      var e := exts[row.first + i];
      assert e == all[i];
      var piece := ExtractExtent(f, e, chunk);
      ExtractStep(f, all, i);
      if !piece.Got? {
        StopsAt(f, all, i + 1);
        return piece;
      }
      out := out + piece.image;
    }
    assert all[..row.count] == all;
    r := Got(out);
  }

  lemma {:induction false} StopsAt(f: seq<byte>, exts: seq<Extent>, n: nat)
    requires n <= |exts| && !Extracted(f, exts[..n]).Got?
    ensures Extracted(f, exts) == Extracted(f, exts[..n])
  {
    if n < |exts| {
      assert exts[..|exts| - 1][..n] == exts[..n];
      StopsAt(f, exts[..|exts| - 1], n);
    } else {
      assert exts[..n] == exts;
    }
  }

  method ExtractRow(f: seq<byte>, row: PartRow, exts: seq<Extent>, chunk: nat, ghost p: Partition)
    returns (r: Extraction, size: nat)
    requires RowMeans(p, row, exts) && chunk > 0
    ensures r == Extracted(f, p.extents) && size == Sectors(p.extents) * SECTOR
  {
    size := PartitionSize(row, exts);
    r := Extract(f, row, exts, chunk);
  }

  /** Read the tables. */
  method ReadRow(m: seq<byte>, i: nat) returns (row: PartRow, exts: seq<Extent>)
    requires Sound(m) && Sized(Load(m)) && i < |Load(m).parts|
    ensures RowMeans(Meaning(Load(m)).parts[i], row, exts)
  {
    var rows := ParsePartitions(m);
    exts := ParseExtents(m);
    row := rows[i];
    RowsMean(m, rows, exts, i);
  }

  /** Read the tables and extract partition `i`, which means `p`. */
  method Unpack(f: seq<byte>, m: seq<byte>, i: nat, chunk: nat, ghost p: Partition) returns (r: Extraction, size: nat)
    requires Sound(m) && Sized(Load(m)) && i < |Load(m).parts| && chunk > 0 && p == Meaning(Load(m)).parts[i]
    ensures r == Extracted(f, p.extents) && size == Sectors(p.extents) * SECTOR
    ensures ExtractsAs(f, p.extents, r)
  {
    ExtractedExactly(f, p.extents);
    var row, exts := ReadRow(m, i);
    r, size := ExtractRow(f, row, exts, chunk, p);
  }

  // ------------------------------------------------------------------ what it gives

  /** A partition is extracted whole exactly when all its extents are ZERO, or LINEAR and inside
      the image; the image then has the partition's size. */
  lemma {:induction false} ExtractedWhole(f: seq<byte>, exts: seq<Extent>)
    ensures Extracted(f, exts).Got? <==> forall i :: 0 <= i < |exts| ==> Readable(f, exts[i])
    ensures Extracted(f, exts).Got? ==> |Extracted(f, exts).image| == Sectors(exts) * SECTOR
  {
    if exts != [] {
      var n := |exts| - 1;
      ExtractedWhole(f, exts[..n]);
      assert forall i :: 0 <= i < n ==> exts[..n][i] == exts[i];
    }
  }

  /** What is extracted depends on the image only where the extents lie. */
  lemma {:induction false} ExtractedElsewhere(f: seq<byte>, g: seq<byte>, n: nat, exts: seq<Extent>)
    requires |f| == |g| && n <= |f| && f[n..] == g[n..]
    requires forall i :: 0 <= i < |exts| && exts[i].kind == LINEAR ==> n <= exts[i].data * SECTOR
    ensures Extracted(f, exts) == Extracted(g, exts)
  {
    if exts != [] {
      var k := |exts| - 1;
      ExtractedElsewhere(f, g, n, exts[..k]);
      ExtentElsewhere(f, g, n, exts[k]);
    }
  }

  lemma ExtentElsewhere(f: seq<byte>, g: seq<byte>, n: nat, e: Extent)
    requires |f| == |g| && n <= |f| && f[n..] == g[n..] && (e.kind == LINEAR ==> n <= e.data * SECTOR)
    ensures ExtentBytes(f, e) == ExtentBytes(g, e)
  {
    if e.kind == LINEAR {
      SliceElsewhere(f, g, n, e.data * SECTOR, e.data * SECTOR + e.sectors * SECTOR);
    }
  }

  lemma SliceElsewhere(f: seq<byte>, g: seq<byte>, n: nat, lo: nat, hi: nat)
    requires |f| == |g| && n <= |f| && f[n..] == g[n..] && n <= lo
    ensures Slice(f, lo, hi) == Slice(g, lo, hi)
  {
    var a, b := Slice(f, lo, hi), Slice(g, lo, hi);
    forall k | 0 <= k < |a| ensures a[k] == b[k] {
      assert a[k] == f[n..][lo - n + k] == g[n..][lo - n + k];
    }
  }

  /** The extents of a partition as the flashers take them. */
  function PiecesOf(exts: seq<Extent>): (p: seq<EdlLayout.Piece>)
    ensures |p| == |exts|
  {
    if exts == [] then [] else PiecesOf(exts[..|exts| - 1]) + [EdlLayout.Piece(exts[|exts| - 1].data, exts[|exts| - 1].sectors)]
  }

  lemma {:induction false} PieceAt(exts: seq<Extent>, i: nat)
    requires i < |exts|
    ensures PiecesOf(exts)[i] == EdlLayout.Piece(exts[i].data, exts[i].sectors)
  {
    if i < |exts| - 1 {
      PieceAt(exts[..|exts| - 1], i);
    }
  }

  /** Extracting from the device's super partition is gathering the extents from the device. */
  lemma {:induction false} ExtractedIsGathered(dev: seq<byte>, exts: seq<Extent>)
    requires EdlLayout.SUPER_OFFSET <= |dev| && EdlLayout.InDevice(PiecesOf(exts), |dev|)
    requires forall i :: 0 <= i < |exts| ==> exts[i].kind == LINEAR
    ensures Extracted(dev[EdlLayout.SUPER_OFFSET..], exts) == Got(EdlLayout.Gather(dev, PiecesOf(exts)))
  {
    if exts != [] {
      var n := |exts| - 1;
      var p, q := PiecesOf(exts), PiecesOf(exts[..n]);
      InDeviceFirst(p, |dev|, n);
      assert p[..n] == q;
      ExtractedIsGathered(dev, exts[..n]);
      OneGathered(dev, exts[n], p[n]);
    }
  }

  lemma InDeviceFirst(p: seq<EdlLayout.Piece>, size: nat, n: nat)
    requires EdlLayout.InDevice(p, size) && n < |p|
    ensures EdlLayout.InDevice(p[..n], size) && EdlLayout.Addr(p[n]) + EdlLayout.Size(p[n]) <= size
  {
    assert forall i :: 0 <= i < n ==> p[..n][i] == p[i];
  }

  lemma OneGathered(dev: seq<byte>, e: Extent, p: EdlLayout.Piece)
    requires e.kind == LINEAR && p == EdlLayout.Piece(e.data, e.sectors) && EdlLayout.Addr(p) + EdlLayout.Size(p) <= |dev|
    ensures ExtentBytes(dev[EdlLayout.SUPER_OFFSET..], e) == Got(dev[EdlLayout.Addr(p)..EdlLayout.Addr(p) + EdlLayout.Size(p)])
  {
    SuperSlice(dev, e.data * SECTOR, e.sectors * SECTOR);
  }

  lemma SuperSlice(dev: seq<byte>, at: nat, n: nat)
    requires EdlLayout.SUPER_OFFSET + at + n <= |dev|
    ensures Slice(dev[EdlLayout.SUPER_OFFSET..], at, at + n) == dev[EdlLayout.SUPER_OFFSET + at..EdlLayout.SUPER_OFFSET + at + n]
  {
  }
}
