/** When the delta writer leaves the device as a full flash would. */
module EdlAgree {
  import opened Common
  import opened Bytes
  import opened EdlLayout
  import EdlFlash
  import opened EdlDelta

  // ------------------------------------------------------------------ runs and extent boundaries

  ghost predicate AllNonEmpty(ext: seq<Piece>) {
    forall i :: 0 <= i < |ext| ==> ext[i].len > 0
  }

  /** Every extent boundary strictly inside bytes o .. o+n joins two extents that are adjacent on
      the device. */
  ghost predicate CrossesNoGap(ext: seq<Piece>, o: nat, n: nat) {
    forall i :: 0 < i < |ext| && o < Total(ext[..i]) < o + n ==> Adjacent(ext, i)
  }

  ghost predicate Adjacent(ext: seq<Piece>, i: nat)
    requires 0 < i < |ext|
  {
    Addr(ext[i]) == Addr(ext[i - 1]) + Size(ext[i - 1])
  }

  lemma BoundaryStep(ext: seq<Piece>, i: nat)
    requires i < |ext|
    ensures Total(ext[..i + 1]) == Total(ext[..i]) + Size(ext[i])
  {
    assert ext[..i + 1][..i] == ext[..i];
  }

  lemma NextByte(ext: seq<Piece>, o: nat, n: nat, p: nat)
    requires AllNonEmpty(ext) && CrossesNoGap(ext, o, n) && o <= p && p + 1 < o + n && p + 1 < Total(ext)
    ensures Where(ext, p + 1) == Where(ext, p) + 1
  {
    var i := WhereInside(ext, p);
    BoundaryStep(ext, i);
    if p + 1 < Total(ext[..i + 1]) {
      WhereIn(ext, i, p + 1 - Total(ext[..i]));
    } else {
      var j := WhereInside(ext, p + 1);
      AfterBoundary(ext, i, j, p + 1);
      assert Adjacent(ext, i + 1);
      WhereIn(ext, i + 1, 0);
    }
  }

  lemma AfterBoundary(ext: seq<Piece>, i: nat, j: nat, q: nat)
    requires i < |ext| && j < |ext| && q == Total(ext[..i + 1]) && Total(ext[..j]) <= q < Total(ext[..j + 1])
    ensures i + 1 < |ext|
  {
    if j <= i {
      TotalGrows(ext, j + 1, i + 1);
    }
  }

  lemma {:induction false} NoGapContiguous(ext: seq<Piece>, o: nat, n: nat, p: nat)
    requires AllNonEmpty(ext) && CrossesNoGap(ext, o, n) && o + n <= Total(ext) && o <= p < o + n
    ensures Where(ext, p) == Where(ext, o) + (p - o)
  {
    if p > o {
      NoGapContiguous(ext, o, n, p - 1);
      NextByte(ext, o, n, p - 1);
    }
  }

  lemma GapBreaks(ext: seq<Piece>, o: nat, n: nat, i: nat)
    requires AllNonEmpty(ext) && Contiguous(ext, o, n) && 0 < i < |ext| && o < Total(ext[..i]) < o + n
    ensures Adjacent(ext, i)
  {
    var b := Total(ext[..i]);
    BoundaryStep(ext, i - 1);
    WhereIn(ext, i, 0);
    WhereIn(ext, i - 1, Size(ext[i - 1]) - 1);
    assert Where(ext, b) == Where(ext, o) + (b - o) && Where(ext, b - 1) == Where(ext, o) + (b - 1 - o);
  }

  /** A range of the partition is contiguous on the device exactly when it crosses no boundary
      between extents that are not adjacent. */
  lemma ContiguousIffNoGap(ext: seq<Piece>, o: nat, n: nat)
    requires AllNonEmpty(ext) && 0 < n && o + n <= Total(ext)
    ensures Contiguous(ext, o, n) <==> CrossesNoGap(ext, o, n)
  {
    if CrossesNoGap(ext, o, n) {
      forall p | o <= p < o + n ensures Where(ext, p) == Where(ext, o) + (p - o) {
        NoGapContiguous(ext, o, n, p);
      }
    }
    if Contiguous(ext, o, n) {
      forall i | 0 < i < |ext| && o < Total(ext[..i]) < o + n ensures Adjacent(ext, i) {
        GapBreaks(ext, o, n, i);
      }
    }
  }

  lemma SectorFits(c: nat, t: nat, size: nat, addr: nat)
    requires t % SECTOR == 0 && size % SECTOR == 0 && addr % SECTOR == 0 && t <= c * SECTOR < t + size
    ensures c * SECTOR + SECTOR <= t + size && (addr + (c * SECTOR - t)) % SECTOR == 0
  {
  }

  /** Extents on device sectors keep each image sector in one piece, on a device sector. */
  lemma SectorWhole(ext: seq<Piece>, c: nat)
    requires AllAligned(ext) && (c + 1) * SECTOR <= Total(ext)
    ensures Where(ext, c * SECTOR) % SECTOR == 0 && Contiguous(ext, c * SECTOR, SECTOR)
  {
    var o := c * SECTOR;
    var i := WhereInside(ext, o);
    assert Aligned(ext[i]);
    EdlFlash.AlignedTotal(ext[..i]);
    BoundaryStep(ext, i);
    SectorFits(c, Total(ext[..i]), Size(ext[i]), Addr(ext[i]));
    InExtent(ext, i, o, SECTOR);
  }

  lemma InExtent(ext: seq<Piece>, i: nat, o: nat, n: nat)
    requires i < |ext| && 0 < n && Total(ext[..i]) <= o && o + n <= Total(ext[..i]) + Size(ext[i])
    ensures Contiguous(ext, o, n)
  {
    WhereIn(ext, i, o - Total(ext[..i]));
    WhereIn(ext, i, o + n - 1 - Total(ext[..i]));
    forall p | o <= p < o + n ensures Where(ext, p) == Where(ext, o) + (p - o) {
      WhereIn(ext, i, p - Total(ext[..i]));
    }
  }

  /** A run is well placed when its sectors follow each other on the device. */
  ghost predicate Placed(ext: seq<Piece>, r: Run) {
    Contiguous(ext, r.start * SECTOR, r.count * SECTOR)
  }

  ghost predicate AllPlaced(ext: seq<Piece>, runs: seq<Run>) {
    forall i :: 0 <= i < |runs| ==> Placed(ext, runs[i])
  }

  /** A run that is not well placed sends one of its sectors to a wrong place. */
  lemma Misplaced(ext: seq<Piece>, r: Run) returns (c: nat)
    requires AllAligned(ext) && r.count > 0 && (r.start + r.count) * SECTOR <= Total(ext) && !Placed(ext, r)
    ensures InRun(r, c) && Where(ext, c * SECTOR) != Where(ext, r.start * SECTOR) + (c - r.start) * SECTOR
  {
    var o := r.start * SECTOR;
    var p :| o <= p < o + r.count * SECTOR && Where(ext, p) != Where(ext, o) + (p - o);
    c := p / SECTOR;
    SectorWhole(ext, c);
    assert Where(ext, p) == Where(ext, c * SECTOR) + (p - c * SECTOR);
  }

  // ------------------------------------------------------------------ well placed runs

  /** The image size and runs fit the partition. */
  ghost predicate RunsFit(runs: seq<Run>, n: nat, total: nat) {
    n * SECTOR <= total && forall i :: 0 <= i < |runs| ==> runs[i].count > 0 && runs[i].start + runs[i].count <= n
  }

  /** A run of the image copied to its place in the contents. */
  function RunPut(c: seq<byte>, img: seq<byte>, r: Run): (d: seq<byte>)
    requires (r.start + r.count) * SECTOR <= |img| <= |c|
    ensures |d| == |c|
  {
    Put(c, r.start * SECTOR, RunData(img, r))
  }

  lemma RunPutAt(c: seq<byte>, img: seq<byte>, r: Run, p: nat)
    requires (r.start + r.count) * SECTOR <= |img| <= |c| && p < |c|
    ensures RunPut(c, img, r)[p] == if InRun(r, p / SECTOR) && p < |img| then img[p] else c[p]
    ensures InRun(r, p / SECTOR) ==> p < |img|
  {
    var o := r.start * SECTOR;
    assert RunData(img, r) == img[o..(r.start + r.count) * SECTOR];
    if InRun(r, p / SECTOR) {
      PutAt(c, o, RunData(img, r), p - o);
    }
  }

  /** The partition's contents after the runs. */
  ghost function Updated(g: seq<byte>, img: seq<byte>, runs: seq<Run>, n: nat): (c: seq<byte>)
    requires |img| == n * SECTOR && RunsFit(runs, n, |g|)
    ensures |c| == |g|
  {
    if runs == [] then g else RunPut(Updated(g, img, runs[..|runs| - 1], n), img, runs[|runs| - 1])
  }

  lemma DataWrites(dev: seq<byte>, ext: seq<Piece>, c: seq<byte>, o: nat, data: seq<byte>)
    requires InDevice(ext, |dev|) && Disjoint(ext) && |c| == Total(ext)
    requires 0 < |data| && Contiguous(ext, o, |data|) && Where(ext, o) % SECTOR == 0
    ensures var ds := DevSector(ext, o);
            && ds.Some? && ds.value * SECTOR == Where(ext, o) && Where(ext, o) + |data| <= |dev|
            && Put(Scatter(dev, ext, c), ds.value * SECTOR, data) == Scatter(dev, ext, Put(c, o, data))
  {
    ScatterUpdate(dev, ext, c, o, data);
  }

  /** One well placed run. */
  lemma RunWrites(dev: seq<byte>, ext: seq<Piece>, img: seq<byte>, c: seq<byte>, r: Run)
    requires InDevice(ext, |dev|) && Disjoint(ext) && AllAligned(ext) && |c| == Total(ext)
    requires 0 < r.count && (r.start + r.count) * SECTOR <= |img| <= |c| && Placed(ext, r)
    ensures var ds := DevSector(ext, r.start * SECTOR);
            && ds.Some? && ds.value * SECTOR + |RunData(img, r)| <= |dev|
            && Put(Scatter(dev, ext, c), ds.value * SECTOR, RunData(img, r)) == Scatter(dev, ext, RunPut(c, img, r))
  {
    SectorWhole(ext, r.start);
    DataWrites(dev, ext, c, r.start * SECTOR, RunData(img, r));
  }

  lemma {:induction false} PlacedWrites(dev: seq<byte>, ext: seq<Piece>, img: seq<byte>, runs: seq<Run>, n: nat)
    requires InDevice(ext, |dev|) && Disjoint(ext) && AllAligned(ext)
    requires |img| == n * SECTOR && RunsFit(runs, n, Total(ext)) && AllPlaced(ext, runs)
    ensures RunsWritten(dev, ext, img, runs) == Some(Scatter(dev, ext, Updated(Gather(dev, ext), img, runs, n)))
  {
    if runs == [] {
      ScatterSelf(dev, ext);
    } else {
      var k := |runs| - 1;
      PlacedWrites(dev, ext, img, runs[..k], n);
      RunWrites(dev, ext, img, Updated(Gather(dev, ext), img, runs[..k], n), runs[k]);
    }
  }

  lemma {:induction false} UpdatedAt(g: seq<byte>, img: seq<byte>, runs: seq<Run>, n: nat, p: nat)
    requires |img| == n * SECTOR && RunsFit(runs, n, |g|) && p < |g|
    ensures p / SECTOR in Members(runs) ==> p < |img| && Updated(g, img, runs, n)[p] == img[p]
    ensures p / SECTOR !in Members(runs) ==> Updated(g, img, runs, n)[p] == g[p]
  {
    if runs != [] {
      var k := |runs| - 1;
      UpdatedAt(g, img, runs[..k], n, p);
      RunPutAt(Updated(g, img, runs[..k], n), img, runs[k], p);
      RangeHas(runs[k], p / SECTOR);
    }
  }

  /** The runs are those of the two images. */
  ghost predicate RunsOf(runs: seq<Run>, a: seq<byte>, b: seq<byte>, n: nat) {
    |a| == |b| == n * SECTOR && Coalesced(runs) && ChangedUpTo(Members(runs), a, b, n)
  }

  /** The device as the delta writer assumes it: the partition starts with the old image. */
  ghost predicate Baseline(dev: seq<byte>, ext: seq<Piece>, a: seq<byte>) {
    InDevice(ext, |dev|) && |a| <= Total(ext) && Gather(dev, ext)[..|a|] == a
  }

  lemma {:induction false} RunsBelow(runs: seq<Run>, n: nat, i: nat)
    requires (forall k :: k in Members(runs) ==> k < n) && Coalesced(runs) && i < |runs|
    ensures runs[i].start + runs[i].count <= n
  {
    var last := runs[i].start + runs[i].count - 1;
    MemberOfRun(runs, last);
    assert InRun(runs[i], last);
  }

  lemma ChangedFits(runs: seq<Run>, a: seq<byte>, b: seq<byte>, n: nat, total: nat)
    requires RunsOf(runs, a, b, n) && n * SECTOR <= total
    ensures RunsFit(runs, n, total)
  {
    forall i | 0 <= i < |runs| ensures runs[i].start + runs[i].count <= n {
      forall k | k in Members(runs) ensures k < n {
        var j :| 0 <= j < |Members(runs)| && Members(runs)[j] == k;
      }
      RunsBelow(runs, n, i);
    }
  }

  lemma UpdatedNewAt(g: seq<byte>, a: seq<byte>, b: seq<byte>, runs: seq<Run>, n: nat, p: nat)
    requires RunsOf(runs, a, b, n) && RunsFit(runs, n, |g|) && g[..|a|] == a && p < |g|
    ensures Updated(g, b, runs, n)[p] == if p < |b| then b[p] else g[p]
  {
    UpdatedAt(g, b, runs, n, p);
    if p < |b| && p / SECTOR !in Members(runs) {
      assert g[p] == g[..|a|][p];
    }
  }

  lemma WholeSectors(b: seq<byte>, g: seq<byte>, n: nat)
    requires |b| == n * SECTOR <= |g|
    ensures EdlFlash.Content(b, g) == b + g[|b|..]
  {
  }

  /** Writing the changed sectors over the old image gives the new one. */
  lemma UpdatedIsNew(g: seq<byte>, a: seq<byte>, b: seq<byte>, runs: seq<Run>, n: nat)
    requires RunsOf(runs, a, b, n) && RunsFit(runs, n, |g|) && g[..|a|] == a
    ensures Updated(g, b, runs, n) == EdlFlash.Content(b, g)
  {
    WholeSectors(b, g, n);
    forall p | 0 <= p < |g| ensures Updated(g, b, runs, n)[p] == (b + g[|b|..])[p] {
      UpdatedNewAt(g, a, b, runs, n, p);
    }
  }

  /** The delta writer leaves this device as a full flash of `b` does. */
  ghost predicate AgreesOn(dev: seq<byte>, ext: seq<Piece>, b: seq<byte>, runs: seq<Run>) {
    && InDevice(ext, |dev|) && |b| + EdlFlash.Pad(|b|) <= Total(ext)
    && RunsWritten(dev, ext, b, runs) == Some(Scatter(dev, ext, EdlFlash.Content(b, Gather(dev, ext))))
  }

  /** When no run crosses a gap between extents, the delta writer leaves the device exactly as a
      full flash of the new image does. */
  lemma DeltaIsFlash(dev: seq<byte>, ext: seq<Piece>, a: seq<byte>, b: seq<byte>, runs: seq<Run>, n: nat)
    requires Disjoint(ext) && AllAligned(ext) && Baseline(dev, ext, a) && RunsOf(runs, a, b, n) && AllPlaced(ext, runs)
    ensures AgreesOn(dev, ext, b, runs)
  {
    ChangedFits(runs, a, b, n, Total(ext));
    PlacedWrites(dev, ext, b, runs, n);
    UpdatedIsNew(Gather(dev, ext), a, b, runs, n);
  }

  // ------------------------------------------------------------------ a run that crosses a gap

  /** An image with 1s in sector `c`, 2s in the other sectors of `cs`, and 0s elsewhere. */
  function Marked(cs: seq<nat>, c: nat, n: nat): seq<byte> {
    seq(n * SECTOR, p requires 0 <= p => if p / SECTOR == c then 1 else if p / SECTOR in cs then 2 else 0)
  }

  lemma MarkedDiffers(cs: seq<nat>, c: nat, n: nat, k: nat)
    requires c in cs && k < n
    ensures Differ(Zeros(n * SECTOR), Marked(cs, c, n), k) <==> k in cs
  {
    var a, b := Zeros(n * SECTOR), Marked(cs, c, n);
    var o := k * SECTOR;
    assert Block(a, k) == a[o..o + SECTOR] && Block(b, k) == b[o..o + SECTOR];
    if k in cs {
      assert Block(a, k)[0] == 0 && Block(b, k)[0] == b[o] != 0;
    } else {
      assert Block(a, k) == Block(b, k);
    }
  }

  lemma MarkedRuns(runs: seq<Run>, c: nat, n: nat, total: nat)
    requires Coalesced(runs) && RunsFit(runs, n, total) && Increasing(Members(runs)) && c in Members(runs)
    ensures RunsOf(runs, Zeros(n * SECTOR), Marked(Members(runs), c, n), n)
  {
    var cs := Members(runs);
    forall k | k in cs ensures k < n {
      MemberOfRun(runs, k);
    }
    forall i | 0 <= i < |cs| ensures cs[i] < n && Differ(Zeros(n * SECTOR), Marked(cs, c, n), cs[i]) {
      assert cs[i] in cs;
      MarkedDiffers(cs, c, n, cs[i]);
    }
    forall k | 0 <= k < n && Differ(Zeros(n * SECTOR), Marked(cs, c, n), k) ensures k in cs {
      MarkedDiffers(cs, c, n, k);
    }
  }

  /** A run other than the one `c` is in, or that one when it misplaces `c`, does not bring a 1
      to `own`. */
  lemma NoOneThere(ext: seq<Piece>, cs: seq<nat>, c: nat, n: nat, own: nat, r: Run, d: seq<byte>)
    requires AllAligned(ext) && n * SECTOR <= Total(ext) && r.count > 0 && r.start + r.count <= n
    requires own % SECTOR == 0 && own < |d| && d[own] != 1
    requires InRun(r, c) ==> Where(ext, r.start * SECTOR) + (c - r.start) * SECTOR != own
    requires var ds := DevSector(ext, r.start * SECTOR);
             ds.Some? && ds.value * SECTOR + |RunData(Marked(cs, c, n), r)| <= |d|
    ensures Put(d, DevSector(ext, r.start * SECTOR).value * SECTOR, RunData(Marked(cs, c, n), r))[own] != 1
  {
    var w, data := Where(ext, r.start * SECTOR), RunData(Marked(cs, c, n), r);
    SectorWhole(ext, r.start);
    if w <= own < w + |data| {
      NotOne(cs, c, n, r, w, own);
    }
    assert DevSector(ext, r.start * SECTOR).value * SECTOR == w;
    PutNot(d, w, data, own);
  }

  lemma PutNot(d: seq<byte>, w: nat, data: seq<byte>, own: nat)
    requires w + |data| <= |d| && own < |d| && d[own] != 1
    requires w <= own < w + |data| ==> data[own - w] != 1
    ensures Put(d, w, data)[own] != 1
  {
    if w <= own < w + |data| {
      PutAt(d, w, data, own - w);
    }
  }

  lemma NotOne(cs: seq<nat>, c: nat, n: nat, r: Run, w: nat, own: nat)
    requires own % SECTOR == 0 && w % SECTOR == 0 && w <= own < w + r.count * SECTOR && r.start + r.count <= n
    requires InRun(r, c) ==> w + (c - r.start) * SECTOR != own
    ensures own - w < |RunData(Marked(cs, c, n), r)| && RunData(Marked(cs, c, n), r)[own - w] != 1
  {
    var k := (own - w) / SECTOR;
    assert own - w == k * SECTOR;
  }

  lemma {:induction false} NeverOne(dev: seq<byte>, ext: seq<Piece>, cs: seq<nat>, c: nat, n: nat, own: nat, runs: seq<Run>)
    requires AllAligned(ext) && RunsFit(runs, n, Total(ext)) && own % SECTOR == 0 && own < |dev| && dev[own] != 1
    requires forall i :: 0 <= i < |runs| && InRun(runs[i], c) ==> Where(ext, runs[i].start * SECTOR) + (c - runs[i].start) * SECTOR != own
    ensures var d := RunsWritten(dev, ext, Marked(cs, c, n), runs); d.Some? ==> d.value[own] != 1
  {
    if runs != [] {
      var k := |runs| - 1;
      NeverOne(dev, ext, cs, c, n, own, runs[..k]);
      if RunsWritten(dev, ext, Marked(cs, c, n), runs).Some? {
        NoOneThere(ext, cs, c, n, own, runs[k], RunsWritten(dev, ext, Marked(cs, c, n), runs[..k]).value);
      }
    }
  }

  lemma ZerosGather(size: nat, ext: seq<Piece>, n: nat)
    requires InDevice(ext, size) && n <= Total(ext)
    ensures Baseline(Zeros(size), ext, Zeros(n))
  {
    forall o | 0 <= o < n ensures Gather(Zeros(size), ext)[o] == 0 {
      GatherAt(Zeros(size), ext, o);
    }
  }

  /** If one run is not well placed there is a device and a pair of images, with exactly these
      changed sectors, for which the delta writer does not do what a full flash does. */
  lemma CrossingFails(ext: seq<Piece>, runs: seq<Run>, n: nat, size: nat, i: nat) returns (a: seq<byte>, b: seq<byte>)
    requires InDevice(ext, size) && Disjoint(ext) && AllAligned(ext) && Coalesced(runs) && RunsFit(runs, n, Total(ext))
    requires Increasing(Members(runs)) && i < |runs| && !Placed(ext, runs[i])
    ensures RunsOf(runs, a, b, n) && Baseline(Zeros(size), ext, a)
    ensures !AgreesOn(Zeros(size), ext, b, runs)
  {
    var c := Misplaced(ext, runs[i]);
    var cs := Members(runs);
    OnlyRun(runs, i, c);
    MemberOfRun(runs, c);
    SectorWhole(ext, c);
    a, b := Zeros(n * SECTOR), Marked(cs, c, n);
    MarkedRuns(runs, c, n, Total(ext));
    ZerosGather(size, ext, n * SECTOR);
    OneMissing(Zeros(size), ext, cs, c, n, runs);
  }

  /** If no run brings sector `c` to its place, the device is not as a full flash leaves it. */
  lemma OneMissing(dev: seq<byte>, ext: seq<Piece>, cs: seq<nat>, c: nat, n: nat, runs: seq<Run>)
    requires InDevice(ext, |dev|) && Disjoint(ext) && AllAligned(ext) && RunsFit(runs, n, Total(ext)) && c < n
    requires Where(ext, c * SECTOR) % SECTOR == 0 && dev == Zeros(|dev|)
    requires forall i :: 0 <= i < |runs| && InRun(runs[i], c) ==>
               Where(ext, runs[i].start * SECTOR) + (c - runs[i].start) * SECTOR != Where(ext, c * SECTOR)
    ensures !AgreesOn(dev, ext, Marked(cs, c, n), runs)
  {
    var b := Marked(cs, c, n);
    assert b[c * SECTOR] == 1;
    WholeSectors(b, Gather(dev, ext), n);
    ScatterAt(dev, ext, EdlFlash.Content(b, Gather(dev, ext)), c * SECTOR);
    NeverOne(dev, ext, cs, c, n, Where(ext, c * SECTOR), runs);
  }

  lemma OnlyRun(runs: seq<Run>, i: nat, c: nat)
    requires Coalesced(runs) && i < |runs| && InRun(runs[i], c)
    ensures forall j :: 0 <= j < |runs| && InRun(runs[j], c) ==> j == i
  {
  }

  /** The delta writer does what the full flash does, for every device and every pair of images
      with these changed sectors. */
  ghost predicate AlwaysAgrees(ext: seq<Piece>, runs: seq<Run>, n: nat, size: nat)
    requires InDevice(ext, size)
  {
    forall dev: seq<byte>, a, b :: |dev| == size && Baseline(dev, ext, a) && RunsOf(runs, a, b, n) && n * SECTOR <= Total(ext) ==>
      AgreesOn(dev, ext, b, runs)
  }

  ghost predicate NoRunCrosses(ext: seq<Piece>, runs: seq<Run>) {
    forall i :: 0 <= i < |runs| ==> CrossesNoGap(ext, runs[i].start * SECTOR, runs[i].count * SECTOR)
  }

  lemma PlacedIffNoCrossing(ext: seq<Piece>, runs: seq<Run>, n: nat)
    requires AllNonEmpty(ext) && RunsFit(runs, n, Total(ext))
    ensures AllPlaced(ext, runs) <==> NoRunCrosses(ext, runs)
  {
    forall i | 0 <= i < |runs|
      ensures Placed(ext, runs[i]) <==> CrossesNoGap(ext, runs[i].start * SECTOR, runs[i].count * SECTOR)
    {
      ContiguousIffNoGap(ext, runs[i].start * SECTOR, runs[i].count * SECTOR);
    }
  }

  lemma PlacedAgrees(ext: seq<Piece>, runs: seq<Run>, n: nat, size: nat)
    requires InDevice(ext, size) && Disjoint(ext) && AllAligned(ext) && AllPlaced(ext, runs)
    ensures AlwaysAgrees(ext, runs, n, size)
  {
    forall dev: seq<byte>, a, b | |dev| == size && Baseline(dev, ext, a) && RunsOf(runs, a, b, n)
      ensures AgreesOn(dev, ext, b, runs)
    {
      DeltaIsFlash(dev, ext, a, b, runs, n);
    }
  }

  lemma NotPlacedDisagrees(ext: seq<Piece>, runs: seq<Run>, n: nat, size: nat)
    requires InDevice(ext, size) && Disjoint(ext) && AllAligned(ext) && Coalesced(runs) && RunsFit(runs, n, Total(ext))
    requires Increasing(Members(runs)) && !AllPlaced(ext, runs)
    ensures !AlwaysAgrees(ext, runs, n, size)
  {
    var i :| 0 <= i < |runs| && !Placed(ext, runs[i]);
    var a, b := CrossingFails(ext, runs, n, size, i);
  }

  /** The delta writer agrees with the full flash, for every device and every pair of images with
      these changed sectors, exactly when no run crosses a boundary between extents that are not
      adjacent on the device. */
  lemma DeltaRefinesFlash(ext: seq<Piece>, runs: seq<Run>, n: nat, size: nat)
    requires InDevice(ext, size) && Disjoint(ext) && AllAligned(ext) && AllNonEmpty(ext)
    requires Coalesced(runs) && RunsFit(runs, n, Total(ext)) && Increasing(Members(runs))
    ensures NoRunCrosses(ext, runs) <==> AlwaysAgrees(ext, runs, n, size)
  {
    PlacedIffNoCrossing(ext, runs, n);
    if AllPlaced(ext, runs) {
      PlacedAgrees(ext, runs, n, size);
    } else {
      NotPlacedDisagrees(ext, runs, n, size);
    }
  }

  /** Two extents in the opposite order on the device: a run over both of them crosses a gap. */
  lemma SwappedExtentsCross()
    ensures var ext := [Piece(8, 8), Piece(0, 8)];
            && Disjoint(ext) && AllAligned(ext) && AllNonEmpty(ext) && Total(ext) == 2 * SECTOR
            && !CrossesNoGap(ext, 0, 2 * SECTOR)
  {
    var ext := [Piece(8, 8), Piece(0, 8)];
    assert ext[..1] == [Piece(8, 8)];
    BoundaryStep(ext, 0);
    BoundaryStep(ext, 1);
    assert ext[..2] == ext && ext[..0] == [];
    assert !Adjacent(ext, 1);
  }
}
