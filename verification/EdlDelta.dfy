/** edl-delta-flash.py: only the sectors in which two images differ are written, neighbouring
    ones in one go. */
module EdlDelta {
  import opened Common
  import opened Bytes
  import opened EdlLayout
  import EdlFlash

  datatype Verdict = SizesDiffer | NoExtents | TooLarge | NothingToDo | TooMuch | Planned | WriteFailed | Done

  /** `count` image sectors from `start` on. */
  datatype Run = Run(start: nat, count: nat)

  // ------------------------------------------------------------------ where an image byte goes

  /** The device sector of an image offset. */
  function DevSector(ext: seq<Piece>, off: nat): Option<nat> {
    if off < Total(ext) then Some(Where(ext, off) / SECTOR) else None
  }

  /** The `super` partition starts at device sector 45576, and so does an extent at its sector 0; every
      eight of its sectors are one of the device's. */
  lemma SuperStart(len: nat, k: nat)
    requires len > 0
    ensures DevSector([Piece(8 * k, len)], 0) == Some(45576 + k)
    ensures EdlFlash.StepFor([Piece(8 * k, len)], 0, 1).sector == 45576 + k
  {
    var ext := [Piece(8 * k, len)];
    assert ext[..0] == [];
    assert SUPER_OFFSET + 8 * k * 512 == 4096 * (45576 + k);
    WhereIn(ext, 0, 0);
  }

  method FindDevSector(ext: seq<Piece>, imgOff: nat) returns (r: Option<nat>)
    ensures r == DevSector(ext, imgOff)
  {
    var pos := 0;
    for i := 0 to |ext|
      invariant pos == Total(ext[..i]) && pos <= imgOff
    {
      var n := ext[i].len * 512;
      assert ext[..i + 1][..i] == ext[..i];
      if imgOff < pos + n {
        WhereIn(ext, i, imgOff - pos);
        return Some((SUPER_OFFSET + ext[i].phys * 512 + (imgOff - pos)) / SECTOR);
      }
      pos := pos + n;
    }
    assert ext[..|ext|] == ext;
    r := None;
  }

  // ------------------------------------------------------------------ the difference

  /** Read sector `k` of an image; the last one may be short. */
  function Block(img: seq<byte>, k: nat): seq<byte> { Slice(img, k * SECTOR, k * SECTOR + SECTOR) }

  function Blocks(size: nat): nat { (size + SECTOR - 1) / SECTOR }

  ghost predicate Differ(a: seq<byte>, b: seq<byte>, k: nat) { Block(a, k) != Block(b, k) }

  /** `cs` lists, in order, exactly the sectors below `n` in which the images differ. */
  ghost predicate ChangedUpTo(cs: seq<nat>, a: seq<byte>, b: seq<byte>, n: nat) {
    && Increasing(cs)
    && (forall i :: 0 <= i < |cs| ==> cs[i] < n && Differ(a, b, cs[i]))
    && (forall k :: 0 <= k < n && Differ(a, b, k) ==> k in cs)
  }

  ghost predicate Increasing(cs: seq<nat>) {
    forall i, j :: 0 <= i < j < |cs| ==> cs[i] < cs[j]
  }

  method Diff(a: seq<byte>, b: seq<byte>) returns (changed: seq<nat>)
    requires |a| == |b|
    ensures ChangedUpTo(changed, a, b, Blocks(|b|))
    ensures forall k: nat :: k in changed <==> SectorDiffers(a, b, k)
  {
    changed := [];
    var idx := 0;
    while idx < Blocks(|b|)
      invariant idx <= Blocks(|b|) && ChangedUpTo(changed, a, b, idx)
    {
      DiffStep(changed, a, b, idx);
      if Block(a, idx) != Block(b, idx) {
        changed := changed + [idx];
      }
      idx := idx + 1;
    }
    ChangedExactly(changed, a, b);
  }

  /** The images differ in some byte of sector `k`. */
  ghost predicate SectorDiffers(a: seq<byte>, b: seq<byte>, k: nat)
    requires |a| == |b|
  {
    exists i :: 4096 * k <= i < 4096 * k + 4096 && i < |b| && a[i] != b[i]
  }

  lemma DifferIff(a: seq<byte>, b: seq<byte>, k: nat)
    requires |a| == |b|
    ensures k < Blocks(|b|) && Differ(a, b, k) <==> SectorDiffers(a, b, k)
  {
    var lo := 4096 * k;
    assert k < Blocks(|b|) <==> lo < |b|;
    if lo < |b| {
      var hi := Min(lo + 4096, |b|);
      assert Block(a, k) == a[lo..hi] && Block(b, k) == b[lo..hi];
      if i :| lo <= i < lo + 4096 && i < |b| && a[i] != b[i] {
        assert a[lo..hi][i - lo] != b[lo..hi][i - lo];
      }
      if a[lo..hi] != b[lo..hi] {
        var j :| 0 <= j < hi - lo && a[lo..hi][j] != b[lo..hi][j];
        assert a[lo + j] != b[lo + j];
      }
    }
  }

  /** The changed sectors are those with a byte that differs, a short last one included. */
  lemma ChangedExactly(cs: seq<nat>, a: seq<byte>, b: seq<byte>)
    requires |a| == |b| && ChangedUpTo(cs, a, b, Blocks(|b|))
    ensures forall k: nat :: k in cs <==> SectorDiffers(a, b, k)
  {
    forall k: nat ensures k in cs <==> SectorDiffers(a, b, k) {
      DifferIff(a, b, k);
    }
  }

  lemma DiffStep(cs: seq<nat>, a: seq<byte>, b: seq<byte>, n: nat)
    requires ChangedUpTo(cs, a, b, n)
    ensures ChangedUpTo(if Differ(a, b, n) then cs + [n] else cs, a, b, n + 1)
  {
  }

  // ------------------------------------------------------------------ runs

  predicate InRun(r: Run, k: nat) { r.start <= k < r.start + r.count }

  /** The sectors of the runs, in order. */
  function Members(runs: seq<Run>): seq<nat> {
    if runs == [] then [] else Members(runs[..|runs| - 1]) + Range(runs[|runs| - 1].start, runs[|runs| - 1].count)
  }

  function Range(start: nat, n: nat): (s: seq<nat>)
    ensures |s| == n && forall i :: 0 <= i < n ==> s[i] == start + i
  {
    seq(n, i requires 0 <= i < n => start + i)
  }

  /** Runs are not empty and no two could have been one. */
  ghost predicate Coalesced(runs: seq<Run>) {
    && (forall i :: 0 <= i < |runs| ==> runs[i].count > 0)
    && (forall i, j :: 0 <= i < j < |runs| ==> runs[i].start + runs[i].count < runs[j].start)
  }

  ghost predicate Before(runs: seq<Run>, s: nat) {
    forall i :: 0 <= i < |runs| ==> runs[i].start + runs[i].count < s
  }

  /** The fewest contiguous runs with exactly the changed sectors. */
  method Coalesce(changed: seq<nat>) returns (runs: seq<Run>)
    requires changed != [] && Increasing(changed)
    ensures Members(runs) == changed && Coalesced(runs)
  {
    runs := [];
    var s, prev := changed[0], changed[0];
    FirstRun(changed);
    for i := 1 to |changed|
      invariant s <= prev == changed[i - 1] && Open(runs, s, prev, changed[..i])
    {
      var c := changed[i];
      assert changed[..i + 1] == changed[..i] + [c];
      OpenStep(runs, s, prev, changed[..i], c);
      if c == prev + 1 {
        prev := c;
      } else {
        runs := runs + [Run(s, prev - s + 1)];
        s, prev := c, c;
      }
    }
    NewRun(runs, Run(s, prev - s + 1), prev + 2);
    runs := runs + [Run(s, prev - s + 1)];
    assert changed[..|changed|] == changed;
  }

  /** The closed runs and the open one from `s` to `prev` have the members `done`. */
  ghost predicate Open(runs: seq<Run>, s: nat, prev: nat, done: seq<nat>) {
    s <= prev && Members(runs + [Run(s, prev - s + 1)]) == done && Coalesced(runs) && Before(runs, s)
  }

  lemma FirstRun(changed: seq<nat>)
    requires changed != []
    ensures Open([], changed[0], changed[0], changed[..1])
  {
    MembersSnoc([], Run(changed[0], 1));
  }

  lemma OpenStep(runs: seq<Run>, s: nat, prev: nat, done: seq<nat>, c: nat)
    requires Open(runs, s, prev, done) && prev < c
    ensures if c == prev + 1 then Open(runs, s, c, done + [c]) else Open(runs + [Run(s, prev - s + 1)], c, c, done + [c])
  {
    if c == prev + 1 {
      LastLonger(runs, s, prev - s + 1);
    } else {
      NewRun(runs, Run(s, prev - s + 1), c);
    }
  }

  lemma LastLonger(runs: seq<Run>, s: nat, n: nat)
    ensures Members(runs + [Run(s, n + 1)]) == Members(runs + [Run(s, n)]) + [s + n]
  {
    MembersSnoc(runs, Run(s, n + 1));
    MembersSnoc(runs, Run(s, n));
    assert Range(s, n + 1) == Range(s, n) + [s + n];
  }

  /** Closing a run and starting one at `c`. */
  lemma NewRun(runs: seq<Run>, r: Run, c: nat)
    requires Coalesced(runs) && Before(runs, r.start) && r.count > 0 && r.start + r.count < c
    ensures Coalesced(runs + [r]) && Before(runs + [r], c)
    ensures Members(runs + [r] + [Run(c, 1)]) == Members(runs + [r]) + [c]
  {
    MembersSnoc(runs + [r], Run(c, 1));
    assert Range(c, 1) == [c];
  }

  lemma MembersSnoc(runs: seq<Run>, r: Run)
    ensures Members(runs + [r]) == Members(runs) + Range(r.start, r.count)
  {
    assert (runs + [r])[..|runs|] == runs;
  }

  lemma RangeHas(r: Run, k: nat)
    ensures k in Range(r.start, r.count) <==> InRun(r, k)
  {
    if InRun(r, k) {
      assert Range(r.start, r.count)[k - r.start] == k;
    }
  }

  lemma {:induction false} MemberOfRun(runs: seq<Run>, k: nat)
    ensures k in Members(runs) <==> exists i :: 0 <= i < |runs| && InRun(runs[i], k)
  {
    if runs != [] {
      var n := |runs| - 1;
      MemberOfRun(runs[..n], k);
      RangeHas(runs[n], k);
      if i :| 0 <= i < |runs| && InRun(runs[i], k) {
        assert i < n ==> runs[..n][i] == runs[i];
      }
    }
  }

  // ------------------------------------------------------------------ writing

  function RunData(img: seq<byte>, r: Run): seq<byte> {
    Slice(img, r.start * SECTOR, (r.start + r.count) * SECTOR)
  }

  /** The device after one run; none if the run does not end on the device. */
  function RunWritten(d: seq<byte>, ext: seq<Piece>, img: seq<byte>, r: Run): (o: Option<seq<byte>>)
    ensures o.Some? ==> |o.value| == |d|
  {
    var ds := DevSector(ext, r.start * SECTOR);
    if ds.None? || ds.value * SECTOR + |RunData(img, r)| > |d| then None
    else Some(Put(d, ds.value * SECTOR, RunData(img, r)))
  }

  function RunsWritten(dev: seq<byte>, ext: seq<Piece>, img: seq<byte>, runs: seq<Run>): (o: Option<seq<byte>>)
    ensures o.Some? ==> |o.value| == |dev|
  {
    if runs == [] then Some(dev)
    else
      var before := RunsWritten(dev, ext, img, runs[..|runs| - 1]);
      if before.None? then None else RunWritten(before.value, ext, img, runs[|runs| - 1])
  }

  method WriteRun(dev: array<byte>, ext: seq<Piece>, img: seq<byte>, r: Run) returns (ok: bool)
    modifies dev
    ensures ok <==> RunWritten(old(dev[..]), ext, img, r).Some?
    ensures ok ==> RunWritten(old(dev[..]), ext, img, r) == Some(dev[..])
  {
    var data := Slice(img, r.start * SECTOR, (r.start + r.count) * SECTOR);
    var ds := FindDevSector(ext, r.start * SECTOR);
    if ds.None? || ds.value * SECTOR + |data| > dev.Length {
      return false;
    }
    Store(dev, ds.value * SECTOR, data);
    ok := true;
  }

  method WriteRuns(dev: array<byte>, ext: seq<Piece>, img: seq<byte>, runs: seq<Run>) returns (ok: bool)
    modifies dev
    ensures ok <==> RunsWritten(old(dev[..]), ext, img, runs).Some?
    ensures ok ==> RunsWritten(old(dev[..]), ext, img, runs) == Some(dev[..])
  {
    for i := 0 to |runs|
      invariant RunsWritten(old(dev[..]), ext, img, runs[..i]) == Some(dev[..])
    {
      assert runs[..i + 1][..i] == runs[..i];
      ok := WriteRun(dev, ext, img, runs[i]);
      if !ok {
        StopsThere(old(dev[..]), ext, img, runs, i + 1);
        return;
      }
    }
    assert runs[..|runs|] == runs;
    ok := true;
  }

  lemma {:induction false} StopsThere(dev: seq<byte>, ext: seq<Piece>, img: seq<byte>, runs: seq<Run>, n: nat)
    requires n <= |runs| && RunsWritten(dev, ext, img, runs[..n]).None?
    ensures RunsWritten(dev, ext, img, runs).None?
  {
    if n < |runs| {
      assert runs[..|runs| - 1][..n] == runs[..n];
      StopsThere(dev, ext, img, runs[..|runs| - 1], n);
    } else {
      assert runs[..n] == runs;
    }
  }

  /** edl-delta-flash.py: the whole program. */
  method Delta(dev: array<byte>, a: seq<byte>, b: seq<byte>, ext: seq<Piece>, maxPct: int, go: bool)
    returns (v: Verdict, changed: seq<nat>, runs: seq<Run>)
    modifies dev
    ensures v == SizesDiffer <==> |a| != |b|
    ensures v == NoExtents <==> |a| == |b| && ext == []
    ensures v == TooLarge <==> |a| == |b| && ext != [] && |b| > Total(ext)
    ensures var compared := |a| == |b| <= Total(ext) && ext != [];
            var many := 100 * |changed| > maxPct * Max(1, |b| / SECTOR);
            && (compared ==> ChangedUpTo(changed, a, b, Blocks(|b|)))
            && (v == NothingToDo <==> compared && changed == [])
            && (v == TooMuch <==> compared && changed != [] && many)
            && (v == Planned <==> compared && changed != [] && !many && !go)
            && (v in {WriteFailed, Done} <==> compared && changed != [] && !many && go)
    ensures v in {Planned, WriteFailed, Done} ==> Members(runs) == changed && Coalesced(runs)
    ensures v !in {WriteFailed, Done} ==> dev[..] == old(dev[..])
    ensures v == WriteFailed ==> RunsWritten(old(dev[..]), ext, b, runs).None?
    ensures v == Done ==> RunsWritten(old(dev[..]), ext, b, runs) == Some(dev[..])
  {
    changed, runs := [], [];
    if |a| != |b| {
      return SizesDiffer, changed, runs;
    }
    if ext == [] {
      return NoExtents, changed, runs;
    }
    var total := EdlFlash.TotalBytes(ext);
    if |b| > total {
      return TooLarge, changed, runs;
    }
    changed := Diff(a, b);
    if changed == [] {
      return NothingToDo, changed, runs;
    }
    if 100 * |changed| > maxPct * Max(1, |b| / SECTOR) {
      return TooMuch, changed, runs;
    }
    runs := Coalesce(changed);
    if !go {
      return Planned, changed, runs;
    }
    var ok := WriteRuns(dev, ext, b, runs);
    v := if ok then Done else WriteFailed;
  }
}
