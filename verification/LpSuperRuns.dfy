/** What runs of lp-resize-partition.py do to the head of `super`: which bytes change, what the
    metadata means afterwards, and what any number of runs keeps. */
module LpSuperRuns {
  import opened Bytes
  import opened LpAllocator
  import opened LpMetadata
  import opened LpResize
  import opened LpSuper

  // ------------------------------------------------------------------ one copy

  /** A copy that patch_slot renewed means the layout grown by the allocator, and verifies. */
  lemma CopyGrown(m: seq<byte>, target: seq<byte>, bytes: int, sha: Hash, blob: seq<byte>)
    requires Get32Is(m, HEADER_MAGIC) && WellFormed(m) && Sized(Load(m))
    requires Patch(m, target, bytes, sha) == Patched(blob) && |blob| <= |m|
    ensures Holds(Padded(blob, |m|), Grown(Meaning(Load(m)), target, bytes), sha)
  {
    PatchedBlock(m, target, bytes, sha, blob, Zeros(|m| - |blob|));
  }

  ghost predicate Get32Is(m: seq<byte>, v: nat) { HEADER_MIN <= |m| && Get32(m, 0) == v }

  /** A copy holds valid metadata that means `l`. */
  ghost predicate Means(m: seq<byte>, l: Layout) {
    Get32Is(m, HEADER_MAGIC) && WellFormed(m) && Sized(Load(m)) && Meaning(Load(m)) == l
  }

  ghost predicate Headerless(m: seq<byte>) {
    HEADER_MIN <= |m| && Get32(m, 0) != HEADER_MAGIC
  }

  /** Whenever a copy is not refused, it afterwards means its old layout grown by the allocator,
      its checksums verify if it was rewritten, and a copy without a header is left alone. */
  lemma CopyMeaning(m: seq<byte>, l: Layout, target: seq<byte>, bytes: int, sha: Hash, f: Patching)
    requires Patches(f, target, bytes, sha) && Means(m, l) && CopyResized(m, f).Written?
    ensures CopyMeans(m, CopyResized(m, f), Grown(l, target, bytes), sha)
  {
    PatchMeans(m, l, target, bytes, sha, Patch(m, target, bytes, sha));
  }

  ghost predicate CopyMeans(m: seq<byte>, r: Report, grown: Layout, sha: Hash) {
    r.Written? && Means(r.image, grown) && (r.copies == 0 ==> r.image == m) && (r.copies != 0 ==> Sound(r.image) && ChecksumsVerify(r.image, sha))
  }

  lemma PatchMeans(m: seq<byte>, l: Layout, target: seq<byte>, bytes: int, sha: Hash, o: Outcome)
    requires Means(m, l) && o == Patch(m, target, bytes, sha) && CopyAfter(m, o).Written?
    ensures CopyMeans(m, CopyAfter(m, o), Grown(l, target, bytes), sha)
  {
    if o.Patched? {
      CopyGrown(m, target, bytes, sha, o.blob);
    } else {
      NotPatched(m, l, target, bytes, sha, o);
    }
  }

  lemma NotPatched(m: seq<byte>, l: Layout, target: seq<byte>, bytes: int, sha: Hash, o: Outcome)
    requires Means(m, l) && o == Patch(m, target, bytes, sha) && CopyAfter(m, o).Written? && !o.Patched?
    ensures o == Satisfied && Grown(l, target, bytes) == l
  {
  }

  lemma CopySkipped(m: seq<byte>, target: seq<byte>, bytes: int, sha: Hash, f: Patching)
    requires Patches(f, target, bytes, sha) && Headerless(m)
    ensures CopyResized(m, f) == Written(m, 0)
  {
    assert f(m) == Patch(m, target, bytes, sha);
  }

  /** Every copy a run leaves is one a second run, for the same size or less, does not touch. */
  lemma CopyAgain(m: seq<byte>, target: seq<byte>, bytes: int, again: int, sha: Hash, f: Patching, g: Patching)
    requires Patches(f, target, bytes, sha) && Patches(g, target, again, sha) && again <= bytes
    requires Usable(m) && CopyResized(m, f).Written?
    ensures CopyResized(CopyResized(m, f).image, g) == Written(CopyResized(m, f).image, 0)
  {
    if Get32(m, 0) != HEADER_MAGIC {
      CopySkipped(m, target, bytes, sha, f);
      CopySkipped(m, target, again, sha, g);
    } else {
      LoadSized(m);
      GrownAgain(m, Meaning(Load(m)), target, bytes, again, sha, f, g);
    }
  }

  lemma GrownAgain(m: seq<byte>, l: Layout, target: seq<byte>, bytes: int, again: int, sha: Hash, f: Patching, g: Patching)
    requires Patches(f, target, bytes, sha) && Patches(g, target, again, sha) && again <= bytes
    requires Means(m, l) && CopyResized(m, f).Written?
    ensures CopyResized(CopyResized(m, f).image, g) == Written(CopyResized(m, f).image, 0)
  {
    CopyMeaning(m, l, target, bytes, sha, f);
    NotRefused(m, l, target, bytes, sha, f);
    EnoughAgain(l, target, bytes, again);
    CopySatisfied(CopyResized(m, f).image, Grown(l, target, bytes), target, again, sha, g);
  }

  lemma NotRefused(m: seq<byte>, l: Layout, target: seq<byte>, bytes: int, sha: Hash, f: Patching)
    requires Patches(f, target, bytes, sha) && Means(m, l) && CopyResized(m, f).Written?
    ensures !Grow(l, target, bytes).Refused?
  {
    assert f(m) == Patch(m, target, bytes, sha);
  }

  lemma EnoughAgain(l: Layout, target: seq<byte>, bytes: int, again: int)
    requires !Grow(l, target, bytes).Refused? && again <= bytes
    ensures Grow(Grown(l, target, bytes), target, again) == Enough
  {
    if Grow(l, target, bytes).Added? {
      ResizeAgainIsNoOp(l, target, bytes, again);
    }
  }

  lemma CopySatisfied(m: seq<byte>, l: Layout, target: seq<byte>, bytes: int, sha: Hash, f: Patching)
    requires Patches(f, target, bytes, sha) && Means(m, l) && Grow(l, target, bytes) == Enough
    ensures CopyResized(m, f) == Written(m, 0)
  {
    assert f(m) == Patch(m, target, bytes, sha);
  }

  // ------------------------------------------------------------------ one run

  /** A run that writes is the two copies written one after the other. */
  lemma TwoWrites(d: seq<byte>, slot: nat, f: Patching) returns (a: seq<byte>, b: seq<byte>)
    requires META_BASE <= |d| && Resize(d, slot, f).Written?
    ensures Whole(d) && slot < SlotCount(d)
    ensures InImage(d, slot, MaxSize(d)) && InImage(d, SlotCount(d) + slot, MaxSize(d))
    ensures CopyResized(Region(d, slot, MaxSize(d)), f).Written? && a == CopyResized(Region(d, slot, MaxSize(d)), f).image
    ensures var m := Region(d, SlotCount(d) + slot, MaxSize(d)); CopyResized(m, f).Written? && b == CopyResized(m, f).image
    ensures |a| == |b| == MaxSize(d)
    ensures Resize(d, slot, f).image
            == WithRegion(WithRegion(d, slot, MaxSize(d), a), SlotCount(d) + slot, MaxSize(d), b)
  {
    RegionInImage(d, slot, 2 * SlotCount(d), MaxSize(d));
    RegionInImage(d, SlotCount(d) + slot, 2 * SlotCount(d), MaxSize(d));
    a := CopyResized(Region(d, slot, MaxSize(d)), f).image;
    b := CopyResized(Region(d, SlotCount(d) + slot, MaxSize(d)), f).image;
  }

  /** A run changes its slot's two regions and nothing else: length, geometry, every other slot
      and everything behind the metadata stay. */
  lemma SlotIsolated(d: seq<byte>, slot: nat, f: Patching, q: nat)
    requires META_BASE <= |d| && Resize(d, slot, f).Written? && q < 2 * SlotCount(d)
    ensures var out := Resize(d, slot, f).image; var max, count := MaxSize(d), SlotCount(d);
            && Whole(d) && slot < count && InImage(d, q, max)
            && |out| == |d| && out[..META_BASE] == d[..META_BASE]
            && Whole(out) && MaxSize(out) == max && SlotCount(out) == count && InImage(out, q, max)
            && (q == slot || q == count + slot ==>
                  CopyResized(Region(d, q, max), f).Written? && Region(out, q, max) == CopyResized(Region(d, q, max), f).image)
            && (q != slot && q != count + slot ==> Region(out, q, max) == Region(d, q, max))
            && out[META_BASE + Span(2 * count, max)..] == d[META_BASE + Span(2 * count, max)..]
  {
    var a, b := TwoWrites(d, slot, f);
    var max, count := MaxSize(d), SlotCount(d);
    RegionInImage(d, q, 2 * count, max);
    TwoRegions(d, slot, count, max, a, b, q);
    GeometrySame(d, Resize(d, slot, f).image);
  }

  lemma TwoRegions(d: seq<byte>, slot: nat, count: nat, max: nat, a: seq<byte>, b: seq<byte>, q: nat)
    requires slot < count && InImage(d, slot, max) && InImage(d, count + slot, max) && InImage(d, q, max)
    requires META_BASE + Span(2 * count, max) <= |d| && |a| == |b| == max
    ensures var out := WithRegion(WithRegion(d, slot, max, a), count + slot, max, b);
            && |out| == |d| && out[..META_BASE] == d[..META_BASE] && InImage(out, q, max)
            && Region(out, q, max) == (if q == count + slot then b else if q == slot then a else Region(d, q, max))
            && out[META_BASE + Span(2 * count, max)..] == d[META_BASE + Span(2 * count, max)..]
  {
    var mid := WithRegion(d, slot, max, a);
    RegionWritten(d, slot, max, a, q);
    RegionWritten(mid, count + slot, max, b, q);
    BehindSame(d, slot, 2 * count, max, a);
    BehindSame(mid, count + slot, 2 * count, max, b);
  }

  lemma GeometrySame(d: seq<byte>, out: seq<byte>)
    requires Whole(d) && |out| == |d| && out[..META_BASE] == d[..META_BASE]
    ensures Whole(out) && MaxSize(out) == MaxSize(d) && SlotCount(out) == SlotCount(d)
  {
    Get32Same(d, out, META_BASE, GEOMETRY_OFFSET);
    Get32Same(d, out, META_BASE, GEOMETRY_OFFSET + 40);
    Get32Same(d, out, META_BASE, GEOMETRY_OFFSET + 44);
  }

  lemma BehindSame(d: seq<byte>, r: nat, n: nat, max: nat, now: seq<byte>)
    requires r < n && META_BASE + Span(n, max) <= |d| && InImage(d, r, max) && |now| == max
    ensures WithRegion(d, r, max, now)[META_BASE + Span(n, max)..] == d[META_BASE + Span(n, max)..]
  {
    SpanGrows(r + 1, n, max);
    PutElsewhere(d, Base(r, max), now, META_BASE + Span(n, max), |d|);
  }

  lemma RegionAfter(d: seq<byte>, slot: nat, f: Patching, q: nat, max: nat, count: nat)
    requires META_BASE <= |d| && Resize(d, slot, f).Written? && max == MaxSize(d) && count == SlotCount(d) && q < 2 * count
    requires InImage(d, q, max)
    ensures var out := Resize(d, slot, f).image;
            InImage(out, q, max)
            && Region(out, q, max) == if q == slot || q == count + slot then CopyResized(Region(d, q, max), f).image else Region(d, q, max)
  {
    SlotIsolated(d, slot, f, q);
  }

  /** Copies that agreed before a run agree after it. */
  lemma CopiesStayEqual(d: seq<byte>, slot: nat, f: Patching, other: nat, max: nat, count: nat)
    requires META_BASE <= |d| && Resize(d, slot, f).Written? && max == MaxSize(d) && count == SlotCount(d) && other < count
    requires InImage(d, other, max) && InImage(d, count + other, max)
    requires Region(d, other, max) == Region(d, count + other, max)
    ensures var out := Resize(d, slot, f).image;
            && InImage(out, other, max) && InImage(out, count + other, max)
            && Region(out, other, max) == Region(out, count + other, max)
  {
    RegionAfter(d, slot, f, other, max, count);
    RegionAfter(d, slot, f, count + other, max, count);
  }

  /** The second run at the same size, or a smaller one, finds nothing to patch. */
  lemma SecondRunIsNoOp(d: seq<byte>, slot: nat, target: seq<byte>, bytes: int, again: int, sha: Hash, f: Patching, g: Patching)
    requires Ready(d, slot) && Patches(f, target, bytes, sha) && Patches(g, target, again, sha) && again <= bytes
    requires Resize(d, slot, f).Written?
    ensures Resize(Resize(d, slot, f).image, slot, g) == Halted(NothingPatched)
  {
    var out := Resize(d, slot, f).image;
    SlotRenewed(d, slot, f, out);
    AgainAt(d, out, slot, slot, target, bytes, again, sha, f, g);
    AgainAt(d, out, slot, SlotCount(d) + slot, target, bytes, again, sha, f, g);
    NothingToPatch(out, slot, g);
  }

  /** Region `q` of `out` is that of `d` patched. */
  ghost predicate Renewed(d: seq<byte>, out: seq<byte>, q: nat, max: nat, f: Patching) {
    && InImage(d, q, max) && InImage(out, q, max)
    && CopyResized(Region(d, q, max), f).Written? && Region(out, q, max) == CopyResized(Region(d, q, max), f).image
  }

  ghost predicate Unpatched(d: seq<byte>, q: nat, max: nat, g: Patching) {
    InImage(d, q, max) && CopyResized(Region(d, q, max), g) == Written(Region(d, q, max), 0)
  }

  lemma SlotRenewed(d: seq<byte>, slot: nat, f: Patching, out: seq<byte>)
    requires META_BASE <= |d| && Resize(d, slot, f).Written? && out == Resize(d, slot, f).image
    ensures Whole(d) && slot < SlotCount(d) && Whole(out) && MaxSize(out) == MaxSize(d) && SlotCount(out) == SlotCount(d)
    ensures Renewed(d, out, slot, MaxSize(d), f) && Renewed(d, out, SlotCount(d) + slot, MaxSize(d), f)
  {
    var a, b := TwoWrites(d, slot, f);
    SlotIsolated(d, slot, f, slot);
    SlotIsolated(d, slot, f, SlotCount(d) + slot);
  }

  lemma AgainAt(d: seq<byte>, out: seq<byte>, slot: nat, q: nat, target: seq<byte>, bytes: int, again: int, sha: Hash, f: Patching, g: Patching)
    requires META_BASE <= |d| && Whole(d) && slot < SlotCount(d) && Ready(d, slot) && CopyOf(q, slot, SlotCount(d))
    requires Patches(f, target, bytes, sha) && Patches(g, target, again, sha) && again <= bytes
    requires Renewed(d, out, q, MaxSize(d), f)
    ensures Unpatched(out, q, MaxSize(d), g)
  {
    CopyAgain(Region(d, q, MaxSize(d)), target, bytes, again, sha, f, g);
  }

  lemma NothingToPatch(d: seq<byte>, slot: nat, g: Patching)
    requires META_BASE <= |d| && Whole(d) && slot < SlotCount(d)
    requires Unpatched(d, slot, MaxSize(d), g) && Unpatched(d, SlotCount(d) + slot, MaxSize(d), g)
    ensures Resize(d, slot, g) == Halted(NothingPatched)
  {
  }

  // ------------------------------------------------------------------ which runs stop, and why

  function ExtentCount(parts: seq<Partition>): nat {
    if parts == [] then 0 else ExtentCount(parts[..|parts| - 1]) + |parts[|parts| - 1].extents|
  }

  /** The bytes of the new block: the header, and the tables with one more extent. */
  function BlockSize(h: Header, extents: nat): nat {
    h.size + Span(h.parts.num, h.parts.size) + Span(extents + 1, h.exts.size) + Span(h.groups.num, h.groups.size)
    + Span(h.devs.num, h.devs.size)
  }

  lemma {:induction false} FlatCount(parts: seq<seq<byte>>, plan: seq<seq<seq<byte>>>)
    requires AllAtLeast(parts, 52) && |plan| == |parts| && RunsAtLeast(plan)
    ensures |Flat(plan)| == ExtentCount(PartitionsOf(parts, plan))
  {
    if parts != [] {
      FlatCount(parts[..|parts| - 1], plan[..|parts| - 1]);
    }
  }

  lemma {:induction false} FlatGrown(plan: seq<seq<seq<byte>>>, idx: nat, x: seq<byte>)
    requires idx < |plan|
    ensures |Flat(plan[idx := plan[idx] + [x]])| == |Flat(plan)| + 1
  {
    var n := |plan| - 1;
    var grown := plan[idx := plan[idx] + [x]];
    if idx < n {
      assert grown[..n] == plan[..n][idx := plan[..n][idx] + [x]];
      FlatGrown(plan[..n], idx, x);
    } else {
      assert grown[..n] == plan[..n];
    }
  }

  lemma BlockSizeIs(m: seq<byte>, idx: nat, e: Extent)
    requires WellFormed(m) && Sized(Load(m)) && idx < |Load(m).parts|
    ensures ReadHeader(m).size + |TablesWith(m, idx, e)| == BlockSize(ReadHeader(m), ExtentCount(Meaning(Load(m)).parts))
  {
    var r, h := Load(m), ReadHeader(m);
    PlanSized(r.parts, r.exts);
    FlatCount(r.parts, Plan(r.parts, r.exts));
    FlatGrown(Plan(r.parts, r.exts), idx, NewExtent(h.exts.size, e));
    TablesTile(m, idx, e);
  }

  /** What becomes of a copy, by its layout: nothing if the allocator finds enough, a refusal if it
      refuses, and otherwise a new block, unless that is too long for the region or for 32 bits. */
  lemma CopyOutcome(m: seq<byte>, l: Layout, target: seq<byte>, bytes: int, sha: Hash, f: Patching)
    requires Patches(f, target, bytes, sha) && Means(m, l)
    ensures var g, r, n := Grow(l, target, bytes), CopyResized(m, f), BlockSize(ReadHeader(m), ExtentCount(l.parts));
            && (g == Enough <==> f(m) == Satisfied) && (g == Enough <==> r == Written(m, 0))
            && (g.Refused? ==> r == Halted(Refusal(g.why)))
            && (g.Added? ==> if n - ReadHeader(m).size >= 0x1_0000_0000 then r == Halted(PackError)
                             else if n > |m| then r == Halted(TooBig) else r.Written? && r.copies == 1)
  {
    var g := Grow(l, target, bytes);
    assert f(m) == Patch(m, target, bytes, sha);
    OutcomeOf(m, l, g, sha);
    AfterOutcome(m, g, f(m), BlockSize(ReadHeader(m), ExtentCount(l.parts)), ReadHeader(m).size);
  }

  lemma AfterOutcome(m: seq<byte>, g: Growth, o: Outcome, n: nat, head: nat)
    requires (g == Enough ==> o == Satisfied) && (g.Refused? ==> o == Died(g.why))
    requires g.Added? ==> if n - head >= 0x1_0000_0000 then o == Overflow else o.Patched? && |o.blob| == n
    ensures var r := CopyAfter(m, o);
            && (g == Enough <==> o == Satisfied) && (g == Enough <==> r == Written(m, 0))
            && (g.Refused? ==> r == Halted(Refusal(g.why)))
            && (g.Added? ==> if n - head >= 0x1_0000_0000 then r == Halted(PackError)
                             else if n > |m| then r == Halted(TooBig) else r.Written? && r.copies == 1)
  {
  }

  lemma OutcomeOf(m: seq<byte>, l: Layout, g: Growth, sha: Hash)
    requires Means(m, l) && (g.Added? ==> g.idx < |l.parts|)
    ensures var o, n := PatchBy(m, g, sha), BlockSize(ReadHeader(m), ExtentCount(l.parts));
            && (g == Enough <==> o == Satisfied) && (g.Refused? <==> o.Died?) && (g.Refused? ==> o == Died(g.why))
            && (g.Added? ==> if n - ReadHeader(m).size >= 0x1_0000_0000 then o == Overflow
                             else o.Patched? && |o.blob| == n)
  {
    if g.Added? {
      BlockSizeIs(m, g.idx, g.extent);
    }
  }

  /** A rewritten copy is the new block and then nothing but zeros. */
  lemma RestZeroed(m: seq<byte>, l: Layout, target: seq<byte>, bytes: int, sha: Hash, f: Patching)
    requires Patches(f, target, bytes, sha) && Means(m, l) && CopyResized(m, f).Written? && CopyResized(m, f).copies == 1
    ensures var image, n := CopyResized(m, f).image, BlockSize(ReadHeader(m), ExtentCount(l.parts));
            && f(m).Patched? && |f(m).blob| == n <= |image| == |m| && image[..n] == f(m).blob
            && forall k :: n <= k < |image| ==> image[k] == 0
  {
    assert f(m) == Patch(m, target, bytes, sha);
    OutcomeOf(m, l, Grow(l, target, bytes), sha);
  }

  /** A copy the run leaves alone: no metadata in it, or the partition holds enough already. */
  ghost predicate Idle(m: seq<byte>, target: seq<byte>, bytes: int) {
    Headerless(m) ||
    exists l: Layout, i: nat :: Means(m, l) && GoodDevice(l) && LastNamed(l.parts, target, i) && bytes <= 512 * Sectors(l.parts[i].extents)
  }

  lemma IdleExactly(m: seq<byte>, target: seq<byte>, bytes: int, sha: Hash, f: Patching)
    requires Patches(f, target, bytes, sha) && Usable(m)
    ensures CopyResized(m, f) == Written(m, 0) <==> Idle(m, target, bytes)
  {
    if Get32(m, 0) != HEADER_MAGIC {
      CopySkipped(m, target, bytes, sha, f);
    } else {
      LoadSized(m);
      IdleMeant(m, Meaning(Load(m)), target, bytes, sha, f);
    }
  }

  lemma IdleMeant(m: seq<byte>, l: Layout, target: seq<byte>, bytes: int, sha: Hash, f: Patching)
    requires Patches(f, target, bytes, sha) && Means(m, l)
    ensures CopyResized(m, f) == Written(m, 0) <==> Idle(m, target, bytes)
  {
    CopyOutcome(m, l, target, bytes, sha, f);
    RefusedExactly(l, target, bytes);
    FindsLast(l.parts, target);
    var i := Find(l.parts, target);
    if GoodDevice(l) && i >= 0 {
      OutcomeExactly(l, target, bytes, i);
    }
    if Grow(l, target, bytes) == Enough {
      assert Means(m, l) && GoodDevice(l) && LastNamed(l.parts, target, i);
    }
    if Idle(m, target, bytes) {
      var k, j: nat :| Means(m, k) && GoodDevice(k) && LastNamed(k.parts, target, j) && bytes <= 512 * Sectors(k.parts[j].extents);
      OutcomeExactly(k, target, bytes, j);
    }
  }

  /** A run has nothing to patch exactly if both copies of the slot are left alone. */
  lemma NothingExactly(d: seq<byte>, slot: nat, target: seq<byte>, bytes: int, sha: Hash, f: Patching)
    requires Ready(d, slot) && Patches(f, target, bytes, sha) && Whole(d) && slot < SlotCount(d)
    requires InImage(d, slot, MaxSize(d)) && InImage(d, SlotCount(d) + slot, MaxSize(d))
    ensures Resize(d, slot, f) == Halted(NothingPatched)
            <==> Idle(Region(d, slot, MaxSize(d)), target, bytes) && Idle(Region(d, SlotCount(d) + slot, MaxSize(d)), target, bytes)
  {
    var a, b := Region(d, slot, MaxSize(d)), Region(d, SlotCount(d) + slot, MaxSize(d));
    assert CopyOf(slot, slot, SlotCount(d)) && CopyOf(SlotCount(d) + slot, slot, SlotCount(d));
    IdleExactly(a, target, bytes, sha, f);
    IdleExactly(b, target, bytes, sha, f);
    NeverNothing(a, target, bytes, sha, f);
    NeverNothing(b, target, bytes, sha, f);
    NothingWhen(d, slot, f, CopyResized(a, f), CopyResized(b, f));
  }

  lemma NeverNothing(m: seq<byte>, target: seq<byte>, bytes: int, sha: Hash, f: Patching)
    ensures CopyResized(m, f) != Halted(NothingPatched)
    ensures CopyResized(m, f).Written? && CopyResized(m, f).copies == 0 ==> CopyResized(m, f) == Written(m, 0)
  {
  }

  lemma NothingWhen(d: seq<byte>, slot: nat, f: Patching, first: Report, second: Report)
    requires META_BASE <= |d| && Whole(d) && slot < SlotCount(d)
    requires InImage(d, slot, MaxSize(d)) && InImage(d, SlotCount(d) + slot, MaxSize(d))
    requires first == CopyResized(Region(d, slot, MaxSize(d)), f) && second == CopyResized(Region(d, SlotCount(d) + slot, MaxSize(d)), f)
    requires first != Halted(NothingPatched) && second != Halted(NothingPatched)
    ensures Resize(d, slot, f) == Halted(NothingPatched)
            <==> first.Written? && first.copies == 0 && second.Written? && second.copies == 0
    ensures Resize(d, slot, f).Written? <==> first.Written? && second.Written? && first.copies + second.copies > 0
    ensures first.Halted? ==> Resize(d, slot, f) == first
    ensures first.Written? && second.Halted? ==> Resize(d, slot, f) == second
  {
  }

  /** The program stops before it looks at a copy exactly for one of three reasons. */
  lemma HaltsExactly(d: seq<byte>, slot: nat, f: Patching)
    requires META_BASE <= |d|
    ensures var r, magic, whole := Resize(d, slot, f), Get32(d, 4096) == 0x616C_4467, 12288 + 2 * SlotCount(d) * MaxSize(d) <= |d|;
            && (r == Halted(NoGeometry) <==> !magic)
            && (r == Halted(TooShort) <==> magic && !whole)
            && (r == Halted(NoSuchSlot) <==> magic && whole && SlotCount(d) <= slot)
  {
    SpanIsProduct(2 * SlotCount(d), MaxSize(d));
  }

  // ------------------------------------------------------------------ any number of runs

  /** No metadata, or metadata as liblp accepts it that means a safe layout. */
  ghost predicate SafeCopy(m: seq<byte>) {
    Usable(m) && (Headerless(m) || (Sound(m) && exists l :: Means(m, l) && Safe(l)))
  }

  ghost predicate IsRegion(r: nat, n: nat) { r < n }

  ghost predicate AllSafe(d: seq<byte>, n: nat, max: nat) {
    forall r: nat {:trigger IsRegion(r, n)} :: IsRegion(r, n) ==> InImage(d, r, max) && SafeCopy(Region(d, r, max))
  }

  /** Every copy of every slot has its extents on the device, no two of them overlapping. */
  ghost predicate SafeImage(d: seq<byte>) {
    META_BASE <= |d| && Whole(d) && AllSafe(d, 2 * SlotCount(d), MaxSize(d))
  }

  datatype Run = Run(slot: nat, target: seq<byte>, bytes: int)

  /** The image after the runs, each given the last one's output; a run that stops writes none. */
  ghost function ImageAfter(d: seq<byte>, runs: seq<Run>, sha: Hash): (o: seq<byte>)
    requires META_BASE <= |d|
    ensures META_BASE <= |o|
  {
    if runs == [] then d
    else
      var n := |runs| - 1;
      var was := ImageAfter(d, runs[..n], sha);
      var r := Resize(was, runs[n].slot, Patcher(runs[n].target, runs[n].bytes, sha));
      if r.Halted? then was else SameLength(was, runs[n].slot, Patcher(runs[n].target, runs[n].bytes, sha)); r.image
  }

  lemma SameLength(d: seq<byte>, slot: nat, f: Patching)
    requires META_BASE <= |d| && Resize(d, slot, f).Written?
    ensures |Resize(d, slot, f).image| == |d|
  {
  }

  lemma CopyKeepsSafe(m: seq<byte>, target: seq<byte>, bytes: int, sha: Hash, f: Patching)
    requires Patches(f, target, bytes, sha) && SafeCopy(m) && CopyResized(m, f).Written?
    ensures SafeCopy(CopyResized(m, f).image)
  {
    if Headerless(m) {
      CopySkipped(m, target, bytes, sha, f);
    } else {
      var l :| Means(m, l) && Safe(l);
      CopyMeaning(m, l, target, bytes, sha, f);
      GrowthKeepsSafe(l, target, bytes);
    }
  }

  lemma RunKeepsSafe(d: seq<byte>, slot: nat, target: seq<byte>, bytes: int, sha: Hash, f: Patching)
    requires Patches(f, target, bytes, sha) && SafeImage(d) && Resize(d, slot, f).Written?
    ensures SafeImage(Resize(d, slot, f).image)
  {
    var out, max, n := Resize(d, slot, f).image, MaxSize(d), 2 * SlotCount(d);
    SlotIsolated(d, slot, f, slot);
    forall r: nat {:trigger IsRegion(r, n)} | IsRegion(r, n) ensures InImage(out, r, max) && SafeCopy(Region(out, r, max)) {
      SlotIsolated(d, slot, f, r);
      if r == slot || r == SlotCount(d) + slot {
        CopyKeepsSafe(Region(d, r, max), target, bytes, sha, f);
      }
    }
  }

  /** Any sequence of runs, on any slots, for any partitions and sizes, refused ones included,
      leaves every copy of every slot usable, its extents on the device and none overlapping. */
  lemma {:induction false} AnyRunsKeepSafe(d: seq<byte>, runs: seq<Run>, sha: Hash)
    requires SafeImage(d)
    ensures SafeImage(ImageAfter(d, runs, sha))
  {
    if runs != [] {
      var n := |runs| - 1;
      AnyRunsKeepSafe(d, runs[..n], sha);
      var was, f := ImageAfter(d, runs[..n], sha), Patcher(runs[n].target, runs[n].bytes, sha);
      if Resize(was, runs[n].slot, f).Written? {
        RunKeepsSafe(was, runs[n].slot, runs[n].target, runs[n].bytes, sha, f);
      }
    }
  }
}
