/** main of lp-resize-partition.py: the two copies of one metadata slot in the head of `super`
    are rewritten in place, and nothing else is. */
module LpSuper {
  import opened Common
  import opened Bytes
  import opened LpAllocator
  import opened LpMetadata
  import opened LpResize
  import opened LpPatchSlot

  const GEOMETRY_OFFSET := 4096
  const GEOMETRY_SIZE := 4096
  const GEOMETRY_MAGIC := 0x616C_4467
  const META_BASE := GEOMETRY_OFFSET + 2 * GEOMETRY_SIZE

  datatype Halt = NoGeometry | TooShort | NoSuchSlot | Refusal(why: Why) | Unreadable | PackError | TooBig | NothingPatched

  datatype Report = Halted(why: Halt) | Written(image: seq<byte>, copies: nat)

  // ------------------------------------------------------------------ the image

  function MaxSize(d: seq<byte>): nat requires META_BASE <= |d| { Get32(d, GEOMETRY_OFFSET + 40) }

  function SlotCount(d: seq<byte>): nat requires META_BASE <= |d| { Get32(d, GEOMETRY_OFFSET + 44) }

  /** Region `r` of the metadata: slots are 0..count for the primaries, then as many backups. */
  function Base(r: nat, max: nat): nat { META_BASE + Span(r, max) }

  predicate InImage(d: seq<byte>, r: nat, max: nat) { Base(r, max) + max <= |d| }

  function Region(d: seq<byte>, r: nat, max: nat): (s: seq<byte>)
    requires InImage(d, r, max)
    ensures |s| == max
  {
    d[Base(r, max)..Base(r, max) + max]
  }

  /** The primary and the backup region of a slot. */
  ghost predicate CopyOf(r: nat, slot: nat, count: nat) { r == slot || r == count + slot }

  ghost predicate CopiesUsable(d: seq<byte>, slot: nat, count: nat, max: nat) {
    forall r: nat {:trigger CopyOf(r, slot, count)} :: CopyOf(r, slot, count) ==> InImage(d, r, max) && Usable(Region(d, r, max))
  }

  predicate Whole(d: seq<byte>) {
    META_BASE <= |d| && Get32(d, GEOMETRY_OFFSET) == GEOMETRY_MAGIC && META_BASE + Span(2 * SlotCount(d), MaxSize(d)) <= |d|
  }

  /** A head of `super` that reaches past its geometry, and in which the two copies of the slot, if
      it has them, are usable. */
  ghost predicate Ready(d: seq<byte>, slot: nat) {
    META_BASE <= |d| && (Whole(d) && slot < SlotCount(d) ==> CopiesUsable(d, slot, SlotCount(d), MaxSize(d)))
  }

  lemma RegionInImage(d: seq<byte>, r: nat, n: nat, max: nat)
    requires r < n && META_BASE + Span(n, max) <= |d|
    ensures InImage(d, r, max)
  {
    SpanGrows(r + 1, n, max);
  }

  /** Different regions do not overlap, and none reaches into the geometry. */
  lemma RegionsApart(r: nat, q: nat, max: nat)
    requires r != q
    ensures Base(r, max) + max <= Base(q, max) || Base(q, max) + max <= Base(r, max)
    ensures META_BASE <= Base(r, max)
  {
    if r < q {
      SpanGrows(r + 1, q, max);
    } else {
      SpanGrows(q + 1, r, max);
    }
  }

  function WithRegion(d: seq<byte>, r: nat, max: nat, now: seq<byte>): (o: seq<byte>)
    requires InImage(d, r, max) && |now| == max
    ensures |o| == |d|
  {
    Put(d, Base(r, max), now)
  }

  /** Overwriting region `r` changes that region only. */
  lemma RegionWritten(d: seq<byte>, r: nat, max: nat, now: seq<byte>, q: nat)
    requires InImage(d, r, max) && |now| == max && InImage(d, q, max)
    ensures InImage(WithRegion(d, r, max, now), q, max)
    ensures Region(WithRegion(d, r, max, now), q, max) == if q == r then now else Region(d, q, max)
    ensures WithRegion(d, r, max, now)[..META_BASE] == d[..META_BASE]
    ensures now == Region(d, r, max) ==> WithRegion(d, r, max, now) == d
  {
    if q != r {
      RegionsApart(r, q, max);
      PutElsewhere(d, Base(r, max), now, Base(q, max), Base(q, max) + max);
    }
    PutElsewhere(d, Base(r, max), now, 0, META_BASE);
  }

  // ------------------------------------------------------------------ one copy

  function Padded(b: seq<byte>, n: nat): (p: seq<byte>)
    requires |b| <= n
    ensures |p| == n
  {
    b + Zeros(n - |b|)
  }

  /** What becomes of one copy. */
  function CopyAfter(m: seq<byte>, o: Outcome): (r: Report)
    ensures r.Written? ==> |r.image| == |m|
  {
    match o
    case Malformed => Halted(Unreadable)
    case NoHeader => Written(m, 0)
    case Satisfied => Written(m, 0)
    case Died(why) => Halted(Refusal(why))
    case Overflow => Halted(PackError)
    case Patched(b) => if |b| > |m| then Halted(TooBig) else Written(Padded(b, |m|), 1)
  }

  /** What patch_slot makes of a block, for one partition and size. */
  type Patching = seq<byte> -> Outcome

  ghost function Patcher(target: seq<byte>, bytes: int, sha: Hash): (f: Patching)
    ensures Patches(f, target, bytes, sha)
  {
    m => Patch(m, target, bytes, sha)
  }

  ghost predicate Patches(f: Patching, target: seq<byte>, bytes: int, sha: Hash) {
    forall m {:trigger Patch(m, target, bytes, sha)} :: f(m) == Patch(m, target, bytes, sha)
  }

  function CopyResized(m: seq<byte>, f: Patching): (r: Report)
    ensures r.Written? ==> |r.image| == |m|
  {
    CopyAfter(m, f(m))
  }

  /** The slot's primary copy, then its backup. */
  function SlotResized(d: seq<byte>, slot: nat, count: nat, max: nat, f: Patching): Report
    requires InImage(d, slot, max) && InImage(d, count + slot, max)
  {
    var first := CopyResized(Region(d, slot, max), f);
    var second := CopyResized(Region(d, count + slot, max), f);
    if first.Halted? then first
    else if second.Halted? then second
    else if first.copies + second.copies == 0 then Halted(NothingPatched)
    else
      Written(WithRegion(WithRegion(d, slot, max, first.image), count + slot, max, second.image), first.copies + second.copies)
  }

  function Resize(d: seq<byte>, slot: nat, f: Patching): Report
    requires META_BASE <= |d|
  {
    if Get32(d, GEOMETRY_OFFSET) != GEOMETRY_MAGIC then Halted(NoGeometry)
    else if !Whole(d) then Halted(TooShort)
    else if slot >= SlotCount(d) then Halted(NoSuchSlot)
    else
      RegionInImage(d, slot, 2 * SlotCount(d), MaxSize(d));
      RegionInImage(d, SlotCount(d) + slot, 2 * SlotCount(d), MaxSize(d));
      SlotResized(d, slot, SlotCount(d), MaxSize(d), f)
  }

  // ------------------------------------------------------------------ the program

  /** Overwrite the metadata at `base`, and zero the rest of its region. */
  method StoreCopy(d: array<byte>, base: nat, b: seq<byte>, max: nat)
    requires |b| <= max && base + max <= d.Length
    modifies d
    ensures d[..] == Put(old(d[..]), base, Padded(b, max))
  {
    ghost var was := d[..];
    Store(d, base, b);
    Store(d, base + |b|, Zeros(max - |b|));
    PutTwice(was, base, b, Zeros(max - |b|));
  }

  lemma PutTwice(s: seq<byte>, at: nat, a: seq<byte>, b: seq<byte>)
    requires at + |a| + |b| <= |s|
    ensures Put(Put(s, at, a), at + |a|, b) == Put(s, at, a + b)
  {
  }

  ghost predicate CopyDone(was: seq<byte>, now: seq<byte>, r: nat, max: nat, o: Report, halt: Option<Halt>, copies: nat)
    requires InImage(was, r, max) && (o.Written? ==> |o.image| == max)
  {
    match halt
    case Some(why) => o == Halted(why)
    case None => o.Written? && o.copies == copies && now == WithRegion(was, r, max, o.image)
  }

  /** The second copy is patched as if the first had not been written. */
  lemma BackupUntouched(was: seq<byte>, mid: seq<byte>, slot: nat, count: nat, max: nat, o: Report, copies: nat)
    requires slot < count && InImage(was, slot, max) && InImage(was, count + slot, max)
    requires o.Written? ==> |o.image| == max
    requires CopyDone(was, mid, slot, max, o, None, copies)
    ensures |mid| == |was| && InImage(mid, count + slot, max)
    ensures Region(mid, count + slot, max) == Region(was, count + slot, max)
  {
    RegionWritten(was, slot, max, o.image, count + slot);
  }

  /** patch_slot and the copying of its block, for region `r` as it was in the image `was`. */
  method PatchCopy(d: array<byte>, base: nat, ghost was: seq<byte>, ghost r: nat, ghost slot: nat, ghost count: nat, max: nat,
                   target: seq<byte>, bytes: int, sha: Hash, ghost f: Patching)
    returns (halt: Option<Halt>, copies: nat)
    requires Patches(f, target, bytes, sha)
    requires base == Base(r, max) && CopyOf(r, slot, count) && CopiesUsable(was, slot, count, max)
    requires InImage(was, r, max) && InImage(d[..], r, max) && Region(d[..], r, max) == Region(was, r, max)
    modifies d
    ensures CopyDone(old(d[..]), d[..], r, max, CopyResized(Region(was, r, max), f), halt, copies)
  {
    var o := PatchRegion(d[base..], max, Region(was, r, max), target, bytes, sha);
    halt, copies := None, 0;
    RegionWritten(d[..], r, max, Region(d[..], r, max), r);
    match o
    case Malformed => halt := Some(Unreadable);
    case NoHeader =>
    case Satisfied =>
    case Died(why) => halt := Some(Refusal(why));
    case Overflow => halt := Some(PackError);
    case Patched(b) =>
      if |b| > max {
        halt := Some(TooBig);
      } else {
        StoreCopy(d, base, b, max);
        copies := 1;
      }
  }

  method PatchRegion(m: seq<byte>, max: nat, ghost region: seq<byte>, target: seq<byte>, bytes: int, sha: Hash) returns (o: Outcome)
    requires max <= |m| && region == m[..max] && Usable(region)
    ensures o == Patch(region, target, bytes, sha)
  {
    PatchLocal(m, max, target, bytes, sha);
    o := PatchSlot(m, target, bytes, sha);
  }

  /** The slot's primary copy, then its backup. */
  method ResizeCopies(d: array<byte>, slot: nat, count: nat, max: nat, target: seq<byte>, bytes: int, sha: Hash, ghost f: Patching)
    returns (halt: Option<Halt>, copies: nat)
    requires Patches(f, target, bytes, sha)
    requires slot < count && InImage(d[..], slot, max) && InImage(d[..], count + slot, max) && CopiesUsable(d[..], slot, count, max)
    modifies d
    ensures SlotDone(old(d[..]), d[..], slot, count, max, f, halt, copies)
  {
    ghost var was := d[..];
    var primary, backup := META_BASE + slot * max, META_BASE + max * count + slot * max;
    BasesAsProducts(slot, count, max);
    halt, copies := PatchCopy(d, primary, was, slot, slot, count, max, target, bytes, sha, f);
    ghost var mid, done := d[..], copies;
    if halt.None? {
      BackupUntouched(was, d[..], slot, count, max, CopyResized(Region(was, slot, max), f), copies);
      var more;
      halt, more := PatchCopy(d, backup, was, count + slot, slot, count, max, target, bytes, sha, f);
      BothDone(was, mid, d[..], slot, count, max, f, done, halt, more);
      copies := copies + more;
      if halt.None? && copies == 0 {
        halt := Some(NothingPatched);
      }
    } else {
      FirstDone(was, mid, slot, count, max, f, halt, copies);
    }
  }

  ghost predicate SlotDone(was: seq<byte>, now: seq<byte>, slot: nat, count: nat, max: nat, f: Patching, halt: Option<Halt>, copies: nat)
    requires InImage(was, slot, max) && InImage(was, count + slot, max)
  {
    match halt
    case Some(why) => SlotResized(was, slot, count, max, f) == Halted(why)
    case None => SlotResized(was, slot, count, max, f) == Written(now, copies)
  }

  lemma FirstDone(was: seq<byte>, now: seq<byte>, slot: nat, count: nat, max: nat, f: Patching, halt: Option<Halt>, copies: nat)
    requires InImage(was, slot, max) && InImage(was, count + slot, max) && halt.Some?
    requires CopyDone(was, now, slot, max, CopyResized(Region(was, slot, max), f), halt, copies)
    ensures SlotDone(was, now, slot, count, max, f, halt, copies)
  {
  }

  lemma BothDone(was: seq<byte>, mid: seq<byte>, now: seq<byte>, slot: nat, count: nat, max: nat, f: Patching, done: nat,
                 halt: Option<Halt>, more: nat)
    requires InImage(was, slot, max) && InImage(was, count + slot, max) && |mid| == |was|
    requires CopyDone(was, mid, slot, max, CopyResized(Region(was, slot, max), f), None, done)
    requires CopyDone(mid, now, count + slot, max, CopyResized(Region(was, count + slot, max), f), halt, more)
    ensures SlotDone(was, now, slot, count, max, f, if halt.None? && done + more == 0 then Some(NothingPatched) else halt, done + more)
  {
  }

  method ResizeSlot(d: array<byte>, slot: nat, target: seq<byte>, bytes: int, sha: Hash) returns (halt: Option<Halt>, copies: nat)
    requires Ready(d[..], slot)
    modifies d
    ensures match halt
            case Some(why) => Resize(old(d[..]), slot, Patcher(target, bytes, sha)) == Halted(why)
            case None => Resize(old(d[..]), slot, Patcher(target, bytes, sha)) == Written(d[..], copies)
  {
    if Get32(d[..], GEOMETRY_OFFSET) != GEOMETRY_MAGIC {
      return Some(NoGeometry), 0;
    }
    var max, count := MaxSize(d[..]), SlotCount(d[..]);
    WholeProduct(max, count);
    if d.Length < META_BASE + max * count * 2 {
      return Some(TooShort), 0;
    }
    if slot >= count {
      return Some(NoSuchSlot), 0;
    }
    RegionInImage(d[..], slot, 2 * count, max);
    RegionInImage(d[..], count + slot, 2 * count, max);
    halt, copies := ResizeCopies(d, slot, count, max, target, bytes, sha, Patcher(target, bytes, sha));
  }

  lemma BasesAsProducts(slot: nat, count: nat, max: nat)
    ensures Base(slot, max) == META_BASE + slot * max
    ensures Base(count + slot, max) == META_BASE + max * count + slot * max
  {
    SpanIsProduct(slot, max);
    SpanIsProduct(count + slot, max);
    assert max * count + slot * max == (count + slot) * max;
  }

  lemma WholeProduct(max: nat, count: nat)
    ensures Span(2 * count, max) == max * count * 2
  {
    SpanIsProduct(2 * count, max);
    assert 2 * count * max == max * count * 2;
  }

  // ------------------------------------------------------------------ the copy is all that matters

  /** Patching reads only the region, although it is given everything from its start on. */
  lemma PatchLocal(m: seq<byte>, n: nat, target: seq<byte>, bytes: int, sha: Hash)
    requires n <= |m| && Usable(m[..n])
    ensures Usable(m) && Patch(m, target, bytes, sha) == Patch(m[..n], target, bytes, sha)
  {
    var a := m[..n];
    Get32Same(m, a, n, 0);
    if Get32(a, 0) == HEADER_MAGIC {
      LoadLocal(m, n);
      LoadSized(a);
      var g := Grow(Meaning(Load(a)), target, bytes);
      PatchByLocal(m, n, g, sha);
    }
  }

  lemma PatchByLocal(m: seq<byte>, n: nat, g: Growth, sha: Hash)
    requires n <= |m| && WellFormed(m[..n]) && Load(m) == Load(m[..n]) && HEADER_MIN <= |m| && ReadHeader(m) == ReadHeader(m[..n])
    requires AllAtLeast(Load(m).parts, 52) && (g.Added? ==> g.idx < |Load(m).parts|)
    requires forall t: Desc :: TableEnd(ReadHeader(m), t) <= n ==> Blob(m, ReadHeader(m), t) == Blob(m[..n], ReadHeader(m), t)
    ensures PatchBy(m, g, sha) == PatchBy(m[..n], g, sha)
  {
    var a, h := m[..n], ReadHeader(m);
    if g.Added? {
      assert Blob(m, h, h.groups) == Blob(a, h, h.groups) && Blob(m, h, h.devs) == Blob(a, h, h.devs);
      assert m[..h.size] == a[..h.size];
    }
  }
}
