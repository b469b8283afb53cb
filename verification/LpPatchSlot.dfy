/** patch_slot of lp-resize-partition.py as it runs: the loops that read the plan, find the
    tail, add up a group and rebuild the tables, proved to compute `LpResize.Patch`. */
module LpPatchSlot {
  import opened Common
  import opened Bytes
  import opened LpAllocator
  import opened LpMetadata
  import opened LpResize

  method SumSectors(run: seq<seq<byte>>) returns (total: nat)
    requires AllAtLeast(run, 24)
    ensures total == Sectors(ExtentsOf(run))
  {
    total := 0;
    for k := 0 to |run|
      invariant total == Sectors(ExtentsOf(run[..k]))
    {
      total := total + Get64(run[k], 0);
      ExtentsStep(run, k);
    }
    assert run[..|run|] == run;
  }

  lemma ExtentsStep(run: seq<seq<byte>>, k: nat)
    requires AllAtLeast(run, 24) && k < |run|
    ensures AllAtLeast(run[..k], 24) && AllAtLeast(run[..k + 1], 24)
    ensures ExtentsOf(run[..k + 1]) == ExtentsOf(run[..k]) + [ExtentOf(run[k])]
    ensures ExtentsOf(run[..k + 1])[..k] == ExtentsOf(run[..k])
  {
    assert run[..k + 1][..k] == run[..k];
  }

  /** The plan, and the last partition of the wanted name. */
  method ReadPlan(parts: seq<seq<byte>>, exts: seq<seq<byte>>, target: seq<byte>)
    returns (plan: seq<seq<seq<byte>>>, idx: int)
    requires AllAtLeast(parts, 52) && AllAtLeast(exts, 24)
    ensures plan == Plan(parts, exts) && RunsAtLeast(plan)
    ensures idx == Find(PartitionsOf(parts, plan), target)
  {
    ghost var all := Plan(parts, exts);
    PlanSized(parts, exts);
    ghost var meant := PartitionsOf(parts, all);
    plan, idx := [], -1;
    for i := 0 to |parts|
      invariant plan == Plan(parts[..i], exts)
      invariant -1 <= idx < i && idx == Find(meant[..i], target)
    {
      plan := plan + [Run(parts[i], exts)];
      if NameOf(parts[i]) == target {
        idx := i;
      }
      PartitionAt(parts, all, i);
      PlanStep(parts, exts, i);
      FindStep(meant, target, i);
    }
    assert parts[..|parts|] == parts && meant[..|parts|] == meant;
  }

  lemma PlanStep(parts: seq<seq<byte>>, exts: seq<seq<byte>>, i: nat)
    requires AllAtLeast(parts, 52) && i < |parts|
    ensures Plan(parts[..i + 1], exts) == Plan(parts[..i], exts) + [Run(parts[i], exts)]
  {
    assert parts[..i + 1][..i] == parts[..i];
  }

  lemma FindStep(meant: seq<Partition>, target: Name, i: nat)
    requires i < |meant|
    ensures Find(meant[..i + 1], target) == if meant[i].name == target then i else Find(meant[..i], target)
  {
    assert meant[..i + 1][..i] == meant[..i];
  }

  /** The highest sector any LINEAR extent reaches. */
  method FindTail(floor: nat, parts: seq<seq<byte>>, plan: seq<seq<seq<byte>>>) returns (high: nat)
    requires AllAtLeast(parts, 52) && |plan| == |parts| && RunsAtLeast(plan)
    ensures high == High(floor, PartitionsOf(parts, plan))
  {
    ghost var meant := PartitionsOf(parts, plan);
    high := floor;
    for i := 0 to |plan|
      invariant high == High(floor, meant[..i])
    {
      ghost var was := high;
      for k := 0 to |plan[i]|
        invariant high == Top(was, ExtentsOf(plan[i][..k]))
      {
        var e := plan[i][k];
        if Get32(e, 8) == 0 && Get64(e, 12) + Get64(e, 0) > high {
          high := Get64(e, 12) + Get64(e, 0);
        }
        ExtentsStep(plan[i], k);
      }
      assert plan[i][..|plan[i]|] == plan[i];
      PartitionAt(parts, plan, i);
      assert meant[..i + 1][..i] == meant[..i];
    }
    assert meant[..|plan|] == meant;
  }

  /** The sectors a group's partitions hold. */
  method GroupUse(parts: seq<seq<byte>>, plan: seq<seq<seq<byte>>>, group: nat) returns (used: nat)
    requires AllAtLeast(parts, 52) && |plan| == |parts| && RunsAtLeast(plan)
    ensures used == Held(PartitionsOf(parts, plan), group)
  {
    ghost var meant := PartitionsOf(parts, plan);
    used := 0;
    for i := 0 to |parts|
      invariant used == Held(meant[..i], group)
    {
      if Get32(parts[i], 48) == group {
        var n := SumSectors(plan[i]);
        used := used + n;
      }
      PartitionAt(parts, plan, i);
      assert meant[..i + 1][..i] == meant[..i];
    }
    assert meant[..|parts|] == meant;
  }

  /** Every partition repointed at its run, and the runs end to end. */
  method RebuildTables(oldParts: seq<seq<byte>>, plan: seq<seq<seq<byte>>>)
    returns (parts: seq<seq<byte>>, newExts: seq<seq<byte>>)
    requires AllAtLeast(oldParts, 52) && |plan| == |oldParts|
    ensures parts == Repack(oldParts, plan) && newExts == Flat(plan)
  {
    parts := oldParts;
    newExts := [];
    var cursor: nat := 0;
    for i := 0 to |oldParts|
      invariant Rebuilding(oldParts, plan, i, parts, newExts, cursor)
    {
      RebuildStep(oldParts, plan, i, parts, newExts, cursor);
      parts := parts[i := Repointed(parts[i], cursor, |plan[i]|)];
      newExts := newExts + plan[i];
      cursor := cursor + |plan[i]|;
    }
    assert oldParts[..|oldParts|] == oldParts && plan[..|oldParts|] == plan;
  }

  /** The first `i` partitions are repointed and their runs copied. */
  ghost predicate Rebuilding(oldParts: seq<seq<byte>>, plan: seq<seq<seq<byte>>>, i: nat,
                             parts: seq<seq<byte>>, exts: seq<seq<byte>>, cursor: nat)
  {
    && AllAtLeast(oldParts, 52) && |plan| == |oldParts| == |parts| && i <= |parts|
    && parts == Repack(oldParts[..i], plan[..i]) + oldParts[i..]
    && exts == Flat(plan[..i]) && cursor == |exts|
  }

  lemma RebuildStep(oldParts: seq<seq<byte>>, plan: seq<seq<seq<byte>>>, i: nat,
                    parts: seq<seq<byte>>, exts: seq<seq<byte>>, cursor: nat)
    requires Rebuilding(oldParts, plan, i, parts, exts, cursor) && i < |parts|
    ensures parts[i] == oldParts[i] && 48 <= |parts[i]|
    ensures Rebuilding(oldParts, plan, i + 1, parts[i := Repointed(parts[i], cursor, |plan[i]|)], exts + plan[i], cursor + |plan[i]|)
  {
    RepackStep(oldParts, plan, i);
    ReplaceNext(Repack(oldParts[..i], plan[..i]), oldParts, Repointed(oldParts[i], cursor, |plan[i]|));
  }

  lemma ReplaceNext(done: seq<seq<byte>>, all: seq<seq<byte>>, x: seq<byte>)
    requires |done| < |all|
    ensures (done + all[|done|..])[|done|] == all[|done|]
    ensures (done + all[|done|..])[|done| := x] == done + [x] + all[|done| + 1..]
  {
  }

  lemma RepackStep(parts: seq<seq<byte>>, plan: seq<seq<seq<byte>>>, i: nat)
    requires AllAtLeast(parts, 52) && |plan| == |parts| && i < |parts|
    ensures Repack(parts[..i + 1], plan[..i + 1])
            == Repack(parts[..i], plan[..i]) + [Repointed(parts[i], |Flat(plan[..i])|, |plan[i]|)]
    ensures Flat(plan[..i + 1]) == Flat(plan[..i]) + plan[i]
  {
    assert parts[..i + 1][..i] == parts[..i] && plan[..i + 1][..i] == plan[..i];
  }

  /** The four descriptors in table order, each table starting where the one before it ends. */
  method WriteDescs(was: seq<byte>, h: Header, np: nat, ne: nat) returns (hdr: seq<byte>)
    requires HEADER_MIN <= |was|
    ensures Described(was, hdr, Tiled(h, np, ne))
  {
    hdr := was;
    var off := 0;
    hdr := Put(hdr, H_PARTITIONS, DescBytes(Desc(off, np, h.parts.size)));
    off := off + Span(np, h.parts.size);
    hdr := Put(hdr, H_EXTENTS, DescBytes(Desc(off, ne, h.exts.size)));
    off := off + Span(ne, h.exts.size);
    hdr := Put(hdr, H_GROUPS, DescBytes(Desc(off, h.groups.num, h.groups.size)));
    off := off + Span(h.groups.num, h.groups.size);
    hdr := Put(hdr, H_DEVICES, DescBytes(Desc(off, h.devs.num, h.devs.size)));
    DescsPut(was, Tiled(h, np, ne));
  }

  /** The new header: descriptors, then the tables' size and the two checksums. */
  method SealHeader(m: seq<byte>, tables: seq<byte>, np: nat, ne: nat, sha: Hash) returns (hdr: seq<byte>)
    requires HEADER_MIN <= |m| && HEADER_MIN <= ReadHeader(m).size <= |m|
    ensures hdr == Sealed(m[..ReadHeader(m).size], tables, Tiled(ReadHeader(m), np, ne), sha)
  {
    var h := ReadHeader(m);
    var was := m[..h.size];
    hdr := WriteDescs(was, h, np, ne);
    hdr := WriteSums(was, hdr, tables, Tiled(h, np, ne), sha);
  }

  method WriteSums(ghost was: seq<byte>, a: seq<byte>, tables: seq<byte>, ghost t: Header, sha: Hash) returns (hdr: seq<byte>)
    requires HEADER_MIN <= |was| && Described(was, a, t)
    ensures hdr == Sealed(was, tables, t, sha)
  {
    hdr := Put(a, H_TABLES_SIZE, ToLe(|tables|, 4));
    hdr := Put(hdr, H_TABLES_CSUM, sha(tables));
    hdr := Put(hdr, H_HEADER_CSUM, Zeros(32));
    SealPut(was, a, Zeros(32), |tables|, sha(tables), t);
    ghost var z := hdr;
    hdr := Put(hdr, H_HEADER_CSUM, sha(hdr));
    Reseal(was, Zeros(32), sha(z), |tables|, sha(tables), t);
  }

  /** `a` is `was` with the four descriptors written into it. */
  ghost predicate Described(was: seq<byte>, a: seq<byte>, t: Header) {
    && HEADER_MIN <= |was| == |a| && a[..80] == was[..80] && a[128..] == was[128..]
    && a[80..92] == DescBytes(t.parts) && a[92..104] == DescBytes(t.exts)
    && a[104..116] == DescBytes(t.groups) && a[116..128] == DescBytes(t.devs)
  }

  lemma DescsPut(was: seq<byte>, t: Header)
    requires HEADER_MIN <= |was|
    ensures Described(was, Put(Put(Put(Put(was, H_PARTITIONS, DescBytes(t.parts)), H_EXTENTS, DescBytes(t.exts)),
                                   H_GROUPS, DescBytes(t.groups)), H_DEVICES, DescBytes(t.devs)), t)
  {
  }

  lemma SealPut(was: seq<byte>, a: seq<byte>, csum: Digest, n: nat, tcsum: Digest, t: Header)
    requires HEADER_MIN <= |was| && Described(was, a, t)
    ensures Put(Put(Put(a, H_TABLES_SIZE, ToLe(n, 4)), H_TABLES_CSUM, tcsum), H_HEADER_CSUM, csum)
            == HeaderWith(was, csum, n, tcsum, t)
  {
    PutThree(a, ToLe(n, 4), tcsum, csum);
    DescsFollow(was, a, t);
    Nest(was[..12], csum, ToLe(n, 4), tcsum, DescBytes(t.parts), DescBytes(t.exts), DescBytes(t.groups), DescBytes(t.devs), was[HEADER_MIN..]);
  }

  lemma Nest(h: seq<byte>, z: seq<byte>, x: seq<byte>, y: seq<byte>, a: seq<byte>, b: seq<byte>, c: seq<byte>, d: seq<byte>, r: seq<byte>)
    ensures h + z + x + y + (a + b + c + d + r) == h + z + x + y + a + b + c + d + r
  {
    Assoc(h + z + x + y, a + b + c + d, r);
    Assoc(h + z + x + y, a + b + c, d);
    Assoc(h + z + x + y, a + b, c);
    Assoc(h + z + x + y, a, b);
  }

  lemma PutThree(a: seq<byte>, x: seq<byte>, y: seq<byte>, z: seq<byte>)
    requires HEADER_MIN <= |a| && |x| == 4 && |y| == |z| == 32
    ensures Put(Put(Put(a, H_TABLES_SIZE, x), H_TABLES_CSUM, y), H_HEADER_CSUM, z) == a[..12] + z + x + y + a[80..]
  {
    var b := Put(Put(a, H_TABLES_SIZE, x), H_TABLES_CSUM, y);
    PutTwo(a, x, y);
    assert b[..12] == a[..12];
    assert b[44..] == x + y + a[80..];
    assert a[..12] + z + x + y + a[80..] == a[..12] + z + (x + y + a[80..]);
  }

  lemma PutTwo(a: seq<byte>, x: seq<byte>, y: seq<byte>)
    requires HEADER_MIN <= |a| && |x| == 4 && |y| == 32
    ensures Put(Put(a, H_TABLES_SIZE, x), H_TABLES_CSUM, y) == a[..44] + x + y + a[80..]
  {
    var b := Put(a, H_TABLES_SIZE, x);
    assert b[..48] == a[..44] + x && b[80..] == a[80..];
  }

  lemma DescsFollow(was: seq<byte>, a: seq<byte>, t: Header)
    requires Described(was, a, t)
    ensures a[..12] == was[..12]
    ensures a[80..] == DescBytes(t.parts) + DescBytes(t.exts) + DescBytes(t.groups) + DescBytes(t.devs) + was[HEADER_MIN..]
  {
    assert a[..12] == a[..80][..12] == was[..80][..12];
    assert a[80..] == a[80..92] + a[92..104] + a[104..116] + a[116..128] + a[128..];
  }

  lemma Reseal(was: seq<byte>, csum: Digest, other: Digest, n: nat, tcsum: Digest, t: Header)
    requires HEADER_MIN <= |was|
    ensures Put(HeaderWith(was, csum, n, tcsum, t), H_HEADER_CSUM, other) == HeaderWith(was, other, n, tcsum, t)
  {
    var x, y := HeaderWith(was, csum, n, tcsum, t), HeaderWith(was, other, n, tcsum, t);
    assert x[..12] == y[..12] && y[12..44] == other && x[44..] == y[44..];
    assert y == y[..12] + y[12..44] + y[44..];
  }

  /** patch_slot, on the image from the metadata block's first byte on. */
  method PatchSlot(m: seq<byte>, target: seq<byte>, bytes: int, sha: Hash) returns (r: Outcome)
    requires Usable(m)
    ensures r == Patch(m, target, bytes, sha)
  {
    if Get32(m, 0) != HEADER_MAGIC {
      return NoHeader;
    }
    LoadSized(m);
    var growth, plan := Decide(m, target, bytes);
    match growth
    case Enough => r := Satisfied;
    case Refused(why) => r := Died(why);
    case Added(idx, e) => r := Rebuild(m, plan, idx, e, sha);
  }

  /** Where the new extent goes, or why there is none. */
  method Decide(m: seq<byte>, target: seq<byte>, bytes: int) returns (growth: Growth, plan: seq<seq<seq<byte>>>)
    requires WellFormed(m) && Sized(Load(m))
    ensures growth == Grow(Meaning(Load(m)), target, bytes)
    ensures growth.Added? ==> plan == Plan(Load(m).parts, Load(m).exts)
  {
    var h := ReadHeader(m);
    var devs := Table(m, h, h.devs);
    plan := [];
    if devs == [] {
      return Refused(NoDevices), plan;
    }
    DeviceAt(devs, 0);
    var firstLogical, size := Get64(devs[0], 0), Get64(devs[0], 16);
    if size % SECTOR != 0 || size < MIN_DEVICE {
      return Refused(BadDeviceSize), plan;
    }
    var idx;
    plan, idx := ReadPlan(Table(m, h, h.parts), Table(m, h, h.exts), target);
    if idx < 0 {
      return Refused(NoSuchPartition), plan;
    }
    growth := Allocate(Table(m, h, h.parts), Table(m, h, h.groups), plan, idx, Device(firstLogical, size),
                       Meaning(Load(m)), target, bytes);
  }

  method Allocate(parts: seq<seq<byte>>, groups: seq<seq<byte>>, plan: seq<seq<seq<byte>>>, idx: nat, dev: Device,
                  ghost l: Layout, ghost target: seq<byte>, bytes: int) returns (growth: Growth)
    requires AllAtLeast(parts, 52) && AllAtLeast(groups, 48) && |plan| == |parts| && RunsAtLeast(plan)
    requires l.parts == PartitionsOf(parts, plan) && l.groups == GroupsOf(groups)
    requires l.devices != [] && l.devices[0] == dev && dev.size % SECTOR == 0 && dev.size >= MIN_DEVICE
    requires idx < |parts| && idx == Find(l.parts, target)
    ensures growth == Grow(l, target, bytes)
  {
    PartitionAt(parts, plan, idx);
    var cur := SumSectors(plan[idx]);
    var want := Wanted(bytes);
    if want <= cur {
      return Enough;
    }
    var high := FindTail(dev.first, parts, plan);
    var start := RoundUp(high);
    var need := RoundUp(want - cur);
    if need > dev.size / SECTOR - start {
      return Refused(NoRoom);
    }
    var over := OverMaximum(parts, groups, plan, idx, need);
    growth := if over then Refused(OverGroup) else Added(idx, Extent(need, LINEAR, start, 0));
  }

  /** Whether `need` more sectors take the partition's group past its maximum. */
  method OverMaximum(parts: seq<seq<byte>>, groups: seq<seq<byte>>, plan: seq<seq<seq<byte>>>, idx: nat, need: nat)
    returns (over: bool)
    requires AllAtLeast(parts, 52) && AllAtLeast(groups, 48) && |plan| == |parts| && RunsAtLeast(plan) && idx < |parts|
    ensures var meant, g := PartitionsOf(parts, plan), PartitionsOf(parts, plan)[idx].group;
            over == (g < |groups| && GroupsOf(groups)[g].maximum != 0
                     && (Held(meant, g) + need) * SECTOR > GroupsOf(groups)[g].maximum)
  {
    var gidx := Get32(parts[idx], 48);
    PartitionAt(parts, plan, idx);
    over := false;
    if gidx < |groups| {
      var gmax := Get64(groups[gidx], 40);
      GroupAt(groups, gidx);
      if gmax != 0 {
        var used := GroupUse(parts, plan, gidx);
        over := (used + need) * SECTOR > gmax;
      }
    }
  }

  method Rebuild(m: seq<byte>, plan: seq<seq<seq<byte>>>, idx: nat, e: Extent, sha: Hash) returns (r: Outcome)
    requires WellFormed(m) && Sized(Load(m)) && idx < |Load(m).parts|
    requires plan == Plan(Load(m).parts, Load(m).exts)
    ensures r == PatchBy(m, Added(idx, e), sha)
  {
    var h := ReadHeader(m);
    var grown := plan[idx := plan[idx] + [NewExtent(h.exts.size, e)]];
    var parts, newExts := RebuildTables(Table(m, h, h.parts), grown);
    var tables := Concat(parts) + Concat(newExts) + Blob(m, h, h.groups) + Blob(m, h, h.devs);
    if |tables| >= U32 {
      return Overflow;
    }
    var hdr := SealHeader(m, tables, |parts|, |newExts|, sha);
    r := Patched(hdr + tables);
  }
}
