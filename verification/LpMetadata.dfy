/** liblp's metadata block (AOSP metadata_format.h) as bytes: the header, its four table
    descriptors, the entries, and the layout they mean.  `m` is always the image from the
    metadata block's first byte on. */
module LpMetadata {
  import opened Bytes
  import opened LpAllocator

  const HEADER_MAGIC := 0x414C_5030
  const H_HEADER_SIZE := 8
  const H_HEADER_CSUM := 12
  const H_TABLES_SIZE := 44
  const H_TABLES_CSUM := 48
  const H_PARTITIONS := 80
  const H_EXTENTS := 92
  const H_GROUPS := 104
  const H_DEVICES := 116
  const HEADER_MIN := 128

  datatype Desc = Desc(off: nat, num: nat, size: nat)

  datatype Header = Header(size: nat, parts: Desc, exts: Desc, groups: Desc, devs: Desc)

  function GetDesc(m: seq<byte>, at: nat): Desc
    requires at + 12 <= |m|
  {
    Desc(Get32(m, at), Get32(m, at + 4), Get32(m, at + 8))
  }

  function ReadHeader(m: seq<byte>): Header
    requires HEADER_MIN <= |m|
  {
    Header(Get32(m, H_HEADER_SIZE), GetDesc(m, H_PARTITIONS), GetDesc(m, H_EXTENTS),
           GetDesc(m, H_GROUPS), GetDesc(m, H_DEVICES))
  }

  // ------------------------------------------------------------------ tables

  function TableEnd(h: Header, t: Desc): nat {
    h.size + t.off + Span(t.num, t.size)
  }

  function Table(m: seq<byte>, h: Header, t: Desc): (e: seq<seq<byte>>)
    ensures |e| == t.num
  {
    Bytes.Entries(m, h.size + t.off, t.num, t.size)
  }

  function Blob(m: seq<byte>, h: Header, t: Desc): seq<byte> {
    Slice(m, h.size + t.off, TableEnd(h, t))
  }

  /** Entry sizes are those of liblp's structs or larger, and header and tables lie in the
      first `n` bytes. */
  predicate Fits(h: Header, n: nat) {
    && HEADER_MIN <= h.size <= n
    && 52 <= h.parts.size && 24 <= h.exts.size && 48 <= h.groups.size && 24 <= h.devs.size
    && TableEnd(h, h.parts) <= n && TableEnd(h, h.exts) <= n
    && TableEnd(h, h.groups) <= n && TableEnd(h, h.devs) <= n
  }

  function First(p: seq<byte>): nat requires 48 <= |p| { Get32(p, 40) }

  function Count(p: seq<byte>): nat requires 48 <= |p| { Get32(p, 44) }

  /** Every partition's run of extents lies in the extents table. */
  ghost predicate RunsInside(parts: seq<seq<byte>>, n: nat) {
    forall i :: 0 <= i < |parts| ==> |parts[i]| >= 52 && First(parts[i]) + Count(parts[i]) <= n
  }

  /** Header and tables are all there. */
  ghost predicate WellFormed(m: seq<byte>) {
    HEADER_MIN <= |m| && Fits(ReadHeader(m), |m|)
  }

  /** Metadata as liblp accepts it. */
  ghost predicate Sound(m: seq<byte>) {
    && WellFormed(m)
    && RunsInside(Table(m, ReadHeader(m), ReadHeader(m).parts), ReadHeader(m).exts.num)
  }

  // ------------------------------------------------------------------ meaning

  /** The bytes up to the first NUL. */
  function UpToNul(s: seq<byte>): (r: seq<byte>)
    ensures |r| <= |s|
  {
    if s == [] || s[0] == 0 then [] else [s[0]] + UpToNul(s[1..])
  }

  function NameOf(e: seq<byte>): seq<byte> {
    UpToNul(Slice(e, 0, 36))
  }

  function ExtentOf(e: seq<byte>): Extent
    requires 24 <= |e|
  {
    Extent(Get64(e, 0), Get32(e, 8), Get64(e, 12), Get32(e, 20))
  }

  ghost predicate AllAtLeast(entries: seq<seq<byte>>, n: nat) {
    forall i :: 0 <= i < |entries| ==> n <= |entries[i]|
  }

  /** Every run of a plan is made of whole extents. */
  ghost predicate RunsAtLeast(plan: seq<seq<seq<byte>>>) {
    forall i :: 0 <= i < |plan| ==> AllAtLeast(plan[i], 24)
  }

  function ExtentsOf(entries: seq<seq<byte>>): (r: seq<Extent>)
    requires AllAtLeast(entries, 24)
    ensures |r| == |entries|
  {
    if entries == [] then []
    else ExtentsOf(entries[..|entries| - 1]) + [ExtentOf(entries[|entries| - 1])]
  }

  /** The raw extents of partition entry `p`. */
  function Run(p: seq<byte>, exts: seq<seq<byte>>): seq<seq<byte>>
    requires 48 <= |p|
  {
    Slice(exts, First(p), First(p) + Count(p))
  }

  function PartitionOf(p: seq<byte>, run: seq<seq<byte>>): Partition
    requires 52 <= |p| && AllAtLeast(run, 24)
  {
    Partition(NameOf(p), Get32(p, 36), Get32(p, 48), ExtentsOf(run))
  }

  function PartitionsOf(parts: seq<seq<byte>>, plan: seq<seq<seq<byte>>>): (r: seq<Partition>)
    requires AllAtLeast(parts, 52) && |plan| == |parts|
    requires RunsAtLeast(plan)
    ensures |r| == |parts|
  {
    if parts == [] then []
    else
      var n := |parts| - 1;
      PartitionsOf(parts[..n], plan[..n]) + [PartitionOf(parts[n], plan[n])]
  }

  function Plan(parts: seq<seq<byte>>, exts: seq<seq<byte>>): (r: seq<seq<seq<byte>>>)
    requires AllAtLeast(parts, 52)
    ensures |r| == |parts|
  {
    if parts == [] then []
    else
      var n := |parts| - 1;
      Plan(parts[..n], exts) + [Run(parts[n], exts)]
  }

  function GroupsOf(groups: seq<seq<byte>>): (r: seq<Group>)
    requires AllAtLeast(groups, 48)
    ensures |r| == |groups|
  {
    if groups == [] then []
    else
      var n := |groups| - 1;
      GroupsOf(groups[..n]) + [Group(NameOf(groups[n]), Get64(groups[n], 40))]
  }

  function DevicesOf(devs: seq<seq<byte>>): (r: seq<Device>)
    requires AllAtLeast(devs, 24)
    ensures |r| == |devs|
  {
    if devs == [] then []
    else
      var n := |devs| - 1;
      DevicesOf(devs[..n]) + [Device(Get64(devs[n], 0), Get64(devs[n], 16))]
  }

  lemma {:induction false} ExtentAt(entries: seq<seq<byte>>, i: nat)
    requires AllAtLeast(entries, 24) && i < |entries|
    ensures ExtentsOf(entries)[i] == ExtentOf(entries[i])
  {
    if i < |entries| - 1 {
      ExtentAt(entries[..|entries| - 1], i);
    }
  }

  lemma {:induction false} PartitionAt(parts: seq<seq<byte>>, plan: seq<seq<seq<byte>>>, i: nat)
    requires AllAtLeast(parts, 52) && |plan| == |parts| && i < |parts|
    requires RunsAtLeast(plan)
    ensures PartitionsOf(parts, plan)[i] == PartitionOf(parts[i], plan[i])
  {
    if i < |parts| - 1 {
      PartitionAt(parts[..|parts| - 1], plan[..|parts| - 1], i);
    }
  }

  lemma {:induction false} PlanAt(parts: seq<seq<byte>>, exts: seq<seq<byte>>, i: nat)
    requires AllAtLeast(parts, 52) && i < |parts|
    ensures Plan(parts, exts)[i] == Run(parts[i], exts)
  {
    if i < |parts| - 1 {
      PlanAt(parts[..|parts| - 1], exts, i);
    }
  }

  lemma {:induction false} GroupAt(groups: seq<seq<byte>>, i: nat)
    requires AllAtLeast(groups, 48) && i < |groups|
    ensures GroupsOf(groups)[i] == Group(NameOf(groups[i]), Get64(groups[i], 40))
  {
    if i < |groups| - 1 {
      GroupAt(groups[..|groups| - 1], i);
    }
  }

  lemma {:induction false} DeviceAt(devs: seq<seq<byte>>, i: nat)
    requires AllAtLeast(devs, 24) && i < |devs|
    ensures DevicesOf(devs)[i] == Device(Get64(devs[i], 0), Get64(devs[i], 16))
  {
    if i < |devs| - 1 {
      DeviceAt(devs[..|devs| - 1], i);
    }
  }

  lemma PlanSized(parts: seq<seq<byte>>, exts: seq<seq<byte>>)
    requires AllAtLeast(parts, 52) && AllAtLeast(exts, 24)
    ensures RunsAtLeast(Plan(parts, exts))
  {
    forall i | 0 <= i < |parts| ensures AllAtLeast(Plan(parts, exts)[i], 24) {
      PlanAt(parts, exts, i);
    }
  }

  /** The entries of all four tables. */
  datatype Raw = Raw(parts: seq<seq<byte>>, exts: seq<seq<byte>>, groups: seq<seq<byte>>, devs: seq<seq<byte>>)

  ghost predicate Sized(r: Raw) {
    AllAtLeast(r.parts, 52) && AllAtLeast(r.exts, 24) && AllAtLeast(r.groups, 48) && AllAtLeast(r.devs, 24)
  }

  function Load(m: seq<byte>): Raw
    requires HEADER_MIN <= |m|
  {
    var h := ReadHeader(m);
    Raw(Table(m, h, h.parts), Table(m, h, h.exts), Table(m, h, h.groups), Table(m, h, h.devs))
  }

  lemma LoadSized(m: seq<byte>)
    requires WellFormed(m)
    ensures Sized(Load(m))
    ensures var h := ReadHeader(m); var r := Load(m);
            AllSized(r.parts, h.parts.size) && AllSized(r.exts, h.exts.size)
            && AllSized(r.groups, h.groups.size) && AllSized(r.devs, h.devs.size)
  {
    var h := ReadHeader(m);
    TableSized(m, h.size + h.parts.off, h.parts.num, h.parts.size);
    TableSized(m, h.size + h.exts.off, h.exts.num, h.exts.size);
    TableSized(m, h.size + h.groups.off, h.groups.num, h.groups.size);
    TableSized(m, h.size + h.devs.off, h.devs.num, h.devs.size);
  }

  /** What the tables say. */
  ghost function Meaning(r: Raw): Layout
    requires Sized(r)
  {
    PlanSized(r.parts, r.exts);
    Layout(PartitionsOf(r.parts, Plan(r.parts, r.exts)), GroupsOf(r.groups), DevicesOf(r.devs))
  }

  /** Header and tables that lie in the first `n` bytes do not depend on the rest. */
  lemma LoadLocal(m: seq<byte>, n: nat)
    requires n <= |m| && HEADER_MIN <= n && Fits(ReadHeader(m[..n]), n)
    ensures ReadHeader(m) == ReadHeader(m[..n]) && Load(m) == Load(m[..n])
    ensures forall t: Desc :: TableEnd(ReadHeader(m), t) <= n ==> Blob(m, ReadHeader(m), t) == Blob(m[..n], ReadHeader(m), t)
  {
    HeaderSame(m, m[..n], n);
    var h := ReadHeader(m);
    TableLocal(m, n, h, h.parts);
    TableLocal(m, n, h, h.exts);
    TableLocal(m, n, h, h.groups);
    TableLocal(m, n, h, h.devs);
  }

  lemma HeaderSame(a: seq<byte>, b: seq<byte>, n: nat)
    requires HEADER_MIN <= n <= |a| && n <= |b| && a[..n] == b[..n]
    ensures ReadHeader(a) == ReadHeader(b)
  {
    Get32Same(a, b, n, H_HEADER_SIZE);
    DescSame(a, b, n, H_PARTITIONS);
    DescSame(a, b, n, H_EXTENTS);
    DescSame(a, b, n, H_GROUPS);
    DescSame(a, b, n, H_DEVICES);
  }

  lemma DescSame(a: seq<byte>, b: seq<byte>, n: nat, at: nat)
    requires n <= |a| && n <= |b| && a[..n] == b[..n] && at + 12 <= n
    ensures GetDesc(a, at) == GetDesc(b, at)
  {
    Get32Same(a, b, n, at);
    Get32Same(a, b, n, at + 4);
    Get32Same(a, b, n, at + 8);
  }

  lemma TableLocal(m: seq<byte>, n: nat, h: Header, t: Desc)
    requires n <= |m| && TableEnd(h, t) <= n
    ensures Table(m, h, t) == Table(m[..n], h, t)
  {
    forall i | 0 <= i < t.num ensures Table(m, h, t)[i] == Table(m[..n], h, t)[i] {
      EntryAt(m, h.size + t.off, t.num, t.size, i);
      EntryAt(m[..n], h.size + t.off, t.num, t.size, i);
      SpanGrows(i + 1, t.num, t.size);
    }
  }
}
