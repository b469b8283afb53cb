/** patch_slot of lp-resize-partition.py on bytes: the tables are rebuilt with one more extent
    and sealed with two checksums. SHA-256 is any function to 32 bytes. */
module LpResize {
  import opened Common
  import opened Bytes
  import opened LpAllocator
  import opened LpMetadata

  type Digest = s: seq<byte> | |s| == 32 witness seq(32, _ => 0)

  type Hash = seq<byte> -> Digest

  datatype Outcome = Malformed | NoHeader | Satisfied | Died(why: Why) | Overflow | Patched(blob: seq<byte>)

  // ------------------------------------------------------------------ the rebuilt tables

  /** All runs one after the other. */
  function Flat(plan: seq<seq<seq<byte>>>): seq<seq<byte>> {
    if plan == [] then [] else Flat(plan[..|plan| - 1]) + plan[|plan| - 1]
  }

  function Repointed(p: seq<byte>, first: nat, count: nat): (r: seq<byte>)
    requires 48 <= |p|
    ensures |r| == |p|
  {
    Put(p, 40, ToLe(first, 4) + ToLe(count, 4))
  }

  /** Each partition pointed at its run of the flattened table. */
  function Repack(parts: seq<seq<byte>>, plan: seq<seq<seq<byte>>>): (r: seq<seq<byte>>)
    requires AllAtLeast(parts, 52) && |plan| == |parts|
    ensures |r| == |parts|
  {
    if parts == [] then []
    else
      var n := |parts| - 1;
      Repack(parts[..n], plan[..n]) + [Repointed(parts[n], |Flat(plan[..n])|, |plan[n]|)]
  }

  function NewExtent(size: nat, e: Extent): (r: seq<byte>)
    requires 24 <= size
    ensures |r| == size
  {
    ToLe(e.sectors, 8) + ToLe(e.kind, 4) + ToLe(e.data, 8) + ToLe(e.source, 4) + Zeros(size - 24)
  }

  /** The descriptors of tables laid end to end. */
  function Tiled(h: Header, np: nat, ne: nat): Header {
    var p := Desc(0, np, h.parts.size);
    var e := Desc(Span(np, p.size), ne, h.exts.size);
    var g := Desc(e.off + Span(ne, e.size), h.groups.num, h.groups.size);
    Header(h.size, p, e, g, Desc(g.off + Span(g.num, g.size), h.devs.num, h.devs.size))
  }

  function DescBytes(d: Desc): (r: seq<byte>)
    ensures |r| == 12
  {
    ToLe(d.off, 4) + ToLe(d.num, 4) + ToLe(d.size, 4)
  }

  /** The old header with new checksums, tables size and descriptors. */
  function HeaderWith(hdr: seq<byte>, csum: Digest, n: nat, tcsum: Digest, t: Header): (r: seq<byte>)
    requires HEADER_MIN <= |hdr|
    ensures |r| == |hdr|
  {
    hdr[..H_HEADER_CSUM] + csum + ToLe(n, 4) + tcsum + DescBytes(t.parts) + DescBytes(t.exts)
    + DescBytes(t.groups) + DescBytes(t.devs) + hdr[HEADER_MIN..]
  }

  /** The header checksum is taken with its own field zeroed. */
  function Sealed(hdr: seq<byte>, tables: seq<byte>, t: Header, sha: Hash): (r: seq<byte>)
    requires HEADER_MIN <= |hdr|
    ensures |r| == |hdr|
  {
    HeaderWith(hdr, sha(HeaderWith(hdr, Zeros(32), |tables|, sha(tables), t)), |tables|, sha(tables), t)
  }

  /** The partitions' runs with the new extent at the end of one of them. */
  function PlanWith(m: seq<byte>, idx: nat, e: Extent): seq<seq<seq<byte>>>
    requires HEADER_MIN <= |m| && 24 <= ReadHeader(m).exts.size
    requires AllAtLeast(Load(m).parts, 52) && idx < |Load(m).parts|
  {
    var plan := Plan(Load(m).parts, Load(m).exts);
    plan[idx := plan[idx] + [NewExtent(ReadHeader(m).exts.size, e)]]
  }

  function TablesWith(m: seq<byte>, idx: nat, e: Extent): seq<byte>
    requires HEADER_MIN <= |m| && 24 <= ReadHeader(m).exts.size
    requires AllAtLeast(Load(m).parts, 52) && idx < |Load(m).parts|
  {
    var h := ReadHeader(m);
    var plan := PlanWith(m, idx, e);
    Concat(Repack(Load(m).parts, plan)) + Concat(Flat(plan)) + Blob(m, h, h.groups) + Blob(m, h, h.devs)
  }

  function Rebuilt(m: seq<byte>, idx: nat, e: Extent, sha: Hash): seq<byte>
    requires HEADER_MIN <= |m| && 24 <= ReadHeader(m).exts.size && HEADER_MIN <= ReadHeader(m).size <= |m|
    requires AllAtLeast(Load(m).parts, 52) && idx < |Load(m).parts|
  {
    var h := ReadHeader(m);
    var tables := TablesWith(m, idx, e);
    Sealed(m[..h.size], tables, Tiled(h, h.parts.num, |Flat(PlanWith(m, idx, e))|), sha) + tables
  }

  /** A header with all of its tables, or no metadata at all. */
  ghost predicate Usable(m: seq<byte>) {
    HEADER_MIN <= |m| && (Get32(m, 0) == HEADER_MAGIC ==> WellFormed(m))
  }

  /** What patch_slot returns. `Malformed` stands for everything that is not usable. */
  ghost function Patch(m: seq<byte>, target: seq<byte>, bytes: int, sha: Hash): Outcome {
    if !Usable(m) then Malformed
    else if Get32(m, 0) != HEADER_MAGIC then NoHeader
    else
      LoadSized(m);
      PatchBy(m, Grow(Meaning(Load(m)), target, bytes), sha)
  }

  function PatchBy(m: seq<byte>, growth: Growth, sha: Hash): Outcome
    requires HEADER_MIN <= |m| && 24 <= ReadHeader(m).exts.size && HEADER_MIN <= ReadHeader(m).size <= |m|
    requires AllAtLeast(Load(m).parts, 52) && (growth.Added? ==> growth.idx < |Load(m).parts|)
  {
    match growth
    case Enough => Satisfied
    case Refused(why) => Died(why)
    case Added(idx, e) =>
      if |TablesWith(m, idx, e)| >= U32 then Overflow else Patched(Rebuilt(m, idx, e, sha))
  }

  // ------------------------------------------------------------------ reading it back

  lemma DescRead(d: Desc, s: seq<byte>, at: nat)
    requires d.off < U32 && d.num < U32 && d.size < U32
    requires at + 12 <= |s| && s[at..at + 12] == DescBytes(d)
    ensures GetDesc(s, at) == d
  {
    Pow256Values();
    var x, y, z := ToLe(d.off, 4), ToLe(d.num, 4), ToLe(d.size, 4);
    LeToLe(d.off, 4);
    LeToLe(d.num, 4);
    LeToLe(d.size, 4);
    Thirds(s, at, x, y, z);
  }

  lemma Thirds(s: seq<byte>, at: nat, x: seq<byte>, y: seq<byte>, z: seq<byte>)
    requires |x| == |y| == |z| == 4 && at + 12 <= |s| && s[at..at + 12] == x + y + z
    ensures s[at..at + 4] == x && s[at + 4..at + 8] == y && s[at + 8..at + 12] == z
  {
    SubSlice(s, at, 12, 0, 4);
    SubSlice(s, at, 12, 4, 8);
    SubSlice(s, at, 12, 8, 12);
    assert (x + y + z)[0..4] == x && (x + y + z)[4..8] == y && (x + y + z)[8..12] == z;
  }

  ghost predicate Narrow(t: Header) {
    && t.parts.off < U32 && t.parts.num < U32 && t.parts.size < U32
    && t.exts.off < U32 && t.exts.num < U32 && t.exts.size < U32
    && t.groups.off < U32 && t.groups.num < U32 && t.groups.size < U32
    && t.devs.off < U32 && t.devs.num < U32 && t.devs.size < U32
  }

  lemma HeaderPieces(hdr: seq<byte>, csum: Digest, n: nat, tcsum: Digest, t: Header)
    requires HEADER_MIN <= |hdr|
    ensures var f := HeaderWith(hdr, csum, n, tcsum, t);
            && f[..12] == hdr[..12] && f[12..44] == csum && f[44..48] == ToLe(n, 4) && f[48..80] == tcsum
            && f[80..92] == DescBytes(t.parts) && f[92..104] == DescBytes(t.exts)
            && f[104..116] == DescBytes(t.groups) && f[116..128] == DescBytes(t.devs)
            && f[128..] == hdr[128..]
  {
  }

  lemma HeaderReads(hdr: seq<byte>, csum: Digest, n: nat, tcsum: Digest, t: Header)
    requires HEADER_MIN <= |hdr| && Narrow(t) && t.size == Get32(hdr, H_HEADER_SIZE)
    ensures ReadHeader(HeaderWith(hdr, csum, n, tcsum, t)) == t
    ensures Get32(HeaderWith(hdr, csum, n, tcsum, t), 0) == Get32(hdr, 0)
  {
    var f := HeaderWith(hdr, csum, n, tcsum, t);
    HeaderPieces(hdr, csum, n, tcsum, t);
    Get32Same(f, hdr, 12, 0);
    Get32Same(f, hdr, 12, H_HEADER_SIZE);
    DescRead(t.parts, f, 80);
    DescRead(t.exts, f, 92);
    DescRead(t.groups, f, 104);
    DescRead(t.devs, f, 116);
  }

  lemma {:induction false} RepackAt(parts: seq<seq<byte>>, plan: seq<seq<seq<byte>>>, i: nat)
    requires AllAtLeast(parts, 52) && |plan| == |parts| && i < |parts|
    ensures Repack(parts, plan)[i] == Repointed(parts[i], |Flat(plan[..i])|, |plan[i]|)
  {
    var n := |parts| - 1;
    if i < n {
      RepackAt(parts[..n], plan[..n], i);
      assert plan[..n][..i] == plan[..i];
    }
  }

  lemma {:induction false} FlatRun(plan: seq<seq<seq<byte>>>, i: nat)
    requires i < |plan|
    ensures |Flat(plan[..i])| + |plan[i]| <= |Flat(plan)|
    ensures Flat(plan)[|Flat(plan[..i])|..|Flat(plan[..i])| + |plan[i]|] == plan[i]
  {
    var n := |plan| - 1;
    if i < n {
      FlatRun(plan[..n], i);
      assert plan[..n][..i] == plan[..i];
    } else {
      assert plan[..i] == plan[..n];
    }
  }

  /** Repointing changes the run and nothing else of a partition entry. */
  lemma RepointedReads(p: seq<byte>, first: nat, count: nat)
    requires 52 <= |p| && first < U32 && count < U32
    ensures var q := Repointed(p, first, count);
            && First(q) == first && Count(q) == count
            && q[..40] == p[..40] && q[48..] == p[48..]
            && NameOf(q) == NameOf(p) && Get32(q, 36) == Get32(p, 36) && Get32(q, 48) == Get32(p, 48)
  {
    var q := Repointed(p, first, count);
    Pow256Values();
    LeToLe(first, 4);
    LeToLe(count, 4);
    assert q[40..44] == q[40..48][..4] == ToLe(first, 4);
    assert q[44..48] == q[40..48][4..] == ToLe(count, 4);
    assert q[48..52] == p[48..52];
    assert Slice(q, 0, 36) == q[..40][..36] == p[..40][..36] == Slice(p, 0, 36);
    Get32Same(q, p, 40, 36);
  }

  /** The index runs written by a rebuild tile the extents table: run `i` starts where the runs
      before it end, and reading the runs back gives the plan. */
  lemma PlanReadBack(parts: seq<seq<byte>>, plan: seq<seq<seq<byte>>>)
    requires AllAtLeast(parts, 52) && |plan| == |parts| && |Flat(plan)| < U32
    ensures AllAtLeast(Repack(parts, plan), 52)
    ensures Plan(Repack(parts, plan), Flat(plan)) == plan
    ensures forall i :: 0 <= i < |parts| ==>
              First(Repack(parts, plan)[i]) == |Flat(plan[..i])| && Count(Repack(parts, plan)[i]) == |plan[i]|
    ensures RunsInside(Repack(parts, plan), |Flat(plan)|)
  {
    var q := Repack(parts, plan);
    RepackAtLeast(parts, plan);
    forall i | 0 <= i < |parts|
      ensures First(q[i]) == |Flat(plan[..i])| && Count(q[i]) == |plan[i]|
      ensures First(q[i]) + Count(q[i]) <= |Flat(plan)|
    {
      RunReadBack(parts, plan, i);
    }
    forall i | 0 <= i < |parts| ensures Plan(q, Flat(plan))[i] == plan[i] {
      RunReadBack(parts, plan, i);
      PlanAt(q, Flat(plan), i);
    }
  }

  lemma RunReadBack(parts: seq<seq<byte>>, plan: seq<seq<seq<byte>>>, i: nat)
    requires AllAtLeast(parts, 52) && |plan| == |parts| && |Flat(plan)| < U32 && i < |parts|
    ensures var q := Repack(parts, plan)[i];
            && 52 <= |q| && First(q) == |Flat(plan[..i])| && Count(q) == |plan[i]|
            && First(q) + Count(q) <= |Flat(plan)|
            && Run(q, Flat(plan)) == plan[i]
  {
    RepackAt(parts, plan, i);
    FlatRun(plan, i);
    RepointedReads(parts[i], |Flat(plan[..i])|, |plan[i]|);
  }

  lemma RepackAtLeast(parts: seq<seq<byte>>, plan: seq<seq<seq<byte>>>)
    requires AllAtLeast(parts, 52) && |plan| == |parts|
    ensures AllAtLeast(Repack(parts, plan), 52)
  {
    forall i | 0 <= i < |parts| ensures 52 <= |Repack(parts, plan)[i]| {
      RepackAt(parts, plan, i);
    }
  }

  /** Rebuilding with a plan whose runs mean `plan` gives partitions that differ from the old in
      their extents only. */
  lemma {:induction false} PartitionsReadBack(parts: seq<seq<byte>>, plan: seq<seq<seq<byte>>>, n: nat)
    requires AllAtLeast(parts, 52) && |plan| == |parts| && |Flat(plan)| < U32 && n < |parts|
    requires RunsAtLeast(plan)
    requires AllAtLeast(Repack(parts, plan), 52)
    ensures PartitionsOf(Repack(parts, plan), plan)[n]
            == Partition(NameOf(parts[n]), Get32(parts[n], 36), Get32(parts[n], 48), ExtentsOf(plan[n]))
  {
    PartitionAt(Repack(parts, plan), plan, n);
    RepackAt(parts, plan, n);
    FlatRun(plan, n);
    RepointedReads(parts[n], |Flat(plan[..n])|, |plan[n]|);
  }

  lemma NewExtentReads(size: nat, e: Extent)
    requires 24 <= size && e.sectors < U64 && e.kind < U32 && e.data < U64 && e.source < U32
    ensures ExtentOf(NewExtent(size, e)) == e
  {
    var x := NewExtent(size, e);
    Pow256Values();
    LeToLe(e.sectors, 8);
    LeToLe(e.kind, 4);
    LeToLe(e.data, 8);
    LeToLe(e.source, 4);
    assert x[0..8] == ToLe(e.sectors, 8) && x[8..12] == ToLe(e.kind, 4);
    assert x[12..20] == ToLe(e.data, 8) && x[20..24] == ToLe(e.source, 4);
  }

  // ------------------------------------------------------------------ the whole block

  ghost predicate RunsSized(plan: seq<seq<seq<byte>>>, sz: nat) {
    forall i :: 0 <= i < |plan| ==> AllSized(plan[i], sz)
  }

  lemma {:induction false} FlatSized(plan: seq<seq<seq<byte>>>, sz: nat)
    requires RunsSized(plan, sz)
    ensures AllSized(Flat(plan), sz)
  {
    if plan != [] {
      FlatSized(plan[..|plan| - 1], sz);
    }
  }

  lemma RepackSized(parts: seq<seq<byte>>, plan: seq<seq<seq<byte>>>, sz: nat)
    requires AllAtLeast(parts, 52) && |plan| == |parts| && AllSized(parts, sz)
    ensures AllSized(Repack(parts, plan), sz)
  {
    forall i | 0 <= i < |parts| ensures |Repack(parts, plan)[i]| == sz {
      RepackAt(parts, plan, i);
    }
  }

  lemma PlanWithSized(m: seq<byte>, idx: nat, e: Extent)
    requires WellFormed(m) && AllAtLeast(Load(m).parts, 52) && idx < |Load(m).parts|
    ensures var plan := PlanWith(m, idx, e);
            && |plan| == |Load(m).parts| && RunsSized(plan, ReadHeader(m).exts.size) && RunsAtLeast(plan)
  {
    LoadSized(m);
    var r := Load(m);
    forall i | 0 <= i < |r.parts| ensures AllSized(Plan(r.parts, r.exts)[i], ReadHeader(m).exts.size) {
      PlanAt(r.parts, r.exts, i);
    }
  }

  lemma {:induction false} SpanAtLeast(n: nat, sz: nat)
    requires 0 < sz
    ensures n <= Span(n, sz)
  {
    if n > 0 {
      SpanAtLeast(n - 1, sz);
    }
  }

  /** The four tables lie end to end from the header on and fill the tables exactly. */
  lemma TablesTile(m: seq<byte>, idx: nat, e: Extent)
    requires WellFormed(m) && AllAtLeast(Load(m).parts, 52) && idx < |Load(m).parts|
    ensures var h := ReadHeader(m); var plan := PlanWith(m, idx, e);
            var t := Tiled(h, h.parts.num, |Flat(plan)|);
            && AllSized(Repack(Load(m).parts, plan), h.parts.size) && AllSized(Flat(plan), h.exts.size)
            && |Concat(Repack(Load(m).parts, plan))| == t.exts.off
            && |Concat(Flat(plan))| == t.groups.off - t.exts.off
            && Blob(m, h, h.groups) == Concat(Load(m).groups) && |Blob(m, h, h.groups)| == t.devs.off - t.groups.off
            && Blob(m, h, h.devs) == Concat(Load(m).devs)
            && TableEnd(t, t.devs) == h.size + |TablesWith(m, idx, e)|
  {
    var h, r, plan := ReadHeader(m), Load(m), PlanWith(m, idx, e);
    LoadSized(m);
    PlanWithSized(m, idx, e);
    RepackSized(r.parts, plan, h.parts.size);
    FlatSized(plan, h.exts.size);
    ConcatLength(Repack(r.parts, plan), h.parts.size);
    ConcatLength(Flat(plan), h.exts.size);
    BlobConcat(m, h, h.groups);
    BlobConcat(m, h, h.devs);
  }

  lemma BlobConcat(m: seq<byte>, h: Header, t: Desc)
    requires TableEnd(h, t) <= |m|
    ensures Blob(m, h, t) == Concat(Table(m, h, t)) && |Blob(m, h, t)| == Span(t.num, t.size)
  {
    TableConcat(m, h.size + t.off, t.num, t.size);
  }

  /** The new descriptors fit their 32-bit fields. */
  lemma TiledNarrow(m: seq<byte>, idx: nat, e: Extent)
    requires WellFormed(m) && AllAtLeast(Load(m).parts, 52) && idx < |Load(m).parts|
    requires |TablesWith(m, idx, e)| < U32
    ensures var h := ReadHeader(m);
            Narrow(Tiled(h, h.parts.num, |Flat(PlanWith(m, idx, e))|)) && |Flat(PlanWith(m, idx, e))| < U32
  {
    var h := ReadHeader(m);
    TablesTile(m, idx, e);
    SpanAtLeast(|Flat(PlanWith(m, idx, e))|, h.exts.size);
    GetRange(m, 84);
    GetRange(m, 88);
    GetRange(m, 100);
    GetRange(m, 108);
    GetRange(m, 112);
    GetRange(m, 120);
    GetRange(m, 124);
  }

  lemma RebuiltHeader(m: seq<byte>, idx: nat, e: Extent, sha: Hash, post: seq<byte>)
    requires WellFormed(m) && AllAtLeast(Load(m).parts, 52) && idx < |Load(m).parts|
    requires |TablesWith(m, idx, e)| < U32
    ensures var d := Rebuilt(m, idx, e, sha) + post; var h := ReadHeader(m);
            && HEADER_MIN <= |d| && Get32(d, 0) == Get32(m, 0)
            && ReadHeader(d) == Tiled(h, h.parts.num, |Flat(PlanWith(m, idx, e))|)
  {
    var h, tables := ReadHeader(m), TablesWith(m, idx, e);
    var t := Tiled(h, h.parts.num, |Flat(PlanWith(m, idx, e))|);
    var hdr := m[..h.size];
    TiledNarrow(m, idx, e);
    Get32Same(hdr, m, h.size, H_HEADER_SIZE);
    Get32Same(hdr, m, h.size, 0);
    var csum := sha(HeaderWith(hdr, Zeros(32), |tables|, sha(tables), t));
    HeaderReads(hdr, csum, |tables|, sha(tables), t);
    var f := Sealed(hdr, tables, t, sha);
    var d := Rebuilt(m, idx, e, sha) + post;
    assert d[..h.size] == f == f[..h.size];
    HeaderSame(d, f, h.size);
    Get32Same(d, f, h.size, 0);
  }

  /** A descriptor whose span holds a concatenation reads it back. */
  lemma ReadsAs(d: seq<byte>, t: Header, q: Desc, chunks: seq<seq<byte>>, lo: nat, hi: nat)
    requires q.num == |chunks| && AllSized(chunks, q.size)
    requires lo == t.size + q.off && hi == lo + Span(q.num, q.size) && hi <= |d|
    requires d[lo..hi] == Concat(chunks)
    ensures Table(d, t, q) == chunks
  {
    ConcatLength(chunks, q.size);
    TableReadBack(d, lo, chunks, q.size);
  }

  /** The four tables, concatenated, lie end to end where descriptors `t` say. */
  ghost predicate Laid(d: seq<byte>, t: Header, r: Raw) {
    && t.size + t.parts.off <= t.size + t.exts.off <= t.size + t.groups.off <= t.size + t.devs.off <= TableEnd(t, t.devs) <= |d|
    && d[t.size + t.parts.off..t.size + t.exts.off] == Concat(r.parts)
    && d[t.size + t.exts.off..t.size + t.groups.off] == Concat(r.exts)
    && d[t.size + t.groups.off..t.size + t.devs.off] == Concat(r.groups)
    && d[t.size + t.devs.off..TableEnd(t, t.devs)] == Concat(r.devs)
  }

  ghost predicate SizedBy(r: Raw, h: Header) {
    && AllSized(r.parts, h.parts.size) && AllSized(r.exts, h.exts.size)
    && AllSized(r.groups, h.groups.size) && AllSized(r.devs, h.devs.size)
    && |r.groups| == h.groups.num && |r.devs| == h.devs.num
  }

  lemma LaidParts(d: seq<byte>, h: Header, r: Raw)
    requires SizedBy(r, h) && Laid(d, Tiled(h, |r.parts|, |r.exts|), r)
    ensures var t := Tiled(h, |r.parts|, |r.exts|); Table(d, t, t.parts) == r.parts
  {
    var t := Tiled(h, |r.parts|, |r.exts|);
    ReadsAs(d, t, t.parts, r.parts, t.size + t.parts.off, t.size + t.exts.off);
  }

  lemma LaidExts(d: seq<byte>, h: Header, r: Raw)
    requires SizedBy(r, h) && Laid(d, Tiled(h, |r.parts|, |r.exts|), r)
    ensures var t := Tiled(h, |r.parts|, |r.exts|); Table(d, t, t.exts) == r.exts
  {
    var t := Tiled(h, |r.parts|, |r.exts|);
    ReadsAs(d, t, t.exts, r.exts, t.size + t.exts.off, t.size + t.groups.off);
  }

  lemma LaidGroups(d: seq<byte>, h: Header, r: Raw)
    requires SizedBy(r, h) && Laid(d, Tiled(h, |r.parts|, |r.exts|), r)
    ensures var t := Tiled(h, |r.parts|, |r.exts|); Table(d, t, t.groups) == r.groups
  {
    var t := Tiled(h, |r.parts|, |r.exts|);
    ReadsAs(d, t, t.groups, r.groups, t.size + t.groups.off, t.size + t.devs.off);
  }

  lemma LaidDevs(d: seq<byte>, h: Header, r: Raw)
    requires SizedBy(r, h) && Laid(d, Tiled(h, |r.parts|, |r.exts|), r)
    ensures var t := Tiled(h, |r.parts|, |r.exts|); Table(d, t, t.devs) == r.devs
  {
    var t := Tiled(h, |r.parts|, |r.exts|);
    ReadsAs(d, t, t.devs, r.devs, t.size + t.devs.off, TableEnd(t, t.devs));
  }

  lemma LaidDown(f: seq<byte>, h: Header, r: Raw, post: seq<byte>)
    requires SizedBy(r, h) && |f| == h.size
    ensures Laid(f + (Concat(r.parts) + Concat(r.exts) + Concat(r.groups) + Concat(r.devs)) + post,
                 Tiled(h, |r.parts|, |r.exts|), r)
  {
    var t := Tiled(h, |r.parts|, |r.exts|);
    ConcatLength(r.parts, h.parts.size);
    ConcatLength(r.exts, h.exts.size);
    ConcatLength(r.groups, h.groups.size);
    ConcatLength(r.devs, h.devs.size);
  }

  /** The tables a rebuild writes. */
  function RawWith(m: seq<byte>, idx: nat, e: Extent): Raw
    requires HEADER_MIN <= |m| && 24 <= ReadHeader(m).exts.size
    requires AllAtLeast(Load(m).parts, 52) && idx < |Load(m).parts|
  {
    var plan := PlanWith(m, idx, e);
    Raw(Repack(Load(m).parts, plan), Flat(plan), Load(m).groups, Load(m).devs)
  }

  lemma RebuiltLaid(m: seq<byte>, idx: nat, e: Extent, sha: Hash, post: seq<byte>)
    requires WellFormed(m) && AllAtLeast(Load(m).parts, 52) && idx < |Load(m).parts|
    ensures SizedBy(RawWith(m, idx, e), ReadHeader(m))
    ensures Laid(Rebuilt(m, idx, e, sha) + post, Tiled(ReadHeader(m), |Load(m).parts|, |Flat(PlanWith(m, idx, e))|), RawWith(m, idx, e))
  {
    var h, r, w := ReadHeader(m), Load(m), RawWith(m, idx, e);
    var f := Sealed(m[..h.size], TablesWith(m, idx, e), Tiled(h, |r.parts|, |w.exts|), sha);
    TablesTile(m, idx, e);
    LoadSized(m);
    LaidDown(f, h, w, post);
  }

  /** Reading the rebuilt block, whatever follows it, gives the tables that were written. */
  lemma RebuiltLoads(m: seq<byte>, idx: nat, e: Extent, sha: Hash, post: seq<byte>)
    requires WellFormed(m) && AllAtLeast(Load(m).parts, 52) && idx < |Load(m).parts|
    requires |TablesWith(m, idx, e)| < U32
    ensures var d := Rebuilt(m, idx, e, sha) + post; HEADER_MIN <= |d| && Load(d) == RawWith(m, idx, e)
  {
    var d, h, w := Rebuilt(m, idx, e, sha) + post, ReadHeader(m), RawWith(m, idx, e);
    RebuiltHeader(m, idx, e, sha, post);
    RebuiltLaid(m, idx, e, sha, post);
    LaidParts(d, h, w);
    LaidExts(d, h, w);
    LaidGroups(d, h, w);
    LaidDevs(d, h, w);
  }

  lemma RebuiltSound(m: seq<byte>, idx: nat, e: Extent, sha: Hash, post: seq<byte>)
    requires WellFormed(m) && AllAtLeast(Load(m).parts, 52) && idx < |Load(m).parts|
    requires |TablesWith(m, idx, e)| < U32
    ensures Sound(Rebuilt(m, idx, e, sha) + post)
  {
    RebuiltHeader(m, idx, e, sha, post);
    RebuiltLoads(m, idx, e, sha, post);
    RebuiltFits(m, idx, e, sha, post);
    TiledNarrow(m, idx, e);
    PlanReadBack(Load(m).parts, PlanWith(m, idx, e));
  }

  /** The block is the header and the tables, with nothing after them. */
  lemma RebuiltFits(m: seq<byte>, idx: nat, e: Extent, sha: Hash, post: seq<byte>)
    requires WellFormed(m) && AllAtLeast(Load(m).parts, 52) && idx < |Load(m).parts|
    ensures var h := ReadHeader(m);
            var t := Tiled(h, h.parts.num, |Flat(PlanWith(m, idx, e))|);
            && Fits(t, |Rebuilt(m, idx, e, sha)|) && Fits(t, |Rebuilt(m, idx, e, sha) + post|)
            && |Rebuilt(m, idx, e, sha)| == TableEnd(t, t.devs)
  {
    TablesTile(m, idx, e);
  }

  // ------------------------------------------------------------------ main results

  ghost predicate Fitting(e: Extent) {
    e.sectors < U64 && e.kind < U32 && e.data < U64 && e.source < U32
  }

  lemma ExtentsAppend(run: seq<seq<byte>>, x: seq<byte>)
    requires AllAtLeast(run, 24) && 24 <= |x|
    ensures AllAtLeast(run + [x], 24) && ExtentsOf(run + [x]) == ExtentsOf(run) + [ExtentOf(x)]
  {
    assert (run + [x])[..|run|] == run;
  }

  /** Rebuilding keeps each partition entry's first 40 bytes and everything from byte 48 on. */
  lemma RepackKeepsEntries(parts: seq<seq<byte>>, plan: seq<seq<seq<byte>>>, i: nat)
    requires AllAtLeast(parts, 52) && |plan| == |parts| && |Flat(plan)| < U32 && i < |parts|
    ensures var p, q := parts[i], Repack(parts, plan)[i];
            |q| == |p| && q[..40] == p[..40] && q[48..] == p[48..]
  {
    RepackAt(parts, plan, i);
    FlatRun(plan, i);
    RepointedReads(parts[i], |Flat(plan[..i])|, |plan[i]|);
  }

  /** Partition `i` means what it meant, with run `i` of the new plan for its extents. */
  lemma RepackMeaning(parts: seq<seq<byte>>, plan: seq<seq<seq<byte>>>, grown: seq<seq<seq<byte>>>, i: nat)
    requires AllAtLeast(parts, 52) && |plan| == |grown| == |parts| && i < |parts|
    requires RunsAtLeast(plan) && RunsAtLeast(grown) && |Flat(grown)| < U32
    requires AllAtLeast(Repack(parts, grown), 52)
    ensures PartitionsOf(Repack(parts, grown), grown)[i] == PartitionsOf(parts, plan)[i].(extents := ExtentsOf(grown[i]))
  {
    PartitionsReadBack(parts, grown, i);
    PartitionAt(parts, plan, i);
  }

  /** The partitions of a rebuild: one has one more extent, nothing else differs. */
  lemma RepackAllMeaning(parts: seq<seq<byte>>, plan: seq<seq<seq<byte>>>, idx: nat, x: seq<byte>)
    requires AllAtLeast(parts, 52) && |plan| == |parts| && idx < |parts| && 24 <= |x| && RunsAtLeast(plan)
    requires var grown := plan[idx := plan[idx] + [x]];
             |Flat(grown)| < U32 && RunsAtLeast(grown) && AllAtLeast(Repack(parts, grown), 52)
    ensures var grown := plan[idx := plan[idx] + [x]];
            var before := PartitionsOf(parts, plan);
            PartitionsOf(Repack(parts, grown), grown)
            == before[idx := before[idx].(extents := before[idx].extents + [ExtentOf(x)])]
  {
    var grown := plan[idx := plan[idx] + [x]];
    var before, after := PartitionsOf(parts, plan), PartitionsOf(Repack(parts, grown), grown);
    ExtentsAppend(plan[idx], x);
    forall i | 0 <= i < |parts|
      ensures after[i] == if i == idx then before[i].(extents := before[i].extents + [ExtentOf(x)]) else before[i]
    {
      RepackMeaning(parts, plan, grown, i);
      PartitionAt(parts, plan, i);
    }
  }

  lemma MeaningWith(m: seq<byte>, idx: nat, e: Extent)
    requires WellFormed(m) && Sized(Load(m)) && idx < |Load(m).parts|
    requires Fitting(e) && |TablesWith(m, idx, e)| < U32 && Sized(RawWith(m, idx, e))
    ensures Meaning(RawWith(m, idx, e)).parts == Appended(Meaning(Load(m)), idx, e).parts
  {
    var r, x := Load(m), NewExtent(ReadHeader(m).exts.size, e);
    var grown := PlanWith(m, idx, e);
    TiledNarrow(m, idx, e);
    PlanSized(r.parts, r.exts);
    PlanWithSized(m, idx, e);
    NewExtentReads(ReadHeader(m).exts.size, e);
    PlanReadBack(r.parts, grown);
    RepackAllMeaning(r.parts, Plan(r.parts, r.exts), idx, x);
  }

  lemma RawWithSized(m: seq<byte>, idx: nat, e: Extent)
    requires WellFormed(m) && Sized(Load(m)) && idx < |Load(m).parts|
    ensures Sized(RawWith(m, idx, e))
  {
    PlanWithSized(m, idx, e);
    RepackAtLeast(Load(m).parts, PlanWith(m, idx, e));
    FlatAtLeast(m, idx, e);
  }

  lemma FlatAtLeast(m: seq<byte>, idx: nat, e: Extent)
    requires WellFormed(m) && AllAtLeast(Load(m).parts, 52) && idx < |Load(m).parts|
    ensures AllAtLeast(Flat(PlanWith(m, idx, e)), 24)
  {
    PlanWithSized(m, idx, e);
    FlatSized(PlanWith(m, idx, e), ReadHeader(m).exts.size);
  }

  /** The rebuilt block means the old layout with one extent appended to one partition: every
      other partition keeps its extents, and names, attributes, groups and devices stay. */
  lemma RebuiltMeaning(m: seq<byte>, idx: nat, e: Extent, sha: Hash, post: seq<byte>)
    requires WellFormed(m) && Sized(Load(m)) && idx < |Load(m).parts|
    requires Fitting(e) && |TablesWith(m, idx, e)| < U32
    ensures var d := Rebuilt(m, idx, e, sha) + post;
            HEADER_MIN <= |d| && Sized(Load(d)) && Meaning(Load(d)) == Appended(Meaning(Load(m)), idx, e)
  {
    RebuiltLoads(m, idx, e, sha, post);
    RawWithSized(m, idx, e);
    MeaningWith(m, idx, e);
  }

  /** liblp's two checks: the tables hash to their field, and so does the header with that
      field zeroed. */
  ghost predicate ChecksumsVerify(d: seq<byte>, sha: Hash) {
    HEADER_MIN <= |d| &&
    var hs, ts := Get32(d, H_HEADER_SIZE), Get32(d, H_TABLES_SIZE);
    && HEADER_MIN <= hs && hs + ts <= |d|
    && d[H_TABLES_CSUM..80] == sha(d[hs..hs + ts])
    && d[H_HEADER_CSUM..44] == sha(d[..H_HEADER_CSUM] + Zeros(32) + d[44..hs])
  }

  lemma SealedVerifies(hdr: seq<byte>, tables: seq<byte>, t: Header, sha: Hash, post: seq<byte>)
    requires HEADER_MIN <= |hdr| && Get32(hdr, H_HEADER_SIZE) == |hdr| && |tables| < U32
    ensures ChecksumsVerify(Sealed(hdr, tables, t, sha) + tables + post, sha)
  {
    var z := HeaderWith(hdr, Zeros(32), |tables|, sha(tables), t);
    var f := Sealed(hdr, tables, t, sha);
    HeaderPieces(hdr, sha(z), |tables|, sha(tables), t);
    HeaderPieces(hdr, Zeros(32), |tables|, sha(tables), t);
    SizesRead(hdr, f, f + tables + post, |tables|);
    Resealed(f, z, |hdr|);
    PrefixOf(f, tables, post);
  }

  /** The two size fields of a block that starts with header `f`. */
  lemma SizesRead(hdr: seq<byte>, f: seq<byte>, d: seq<byte>, n: nat)
    requires HEADER_MIN <= |hdr| == |f| && f <= d && n < U32 && f[..12] == hdr[..12] && f[44..48] == ToLe(n, 4)
    ensures Get32(d, H_HEADER_SIZE) == Get32(hdr, H_HEADER_SIZE) && Get32(d, H_TABLES_SIZE) == n
  {
    Get32Same(f, hdr, 12, H_HEADER_SIZE);
    Get32Same(d, f, |f|, H_HEADER_SIZE);
    Get32Same(d, f, |f|, H_TABLES_SIZE);
    Pow256Values();
    LeToLe(n, 4);
  }

  /** Zeroing the checksum field of the sealed header gives the header the checksum was taken of. */
  lemma Resealed(f: seq<byte>, z: seq<byte>, n: nat)
    requires HEADER_MIN <= |f| == |z| == n && f[..12] == z[..12] && z[12..44] == Zeros(32)
    requires f[44..48] == z[44..48] && f[48..80] == z[48..80] && f[80..92] == z[80..92] && f[92..104] == z[92..104]
    requires f[104..116] == z[104..116] && f[116..128] == z[116..128] && f[128..] == z[128..]
    ensures f[..12] + Zeros(32) + f[44..] == z
  {
    assert z == z[..12] + z[12..44] + z[44..48] + z[48..80] + z[80..92] + z[92..104] + z[104..116] + z[116..128] + z[128..];
    assert f[44..] == f[44..48] + f[48..80] + f[80..92] + f[92..104] + f[104..116] + f[116..128] + f[128..];
  }

  lemma PrefixOf(f: seq<byte>, tables: seq<byte>, post: seq<byte>)
    requires HEADER_MIN <= |f|
    ensures var d := f + tables + post;
            && f <= d && d[|f|..|f| + |tables|] == tables
            && d[..12] == f[..12] && d[12..44] == f[12..44] && d[48..80] == f[48..80] && d[44..|f|] == f[44..]
  {
  }

  lemma RebuiltVerifies(m: seq<byte>, idx: nat, e: Extent, sha: Hash, post: seq<byte>)
    requires WellFormed(m) && AllAtLeast(Load(m).parts, 52) && idx < |Load(m).parts|
    requires |TablesWith(m, idx, e)| < U32
    ensures ChecksumsVerify(Rebuilt(m, idx, e, sha) + post, sha)
  {
    var h := ReadHeader(m);
    Get32Same(m[..h.size], m, h.size, H_HEADER_SIZE);
    SealedVerifies(m[..h.size], TablesWith(m, idx, e), Tiled(h, h.parts.num, |Flat(PlanWith(m, idx, e))|), sha, post);
  }

  /** `d` starts with valid metadata that means layout `l`. */
  ghost predicate Holds(d: seq<byte>, l: Layout, sha: Hash) {
    && HEADER_MIN <= |d| && Get32(d, 0) == HEADER_MAGIC && Sound(d) && Sized(Load(d))
    && Meaning(Load(d)) == l && ChecksumsVerify(d, sha)
  }

  /** Header and tables end exactly at byte `n`. */
  ghost predicate EndsAt(d: seq<byte>, n: nat) {
    HEADER_MIN <= |d| && Fits(ReadHeader(d), n) && n == TableEnd(ReadHeader(d), ReadHeader(d).devs)
  }

  lemma RebuiltHolds(m: seq<byte>, idx: nat, e: Extent, sha: Hash, post: seq<byte>)
    requires WellFormed(m) && Get32(m, 0) == HEADER_MAGIC && Sized(Load(m)) && idx < |Load(m).parts|
    requires Fitting(e) && |TablesWith(m, idx, e)| < U32
    ensures Holds(Rebuilt(m, idx, e, sha) + post, Appended(Meaning(Load(m)), idx, e), sha)
  {
    RebuiltMeaning(m, idx, e, sha, post);
    RebuiltSound(m, idx, e, sha, post);
    RebuiltVerifies(m, idx, e, sha, post);
    RebuiltHeader(m, idx, e, sha, post);
  }

  lemma RebuiltEndsAt(m: seq<byte>, idx: nat, e: Extent, sha: Hash, post: seq<byte>)
    requires WellFormed(m) && Sized(Load(m)) && idx < |Load(m).parts| && |TablesWith(m, idx, e)| < U32
    ensures EndsAt(Rebuilt(m, idx, e, sha) + post, |Rebuilt(m, idx, e, sha)|)
  {
    RebuiltHeader(m, idx, e, sha, post);
    RebuiltFits(m, idx, e, sha, post);
  }

  /** What every successful patch guarantees: the block it returns, whatever follows it, is well
      formed, verifies, and means the layout grown by the allocator; its four descriptors tile
      its tables exactly. */
  lemma PatchedBlock(m: seq<byte>, target: seq<byte>, bytes: int, sha: Hash, blob: seq<byte>, post: seq<byte>)
    requires HEADER_MIN <= |m| && Get32(m, 0) == HEADER_MAGIC && WellFormed(m) && Sized(Load(m))
    requires Patch(m, target, bytes, sha) == Patched(blob)
    ensures Holds(blob + post, Grown(Meaning(Load(m)), target, bytes), sha)
    ensures EndsAt(blob + post, |blob|)
  {
    var idx, e := PatchedHow(m, target, bytes, sha, blob);
    GrowthFits(m, target, bytes);
    RebuiltHolds(m, idx, e, sha, post);
    RebuiltEndsAt(m, idx, e, sha, post);
  }

  lemma PatchedHow(m: seq<byte>, target: seq<byte>, bytes: int, sha: Hash, blob: seq<byte>) returns (idx: nat, e: Extent)
    requires HEADER_MIN <= |m| && Get32(m, 0) == HEADER_MAGIC && WellFormed(m) && Sized(Load(m))
    requires Patch(m, target, bytes, sha) == Patched(blob)
    ensures idx < |Load(m).parts| && Grow(Meaning(Load(m)), target, bytes) == Added(idx, e)
    ensures |TablesWith(m, idx, e)| < U32 && blob == Rebuilt(m, idx, e, sha)
    ensures Grown(Meaning(Load(m)), target, bytes) == Appended(Meaning(Load(m)), idx, e)
  {
    var growth := Grow(Meaning(Load(m)), target, bytes);
    idx, e := growth.idx, growth.extent;
  }

  /** A new extent's fields fit their 64-bit words. */
  lemma GrowthFits(m: seq<byte>, target: seq<byte>, bytes: int)
    requires WellFormed(m) && Sized(Load(m)) && Grow(Meaning(Load(m)), target, bytes).Added?
    ensures Fitting(Grow(Meaning(Load(m)), target, bytes).extent)
  {
    var l := Meaning(Load(m));
    NewExtentIsFree(l, target, bytes, 0, 0);
    DeviceAt(Load(m).devs, 0);
    GetRange(Load(m).devs[0], 16);
  }
}
