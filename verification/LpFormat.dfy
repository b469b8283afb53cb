/** liblp's structs written out field by field, in the order in which they are declared, and what the
    tools read from them. */
module LpFormat {
  import opened Common
  import opened Bytes
  import opened LpAllocator
  import opened LpMetadata
  import opened LpSuper

  // ------------------------------------------------------------------ fields one after the other

  function Join(fields: seq<seq<byte>>): seq<byte> {
    if fields == [] then [] else fields[0] + Join(fields[1..])
  }

  /** Where field `i` starts. */
  function Start(fields: seq<seq<byte>>, i: nat): nat
    requires i <= |fields|
  {
    if i == 0 then 0 else |fields[0]| + Start(fields[1..], i - 1)
  }

  lemma {:induction false} StartNext(fields: seq<seq<byte>>, i: nat)
    requires i < |fields|
    ensures Start(fields, i + 1) == Start(fields, i) + |fields[i]|
  {
    if i > 0 {
      StartNext(fields[1..], i - 1);
    }
  }

  lemma {:induction false} FieldIn(fields: seq<seq<byte>>, i: nat)
    requires i < |fields|
    ensures Start(fields, i) + |fields[i]| <= |Join(fields)|
    ensures Join(fields)[Start(fields, i)..Start(fields, i) + |fields[i]|] == fields[i]
  {
    if i > 0 {
      FieldIn(fields[1..], i - 1);
      var a, b := fields[0], Join(fields[1..]);
      var s := Start(fields[1..], i - 1);
      assert (a + b)[|a| + s..|a| + s + |fields[i]|] == b[s..s + |fields[i]|];
    }
  }

  /** `d` has the fields at `at`. */
  ghost predicate HasStruct(d: seq<byte>, at: nat, fields: seq<seq<byte>>) {
    at + |Join(fields)| <= |d| && d[at..at + |Join(fields)|] == Join(fields)
  }

  lemma FieldAt(d: seq<byte>, at: nat, fields: seq<seq<byte>>, i: nat)
    requires HasStruct(d, at, fields) && i < |fields|
    ensures var s := at + Start(fields, i); s + |fields[i]| <= |d| && d[s..s + |fields[i]|] == fields[i]
  {
    FieldIn(fields, i);
    SubSlice(d, at, |Join(fields)|, Start(fields, i), Start(fields, i) + |fields[i]|);
  }

  lemma Word32(d: seq<byte>, at: nat, fields: seq<seq<byte>>, i: nat, v: nat)
    requires HasStruct(d, at, fields) && i < |fields| && fields[i] == ToLe(v, 4) && v < U32
    ensures at + Start(fields, i) + 4 <= |d| && Get32(d, at + Start(fields, i)) == v
  {
    FieldAt(d, at, fields, i);
    Pow256Values();
    LeToLe(v, 4);
  }

  lemma Word64(d: seq<byte>, at: nat, fields: seq<seq<byte>>, i: nat, v: nat)
    requires HasStruct(d, at, fields) && i < |fields| && fields[i] == ToLe(v, 8) && v < U64
    ensures at + Start(fields, i) + 8 <= |d| && Get64(d, at + Start(fields, i)) == v
  {
    FieldAt(d, at, fields, i);
    Pow256Values();
    LeToLe(v, 8);
  }

  /** Little-endian: the first byte counts least. */
  lemma LowByteFirst(a: byte, b: byte, c: byte, d: byte)
    ensures Le([a, b, c, d]) == a + 256 * b + 65536 * c + 16777216 * d
  {
    assert [a, b, c, d][1..] == [b, c, d] && [b, c, d][1..] == [c, d] && [c, d][1..] == [d] && [d][1..] == [];
    assert Le([]) == 0;
    assert Le([d]) == d;
    assert Le([c, d]) == c + 256 * d;
    assert Le([b, c, d]) == b + 256 * c + 65536 * d;
  }

  // ------------------------------------------------------------------ LpMetadataGeometry

  datatype Geometry = Geometry(structSize: nat, checksum: seq<byte>, maxSize: nat, slotCount: nat, blockSize: nat)

  function GeometryFields(g: Geometry): seq<seq<byte>> {
    [ToLe(0x616C_4467, 4), ToLe(g.structSize, 4), g.checksum, ToLe(g.maxSize, 4), ToLe(g.slotCount, 4), ToLe(g.blockSize, 4)]
  }

  /** From the geometry's bytes at 4096 the program reads its magic number, the size of a metadata region
      and the number of slots; slot `r` starts that many regions behind 12288. */
  lemma GeometryReads(d: seq<byte>, g: Geometry, r: nat)
    requires HasStruct(d, 4096, GeometryFields(g)) && |g.checksum| == 32 && g.maxSize < U32 && g.slotCount < U32
    requires META_BASE <= |d|
    ensures Get32(d, GEOMETRY_OFFSET) == GEOMETRY_MAGIC && MaxSize(d) == g.maxSize && SlotCount(d) == g.slotCount
    ensures Base(r, MaxSize(d)) == 12288 + r * g.maxSize
    ensures Whole(d) <==> 12288 + 2 * g.slotCount * g.maxSize <= |d|
  {
    var f := GeometryFields(g);
    GeometryStarts(g);
    Word32(d, 4096, f, 0, 0x616C_4467);
    Word32(d, 4096, f, 3, g.maxSize);
    Word32(d, 4096, f, 4, g.slotCount);
    SpanIsProduct(r, g.maxSize);
    SpanIsProduct(2 * g.slotCount, g.maxSize);
  }

  lemma GeometryStarts(g: Geometry)
    requires |g.checksum| == 32
    ensures var f := GeometryFields(g); Start(f, 0) == 0 && Start(f, 3) == 40 && Start(f, 4) == 44
  {
    var f := GeometryFields(g);
    StartNext(f, 0);
    StartNext(f, 1);
    StartNext(f, 2);
    StartNext(f, 3);
  }

  // ------------------------------------------------------------------ LpMetadataHeader

  function DescFields(t: Desc): seq<seq<byte>> {
    [ToLe(t.off, 4), ToLe(t.num, 4), ToLe(t.size, 4)]
  }

  /** Magic number, version, header size and checksum, the tables' size and checksum, then the
      descriptors of partitions, extents, groups and block devices. */
  function HeaderFields(major: nat, minor: nat, csum: seq<byte>, tables: nat, tcsum: seq<byte>, h: Header): seq<seq<byte>> {
    [ToLe(0x414C_5030, 4), ToLe(major, 2), ToLe(minor, 2), ToLe(h.size, 4), csum, ToLe(tables, 4), tcsum]
    + (DescFields(h.parts) + DescFields(h.exts) + DescFields(h.groups) + DescFields(h.devs))
  }

  ghost predicate DescNarrow(t: Desc) { t.off < U32 && t.num < U32 && t.size < U32 }

  lemma DescAt(m: seq<byte>, fields: seq<seq<byte>>, i: nat, t: Desc)
    requires HasStruct(m, 0, fields) && i + 3 <= |fields| && fields[i..i + 3] == DescFields(t) && DescNarrow(t)
    ensures Start(fields, i) + 12 <= |m| && GetDesc(m, Start(fields, i)) == t
    ensures i + 3 < |fields| ==> Start(fields, i + 3) == Start(fields, i) + 12
  {
    assert fields[i] == DescFields(t)[0] && fields[i + 1] == DescFields(t)[1] && fields[i + 2] == DescFields(t)[2];
    StartNext(fields, i);
    StartNext(fields, i + 1);
    if i + 3 < |fields| {
      StartNext(fields, i + 2);
    }
    Word32(m, 0, fields, i, t.off);
    Word32(m, 0, fields, i + 1, t.num);
    Word32(m, 0, fields, i + 2, t.size);
  }

  /** A header written out field by field is read as it is. */
  lemma HeaderReadsBack(m: seq<byte>, major: nat, minor: nat, csum: seq<byte>, tables: nat, tcsum: seq<byte>, h: Header)
    requires HasStruct(m, 0, HeaderFields(major, minor, csum, tables, tcsum, h)) && |csum| == |tcsum| == 32 && tables < U32
    requires h.size < U32 && DescNarrow(h.parts) && DescNarrow(h.exts) && DescNarrow(h.groups) && DescNarrow(h.devs)
    ensures HEADER_MIN <= |m| && Get32(m, 0) == HEADER_MAGIC && ReadHeader(m) == h
    ensures Get32(m, H_TABLES_SIZE) == tables && m[H_HEADER_CSUM..H_HEADER_CSUM + 32] == csum && m[H_TABLES_CSUM..H_TABLES_CSUM + 32] == tcsum
  {
    var f := HeaderFields(major, minor, csum, tables, tcsum, h);
    HeaderStarts(f);
    Word32(m, 0, f, 0, 0x414C_5030);
    Word32(m, 0, f, 3, h.size);
    FieldAt(m, 0, f, 4);
    Word32(m, 0, f, 5, tables);
    FieldAt(m, 0, f, 6);
    DescAt(m, f, 7, h.parts);
    DescAt(m, f, 10, h.exts);
    DescAt(m, f, 13, h.groups);
    DescAt(m, f, 16, h.devs);
  }

  lemma HeaderStarts(f: seq<seq<byte>>)
    requires |f| > 7 && |f[0]| == 4 && |f[1]| == |f[2]| == 2 && |f[3]| == |f[5]| == 4 && |f[4]| == |f[6]| == 32
    ensures Start(f, 0) == 0 && Start(f, 3) == 8 && Start(f, 4) == 12 && Start(f, 5) == 44 && Start(f, 6) == 48 && Start(f, 7) == 80
  {
    StartNext(f, 0);
    StartNext(f, 1);
    StartNext(f, 2);
    StartNext(f, 3);
    StartNext(f, 4);
    StartNext(f, 5);
    StartNext(f, 6);
  }

  // ------------------------------------------------------------------ the tables' entries

  /** A name of up to 36 bytes, filled up with NULs. */
  function NameField(name: seq<byte>): (f: seq<byte>)
    requires |name| <= 36
    ensures |f| == 36
  {
    name + Zeros(36 - |name|)
  }

  lemma {:induction false} NameReads(name: seq<byte>, zeros: seq<byte>)
    requires 0 !in name && (zeros != [] ==> zeros[0] == 0)
    ensures UpToNul(name + zeros) == name
  {
    if name == [] {
      assert name + zeros == zeros;
    } else {
      NameReads(name[1..], zeros);
      assert (name + zeros)[1..] == name[1..] + zeros;
    }
  }

  lemma NameAt(e: seq<byte>, fields: seq<seq<byte>>, name: seq<byte>)
    requires HasStruct(e, 0, fields) && |fields| > 0 && |name| <= 36 && 0 !in name && fields[0] == NameField(name)
    ensures NameOf(e) == name
  {
    FieldAt(e, 0, fields, 0);
    assert Slice(e, 0, 36) == e[0..36];
    NameReads(name, Zeros(36 - |name|));
  }

  function PartitionFields(name: seq<byte>, attributes: nat, first: nat, count: nat, group: nat): seq<seq<byte>>
    requires |name| <= 36
  {
    [NameField(name), ToLe(attributes, 4), ToLe(first, 4), ToLe(count, 4), ToLe(group, 4)]
  }

  /** LpMetadataPartition. */
  lemma PartitionReads(e: seq<byte>, name: seq<byte>, attributes: nat, first: nat, count: nat, group: nat, run: seq<seq<byte>>)
    requires |name| <= 36 && 0 !in name && attributes < U32 && first < U32 && count < U32 && group < U32 && AllAtLeast(run, 24)
    requires HasStruct(e, 0, PartitionFields(name, attributes, first, count, group))
    ensures 52 <= |e| && First(e) == first && Count(e) == count
    ensures PartitionOf(e, run) == Partition(name, attributes, group, ExtentsOf(run))
  {
    var f := PartitionFields(name, attributes, first, count, group);
    NameAt(e, f, name);
    StartNext(f, 0);
    StartNext(f, 1);
    StartNext(f, 2);
    StartNext(f, 3);
    Word32(e, 0, f, 1, attributes);
    Word32(e, 0, f, 2, first);
    Word32(e, 0, f, 3, count);
    Word32(e, 0, f, 4, group);
  }

  function ExtentFields(x: Extent): seq<seq<byte>> {
    [ToLe(x.sectors, 8), ToLe(x.kind, 4), ToLe(x.data, 8), ToLe(x.source, 4)]
  }

  /** LpMetadataExtent; type 0 is LINEAR. */
  lemma ExtentReads(e: seq<byte>, x: Extent)
    requires x.sectors < U64 && x.kind < U32 && x.data < U64 && x.source < U32 && HasStruct(e, 0, ExtentFields(x))
    ensures 24 <= |e| && ExtentOf(e) == x && (x.kind == LINEAR <==> x.kind == 0)
  {
    var f := ExtentFields(x);
    StartNext(f, 0);
    StartNext(f, 1);
    StartNext(f, 2);
    Word64(e, 0, f, 0, x.sectors);
    Word32(e, 0, f, 1, x.kind);
    Word64(e, 0, f, 2, x.data);
    Word32(e, 0, f, 3, x.source);
  }

  /** LpMetadataPartitionGroup: the maximum is 64 bits wide behind name and flags. */
  lemma GroupReads(e: seq<byte>, name: seq<byte>, flags: nat, maximum: nat)
    requires |name| <= 36 && 0 !in name && maximum < U64
    requires HasStruct(e, 0, [NameField(name), ToLe(flags, 4), ToLe(maximum, 8)])
    ensures 48 <= |e| && GroupsOf([e]) == [Group(name, maximum)]
  {
    var f := [NameField(name), ToLe(flags, 4), ToLe(maximum, 8)];
    NameAt(e, f, name);
    StartNext(f, 0);
    StartNext(f, 1);
    Word64(e, 0, f, 2, maximum);
    assert [e][..0] == [];
  }

  function DeviceFields(first: nat, alignment: nat, offset: nat, size: nat, name: seq<byte>, flags: nat): seq<seq<byte>>
    requires |name| <= 36
  {
    [ToLe(first, 8), ToLe(alignment, 4), ToLe(offset, 4), ToLe(size, 8), NameField(name), ToLe(flags, 4)]
  }

  /** LpMetadataBlockDevice: the alignment is 32 bits wide, and so is its offset. */
  lemma DeviceReads(e: seq<byte>, first: nat, alignment: nat, offset: nat, size: nat, name: seq<byte>, flags: nat)
    requires |name| <= 36 && first < U64 && size < U64
    requires HasStruct(e, 0, DeviceFields(first, alignment, offset, size, name, flags))
    ensures 24 <= |e| && DevicesOf([e]) == [Device(first, size)]
  {
    DeviceWords(e, DeviceFields(first, alignment, offset, size, name, flags), first, size);
    assert [e][..0] == [];
  }

  lemma DeviceWords(e: seq<byte>, f: seq<seq<byte>>, first: nat, size: nat)
    requires HasStruct(e, 0, f) && |f| > 4 && first < U64 && size < U64
    requires f[0] == ToLe(first, 8) && |f[1]| == |f[2]| == 4 && f[3] == ToLe(size, 8)
    ensures 24 <= |e| && Get64(e, 0) == first && Get64(e, 16) == size
  {
    StartNext(f, 0);
    StartNext(f, 1);
    StartNext(f, 2);
    Word64(e, 0, f, 0, first);
    Word64(e, 0, f, 3, size);
  }
}
