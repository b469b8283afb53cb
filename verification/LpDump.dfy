/** The dump between the metadata and the flashers: lpdump-from-super.py prints it, and both
    flash-logical-via-edl.py and edl-delta-flash.py read a partition's extents back from it.
    A line is one token; names are single words. */
module LpDump {
  import opened Common
  import opened Bytes
  import opened LpAllocator
  import opened LpMetadata
  import opened LpUnpack
  import opened EdlLayout

  /** "Name: name", "first .. first+sectors-1 linear super phys", "-----", anything else. */
  datatype Line = NameLine(name: Name) | ExtentLine(first: nat, sectors: nat, phys: nat) | Dashes | Other

  // ------------------------------------------------------------------ printing

  function ExtentLines(exts: seq<Extent>, sector: nat): seq<Line> {
    if exts == [] then []
    else
      (if exts[0].kind == LINEAR then [ExtentLine(sector, exts[0].sectors, exts[0].data)] else [])
      + ExtentLines(exts[1..], sector + exts[0].sectors)
  }

  function Section(p: Partition): seq<Line> {
    [NameLine(p.name)] + ExtentLines(p.extents, 0) + [Dashes]
  }

  function Printed(parts: seq<Partition>): seq<Line> {
    if parts == [] then [] else Section(parts[0]) + Printed(parts[1..])
  }

  /** One partition's lines, from its row and the extents table. */
  method PrintPartition(row: PartRow, exts: seq<Extent>, ghost p: Partition) returns (lines: seq<Line>)
    requires RowMeans(p, row, exts)
    ensures lines == Section(p)
  {
    ghost var head := [NameLine(p.name)];
    lines := [NameLine(row.name)];
    lines := PrintExtents(lines, exts, row.first, row.count);
    assert exts[row.first..row.first + row.count] == p.extents;
    assert lines == head + ExtentLines(p.extents, 0);
    lines := lines + [Dashes];
  }

  method PrintExtents(head: seq<Line>, exts: seq<Extent>, first: nat, count: nat) returns (lines: seq<Line>)
    requires first + count <= |exts|
    ensures lines == head + ExtentLines(exts[first..first + count], 0)
  {
    ghost var run := exts[first..first + count];
    lines := head;
    var sector: nat := 0;
    for e := first to first + count
      invariant lines + ExtentLines(run[e - first..], sector) == head + ExtentLines(run, 0)
    {
      PrintStep(lines, run, e - first, sector);
      if exts[e].kind == LINEAR {
        lines := lines + [ExtentLine(sector, exts[e].sectors, exts[e].data)];
      }
      sector := sector + exts[e].sectors;
    }
  }

  lemma PrintStep(lines: seq<Line>, exts: seq<Extent>, k: nat, sector: nat)
    requires k < |exts|
    ensures var more := ExtentLines(exts[k + 1..], sector + exts[k].sectors);
            lines + ExtentLines(exts[k..], sector)
            == (if exts[k].kind == LINEAR then lines + [ExtentLine(sector, exts[k].sectors, exts[k].data)] else lines) + more
  {
    assert exts[k..][1..] == exts[k + 1..];
  }

  /** lpdump-from-super.py, on the metadata block of the slot. */
  method Dump(m: seq<byte>, ghost parts: seq<Partition>) returns (lines: seq<Line>)
    requires Sound(m) && Sized(Load(m)) && parts == Meaning(Load(m)).parts
    ensures lines == Printed(parts)
  {
    lines := [];
    var rows, exts := ReadRows(m, parts);
    for i := 0 to |rows|
      invariant lines + Printed(parts[i..]) == Printed(parts)
    {
      var section := PrintPartition(rows[i], exts, parts[i]);
      assert parts[i..][1..] == parts[i + 1..];
      lines := lines + section;
    }
  }

  method ReadRows(m: seq<byte>, ghost parts: seq<Partition>) returns (rows: seq<PartRow>, exts: seq<Extent>)
    requires Sound(m) && Sized(Load(m)) && parts == Meaning(Load(m)).parts
    ensures |rows| == |parts| && forall i :: 0 <= i < |rows| ==> RowMeans(parts[i], rows[i], exts)
  {
    rows := ParsePartitions(m);
    exts := ParseExtents(m);
    forall i | 0 <= i < |rows| ensures RowMeans(parts[i], rows[i], exts) {
      RowsMean(m, rows, exts, i);
    }
  }

  /** For LINEAR extents: one line each, from the partition's sector on at which it starts. */
  lemma {:induction false} LinesAre(exts: seq<Extent>, sector: nat, k: nat)
    requires k < |exts| && forall i :: 0 <= i < |exts| ==> exts[i].kind == 0
    ensures |ExtentLines(exts, sector)| == |exts|
    ensures ExtentLines(exts, sector)[k] == ExtentLine(sector + Sectors(exts[..k]), exts[k].sectors, exts[k].data)
  {
    if k > 0 {
      LinesAre(exts[1..], sector + exts[0].sectors, k - 1);
      assert exts[..k] == [exts[0]] + exts[1..][..k - 1];
      SectorsJoin([exts[0]], exts[1..][..k - 1]);
      assert [exts[0]][..0] == [];
      assert Sectors([exts[0]]) == exts[0].sectors;
    } else if |exts| > 1 {
      LinesAre(exts[1..], sector + exts[0].sectors, 0);
    }
  }

  // ------------------------------------------------------------------ reading back

  /** "0 .. -1" has a minus sign, which the flashers' pattern does not match. */
  predicate Matches(l: Line) {
    l.ExtentLine? && l.first + l.sectors > 0
  }

  function FlashFrom(lines: seq<Line>, part: Name, inside: bool): seq<Piece> {
    if lines == [] then []
    else if lines[0] == NameLine(part) then FlashFrom(lines[1..], part, true)
    else if inside && lines[0].Dashes? then []
    else if inside && Matches(lines[0]) then [Piece(lines[0].phys, lines[0].sectors)] + FlashFrom(lines[1..], part, inside)
    else FlashFrom(lines[1..], part, inside)
  }

  /** extents_for of flash-logical-via-edl.py: stops at the end of the partition's section. */
  method FlashExtents(lines: seq<Line>, part: Name) returns (out: seq<Piece>)
    ensures out == FlashFrom(lines, part, false)
  {
    out := [];
    var inside := false;
    for i := 0 to |lines|
      invariant out + FlashFrom(lines[i..], part, inside) == FlashFrom(lines, part, false)
    {
      assert lines[i..][1..] == lines[i + 1..];
      if lines[i] == NameLine(part) {
        inside := true;
      } else if inside {
        if lines[i].Dashes? {
          return;
        }
        if Matches(lines[i]) {
          out := out + [Piece(lines[i].phys, lines[i].sectors)];
        }
      }
    }
  }

  function DeltaFrom(lines: seq<Line>, part: Name, cur: Option<Name>): seq<Piece> {
    if lines == [] then []
    else if lines[0].NameLine? then DeltaFrom(lines[1..], part, Some(lines[0].name))
    else if cur == Some(part) && Matches(lines[0]) then
      [Piece(lines[0].phys, lines[0].sectors)] + DeltaFrom(lines[1..], part, cur)
    else DeltaFrom(lines[1..], part, cur)
  }

  /** extents_for of edl-delta-flash.py: keeps the last name it saw, and reads to the end. */
  method DeltaExtents(lines: seq<Line>, part: Name) returns (out: seq<Piece>)
    ensures out == DeltaFrom(lines, part, None)
  {
    out := [];
    var cur := None;
    for i := 0 to |lines|
      invariant out + DeltaFrom(lines[i..], part, cur) == DeltaFrom(lines, part, None)
    {
      assert lines[i..][1..] == lines[i + 1..];
      if lines[i].NameLine? {
        cur := Some(lines[i].name);
      } else if cur == Some(part) && Matches(lines[i]) {
        out := out + [Piece(lines[i].phys, lines[i].sectors)];
      }
    }
  }

  // ------------------------------------------------------------------ what a section reads as

  function HeadShown(e: Extent, sector: nat): seq<Piece> {
    if e.kind == LINEAR && sector + e.sectors > 0 then [Piece(e.data, e.sectors)] else []
  }

  /** The extents a section shows. */
  function Shown(exts: seq<Extent>, sector: nat): seq<Piece> {
    if exts == [] then []
    else
      HeadShown(exts[0], sector) + Shown(exts[1..], sector + exts[0].sectors)
  }

  lemma ExtentHead(exts: seq<Extent>, sector: nat, tail: seq<Line>)
    requires exts != []
    ensures var all, more := ExtentLines(exts, sector) + tail, ExtentLines(exts[1..], sector + exts[0].sectors) + tail;
            if exts[0].kind == LINEAR
            then all != [] && all[0] == ExtentLine(sector, exts[0].sectors, exts[0].data) && all[1..] == more
            else all == more
  {
    var more := ExtentLines(exts[1..], sector + exts[0].sectors);
    if exts[0].kind == LINEAR {
      var x := ExtentLine(sector, exts[0].sectors, exts[0].data);
      assert ExtentLines(exts, sector) + tail == [x] + (more + tail);
    } else {
      assert ExtentLines(exts, sector) == more;
    }
  }

  lemma FlashOver(lines: seq<Line>, part: Name, inside: bool)
    requires lines != [] && lines[0].ExtentLine?
    ensures FlashFrom(lines, part, inside)
            == (if inside && Matches(lines[0]) then [Piece(lines[0].phys, lines[0].sectors)] else []) + FlashFrom(lines[1..], part, inside)
  {
  }

  lemma DeltaOver(lines: seq<Line>, part: Name, cur: Option<Name>)
    requires lines != [] && lines[0].ExtentLine?
    ensures DeltaFrom(lines, part, cur)
            == (if cur == Some(part) && Matches(lines[0]) then [Piece(lines[0].phys, lines[0].sectors)] else []) + DeltaFrom(lines[1..], part, cur)
  {
  }

  lemma {:induction false} FlashSection(exts: seq<Extent>, sector: nat, rest: seq<Line>, part: Name, inside: bool)
    ensures FlashFrom(ExtentLines(exts, sector) + ([Dashes] + rest), part, inside)
            == if inside then Shown(exts, sector) else FlashFrom(rest, part, false)
  {
    var tail := [Dashes] + rest;
    if exts == [] {
      assert ExtentLines(exts, sector) + tail == tail && tail[1..] == rest;
    } else {
      FlashSection(exts[1..], sector + exts[0].sectors, rest, part, inside);
      ExtentHead(exts, sector, tail);
      if exts[0].kind == LINEAR {
        FlashOver(ExtentLines(exts, sector) + tail, part, inside);
      }
      assert Shown(exts, sector) == HeadShown(exts[0], sector) + Shown(exts[1..], sector + exts[0].sectors);
    }
  }

  lemma {:induction false} DeltaSection(exts: seq<Extent>, sector: nat, rest: seq<Line>, part: Name, cur: Option<Name>)
    ensures DeltaFrom(ExtentLines(exts, sector) + ([Dashes] + rest), part, cur)
            == (if cur == Some(part) then Shown(exts, sector) else []) + DeltaFrom(rest, part, cur)
  {
    var tail := [Dashes] + rest;
    if exts == [] {
      assert ExtentLines(exts, sector) + tail == tail && tail[1..] == rest;
    } else {
      DeltaSection(exts[1..], sector + exts[0].sectors, rest, part, cur);
      ExtentHead(exts, sector, tail);
      if exts[0].kind == LINEAR {
        DeltaOver(ExtentLines(exts, sector) + tail, part, cur);
      }
      assert Shown(exts, sector) == HeadShown(exts[0], sector) + Shown(exts[1..], sector + exts[0].sectors);
    }
  }

  lemma SectionSplit(p: Partition, rest: seq<Line>)
    ensures var all := Section(p) + rest;
            all[0] == NameLine(p.name) && all[1..] == ExtentLines(p.extents, 0) + ([Dashes] + rest)
  {
  }

  /** What the full flasher reads: the section of the first partition of that name. */
  function FirstShown(parts: seq<Partition>, part: Name): seq<Piece> {
    if parts == [] then []
    else if parts[0].name == part then Shown(parts[0].extents, 0)
    else FirstShown(parts[1..], part)
  }

  /** What the delta flasher reads: the sections of all partitions of that name. */
  function AllShown(parts: seq<Partition>, part: Name): seq<Piece> {
    if parts == [] then []
    else (if parts[0].name == part then Shown(parts[0].extents, 0) else []) + AllShown(parts[1..], part)
  }

  lemma {:induction false} FlashReadsFirst(parts: seq<Partition>, part: Name)
    ensures FlashFrom(Printed(parts), part, false) == FirstShown(parts, part)
  {
    if parts != [] {
      var rest := Printed(parts[1..]);
      SectionSplit(parts[0], rest);
      FlashSection(parts[0].extents, 0, rest, part, parts[0].name == part);
      FlashReadsFirst(parts[1..], part);
    }
  }

  lemma {:induction false} DeltaReadsAll(parts: seq<Partition>, part: Name, cur: Option<Name>)
    ensures DeltaFrom(Printed(parts), part, cur) == AllShown(parts, part)
  {
    if parts != [] {
      var rest := Printed(parts[1..]);
      SectionSplit(parts[0], rest);
      DeltaSection(parts[0].extents, 0, rest, part, Some(parts[0].name));
      DeltaReadsAll(parts[1..], part, Some(parts[0].name));
    }
  }

  // ------------------------------------------------------------------ round trip

  ghost predicate OnlyNamed(parts: seq<Partition>, i: nat) {
    i < |parts| && forall j :: 0 <= j < |parts| && parts[j].name == parts[i].name ==> j == i
  }

  lemma {:induction false} NobodyShown(parts: seq<Partition>, part: Name)
    requires forall j :: 0 <= j < |parts| ==> parts[j].name != part
    ensures AllShown(parts, part) == [] && FirstShown(parts, part) == []
  {
    if parts != [] {
      NobodyShown(parts[1..], part);
    }
  }

  lemma {:induction false} OnlyShown(parts: seq<Partition>, i: nat)
    requires OnlyNamed(parts, i)
    ensures FirstShown(parts, parts[i].name) == AllShown(parts, parts[i].name) == Shown(parts[i].extents, 0)
  {
    if i == 0 {
      NobodyShown(parts[1..], parts[0].name);
    } else {
      OnlyShown(parts[1..], i - 1);
    }
  }

  /** The extents a flasher needs are all there: every one LINEAR, and the first not empty. */
  ghost predicate AllShowable(exts: seq<Extent>, sector: nat) {
    && (forall k :: 0 <= k < |exts| ==> exts[k].kind == LINEAR)
    && (exts == [] || sector + exts[0].sectors > 0)
  }

  lemma PiecesHead(exts: seq<Extent>)
    requires exts != []
    ensures PiecesOf(exts) == [Piece(exts[0].data, exts[0].sectors)] + PiecesOf(exts[1..])
  {
    forall i | 0 <= i < |exts|
      ensures PiecesOf(exts)[i] == ([Piece(exts[0].data, exts[0].sectors)] + PiecesOf(exts[1..]))[i]
    {
      PieceAt(exts, i);
      if i > 0 {
        PieceAt(exts[1..], i - 1);
      }
    }
  }

  lemma {:induction false} ShownExactly(exts: seq<Extent>, sector: nat)
    ensures |Shown(exts, sector)| <= |exts|
    ensures Shown(exts, sector) == PiecesOf(exts) <==> AllShowable(exts, sector)
  {
    if exts != [] {
      ShownExactly(exts[1..], sector + exts[0].sectors);
      PiecesHead(exts);
      if exts[0].kind == LINEAR && sector + exts[0].sectors > 0 {
        var head := Piece(exts[0].data, exts[0].sectors);
        assert Shown(exts, sector)[1..] == Shown(exts[1..], sector + exts[0].sectors);
        assert PiecesOf(exts)[1..] == PiecesOf(exts[1..]);
        assert forall k :: 1 <= k < |exts| ==> exts[k] == exts[1..][k - 1];
        ShowableTail(exts, sector);
      }
    }
  }

  lemma ShowableTail(exts: seq<Extent>, sector: nat)
    requires exts != [] && exts[0].kind == LINEAR && sector + exts[0].sectors > 0
    ensures AllShowable(exts, sector) <==> AllShowable(exts[1..], sector + exts[0].sectors)
  {
    assert forall k :: 1 <= k < |exts| ==> exts[k] == exts[1..][k - 1];
  }

  /** For a partition with a name of its own both flashers read the same extents from the dump.
      They are exactly the partition's, in order, if and only if all of them are LINEAR and the
      first is not empty. */
  lemma DumpRoundTrip(parts: seq<Partition>, i: nat)
    requires OnlyNamed(parts, i)
    ensures var name, lines := parts[i].name, Printed(parts);
            && FlashFrom(lines, name, false) == DeltaFrom(lines, name, None)
            && (FlashFrom(lines, name, false) == PiecesOf(parts[i].extents) <==> AllShowable(parts[i].extents, 0))
  {
    FlashReadsFirst(parts, parts[i].name);
    DeltaReadsAll(parts, parts[i].name, None);
    OnlyShown(parts, i);
    ShownExactly(parts[i].extents, 0);
  }

  /** What the sections behind the first one of that name show. */
  function ShownAfter(parts: seq<Partition>, part: Name): seq<Piece> {
    if parts == [] then []
    else if parts[0].name == part then AllShown(parts[1..], part)
    else ShownAfter(parts[1..], part)
  }

  lemma {:induction false} FirstThenRest(parts: seq<Partition>, part: Name)
    ensures AllShown(parts, part) == FirstShown(parts, part) + ShownAfter(parts, part)
  {
    if parts != [] && parts[0].name != part {
      FirstThenRest(parts[1..], part);
    }
  }

  /** Partition `j` has the name, comes after another one that has it, and shows an extent. */
  ghost predicate ShowsLater(parts: seq<Partition>, part: Name, j: nat) {
    && j < |parts| && parts[j].name == part && Shown(parts[j].extents, 0) != []
    && exists i :: 0 <= i < j && parts[i].name == part
  }

  lemma {:induction false} SomethingShown(parts: seq<Partition>, part: Name)
    ensures AllShown(parts, part) != [] <==>
            exists j :: 0 <= j < |parts| && parts[j].name == part && Shown(parts[j].extents, 0) != []
  {
    if parts != [] {
      SomethingShown(parts[1..], part);
      assert forall j :: 1 <= j < |parts| ==> parts[j] == parts[1..][j - 1];
    }
  }

  lemma {:induction false} ShownAfterWhen(parts: seq<Partition>, part: Name)
    ensures ShownAfter(parts, part) != [] <==> exists j :: ShowsLater(parts, part, j)
  {
    if parts != [] {
      var rest := parts[1..];
      assert forall j :: 1 <= j < |parts| ==> parts[j] == rest[j - 1];
      if parts[0].name == part {
        SomethingShown(rest, part);
        assert forall j: nat :: 1 <= j < |parts| && parts[j].name == part && Shown(parts[j].extents, 0) != [] ==> ShowsLater(parts, part, j);
      } else {
        ShownAfterWhen(rest, part);
        forall j: nat | ShowsLater(rest, part, j) ensures ShowsLater(parts, part, j + 1) {
          var i :| 0 <= i < j && rest[i].name == part;
          assert parts[i + 1].name == part;
        }
        forall j: nat | ShowsLater(parts, part, j) ensures j > 0 && ShowsLater(rest, part, j - 1) {
          var i :| 0 <= i < j && parts[i].name == part;
          assert rest[i - 1].name == part;
        }
      }
    }
  }

  /** Exactly when the two flashers read the same extents for a name: no partition behind the
      first one of that name shows an extent. */
  lemma ReadersAgree(parts: seq<Partition>, part: Name)
    ensures FlashFrom(Printed(parts), part, false) == DeltaFrom(Printed(parts), part, None)
            <==> forall j :: !ShowsLater(parts, part, j)
  {
    FlashReadsFirst(parts, part);
    DeltaReadsAll(parts, part, None);
    FirstThenRest(parts, part);
    ShownAfterWhen(parts, part);
    assert |AllShown(parts, part)| == |FirstShown(parts, part)| + |ShownAfter(parts, part)|;
  }

  /** Two partitions of one name on which they disagree: the full flasher stops after the first,
      the delta flasher goes on to the second. */
  lemma SameNameDisagrees(name: Name)
    ensures var parts := [Partition(name, 0, 0, [Extent(8, LINEAR, 2048, 0)]), Partition(name, 0, 0, [Extent(8, LINEAR, 4096, 0)])];
            && FlashFrom(Printed(parts), name, false) == [Piece(2048, 8)]
            && DeltaFrom(Printed(parts), name, None) == [Piece(2048, 8), Piece(4096, 8)]
  {
    var a, b := Partition(name, 0, 0, [Extent(8, LINEAR, 2048, 0)]), Partition(name, 0, 0, [Extent(8, LINEAR, 4096, 0)]);
    var parts := [a, b];
    FlashReadsFirst(parts, name);
    DeltaReadsAll(parts, name, None);
    assert Shown(a.extents, 0) == [Piece(2048, 8)] && Shown(b.extents, 0) == [Piece(4096, 8)];
    assert parts[1..] == [b] && [b][1..] == [];
    assert AllShown([b], name) == [Piece(4096, 8)];
  }

  /** A partition of one ZERO extent reads back as nothing. */
  lemma ZeroVanishes(name: Name, sectors: nat)
    ensures var p := Partition(name, 0, 0, [Extent(sectors, ZERO, 0, 0)]);
            && FlashFrom(Printed([p]), name, false) == DeltaFrom(Printed([p]), name, None) == []
            && PiecesOf(p.extents) != []
  {
    var p := Partition(name, 0, 0, [Extent(sectors, ZERO, 0, 0)]);
    FlashReadsFirst([p], name);
    DeltaReadsAll([p], name, None);
    assert p.extents[1..] == [] && [p][1..] == [];
    assert Shown(p.extents, 0) == [];
  }
}
