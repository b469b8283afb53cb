/** The decision at the heart of lp-resize-partition.py: where a grown partition's new extent
    goes, on the metadata as liblp means it. Sizes and positions are in 512-byte sectors. */
module LpAllocator {
  const SECTOR := 512
  const ALIGN := 8
  const MIN_DEVICE := 0x4000_0000
  const LINEAR := 0

  type Name = seq<int>

  datatype Extent = Extent(sectors: nat, kind: nat, data: nat, source: nat)

  datatype Partition = Partition(name: Name, attributes: nat, group: nat, extents: seq<Extent>)

  datatype Group = Group(name: Name, maximum: nat)

  /** `size` is in bytes. */
  datatype Device = Device(first: nat, size: nat)

  datatype Layout = Layout(parts: seq<Partition>, groups: seq<Group>, devices: seq<Device>)

  datatype Why = NoDevices | BadDeviceSize | NoSuchPartition | NoRoom | OverGroup

  datatype Growth = Enough | Refused(why: Why) | Added(idx: nat, extent: Extent)

  // ------------------------------------------------------------------ the decision

  function Sectors(exts: seq<Extent>): nat {
    if exts == [] then 0 else Sectors(exts[..|exts| - 1]) + exts[|exts| - 1].sectors
  }

  /** One past the last sector of the LINEAR extents, but at least `floor`. */
  function Top(floor: nat, exts: seq<Extent>): nat {
    if exts == [] then floor
    else
      var e := exts[|exts| - 1];
      var t := Top(floor, exts[..|exts| - 1]);
      if e.kind == LINEAR && e.data + e.sectors > t then e.data + e.sectors else t
  }

  function High(floor: nat, parts: seq<Partition>): nat {
    if parts == [] then floor else Top(High(floor, parts[..|parts| - 1]), parts[|parts| - 1].extents)
  }

  function Held(parts: seq<Partition>, group: nat): nat {
    if parts == [] then 0
    else
      var p := parts[|parts| - 1];
      Held(parts[..|parts| - 1], group) + if p.group == group then Sectors(p.extents) else 0
  }

  /** The last partition of that name, as the scan leaves it. */
  function Find(parts: seq<Partition>, target: Name): (r: int)
    ensures -1 <= r < |parts|
    ensures r >= 0 ==> parts[r].name == target
  {
    if parts == [] then -1
    else if parts[|parts| - 1].name == target then |parts| - 1
    else Find(parts[..|parts| - 1], target)
  }

  function RoundUp(n: nat): nat {
    (n + ALIGN - 1) / ALIGN * ALIGN
  }

  function Wanted(bytes: int): int {
    (bytes + SECTOR - 1) / SECTOR
  }

  function Grow(l: Layout, target: Name, bytes: int): (r: Growth)
    ensures r.Added? ==> r.idx < |l.parts| && l.parts[r.idx].name == target
  {
    if l.devices == [] then Refused(NoDevices)
    else if l.devices[0].size % SECTOR != 0 || l.devices[0].size < MIN_DEVICE then Refused(BadDeviceSize)
    else if Find(l.parts, target) < 0 then Refused(NoSuchPartition)
    else
      var idx := Find(l.parts, target);
      var cur := Sectors(l.parts[idx].extents);
      if Wanted(bytes) <= cur then Enough
      else
        var start := RoundUp(High(l.devices[0].first, l.parts));
        var need := RoundUp(Wanted(bytes) - cur);
        var g := l.parts[idx].group;
        if need > l.devices[0].size / SECTOR - start then Refused(NoRoom)
        else if g < |l.groups| && l.groups[g].maximum != 0
                && (Held(l.parts, g) + need) * SECTOR > l.groups[g].maximum then Refused(OverGroup)
        else Added(idx, Extent(need, LINEAR, start, 0))
  }

  function Appended(l: Layout, idx: nat, e: Extent): Layout
    requires idx < |l.parts|
  {
    l.(parts := l.parts[idx := l.parts[idx].(extents := l.parts[idx].extents + [e])])
  }

  function Grown(l: Layout, target: Name, bytes: int): Layout {
    match Grow(l, target, bytes)
    case Added(idx, e) => if idx < |l.parts| then Appended(l, idx, e) else l
    case _ => l
  }

  // ------------------------------------------------------------------ safety

  predicate Apart(a: Extent, b: Extent) {
    a.data + a.sectors <= b.data || b.data + b.sectors <= a.data
  }

  /** Every LINEAR extent is on the device, past its first logical sector. */
  ghost predicate Contained(l: Layout) {
    l.devices != [] &&
    forall i, a :: 0 <= i < |l.parts| && 0 <= a < |l.parts[i].extents| && l.parts[i].extents[a].kind == LINEAR ==>
      l.devices[0].first <= l.parts[i].extents[a].data
      && (l.parts[i].extents[a].data + l.parts[i].extents[a].sectors) * SECTOR <= l.devices[0].size
  }

  /** No two LINEAR extents share a sector. */
  ghost predicate Disjoint(l: Layout) {
    forall i, a, j, b ::
      0 <= i < |l.parts| && 0 <= a < |l.parts[i].extents| && l.parts[i].extents[a].kind == LINEAR
      && 0 <= j < |l.parts| && 0 <= b < |l.parts[j].extents| && l.parts[j].extents[b].kind == LINEAR
      && (i, a) != (j, b) ==>
        Apart(l.parts[i].extents[a], l.parts[j].extents[b])
  }

  ghost predicate Safe(l: Layout) {
    Contained(l) && Disjoint(l)
  }

  lemma {:induction false} TopAbove(floor: nat, exts: seq<Extent>, a: nat)
    ensures floor <= Top(floor, exts)
    ensures a < |exts| && exts[a].kind == LINEAR ==> exts[a].data + exts[a].sectors <= Top(floor, exts)
  {
    if exts != [] {
      TopAbove(floor, exts[..|exts| - 1], a);
    }
  }

  lemma {:induction false} HighAbove(floor: nat, parts: seq<Partition>, i: nat, a: nat)
    ensures floor <= High(floor, parts)
    ensures i < |parts| && a < |parts[i].extents| && parts[i].extents[a].kind == LINEAR ==>
              parts[i].extents[a].data + parts[i].extents[a].sectors <= High(floor, parts)
  {
    if parts != [] {
      var n := |parts| - 1;
      HighAbove(floor, parts[..n], i, a);
      TopAbove(High(floor, parts[..n]), parts[n].extents, if i == n then a else 0);
    }
  }

  lemma RoundedUp(n: nat)
    ensures n <= RoundUp(n) < n + ALIGN && RoundUp(n) % ALIGN == 0
  {
  }

  /** Whatever the layout, a new extent lies past every LINEAR extent of every partition, at or
      above the first logical sector and within the device, and both its ends are on 4096-byte
      boundaries. */
  lemma NewExtentIsFree(l: Layout, target: Name, bytes: int, i: nat, a: nat)
    requires Grow(l, target, bytes).Added?
    ensures var e := Grow(l, target, bytes).extent;
            && l.devices != []
            && l.devices[0].first <= e.data
            && (e.data + e.sectors) * SECTOR <= l.devices[0].size
            && e.data % ALIGN == 0 && e.sectors % ALIGN == 0 && e.sectors > 0
            && e.kind == LINEAR && e.source == 0
            && (i < |l.parts| && a < |l.parts[i].extents| && l.parts[i].extents[a].kind == LINEAR ==>
                  l.parts[i].extents[a].data + l.parts[i].extents[a].sectors <= e.data)
  {
    var idx := Find(l.parts, target);
    HighAbove(l.devices[0].first, l.parts, i, a);
    RoundedUp(High(l.devices[0].first, l.parts));
    RoundedUp(Wanted(bytes) - Sectors(l.parts[idx].extents));
  }

  /** One resize, whatever its outcome, keeps the layout safe. */
  lemma GrowthKeepsSafe(l: Layout, target: Name, bytes: int)
    requires Safe(l)
    ensures Safe(Grown(l, target, bytes))
  {
    if Grow(l, target, bytes).Added? {
      var idx, e := Grow(l, target, bytes).idx, Grow(l, target, bytes).extent;
      var m := Appended(l, idx, e);
      NewExtentIsFree(l, target, bytes, 0, 0);
      forall i: nat, a: nat | i < |l.parts| && a < |l.parts[i].extents| && l.parts[i].extents[a].kind == LINEAR
        ensures Apart(l.parts[i].extents[a], e)
      {
        NewExtentIsFree(l, target, bytes, i, a);
      }
      OnlyOneNew(l, idx, e);
      assert Grown(l, target, bytes) == m;
    }
  }

  lemma OnlyOneNew(l: Layout, idx: nat, e: Extent)
    requires idx < |l.parts| && Safe(l)
    requires l.devices[0].first <= e.data && (e.data + e.sectors) * SECTOR <= l.devices[0].size
    requires forall i: nat, a: nat :: i < |l.parts| && a < |l.parts[i].extents| && l.parts[i].extents[a].kind == LINEAR ==>
               Apart(l.parts[i].extents[a], e)
    ensures Safe(Appended(l, idx, e))
  {
    var m := Appended(l, idx, e);
    forall i, a | 0 <= i < |m.parts| && 0 <= a < |m.parts[i].extents|
      ensures if i == idx && a == |l.parts[idx].extents| then m.parts[i].extents[a] == e
              else a < |l.parts[i].extents| && m.parts[i].extents[a] == l.parts[i].extents[a]
    {
    }
  }

  datatype Request = Request(target: Name, bytes: int)

  function GrownBy(l: Layout, requests: seq<Request>): Layout {
    if requests == [] then l
    else
      var n := |requests| - 1;
      Grown(GrownBy(l, requests[..n]), requests[n].target, requests[n].bytes)
  }

  /** Any number of resizes of any partitions, refused ones included, keeps every extent on the
      device and no two sharing a sector. */
  lemma {:induction false} AnyResizesKeepSafe(l: Layout, requests: seq<Request>)
    requires Safe(l)
    ensures Safe(GrownBy(l, requests))
  {
    if requests != [] {
      var n := |requests| - 1;
      AnyResizesKeepSafe(l, requests[..n]);
      GrowthKeepsSafe(GrownBy(l, requests[..n]), requests[n].target, requests[n].bytes);
    }
  }

  // ------------------------------------------------------------------ sizes and limits

  lemma SectorsAppend(exts: seq<Extent>, e: Extent)
    ensures Sectors(exts + [e]) == Sectors(exts) + e.sectors
  {
    assert (exts + [e])[..|exts|] == exts;
  }

  lemma {:induction false} FindSame(parts: seq<Partition>, other: seq<Partition>, target: Name)
    requires |parts| == |other| && forall i :: 0 <= i < |parts| ==> parts[i].name == other[i].name
    ensures Find(parts, target) == Find(other, target)
  {
    if parts != [] {
      var n := |parts| - 1;
      assert parts[n].name == other[n].name;
      FindSame(parts[..n], other[..n], target);
    }
  }

  lemma {:induction false} HeldAfter(l: Layout, idx: nat, e: Extent, g: nat, n: nat)
    requires idx < |l.parts| && n <= |l.parts|
    ensures Held(Appended(l, idx, e).parts[..n], g)
            == Held(l.parts[..n], g) + if idx < n && l.parts[idx].group == g then e.sectors else 0
  {
    if n > 0 {
      HeldAfter(l, idx, e, g, n - 1);
      var m := Appended(l, idx, e);
      assert m.parts[..n][..n - 1] == m.parts[..n - 1] && l.parts[..n][..n - 1] == l.parts[..n - 1];
      if idx == n - 1 {
        SectorsAppend(l.parts[idx].extents, e);
      }
    }
  }

  lemma GrowFacts(l: Layout, target: Name, bytes: int)
    requires Grow(l, target, bytes).Added?
    ensures var Added(idx, e) := Grow(l, target, bytes);
            && l.devices != [] && l.devices[0].size % SECTOR == 0 && l.devices[0].size >= MIN_DEVICE
            && idx == Find(l.parts, target)
            && Wanted(bytes) > Sectors(l.parts[idx].extents)
            && e.sectors == RoundUp(Wanted(bytes) - Sectors(l.parts[idx].extents)) >= Wanted(bytes) - Sectors(l.parts[idx].extents)
  {
    RoundedUp(Wanted(bytes) - Sectors(l.parts[Find(l.parts, target)].extents));
  }

  /** A successful resize reaches the request, by less than 4096 bytes too much, and a group
      with a maximum is not pushed past it. */
  lemma ResizeBounds(l: Layout, target: Name, bytes: int)
    requires Grow(l, target, bytes).Added?
    ensures var idx := Grow(l, target, bytes).idx;
            var m := Appended(l, idx, Grow(l, target, bytes).extent);
            var g := l.parts[idx].group;
            && bytes <= Sectors(m.parts[idx].extents) * SECTOR < bytes + 4096
            && (g < |m.groups| && m.groups[g].maximum != 0 ==> Held(m.parts, g) * SECTOR <= m.groups[g].maximum)
  {
    var idx, e := Grow(l, target, bytes).idx, Grow(l, target, bytes).extent;
    SectorsAppend(l.parts[idx].extents, e);
    RoundedUp(Wanted(bytes) - Sectors(l.parts[idx].extents));
    HeldAfter(l, idx, e, l.parts[idx].group, |l.parts|);
    var m := Appended(l, idx, e);
    assert m.parts[..|l.parts|] == m.parts && l.parts[..|l.parts|] == l.parts;
  }

  lemma WantedMonotone(a: int, b: int)
    requires a <= b
    ensures Wanted(a) <= Wanted(b)
  {
  }

  lemma EnoughWhen(l: Layout, target: Name, bytes: int, idx: nat)
    requires l.devices != [] && l.devices[0].size % SECTOR == 0 && l.devices[0].size >= MIN_DEVICE
    requires idx < |l.parts| && Find(l.parts, target) == idx && Wanted(bytes) <= Sectors(l.parts[idx].extents)
    ensures Grow(l, target, bytes) == Enough
  {
  }

  /** Asking again for the same size, or for less, changes nothing. */
  lemma ResizeAgainIsNoOp(l: Layout, target: Name, bytes: int, again: int)
    requires Grow(l, target, bytes).Added? && again <= bytes
    ensures Grow(Grown(l, target, bytes), target, again) == Enough
  {
    GrowFacts(l, target, bytes);
    var Added(idx, e) := Grow(l, target, bytes);
    var m := Appended(l, idx, e);
    SectorsAppend(l.parts[idx].extents, e);
    FindSame(l.parts, m.parts, target);
    WantedMonotone(again, bytes);
    EnoughWhen(m, target, again, idx);
  }

  /** A resize touches no other group's holdings. */
  lemma OtherGroupsUntouched(l: Layout, target: Name, bytes: int, g: nat)
    requires Grow(l, target, bytes).Added?
    requires l.parts[Grow(l, target, bytes).idx].group != g
    ensures Held(Grown(l, target, bytes).parts, g) == Held(l.parts, g)
  {
    var idx, e := Grow(l, target, bytes).idx, Grow(l, target, bytes).extent;
    HeldAfter(l, idx, e, g, |l.parts|);
    assert Appended(l, idx, e).parts[..|l.parts|] == Appended(l, idx, e).parts && l.parts[..|l.parts|] == l.parts;
  }

  // ------------------------------------------------------------------ the outcome, exactly

  ghost predicate LastNamed(parts: seq<Partition>, target: Name, idx: nat) {
    idx < |parts| && parts[idx].name == target && forall j :: idx < j < |parts| ==> parts[j].name != target
  }

  /** A first device of at least 1 GiB in whole sectors. */
  predicate GoodDevice(l: Layout) {
    l.devices != [] && l.devices[0].size % 512 == 0 && l.devices[0].size >= 1_073_741_824
  }

  /** Sector `s` is on a 4096-byte boundary behind the LINEAR data of all partitions. */
  ghost predicate Behind(l: Layout, s: nat)
    requires l.devices != []
  {
    && s % 8 == 0 && l.devices[0].first <= s
    && forall i, a :: 0 <= i < |l.parts| && 0 <= a < |l.parts[i].extents| && l.parts[i].extents[a].kind == LINEAR ==>
         l.parts[i].extents[a].data + l.parts[i].extents[a].sectors <= s
  }

  /** `n` more sectors, in whole 4096-byte blocks, make the partition hold `bytes`. */
  predicate Enlarges(l: Layout, idx: nat, bytes: int, n: nat)
    requires idx < |l.parts|
  {
    n % 8 == 0 && 512 * (Sectors(l.parts[idx].extents) + n) >= bytes
  }

  /** Enough sectors fit between the data of all partitions and the end of the device. */
  ghost predicate HasRoom(l: Layout, idx: nat, bytes: int)
    requires l.devices != [] && idx < |l.parts|
  {
    exists s: nat, n: nat :: Behind(l, s) && Enlarges(l, idx, bytes, n) && 512 * (s + n) <= l.devices[0].size
  }

  /** The extents of all partitions of a group. */
  function GroupExtents(parts: seq<Partition>, group: nat): seq<Extent> {
    if parts == [] then []
    else (if parts[0].group == group then parts[0].extents else []) + GroupExtents(parts[1..], group)
  }

  /** Enough sectors fit below the maximum of the partition's group, if it has one. */
  ghost predicate FitsGroup(l: Layout, idx: nat, bytes: int)
    requires idx < |l.parts|
  {
    var g := l.parts[idx].group;
    g < |l.groups| && l.groups[g].maximum != 0 ==>
      exists n: nat :: Enlarges(l, idx, bytes, n) && 512 * (Sectors(GroupExtents(l.parts, g)) + n) <= l.groups[g].maximum
  }

  lemma {:induction false} TopLeast(floor: nat, exts: seq<Extent>, s: nat)
    requires floor <= s && forall a :: 0 <= a < |exts| && exts[a].kind == LINEAR ==> exts[a].data + exts[a].sectors <= s
    ensures Top(floor, exts) <= s
  {
    if exts != [] {
      TopLeast(floor, exts[..|exts| - 1], s);
    }
  }

  lemma {:induction false} HighLeast(floor: nat, parts: seq<Partition>, s: nat)
    requires floor <= s
    requires forall i, a :: 0 <= i < |parts| && 0 <= a < |parts[i].extents| && parts[i].extents[a].kind == LINEAR ==>
               parts[i].extents[a].data + parts[i].extents[a].sectors <= s
    ensures High(floor, parts) <= s
  {
    if parts != [] {
      var n := |parts| - 1;
      HighLeast(floor, parts[..n], s);
      TopLeast(High(floor, parts[..n]), parts[n].extents, s);
    }
  }

  lemma BehindIff(l: Layout, s: nat)
    requires l.devices != []
    ensures Behind(l, s) <==> s % 8 == 0 && RoundUp(High(l.devices[0].first, l.parts)) <= s
  {
    var high := High(l.devices[0].first, l.parts);
    RoundedUp(high);
    HighAbove(l.devices[0].first, l.parts, 0, 0);
    if s % 8 == 0 && RoundUp(high) <= s {
      forall i, a | 0 <= i < |l.parts| && 0 <= a < |l.parts[i].extents| && l.parts[i].extents[a].kind == LINEAR
        ensures l.parts[i].extents[a].data + l.parts[i].extents[a].sectors <= s
      {
        HighAbove(l.devices[0].first, l.parts, i, a);
      }
    }
    if Behind(l, s) {
      HighLeast(l.devices[0].first, l.parts, s);
      LeastMultiple(high, s);
    }
  }

  lemma LeastMultiple(n: nat, m: nat)
    requires m % 8 == 0
    ensures n <= m <==> RoundUp(n) <= m
  {
    var j, k := m / 8, (n + 7) / 8;
    assert m == 8 * j && RoundUp(n) == 8 * k;
  }

  lemma EnlargesIff(l: Layout, idx: nat, bytes: int, n: nat)
    requires idx < |l.parts| && bytes > 512 * Sectors(l.parts[idx].extents)
    ensures Wanted(bytes) > Sectors(l.parts[idx].extents)
    ensures Enlarges(l, idx, bytes, n) <==> n % 8 == 0 && RoundUp(Wanted(bytes) - Sectors(l.parts[idx].extents)) <= n
  {
    var cur := Sectors(l.parts[idx].extents);
    assert forall k: int :: 512 * k >= bytes <==> k >= Wanted(bytes);
    if n % 8 == 0 {
      LeastMultiple(Wanted(bytes) - cur, n);
    }
  }

  lemma {:induction false} SectorsJoin(a: seq<Extent>, b: seq<Extent>)
    ensures Sectors(a + b) == Sectors(a) + Sectors(b)
  {
    if b == [] {
      assert a + b == a;
    } else {
      var n := |b| - 1;
      assert (a + b)[..|a + b| - 1] == a + b[..n];
      SectorsJoin(a, b[..n]);
    }
  }

  lemma {:induction false} GroupJoin(parts: seq<Partition>, p: Partition, group: nat)
    ensures GroupExtents(parts + [p], group) == GroupExtents(parts, group) + if p.group == group then p.extents else []
  {
    if parts == [] {
      assert (parts + [p])[1..] == [];
    } else {
      assert (parts + [p])[1..] == parts[1..] + [p];
      GroupJoin(parts[1..], p, group);
    }
  }

  /** What a group holds is the extents of all its partitions. */
  lemma {:induction false} HeldIsGroup(parts: seq<Partition>, group: nat)
    ensures Held(parts, group) == Sectors(GroupExtents(parts, group))
  {
    if parts != [] {
      var n := |parts| - 1;
      HeldIsGroup(parts[..n], group);
      assert parts[..n] + [parts[n]] == parts;
      GroupJoin(parts[..n], parts[n], group);
      SectorsJoin(GroupExtents(parts[..n], group), if parts[n].group == group then parts[n].extents else []);
    }
  }

  lemma {:induction false} FindsLast(parts: seq<Partition>, target: Name)
    ensures forall idx: nat :: LastNamed(parts, target, idx) <==> Find(parts, target) == idx
    ensures Find(parts, target) < 0 <==> forall j :: 0 <= j < |parts| ==> parts[j].name != target
  {
    if parts != [] {
      var n := |parts| - 1;
      FindsLast(parts[..n], target);
      assert forall j :: 0 <= j < n ==> parts[..n][j] == parts[j];
      forall idx: nat | idx < n && parts[n].name != target
        ensures LastNamed(parts, target, idx) <==> LastNamed(parts[..n], target, idx)
      {
      }
    }
  }

  /** What a resize of a partition on a good device comes to, on the layout alone: it is satisfied
      exactly if the partition holds that many bytes, is refused for want of room exactly if the blocks
      needed do not fit behind all data on the device, and for the group's sake exactly if they fit there
      but not below the group's maximum. Otherwise it adds the fewest blocks at the first place. */
  lemma OutcomeExactly(l: Layout, target: Name, bytes: int, idx: nat)
    requires GoodDevice(l) && LastNamed(l.parts, target, idx)
    ensures var r := Grow(l, target, bytes); var short := bytes > 512 * Sectors(l.parts[idx].extents);
            && (r == Enough <==> !short)
            && (r == Refused(NoRoom) <==> short && !HasRoom(l, idx, bytes))
            && (r == Refused(OverGroup) <==> short && HasRoom(l, idx, bytes) && !FitsGroup(l, idx, bytes))
            && (r.Added? <==> short && HasRoom(l, idx, bytes) && FitsGroup(l, idx, bytes))
            && (r.Added? ==>
                  && r.idx == idx && r.extent.kind == LINEAR && r.extent.source == 0
                  && Behind(l, r.extent.data) && (forall s: nat :: Behind(l, s) ==> r.extent.data <= s)
                  && Enlarges(l, idx, bytes, r.extent.sectors)
                  && forall n: nat :: Enlarges(l, idx, bytes, n) ==> r.extent.sectors <= n)
  {
    FindsLast(l.parts, target);
    var cur := Sectors(l.parts[idx].extents);
    assert Wanted(bytes) <= cur <==> bytes <= 512 * cur;
    if bytes > 512 * cur {
      ShortOutcome(l, target, bytes, idx);
    }
  }

  lemma ShortOutcome(l: Layout, target: Name, bytes: int, idx: nat)
    requires GoodDevice(l) && Find(l.parts, target) == idx && bytes > 512 * Sectors(l.parts[idx].extents)
    ensures var r := Grow(l, target, bytes);
            && r != Enough && (r == Refused(NoRoom) <==> !HasRoom(l, idx, bytes))
            && (r == Refused(OverGroup) <==> HasRoom(l, idx, bytes) && !FitsGroup(l, idx, bytes))
            && (r.Added? <==> HasRoom(l, idx, bytes) && FitsGroup(l, idx, bytes))
            && (r.Added? ==>
                  && r.idx == idx && r.extent.kind == LINEAR && r.extent.source == 0
                  && Behind(l, r.extent.data) && (forall s: nat :: Behind(l, s) ==> r.extent.data <= s)
                  && Enlarges(l, idx, bytes, r.extent.sectors)
                  && forall n: nat :: Enlarges(l, idx, bytes, n) ==> r.extent.sectors <= n)
  {
    var cur := Sectors(l.parts[idx].extents);
    EnlargesIff(l, idx, bytes, 0);
    var start, need := RoundUp(High(l.devices[0].first, l.parts)), RoundUp(Wanted(bytes) - cur);
    RoundedUp(High(l.devices[0].first, l.parts));
    RoundedUp(Wanted(bytes) - cur);
    forall s: nat ensures Behind(l, s) <==> s % 8 == 0 && start <= s {
      BehindIff(l, s);
    }
    forall n: nat ensures Enlarges(l, idx, bytes, n) <==> n % 8 == 0 && need <= n {
      EnlargesIff(l, idx, bytes, n);
    }
    RoomIff(l, idx, bytes, start, need);
    GroupIff(l, idx, bytes, need);
  }

  lemma RoomIff(l: Layout, idx: nat, bytes: int, start: nat, need: nat)
    requires GoodDevice(l) && idx < |l.parts| && start % 8 == 0 && need % 8 == 0
    requires forall s: nat :: Behind(l, s) <==> s % 8 == 0 && start <= s
    requires forall n: nat :: Enlarges(l, idx, bytes, n) <==> n % 8 == 0 && need <= n
    ensures HasRoom(l, idx, bytes) <==> need <= l.devices[0].size / 512 - start
  {
    if need <= l.devices[0].size / 512 - start {
      assert Behind(l, start) && Enlarges(l, idx, bytes, need);
    }
  }

  lemma GroupIff(l: Layout, idx: nat, bytes: int, need: nat)
    requires idx < |l.parts| && need % 8 == 0
    requires forall n: nat :: Enlarges(l, idx, bytes, n) <==> n % 8 == 0 && need <= n
    ensures var g := l.parts[idx].group;
            FitsGroup(l, idx, bytes)
            <==> !(g < |l.groups| && l.groups[g].maximum != 0 && (Held(l.parts, g) + need) * SECTOR > l.groups[g].maximum)
  {
    var g := l.parts[idx].group;
    HeldIsGroup(l.parts, g);
    assert Enlarges(l, idx, bytes, need);
  }

  /** The other refusals, exactly. */
  lemma RefusedExactly(l: Layout, target: Name, bytes: int)
    ensures Grow(l, target, bytes) == Refused(NoDevices) <==> l.devices == []
    ensures Grow(l, target, bytes) == Refused(BadDeviceSize) <==> l.devices != [] && !GoodDevice(l)
    ensures Grow(l, target, bytes) == Refused(NoSuchPartition)
            <==> GoodDevice(l) && forall j :: 0 <= j < |l.parts| ==> l.parts[j].name != target
  {
    FindsLast(l.parts, target);
  }
}
