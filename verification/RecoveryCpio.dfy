/** The archive side of patch-recovery-adb.py: looking a member up, cutting the trailer off, and
    appending members that win over the old ones when the archive is unpacked. */
module RecoveryCpio {
  import opened Common
  import opened Bytes
  import opened Cpio
  import opened CpioFilter

  // ------------------------------------------------------------------ read_member

  datatype Lookup = Unreadable | Missing | Found(data: seq<byte>)

  function First(s: seq<byte>, want: seq<byte>, parse: Parser): Lookup
    decreases |s|
  {
    if s == [] then Missing
    else
      match parse(s)
      case Stop => Missing
      case Bad => Unreadable
      case Got(m, size) =>
        if m.name == TRAILER then Missing
        else if m.name == want then Found(m.data)
        else First(Rest(s, size), want, parse)
  }

  method FindMember(cpio: seq<byte>, want: seq<byte>, num: Number, ghost parse: Parser) returns (r: Lookup)
    requires Parses(parse, num)
    ensures r == First(cpio, want, parse)
  {
    var off := 0;
    ghost var words := 0;
    while off + HEAD <= |cpio|
      invariant off == 4 * words
      invariant First(Suffix(cpio, off), want, parse) == First(cpio, want, parse)
      decreases |cpio| + HEAD - off
    {
      var p;
      p, words := NextMember(cpio, off, num, parse, words);
      FirstStep(cpio, off, p, want, parse);
      if p.Stop? {
        return Missing;
      }
      if p.Bad? {
        return Unreadable;
      }
      if p.m.name == TRAILER {
        return Missing;
      }
      if p.m.name == want {
        return Found(p.m.data);
      }
      off := off + p.size;
    }
    NothingLeft(cpio, off, want, parse, num);
    r := Missing;
  }

  lemma NothingLeft(cpio: seq<byte>, off: nat, want: seq<byte>, parse: Parser, num: Number)
    requires Parses(parse, num) && off + HEAD > |cpio|
    ensures First(Suffix(cpio, off), want, parse) == Missing
  {
    assert parse(Suffix(cpio, off)) == Parse(Suffix(cpio, off), num);
  }

  lemma FirstStep(cpio: seq<byte>, off: nat, p: Parsed, want: seq<byte>, parse: Parser)
    requires off + HEAD <= |cpio| && p == parse(Suffix(cpio, off)) && (p.Got? ==> 0 < p.size)
    ensures var r := First(Suffix(cpio, off), want, parse);
            && (p.Bad? ==> r == Unreadable)
            && (p.Stop? || (p.Got? && p.m.name == TRAILER) ==> r == Missing)
            && (p.Got? && p.m.name != TRAILER ==>
                  r == if p.m.name == want then Found(p.m.data) else First(Suffix(cpio, off + p.size), want, parse))
  {
    if p.Got? {
      SuffixRest(cpio, off, p.size);
    }
  }

  /** The first of some members with a name. */
  function FirstNamed(ms: seq<Member>, want: seq<byte>): (i: nat)
    ensures i <= |ms|
    ensures i < |ms| ==> ms[i].name == want
    ensures forall j :: 0 <= j < i ==> ms[j].name != want
  {
    if ms == [] || ms[0].name == want then 0 else 1 + FirstNamed(ms[1..], want)
  }

  /** Looking up a name finds the data of the first member of that name that the archive lists, and
      nothing exactly when it lists none. */
  lemma {:induction false} FirstOfWalk(s: seq<byte>, want: seq<byte>, parse: Parser)
    requires Walk(s, parse).Some? && want != TRAILER
    ensures var ms := Walk(s, parse).value; var i := FirstNamed(ms, want);
            First(s, want, parse) == if i < |ms| then Found(ms[i].data) else Missing
    decreases |s|
  {
    if s != [] && parse(s).Got? && parse(s).m.name != TRAILER {
      var Got(m, size) := parse(s);
      FirstOfWalk(Rest(s, size), want, parse);
      FirstOfMore(m, Walk(Rest(s, size), parse).value, want);
    }
  }

  lemma FirstOfMore(m: Member, ms: seq<Member>, want: seq<byte>)
    ensures FirstNamed([m] + ms, want) == if m.name == want then 0 else 1 + FirstNamed(ms, want)
  {
    assert ([m] + ms)[1..] == ms;
  }

  // ------------------------------------------------------------------ strip_trailer

  predicate OccursAt(s: seq<byte>, pat: seq<byte>, i: nat) {
    i + |pat| <= |s| && s[i..i + |pat|] == pat
  }

  /** The last start at or before `i` at which `pat` occurs. */
  function LastAt(s: seq<byte>, pat: seq<byte>, i: int): (r: int)
    ensures -1 <= r && (r >= 0 ==> r <= i && OccursAt(s, pat, r))
    ensures forall k :: r < k <= i && 0 <= k ==> !OccursAt(s, pat, k)
    decreases i + 1
  {
    if i < 0 then -1 else if OccursAt(s, pat, i) then i else LastAt(s, pat, i - 1)
  }

  /** s.rfind(pat, 0, end). */
  function RFind(s: seq<byte>, pat: seq<byte>, end: nat): int {
    LastAt(s, pat, end - |pat|)
  }

  function StripTrailer(cpio: seq<byte>): seq<byte> {
    var i := RFind(cpio, TRAILER, |cpio|);
    if i < 0 then cpio
    else
      var start := RFind(cpio, MAGIC, i);
      if start >= 0 then cpio[..start] else cpio
  }

  /** The last place at which `pat` occurs before `end`. */
  ghost predicate LastBefore(s: seq<byte>, pat: seq<byte>, end: nat, i: nat) {
    && i + |pat| <= end && OccursAt(s, pat, i)
    && forall k :: i < k && k + |pat| <= end ==> !OccursAt(s, pat, k)
  }

  /** Where any archive is cut: at the last magic number in front of the last TRAILER!!!, and not at all
      if there is no such word or no such number. */
  lemma StripWhere(cpio: seq<byte>, i: nat, j: nat)
    ensures (forall k: nat :: !OccursAt(cpio, TRAILER, k)) ==> StripTrailer(cpio) == cpio
    ensures LastBefore(cpio, TRAILER, |cpio|, i) && (forall k: nat :: k + 6 <= i ==> !OccursAt(cpio, MAGIC, k)) ==> StripTrailer(cpio) == cpio
    ensures LastBefore(cpio, TRAILER, |cpio|, i) && LastBefore(cpio, MAGIC, i, j) ==> StripTrailer(cpio) == cpio[..j]
  {
    var t := RFind(cpio, TRAILER, |cpio|);
    if LastBefore(cpio, TRAILER, |cpio|, i) {
      assert t == i;
      var m := RFind(cpio, MAGIC, i);
      if LastBefore(cpio, MAGIC, i, j) {
        assert m == j;
      }
    }
  }

  /** `t` starts with a record named TRAILER!!!, and the word does not come again. */
  ghost predicate TrailerRecord(t: seq<byte>) {
    && HEAD + |TRAILER| <= |t| && t[..6] == MAGIC && t[HEAD..HEAD + |TRAILER|] == TRAILER
    && forall k :: HEAD < k ==> !OccursAt(t, TRAILER, k)
  }

  lemma OccursShift(body: seq<byte>, t: seq<byte>, pat: seq<byte>, k: nat)
    ensures OccursAt(body + t, pat, |body| + k) <==> OccursAt(t, pat, k)
  {
    if k + |pat| <= |t| {
      assert (body + t)[|body| + k..|body| + k + |pat|] == t[k..k + |pat|];
    }
  }

  lemma LastTrailer(body: seq<byte>, t: seq<byte>)
    requires TrailerRecord(t)
    ensures RFind(body + t, TRAILER, |body + t|) == |body| + HEAD
  {
    OccursShift(body, t, TRAILER, HEAD);
    var r := RFind(body + t, TRAILER, |body + t|);
    if r > |body| + HEAD {
      OccursShift(body, t, TRAILER, r - |body|);
    }
  }

  /** Cutting the trailer off gives exactly what precedes it if and only if the magic number does
      not occur again inside the trailer's own header. */
  lemma StripExact(body: seq<byte>, t: seq<byte>)
    requires TrailerRecord(t)
    ensures StripTrailer(body + t) == body <==> forall k :: 1 <= k <= HEAD - 6 ==> !OccursAt(t, MAGIC, k)
  {
    LastTrailer(body, t);
    OccursShift(body, t, MAGIC, 0);
    var start := RFind(body + t, MAGIC, |body| + HEAD);
    if start > |body| {
      OccursShift(body, t, MAGIC, start - |body|);
      assert |(body + t)[..start]| == start;
    } else {
      assert start == |body|;
      assert (body + t)[..|body|] == body;
      forall k | 1 <= k <= HEAD - 6 ensures !OccursAt(t, MAGIC, k) {
        OccursShift(body, t, MAGIC, k);
      }
    }
  }

  // ------------------------------------------------------------------ the trailer cpio_entry writes

  lemma NoSevenIn(v: nat)
    requires v in {0, 1, 11}
    ensures |Percent08X(v)| == 8 && forall k :: 0 <= k < 8 ==> Percent08X(v)[k] != 55
  {
    assert ToHex(0, 7) == ToHex(0, 6) + [48];
    assert ToHex(0, 6) == ToHex(0, 5) + [48];
    assert ToHex(0, 5) == ToHex(0, 4) + [48];
    assert ToHex(0, 4) == ToHex(0, 3) + [48];
    assert ToHex(0, 3) == ToHex(0, 2) + [48];
    assert ToHex(0, 2) == ToHex(0, 1) + [48];
    assert ToHex(0, 1) == ToHex(0, 0) + [48];
    assert ToHex(v, 8) == ToHex(0, 7) + [Digit(v)];
  }

  lemma {:induction false} NoSevenFields(vs: seq<nat>, k: nat)
    requires (forall i :: 0 <= i < |vs| ==> vs[i] in {0, 1, 11}) && k < |HexFields(vs)|
    ensures HexFields(vs)[k] != 55
  {
    var n := |vs| - 1;
    NoSevenIn(vs[n]);
    if k < |HexFields(vs[..n])| {
      NoSevenFields(vs[..n], k);
    }
  }

  lemma BuiltHead()
    ensures |EntryHead(TRAILER, [], 0)| == HEAD
    ensures EntryHead(TRAILER, [], 0)[..6] == MAGIC
    ensures forall k :: 6 <= k < HEAD ==> EntryHead(TRAILER, [], 0)[k] != 55
  {
    var vs := EntryFields(TRAILER, [], 0);
    HexFieldsLength(vs);
    forall k | 6 <= k < HEAD ensures EntryHead(TRAILER, [], 0)[k] != 55 {
      NoSevenFields(vs, k - 6);
    }
  }

  lemma BuiltTrailer(zeros: nat)
    ensures TrailerRecord(CpioEntry(TRAILER, [], 0) + Zeros(zeros))
    ensures forall k :: 1 <= k <= HEAD - 6 ==> !OccursAt(CpioEntry(TRAILER, [], 0) + Zeros(zeros), MAGIC, k)
  {
    var head := EntryHead(TRAILER, [], 0);
    var t := CpioEntry(TRAILER, [], 0) + Zeros(zeros);
    BuiltHead();
    var tail := Zeros(|t| - HEAD - |TRAILER|);
    TrailerBytes(zeros, tail);
    AfterHead(head, tail);
  }

  lemma TrailerBytes(zeros: nat, tail: seq<byte>)
    requires |EntryHead(TRAILER, [], 0)| == HEAD
    requires var t := CpioEntry(TRAILER, [], 0) + Zeros(zeros); |t| >= HEAD + |TRAILER| && tail == Zeros(|t| - HEAD - |TRAILER|)
    ensures CpioEntry(TRAILER, [], 0) + Zeros(zeros) == EntryHead(TRAILER, [], 0) + TRAILER + tail
  {
    var head := EntryHead(TRAILER, [], 0);
    assert CpioEntry(TRAILER, [], 0) == head + TRAILER + ([0] + Zeros(PadOf(HEAD + |TRAILER| + 1)) + [] + Zeros(PadOf(0)));
  }

  lemma AfterHead(head: seq<byte>, tail: seq<byte>)
    requires |head| == HEAD && head[..6] == MAGIC && (forall k :: 6 <= k < HEAD ==> head[k] != 55)
    requires forall k :: 0 <= k < |tail| ==> tail[k] == 0
    ensures TrailerRecord(head + TRAILER + tail)
    ensures forall k :: 1 <= k <= HEAD - 6 ==> !OccursAt(head + TRAILER + tail, MAGIC, k)
  {
    var t := head + TRAILER + tail;
    assert t[..6] == head[..6] && t[HEAD..HEAD + |TRAILER|] == TRAILER;
    forall k | HEAD < k ensures !OccursAt(t, TRAILER, k) {
      assert k < HEAD + |TRAILER| ==> t[k] == TRAILER[k - HEAD];
      NotAt(t, TRAILER, k, 0);
    }
    forall k | 1 <= k <= HEAD - 6 ensures !OccursAt(t, MAGIC, k) {
      assert t[k + 3] == head[k + 3];
      assert k + 3 < 6 ==> head[..6][k + 3] == head[k + 3];
      NotAt(t, MAGIC, k, 3);
    }
  }

  lemma NotAt(t: seq<byte>, pat: seq<byte>, k: nat, j: nat)
    requires j < |pat| && (k + j < |t| ==> t[k + j] != pat[j])
    ensures !OccursAt(t, pat, k)
  {
    if k + |pat| <= |t| {
      assert t[k..k + |pat|][j] == t[k + j];
    }
  }

  /** The trailer that cpio_entry writes, padded with any number of zeros, is cut off exactly,
      whatever precedes it. */
  lemma StripBuilt(body: seq<byte>, zeros: nat)
    ensures StripTrailer(body + (CpioEntry(TRAILER, [], 0) + Zeros(zeros))) == body
  {
    BuiltTrailer(zeros);
    StripExact(body, CpioEntry(TRAILER, [], 0) + Zeros(zeros));
  }

  /** A trailer like the written one but with inode number 0x70701, whose hex digits hold the magic
      number. */
  function MagicInode(was: seq<byte>): seq<byte>
    requires HEAD <= |was|
  {
    was[..6] + ([48, 48] + MAGIC) + was[14..]
  }

  lemma SameBehindHead(was: seq<byte>, k: nat)
    requires HEAD <= |was| && HEAD <= k
    ensures OccursAt(MagicInode(was), TRAILER, k) <==> OccursAt(was, TRAILER, k)
  {
    if k + |TRAILER| <= |was| {
      assert MagicInode(was)[k..k + |TRAILER|] == was[k..k + |TRAILER|];
    }
  }

  lemma MagicInodeRecord(was: seq<byte>)
    requires TrailerRecord(was)
    ensures TrailerRecord(MagicInode(was)) && OccursAt(MagicInode(was), MAGIC, 8)
  {
    var t := MagicInode(was);
    assert t[..6] == was[..6] && t[8..14] == MAGIC;
    assert t[HEAD..HEAD + |TRAILER|] == was[HEAD..HEAD + |TRAILER|];
    forall k | HEAD < k ensures !OccursAt(t, TRAILER, k) {
      SameBehindHead(was, k);
    }
  }

  /** Such a trailer is not cut off: part of it stays, whatever precedes it. */
  lemma MagicInodeStays(body: seq<byte>, was: seq<byte>)
    requires was == CpioEntry(TRAILER, [], 0)
    ensures TrailerRecord(was) && TrailerRecord(MagicInode(was))
    ensures StripTrailer(body + was) == body && StripTrailer(body + MagicInode(was)) != body
  {
    BuiltTrailer(0);
    assert was + Zeros(0) == was;
    MagicInodeRecord(was);
    StripExact(body, was);
    StripExact(body, MagicInode(was));
  }

  // ------------------------------------------------------------------ unpacking

  /** What an unpacker that lets later members win leaves under each name. */
  function Unpacked(ms: seq<Member>): map<seq<byte>, Member> {
    if ms == [] then map[]
    else Unpacked(ms[..|ms| - 1])[ms[|ms| - 1].name := ms[|ms| - 1]]
  }

  lemma {:induction false} LaterWins(a: seq<Member>, b: seq<Member>, name: seq<byte>)
    ensures name in Unpacked(b) ==> name in Unpacked(a + b) && Unpacked(a + b)[name] == Unpacked(b)[name]
    ensures name !in Unpacked(b) ==> (name in Unpacked(a + b) <==> name in Unpacked(a))
    ensures name !in Unpacked(b) && name in Unpacked(a) ==> Unpacked(a + b)[name] == Unpacked(a)[name]
  {
    if b == [] {
      assert a + b == a;
    } else {
      var n := |b| - 1;
      LaterWins(a, b[..n], name);
      assert (a + b)[..|a + b| - 1] == a + b[..n];
    }
  }

  /** One override per lookup that succeeded. */
  datatype Override = Override(name: seq<byte>, data: seq<byte>)

  const FILE_MODE := 0x81A4 // 0o100644

  function Overrides(os: seq<Override>): seq<byte> {
    if os == [] then []
    else
      var o := os[|os| - 1];
      Overrides(os[..|os| - 1]) + CpioEntry(o.name, o.data, FILE_MODE)
  }

  function OverrideMembers(os: seq<Override>): (ms: seq<Member>)
    ensures |ms| == |os|
    ensures forall i :: 0 <= i < |os| ==> ms[i] == EntryMember(os[i].name, os[i].data, FILE_MODE)
  {
    if os == [] then []
    else
      var o := os[|os| - 1];
      OverrideMembers(os[..|os| - 1]) + [EntryMember(o.name, o.data, FILE_MODE)]
  }

  ghost predicate Writable(o: Override) {
    |o.name| + 1 < U32 && |o.data| < U32 && o.name != TRAILER
  }

  lemma {:induction false} WalkOverrides(os: seq<Override>, rest: seq<byte>, parse: Parser, num: Number)
    requires ReadsHex(num) && Parses(parse, num) && forall i :: 0 <= i < |os| ==> Writable(os[i])
    ensures Walk(Overrides(os) + rest, parse) == Join(OverrideMembers(os), Walk(rest, parse))
  {
    JoinAssoc([], [], Walk(rest, parse));
    if os == [] {
      assert Overrides(os) + rest == rest;
    } else {
      var n := |os| - 1;
      var o := os[n];
      assert Writable(o);
      WalkOverrides(os[..n], CpioEntry(o.name, o.data, FILE_MODE) + rest, parse, num);
      WalkEntry(o.name, o.data, FILE_MODE, rest, parse, num);
      Assoc(Overrides(os[..n]), CpioEntry(o.name, o.data, FILE_MODE), rest);
      JoinAssoc(OverrideMembers(os[..n]), [EntryMember(o.name, o.data, FILE_MODE)], Walk(rest, parse));
    }
  }

  /** The archive the patcher writes. */
  function Patched(cpio: seq<byte>, os: seq<Override>): seq<byte> {
    StripTrailer(cpio) + (Overrides(os) + CpioEntry(TRAILER, [], 0))
  }

  /** For an archive of whole members that ends in a trailer which is cut off exactly: the
      patched one lists the same members and then the overrides. */
  lemma PatchedReads(body: seq<byte>, t: seq<byte>, os: seq<Override>, parse: Parser, num: Number)
    requires ReadsHex(num) && Parses(parse, num) && Blocks(body, parse)
    requires TrailerRecord(t) && (forall k :: 1 <= k <= HEAD - 6 ==> !OccursAt(t, MAGIC, k))
    requires forall i :: 0 <= i < |os| ==> Writable(os[i])
    ensures Walk(body, parse).Some?
    ensures Walk(Patched(body + t, os), parse) == Some(Walk(body, parse).value + OverrideMembers(os))
  {
    var trailer := CpioEntry(TRAILER, [], 0);
    StripExact(body, t);
    WalkBlocks(body, Overrides(os) + trailer, parse, num);
    WalkOverrides(os, trailer, parse, num);
    WalkTrailer([], parse, num);
    assert trailer + [] == trailer;
    assert OverrideMembers(os) + [] == OverrideMembers(os);
  }

  lemma {:induction false} UnpackedNames(ms: seq<Member>, name: seq<byte>)
    ensures name in Unpacked(ms) <==> exists i :: 0 <= i < |ms| && ms[i].name == name
  {
    if ms != [] {
      UnpackedNames(ms[..|ms| - 1], name);
      assert forall i :: 0 <= i < |ms| - 1 ==> ms[..|ms| - 1][i] == ms[i];
    }
  }

  lemma {:induction false} UnpackedLast(ms: seq<Member>, i: nat)
    requires i < |ms| && forall j :: i < j < |ms| ==> ms[j].name != ms[i].name
    ensures ms[i].name in Unpacked(ms) && Unpacked(ms)[ms[i].name] == ms[i]
  {
    if i < |ms| - 1 {
      assert ms[|ms| - 1].name != ms[i].name;
      UnpackedLast(ms[..|ms| - 1], i);
    }
  }

  ghost predicate DistinctNames(os: seq<Override>) {
    forall i, j :: 0 <= i < j < |os| ==> os[i].name != os[j].name
  }

  /** When later members win, unpacking the patched archive differs from unpacking the old one in
      the overridden names only, and there it gives the overrides. */
  lemma OverridesWin(oldMembers: seq<Member>, os: seq<Override>, name: seq<byte>)
    requires DistinctNames(os)
    ensures var after := Unpacked(oldMembers + OverrideMembers(os));
            && (forall i :: 0 <= i < |os| && os[i].name == name ==>
                  name in after && after[name] == EntryMember(name, os[i].data, FILE_MODE))
            && ((forall i :: 0 <= i < |os| ==> os[i].name != name) ==>
                  (name in after <==> name in Unpacked(oldMembers))
                  && (name in Unpacked(oldMembers) ==> after[name] == Unpacked(oldMembers)[name]))
  {
    var ms := OverrideMembers(os);
    LaterWins(oldMembers, ms, name);
    UnpackedNames(ms, name);
    forall i | 0 <= i < |os| && os[i].name == name
      ensures name in Unpacked(ms) && Unpacked(ms)[name] == EntryMember(name, os[i].data, FILE_MODE)
    {
      UnpackedLast(ms, i);
    }
  }
}
