/** The loops over an archive: patch-boot-overlayrc.py keeps all members but a few,
    patch-recovery-adb.py looks one up, and both cut or replace the trailer. */
module CpioFilter {
  import opened Common
  import opened Bytes
  import opened Cpio

  function Suffix(s: seq<byte>, off: nat): seq<byte> { if off <= |s| then s[off..] else [] }

  // ------------------------------------------------------------------ one member, by absolute offset

  /** The loop body's reads. Padding counts from the start of the archive, which at a multiple of
      four is the same as from the start of the member. */
  method NextMember(cpio: seq<byte>, off: nat, num: Number, ghost parse: Parser, ghost words: nat) returns (p: Parsed, ghost next: nat)
    requires off == 4 * words && Parses(parse, num)
    ensures p == parse(Suffix(cpio, off))
    ensures p.Got? ==> off + p.size == 4 * next && 0 < p.size
  {
    next := words;
    assert parse(Suffix(cpio, off)) == Parse(Suffix(cpio, off), num);
    if off + HEAD > |cpio| {
      return Stop, words;
    }
    assert Suffix(cpio, off)[..6] == cpio[off..off + 6];
    if cpio[off..off + 6] != MAGIC {
      return Stop, words;
    }
    p, next := ReadMember(cpio, off, num, words);
  }

  method ReadMember(cpio: seq<byte>, off: nat, num: Number, ghost words: nat) returns (p: Parsed, ghost next: nat)
    requires off == 4 * words && off + HEAD <= |cpio| && Suffix(cpio, off)[..6] == MAGIC
    ensures p == Parse(Suffix(cpio, off), num)
    ensures p.Got? ==> off + p.size == 4 * next && 0 < p.size
  {
    next := words;
    FieldAbsolute(cpio, off, FILESIZE, num);
    FieldAbsolute(cpio, off, NAMESIZE, num);
    var fsz := num(cpio[off + 6 + FILESIZE * 8..off + 14 + FILESIZE * 8]);
    var nsz := num(cpio[off + 6 + NAMESIZE * 8..off + 14 + NAMESIZE * 8]);
    if fsz.None? || nsz.None? {
      return Bad, words;
    }
    var d, nxt;
    d, nxt, next := MemberBounds(off, nsz.value, fsz.value, words);
    MemberAbsolute(cpio, off, nsz.value, fsz.value, num);
    p := Got(Member(cpio[off..off + HEAD], Slice(cpio, off + HEAD, off + HEAD + nsz.value - 1), Slice(cpio, d, d + fsz.value)), nxt - off);
  }

  lemma MemberAbsolute(cpio: seq<byte>, off: nat, nsz: nat, fsz: nat, num: Number)
    requires off + HEAD <= |cpio| && Suffix(cpio, off)[..6] == MAGIC && HEAD <= |Suffix(cpio, off)|
    requires Field(Suffix(cpio, off), FILESIZE, num) == Some(fsz) && Field(Suffix(cpio, off), NAMESIZE, num) == Some(nsz)
    ensures var d := off + DataStart(nsz);
            Parse(Suffix(cpio, off), num)
            == Got(Member(cpio[off..off + HEAD], Slice(cpio, off + HEAD, off + HEAD + nsz - 1), Slice(cpio, d, d + fsz)), MemberSize(nsz, fsz))
  {
    SliceAbsolute(cpio, off, HEAD, HEAD + nsz - 1);
    SliceAbsolute(cpio, off, DataStart(nsz), DataStart(nsz) + fsz);
    assert Suffix(cpio, off)[..HEAD] == cpio[off..off + HEAD];
  }

  /** Where the data starts and where the next member does. */
  method MemberBounds(off: nat, nsz: nat, fsz: nat, ghost words: nat) returns (d: nat, nxt: nat, ghost next: nat)
    requires off == 4 * words
    ensures d == off + DataStart(nsz) && nxt == off + MemberSize(nsz, fsz) && nxt == 4 * next
  {
    d := Up4(off + HEAD + nsz);
    Up4Shift(off, HEAD + nsz);
    nxt := Up4(d + fsz);
    Up4Shift(off, DataStart(nsz) + fsz);
    next := nxt / 4;
  }

  lemma Up4Shift(off: nat, n: nat)
    requires off % 4 == 0
    ensures Up4(off + n) == off + Up4(n) && Up4(off + n) % 4 == 0
  {
    Up4Facts(n, off);
    Up4Facts(off + n, 0);
  }

  lemma FieldAbsolute(cpio: seq<byte>, off: nat, n: nat, num: Number)
    requires off + HEAD <= |cpio| && n < 13
    ensures HEAD <= |Suffix(cpio, off)|
    ensures Field(Suffix(cpio, off), n, num) == num(cpio[off + 6 + n * 8..off + 14 + n * 8])
  {
    assert Suffix(cpio, off)[6 + 8 * n..14 + 8 * n] == cpio[off + 6 + n * 8..off + 14 + n * 8];
  }

  lemma SliceAbsolute(cpio: seq<byte>, off: nat, lo: nat, hi: nat)
    requires off <= |cpio|
    ensures Slice(cpio, off + lo, off + hi) == Slice(Suffix(cpio, off), lo, hi)
  {
    var s := Suffix(cpio, off);
    if lo < |s| && lo < hi {
      SubSlice(cpio, off, |s|, lo, Min(hi, |s|));
      assert cpio[off..off + |s|] == s;
      assert Min(off + hi, |cpio|) == off + Min(hi, |s|);
    }
  }

  lemma SuffixRest(s: seq<byte>, off: nat, size: nat)
    requires off <= |s| && 0 < size
    ensures Rest(Suffix(s, off), size) == Suffix(s, off + size)
  {
  }

  // ------------------------------------------------------------------ keeping all but some

  function JoinBytes(a: seq<byte>, b: Option<seq<byte>>): Option<seq<byte>> {
    if b.None? then None else Some(a + b.value)
  }

  /** The bytes of the members that are not dropped, up to the trailer. */
  function Kept(s: seq<byte>, drop: set<seq<byte>>, parse: Parser): Option<seq<byte>>
    decreases |s|
  {
    if s == [] then Some([])
    else
      match parse(s)
      case Stop => Some([])
      case Bad => None
      case Got(m, size) =>
        if m.name == TRAILER then Some([])
        else JoinBytes(if m.name in drop then [] else Slice(s, 0, size), Kept(Rest(s, size), drop, parse))
  }

  /** Filtering gives bytes exactly when the archive can be listed. */
  lemma {:induction false} KeptIffListed(s: seq<byte>, drop: set<seq<byte>>, parse: Parser)
    ensures Kept(s, drop, parse).Some? <==> Walk(s, parse).Some?
    decreases |s|
  {
    if s != [] && parse(s).Got? && parse(s).m.name != TRAILER {
      KeptIffListed(Rest(s, parse(s).size), drop, parse);
    }
  }

  /** `kept` and what is kept from `off` on make up all that is kept. */
  ghost predicate KeptSoFar(cpio: seq<byte>, off: nat, kept: seq<byte>, drop: set<seq<byte>>, parse: Parser) {
    JoinBytes(kept, Kept(Suffix(cpio, off), drop, parse)) == Kept(cpio, drop, parse)
  }

  method KeepMembers(cpio: seq<byte>, drop: set<seq<byte>>, num: Number, ghost parse: Parser) returns (r: Option<seq<byte>>)
    requires Parses(parse, num)
    ensures r == Kept(cpio, drop, parse)
  {
    var kept := [];
    var off := 0;
    ghost var words := 0;
    JoinNothing(Kept(cpio, drop, parse));
    while off + HEAD <= |cpio|
      invariant off == 4 * words && KeptSoFar(cpio, off, kept, drop, parse)
      decreases |cpio| + HEAD - off
    {
      var p;
      p, words := NextMember(cpio, off, num, parse, words);
      KeptEnds(cpio, off, kept, p, drop, parse);
      if p.Bad? {
        return None;
      }
      if p.Stop? || p.m.name == TRAILER {
        return Some(kept);
      }
      KeptGrows(cpio, off, kept, p, drop, parse);
      if p.m.name !in drop {
        kept := kept + Slice(cpio, off, off + p.size);
      }
      off := off + p.size;
    }
    StopsAtEnd(cpio, off, drop, parse, num);
    KeptAll(cpio, off, kept, drop, parse);
    r := Some(kept);
  }

  lemma KeptAll(cpio: seq<byte>, off: nat, kept: seq<byte>, drop: set<seq<byte>>, parse: Parser)
    requires KeptSoFar(cpio, off, kept, drop, parse) && Kept(Suffix(cpio, off), drop, parse) == Some([])
    ensures Kept(cpio, drop, parse) == Some(kept)
  {
    assert kept + [] == kept;
  }

  lemma KeptEnds(cpio: seq<byte>, off: nat, kept: seq<byte>, p: Parsed, drop: set<seq<byte>>, parse: Parser)
    requires off + HEAD <= |cpio| && p == parse(Suffix(cpio, off))
    requires KeptSoFar(cpio, off, kept, drop, parse)
    ensures p.Bad? ==> Kept(cpio, drop, parse) == None
    ensures p.Stop? || (p.Got? && p.m.name == TRAILER) ==> Kept(cpio, drop, parse) == Some(kept)
  {
    if p.Stop? || (p.Got? && p.m.name == TRAILER) {
      KeptAll(cpio, off, kept, drop, parse);
    }
  }

  lemma KeptGrows(cpio: seq<byte>, off: nat, kept: seq<byte>, p: Parsed, drop: set<seq<byte>>, parse: Parser)
    requires off + HEAD <= |cpio| && p == parse(Suffix(cpio, off))
    requires KeptSoFar(cpio, off, kept, drop, parse) && p.Got? && p.m.name != TRAILER && 0 < p.size
    ensures p.m.name in drop ==> KeptSoFar(cpio, off + p.size, kept, drop, parse)
    ensures p.m.name !in drop ==> KeptSoFar(cpio, off + p.size, kept + Slice(cpio, off, off + p.size), drop, parse)
  {
    KeptStep(cpio, off, p, drop, parse);
    JoinBytesAssoc(kept, Slice(cpio, off, off + p.size), Kept(Suffix(cpio, off + p.size), drop, parse));
  }

  lemma KeptStep(cpio: seq<byte>, off: nat, p: Parsed, drop: set<seq<byte>>, parse: Parser)
    requires off + HEAD <= |cpio| && parse(Suffix(cpio, off)) == p && (p.Got? ==> 0 < p.size)
    ensures var k := Kept(Suffix(cpio, off), drop, parse);
            && (p.Bad? ==> k == None)
            && (p.Stop? || (p.Got? && p.m.name == TRAILER) ==> k == Some([]))
            && (p.Got? && p.m.name != TRAILER ==>
                  k == if p.m.name in drop then Kept(Suffix(cpio, off + p.size), drop, parse)
                       else JoinBytes(Slice(cpio, off, off + p.size), Kept(Suffix(cpio, off + p.size), drop, parse)))
  {
    if p.Got? {
      SuffixRest(cpio, off, p.size);
      SliceAbsolute(cpio, off, 0, p.size);
      JoinNothing(Kept(Suffix(cpio, off + p.size), drop, parse));
    }
  }

  lemma JoinNothing(b: Option<seq<byte>>)
    ensures JoinBytes([], b) == b
  {
    if b.Some? {
      assert [] + b.value == b.value;
    }
  }

  lemma JoinBytesAssoc(a: seq<byte>, b: seq<byte>, c: Option<seq<byte>>)
    ensures JoinBytes(a, JoinBytes(b, c)) == JoinBytes(a + b, c)
  {
    if c.Some? {
      assert a + (b + c.value) == a + b + c.value;
    }
  }

  /** Where less than a header is left there is no member. */
  lemma StopsAtEnd(cpio: seq<byte>, off: nat, drop: set<seq<byte>>, parse: Parser, num: Number)
    requires Parses(parse, num)
    ensures off + HEAD > |cpio| ==> Kept(Suffix(cpio, off), drop, parse) == Some([])
  {
    assert parse(Suffix(cpio, off)) == Parse(Suffix(cpio, off), num);
  }

  // ------------------------------------------------------------------ what is kept

  /** All members up to the trailer, or the end, are complete and readable. */
  ghost predicate Complete(s: seq<byte>, parse: Parser)
    decreases |s|
  {
    s == [] ||
    match parse(s)
    case Stop => true
    case Bad => false
    case Got(m, size) => m.name == TRAILER || (0 < size <= |s| && Complete(s[size..], parse))
  }

  function Without(ms: seq<Member>, drop: set<seq<byte>>): seq<Member> {
    if ms == [] then []
    else (if ms[0].name in drop then [] else [ms[0]]) + Without(ms[1..], drop)
  }

  lemma BlocksFrom(head: seq<byte>, m: Member, tail: seq<byte>, parse: Parser, num: Number)
    requires Parses(parse, num) && IsMember(head, m, parse) && Blocks(tail, parse)
    ensures Blocks(head + tail, parse)
  {
    MemberPrefix(head, m, tail, parse, num);
    assert (head + tail)[..|head|] == head && (head + tail)[|head|..] == tail;
  }

  lemma WalkFirst(s: seq<byte>, m: Member, size: nat, parse: Parser)
    requires s != [] && parse(s) == Got(m, size) && m.name != TRAILER && 0 < size <= |s| && Walk(s[size..], parse).Some?
    ensures Walk(s, parse) == Some([m] + Walk(s[size..], parse).value)
  {
  }

  /** What is kept is whole members, and reads as the archive without the dropped ones. */
  lemma {:induction false} KeptReads(s: seq<byte>, drop: set<seq<byte>>, parse: Parser, num: Number)
    requires Parses(parse, num) && Complete(s, parse)
    ensures Walk(s, parse).Some? && Kept(s, drop, parse).Some?
    ensures Blocks(Kept(s, drop, parse).value, parse)
    ensures Walk(Kept(s, drop, parse).value, parse) == Some(Without(Walk(s, parse).value, drop))
    decreases |s|
  {
    if s != [] && parse(s).Got? && parse(s).m.name != TRAILER {
      var Got(m, size) := parse(s);
      var tail := s[size..];
      KeptReads(tail, drop, parse, num);
      WalkFirst(s, m, size, parse);
      FirstMember(s, m, size, parse, num);
      var more := Kept(tail, drop, parse).value;
      WithoutFirst(m, Walk(tail, parse).value, drop);
      if m.name in drop {
        assert [] + more == more;
      } else {
        BlocksFrom(s[..size], m, more, parse, num);
        WalkMember(s[..size], m, more, parse, num);
      }
    }
  }

  lemma WithoutFirst(m: Member, ms: seq<Member>, drop: set<seq<byte>>)
    ensures Without([m] + ms, drop) == if m.name in drop then Without(ms, drop) else [m] + Without(ms, drop)
  {
    assert ([m] + ms)[1..] == ms;
    assert [] + Without(ms, drop) == Without(ms, drop);
  }

  /** The rebuilt archive: kept members, one new one, a trailer. */
  function Extended(kept: seq<byte>, name: seq<byte>, data: seq<byte>, mode: nat): seq<byte> {
    kept + (CpioEntry(name, data, mode) + CpioEntry(TRAILER, [], 0))
  }

  /** Reading the rebuilt archive gives exactly the old members in order without the dropped
      names, then the new one. */
  lemma RebuildIsFilter(s: seq<byte>, drop: set<seq<byte>>, name: seq<byte>, data: seq<byte>, mode: nat, parse: Parser, num: Number)
    requires ReadsHex(num) && Parses(parse, num) && Complete(s, parse)
    requires |name| + 1 < U32 && |data| < U32 && mode < U32 && name != TRAILER
    ensures Walk(s, parse).Some? && Kept(s, drop, parse).Some?
    ensures Walk(Extended(Kept(s, drop, parse).value, name, data, mode), parse)
            == Some(Without(Walk(s, parse).value, drop) + [EntryMember(name, data, mode)])
  {
    var trailer, entry := CpioEntry(TRAILER, [], 0), CpioEntry(name, data, mode);
    KeptReads(s, drop, parse, num);
    WalkBlocks(Kept(s, drop, parse).value, entry + trailer, parse, num);
    WalkEntry(name, data, mode, trailer, parse, num);
    WalkTrailer([], parse, num);
    assert trailer + [] == trailer;
    assert [EntryMember(name, data, mode)] + [] == [EntryMember(name, data, mode)];
  }
}
