/** newc cpio archives ("New ASCII Format" of cpio(5)) as the two image patchers write and read
    them: 110 bytes of magic and hex fields, the name with a NUL, the data, each padded to four
    bytes. */
module Cpio {
  import opened Common
  import opened Bytes

  const MAGIC: seq<byte> := [48, 55, 48, 55, 48, 49]
  const TRAILER: seq<byte> := [84, 82, 65, 73, 76, 69, 82, 33, 33, 33]
  const HEAD := 110
  const FILESIZE := 6
  const NAMESIZE := 11

  // ------------------------------------------------------------------ hex fields

  function Digit(d: nat): byte
    requires d < 16
  {
    if d < 10 then 48 + d else 55 + d
  }

  function DigitValue(b: byte): Option<nat> {
    if 48 <= b <= 57 then Some(b - 48)
    else if 65 <= b <= 70 then Some(b - 55)
    else if 97 <= b <= 102 then Some(b - 87)
    else None
  }

  function ToHex(v: nat, n: nat): (s: seq<byte>)
    ensures |s| == n
  {
    if n == 0 then [] else ToHex(v / 16, n - 1) + [Digit(v % 16)]
  }

  /** "%08X" % v: at least eight digits. */
  function Percent08X(v: nat): (s: seq<byte>)
    ensures 8 <= |s|
    ensures |s| == 8 <==> v < U32
  {
    if v < U32 then ToHex(v, 8) else Percent08X(v / 16) + [Digit(v % 16)]
  }

  function FromHex(s: seq<byte>): Option<nat> {
    if s == [] then Some(0)
    else
      var high, low := FromHex(s[..|s| - 1]), DigitValue(s[|s| - 1]);
      if high.None? || low.None? then None else Some(16 * high.value + low.value)
  }

  function Pow16(n: nat): nat { if n == 0 then 1 else 16 * Pow16(n - 1) }

  lemma {:induction false} HexRoundTrip(v: nat, n: nat)
    requires v < Pow16(n)
    ensures FromHex(ToHex(v, n)) == Some(v)
  {
    if n > 0 {
      HexRoundTrip(v / 16, n - 1);
      assert ToHex(v, n)[..n - 1] == ToHex(v / 16, n - 1);
    }
  }

  lemma Pow16Eight()
    ensures Pow16(8) == U32
  {
    assert Pow16(4) == 0x1_0000;
    assert Pow16(8) == 16 * (16 * (16 * (16 * Pow16(4))));
  }

  /** How a field is read back: int(field, 16), which takes more than hex digits. */
  type Number = seq<byte> -> Option<nat>

  /** The reader understands what "%08X" writes. */
  ghost predicate ReadsHex(num: Number) {
    forall v: nat :: v < U32 ==> num(ToHex(v, 8)) == Some(v)
  }

  lemma FromHexReads()
    ensures ReadsHex(FromHex)
  {
    Pow16Eight();
    forall v: nat | v < U32 ensures FromHex(ToHex(v, 8)) == Some(v) {
      HexRoundTrip(v, 8);
    }
  }

  function HexFields(vs: seq<nat>): seq<byte> {
    if vs == [] then [] else HexFields(vs[..|vs| - 1]) + Percent08X(vs[|vs| - 1])
  }

  ghost predicate AllNarrow(vs: seq<nat>) {
    forall i :: 0 <= i < |vs| ==> vs[i] < U32
  }

  lemma {:induction false} HexFieldsLength(vs: seq<nat>)
    requires AllNarrow(vs)
    ensures |HexFields(vs)| == 8 * |vs|
  {
    if vs != [] {
      HexFieldsLength(vs[..|vs| - 1]);
    }
  }

  lemma {:induction false} HexFieldAt(vs: seq<nat>, i: nat)
    requires AllNarrow(vs) && i < |vs|
    ensures |HexFields(vs)| == 8 * |vs| && HexFields(vs)[8 * i..8 * i + 8] == ToHex(vs[i], 8)
  {
    var n := |vs| - 1;
    HexFieldsLength(vs);
    HexFieldsLength(vs[..n]);
    if i < n {
      HexFieldAt(vs[..n], i);
      assert HexFields(vs)[8 * i..8 * i + 8] == HexFields(vs[..n])[8 * i..8 * i + 8];
    }
  }

  // ------------------------------------------------------------------ writing

  function PadOf(n: nat): nat { (4 - n % 4) % 4 }

  function Up4(n: nat): nat { n + PadOf(n) }

  lemma Up4Facts(n: nat, m: nat)
    ensures Up4(n) % 4 == 0 && n <= Up4(n) < n + 4
    ensures m % 4 == 0 ==> Up4(m + n) == m + Up4(n)
  {
    var k, r := n / 4, n % 4;
    if m % 4 == 0 {
      assert m + n == 4 * (m / 4 + k) + r;
    }
  }

  function EntryFields(name: seq<byte>, data: seq<byte>, mode: nat): seq<nat> {
    [0, mode, 0, 0, 1, 0, |data|, 0, 0, 0, 0, |name| + 1, 0]
  }

  function EntryHead(name: seq<byte>, data: seq<byte>, mode: nat): seq<byte> {
    MAGIC + HexFields(EntryFields(name, data, mode))
  }

  /** cpio_entry: padding counts from the entry's own start. */
  function CpioEntry(name: seq<byte>, data: seq<byte>, mode: nat): seq<byte> {
    var head := EntryHead(name, data, mode) + name + [0];
    head + Zeros(PadOf(|head|)) + data + Zeros(PadOf(|data|))
  }

  // ------------------------------------------------------------------ reading

  /** The header bytes, the name and the data. */
  datatype Member = Member(head: seq<byte>, name: seq<byte>, data: seq<byte>)

  /** No member here; a field that is not hex; a member and the bytes it takes. */
  datatype Parsed = Stop | Bad | Got(m: Member, size: nat)

  function Field(s: seq<byte>, n: nat, num: Number): Option<nat>
    requires 14 + 8 * n <= |s|
  {
    num(s[6 + 8 * n..14 + 8 * n])
  }

  function DataStart(namesize: nat): (d: nat)
    ensures HEAD + namesize <= d
  {
    Up4(HEAD + namesize)
  }

  function MemberSize(namesize: nat, filesize: nat): (n: nat)
    ensures DataStart(namesize) + filesize <= n
  {
    Up4(DataStart(namesize) + filesize)
  }

  /** The member at the start of `s`; `s` starts at a multiple of four in its archive. */
  function Parse(s: seq<byte>, num: Number): (p: Parsed)
    ensures p.Got? ==> HEAD <= p.size && HEAD <= |s|
  {
    if |s| < HEAD || s[..6] != MAGIC then Stop
    else
      var fsz, nsz := Field(s, FILESIZE, num), Field(s, NAMESIZE, num);
      if fsz.None? || nsz.None? then Bad
      else
        var d := DataStart(nsz.value);
        Got(Member(s[..HEAD], Slice(s, HEAD, HEAD + nsz.value - 1), Slice(s, d, d + fsz.value)), MemberSize(nsz.value, fsz.value))
  }

  /** A member's bytes parse the same whatever follows them. */
  lemma ParsePrefix(s: seq<byte>, rest: seq<byte>, num: Number)
    requires Parse(s, num).Got? && Parse(s, num).size <= |s|
    ensures Parse(s[..Parse(s, num).size] + rest, num) == Parse(s, num)
  {
    var size := Parse(s, num).size;
    var t := s[..size] + rest;
    assert t[..HEAD] == s[..HEAD];
    assert t[..6] == s[..HEAD][..6] == s[..6];
    FieldSame(s, t, FILESIZE, num);
    FieldSame(s, t, NAMESIZE, num);
    ParseSame(s, size, rest, Field(s, FILESIZE, num).value, Field(s, NAMESIZE, num).value);
  }

  lemma ParseSame(s: seq<byte>, n: nat, rest: seq<byte>, fsz: nat, nsz: nat)
    requires HEAD <= |s| && n == MemberSize(nsz, fsz) <= |s|
    ensures var t := s[..n] + rest;
            && Slice(t, HEAD, HEAD + nsz - 1) == Slice(s, HEAD, HEAD + nsz - 1)
            && Slice(t, DataStart(nsz), DataStart(nsz) + fsz) == Slice(s, DataStart(nsz), DataStart(nsz) + fsz)
  {
    PrefixSlice(s, n, rest, HEAD, HEAD + nsz - 1);
    PrefixSlice(s, n, rest, DataStart(nsz), DataStart(nsz) + fsz);
  }

  lemma FieldSame(s: seq<byte>, t: seq<byte>, n: nat, num: Number)
    requires HEAD <= |s| && HEAD <= |t| && s[..HEAD] == t[..HEAD] && n < 13
    ensures Field(s, n, num) == Field(t, n, num)
  {
    assert s[6 + 8 * n..14 + 8 * n] == s[..HEAD][6 + 8 * n..14 + 8 * n] == t[..HEAD][6 + 8 * n..14 + 8 * n] == t[6 + 8 * n..14 + 8 * n];
  }

  lemma PrefixSlice(s: seq<byte>, n: nat, rest: seq<byte>, lo: nat, hi: nat)
    requires n <= |s| && hi <= n
    ensures Slice(s[..n] + rest, lo, hi) == Slice(s, lo, hi)
  {
    if lo < hi {
      assert (s[..n] + rest)[lo..hi] == s[lo..hi];
    }
  }

  // ------------------------------------------------------------------ round trip of one entry

  /** A name and data below 4 GiB read back, and the entry ends on a multiple of four. */
  lemma EntryParses(name: seq<byte>, data: seq<byte>, mode: nat, rest: seq<byte>, num: Number)
    requires ReadsHex(num)
    requires |name| + 1 < U32 && |data| < U32 && mode < U32
    ensures Parse(CpioEntry(name, data, mode) + rest, num)
            == Got(Member(EntryHead(name, data, mode), name, data), |CpioEntry(name, data, mode)|)
  {
    var vs, head := EntryFields(name, data, mode), EntryHead(name, data, mode);
    HexFieldsLength(vs);
    EntryShape(name, data, mode, rest);
    EntrySize(name, data, mode);
    HeadFields(vs, CpioEntry(name, data, mode) + rest, num);
  }

  /** The fields of an entry in the order of the format: the mode second, one link, the data's length
      seventh, the name's with its NUL twelfth, and zeros elsewhere. */
  lemma EntryHeader(name: seq<byte>, data: seq<byte>, mode: nat, rest: seq<byte>, num: Number, n: nat)
    requires ReadsHex(num) && n < 13
    requires |name| + 1 < U32 && |data| < U32 && mode < U32
    ensures 14 + 8 * n <= |CpioEntry(name, data, mode) + rest|
    ensures Field(CpioEntry(name, data, mode) + rest, n, num)
            == Some(if n == 1 then mode else if n == 4 then 1 else if n == 6 then |data| else if n == 11 then |name| + 1 else 0)
  {
    var vs, s := EntryFields(name, data, mode), CpioEntry(name, data, mode) + rest;
    HexFieldsLength(vs);
    EntryShape(name, data, mode, rest);
    HexFieldAt(vs, n);
    HeadField(vs, s, n);
  }

  /** Between name and data and behind the data there are only zeros. */
  lemma EntryPadding(name: seq<byte>, data: seq<byte>, mode: nat, k: nat)
    requires |EntryHead(name, data, mode)| == HEAD
    ensures var e, d := CpioEntry(name, data, mode), DataStart(|name| + 1);
            d + |data| <= |e| && (HEAD + |name| <= k < d || d + |data| <= k < |e| ==> e[k] == 0)
  {
  }

  lemma EntrySize(name: seq<byte>, data: seq<byte>, mode: nat)
    requires |EntryHead(name, data, mode)| == HEAD
    ensures |CpioEntry(name, data, mode)| == MemberSize(|name| + 1, |data|)
  {
    Up4Facts(HEAD + |name| + 1, 0);
    Up4Facts(|data|, DataStart(|name| + 1));
  }

  lemma EntryShape(name: seq<byte>, data: seq<byte>, mode: nat, rest: seq<byte>)
    requires |EntryHead(name, data, mode)| == HEAD
    ensures var s, d := CpioEntry(name, data, mode) + rest, DataStart(|name| + 1);
            && HEAD <= |s| && s[..HEAD] == EntryHead(name, data, mode)
            && Slice(s, HEAD, HEAD + |name|) == name && Slice(s, d, d + |data|) == data
  {
    var head := EntryHead(name, data, mode);
    var pad1, pad2 := Zeros(PadOf(HEAD + |name| + 1)), Zeros(PadOf(|data|));
    EntryPieces(head, name, pad1, data, pad2 + rest, DataStart(|name| + 1));
    EntryRegrouped(head, name, [0], pad1, data, pad2, rest);
  }

  lemma EntryRegrouped(a: seq<byte>, b: seq<byte>, c: seq<byte>, d: seq<byte>, e: seq<byte>, f: seq<byte>, rest: seq<byte>)
    ensures a + b + c + d + e + f + rest == a + (b + (c + (d + (e + (f + rest)))))
  {
    Assoc(a + b + c + d + e, f, rest);
    Assoc(a + b + c + d, e, f + rest);
    Assoc(a + b + c, d, e + (f + rest));
    Assoc(a + b, c, d + (e + (f + rest)));
    Assoc(a, b, c + (d + (e + (f + rest))));
  }

  lemma EntryPieces(head: seq<byte>, name: seq<byte>, pad: seq<byte>, data: seq<byte>, rest: seq<byte>, d: nat)
    requires |head| == HEAD && d == HEAD + |name| + 1 + |pad|
    ensures var s := head + (name + ([0] + (pad + (data + rest))));
            && s[..HEAD] == head && Slice(s, HEAD, HEAD + |name|) == name && Slice(s, d, d + |data|) == data
  {
    var s := head + (name + ([0] + (pad + (data + rest))));
    assert s[HEAD..HEAD + |name|] == name;
    assert s[d..d + |data|] == data;
  }

  lemma HeadFields(vs: seq<nat>, s: seq<byte>, num: Number)
    requires ReadsHex(num)
    requires AllNarrow(vs) && |vs| == 13 && HEAD <= |s|
    requires |HexFields(vs)| == 104 && s[..HEAD] == MAGIC + HexFields(vs)
    ensures s[..6] == MAGIC && Field(s, FILESIZE, num) == Some(vs[FILESIZE]) && Field(s, NAMESIZE, num) == Some(vs[NAMESIZE])
  {
    HexFieldAt(vs, FILESIZE);
    HexFieldAt(vs, NAMESIZE);
    assert s[..6] == s[..HEAD][..6];
    HeadField(vs, s, FILESIZE);
    HeadField(vs, s, NAMESIZE);
  }

  lemma HeadField(vs: seq<nat>, s: seq<byte>, n: nat)
    requires HEAD <= |s| && |HexFields(vs)| == 104 && s[..HEAD] == MAGIC + HexFields(vs) && n < 13
    ensures s[6 + 8 * n..14 + 8 * n] == HexFields(vs)[8 * n..8 * n + 8]
  {
    assert s[6 + 8 * n..14 + 8 * n] == (MAGIC + HexFields(vs))[6 + 8 * n..14 + 8 * n];
  }

  // ------------------------------------------------------------------ archives

  /** The reader of one member, as a value: archives are about what it returns. */
  type Parser = seq<byte> -> Parsed

  ghost predicate Parses(parse: Parser, num: Number) {
    forall s {:trigger Parse(s, num)} :: parse(s) == Parse(s, num)
  }

  function Rest(s: seq<byte>, size: nat): seq<byte> { if 0 < size <= |s| then s[size..] else [] }

  function Join(a: seq<Member>, b: Option<seq<Member>>): Option<seq<Member>> {
    if b.None? then None else Some(a + b.value)
  }

  /** The members up to the trailer; none when a field cannot be read. */
  function Walk(s: seq<byte>, parse: Parser): Option<seq<Member>>
    decreases |s|
  {
    if s == [] then Some([])
    else
      match parse(s)
      case Stop => Some([])
      case Bad => None
      case Got(m, size) => if m.name == TRAILER then Some([]) else Join([m], Walk(Rest(s, size), parse))
  }

  /** `head` is exactly one member. */
  ghost predicate IsMember(head: seq<byte>, m: Member, parse: Parser) {
    head != [] && parse(head) == Got(m, |head|) && m.name != TRAILER
  }

  /** `s` is nothing but complete members, none of them a trailer. */
  ghost predicate Blocks(s: seq<byte>, parse: Parser)
    decreases |s|
  {
    s == [] ||
    match parse(s)
    case Got(m, size) => 0 < size <= |s| && IsMember(s[..size], m, parse) && Blocks(s[size..], parse)
    case _ => false
  }

  lemma MemberPrefix(head: seq<byte>, m: Member, rest: seq<byte>, parse: Parser, num: Number)
    requires Parses(parse, num) && parse(head) == Got(m, |head|)
    ensures parse(head + rest) == Got(m, |head|)
  {
    assert Parse(head, num) == Got(m, |head|);
    ParsePrefix(head, rest, num);
    assert head[..|head|] == head;
    assert parse(head + rest) == Parse(head + rest, num);
  }

  /** The bytes a complete member takes are exactly one member. */
  lemma FirstMember(s: seq<byte>, m: Member, size: nat, parse: Parser, num: Number)
    requires Parses(parse, num) && parse(s) == Got(m, size) && m.name != TRAILER && size <= |s|
    ensures 0 < size && IsMember(s[..size], m, parse)
  {
    assert Parse(s, num) == Got(m, size);
    ParsePrefix(s, [], num);
    assert s[..size] + [] == s[..size];
    assert parse(s[..size]) == Parse(s[..size], num);
  }

  lemma WalkMember(head: seq<byte>, m: Member, rest: seq<byte>, parse: Parser, num: Number)
    requires Parses(parse, num) && IsMember(head, m, parse)
    ensures Walk(head + rest, parse) == Join([m], Walk(rest, parse))
  {
    MemberPrefix(head, m, rest, parse, num);
    assert (head + rest)[|head|..] == rest;
  }

  lemma JoinAssoc(a: seq<Member>, b: seq<Member>, c: Option<seq<Member>>)
    ensures Join(a, Join(b, c)) == Join(a + b, c)
    ensures Join([], c) == c
  {
    if c.Some? {
      assert a + (b + c.value) == a + b + c.value;
      assert [] + c.value == c.value;
    }
  }

  /** Appending to whole members appends to what they list. */
  lemma {:induction false} WalkBlocks(s: seq<byte>, rest: seq<byte>, parse: Parser, num: Number)
    requires Parses(parse, num) && Blocks(s, parse)
    ensures Walk(s, parse).Some? && Walk(s + rest, parse) == Join(Walk(s, parse).value, Walk(rest, parse))
    decreases |s|
  {
    JoinAssoc([], [], Walk(rest, parse));
    if s == [] {
      assert s + rest == rest;
    } else {
      var Got(m, size) := parse(s);
      WalkBlocks(s[size..], rest, parse, num);
      assert s[..size] + s[size..] == s;
      MemberThenWalk(s[..size], s[size..], rest, m, parse, num);
    }
  }

  lemma MemberThenWalk(head: seq<byte>, tail: seq<byte>, rest: seq<byte>, m: Member, parse: Parser, num: Number)
    requires Parses(parse, num) && IsMember(head, m, parse)
    requires Walk(tail, parse).Some? && Walk(tail + rest, parse) == Join(Walk(tail, parse).value, Walk(rest, parse))
    ensures var s := head + tail; Walk(s, parse).Some? && Walk(s + rest, parse) == Join(Walk(s, parse).value, Walk(rest, parse))
  {
    WalkMember(head, m, tail, parse, num);
    WalkMember(head, m, tail + rest, parse, num);
    assert head + tail + rest == head + (tail + rest);
    JoinAssoc([m], Walk(tail, parse).value, Walk(rest, parse));
  }

  lemma WalkEntry(name: seq<byte>, data: seq<byte>, mode: nat, rest: seq<byte>, parse: Parser, num: Number)
    requires ReadsHex(num) && Parses(parse, num)
    requires |name| + 1 < U32 && |data| < U32 && mode < U32 && name != TRAILER
    ensures Walk(CpioEntry(name, data, mode) + rest, parse) == Join([EntryMember(name, data, mode)], Walk(rest, parse))
  {
    EntryIsMember(name, data, mode, parse, num);
    WalkMember(CpioEntry(name, data, mode), EntryMember(name, data, mode), rest, parse, num);
  }

  function EntryMember(name: seq<byte>, data: seq<byte>, mode: nat): Member {
    Member(EntryHead(name, data, mode), name, data)
  }

  lemma EntryIsMember(name: seq<byte>, data: seq<byte>, mode: nat, parse: Parser, num: Number)
    requires ReadsHex(num) && Parses(parse, num) && |name| + 1 < U32 && |data| < U32 && mode < U32
    ensures var e := CpioEntry(name, data, mode); e != [] && parse(e) == Got(EntryMember(name, data, mode), |e|)
  {
    var e := CpioEntry(name, data, mode);
    EntryParses(name, data, mode, [], num);
    assert e + [] == e;
    assert parse(e) == Parse(e, num);
  }

  lemma WalkTrailer(rest: seq<byte>, parse: Parser, num: Number)
    requires ReadsHex(num) && Parses(parse, num)
    ensures Walk(CpioEntry(TRAILER, [], 0) + rest, parse) == Some([])
  {
    EntryIsMember(TRAILER, [], 0, parse, num);
    MemberPrefix(CpioEntry(TRAILER, [], 0), EntryMember(TRAILER, [], 0), rest, parse, num);
  }
}
