/** patch-recovery-adb.py: a few members are appended to the recovery ramdisk, which is put back
    into the same pages. */
module RecoveryAdb {
  import opened Common
  import opened Bytes
  import opened Cpio
  import opened CpioFilter
  import opened RecoveryCpio
  import opened BootImage
  import Props

  datatype Outcome = NoMagic | Failed | TooManyPages | Saved(image: seq<byte>)

  const HEADER_READ := 44
  const PROPS := [Ascii("default.prop"), Ascii("prop.default")]
  const ADB_KEYS := Ascii("adb_keys")

  /** bytes.decode with replacement characters, and str.encode. */
  datatype Text = Text(decode: seq<byte> -> string, encode: string -> seq<byte>)

  ghost predicate Encodes(text: Text) {
    forall t: string :: text.decode(text.encode(t)) == t
  }

  /** What becomes of the bytes of a properties file. */
  type Fix = seq<byte> -> seq<byte>

  ghost predicate Fixes(fix: Fix, text: Text) {
    forall data {:trigger Props.FixText(text.decode(data))} :: fix(data) == text.encode(Props.FixText(text.decode(data)))
  }

  method FixFile(data: seq<byte>, text: Text, ghost fix: Fix) returns (r: seq<byte>)
    requires Fixes(fix, text)
    ensures r == fix(data)
  {
    var lines := Props.FixProps(Props.SplitLines(text.decode(data)));
    r := text.encode(Props.JoinLines(lines));
    assert Props.FixText(text.decode(data)) == Props.JoinLines(lines);
  }

  // ------------------------------------------------------------------ the overrides

  function Looked(cpio: seq<byte>, name: seq<byte>, fix: Fix, parse: Parser): Option<seq<Override>> {
    match First(cpio, name, parse)
    case Unreadable => None
    case Missing => Some([])
    case Found(data) => Some([Override(name, fix(data))])
  }

  function JoinOverrides(a: Option<seq<Override>>, b: Option<seq<Override>>): Option<seq<Override>> {
    if a.None? || b.None? then None else Some(a.value + b.value)
  }

  function KeyOverride(pub: Option<seq<byte>>): seq<Override> {
    if pub.None? then [] else [Override(ADB_KEYS, pub.value)]
  }

  function LookedAll(cpio: seq<byte>, names: seq<seq<byte>>, fix: Fix, parse: Parser): Option<seq<Override>> {
    if names == [] then Some([])
    else JoinOverrides(LookedAll(cpio, names[..|names| - 1], fix, parse), Looked(cpio, names[|names| - 1], fix, parse))
  }

  /** The members to append; none when the archive cannot be read that far. */
  function OverridesFor(cpio: seq<byte>, fix: Fix, pub: Option<seq<byte>>, parse: Parser): Option<seq<Override>> {
    JoinOverrides(LookedAll(cpio, PROPS, fix, parse), Some(KeyOverride(pub)))
  }

  /** The new members' bytes, built up one after the other. */
  method BuildAdd(cpio: seq<byte>, text: Text, ghost fix: Fix, pub: Option<seq<byte>>, num: Number, ghost parse: Parser) returns (add: Option<seq<byte>>)
    requires Parses(parse, num) && Fixes(fix, text)
    ensures var os := OverridesFor(cpio, fix, pub, parse);
            add == if os.None? then None else Some(Overrides(os.value) + CpioEntry(TRAILER, [], 0))
  {
    var props := AddProps(cpio, PROPS, text, fix, num, parse);
    if props.None? {
      return None;
    }
    var bytes := props.value;
    ghost var os := LookedAll(cpio, PROPS, fix, parse).value;
    if pub.Some? {
      bytes := bytes + CpioEntry(ADB_KEYS, pub.value, FILE_MODE);
    } else {
      assert os + [] == os;
    }
    add := Some(bytes + CpioEntry(TRAILER, [], 0));
  }

  method AddProps(cpio: seq<byte>, names: seq<seq<byte>>, text: Text, ghost fix: Fix, num: Number, ghost parse: Parser) returns (r: Option<seq<byte>>)
    requires Parses(parse, num) && Fixes(fix, text)
    ensures var os := LookedAll(cpio, names, fix, parse); r == if os.None? then None else Some(Overrides(os.value))
  {
    var bytes: seq<byte> := [];
    for i := 0 to |names|
      invariant LookedAll(cpio, names[..i], fix, parse).Some? && bytes == Overrides(LookedAll(cpio, names[..i], fix, parse).value)
    {
      ghost var os := LookedAll(cpio, names[..i], fix, parse).value;
      LookedStep(cpio, names, i, fix, parse);
      var found := FindMember(cpio, names[i], num, parse);
      if found.Unreadable? {
        LookedStops(cpio, names, i + 1, fix, parse);
        return None;
      }
      if found.Found? {
        var data := FixFile(found.data, text, fix);
        bytes := bytes + CpioEntry(names[i], data, FILE_MODE);
      } else {
        assert os + [] == os;
      }
    }
    assert names[..|names|] == names;
    r := Some(bytes);
  }

  lemma LookedStep(cpio: seq<byte>, names: seq<seq<byte>>, i: nat, fix: Fix, parse: Parser)
    requires i < |names|
    ensures LookedAll(cpio, names[..i + 1], fix, parse) == JoinOverrides(LookedAll(cpio, names[..i], fix, parse), Looked(cpio, names[i], fix, parse))
  {
    assert names[..i + 1][..i] == names[..i];
  }

  lemma {:induction false} LookedStops(cpio: seq<byte>, names: seq<seq<byte>>, n: nat, fix: Fix, parse: Parser)
    requires n <= |names| && LookedAll(cpio, names[..n], fix, parse).None?
    ensures LookedAll(cpio, names, fix, parse).None?
  {
    if n < |names| {
      assert names[..|names| - 1][..n] == names[..n];
      LookedStops(cpio, names[..|names| - 1], n, fix, parse);
    } else {
      assert names[..n] == names;
    }
  }

  // ------------------------------------------------------------------ the image

  /** The ramdisk section replaced in place, padded to its old pages. */
  function Replace(img: seq<byte>, ro: nat, was: nat, up: Rounding, rd: seq<byte>): Outcome {
    var declared := Max(|rd|, was);
    if up(|rd|) > up(was) then TooManyPages
    else
      var out := Slice(img, 0, ro) + RamdiskSection(rd, declared, up(was)) + Slice(img, ro + up(was), |img|);
      if |out| < F_RAMDISK + 4 || declared >= U32 then Failed else Saved(Put32(out, F_RAMDISK, declared))
  }

  /** New ramdisk, zeros to the declared size, zeros to the span. */
  function RamdiskSection(rd: seq<byte>, declared: nat, span: nat): seq<byte> {
    rd + Zeros(if declared > |rd| then declared - |rd| else 0) + Zeros(if span > declared then span - declared else 0)
  }

  /** The ramdisk the patcher makes of an old one. */
  function NewRamdisk(cpio: seq<byte>, fix: Fix, pub: Option<seq<byte>>, parse: Parser): Option<seq<byte>> {
    var os := OverridesFor(cpio, fix, pub, parse);
    if os.None? then None else Some(Patched(cpio, os.value))
  }

  /** That, as a value. */
  type Repacking = seq<byte> -> Option<seq<byte>>

  ghost predicate Repacks(repack: Repacking, fix: Fix, pub: Option<seq<byte>>, parse: Parser) {
    forall cpio {:trigger NewRamdisk(cpio, fix, pub, parse)} :: repack(cpio) == NewRamdisk(cpio, fix, pub, parse)
  }

  /** What the patcher does once the ramdisk is found and unpacked, or is not. */
  function RecoverAt(img: seq<byte>, ro: nat, rs: nat, cpio: Option<seq<byte>>, repack: Repacking, gz: Gzip, up: Rounding): Outcome {
    if cpio.None? then Failed else ReplaceWith(img, ro, rs, repack(cpio.value), gz, up)
  }

  function ReplaceWith(img: seq<byte>, ro: nat, rs: nat, archive: Option<seq<byte>>, gz: Gzip, up: Rounding): Outcome {
    if archive.None? then Failed else Replace(img, ro, rs, up, gz.compress(archive.value))
  }

  /** `r` is what becomes of the image, whose ramdisk lies at `ro` behind the header's and the
      kernel's pages. */
  ghost predicate Recovered(img: seq<byte>, r: Outcome, repack: Repacking, gz: Gzip, up: Rounding, ro: nat)
    requires ImageRead(img)
  {
    && Rounds(up) && RoundsTo(up, Get32(img, F_PAGE)) && ro == Get32(img, F_PAGE) + up(Get32(img, F_KERNEL))
    && r == RecoverAt(img, ro, Get32(img, F_RAMDISK), gz.decompress(Slice(img, ro, ro + Get32(img, F_RAMDISK))), repack, gz, up)
  }

  predicate ImageRead(img: seq<byte>) {
    HEADER_READ <= |img| && Get32(img, F_PAGE) > 0
  }

  method PatchRecovery(img: seq<byte>, text: Text, ghost fix: Fix, pub: Option<seq<byte>>, gz: Gzip, num: Number, ghost repack: Repacking, ghost parse: Parser)
    returns (r: Outcome, ghost up: Rounding, ghost ro: nat)
    requires Parses(parse, num) && Fixes(fix, text) && Repacks(repack, fix, pub, parse)
    ensures !HasMagic(img) ==> r == NoMagic
    ensures HasMagic(img) && !ImageRead(img) ==> r == Failed
    ensures HasMagic(img) && ImageRead(img) ==> Recovered(img, r, repack, gz, up, ro)
  {
    up, ro := n => n, 0;
    if !HasMagic(img) {
      return NoMagic, up, ro;
    }
    if !ImageRead(img) {
      return Failed, up, ro;
    }
    r, up, ro := PatchRead(img, text, fix, pub, gz, num, repack, parse);
  }

  /** Behind the header's two checks. */
  method PatchRead(img: seq<byte>, text: Text, ghost fix: Fix, pub: Option<seq<byte>>, gz: Gzip, num: Number, ghost repack: Repacking, ghost parse: Parser)
    returns (r: Outcome, ghost up: Rounding, ghost ro: nat)
    requires ImageRead(img) && Parses(parse, num) && Fixes(fix, text) && Repacks(repack, fix, pub, parse)
    ensures Recovered(img, r, repack, gz, up, ro)
  {
    var ks, rs, ps := Get32(img, F_KERNEL), Get32(img, F_RAMDISK), Get32(img, F_PAGE);
    var pages := Rounder(ps);
    var at := KernelEnd(ps, ks, pages);
    up, ro := pages, at;
    var cpio := gz.decompress(Slice(img, at, at + rs));
    r := ReplaceRamdisk(img, at, rs, cpio, text, fix, pub, gz, num, pages, repack, parse);
  }

  method KernelEnd(ps: nat, ks: nat, ghost up: Rounding) returns (ro: nat)
    requires RoundsTo(up, ps)
    ensures ro == ps + up(ks)
  {
    ro := PagesUp(ps + ks, ps);
    UpShift(ks, ps);
  }

  method ReplaceRamdisk(img: seq<byte>, ro: nat, rs: nat, cpio: Option<seq<byte>>, text: Text, ghost fix: Fix, pub: Option<seq<byte>>, gz: Gzip,
                        num: Number, up: Rounding, ghost repack: Repacking, ghost parse: Parser) returns (r: Outcome)
    requires Parses(parse, num) && Fixes(fix, text) && Rounds(up) && Repacks(repack, fix, pub, parse)
    ensures r == RecoverAt(img, ro, rs, cpio, repack, gz, up)
  {
    if cpio.None? {
      return Failed;
    }
    var archive := AppendOverrides(cpio.value, text, fix, pub, num, repack, parse);
    if archive.None? {
      return Failed;
    }
    r := Splice(img, ro, rs, gz.compress(archive.value), up);
  }

  method AppendOverrides(cpio: seq<byte>, text: Text, ghost fix: Fix, pub: Option<seq<byte>>, num: Number, ghost repack: Repacking,
                         ghost parse: Parser) returns (r: Option<seq<byte>>)
    requires Parses(parse, num) && Fixes(fix, text) && Repacks(repack, fix, pub, parse)
    ensures r == repack(cpio)
  {
    var add := BuildAdd(cpio, text, fix, pub, num, parse);
    assert repack(cpio) == NewRamdisk(cpio, fix, pub, parse);
    r := if add.None? then None else Some(StripTrailer(cpio) + add.value);
  }

  method Splice(img: seq<byte>, ro: nat, rs: nat, rd: seq<byte>, up: Rounding) returns (r: Outcome)
    requires Rounds(up)
    ensures r == Replace(img, ro, rs, up, rd)
  {
    if up(|rd|) > up(rs) {
      return TooManyPages;
    }
    SamePages(|rd|, rs, up);
    var declared := Max(|rd|, rs);
    var newRd := rd + Zeros(declared - |rd|);
    var out := Slice(img, 0, ro);
    out := out + newRd;
    out := out + Zeros(up(rs) - declared);
    var tailSrc := ro + up(rs);
    out := out + Slice(img, tailSrc, |img|);
    assert out == Slice(img, 0, ro) + RamdiskSection(rd, declared, up(rs)) + Slice(img, ro + up(rs), |img|);
    if |out| < F_RAMDISK + 4 || declared >= U32 {
      return Failed;
    }
    r := Saved(Put32(out, F_RAMDISK, declared));
  }

  // ------------------------------------------------------------------ main results

  /** A saved image differs from the old one in the ramdisk's pages and the ramdisk size only: what
      an absolute offset outside them points at stays there. */
  ghost predicate InPlace(img: seq<byte>, out: seq<byte>, ro: nat, span: nat) {
    |img| <= |out| &&
    forall i :: 0 <= i < |img| && !(F_RAMDISK <= i < F_RAMDISK + 4) && !(ro <= i < ro + span) ==> out[i] == img[i]
  }

  /** The image before the ramdisk size is written into it. */
  function WithSection(img: seq<byte>, ro: nat, mid: seq<byte>): seq<byte> {
    Slice(img, 0, ro) + mid + Slice(img, ro + |mid|, |img|)
  }

  lemma SavedWhat(img: seq<byte>, ro: nat, was: nat, up: Rounding, rd: seq<byte>) returns (mid: seq<byte>)
    requires Rounds(up) && Replace(img, ro, was, up, rd).Saved?
    ensures var declared := Max(|rd|, was); var s := WithSection(img, ro, mid);
            && |mid| == up(was) == up(declared) && rd + Zeros(declared - |rd|) <= mid
            && F_RAMDISK + 4 <= |s| && declared < U32 && Replace(img, ro, was, up, rd).image == Put32(s, F_RAMDISK, declared)
  {
    SamePages(|rd|, was, up);
    mid := RamdiskSection(rd, Max(|rd|, was), up(was));
  }

  /** The length is kept exactly when the ramdisk's pages lie inside the old image; the declared
      size leads to the same pages. */
  lemma RecoveryInPlace(img: seq<byte>, ro: nat, was: nat, up: Rounding, rd: seq<byte>)
    requires Rounds(up) && F_RAMDISK + 4 <= ro && Replace(img, ro, was, up, rd).Saved?
    ensures var out := Replace(img, ro, was, up, rd).image;
            && InPlace(img, out, ro, up(was))
            && (|out| == |img| <==> ro + up(was) <= |img| || up(was) == 0)
            && Get32(out, F_RAMDISK) == Max(|rd|, was) && up(Max(|rd|, was)) == up(was)
  {
    var mid := SavedWhat(img, ro, was, up, rd);
    var s := WithSection(img, ro, mid);
    Spliced(img, ro, mid, s);
    Put32Get(s, F_RAMDISK, Max(|rd|, was));
  }

  /** The new ramdisk lies where the old one did. */
  lemma RamdiskThere(img: seq<byte>, ro: nat, was: nat, up: Rounding, rd: seq<byte>)
    requires Rounds(up) && F_RAMDISK + 4 <= ro <= |img| && Replace(img, ro, was, up, rd).Saved?
    ensures var out, declared := Replace(img, ro, was, up, rd).image, Max(|rd|, was);
            && F_RAMDISK + 4 <= |out| && Get32(out, F_RAMDISK) == declared
            && Slice(out, ro, ro + declared) == rd + Zeros(declared - |rd|)
  {
    var mid := SavedWhat(img, ro, was, up, rd);
    var s, declared := WithSection(img, ro, mid), Max(|rd|, was);
    Spliced(img, ro, mid, s);
    SectionIn(s, ro, mid, rd + Zeros(declared - |rd|), declared);
  }

  /** Behind it, up to the end of its pages, there are zeros. */
  lemma SpanZeroed(img: seq<byte>, ro: nat, was: nat, up: Rounding, rd: seq<byte>, k: nat)
    requires Rounds(up) && F_RAMDISK + 4 <= ro <= |img| && Replace(img, ro, was, up, rd).Saved?
    requires ro + Max(|rd|, was) <= k < ro + up(was)
    ensures var out := Replace(img, ro, was, up, rd).image; k < |out| && out[k] == 0
  {
    var declared := Max(|rd|, was);
    var mid := RamdiskSection(rd, declared, up(was));
    SamePages(|rd|, was, up);
    assert k - ro < |mid| && mid[k - ro] == 0;
    var s := Slice(img, 0, ro) + mid + Slice(img, ro + up(was), |img|);
    assert s[k] == mid[k - ro];
    PutElsewhere(s, F_RAMDISK, ToLe(declared, 4), k, k + 1);
    assert Put32(s, F_RAMDISK, declared)[k..k + 1][0] == s[k..k + 1][0];
  }

  lemma SectionIn(s: seq<byte>, ro: nat, mid: seq<byte>, x: seq<byte>, declared: nat)
    requires F_RAMDISK + 4 <= ro && ro + |mid| <= |s| && s[ro..ro + |mid|] == mid && x <= mid && declared == |x| < U32
    ensures var out := Put32(s, F_RAMDISK, declared); Get32(out, F_RAMDISK) == declared && Slice(out, ro, ro + declared) == x
  {
    Put32Get(s, F_RAMDISK, declared);
    PutElsewhere(s, F_RAMDISK, ToLe(declared, 4), ro, ro + declared);
    SubSlice(s, ro, |mid|, 0, declared);
  }

  lemma Spliced(img: seq<byte>, ro: nat, mid: seq<byte>, s: seq<byte>)
    requires s == WithSection(img, ro, mid)
    ensures |img| <= |s| && (|s| == |img| <==> ro + |mid| <= |img| || |mid| == 0)
    ensures forall i :: 0 <= i < |img| && !(ro <= i < ro + |mid|) ==> s[i] == img[i]
    ensures ro <= |img| ==> ro + |mid| <= |s| && s[ro..ro + |mid|] == mid
  {
    if ro <= |img| {
      assert Slice(img, 0, ro) == img[..ro];
    } else {
      assert Slice(img, 0, ro) == img && Slice(img, ro + |mid|, |img|) == [];
    }
  }

  /** Each at most once, and no other names. */
  ghost predicate OnlyThose(os: seq<Override>) {
    && DistinctNames(os)
    && forall i :: 0 <= i < |os| ==> os[i].name in {PROPS[0], PROPS[1], ADB_KEYS} && |os[i].name| < 20 && os[i].name != TRAILER
  }

  ghost predicate AllWritable(os: seq<Override>) {
    forall i :: 0 <= i < |os| ==> Writable(os[i])
  }

  lemma LookedAre(cpio: seq<byte>, fix: Fix, pub: Option<seq<byte>>, parse: Parser, os: seq<Override>)
    requires OverridesFor(cpio, fix, pub, parse) == Some(os)
    ensures OnlyThose(os)
  {
    NamesDiffer();
    assert PROPS[..1] == [PROPS[0]] && PROPS[..1][..0] == [] && PROPS[..2] == PROPS;
    LookedStep(cpio, PROPS, 0, fix, parse);
    LookedStep(cpio, PROPS, 1, fix, parse);
    var a, b := Looked(cpio, PROPS[0], fix, parse).value, Looked(cpio, PROPS[1], fix, parse).value;
    assert os == a + b + KeyOverride(pub);
  }

  lemma NamesDiffer()
    ensures PROPS[0] != PROPS[1] && PROPS[0] != ADB_KEYS && PROPS[1] != ADB_KEYS
    ensures |PROPS[0]| == 12 && |PROPS[1]| == 12 && |ADB_KEYS| == 8
  {
    assert PROPS[0][0] == 100 && PROPS[1][0] == 112;
  }

  /** The ramdisk of `img` at `ro` unpacks to `archive`. */
  ghost predicate Opens(img: seq<byte>, ro: nat, gz: Gzip, archive: seq<byte>) {
    F_RAMDISK + 4 <= |img| && gz.decompress(Slice(img, ro, ro + Get32(img, F_RAMDISK))) == Some(archive)
  }

  /** For a ramdisk of whole members and a trailer that is cut off exactly, the saved image's
      ramdisk lists the old members and then the overrides, which are default.prop, prop.default
      and adb_keys at most. By `OverridesWin`, an unpacker that lets later members win then finds
      the old files, except those three with their new contents. */
  lemma RecoveryOverrides(img: seq<byte>, fix: Fix, pub: Option<seq<byte>>, gz: Gzip, parse: Parser, num: Number, up: Rounding, repack: Repacking,
                          body: seq<byte>, t: seq<byte>, ro: nat, os: seq<Override>)
    requires HEADER_READ <= |img| && F_RAMDISK + 4 <= ro <= |img|
    requires RecoverAt(img, ro, Get32(img, F_RAMDISK), Some(body + t), repack, gz, up).Saved? && Rounds(up) && Repacks(repack, fix, pub, parse)
    requires ReadsHex(num) && Parses(parse, num) && Inverse(gz)
    requires Blocks(body, parse) && TrailerRecord(t) && forall k :: 1 <= k <= HEAD - 6 ==> !OccursAt(t, MAGIC, k)
    requires OverridesFor(body + t, fix, pub, parse) == Some(os) && AllWritable(os)
    ensures var archive := Patched(body + t, os);
            && Opens(RecoverAt(img, ro, Get32(img, F_RAMDISK), Some(body + t), repack, gz, up).image, ro, gz, archive)
            && Walk(body, parse).Some? && Walk(archive, parse) == Some(Walk(body, parse).value + OverrideMembers(os))
    ensures OnlyThose(os)
  {
    LookedAre(body + t, fix, pub, parse, os);
    PatchedReads(body, t, os, parse, num);
    RepackIs(body + t, fix, pub, parse, repack, os);
    RecoveredOpens(img, ro, Get32(img, F_RAMDISK), body + t, repack, up, gz, Patched(body + t, os));
  }

  lemma RepackIs(cpio: seq<byte>, fix: Fix, pub: Option<seq<byte>>, parse: Parser, repack: Repacking, os: seq<Override>)
    requires Repacks(repack, fix, pub, parse) && OverridesFor(cpio, fix, pub, parse) == Some(os)
    ensures repack(cpio) == Some(Patched(cpio, os))
  {
    assert repack(cpio) == NewRamdisk(cpio, fix, pub, parse);
  }

  lemma RecoveredOpens(img: seq<byte>, ro: nat, was: nat, cpio: seq<byte>, repack: Repacking, up: Rounding, gz: Gzip, archive: seq<byte>)
    requires Rounds(up) && F_RAMDISK + 4 <= ro <= |img| && Inverse(gz) && repack(cpio) == Some(archive)
    requires RecoverAt(img, ro, was, Some(cpio), repack, gz, up).Saved?
    ensures Opens(RecoverAt(img, ro, was, Some(cpio), repack, gz, up).image, ro, gz, archive)
  {
    Reopened(img, ro, was, up, gz, archive);
  }

  lemma Reopened(img: seq<byte>, ro: nat, was: nat, up: Rounding, gz: Gzip, archive: seq<byte>)
    requires Rounds(up) && F_RAMDISK + 4 <= ro <= |img| && Inverse(gz)
    requires Replace(img, ro, was, up, gz.compress(archive)).Saved?
    ensures Opens(Replace(img, ro, was, up, gz.compress(archive)).image, ro, gz, archive)
  {
    var rd := gz.compress(archive);
    RamdiskThere(img, ro, was, up, rd);
    assert gz.decompress(gz.compress(archive) + Zeros(Max(|rd|, was) - |rd|)) == Some(archive);
  }

  // ------------------------------------------------------------------ what adbd finds

  /** A properties file that the archive has is overridden, by its first copy fixed. */
  ghost predicate Overridden(cpio: seq<byte>, fix: Fix, parse: Parser, os: seq<Override>, name: seq<byte>) {
    var first := First(cpio, name, parse);
    && (first.Found? ==> exists i :: 0 <= i < |os| && os[i].name == name)
    && forall i :: 0 <= i < |os| && os[i].name == name ==> first.Found? && os[i].data == fix(first.data)
  }

  lemma LookedWhat(cpio: seq<byte>, fix: Fix, pub: Option<seq<byte>>, parse: Parser, os: seq<Override>, name: seq<byte>)
    requires OverridesFor(cpio, fix, pub, parse) == Some(os) && (name == PROPS[0] || name == PROPS[1])
    ensures Overridden(cpio, fix, parse, os, name)
  {
    NamesDiffer();
    assert PROPS[..1] == [PROPS[0]] && PROPS[..1][..0] == [] && PROPS[..2] == PROPS;
    LookedStep(cpio, PROPS, 0, fix, parse);
    LookedStep(cpio, PROPS, 1, fix, parse);
    var a, b, c := Looked(cpio, PROPS[0], fix, parse).value, Looked(cpio, PROPS[1], fix, parse).value, KeyOverride(pub);
    assert os == a + b + c;
    if name == PROPS[0] {
      OverriddenBy(cpio, fix, parse, [], a, b + c, name);
      assert [] + a + (b + c) == os;
    } else {
      OverriddenBy(cpio, fix, parse, a, b, c, name);
    }
  }

  lemma OverriddenBy(cpio: seq<byte>, fix: Fix, parse: Parser, before: seq<Override>, a: seq<Override>, after: seq<Override>, name: seq<byte>)
    requires Looked(cpio, name, fix, parse) == Some(a)
    requires forall i :: 0 <= i < |before| ==> before[i].name != name
    requires forall i :: 0 <= i < |after| ==> after[i].name != name
    ensures Overridden(cpio, fix, parse, before + a + after, name)
  {
    if a != [] {
      assert (before + a + after)[|before|].name == name;
    }
  }

  /** What an unpacker that lets later members win finds under the name of a properties file. */
  ghost predicate OpenOrAbsent(ms: seq<Member>, text: Text, name: seq<byte>) {
    name in Unpacked(ms) ==> Props.OpensAdb(text.decode(Unpacked(ms)[name].data))
  }

  lemma FixedOpens(data: seq<byte>, fix: Fix, text: Text)
    requires Fixes(fix, text) && Encodes(text)
    ensures Props.OpensAdb(text.decode(fix(data)))
  {
    Props.FixedText(text.decode(data));
    assert fix(data) == text.encode(Props.FixText(text.decode(data)));
  }

  lemma OverriddenOpens(cpio: seq<byte>, ms: seq<Member>, os: seq<Override>, fix: Fix, text: Text, parse: Parser, name: seq<byte>)
    requires Walk(cpio, parse) == Some(ms) && name != TRAILER && DistinctNames(os)
    requires Fixes(fix, text) && Encodes(text) && Overridden(cpio, fix, parse, os, name)
    ensures OpenOrAbsent(ms + OverrideMembers(os), text, name)
  {
    FirstOfWalk(cpio, name, parse);
    UnpackedNames(ms, name);
    OverridesWin(ms, os, name);
    if i :| 0 <= i < |os| && os[i].name == name {
      FixedOpens(First(cpio, name, parse).data, fix, text);
    }
  }

  /** What the tool is for.  After the saved ramdisk is unpacked, later members winning, each of
      the two properties files is either absent, as it was before, or has ro.adb.secure 0 and
      ro.debuggable 1, and no other setting of either or of ro.secure than 0. */
  lemma AdbOpened(body: seq<byte>, t: seq<byte>, fix: Fix, text: Text, pub: Option<seq<byte>>, parse: Parser, num: Number,
                  os: seq<Override>, name: seq<byte>)
    requires ReadsHex(num) && Parses(parse, num) && Blocks(body, parse) && Walk(t, parse) == Some([])
    requires TrailerRecord(t) && forall k :: 1 <= k <= HEAD - 6 ==> !OccursAt(t, MAGIC, k)
    requires Fixes(fix, text) && Encodes(text)
    requires OverridesFor(body + t, fix, pub, parse) == Some(os) && AllWritable(os)
    requires name == PROPS[0] || name == PROPS[1]
    ensures Walk(Patched(body + t, os), parse).Some?
    ensures var after := Walk(Patched(body + t, os), parse).value;
            && OpenOrAbsent(after, text, name)
            && (name in Unpacked(after) <==> First(body + t, name, parse).Found?)
  {
    PatchedReads(body, t, os, parse, num);
    WalkBlocks(body, t, parse, num);
    var ms := Walk(body, parse).value;
    assert ms + [] == ms;
    LookedAre(body + t, fix, pub, parse, os);
    LookedWhat(body + t, fix, pub, parse, os, name);
    TrailerIsNot(name);
    OverriddenOpens(body + t, ms, os, fix, text, parse, name);
    FoundIffUnpacked(body + t, ms, os, fix, parse, name);
  }

  lemma TrailerIsNot(name: seq<byte>)
    requires name == PROPS[0] || name == PROPS[1]
    ensures name != TRAILER
  {
    NamesDiffer();
  }

  lemma FoundIffUnpacked(cpio: seq<byte>, ms: seq<Member>, os: seq<Override>, fix: Fix, parse: Parser, name: seq<byte>)
    requires Walk(cpio, parse) == Some(ms) && name != TRAILER && DistinctNames(os) && Overridden(cpio, fix, parse, os, name)
    ensures name in Unpacked(ms + OverrideMembers(os)) <==> First(cpio, name, parse).Found?
  {
    FirstOfWalk(cpio, name, parse);
    UnpackedNames(ms, name);
    OverridesWin(ms, os, name);
  }

  /** The key of the host, if it was given, is the override of adb_keys; otherwise there is none. */
  lemma KeyOverridden(cpio: seq<byte>, fix: Fix, pub: Option<seq<byte>>, parse: Parser, os: seq<Override>)
    requires OverridesFor(cpio, fix, pub, parse) == Some(os)
    ensures pub.Some? ==> exists i :: 0 <= i < |os| && os[i].name == ADB_KEYS && os[i].data == pub.value
    ensures pub.None? ==> forall i :: 0 <= i < |os| ==> os[i].name != ADB_KEYS
  {
    NamesDiffer();
    assert PROPS[..1] == [PROPS[0]] && PROPS[..1][..0] == [] && PROPS[..2] == PROPS;
    LookedStep(cpio, PROPS, 0, fix, parse);
    LookedStep(cpio, PROPS, 1, fix, parse);
    var a, b := Looked(cpio, PROPS[0], fix, parse).value, Looked(cpio, PROPS[1], fix, parse).value;
    assert os == a + b + KeyOverride(pub);
    if pub.Some? {
      assert os[|a + b|] == Override(ADB_KEYS, pub.value);
    }
  }

  /** After the saved ramdisk is unpacked adb_keys holds the key, if one was given, and otherwise what it
      held before. */
  lemma KeyInstalled(body: seq<byte>, t: seq<byte>, fix: Fix, pub: Option<seq<byte>>, parse: Parser, num: Number, os: seq<Override>)
    requires ReadsHex(num) && Parses(parse, num) && Blocks(body, parse)
    requires TrailerRecord(t) && forall k :: 1 <= k <= HEAD - 6 ==> !OccursAt(t, MAGIC, k)
    requires OverridesFor(body + t, fix, pub, parse) == Some(os) && AllWritable(os)
    ensures Walk(body, parse).Some? && Walk(Patched(body + t, os), parse).Some?
    ensures var before, after := Unpacked(Walk(body, parse).value), Unpacked(Walk(Patched(body + t, os), parse).value);
            if pub.Some? then ADB_KEYS in after && after[ADB_KEYS].data == pub.value
            else (ADB_KEYS in after <==> ADB_KEYS in before) && (ADB_KEYS in after ==> after[ADB_KEYS] == before[ADB_KEYS])
  {
    PatchedReads(body, t, os, parse, num);
    LookedAre(body + t, fix, pub, parse, os);
    KeyOverridden(body + t, fix, pub, parse, os);
    OverridesWin(Walk(body, parse).value, os, ADB_KEYS);
  }

  // ------------------------------------------------------------------ which images are saved

  /** The archive can be searched for both properties files. */
  predicate Searchable(cpio: seq<byte>, parse: Parser) {
    !First(cpio, PROPS[0], parse).Unreadable? && !First(cpio, PROPS[1], parse).Unreadable?
  }

  lemma RepackedIff(cpio: seq<byte>, fix: Fix, pub: Option<seq<byte>>, parse: Parser)
    ensures NewRamdisk(cpio, fix, pub, parse).Some? <==> Searchable(cpio, parse)
  {
    assert PROPS[..1] == [PROPS[0]] && PROPS[..1][..0] == [] && PROPS[..2] == PROPS;
    LookedStep(cpio, PROPS, 0, fix, parse);
    LookedStep(cpio, PROPS, 1, fix, parse);
  }

  lemma ReplacedExactly(img: seq<byte>, ro: nat, was: nat, up: Rounding, rd: seq<byte>)
    requires Rounds(up) && 44 <= |img| && was < U32
    ensures var r := Replace(img, ro, was, up, rd);
            && (r == TooManyPages <==> up(|rd|) > up(was))
            && (r == Failed <==> up(|rd|) <= up(was) && |rd| >= U32)
            && (r.Saved? <==> up(|rd|) <= up(was) && |rd| < U32)
  {
    if up(|rd|) <= up(was) {
      SamePages(|rd|, was, up);
      LongEnough(img, ro, RamdiskSection(rd, Max(|rd|, was), up(was)), up(was));
    }
  }

  lemma LongEnough(img: seq<byte>, ro: nat, mid: seq<byte>, span: nat)
    requires |mid| == span
    ensures |img| <= |Slice(img, 0, ro) + mid + Slice(img, ro + span, |img|)|
  {
  }

  /** An image whose header can be read is saved exactly if its ramdisk unpacks to an archive that can be
      searched and the compressed new one rounds up to no more pages than the old, below 4 GiB. */
  lemma SavedExactly(img: seq<byte>, r: Outcome, fix: Fix, pub: Option<seq<byte>>, gz: Gzip, parse: Parser, repack: Repacking, up: Rounding, ro: nat)
    requires ImageRead(img) && Recovered(img, r, repack, gz, up, ro) && Repacks(repack, fix, pub, parse)
    ensures var was := Get32(img, 16); var cpio := gz.decompress(Slice(img, ro, ro + was));
            if cpio.None? || !Searchable(cpio.value, parse) then r == Failed
            else
              repack(cpio.value).Some? &&
              var rd := |gz.compress(repack(cpio.value).value)|;
              && (r == TooManyPages <==> up(rd) > up(was))
              && (r == Failed <==> up(rd) <= up(was) && rd >= 0x1_0000_0000)
              && (r.Saved? <==> up(rd) <= up(was) && rd < 0x1_0000_0000)
  {
    var was := Get32(img, 16);
    var cpio := gz.decompress(Slice(img, ro, ro + was));
    GetRange(img, 16);
    if cpio.Some? {
      assert repack(cpio.value) == NewRamdisk(cpio.value, fix, pub, parse);
      RepackedIff(cpio.value, fix, pub, parse);
      if repack(cpio.value).Some? {
        ReplacedExactly(img, ro, was, up, gz.compress(repack(cpio.value).value));
      }
    }
  }
}
