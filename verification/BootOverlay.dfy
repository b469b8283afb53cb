/** patch-boot-overlayrc.py: one file is added to the boot ramdisk and the image is put together
    again around it, with every later section where it was. */
module BootOverlay {
  import opened Common
  import opened Bytes
  import opened Cpio
  import opened CpioFilter
  import opened BootImage

  datatype Result = NotAndroid | Crashed | HasRecoveryDtbo | RamdiskGrows | EndMoved | SizeChanged | Wrote(image: seq<byte>)

  const BOOTLOG := Ascii("overlay.d/bootlog.rc")
  const DROP := {Ascii("avb/q-gsi.avbpubkey"), Ascii("avb/r-gsi.avbpubkey"), Ascii("avb/s-gsi.avbpubkey")}
  const RC_MODE := 0x81E8 // 0o100750

  // ------------------------------------------------------------------ reassembly

  /** A section's bytes and the zeros up to its page end. */
  function Sec(b: seq<byte>, up: Rounding): seq<byte> {
    if up(|b|) >= |b| then b + Zeros(up(|b|) - |b|) else b
  }

  function Concat4(b: seq<seq<byte>>, up: Rounding): seq<byte> {
    if b == [] then [] else Concat4(b[..|b| - 1], up) + Sec(b[|b| - 1], up)
  }

  /** Kernel, new ramdisk, second stage and device tree. */
  function Parts(img: seq<byte>, z: Sizes, o: Offsets, rd: seq<byte>): seq<seq<byte>> {
    [Slice(img, o.kernel, o.kernel + z.kernel), rd + Zeros(Max(|rd|, z.ramdisk) - |rd|),
     Slice(img, o.second, o.second + z.second), Slice(img, o.dtb, o.dtb + z.dtb)]
  }

  function WithTail(img: seq<byte>, sections: seq<byte>, declared: nat, end: nat): Result {
    if |sections| < F_RAMDISK + 4 || declared >= U32 then Crashed
    else if |sections| != end then EndMoved
    else
      var out := Put32(sections, F_RAMDISK, declared) + Slice(img, end, |img|);
      if |out| != |img| then SizeChanged else Wrote(out)
  }

  function Sections(img: seq<byte>, z: Sizes, up: Rounding, rd: seq<byte>): seq<byte> {
    Slice(img, 0, z.page) + Concat4(Parts(img, z, Locate(z, up), rd), up)
  }

  function Rebuild(img: seq<byte>, z: Sizes, up: Rounding, rd: seq<byte>): Result {
    if up(|rd|) > up(z.ramdisk) then RamdiskGrows
    else WithTail(img, Sections(img, z, up, rd), Max(|rd|, z.ramdisk), Locate(z, up).end)
  }

  method Reassemble(img: seq<byte>, z: Sizes, rd: seq<byte>, up: Rounding) returns (r: Result)
    requires Rounds(up)
    ensures r == Rebuild(img, z, up, rd)
  {
    if up(|rd|) > up(z.ramdisk) {
      return RamdiskGrows;
    }
    var parts, origEnd := CutSections(img, z, rd, up);
    var out := AppendSections(Slice(img, 0, z.page), parts, up);
    r := Finish(img, out, Max(|rd|, z.ramdisk), origEnd);
  }

  /** The offsets, and the sections cut out at them. */
  method CutSections(img: seq<byte>, z: Sizes, rd: seq<byte>, up: Rounding) returns (parts: seq<seq<byte>>, origEnd: nat)
    ensures parts == Parts(img, z, Locate(z, up), rd) && origEnd == Locate(z, up).end
  {
    var newRd := rd + Zeros(Max(|rd|, z.ramdisk) - |rd|);
    var kOff := z.page;
    var rOff := kOff + up(z.kernel);
    var sOff := rOff + up(z.ramdisk);
    var dOff := sOff + up(z.second);
    origEnd := dOff + up(z.dtb);
    parts := [Slice(img, kOff, kOff + z.kernel), newRd, Slice(img, sOff, sOff + z.second), Slice(img, dOff, dOff + z.dtb)];
  }

  /** The header field, the two size checks and the tail. */
  method Finish(img: seq<byte>, sections: seq<byte>, declared: nat, end: nat) returns (r: Result)
    ensures r == WithTail(img, sections, declared, end)
  {
    if |sections| < F_RAMDISK + 4 || declared >= U32 {
      return Crashed;
    }
    var out := Put32(sections, F_RAMDISK, declared);
    if |out| != end {
      return EndMoved;
    }
    out := out + Slice(img, end, |img|);
    if |out| != |img| {
      return SizeChanged;
    }
    r := Wrote(out);
  }

  method AppendSections(page: seq<byte>, parts: seq<seq<byte>>, up: Rounding) returns (out: seq<byte>)
    requires Rounds(up)
    ensures out == page + Concat4(parts, up)
  {
    out := page;
    for i := 0 to |parts|
      invariant out == page + Concat4(parts[..i], up)
    {
      var blob := parts[i];
      assert parts[..i + 1][..i] == parts[..i];
      out := out + (blob + Zeros(up(|blob|) - |blob|));
    }
    assert parts[..|parts|] == parts;
  }

  // ------------------------------------------------------------------ the program

  /** The ramdisk the patcher makes of an old one. */
  function NewArchive(cpio: seq<byte>, rc: seq<byte>, parse: Parser): Option<seq<byte>> {
    var kept := Kept(cpio, DROP, parse);
    if kept.None? then None else Some(Extended(kept.value, BOOTLOG, rc, RC_MODE))
  }

  /** What the patcher does once the ramdisk is found and unpacked, or is not. */
  function OverlayAt(img: seq<byte>, z: Sizes, cpio: Option<seq<byte>>, rc: seq<byte>, gz: Gzip, parse: Parser, up: Rounding): Result
    requires FIELDS_END <= |img|
  {
    if cpio.None? then Crashed else OverlayWith(img, z, NewArchive(cpio.value, rc, parse), gz, up)
  }

  function OverlayWith(img: seq<byte>, z: Sizes, archive: Option<seq<byte>>, gz: Gzip, up: Rounding): Result
    requires FIELDS_END <= |img|
  {
    if archive.None? then Crashed
    else if Get32(img, F_RECOVERY_DTBO) != 0 then HasRecoveryDtbo
    else Rebuild(img, z, up, gz.compress(archive.value))
  }

  /** The image is long enough to have its header read, and its page size is not zero. */
  predicate HeaderRead(img: seq<byte>) {
    FIELDS_END <= |img| && Get32(img, F_PAGE) > 0
  }

  /** The compressed new ramdisk. */
  function NewRamdisk(cpio: seq<byte>, rc: seq<byte>, gz: Gzip, parse: Parser): seq<byte> {
    var archive := NewArchive(cpio, rc, parse);
    if archive.Some? then gz.compress(archive.value) else []
  }

  /** How many of the bytes off..off+n the image has. */
  function Have(img: seq<byte>, off: nat, n: nat): nat {
    Min(n, Max(0, |img| - off))
  }

  /** How many bytes the sections take, cut short where the image ends. */
  function LengthHad(img: seq<byte>, z: Sizes, up: Rounding): nat {
    var so := z.page + up(z.kernel) + up(z.ramdisk);
    Have(img, 0, z.page) + up(Have(img, z.page, z.kernel)) + up(z.ramdisk) + up(Have(img, so, z.second)) + up(Have(img, so + up(z.second), z.dtb))
  }

  /** The answer once there is a new ramdisk of `rd` bytes: whether it fits its pages, whether the image,
      which has `have` bytes, reaches the end of the last section, and which check fails if not. */
  ghost predicate Fitted(grows: bool, rd: nat, have: nat, len: nat, end: nat, r: Result) {
    if grows then r == RamdiskGrows
    else if end <= have then (if end < 20 || rd >= 0x1_0000_0000 then r == Crashed else r.Wrote?)
    else r == if len < 20 || rd >= 0x1_0000_0000 then Crashed else if len != end then EndMoved else SizeChanged
  }

  /** The answer to an image with sizes `z` whose ramdisk is readable or not and is made one of `rd`
      bytes: which refusal, or that it is written. */
  ghost predicate AnswersFor(img: seq<byte>, z: Sizes, up: Rounding, readable: bool, rd: nat, r: Result)
    requires HeaderRead(img)
  {
    if !readable then r == Crashed
    else if img[1632..1636] != [0, 0, 0, 0] then r == HasRecoveryDtbo
    else Fitted(up(rd) > up(z.ramdisk), rd, |img|, LengthHad(img, z, up), z.page + up(z.kernel) + up(z.ramdisk) + up(z.second) + up(z.dtb), r)
  }

  /** The answer to an image, by its header's fields and its ramdisk. */
  ghost predicate Answers(img: seq<byte>, rc: seq<byte>, gz: Gzip, parse: Parser, up: Rounding, r: Result)
    requires HeaderRead(img)
  {
    var z := Sizes(Get32(img, 36), Get32(img, 8), Get32(img, 16), Get32(img, 24), Get32(img, 1648));
    var ro := z.page + up(z.kernel);
    AnswersCpio(img, z, gz.decompress(Slice(img, ro, ro + z.ramdisk)), rc, gz, parse, up, r)
  }

  ghost predicate AnswersCpio(img: seq<byte>, z: Sizes, cpio: Option<seq<byte>>, rc: seq<byte>, gz: Gzip, parse: Parser, up: Rounding, r: Result)
    requires HeaderRead(img)
  {
    AnswersFor(img, z, up, cpio.Some? && Walk(cpio.value, parse).Some?, if cpio.Some? then |NewRamdisk(cpio.value, rc, gz, parse)| else 0, r)
  }

  /** `r` is what becomes of an image whose header can be read; its ramdisk lies at `ro`. */
  ghost predicate Overlaid(img: seq<byte>, rc: seq<byte>, gz: Gzip, parse: Parser, up: Rounding, ro: nat, r: Result)
    requires HeaderRead(img)
  {
    && Rounds(up) && RoundsTo(up, Get32(img, F_PAGE)) && ro == Locate(ReadSizes(img), up).ramdisk
    && r == OverlayAt(img, ReadSizes(img), gz.decompress(Slice(img, ro, ro + Get32(img, F_RAMDISK))), rc, gz, parse, up)
    && Answers(img, rc, gz, parse, up, r)
  }

  method PatchBoot(img: seq<byte>, rc: seq<byte>, gz: Gzip, num: Number, ghost parse: Parser)
    returns (r: Result, ghost up: Rounding, ghost ro: nat)
    requires Parses(parse, num)
    ensures !HasMagic(img) ==> r == NotAndroid
    ensures HasMagic(img) && !HeaderRead(img) ==> r == Crashed
    ensures HasMagic(img) && HeaderRead(img) ==> Overlaid(img, rc, gz, parse, up, ro, r)
  {
    up, ro := n => n, 0;
    if !HasMagic(img) {
      return NotAndroid, up, ro;
    }
    if !HeaderRead(img) {
      return Crashed, up, ro;
    }
    r, up, ro := PatchRead(img, rc, gz, num, parse);
  }

  /** Behind the header's two checks. */
  method PatchRead(img: seq<byte>, rc: seq<byte>, gz: Gzip, num: Number, ghost parse: Parser)
    returns (r: Result, ghost up: Rounding, ghost ro: nat)
    requires HeaderRead(img) && Parses(parse, num)
    ensures Overlaid(img, rc, gz, parse, up, ro, r)
  {
    var z, pages := ReadSizes(img), Rounder(Get32(img, F_PAGE));
    var at := RamdiskOffset(z, pages);
    up, ro := pages, at;
    var cpio := gz.decompress(Slice(img, at, at + Get32(img, F_RAMDISK)));
    r := PatchRamdisk(img, rc, gz, num, z, cpio, pages, parse);
    CpioAnswers(img, z, cpio, rc, gz, parse, pages);
    AnswersFrom(img, z, cpio, rc, gz, parse, pages, r);
  }

  method RamdiskOffset(z: Sizes, ghost up: Rounding) returns (ro: nat)
    requires RoundsTo(up, z.page)
    ensures ro == Locate(z, up).ramdisk
  {
    ro := PagesUp(z.page + z.kernel, z.page);
    UpShift(z.kernel, z.page);
  }

  method PatchRamdisk(img: seq<byte>, rc: seq<byte>, gz: Gzip, num: Number, z: Sizes, cpio: Option<seq<byte>>, up: Rounding, ghost parse: Parser)
    returns (r: Result)
    requires Parses(parse, num) && Rounds(up) && FIELDS_END <= |img|
    ensures r == OverlayAt(img, z, cpio, rc, gz, parse, up)
  {
    if cpio.None? {
      return Crashed;
    }
    var archive := BuildArchive(cpio.value, rc, num, parse);
    if archive.None? {
      return Crashed;
    }
    if Get32(img, F_RECOVERY_DTBO) != 0 {
      return HasRecoveryDtbo;
    }
    r := Reassemble(img, z, gz.compress(archive.value), up);
  }

  method BuildArchive(cpio: seq<byte>, rc: seq<byte>, num: Number, ghost parse: Parser) returns (r: Option<seq<byte>>)
    requires Parses(parse, num)
    ensures r == NewArchive(cpio, rc, parse)
  {
    var kept := KeepMembers(cpio, DROP, num, parse);
    r := if kept.None? then None else Some(Extended(kept.value, BOOTLOG, rc, RC_MODE));
  }

  // ------------------------------------------------------------------ which images are written

  lemma SliceHas(img: seq<byte>, off: nat, n: nat)
    ensures |Slice(img, off, off + n)| == Have(img, off, n)
  {
  }

  lemma ZeroWord(s: seq<byte>)
    requires |s| == 4
    ensures Le(s) == 0 <==> s == [0, 0, 0, 0]
  {
    ToLeLe(s);
    LeToLe(0, 4);
    Pow256Values();
    assert ToLe(0, 4) == [0, 0, 0, 0];
  }

  lemma RebuildFits(img: seq<byte>, z: Sizes, up: Rounding, rd: seq<byte>)
    requires Rounds(up) && z.ramdisk < U32
    ensures Fitted(up(|rd|) > up(z.ramdisk), |rd|, |img|, LengthHad(img, z, up), Locate(z, up).end, Rebuild(img, z, up, rd))
  {
    if up(|rd|) <= up(z.ramdisk) {
      var declared := Max(|rd|, z.ramdisk);
      SectionsLength(img, z, up, rd);
      AllThere(img, z, up);
      TailFits(img, Sections(img, z, up, rd), declared, Locate(z, up).end);
      TailIsFit(img, Sections(img, z, up, rd), declared, |rd|, Locate(z, up).end);
    }
  }

  lemma TailIsFit(img: seq<byte>, sections: seq<byte>, declared: nat, rd: nat, end: nat)
    requires rd >= U32 <==> declared >= U32
    requires end <= |img| ==> |sections| == end
    ensures Fitted(false, rd, |img|, |sections|, end, WithTail(img, sections, declared, end))
  {
    TailFits(img, sections, declared, end);
  }

  lemma TailFits(img: seq<byte>, sections: seq<byte>, declared: nat, end: nat)
    ensures var r := WithTail(img, sections, declared, end);
            if |sections| < 20 || declared >= U32 then r == Crashed
            else if |sections| != end then r == EndMoved
            else if end <= |img| then r.Wrote? else r == SizeChanged
  {
  }

  lemma PartsHave(img: seq<byte>, z: Sizes, o: Offsets, rd: seq<byte>)
    ensures var p := Parts(img, z, o, rd);
            && |p| == 4 && |p[0]| == Have(img, o.kernel, z.kernel) && |p[1]| == Max(|rd|, z.ramdisk)
            && |p[2]| == Have(img, o.second, z.second) && |p[3]| == Have(img, o.dtb, z.dtb)
    ensures |Slice(img, 0, z.page)| == Have(img, 0, z.page)
  {
    SliceHas(img, 0, z.page);
    SliceHas(img, o.kernel, z.kernel);
    SliceHas(img, o.second, z.second);
    SliceHas(img, o.dtb, z.dtb);
  }

  lemma SectionsLength(img: seq<byte>, z: Sizes, up: Rounding, rd: seq<byte>)
    requires Rounds(up) && up(|rd|) <= up(z.ramdisk)
    ensures |Sections(img, z, up, rd)| == LengthHad(img, z, up)
  {
    var p := Parts(img, z, Locate(z, up), rd);
    PartsHave(img, z, Locate(z, up), rd);
    SamePages(|rd|, z.ramdisk, up);
    LengthOf4(p, up);
  }

  lemma LengthOf4(p: seq<seq<byte>>, up: Rounding)
    requires |p| == 4 && Rounds(up)
    ensures |Concat4(p, up)| == up(|p[0]|) + up(|p[1]|) + up(|p[2]|) + up(|p[3]|)
  {
    Concat4Is(p, up);
    SecIs(p[0], up);
    SecIs(p[1], up);
    SecIs(p[2], up);
    SecIs(p[3], up);
  }

  /** An image that reaches the end of the last section has all of them whole. */
  lemma AllThere(img: seq<byte>, z: Sizes, up: Rounding)
    requires Rounds(up)
    ensures Locate(z, up).end <= |img| ==> LengthHad(img, z, up) == Locate(z, up).end
  {
    var k, s, d, so := up(z.kernel), up(z.second), up(z.dtb), z.page + up(z.kernel) + up(z.ramdisk);
    assert z.kernel <= k && z.second <= s && z.dtb <= d;
    if so + s + d <= |img| {
      HaveAll(img, 0, z.page);
      HaveAll(img, z.page, z.kernel);
      HaveAll(img, so, z.second);
      HaveAll(img, so + s, z.dtb);
    }
  }

  lemma HaveAll(img: seq<byte>, off: nat, n: nat)
    requires off + n <= |img|
    ensures Have(img, off, n) == n
  {
  }

  /** The answer as PatchRamdisk gives it is that of the header's fields and the ramdisk. */
  lemma AnswersSame(img: seq<byte>, z: Sizes, cpio: Option<seq<byte>>, rc: seq<byte>, gz: Gzip, parse: Parser, up: Rounding, r: Result)
    requires HeaderRead(img) && z == ReadSizes(img) && cpio == gz.decompress(Slice(img, z.page + up(z.kernel), z.page + up(z.kernel) + z.ramdisk))
    ensures Answers(img, rc, gz, parse, up, r) == AnswersCpio(img, z, cpio, rc, gz, parse, up, r)
  {
  }

  lemma AnswersFrom(img: seq<byte>, z: Sizes, cpio: Option<seq<byte>>, rc: seq<byte>, gz: Gzip, parse: Parser, up: Rounding, r: Result)
    requires HeaderRead(img) && z == ReadSizes(img) && cpio == gz.decompress(Slice(img, z.page + up(z.kernel), z.page + up(z.kernel) + z.ramdisk))
    requires AnswersCpio(img, z, cpio, rc, gz, parse, up, r)
    ensures Answers(img, rc, gz, parse, up, r)
  {
    AnswersSame(img, z, cpio, rc, gz, parse, up, r);
  }

  lemma CpioAnswers(img: seq<byte>, z: Sizes, cpio: Option<seq<byte>>, rc: seq<byte>, gz: Gzip, parse: Parser, up: Rounding)
    requires HeaderRead(img) && z == ReadSizes(img) && Rounds(up)
    ensures AnswersCpio(img, z, cpio, rc, gz, parse, up, OverlayAt(img, z, cpio, rc, gz, parse, up))
  {
    if cpio.Some? {
      ArchiveIffListed(cpio.value, rc, gz, parse);
      ListedAnswer(img, z, NewArchive(cpio.value, rc, parse), NewRamdisk(cpio.value, rc, gz, parse), gz, up);
    }
  }

  lemma ArchiveIffListed(cpio: seq<byte>, rc: seq<byte>, gz: Gzip, parse: Parser)
    ensures var archive := NewArchive(cpio, rc, parse);
            (archive.Some? <==> Walk(cpio, parse).Some?) && (archive.Some? ==> NewRamdisk(cpio, rc, gz, parse) == gz.compress(archive.value))
  {
    KeptIffListed(cpio, DROP, parse);
  }

  lemma ListedAnswer(img: seq<byte>, z: Sizes, archive: Option<seq<byte>>, rd: seq<byte>, gz: Gzip, up: Rounding)
    requires HeaderRead(img) && z == ReadSizes(img) && Rounds(up)
    requires archive.Some? ==> rd == gz.compress(archive.value)
    ensures AnswersFor(img, z, up, archive.Some?, |rd|, OverlayWith(img, z, archive, gz, up))
  {
    if archive.Some? {
      ZeroWord(img[1632..1636]);
      GetRange(img, F_RAMDISK);
      RebuildFits(img, z, up, rd);
    }
  }

  // ------------------------------------------------------------------ where everything is

  /** The four sections follow each other from the header page on, none cut short. */
  ghost predicate Inside(img: seq<byte>, z: Sizes, o: Offsets) {
    && o.kernel + z.kernel <= o.ramdisk && o.ramdisk + z.ramdisk <= o.second && o.second + z.second <= o.dtb
    && o.dtb + z.dtb <= o.end <= |img| && z.page == o.kernel
  }

  lemma WroteInside(img: seq<byte>, z: Sizes, up: Rounding, rd: seq<byte>)
    requires Rounds(up) && Rebuild(img, z, up, rd).Wrote?
    ensures Inside(img, z, Locate(z, up))
  {
  }

  lemma SecIs(b: seq<byte>, up: Rounding)
    requires Rounds(up)
    ensures |Sec(b, up)| == up(|b|) && b <= Sec(b, up)
  {
  }

  /** Each of the four parts starts at its offset. */
  ghost predicate Placed(s: seq<byte>, page: seq<byte>, p: seq<seq<byte>>, o: Offsets) {
    && |p| == 4 && |s| == o.end && |page| == o.kernel
    && o.kernel + |p[0]| <= o.end && o.ramdisk + |p[1]| <= o.second <= o.end && o.second + |p[2]| <= o.end && o.dtb + |p[3]| <= o.end
    && s[..o.kernel] == page && s[o.kernel..o.kernel + |p[0]|] == p[0] && s[o.ramdisk..o.ramdisk + |p[1]|] == p[1]
    && s[o.second..o.second + |p[2]|] == p[2] && s[o.dtb..o.dtb + |p[3]|] == p[3]
  }

  /** Each section starts where the arithmetic on the sizes says. */
  lemma SectionsAt(page: seq<byte>, p: seq<seq<byte>>, z: Sizes, o: Offsets, up: Rounding)
    requires Rounds(up) && o == Locate(z, up) && |page| == z.page
    requires |p| == 4 && |p[0]| == z.kernel && up(|p[1]|) == up(z.ramdisk) && |p[2]| == z.second && |p[3]| == z.dtb
    ensures Placed(page + Concat4(p, up), page, p, o)
  {
    SecIs(p[0], up);
    SecIs(p[1], up);
    SecIs(p[2], up);
    SecIs(p[3], up);
    Concat4Is(p, up);
    FourPlaced(page, Sec(p[0], up), Sec(p[1], up), Sec(p[2], up), Sec(p[3], up), o, p);
  }

  lemma FourPlaced(page: seq<byte>, a: seq<byte>, b: seq<byte>, c: seq<byte>, d: seq<byte>, o: Offsets, p: seq<seq<byte>>)
    requires o.kernel == |page| && o.ramdisk == o.kernel + |a| && o.second == o.ramdisk + |b| && o.dtb == o.second + |c| && o.end == o.dtb + |d|
    requires |p| == 4 && p[0] <= a && p[1] <= b && p[2] <= c && p[3] <= d
    ensures Placed(page + (a + b + c + d), page, p, o)
  {
    FourAt(page, a, b, c, d, o);
    var s := page + (a + b + c + d);
    StartsAt(s, o.kernel, o.ramdisk, a, p[0]);
    StartsAt(s, o.ramdisk, o.second, b, p[1]);
    StartsAt(s, o.second, o.dtb, c, p[2]);
    StartsAt(s, o.dtb, o.end, d, p[3]);
  }

  lemma Concat4Is(p: seq<seq<byte>>, up: Rounding)
    requires |p| == 4
    ensures Concat4(p, up) == Sec(p[0], up) + Sec(p[1], up) + Sec(p[2], up) + Sec(p[3], up)
  {
    assert p[..3][..2] == p[..2] && p[..2][..1] == p[..1] && p[..1][..0] == [];
    assert Concat4(p[..1], up) == Sec(p[0], up);
    assert Concat4(p[..2], up) == Sec(p[0], up) + Sec(p[1], up);
    assert Concat4(p[..3], up) == Sec(p[0], up) + Sec(p[1], up) + Sec(p[2], up);
  }

  lemma FourAt(page: seq<byte>, a: seq<byte>, b: seq<byte>, c: seq<byte>, d: seq<byte>, o: Offsets)
    requires o.kernel == |page| && o.ramdisk == o.kernel + |a| && o.second == o.ramdisk + |b| && o.dtb == o.second + |c| && o.end == o.dtb + |d|
    ensures var s := page + (a + b + c + d);
            && |s| == o.end && s[..o.kernel] == page
            && s[o.kernel..o.ramdisk] == a && s[o.ramdisk..o.second] == b && s[o.second..o.dtb] == c && s[o.dtb..o.end] == d
  {
  }

  lemma StartsAt(s: seq<byte>, at: nat, end: nat, x: seq<byte>, b: seq<byte>)
    requires at <= end <= |s| && s[at..end] == x && b <= x
    ensures at + |b| <= end && s[at..at + |b|] == b
  {
    SubSlice(s, at, end - at, 0, |b|);
  }

  /** The bytes of `out` and `img` are the same in lo..hi. */
  ghost predicate SameIn(out: seq<byte>, img: seq<byte>, lo: nat, hi: nat) {
    lo <= hi <= |out| && hi <= |img| && out[lo..hi] == img[lo..hi]
  }

  /** What a written image keeps: its length, the header page but for the ramdisk size, kernel,
      second stage, device tree and tail, each at its old place; and the new ramdisk lies where
      the old one did. */
  ghost predicate PlacesKept(img: seq<byte>, out: seq<byte>, z: Sizes, o: Offsets, rd: seq<byte>, declared: nat) {
    && |out| == |img| && Inside(img, z, o) && |rd| <= declared && o.ramdisk + declared <= o.second
    && SameIn(out, img, 0, F_RAMDISK) && SameIn(out, img, F_RAMDISK + 4, z.page)
    && SameIn(out, img, o.kernel, o.kernel + z.kernel) && SameIn(out, img, o.second, o.second + z.second)
    && SameIn(out, img, o.dtb, o.dtb + z.dtb) && SameIn(out, img, o.end, |img|)
    && out[o.ramdisk..o.ramdisk + declared] == rd + Zeros(declared - |rd|)
  }

  /** And what it says: sizes that lead the bootloader to the same places. */
  ghost predicate LayoutKept(img: seq<byte>, out: seq<byte>, z: Sizes, up: Rounding, rd: seq<byte>) {
    var declared := Max(|rd|, z.ramdisk);
    && PlacesKept(img, out, z, Locate(z, up), rd, declared)
    && FIELDS_END <= |out| && ReadSizes(out) == z.(ramdisk := declared) && Locate(ReadSizes(out), up) == Locate(z, up)
  }

  lemma PatchedSections(s: seq<byte>, declared: nat, lo: nat, hi: nat)
    requires F_RAMDISK + 4 <= |s| && lo <= hi <= |s| && (hi <= F_RAMDISK || F_RAMDISK + 4 <= lo)
    ensures Put32(s, F_RAMDISK, declared)[lo..hi] == s[lo..hi]
  {
    PutElsewhere(s, F_RAMDISK, ToLe(declared, 4), lo, hi);
  }

  lemma FieldKept(img: seq<byte>, out: seq<byte>, page: nat, at: nat)
    requires at + 4 <= page && (at + 4 <= F_RAMDISK || F_RAMDISK + 4 <= at) && FIELDS_END <= page
    requires SameIn(out, img, 0, F_RAMDISK) && SameIn(out, img, F_RAMDISK + 4, page)
    ensures at + 4 <= |out| && at + 4 <= |img| && Get32(out, at) == Get32(img, at)
  {
    if at + 4 <= F_RAMDISK {
      SubSlice(out, 0, F_RAMDISK, at, at + 4);
      SubSlice(img, 0, F_RAMDISK, at, at + 4);
    } else {
      var k := at - (F_RAMDISK + 4);
      SubSlice(out, F_RAMDISK + 4, page - F_RAMDISK - 4, k, k + 4);
      SubSlice(img, F_RAMDISK + 4, page - F_RAMDISK - 4, k, k + 4);
    }
  }

  lemma SizesKept(img: seq<byte>, out: seq<byte>, z: Sizes, declared: nat)
    requires FIELDS_END <= z.page <= |img| && z == ReadSizes(img)
    requires SameIn(out, img, 0, F_RAMDISK) && SameIn(out, img, F_RAMDISK + 4, z.page)
    requires FIELDS_END <= |out| && Get32(out, F_RAMDISK) == declared
    ensures ReadSizes(out) == z.(ramdisk := declared)
  {
    FieldKept(img, out, z.page, F_PAGE);
    FieldKept(img, out, z.page, F_KERNEL);
    FieldKept(img, out, z.page, F_SECOND);
    FieldKept(img, out, z.page, F_DTB);
  }

  /** The rebuilt sections against the old image. */
  ghost predicate Rebuilt(s: seq<byte>, img: seq<byte>, z: Sizes, o: Offsets, rd: seq<byte>, declared: nat) {
    && |s| == o.end && Inside(img, z, o) && o.ramdisk + declared <= o.second && |rd| <= declared
    && SameIn(s, img, 0, z.page) && SameIn(s, img, o.kernel, o.kernel + z.kernel)
    && SameIn(s, img, o.second, o.second + z.second) && SameIn(s, img, o.dtb, o.dtb + z.dtb)
    && s[o.ramdisk..o.ramdisk + declared] == rd + Zeros(declared - |rd|)
  }

  lemma PartsWhole(img: seq<byte>, z: Sizes, o: Offsets, rd: seq<byte>)
    requires Inside(img, z, o)
    ensures var p := Parts(img, z, o, rd);
            && Slice(img, 0, z.page) == img[..z.page]
            && p[0] == img[o.kernel..o.kernel + z.kernel] && p[2] == img[o.second..o.second + z.second] && p[3] == img[o.dtb..o.dtb + z.dtb]
  {
    WholeSlice(img, 0, z.page);
    WholeSlice(img, o.kernel, o.kernel + z.kernel);
    WholeSlice(img, o.second, o.second + z.second);
    WholeSlice(img, o.dtb, o.dtb + z.dtb);
  }

  lemma WholeSlice(img: seq<byte>, lo: nat, hi: nat)
    requires lo <= hi <= |img|
    ensures Slice(img, lo, hi) == img[lo..hi]
  {
  }

  lemma PlacedIsRebuilt(s: seq<byte>, img: seq<byte>, z: Sizes, o: Offsets, rd: seq<byte>, p: seq<seq<byte>>, declared: nat)
    requires Inside(img, z, o) && |rd| <= declared && Placed(s, img[..z.page], p, o)
    requires p[0] == img[o.kernel..o.kernel + z.kernel] && p[2] == img[o.second..o.second + z.second] && p[3] == img[o.dtb..o.dtb + z.dtb]
    requires p[1] == rd + Zeros(declared - |rd|)
    ensures Rebuilt(s, img, z, o, rd, declared)
  {
    assert s[0..z.page] == s[..o.kernel] && img[0..z.page] == img[..z.page];
  }

  lemma SectionsRebuilt(img: seq<byte>, z: Sizes, up: Rounding, rd: seq<byte>)
    requires Rounds(up) && Inside(img, z, Locate(z, up)) && up(|rd|) <= up(z.ramdisk)
    ensures Rebuilt(Sections(img, z, up, rd), img, z, Locate(z, up), rd, Max(|rd|, z.ramdisk))
  {
    var o, p := Locate(z, up), Parts(img, z, Locate(z, up), rd);
    SamePages(|rd|, z.ramdisk, up);
    PartsWhole(img, z, o, rd);
    SectionsAt(img[..z.page], p, z, o, up);
    PlacedIsRebuilt(Sections(img, z, up, rd), img, z, o, rd, p, Max(|rd|, z.ramdisk));
  }

  lemma Both(s: seq<byte>, declared: nat, tail: seq<byte>, lo: nat, hi: nat)
    requires F_RAMDISK + 4 <= |s| && lo <= hi <= |s| && (hi <= F_RAMDISK || F_RAMDISK + 4 <= lo)
    ensures (Put32(s, F_RAMDISK, declared) + tail)[lo..hi] == s[lo..hi]
  {
    PatchedSections(s, declared, lo, hi);
    var t := Put32(s, F_RAMDISK, declared);
    assert (t + tail)[lo..hi] == t[lo..hi];
  }

  /** Writing the ramdisk size and appending the tail moves no section. */
  lemma SameAfter(s: seq<byte>, img: seq<byte>, declared: nat, tail: seq<byte>, lo: nat, hi: nat, from: nat, to: nat)
    requires SameIn(s, img, from, to) && from <= lo <= hi <= to
    requires F_RAMDISK + 4 <= |s| && (hi <= F_RAMDISK || F_RAMDISK + 4 <= lo)
    ensures SameIn(Put32(s, F_RAMDISK, declared) + tail, img, lo, hi)
  {
    Both(s, declared, tail, lo, hi);
    SubSlice(s, from, to - from, lo - from, hi - from);
    SubSlice(img, from, to - from, lo - from, hi - from);
  }

  lemma SizeReads(s: seq<byte>, declared: nat, tail: seq<byte>)
    requires FIELDS_END <= |s| && declared < U32
    ensures Get32(Put32(s, F_RAMDISK, declared) + tail, F_RAMDISK) == declared
  {
    Put32Get(s, F_RAMDISK, declared);
    var t := Put32(s, F_RAMDISK, declared);
    assert (t + tail)[F_RAMDISK..F_RAMDISK + 4] == t[F_RAMDISK..F_RAMDISK + 4];
  }

  lemma RebuiltKeepsPlaces(s: seq<byte>, img: seq<byte>, z: Sizes, o: Offsets, rd: seq<byte>, declared: nat)
    requires Rebuilt(s, img, z, o, rd, declared) && F_RAMDISK + 4 <= z.page
    ensures PlacesKept(img, Put32(s, F_RAMDISK, declared) + img[o.end..], z, o, rd, declared)
  {
    var tail := img[o.end..];
    SameAfter(s, img, declared, tail, 0, F_RAMDISK, 0, z.page);
    SameAfter(s, img, declared, tail, F_RAMDISK + 4, z.page, 0, z.page);
    SameAfter(s, img, declared, tail, o.kernel, o.kernel + z.kernel, o.kernel, o.kernel + z.kernel);
    SameAfter(s, img, declared, tail, o.second, o.second + z.second, o.second, o.second + z.second);
    SameAfter(s, img, declared, tail, o.dtb, o.dtb + z.dtb, o.dtb, o.dtb + z.dtb);
    Both(s, declared, tail, o.ramdisk, o.ramdisk + declared);
    assert (Put32(s, F_RAMDISK, declared) + tail)[o.end..] == tail;
  }

  lemma WroteWhat(img: seq<byte>, z: Sizes, up: Rounding, rd: seq<byte>)
    requires Rounds(up) && Rebuild(img, z, up, rd).Wrote?
    ensures var s, o, declared := Sections(img, z, up, rd), Locate(z, up), Max(|rd|, z.ramdisk);
            && F_RAMDISK + 4 <= |s| && declared < U32 && Inside(img, z, o) && up(|rd|) <= up(z.ramdisk)
            && Rebuild(img, z, up, rd).image == Put32(s, F_RAMDISK, declared) + img[o.end..]
  {
    WroteInside(img, z, up, rd);
  }

  lemma SameLocate(z: Sizes, rd: nat, up: Rounding)
    requires Rounds(up) && up(rd) <= up(z.ramdisk)
    ensures Locate(z.(ramdisk := Max(rd, z.ramdisk)), up) == Locate(z, up)
  {
    SamePages(rd, z.ramdisk, up);
  }

  /** Whenever the patcher writes an image, everything lies where it was. */
  lemma RebuildKeepsPlaces(img: seq<byte>, z: Sizes, up: Rounding, rd: seq<byte>)
    requires F_RAMDISK + 4 <= z.page && Rounds(up) && Rebuild(img, z, up, rd).Wrote?
    ensures PlacesKept(img, Rebuild(img, z, up, rd).image, z, Locate(z, up), rd, Max(|rd|, z.ramdisk))
  {
    WroteWhat(img, z, up, rd);
    SectionsRebuilt(img, z, up, rd);
    RebuiltKeepsPlaces(Sections(img, z, up, rd), img, z, Locate(z, up), rd, Max(|rd|, z.ramdisk));
  }

  /** Whenever the patcher writes an image, its layout is kept. */
  lemma RebuildKeepsLayout(img: seq<byte>, z: Sizes, up: Rounding, rd: seq<byte>)
    requires FIELDS_END <= |img| && z == ReadSizes(img) && FIELDS_END <= z.page && Rounds(up)
    requires Rebuild(img, z, up, rd).Wrote?
    ensures LayoutKept(img, Rebuild(img, z, up, rd).image, z, up, rd)
  {
    WroteWhat(img, z, up, rd);
    SectionsRebuilt(img, z, up, rd);
    SameLocate(z, |rd|, up);
    RebuiltKeepsLayout(Sections(img, z, up, rd), img, z, Locate(z, up), rd, Max(|rd|, z.ramdisk));
  }

  lemma RebuiltKeepsLayout(s: seq<byte>, img: seq<byte>, z: Sizes, o: Offsets, rd: seq<byte>, declared: nat)
    requires Rebuilt(s, img, z, o, rd, declared) && declared < U32
    requires FIELDS_END <= |img| && z == ReadSizes(img) && FIELDS_END <= z.page
    ensures var out := Put32(s, F_RAMDISK, declared) + img[o.end..];
            PlacesKept(img, out, z, o, rd, declared) && FIELDS_END <= |out| && ReadSizes(out) == z.(ramdisk := declared)
  {
    RebuiltKeepsPlaces(s, img, z, o, rd, declared);
    SizeReads(s, declared, img[o.end..]);
    SizesKept(img, Put32(s, F_RAMDISK, declared) + img[o.end..], z, declared);
  }

  // ------------------------------------------------------------------ between the sections

  ghost predicate ZeroIn(s: seq<byte>, lo: nat, hi: nat) {
    hi <= |s| && forall i :: lo <= i < hi ==> s[i] == 0
  }

  /** The bytes behind kernel, second stage and device tree, each up to its page end, are zero. */
  ghost predicate GapsZero(s: seq<byte>, z: Sizes, o: Offsets) {
    ZeroIn(s, o.kernel + z.kernel, o.ramdisk) && ZeroIn(s, o.second + z.second, o.dtb) && ZeroIn(s, o.dtb + z.dtb, o.end)
  }

  lemma GapAt(s: seq<byte>, at: nat, end: nat, b: seq<byte>, up: Rounding)
    requires Rounds(up) && at <= end <= |s| && s[at..end] == Sec(b, up)
    ensures ZeroIn(s, at + |b|, end)
  {
    forall i | at + |b| <= i < end ensures s[i] == 0 {
      assert s[at..end][i - at] == s[i];
    }
  }

  lemma SectionsZero(page: seq<byte>, p: seq<seq<byte>>, z: Sizes, o: Offsets, up: Rounding)
    requires Rounds(up) && o == Locate(z, up) && |page| == z.page
    requires |p| == 4 && |p[0]| == z.kernel && up(|p[1]|) == up(z.ramdisk) && |p[2]| == z.second && |p[3]| == z.dtb
    ensures GapsZero(page + Concat4(p, up), z, o)
  {
    SecIs(p[0], up);
    SecIs(p[1], up);
    SecIs(p[2], up);
    SecIs(p[3], up);
    Concat4Is(p, up);
    var s := page + Concat4(p, up);
    FourAt(page, Sec(p[0], up), Sec(p[1], up), Sec(p[2], up), Sec(p[3], up), o);
    GapAt(s, o.kernel, o.ramdisk, p[0], up);
    GapAt(s, o.second, o.dtb, p[2], up);
    GapAt(s, o.dtb, o.end, p[3], up);
  }

  lemma ZeroAfter(s: seq<byte>, declared: nat, tail: seq<byte>, lo: nat, hi: nat)
    requires F_RAMDISK + 4 <= |s| && F_RAMDISK + 4 <= lo <= hi && ZeroIn(s, lo, hi)
    ensures ZeroIn(Put32(s, F_RAMDISK, declared) + tail, lo, hi)
  {
    Both(s, declared, tail, lo, hi);
    var t := Put32(s, F_RAMDISK, declared) + tail;
    forall i | lo <= i < hi ensures t[i] == 0 {
      assert t[i] == t[lo..hi][i - lo] == s[lo..hi][i - lo] == s[i];
    }
  }

  /** A written image has zeros between its sections. */
  lemma GapsZeroed(img: seq<byte>, z: Sizes, up: Rounding, rd: seq<byte>)
    requires F_RAMDISK + 4 <= z.page && Rounds(up) && Rebuild(img, z, up, rd).Wrote?
    ensures GapsZero(Rebuild(img, z, up, rd).image, z, Locate(z, up))
  {
    WroteWhat(img, z, up, rd);
    var o, p, declared := Locate(z, up), Parts(img, z, Locate(z, up), rd), Max(|rd|, z.ramdisk);
    SamePages(|rd|, z.ramdisk, up);
    PartsWhole(img, z, o, rd);
    SectionsZero(img[..z.page], p, z, o, up);
    var s := Sections(img, z, up, rd);
    ZeroAfter(s, declared, img[o.end..], o.kernel + z.kernel, o.ramdisk);
    ZeroAfter(s, declared, img[o.end..], o.second + z.second, o.dtb);
    ZeroAfter(s, declared, img[o.end..], o.dtb + z.dtb, o.end);
  }

  /** Outside the size field and the ramdisk's pages nothing has changed. */
  ghost predicate RestKept(img: seq<byte>, out: seq<byte>, o: Offsets) {
    |out| == |img| &&
    forall i :: 0 <= i < |img| && !(F_RAMDISK <= i < F_RAMDISK + 4) && !(o.ramdisk <= i < o.second) ==> out[i] == img[i]
  }

  /** The image around the ramdisk is untouched if and only if there were zeros between its sections
      to begin with. */
  lemma RestKeptIffZero(img: seq<byte>, z: Sizes, up: Rounding, rd: seq<byte>)
    requires F_RAMDISK + 4 <= z.page && Rounds(up) && Rebuild(img, z, up, rd).Wrote?
    ensures RestKept(img, Rebuild(img, z, up, rd).image, Locate(z, up)) <==> GapsZero(img, z, Locate(z, up))
  {
    RebuildKeepsPlaces(img, z, up, rd);
    GapsZeroed(img, z, up, rd);
    RestByGaps(img, Rebuild(img, z, up, rd).image, z, Locate(z, up), rd, Max(|rd|, z.ramdisk));
  }

  lemma RestByGaps(img: seq<byte>, out: seq<byte>, z: Sizes, o: Offsets, rd: seq<byte>, declared: nat)
    requires F_RAMDISK + 4 <= z.page && PlacesKept(img, out, z, o, rd, declared) && GapsZero(out, z, o)
    ensures RestKept(img, out, o) <==> GapsZero(img, z, o)
  {
    if GapsZero(img, z, o) {
      forall i | 0 <= i < |img| && !(F_RAMDISK <= i < F_RAMDISK + 4) && !(o.ramdisk <= i < o.second) ensures out[i] == img[i] {
        if i < F_RAMDISK {
          SameHere(out, img, 0, F_RAMDISK, i);
        } else if i < z.page {
          SameHere(out, img, F_RAMDISK + 4, z.page, i);
        } else if i < o.kernel + z.kernel {
          SameHere(out, img, o.kernel, o.kernel + z.kernel, i);
        } else if o.second <= i < o.second + z.second {
          SameHere(out, img, o.second, o.second + z.second, i);
        } else if o.dtb <= i < o.dtb + z.dtb {
          SameHere(out, img, o.dtb, o.dtb + z.dtb, i);
        } else if o.end <= i {
          SameHere(out, img, o.end, |img|, i);
        }
      }
    }
  }

  lemma SameHere(out: seq<byte>, img: seq<byte>, lo: nat, hi: nat, i: nat)
    requires SameIn(out, img, lo, hi) && lo <= i < hi
    ensures out[i] == img[i]
  {
    assert out[lo..hi][i - lo] == out[i] && img[lo..hi][i - lo] == img[i];
  }

  /** A header for pages of 2048 bytes, a kernel of one byte and a ramdisk of one. */
  function SlackHeader(): seq<byte> {
    Put32(Put32(Put32(BOOT_MAGIC + Zeros(2040), F_KERNEL, 1), F_RAMDISK, 1), F_PAGE, 2048)
  }

  lemma HeaderFields(h: seq<byte>)
    requires h == SlackHeader()
    ensures |h| == 2048 && HasMagic(h) && Get32(h, F_PAGE) == 2048 && Get32(h, F_KERNEL) == 1 && Get32(h, F_RAMDISK) == 1
    ensures Get32(h, F_SECOND) == 0 && Get32(h, F_DTB) == 0
  {
    var a := BOOT_MAGIC + Zeros(2040);
    var b := Put32(a, F_KERNEL, 1);
    var c := Put32(b, F_RAMDISK, 1);
    Put32Get(a, F_KERNEL, 1);
    Put32Get(b, F_RAMDISK, 1);
    Put32Get(c, F_PAGE, 2048);
    FieldBehind(b, F_RAMDISK, 1, F_KERNEL);
    FieldBehind(c, F_PAGE, 2048, F_KERNEL);
    FieldBehind(c, F_PAGE, 2048, F_RAMDISK);
    ZeroField(a, b, c, h, F_SECOND);
    ZeroField(a, b, c, h, F_DTB);
    PutElsewhere(a, F_KERNEL, ToLe(1, 4), 0, 8);
    PutElsewhere(b, F_RAMDISK, ToLe(1, 4), 0, 8);
    PutElsewhere(c, F_PAGE, ToLe(2048, 4), 0, 8);
    assert h[0..8] == h[..8] && a[0..8] == BOOT_MAGIC;
  }

  lemma FieldBehind(s: seq<byte>, off: nat, v: nat, at: nat)
    requires off + 4 <= |s| && at + 4 <= |s| && (at + 4 <= off || off + 4 <= at)
    ensures Get32(Put32(s, off, v), at) == Get32(s, at)
  {
    PutElsewhere(s, off, ToLe(v, 4), at, at + 4);
  }

  lemma ZeroField(a: seq<byte>, b: seq<byte>, c: seq<byte>, h: seq<byte>, at: nat)
    requires a == BOOT_MAGIC + Zeros(2040) && b == Put32(a, F_KERNEL, 1) && c == Put32(b, F_RAMDISK, 1) && h == Put32(c, F_PAGE, 2048)
    requires (at == F_SECOND || at == F_DTB)
    ensures Get32(h, at) == 0
  {
    FieldBehind(c, F_PAGE, 2048, at);
    FieldBehind(b, F_RAMDISK, 1, at);
    FieldBehind(a, F_KERNEL, 1, at);
    assert a[at..at + 4] == [0, 0, 0, 0] == ToLe(0, 4);
    Pow256Values();
    LeToLe(0, 4);
  }

  /** That header, the kernel and one stray byte behind it, and the ramdisk's page. */
  function SlackImage(): seq<byte> {
    SlackHeader() + ([7, 9] + Zeros(2046)) + Zeros(2048)
  }

  lemma SlackSizes(img: seq<byte>)
    requires img == SlackImage()
    ensures |img| == 6144 && img[2049] == 9 && HasMagic(img) && ReadSizes(img) == Sizes(2048, 1, 1, 0, 0)
  {
    var h := SlackHeader();
    HeaderFields(h);
    SlackBytes(img, h, [7, 9] + Zeros(2046), Zeros(2048));
    HeaderOf(img, h);
  }

  lemma SlackBytes(img: seq<byte>, h: seq<byte>, k: seq<byte>, rd: seq<byte>)
    requires |h| == |k| == |rd| == 2048 && k[1] == 9 && img == h + k + rd
    ensures |img| == 6144 && img[2049] == 9 && img[..2048] == h
  {
  }

  lemma HeaderOf(img: seq<byte>, h: seq<byte>)
    requires |h| == 2048 <= |img| && img[..2048] == h
    ensures ReadSizes(img) == ReadSizes(h) && (HasMagic(img) <==> HasMagic(h))
  {
    assert img[..8] == h[..8];
    Get32Same(img, h, 2048, F_PAGE);
    Get32Same(img, h, 2048, F_KERNEL);
    Get32Same(img, h, 2048, F_RAMDISK);
    Get32Same(img, h, 2048, F_SECOND);
    Get32Same(img, h, 2048, F_DTB);
  }

  lemma TwoPages(up: Rounding)
    requires RoundsTo(up, 2048)
    ensures up(0) == 0 && up(1) == 2048 && forall n: nat :: 1 <= n <= 2048 ==> up(n) == 2048
  {
    forall n: nat | n <= 2048 ensures up(n) == if n == 0 then 0 else 2048 {
      assert up(n) == PagesUp(n, 2048);
      assert n > 0 ==> (n + 2047) / 2048 == 1;
    }
  }

  /** The stray byte behind the kernel is erased, with any ramdisk that fits. */
  lemma StrayByteErased(rd: seq<byte>, up: Rounding, img: seq<byte>, z: Sizes)
    requires 1 <= |rd| <= 2048 && up == Rounder(2048) && img == SlackImage() && z == Sizes(2048, 1, 1, 0, 0)
    ensures ReadSizes(img) == z && Rebuild(img, z, up, rd).Wrote? && !RestKept(img, Rebuild(img, z, up, rd).image, Locate(z, up))
  {
    SlackSizes(img);
    TwoPages(up);
    SlackWritten(rd, up, img, z);
    RestKeptIffZero(img, z, up, rd);
    assert Locate(z, up) == Offsets(2048, 4096, 6144, 6144, 6144);
    assert !ZeroIn(img, 2049, 4096);
  }

  lemma SlackWritten(rd: seq<byte>, up: Rounding, img: seq<byte>, z: Sizes)
    requires 1 <= |rd| <= 2048 && |img| == 6144 && z == Sizes(2048, 1, 1, 0, 0) && Rounds(up)
    requires up(0) == 0 && up(1) == 2048 && up(|rd|) == 2048
    ensures Rebuild(img, z, up, rd).Wrote?
  {
    var o, p := Locate(z, up), Parts(img, z, Locate(z, up), rd);
    Concat4Is(p, up);
    SecIs(p[0], up);
    SecIs(p[1], up);
    SecIs(p[2], up);
    SecIs(p[3], up);
    assert |Sections(img, z, up, rd)| == 6144;
  }

  // ------------------------------------------------------------------ main result

  /** A written image keeps its layout, and its ramdisk unpacks to an archive that lists exactly
      the old members in order, without the dropped keys, and then the new script. */
  lemma OverlayPreserves(img: seq<byte>, z: Sizes, rc: seq<byte>, gz: Gzip, parse: Parser, num: Number, up: Rounding, cpio: seq<byte>)
    requires FIELDS_END <= |img| && z == ReadSizes(img) && FIELDS_END <= z.page && Rounds(up)
    requires OverlayAt(img, z, Some(cpio), rc, gz, parse, up).Wrote?
    requires Inverse(gz) && ReadsHex(num) && Parses(parse, num) && |rc| < U32 && Complete(cpio, parse)
    ensures var out := OverlayAt(img, z, Some(cpio), rc, gz, parse, up).image;
            var archive := NewArchive(cpio, rc, parse);
            && archive.Some? && LayoutKept(img, out, z, up, gz.compress(archive.value)) && Reopens(out, z, up, gz, archive.value)
            && Walk(cpio, parse).Some?
            && Walk(archive.value, parse) == Some(Without(Walk(cpio, parse).value, DROP) + [EntryMember(BOOTLOG, rc, RC_MODE)])
  {
    RebuildIsFilter(cpio, DROP, BOOTLOG, rc, RC_MODE, parse, num);
    WroteKeeps(img, z, gz, up, NewArchive(cpio, rc, parse).value);
  }

  lemma WroteKeeps(img: seq<byte>, z: Sizes, gz: Gzip, up: Rounding, archive: seq<byte>)
    requires FIELDS_END <= |img| && z == ReadSizes(img) && FIELDS_END <= z.page && Rounds(up) && Inverse(gz)
    requires OverlayWith(img, z, Some(archive), gz, up).Wrote?
    ensures var out := OverlayWith(img, z, Some(archive), gz, up).image;
            LayoutKept(img, out, z, up, gz.compress(archive)) && Reopens(out, z, up, gz, archive)
  {
    RebuildKeepsLayout(img, z, up, gz.compress(archive));
    RamdiskReopens(img, OverlayWith(img, z, Some(archive), gz, up).image, z, up, gz.compress(archive), gz, archive);
  }

  /** The bootloader's ramdisk decompresses to the archive. */
  ghost predicate Reopens(out: seq<byte>, z: Sizes, up: Rounding, gz: Gzip, archive: seq<byte>) {
    FIELDS_END <= |out| &&
    var w := ReadSizes(out); var o := Locate(w, up);
    gz.decompress(Slice(out, o.ramdisk, o.ramdisk + w.ramdisk)) == Some(archive)
  }

  lemma RamdiskReopens(img: seq<byte>, out: seq<byte>, z: Sizes, up: Rounding, rd: seq<byte>, gz: Gzip, archive: seq<byte>)
    requires LayoutKept(img, out, z, up, rd) && Inverse(gz) && rd == gz.compress(archive)
    ensures Reopens(out, z, up, gz, archive)
  {
    var o, declared := Locate(z, up), Max(|rd|, z.ramdisk);
    assert Slice(out, o.ramdisk, o.ramdisk + declared) == out[o.ramdisk..o.ramdisk + declared];
    assert gz.decompress(gz.compress(archive) + Zeros(declared - |rd|)) == Some(archive);
  }
}
