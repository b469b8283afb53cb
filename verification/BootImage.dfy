/** An Android boot image, as both image patchers take it apart: a header page, then kernel,
    ramdisk, second stage and device tree, each rounded up to whole pages. */
module BootImage {
  import opened Common
  import opened Bytes

  const BOOT_MAGIC: seq<byte> := [65, 78, 68, 82, 79, 73, 68, 33]
  const F_KERNEL := 8
  const F_RAMDISK := 16
  const F_SECOND := 24
  const F_PAGE := 36
  const F_RECOVERY_DTBO := 1632
  const F_DTB := 1648
  const FIELDS_END := 1652

  predicate HasMagic(img: seq<byte>) {
    |img| >= 8 && img[..8] == BOOT_MAGIC
  }

  // ------------------------------------------------------------------ pages

  function PagesUp(n: nat, ps: nat): nat
    requires ps > 0
  {
    (n + ps - 1) / ps * ps
  }

  /** Rounding up to whole pages, as a value. */
  type Rounding = nat -> nat

  ghost predicate Rounds(up: Rounding) {
    && (forall n: nat :: n <= up(n))
    && (forall a: nat, b: nat :: a <= b ==> up(a) <= up(b))
  }

  lemma DivBounds(n: int, d: int)
    requires d > 0
    ensures n / d * d <= n < n / d * d + d
  {
  }

  lemma {:induction false} MulStep(a: int, b: int, d: int)
    requires d > 0 && a < b
    ensures a * d + d <= b * d
    decreases b - a
  {
    if a + 1 < b {
      MulStep(a, b - 1, d);
    }
    NextMultiple(b - 1, d);
  }

  lemma NextMultiple(a: int, d: int)
    ensures (a + 1) * d == a * d + d
  {
  }

  lemma UpMonotone(a: nat, b: nat, ps: nat)
    requires ps > 0 && a <= b
    ensures PagesUp(a, ps) <= PagesUp(b, ps)
  {
    var x, y := (a + ps - 1) / ps, (b + ps - 1) / ps;
    DivBounds(a + ps - 1, ps);
    DivBounds(b + ps - 1, ps);
    if y < x {
      MulStep(y, x, ps);
    } else if x < y {
      MulStep(x, y, ps);
    }
  }

  lemma UpShift(n: nat, ps: nat)
    requires ps > 0
    ensures PagesUp(ps + n, ps) == ps + PagesUp(n, ps) && n <= PagesUp(n, ps)
  {
    var x, y := (ps + n + ps - 1) / ps, (n + ps - 1) / ps;
    DivBounds(ps + n + ps - 1, ps);
    DivBounds(n + ps - 1, ps);
    if x < y + 1 {
      MulStep(x, y + 1, ps);
    } else if y + 1 < x {
      MulStep(y + 1, x, ps);
    }
    NextMultiple(y, ps);
  }

  ghost predicate RoundsTo(up: Rounding, ps: nat) {
    ps > 0 && forall n: nat {:trigger PagesUp(n, ps)} :: up(n) == PagesUp(n, ps)
  }

  /** The patchers' own `up`. */
  function Rounder(ps: nat): (up: Rounding)
    requires ps > 0
    ensures Rounds(up) && RoundsTo(up, ps)
  {
    var up := (n: nat) => PagesUp(n, ps);
    assert Rounds(up) by {
      forall n: nat ensures n <= up(n) {
        UpShift(n, ps);
      }
      forall a: nat, b: nat | a <= b ensures up(a) <= up(b) {
        UpMonotone(a, b, ps);
      }
    }
    up
  }

  /** The padded ramdisk takes exactly the old ramdisk's pages. */
  lemma SamePages(rd: nat, was: nat, up: Rounding)
    requires Rounds(up) && up(rd) <= up(was)
    ensures up(Max(rd, was)) == up(was) && rd <= up(was)
  {
    assert was <= rd ==> up(was) <= up(rd);
  }

  // ------------------------------------------------------------------ sizes and offsets

  datatype Sizes = Sizes(page: nat, kernel: nat, ramdisk: nat, second: nat, dtb: nat)

  function ReadSizes(img: seq<byte>): Sizes
    requires FIELDS_END <= |img|
  {
    Sizes(Get32(img, F_PAGE), Get32(img, F_KERNEL), Get32(img, F_RAMDISK), Get32(img, F_SECOND), Get32(img, F_DTB))
  }

  /** Where the bootloader looks for each section: arithmetic on the header's sizes. */
  datatype Offsets = Offsets(kernel: nat, ramdisk: nat, second: nat, dtb: nat, end: nat)

  function Locate(z: Sizes, up: Rounding): Offsets {
    var r := z.page + up(z.kernel);
    var s := r + up(z.ramdisk);
    var d := s + up(z.second);
    Offsets(z.page, r, s, d, d + up(z.dtb))
  }

  /** gzip, as a pair of functions. */
  datatype Gzip = Gzip(compress: seq<byte> -> seq<byte>, decompress: seq<byte> -> Option<seq<byte>>)

  /** Decompression undoes compression, and ignores zeros behind the stream. */
  ghost predicate Inverse(gz: Gzip) {
    forall x: seq<byte>, n: nat :: gz.decompress(gz.compress(x) + Zeros(n)) == Some(x)
  }
}
