/** A logical partition on the device: its extents, read one after the other (`Gather`) and
    written one after the other (`Scatter`). */
module EdlLayout {
  import opened Bytes

  const SUPER_OFFSET := 0x0b20_8000
  const SECTOR := 4096

  /** One extent as the dump prints it: 512-byte units, `phys` counted from the start of super. */
  datatype Piece = Piece(phys: nat, len: nat)

  function Addr(e: Piece): nat { SUPER_OFFSET + e.phys * 512 }

  function Size(e: Piece): nat { e.len * 512 }

  function Total(ext: seq<Piece>): nat {
    if ext == [] then 0 else Total(ext[..|ext| - 1]) + Size(ext[|ext| - 1])
  }

  /** The device address of byte `o` of the partition. */
  function Where(ext: seq<Piece>, o: nat): nat
    requires o < Total(ext)
  {
    var n := |ext| - 1;
    var k := Total(ext[..n]);
    if o < k then Where(ext[..n], o) else Addr(ext[n]) + (o - k)
  }

  ghost predicate InDevice(ext: seq<Piece>, size: nat) {
    forall i :: 0 <= i < |ext| ==> Addr(ext[i]) + Size(ext[i]) <= size
  }

  predicate Apart(a: Piece, b: Piece) {
    Addr(a) + Size(a) <= Addr(b) || Addr(b) + Size(b) <= Addr(a)
  }

  ghost predicate Disjoint(ext: seq<Piece>) {
    forall i, j :: 0 <= i < |ext| && 0 <= j < |ext| && i != j ==> Apart(ext[i], ext[j])
  }

  /** Starts and ends on device sectors. */
  predicate Aligned(e: Piece) {
    Addr(e) % SECTOR == 0 && Size(e) % SECTOR == 0
  }

  ghost predicate AllAligned(ext: seq<Piece>) {
    forall i :: 0 <= i < |ext| ==> Aligned(ext[i])
  }

  predicate Holds(e: Piece, a: nat) {
    Addr(e) <= a < Addr(e) + Size(e)
  }

  /** No extent holds address `a`. */
  ghost predicate Free(ext: seq<Piece>, a: nat) {
    forall i :: 0 <= i < |ext| ==> !Holds(ext[i], a)
  }

  // ------------------------------------------------------------------ reading and writing

  function Gather(dev: seq<byte>, ext: seq<Piece>): (g: seq<byte>)
    requires InDevice(ext, |dev|)
    ensures |g| == Total(ext)
  {
    if ext == [] then []
    else
      var e := ext[|ext| - 1];
      Gather(dev, ext[..|ext| - 1]) + dev[Addr(e)..Addr(e) + Size(e)]
  }

  function Scatter(dev: seq<byte>, ext: seq<Piece>, c: seq<byte>): (r: seq<byte>)
    requires InDevice(ext, |dev|) && |c| == Total(ext)
    ensures |r| == |dev|
  {
    if ext == [] then dev
    else
      var n := |ext| - 1;
      var k := Total(ext[..n]);
      Put(Scatter(dev, ext[..n], c[..k]), Addr(ext[n]), c[k..])
  }

  /** The extent that holds byte `o`, and its place in it. */
  lemma {:induction false} WhereInside(ext: seq<Piece>, o: nat) returns (i: nat)
    requires o < Total(ext)
    ensures i < |ext| && Holds(ext[i], Where(ext, o))
    ensures Total(ext[..i]) <= o < Total(ext[..i + 1]) && Where(ext, o) == Addr(ext[i]) + (o - Total(ext[..i]))
  {
    var n := |ext| - 1;
    if o < Total(ext[..n]) {
      i := WhereInside(ext[..n], o);
      assert ext[..n][..i] == ext[..i] && ext[..n][..i + 1] == ext[..i + 1];
    } else {
      i := n;
      assert ext[..n + 1] == ext;
    }
  }

  lemma {:induction false} TotalGrows(ext: seq<Piece>, i: nat, j: nat)
    requires i <= j <= |ext|
    ensures Total(ext[..i]) <= Total(ext[..j])
  {
    if i < j {
      TotalGrows(ext, i, j - 1);
      assert ext[..j][..j - 1] == ext[..j - 1];
    }
  }

  lemma {:induction false} WhereIn(ext: seq<Piece>, i: nat, k: nat)
    requires i < |ext| && k < Size(ext[i])
    ensures Total(ext[..i]) + k < Total(ext) && Where(ext, Total(ext[..i]) + k) == Addr(ext[i]) + k
  {
    var n := |ext| - 1;
    if i < n {
      WhereIn(ext[..n], i, k);
      assert ext[..n][..i] == ext[..i];
    }
  }

  /** No two bytes of the partition share an address. */
  lemma WhereInjective(ext: seq<Piece>, o: nat, p: nat)
    requires Disjoint(ext) && o < Total(ext) && p < Total(ext) && Where(ext, o) == Where(ext, p)
    ensures o == p
  {
    var i := WhereInside(ext, o);
    var j := WhereInside(ext, p);
  }

  /** Every address is a byte of the partition, or in no extent. */
  lemma Reached(ext: seq<Piece>, a: nat) returns (o: nat)
    requires !Free(ext, a)
    ensures o < Total(ext) && Where(ext, o) == a
  {
    var i :| 0 <= i < |ext| && Holds(ext[i], a);
    WhereIn(ext, i, a - Addr(ext[i]));
    o := Total(ext[..i]) + (a - Addr(ext[i]));
  }

  lemma {:induction false} GatherAt(dev: seq<byte>, ext: seq<Piece>, o: nat)
    requires InDevice(ext, |dev|) && o < Total(ext)
    ensures Where(ext, o) < |dev| && Gather(dev, ext)[o] == dev[Where(ext, o)]
  {
    var n := |ext| - 1;
    var k := Total(ext[..n]);
    if o < k {
      GatherAt(dev, ext[..n], o);
      AppendAt(Gather(dev, ext[..n]), dev[Addr(ext[n])..Addr(ext[n]) + Size(ext[n])], o);
    } else {
      AppendAt(Gather(dev, ext[..n]), dev[Addr(ext[n])..Addr(ext[n]) + Size(ext[n])], o);
      SliceAt(dev, Addr(ext[n]), Size(ext[n]), o - k);
    }
  }

  lemma AppendAt(a: seq<byte>, b: seq<byte>, i: nat)
    requires i < |a| + |b|
    ensures (a + b)[i] == if i < |a| then a[i] else b[i - |a|]
  {
  }

  lemma SliceAt(s: seq<byte>, at: nat, n: nat, i: nat)
    requires at + n <= |s| && i < n
    ensures s[at..at + n][i] == s[at + i]
  {
  }

  lemma {:induction false} ScatterFree(dev: seq<byte>, ext: seq<Piece>, c: seq<byte>, a: nat)
    requires InDevice(ext, |dev|) && |c| == Total(ext) && a < |dev| && Free(ext, a)
    ensures Scatter(dev, ext, c)[a] == dev[a]
  {
    if ext != [] {
      var n := |ext| - 1;
      ScatterFree(dev, ext[..n], c[..Total(ext[..n])], a);
      assert !Holds(ext[n], a);
    }
  }

  lemma {:induction false} ScatterAt(dev: seq<byte>, ext: seq<Piece>, c: seq<byte>, o: nat)
    requires InDevice(ext, |dev|) && Disjoint(ext) && |c| == Total(ext) && o < Total(ext)
    ensures Where(ext, o) < |dev| && Scatter(dev, ext, c)[Where(ext, o)] == c[o]
  {
    var n := |ext| - 1;
    var k := Total(ext[..n]);
    var before := Scatter(dev, ext[..n], c[..k]);
    if o < k {
      ScatterAt(dev, ext[..n], c[..k], o);
      LastMisses(ext, o);
      PutMisses(before, Addr(ext[n]), c[k..], Where(ext[..n], o));
    } else {
      PutAt(before, Addr(ext[n]), c[k..], o - k);
    }
  }

  lemma LastMisses(ext: seq<Piece>, o: nat)
    requires Disjoint(ext) && ext != [] && o < Total(ext[..|ext| - 1])
    ensures !Holds(ext[|ext| - 1], Where(ext[..|ext| - 1], o))
  {
    var i := WhereInside(ext[..|ext| - 1], o);
    assert Apart(ext[i], ext[|ext| - 1]);
  }

  lemma PutMisses(s: seq<byte>, at: nat, b: seq<byte>, i: nat)
    requires at + |b| <= |s| && i < |s| && !(at <= i < at + |b|)
    ensures Put(s, at, b)[i] == s[i]
  {
  }

  lemma PutAt(s: seq<byte>, at: nat, b: seq<byte>, i: nat)
    requires at + |b| <= |s| && i < |b|
    ensures Put(s, at, b)[at + i] == b[i]
  {
  }

  /** Reading back what was written. */
  lemma GatherScatter(dev: seq<byte>, ext: seq<Piece>, c: seq<byte>)
    requires InDevice(ext, |dev|) && Disjoint(ext) && |c| == Total(ext)
    ensures Gather(Scatter(dev, ext, c), ext) == c
  {
    forall o | 0 <= o < |c| ensures Gather(Scatter(dev, ext, c), ext)[o] == c[o] {
      GatherAt(Scatter(dev, ext, c), ext, o);
      ScatterAt(dev, ext, c, o);
    }
  }

  /** `d` is `dev` with the partition holding `c`. */
  ghost predicate Carries(d: seq<byte>, dev: seq<byte>, ext: seq<Piece>, c: seq<byte>) {
    && |d| == |dev| && |c| == Total(ext) && InDevice(ext, |dev|)
    && (forall a :: 0 <= a < |dev| && Free(ext, a) ==> d[a] == dev[a])
    && (forall o :: 0 <= o < |c| ==> Where(ext, o) < |d| && d[Where(ext, o)] == c[o])
  }

  /** What a partition holds and what lies around it determine the device. */
  lemma CarriesIsScatter(d: seq<byte>, dev: seq<byte>, ext: seq<Piece>, c: seq<byte>)
    requires InDevice(ext, |dev|) && Disjoint(ext) && Carries(d, dev, ext, c)
    ensures d == Scatter(dev, ext, c)
  {
    var s := Scatter(dev, ext, c);
    forall a | 0 <= a < |d| ensures d[a] == s[a] {
      if Free(ext, a) {
        ScatterFree(dev, ext, c, a);
      } else {
        var o := Reached(ext, a);
        ScatterAt(dev, ext, c, o);
      }
    }
  }

  lemma ScatterSelf(dev: seq<byte>, ext: seq<Piece>)
    requires InDevice(ext, |dev|) && Disjoint(ext)
    ensures Scatter(dev, ext, Gather(dev, ext)) == dev
  {
    forall o | 0 <= o < Total(ext) ensures Where(ext, o) < |dev| && dev[Where(ext, o)] == Gather(dev, ext)[o] {
      GatherAt(dev, ext, o);
    }
    CarriesIsScatter(dev, dev, ext, Gather(dev, ext));
  }

  /** Bytes o .. o+n of the partition are contiguous on the device. */
  ghost predicate Contiguous(ext: seq<Piece>, o: nat, n: nat) {
    o + n <= Total(ext) && (n > 0 ==> o < Total(ext)) &&
    forall p :: o <= p < o + n ==> Where(ext, p) == Where(ext, o) + (p - o)
  }

  /** Writing a contiguous range of the partition in one go changes that range of its contents. */
  lemma ScatterUpdate(dev: seq<byte>, ext: seq<Piece>, c: seq<byte>, o: nat, b: seq<byte>)
    requires InDevice(ext, |dev|) && Disjoint(ext) && |c| == Total(ext)
    requires 0 < |b| && Contiguous(ext, o, |b|)
    ensures Where(ext, o) + |b| <= |dev|
    ensures Put(Scatter(dev, ext, c), Where(ext, o), b) == Scatter(dev, ext, Put(c, o, b))
  {
    var last := WhereInside(ext, o + |b| - 1);
    var d, c' := Put(Scatter(dev, ext, c), Where(ext, o), b), Put(c, o, b);
    forall a | 0 <= a < |dev| && Free(ext, a) ensures d[a] == dev[a] {
      UpdateFree(dev, ext, c, o, b, a);
    }
    forall p | 0 <= p < |c'| ensures Where(ext, p) < |d| && d[Where(ext, p)] == c'[p] {
      UpdateAt(dev, ext, c, o, b, p);
    }
    CarriesIsScatter(d, dev, ext, c');
  }

  lemma UpdateFree(dev: seq<byte>, ext: seq<Piece>, c: seq<byte>, o: nat, b: seq<byte>, a: nat)
    requires InDevice(ext, |dev|) && |c| == Total(ext) && a < |dev| && Free(ext, a)
    requires 0 < |b| && Contiguous(ext, o, |b|) && Where(ext, o) + |b| <= |dev|
    ensures Put(Scatter(dev, ext, c), Where(ext, o), b)[a] == dev[a]
  {
    ScatterFree(dev, ext, c, a);
    if Where(ext, o) <= a < Where(ext, o) + |b| {
      var i := WhereInside(ext, o + (a - Where(ext, o)));
    }
  }

  lemma UpdateAt(dev: seq<byte>, ext: seq<Piece>, c: seq<byte>, o: nat, b: seq<byte>, p: nat)
    requires InDevice(ext, |dev|) && Disjoint(ext) && |c| == Total(ext) && p < |c|
    requires 0 < |b| && Contiguous(ext, o, |b|) && Where(ext, o) + |b| <= |dev|
    ensures Where(ext, p) < |dev| && Put(Scatter(dev, ext, c), Where(ext, o), b)[Where(ext, p)] == Put(c, o, b)[p]
  {
    ScatterAt(dev, ext, c, p);
    if o <= p < o + |b| {
      PutAt(Scatter(dev, ext, c), Where(ext, o), b, p - o);
      PutAt(c, o, b, p - o);
    } else {
      UpdateMisses(ext, o, |b|, p);
    }
  }

  lemma UpdateMisses(ext: seq<Piece>, o: nat, n: nat, p: nat)
    requires Disjoint(ext) && 0 < n && Contiguous(ext, o, n) && p < Total(ext) && !(o <= p < o + n)
    ensures !(Where(ext, o) <= Where(ext, p) < Where(ext, o) + n)
  {
    if Where(ext, o) <= Where(ext, p) < Where(ext, o) + n {
      WhereInjective(ext, p, o + (Where(ext, p) - Where(ext, o)));
    }
  }
}
