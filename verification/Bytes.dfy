/** Byte strings as the scripts use them: little-endian fields, Python slices, concatenations
    of equal-sized entries, and overwriting in place. */
module Bytes {
  import opened Common

  type byte = b: int | 0 <= b < 256

  function Zeros(n: nat): (z: seq<byte>)
    ensures |z| == n && forall i :: 0 <= i < n ==> z[i] == 0
  {
    seq(n, _ => 0)
  }

  function Ascii(s: string): seq<byte> {
    seq(|s|, i requires 0 <= i < |s| => if s[i] as int < 128 then s[i] as int else 63)
  }

  /** Python's s[lo:hi] for lo, hi >= 0: both ends are cut off at the length. */
  function Slice<T>(s: seq<T>, lo: nat, hi: nat): seq<T> {
    if lo >= |s| || hi <= lo then [] else s[lo..Min(hi, |s|)]
  }

  // ------------------------------------------------------------------ little-endian fields

  function Le(s: seq<byte>): nat {
    if s == [] then 0 else s[0] + 256 * Le(s[1..])
  }

  function ToLe(v: nat, n: nat): (s: seq<byte>)
    ensures |s| == n
  {
    if n == 0 then [] else [v % 256] + ToLe(v / 256, n - 1)
  }

  function Pow256(n: nat): nat {
    if n == 0 then 1 else 256 * Pow256(n - 1)
  }

  lemma {:induction false} LeToLe(v: nat, n: nat)
    requires v < Pow256(n)
    ensures Le(ToLe(v, n)) == v
  {
    if n > 0 {
      LeToLe(v / 256, n - 1);
      assert ToLe(v, n)[1..] == ToLe(v / 256, n - 1);
    }
  }

  lemma {:induction false} ToLeLe(s: seq<byte>)
    ensures ToLe(Le(s), |s|) == s && Le(s) < Pow256(|s|)
  {
    if s != [] {
      ToLeLe(s[1..]);
    }
  }

  /** struct.unpack_from("<I", s, off) and "<Q". */
  function Get32(s: seq<byte>, off: nat): nat
    requires off + 4 <= |s|
  {
    Le(s[off..off + 4])
  }

  function Get64(s: seq<byte>, off: nat): nat
    requires off + 8 <= |s|
  {
    Le(s[off..off + 8])
  }

  lemma Pow256Values()
    ensures Pow256(4) == U32 && Pow256(8) == U64
  {
    assert Pow256(2) == U16;
    assert Pow256(4) == 256 * (256 * Pow256(2));
    assert Pow256(6) == 256 * (256 * Pow256(4));
    assert Pow256(8) == 256 * (256 * Pow256(6));
  }

  lemma GetRange(s: seq<byte>, off: nat)
    ensures off + 4 <= |s| ==> Get32(s, off) < U32
    ensures off + 8 <= |s| ==> Get64(s, off) < U64
  {
    Pow256Values();
    if off + 4 <= |s| { ToLeLe(s[off..off + 4]); }
    if off + 8 <= |s| { ToLeLe(s[off..off + 8]); }
  }

  lemma SubSlice<T>(s: seq<T>, at: nat, n: nat, i: nat, j: nat)
    requires i <= j <= n && at + n <= |s|
    ensures s[at..at + n][i..j] == s[at + i..at + j]
  {
    var a, b := s[at..at + n][i..j], s[at + i..at + j];
    assert |a| == |b|;
    assert forall k :: 0 <= k < |a| ==> a[k] == s[at + i + k] == b[k];
  }

  /** A field inside a common prefix reads the same. */
  lemma Get32Same(a: seq<byte>, b: seq<byte>, n: nat, off: nat)
    requires n <= |a| && n <= |b| && a[..n] == b[..n] && off + 4 <= n
    ensures Get32(a, off) == Get32(b, off)
  {
    assert a[off..off + 4] == a[..n][off..off + 4] == b[..n][off..off + 4] == b[off..off + 4];
  }

  // ------------------------------------------------------------------ overwriting

  /** s with `b` written over it at `off`. */
  function Put(s: seq<byte>, off: nat, b: seq<byte>): (r: seq<byte>)
    requires off + |b| <= |s|
    ensures |r| == |s|
    ensures r[off..off + |b|] == b
    ensures forall i :: 0 <= i < off || off + |b| <= i < |s| ==> r[i] == s[i]
  {
    s[..off] + b + s[off + |b|..]
  }

  function Put32(s: seq<byte>, off: nat, v: nat): (r: seq<byte>)
    requires off + 4 <= |s|
    ensures |r| == |s|
  {
    Put(s, off, ToLe(v, 4))
  }

  lemma Put32Get(s: seq<byte>, off: nat, v: nat)
    requires off + 4 <= |s| && v < U32
    ensures Get32(Put32(s, off, v), off) == v
  {
    Pow256Values();
    LeToLe(v, 4);
  }

  /** A field that does not meet the overwritten range is unchanged. */
  lemma PutElsewhere(s: seq<byte>, off: nat, b: seq<byte>, lo: nat, hi: nat)
    requires off + |b| <= |s| && lo <= hi <= |s| && (hi <= off || off + |b| <= lo)
    ensures Put(s, off, b)[lo..hi] == s[lo..hi]
  {
  }

  /** Overwriting an array. */
  method Store(d: array<byte>, at: nat, b: seq<byte>)
    requires at + |b| <= d.Length
    modifies d
    ensures d[..] == Put(old(d[..]), at, b)
  {
    ghost var was := d[..];
    for i := 0 to |b|
      invariant d[..] == Put(was, at, b[..i])
    {
      d[at + i] := b[i];
      assert Put(was, at, b[..i])[at + i := b[i]] == Put(was, at, b[..i + 1]);
    }
    assert b[..|b|] == b;
  }

  lemma Assoc(a: seq<byte>, b: seq<byte>, c: seq<byte>)
    ensures a + (b + c) == a + b + c
  {
  }

  // ------------------------------------------------------------------ tables of entries

  /** The size of `n` entries of `sz` bytes: n * sz, kept as repeated addition. */
  function Span(n: nat, sz: nat): nat {
    if n == 0 then 0 else Span(n - 1, sz) + sz
  }

  lemma {:induction false} SpanIsProduct(n: nat, sz: nat)
    ensures Span(n, sz) == n * sz
  {
    if n > 0 {
      SpanIsProduct(n - 1, sz);
    }
  }

  lemma {:induction false} SpanGrows(k: nat, n: nat, sz: nat)
    requires k <= n
    ensures Span(k, sz) <= Span(n, sz)
  {
    if k < n {
      SpanGrows(k, n - 1, sz);
    }
  }

  function Concat(chunks: seq<seq<byte>>): seq<byte> {
    if chunks == [] then [] else Concat(chunks[..|chunks| - 1]) + chunks[|chunks| - 1]
  }

  ghost predicate AllSized(chunks: seq<seq<byte>>, sz: nat) {
    forall i :: 0 <= i < |chunks| ==> |chunks[i]| == sz
  }

  /** Entry `i` of a table of `sz`-byte entries at `start`. */
  function Entry(d: seq<byte>, start: nat, sz: nat, i: nat): seq<byte> {
    Slice(d, start + Span(i, sz), start + Span(i + 1, sz))
  }

  function Entries(d: seq<byte>, start: nat, num: nat, sz: nat): (e: seq<seq<byte>>)
    ensures |e| == num
  {
    if num == 0 then [] else Entries(d, start, num - 1, sz) + [Entry(d, start, sz, num - 1)]
  }

  lemma {:induction false} EntryAt(d: seq<byte>, start: nat, num: nat, sz: nat, i: nat)
    requires i < num
    ensures Entries(d, start, num, sz)[i] == Entry(d, start, sz, i)
  {
    if i < num - 1 {
      EntryAt(d, start, num - 1, sz, i);
    }
  }

  lemma {:induction false} ConcatLength(chunks: seq<seq<byte>>, sz: nat)
    requires AllSized(chunks, sz)
    ensures |Concat(chunks)| == Span(|chunks|, sz)
  {
    if chunks != [] {
      ConcatLength(chunks[..|chunks| - 1], sz);
    }
  }

  lemma {:induction false} ConcatEntry(chunks: seq<seq<byte>>, sz: nat, i: nat)
    requires AllSized(chunks, sz) && i < |chunks|
    ensures Span(i, sz) <= Span(i + 1, sz) <= |Concat(chunks)|
    ensures Concat(chunks)[Span(i, sz)..Span(i + 1, sz)] == chunks[i]
  {
    var n := |chunks| - 1;
    ConcatLength(chunks, sz);
    ConcatLength(chunks[..n], sz);
    SpanGrows(i + 1, |chunks|, sz);
    if i < n {
      ConcatEntry(chunks[..n], sz, i);
      assert Concat(chunks)[Span(i, sz)..Span(i + 1, sz)] == Concat(chunks[..n])[Span(i, sz)..Span(i + 1, sz)];
    }
  }

  /** Reading a table back where its entries were written one after the other. */
  lemma TableReadBack(d: seq<byte>, start: nat, chunks: seq<seq<byte>>, sz: nat)
    requires AllSized(chunks, sz)
    requires start + |Concat(chunks)| <= |d| && d[start..start + |Concat(chunks)|] == Concat(chunks)
    ensures Entries(d, start, |chunks|, sz) == chunks
  {
    forall i | 0 <= i < |chunks| ensures Entries(d, start, |chunks|, sz)[i] == chunks[i] {
      EntryAt(d, start, |chunks|, sz, i);
      ConcatEntry(chunks, sz, i);
      SubSlice(d, start, |Concat(chunks)|, Span(i, sz), Span(i + 1, sz));
    }
  }

  /** Entries of a table that lies inside the data have their full size. */
  lemma TableSized(d: seq<byte>, start: nat, num: nat, sz: nat)
    requires start + Span(num, sz) <= |d|
    ensures AllSized(Entries(d, start, num, sz), sz)
  {
    forall i | 0 <= i < num ensures |Entries(d, start, num, sz)[i]| == sz {
      EntryAt(d, start, num, sz, i);
      SpanGrows(i + 1, num, sz);
    }
  }

  /** A table that lies inside the data is the concatenation of its entries. */
  lemma {:induction false} TableConcat(d: seq<byte>, start: nat, num: nat, sz: nat)
    requires start + Span(num, sz) <= |d|
    ensures Concat(Entries(d, start, num, sz)) == d[start..start + Span(num, sz)]
  {
    if num > 0 {
      var before := Entries(d, start, num - 1, sz);
      TableConcat(d, start, num - 1, sz);
      ConcatNext(d, start, start + Span(num - 1, sz), start + Span(num, sz), before);
    }
  }

  lemma ConcatNext(d: seq<byte>, lo: nat, mid: nat, hi: nat, before: seq<seq<byte>>)
    requires lo <= mid <= hi <= |d| && Concat(before) == d[lo..mid]
    ensures Concat(before + [Slice(d, mid, hi)]) == d[lo..hi]
  {
    ConcatSnoc(before, Slice(d, mid, hi));
    SliceSplit(d, lo, mid, hi);
  }

  lemma ConcatSnoc(chunks: seq<seq<byte>>, last: seq<byte>)
    ensures Concat(chunks + [last]) == Concat(chunks) + last
  {
    assert (chunks + [last])[..|chunks|] == chunks;
  }

  lemma SliceSplit(d: seq<byte>, lo: nat, mid: nat, hi: nat)
    requires lo <= mid <= hi <= |d|
    ensures d[lo..hi] == d[lo..mid] + d[mid..hi]
    ensures Slice(d, mid, hi) == d[mid..hi]
  {
  }
}
