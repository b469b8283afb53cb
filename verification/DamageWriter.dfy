/** SurfaceFlinger's side of the damage mapping (patch 0002): the initialiser and
    publishEpdcDamage.  The region and its bounds are given in output space. */
module DamageWriter {
  import opened Common
  import opened Seqlock

  /** A dirty region: the rectangles it iterates over and its bounding box. */
  datatype Region = Region(rects: seq<Rect>, bounds: Rect)

  predicate Within(r: Rect, b: Rect) {
    b.left <= r.left && b.top <= r.top && r.right <= b.right && r.bottom <= b.bottom
  }

  ghost predicate Bounded(d: Region) {
    forall i :: 0 <= i < |d.rects| ==> Within(d.rects[i], d.bounds)
  }

  ghost predicate Dirty(d: Region, x: int, y: int) {
    exists i :: 0 <= i < |d.rects| && Contains(d.rects[i], x, y)
  }

  /** A reader that follows publication `p` refreshes pixel (x, y). */
  ghost predicate Asks(p: Publication, x: int, y: int) {
    p.full != 0 || p.rects == [] || exists i :: 0 <= i < |p.rects| && Contains(p.rects[i], x, y)
  }

  function Merged(d: Region, forceFull: bool): Publication {
    var rects := if forceFull || d.rects == [] then []
                 else if |d.rects| <= DAMAGE_MAX then d.rects
                 else [d.bounds];
    Publication(rects, if forceFull || rects == [] then 1 else 0)
  }

  /** No dirty pixel is dropped, however many rectangles the region has; and a region of one
      to eight rectangles asks for its own pixels only. */
  lemma MergedCoverage(d: Region, forceFull: bool, x: int, y: int)
    requires Bounded(d)
    ensures Publishable(Merged(d, forceFull))
    ensures Dirty(d, x, y) ==> Asks(Merged(d, forceFull), x, y)
    ensures !forceFull && 0 < |d.rects| <= DAMAGE_MAX ==> (Asks(Merged(d, forceFull), x, y) <==> Dirty(d, x, y))
  {
    var p := Merged(d, forceFull);
    if Dirty(d, x, y) && p.full == 0 {
      var i :| 0 <= i < |d.rects| && Contains(d.rects[i], x, y);
      if |d.rects| <= DAMAGE_MAX {
        assert Contains(p.rects[i], x, y);
      } else {
        assert Within(d.rects[i], d.bounds);
        assert Contains(p.rects[0], x, y);
      }
    }
  }

  /** What a publication asks for, in terms of the region alone: everything exactly when forced or
      empty, the region's own pixels for up to eight rectangles, the bounding box for more. */
  lemma MergedExactly(d: Region, forceFull: bool, x: int, y: int)
    ensures var p := Merged(d, forceFull);
            && (p.full != 0 <==> forceFull || d.rects == []) && (p.full != 0 ==> p.full == 1 && p.rects == [])
            && (Asks(p, x, y) <==> forceFull || d.rects == [] || (if |d.rects| <= 8 then Dirty(d, x, y) else Contains(d.bounds, x, y)))
            && (!forceFull && |d.rects| > 8 ==> p.full == 0 && p.rects == [d.bounds])
            && (!forceFull && |d.rects| <= 8 ==> p.rects == d.rects)
  {
    if !forceFull && |d.rects| > 8 {
      assert Contains(Merged(d, forceFull).rects[0], x, y) <==> Contains(d.bounds, x, y);
    }
  }

  lemma SeqTwice(word: int)
    ensures ((word + 1) % U32 + 1) % U32 == (word + 2) % U32
  {
  }

  lemma LogAppend(pubs: seq<Publication>, p: Publication)
    ensures Log(pubs + [p]) == Log(pubs) + PublicationStores(SeqWord(|pubs| + 1), p)
  {
    assert (pubs + [p])[..|pubs|] == pubs;
  }

  class DamageWriter {
    /** Every word store this writer has made to the mapping, oldest first. */
    var log: seq<Store>
    ghost var pubs: seq<Publication>

    ghost predicate Valid() reads this {
      log == Log(pubs) && forall i :: 0 <= i < |pubs| ==> Publishable(pubs[i])
    }

    constructor ()
      ensures Valid() && pubs == []
    {
      log := [Store(Count, 0), Store(Full, 1), Store(Version, DAMAGE_VERSION),
              Store(Seq, 2), Store(Magic, DAMAGE_MAGIC)];
      pubs := [];
    }

    method Put(w: Word, v: int)
      modifies this`log
      ensures log == old(log) + [Store(w, v)]
    {
      log := log + [Store(w, v)];
    }

    /** The first half of publishEpdcDamage: at most eight rectangles in a local array. */
    method Merge(damage: Region, forceFull: bool) returns (rects: array<Rect>, n: nat)
      ensures fresh(rects) && n <= rects.Length == DAMAGE_MAX
      ensures rects[..n] == Merged(damage, forceFull).rects
      ensures rects[..n] == if forceFull then [] else if |damage.rects| <= 8 then damage.rects else [damage.bounds]
    {
      n := 0;
      rects := new Rect[DAMAGE_MAX];
      if !forceFull {
        var total := |damage.rects|;
        if 0 < total <= DAMAGE_MAX {
          while n < total && n < DAMAGE_MAX
            invariant 0 <= n <= total
            invariant rects[..n] == damage.rects[..n]
          {
            rects[n] := damage.rects[n];
            n := n + 1;
          }
        } else if total > DAMAGE_MAX {
          rects[0] := damage.bounds;
          n := 1;
        }
      }
    }

    method PutRects(rects: array<Rect>, n: nat)
      requires n <= rects.Length
      modifies this`log
      ensures log == old(log) + RectStores(rects[..n])
    {
      for i := 0 to n
        invariant log == old(log) + RectStores(rects[..i])
      {
        Put(Side(i, 0), rects[i].left);
        Put(Side(i, 1), rects[i].top);
        Put(Side(i, 2), rects[i].right);
        Put(Side(i, 3), rects[i].bottom);
        assert rects[..i + 1][..i] == rects[..i];
      }
    }

    /** The second half: the stores themselves, the odd sequence number first and the even one
        last. */
    method Announce(rects: array<Rect>, n: nat, full: int)
      requires n <= rects.Length
      modifies this`log
      ensures log == old(log) + PublicationStores(Load(old(log), Seq), Publication(rects[..n], full))
    {
      SeqTwice(Load(log, Seq));
      var s := (Load(log, Seq) + 1) % U32;
      Put(Seq, s);
      Put(Count, n);
      Put(Full, full);
      PutRects(rects, n);
      Put(Seq, (s + 1) % U32);
    }

    /** Publishing extends the log by exactly the stores of one merged publication. */
    method Publish(damage: Region, forceFull: bool)
      requires Valid()
      modifies this
      ensures Valid()
      ensures pubs == old(pubs) + [Merged(damage, forceFull)]
      ensures var p := pubs[|old(pubs)|];
              && p.rects == (if forceFull then [] else if |damage.rects| <= 8 then damage.rects else [damage.bounds])
              && p.full == if forceFull || damage.rects == [] then 1 else 0
    {
      var rects, n := Merge(damage, forceFull);
      SeqNow();
      Announce(rects, n, if forceFull || n == 0 then 1 else 0);
      LogAppend(pubs, Merged(damage, forceFull));
      pubs := pubs + [Merged(damage, forceFull)];
    }

    /** Between publications the sequence word is even and numbers the last one. */
    lemma SeqNow()
      requires Valid()
      ensures Load(log, Seq) == SeqWord(|pubs| + 1)
    {
      PhaseInvariant(pubs, |log|);
      assert log[..|log|] == log;
      PhaseAtRest(pubs);
    }
  }
}
