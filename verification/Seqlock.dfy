/** The shared damage mapping of src/epdc_damage.h: its types, the word stores SurfaceFlinger
    makes, and what a reader sees that loads one word at a time between those stores.

    Memory is sequentially consistent: SurfaceFlinger is the only writer, so the mapping is
    the log of its word stores, and a load at time `t` returns the newest store to that word
    among the first `t`.  Any interleaving of writer and reader is a choice of load times. */
module Seqlock {
  import opened Common

  const DAMAGE_MAX := 8
  const DAMAGE_MAGIC := 0x43504445
  const DAMAGE_VERSION := 1
  /** Number of publications after which the 32-bit sequence word repeats. */
  const SEQ_PERIOD := 0x8000_0000

  datatype Rect = Rect(left: int, top: int, right: int, bottom: int)

  predicate Contains(r: Rect, x: int, y: int) {
    r.left <= x < r.right && r.top <= y < r.bottom
  }

  datatype Word = Magic | Version | Seq | Count | Full | Side(rect: nat, side: nat)

  datatype Store = Store(word: Word, value: int)

  /** What one publication says: `count` is |rects|. */
  datatype Publication = Publication(rects: seq<Rect>, full: int)

  ghost predicate Publishable(p: Publication) {
    |p.rects| <= DAMAGE_MAX
  }

  /** What the initialiser of the mapping publishes: ask for one full pass. */
  const INITIAL := Publication([], 1)

  function SideOf(r: Rect, side: nat): int {
    if side == 0 then r.left else if side == 1 then r.top else if side == 2 then r.right else r.bottom
  }

  // ---------------------------------------------------------------- the writer's stores

  const INIT_STORES := [Store(Count, 0), Store(Full, 1), Store(Version, DAMAGE_VERSION),
                        Store(Seq, 2), Store(Magic, DAMAGE_MAGIC)]

  function RectStores(rects: seq<Rect>): (s: seq<Store>)
    ensures |s| == 4 * |rects|
  {
    if rects == [] then []
    else
      var n := |rects| - 1;
      RectStores(rects[..n]) + [Store(Side(n, 0), rects[n].left), Store(Side(n, 1), rects[n].top),
                                Store(Side(n, 2), rects[n].right), Store(Side(n, 3), rects[n].bottom)]
  }

  /** The stores of one publication made when the sequence word holds `seq`. */
  function PublicationStores(word: int, p: Publication): (s: seq<Store>) {
    [Store(Seq, (word + 1) % U32), Store(Count, |p.rects|), Store(Full, p.full)]
    + RectStores(p.rects) + [Store(Seq, (word + 2) % U32)]
  }

  /** The sequence word after `k` publications. */
  function SeqWord(k: nat): int {
    2 * k % U32
  }

  /** The whole log of a writer that initialised the mapping and then made `pubs`. */
  function Log(pubs: seq<Publication>): seq<Store> {
    if pubs == [] then INIT_STORES
    else
      var n := |pubs| - 1;
      Log(pubs[..n]) + PublicationStores(SeqWord(|pubs|), pubs[n])
  }

  /** Publication number `k`, counting the initialisation as number 1. */
  function Numbered(pubs: seq<Publication>, k: nat): Publication
    requires 1 <= k <= |pubs| + 1
  {
    if k == 1 then INITIAL else pubs[k - 2]
  }

  // ---------------------------------------------------------------- loads

  /** The newest value stored to `w`; a fresh mapping reads as zero. */
  function Load(log: seq<Store>, w: Word): int {
    if log == [] then 0
    else if log[|log| - 1].word == w then log[|log| - 1].value
    else Load(log[..|log| - 1], w)
  }

  ghost predicate Stores(log: seq<Store>, w: Word) {
    exists i :: 0 <= i < |log| && log[i].word == w
  }

  lemma {:induction false} LoadConcat(a: seq<Store>, b: seq<Store>, w: Word)
    ensures Load(a + b, w) == if Stores(b, w) then Load(b, w) else Load(a, w)
  {
    if b == [] {
      assert a + b == a;
    } else {
      var n := |b| - 1;
      assert (a + b)[..|a + b| - 1] == a + b[..n];
      LoadConcat(a, b[..n], w);
      assert Stores(b, w) <==> Stores(b[..n], w) || b[n].word == w by {
        if Stores(b[..n], w) {
          var i :| 0 <= i < n && b[..n][i].word == w;
          assert b[i].word == w;
        }
        if Stores(b, w) && b[n].word != w {
          var i :| 0 <= i < |b| && b[i].word == w;
          assert b[..n][i].word == w;
        }
      }
    }
  }

  /** The newest store to a word decides what is loaded. */
  lemma {:induction false} LoadNewest(log: seq<Store>, i: nat)
    requires i < |log|
    requires forall j :: i < j < |log| ==> log[j].word != log[i].word
    ensures Load(log, log[i].word) == log[i].value
  {
    if i < |log| - 1 {
      LoadNewest(log[..|log| - 1], i);
    }
  }

  lemma {:induction false} LoadAbsent(log: seq<Store>, w: Word)
    requires !Stores(log, w)
    ensures Load(log, w) == 0
  {
    if log != [] {
      assert log[|log| - 1].word != w;
      LoadAbsent(log[..|log| - 1], w);
    }
  }

  lemma {:induction false} RectStoresOnlySides(rects: seq<Rect>)
    ensures forall i :: 0 <= i < |RectStores(rects)| ==> RectStores(rects)[i].word.Side?
  {
    if rects != [] {
      RectStoresOnlySides(rects[..|rects| - 1]);
    }
  }

  lemma {:induction false} LoadRectStores(rects: seq<Rect>, i: nat, side: nat)
    requires i < |rects| && side < 4
    ensures Stores(RectStores(rects), Side(i, side))
    ensures Load(RectStores(rects), Side(i, side)) == SideOf(rects[i], side)
  {
    var n := |rects| - 1;
    var head := RectStores(rects[..n]);
    var last := [Store(Side(n, 0), rects[n].left), Store(Side(n, 1), rects[n].top),
                 Store(Side(n, 2), rects[n].right), Store(Side(n, 3), rects[n].bottom)];
    LoadConcat(head, last, Side(i, side));
    if i == n {
      assert last[side].word == Side(i, side);
      assert (head + last)[|head| + side].word == Side(i, side);
      LoadNewest(last, side);
    } else {
      LoadRectStores(rects[..n], i, side);
      var j :| 0 <= j < |head| && head[j].word == Side(i, side);
      assert (head + last)[j].word == Side(i, side);
      assert !Stores(last, Side(i, side));
    }
  }

  // ---------------------------------------------------------------- phases

  /** The unbounded sequence number after the first `t` stores: twice the number of
      publications completed, plus one while another is being written. */
  function Phase(pubs: seq<Publication>, t: nat): nat
    requires t <= |Log(pubs)|
  {
    if pubs == [] then if t < 4 then 0 else 2
    else
      var before := pubs[..|pubs| - 1];
      if t <= |Log(before)| then Phase(before, t)
      else if t < |Log(pubs)| then 2 * |pubs| + 1
      else 2 * (|pubs| + 1)
  }

  /** The data words at time `t` are exactly publication `p`. */
  ghost predicate Shows(log: seq<Store>, p: Publication) {
    && Load(log, Count) == |p.rects|
    && Load(log, Full) == p.full
    && forall i: nat, side: nat :: i < |p.rects| && side < 4 ==>
         Load(log, Side(i, side)) == SideOf(p.rects[i], side)
  }

  lemma {:induction false} PhaseBounds(pubs: seq<Publication>, t: nat)
    requires t <= |Log(pubs)|
    ensures Phase(pubs, t) <= 2 * (|pubs| + 1)
    ensures 4 <= t ==> 2 <= Phase(pubs, t)
  {
    if pubs != [] {
      var before := pubs[..|pubs| - 1];
      if t <= |Log(before)| {
        PhaseBounds(before, t);
      }
    }
  }

  /** When every store of a publication has been made, that publication is complete. */
  lemma PhaseAtRest(pubs: seq<Publication>)
    ensures Phase(pubs, |Log(pubs)|) == 2 * (|pubs| + 1)
  {
    if pubs != [] {
      assert |Log(pubs[..|pubs| - 1])| < |Log(pubs)|;
    }
  }

  /** The sequence number never goes back. */
  lemma {:induction false} PhaseMonotone(pubs: seq<Publication>, t: nat, u: nat)
    requires t <= u <= |Log(pubs)|
    ensures Phase(pubs, t) <= Phase(pubs, u)
  {
    if pubs != [] {
      var before := pubs[..|pubs| - 1];
      if u <= |Log(before)| {
        PhaseMonotone(before, t, u);
      } else if t <= |Log(before)| {
        PhaseBounds(before, t);
      }
    }
  }

  lemma PublicationWords(head: seq<Store>, word: int, p: Publication, t: nat)
    requires 0 < t <= |PublicationStores(word, p)|
    ensures var log := head + PublicationStores(word, p)[..t];
            && Load(log, Seq) == (if t < |PublicationStores(word, p)| then word + 1 else word + 2) % U32
            && Load(log, Magic) == Load(head, Magic)
            && Load(log, Version) == Load(head, Version)
  {
    var stores := PublicationStores(word, p);
    var block := stores[..t];
    RectStoresOnlySides(p.rects);
    LoadConcat(head, block, Magic);
    LoadConcat(head, block, Version);
    LoadConcat(head, block, Seq);
    if t < |stores| {
      assert block[0] == Store(Seq, (word + 1) % U32);
      LoadNewest(block, 0);
    } else {
      assert block[t - 1] == Store(Seq, (word + 2) % U32);
      LoadNewest(block, t - 1);
    }
  }

  lemma PublicationShows(head: seq<Store>, word: int, p: Publication)
    ensures Shows(head + PublicationStores(word, p), p)
  {
    var stores := PublicationStores(word, p);
    var sides := RectStores(p.rects);
    RectStoresOnlySides(p.rects);
    assert stores[1].word == Count && stores[2].word == Full;
    LoadNewest(stores, 1);
    LoadNewest(stores, 2);
    LoadConcat(head, stores, Count);
    LoadConcat(head, stores, Full);
    var front := [Store(Seq, (word + 1) % U32), Store(Count, |p.rects|), Store(Full, p.full)];
    var close := [Store(Seq, (word + 2) % U32)];
    forall i: nat, side: nat | i < |p.rects| && side < 4
      ensures Load(head + stores, Side(i, side)) == SideOf(p.rects[i], side)
    {
      LoadRectStores(p.rects, i, side);
      var j :| 0 <= j < |sides| && sides[j].word == Side(i, side);
      assert stores[|front| + j].word == Side(i, side);
      assert stores == (front + sides) + close;
      LoadConcat(front, sides, Side(i, side));
      LoadConcat(front + sides, close, Side(i, side));
      LoadConcat(head, stores, Side(i, side));
    }
  }

  lemma InitWords(t: nat)
    requires t <= |INIT_STORES|
    ensures Load(INIT_STORES[..t], Seq) == if t < 4 then 0 else 2
    ensures Load(INIT_STORES[..t], Magic) == DAMAGE_MAGIC ==> t == 5
    ensures 4 <= t ==> Shows(INIT_STORES[..t], INITIAL) && Load(INIT_STORES[..t], Version) == DAMAGE_VERSION
  {
    var s := INIT_STORES[..t];
    if t < 4 {
      LoadAbsent(s, Seq);
    }
    if t < 5 {
      LoadAbsent(s, Magic);
    } else {
      LoadNewest(s, 4);
    }
    if 4 <= t {
      LoadNewest(s, 3);
      LoadNewest(s, 2);
      LoadNewest(s, 1);
      LoadNewest(s, 0);
    }
  }

  /** At every moment of the writer's life: the sequence word is the phase modulo 2^32, and
      whenever it is even the data words are exactly the publication it numbers. */
  lemma {:induction false} PhaseInvariant(pubs: seq<Publication>, t: nat)
    requires t <= |Log(pubs)|
    ensures InPhase(pubs, Phase(pubs, t), Log(pubs)[..t])
  {
    if pubs == [] {
      InitWords(t);
    } else {
      var before := pubs[..|pubs| - 1];
      if t <= |Log(before)| {
        PhaseInvariant(before, t);
        assert Log(pubs)[..t] == Log(before)[..t];
        InPhaseExtends(pubs, Phase(before, t), Log(before)[..t]);
      } else {
        PhaseOfLast(pubs, t);
      }
    }
  }

  ghost predicate InPhase(pubs: seq<Publication>, g: nat, log: seq<Store>) {
    && g <= 2 * (|pubs| + 1)
    && Load(log, Seq) == g % U32
    && (2 <= g && g % 2 == 0 ==> Shows(log, Numbered(pubs, g / 2)))
    && (Load(log, Magic) == DAMAGE_MAGIC ==> 2 <= g && Load(log, Version) == DAMAGE_VERSION)
  }

  lemma InPhaseExtends(pubs: seq<Publication>, g: nat, log: seq<Store>)
    requires pubs != [] && InPhase(pubs[..|pubs| - 1], g, log)
    ensures InPhase(pubs, g, log)
  {
    if 4 <= g && g % 2 == 0 {
      assert Numbered(pubs, g / 2) == Numbered(pubs[..|pubs| - 1], g / 2);
    }
  }

  lemma PhaseOfLast(pubs: seq<Publication>, t: nat)
    requires pubs != [] && |Log(pubs[..|pubs| - 1])| < t <= |Log(pubs)|
    ensures InPhase(pubs, Phase(pubs, t), Log(pubs)[..t])
  {
    var n := |pubs| - 1;
    var head := Log(pubs[..n]);
    var stores := PublicationStores(SeqWord(|pubs|), pubs[n]);
    var u := t - |head|;
    assert Log(pubs)[..t] == head + stores[..u];
    VersionKept(pubs[..n]);
    SeqSteps(|pubs|);
    LastInPhase(pubs, head, SeqWord(|pubs|), u);
  }

  lemma LastInPhase(pubs: seq<Publication>, head: seq<Store>, word: int, u: nat)
    requires pubs != [] && Load(head, Version) == DAMAGE_VERSION
    requires (word + 1) % U32 == (2 * |pubs| + 1) % U32 && (word + 2) % U32 == (2 * |pubs| + 2) % U32
    requires 0 < u <= |PublicationStores(word, pubs[|pubs| - 1])|
    ensures var stores := PublicationStores(word, pubs[|pubs| - 1]);
            InPhase(pubs, if u < |stores| then 2 * |pubs| + 1 else 2 * |pubs| + 2, head + stores[..u])
  {
    var p := pubs[|pubs| - 1];
    var stores := PublicationStores(word, p);
    PublicationWords(head, word, p, u);
    PublicationShows(head, word, p);
    assert stores[..|stores|] == stores;
    assert Numbered(pubs, |pubs| + 1) == p;
  }

  lemma {:induction false} VersionKept(pubs: seq<Publication>)
    ensures Load(Log(pubs), Version) == DAMAGE_VERSION
  {
    if pubs == [] {
      InitWords(5);
      assert INIT_STORES[..5] == INIT_STORES;
    } else {
      var n := |pubs| - 1;
      var stores := PublicationStores(SeqWord(|pubs|), pubs[n]);
      VersionKept(pubs[..n]);
      assert stores[..|stores|] == stores;
      PublicationWords(Log(pubs[..n]), SeqWord(|pubs|), pubs[n], |stores|);
    }
  }

  lemma SeqSteps(k: nat)
    ensures (SeqWord(k) + 1) % U32 == (2 * k + 1) % U32
    ensures (SeqWord(k) + 2) % U32 == (2 * k + 2) % U32 == SeqWord(k + 1)
  {
    assert 2 * (k + 1) == 2 * k + 2;
  }

  /** The seqlock theorem.  If the sequence word reads the same even value at `t` and at a
      later `u`, and fewer than 2^31 publications happened in between, then nothing was
      published in between, and every load at any time from `t` to `u` sees publication
      number `Phase / 2` and no other. */
  lemma AtomicWindow(pubs: seq<Publication>, t: nat, u: nat, v: nat)
    requires t <= v <= u <= |Log(pubs)|
    requires Load(Log(pubs)[..t], Seq) == Load(Log(pubs)[..u], Seq)
    requires Load(Log(pubs)[..t], Seq) % 2 == 0
    requires 2 <= Phase(pubs, t)
    requires Phase(pubs, u) - Phase(pubs, t) < U32
    ensures Phase(pubs, t) == Phase(pubs, v) == Phase(pubs, u)
    ensures Phase(pubs, t) % 2 == 0 && Phase(pubs, t) / 2 <= |pubs| + 1
    ensures Shows(Log(pubs)[..v], Numbered(pubs, Phase(pubs, t) / 2))
  {
    PhaseInvariant(pubs, t);
    PhaseInvariant(pubs, u);
    PhaseInvariant(pubs, v);
    PhaseMonotone(pubs, t, v);
    PhaseMonotone(pubs, v, u);
    var a, b := Phase(pubs, t), Phase(pubs, u);
    SameResidue(a, b);
    EvenResidue(a);
  }

  lemma SameResidue(a: nat, b: nat)
    requires a <= b < a + U32 && a % U32 == b % U32
    ensures a == b
  {
    var d := b - a;
    assert b == a + d;
  }

  lemma EvenResidue(a: nat)
    ensures (a % U32) % 2 == a % 2
  {
    assert a == U32 * (a / U32) + a % U32;
  }

  /** Once the initialiser has finished, the magic number and the version stay. */
  lemma {:induction false} MagicKept(pubs: seq<Publication>, t: nat)
    requires |INIT_STORES| <= t <= |Log(pubs)|
    ensures Load(Log(pubs)[..t], Magic) == DAMAGE_MAGIC && Load(Log(pubs)[..t], Version) == DAMAGE_VERSION
  {
    if pubs == [] {
      InitWords(5);
      LoadNewest(INIT_STORES, 4);
      assert Log(pubs)[..t] == INIT_STORES == INIT_STORES[..5];
    } else {
      var n := |pubs| - 1;
      var head := Log(pubs[..n]);
      if t <= |head| {
        MagicKept(pubs[..n], t);
        assert Log(pubs)[..t] == head[..t];
      } else {
        LogHasInit(pubs[..n]);
        MagicKept(pubs[..n], |head|);
        assert head[..|head|] == head;
        PublicationWords(head, SeqWord(|pubs|), pubs[n], t - |head|);
        assert Log(pubs)[..t] == head + PublicationStores(SeqWord(|pubs|), pubs[n])[..t - |head|];
      }
    }
  }

  lemma {:induction false} LogHasInit(pubs: seq<Publication>)
    ensures |INIT_STORES| <= |Log(pubs)|
  {
    if pubs != [] {
      LogHasInit(pubs[..|pubs| - 1]);
    }
  }

  /** A reader that has seen the magic number sees a complete mapping ever after. */
  lemma AttachedAfterInit(pubs: seq<Publication>, t: nat, u: nat)
    requires t <= u <= |Log(pubs)|
    requires Load(Log(pubs)[..t], Magic) == DAMAGE_MAGIC
    ensures 2 <= Phase(pubs, u) && Load(Log(pubs)[..t], Version) == DAMAGE_VERSION
  {
    PhaseInvariant(pubs, t);
    PhaseMonotone(pubs, t, u);
  }

  /** The change signal compares two sequence words; it says "unchanged" exactly when the
      number of publications since is a multiple of 2^31. */
  lemma ChangeDetection(earlier: nat, later: nat)
    requires earlier <= later
    ensures SeqWord(later) != SeqWord(earlier) <==> (later - earlier) % SEQ_PERIOD != 0
  {
    var d := later - earlier;
    assert 2 * later == 2 * earlier + 2 * d;
    var q, r := d / SEQ_PERIOD, d % SEQ_PERIOD;
    assert 2 * d == U32 * q + 2 * r;
    assert (2 * later) % U32 == (2 * earlier + 2 * r) % U32 by {
      assert 2 * later == 2 * earlier + 2 * r + U32 * q;
      ModAdd(2 * earlier + 2 * r, q);
    }
    if r != 0 {
      if (2 * earlier + 2 * r) % U32 == (2 * earlier) % U32 {
        SameResidue(2 * earlier, 2 * earlier + 2 * r);
      }
    }
  }

  lemma {:induction false} ModAdd(a: nat, q: nat)
    ensures (a + U32 * q) % U32 == a % U32
  {
    if q > 0 {
      ModAdd(a, q - 1);
      assert a + U32 * q == (a + U32 * (q - 1)) + U32;
      assert ((a + U32 * (q - 1)) + U32) % U32 == (a + U32 * (q - 1)) % U32;
    }
  }
}
