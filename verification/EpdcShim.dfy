/** The composer shim src/epdcshim.c: a class whose fields are the file's static variables and
    whose methods are its functions, proved against RefreshPolicy and Seqlock. */
module EpdcShim {
  import opened Common
  import opened Seqlock
  import opened RefreshPolicy

  const MAX_OBJ := 32

  /** Two sequence words, count, full flag and four words for each of eight rectangles. */
  const LOADS_PER_ATTEMPT := 36

  /** The mapping as one reader sees it: `log` is every store SurfaceFlinger makes in its
      lifetime, `now` how many of them have happened. */
  class DamageMap {
    const log: seq<Store>
    ghost const pubs: seq<Publication>
    var now: nat
    /** How many words the reader has loaded. */
    ghost var loads: nat

    ghost predicate Valid() reads this {
      && log == Log(pubs)
      && now <= |log|
      && forall i :: 0 <= i < |pubs| ==> Publishable(pubs[i])
    }

    constructor (log: seq<Store>, ghost pubs: seq<Publication>)
      requires log == Log(pubs) && forall i :: 0 <= i < |pubs| ==> Publishable(pubs[i])
      ensures Valid() && this.log == log && this.pubs == pubs && now == 0 && loads == 0
    {
      this.log := log;
      this.pubs := pubs;
      now, loads := 0, 0;
    }

    /** The writer goes on by itself, at least to store number `t` if there are so many. */
    method Advance(t: nat)
      requires Valid()
      modifies this`now
      ensures Valid() && old(now) <= now && (t <= |log| ==> t <= now)
    {
      if now < t <= |log| {
        now := t;
      }
    }

    /** One atomic word load, before which the writer may run any number of stores. */
    method Read(w: Word) returns (v: int)
      requires Valid()
      modifies this`now, this`loads
      ensures Valid() && old(now) <= now && loads == old(loads) + 1
      ensures v == Load(log[..now], w)
    {
      var t: nat :| now <= t <= |log|;
      now := t;
      loads := loads + 1;
      v := Load(log[..now], w);
    }

    ghost function PhaseNow(): nat
      reads this
      requires Valid()
    {
      Phase(pubs, now)
    }
  }

  /** The reading is exactly publication number g/2. */
  ghost predicate Reads(pubs: seq<Publication>, g: nat, reading: Reading) {
    && g % 2 == 0 && 2 <= g <= 2 * (|pubs| + 1)
    && reading == Accepted(SeqWord(g / 2), Numbered(pubs, g / 2).rects, Numbered(pubs, g / 2).full)
  }

  ghost predicate SoundPublication(p: Publication) {
    |p.rects| <= DAMAGE_MAX && 0 <= p.full <= 1
  }

  /** While the phase stays at an even `g` from `t` to `u`, a load at `u` sees publication g/2. */
  lemma LoadsOf(m: DamageMap, t: nat, u: nat)
    requires m.Valid() && t <= u <= |m.log| && 2 <= Phase(m.pubs, t)
    requires Phase(m.pubs, t) == Phase(m.pubs, u) && Phase(m.pubs, t) % 2 == 0
    ensures Phase(m.pubs, t) / 2 <= |m.pubs| + 1
    ensures Shows(m.log[..u], Numbered(m.pubs, Phase(m.pubs, t) / 2))
  {
    PhaseInvariant(m.pubs, u);
  }

  /** What a data word holds while the mapping shows `p`. */
  ghost predicate ShowsWord(p: Publication, w: Word, v: int) {
    match w
    case Count => v == |p.rects|
    case Full => v == p.full
    case Side(i, side) => i < |p.rects| && side < 4 ==> v == SideOf(p.rects[i], side)
    case _ => true
  }

  /** The writer stood still, outside any publication, between two moments. */
  ghost predicate Still(g: nat, h: nat) {
    g == h && g % 2 == 0
  }

  lemma SeqWordOf(g: nat)
    requires g % 2 == 0
    ensures SeqWord(g / 2) == g % U32
  {
  }

  datatype PropValue = Number(n: int) | UpdateArray

  datatype PropSet = PropSet(obj: int, prop: int, value: PropValue)

  datatype PlaneProps = PlaneProps(parms: int, cnt: int)

  /** c_obj, c_parms_prop and c_cnt_prop at one index. */
  datatype CacheEntry = CacheEntry(obj: int, props: PlaneProps)

  function Ids(request: seq<PropSet>): (ids: seq<int>)
    ensures |ids| == |request|
  {
    if request == [] then [] else Ids(request[..|request| - 1]) + [request[|request| - 1].obj]
  }

  /** The first 32 distinct ids of a list, in order. */
  function Tracked(ids: seq<int>): (t: seq<int>)
    ensures |t| <= MAX_OBJ
    ensures forall i, j :: 0 <= i < j < |t| ==> t[i] != t[j]
    ensures forall i :: 0 <= i < |t| ==> t[i] in ids
    ensures |t| < MAX_OBJ ==> forall i :: 0 <= i < |ids| ==> ids[i] in t
  {
    if ids == [] then []
    else
      var t := Tracked(ids[..|ids| - 1]);
      var last := ids[|ids| - 1];
      if last in t || |t| == MAX_OBJ then t else t + [last]
  }

  ghost predicate Distinct(ids: seq<int>) {
    forall i, j :: 0 <= i < j < |ids| ==> ids[i] != ids[j]
  }

  /** A value stored in a uint32_t. */
  function AsU32(v: int): (r: nat)
    ensures 0 <= v < U32 ==> r == v
  {
    v % U32
  }

  /** The clamp that keeps every array access in bounds, even on a torn count. */
  function ClampCount(n: nat): (c: nat)
    ensures c <= DAMAGE_MAX && (n <= DAMAGE_MAX ==> c == n)
  {
    if n > DAMAGE_MAX then DAMAGE_MAX else n
  }

  /** The tracked ids after one more object. */
  function Tracking(ids: seq<int>, obj: int): seq<int> {
    if obj in ids || |ids| == MAX_OBJ then ids else ids + [obj]
  }

  /** The buffers kept for them: `value` for the object if FB_ID was set, 0 for a new one. */
  function Buffering(ids: seq<int>, fbs: seq<int>, obj: int, sets: bool, value: int): (b: seq<int>)
    ensures |b| == |ids|
    ensures forall i :: 0 <= i < |ids| ==> b[i] == if sets && ids[i] == obj then value else if i < |fbs| then fbs[i] else 0
  {
    seq(|ids|, i requires 0 <= i < |ids| => if sets && ids[i] == obj then value else if i < |fbs| then fbs[i] else 0)
  }

  /** Tracking follows the request: its first 32 distinct objects, each with the buffer last set. */
  lemma RememberStep(before: seq<PropSet>, obj: int, prop: int, value: nat, fb: int)
    requires Plain(before)
    ensures var p := PropSet(obj, prop, Number(value)); var ids := Tracking(Tracked(Ids(before)), obj);
            && Plain(before + [p]) && ids == Tracked(Ids(before + [p]))
            && Buffering(ids, BuffersOf(Tracked(Ids(before)), before, fb), obj, fb != 0 && prop == fb, AsU32(value))
               == BuffersOf(ids, before + [p], fb)
  {
    var p := PropSet(obj, prop, Number(value));
    var ids := Tracked(Ids(before));
    TrackedAppend(before, p);
    if obj !in ids && |ids| < MAX_OBJ {
      Untracked(before, obj);
      NoBuffer(before, obj, fb);
    }
    BuffersStep(before, obj, prop, value, fb, ids, Tracking(ids, obj));
  }

  lemma BuffersStep(before: seq<PropSet>, obj: int, prop: int, value: nat, fb: int, ids: seq<int>, more: seq<int>)
    requires more == ids || (more == ids + [obj] && BufferOf(before, obj, fb) == 0)
    ensures Buffering(more, BuffersOf(ids, before, fb), obj, fb != 0 && prop == fb, AsU32(value))
            == BuffersOf(more, before + [PropSet(obj, prop, Number(value))], fb)
  {
    var p := PropSet(obj, prop, Number(value));
    forall i | 0 <= i < |more|
      ensures BuffersOf(more, before + [p], fb)[i]
              == Buffering(more, BuffersOf(ids, before, fb), obj, fb != 0 && prop == fb, AsU32(value))[i]
    {
      BufferAppend(before, p, more[i], fb);
    }
  }

  lemma Untracked(request: seq<PropSet>, o: int)
    requires |Tracked(Ids(request))| < MAX_OBJ && o !in Tracked(Ids(request))
    ensures o !in Ids(request)
  {
  }

  lemma TrackedAppend(request: seq<PropSet>, p: PropSet)
    ensures Ids(request + [p]) == Ids(request) + [p.obj]
    ensures var t := Tracked(Ids(request));
            Tracked(Ids(request + [p])) == if p.obj in t || |t| == MAX_OBJ then t else t + [p.obj]
  {
    assert (request + [p])[..|request|] == request;
    assert (Ids(request) + [p.obj])[..|request|] == Ids(request);
  }

  /** The buffer last set on an object in a request, 0 if none; `fb` is the id of FB_ID, 0 while
      it is not known. */
  function BufferOf(request: seq<PropSet>, o: int, fb: int): int {
    if request == [] then 0
    else
      var p := request[|request| - 1];
      if p.obj == o && fb != 0 && p.prop == fb && p.value.Number? then AsU32(p.value.n)
      else BufferOf(request[..|request| - 1], o, fb)
  }

  function BuffersOf(ids: seq<int>, request: seq<PropSet>, fb: int): (b: seq<int>)
    ensures |b| == |ids|
    ensures forall i :: 0 <= i < |ids| ==> b[i] == BufferOf(request, ids[i], fb)
  {
    if ids == [] then [] else BuffersOf(ids[..|ids| - 1], request, fb) + [BufferOf(request, ids[|ids| - 1], fb)]
  }

  lemma {:induction false} NoBuffer(request: seq<PropSet>, o: int, fb: int)
    requires o !in Ids(request)
    ensures BufferOf(request, o, fb) == 0
  {
    if request != [] {
      var n := |request| - 1;
      assert Ids(request)[n] == request[n].obj;
      NoBuffer(request[..n], o, fb);
    }
  }

  /** What one more property set does to the tracked buffers. */
  lemma BufferAppend(request: seq<PropSet>, p: PropSet, o: int, fb: int)
    ensures BufferOf(request + [p], o, fb)
            == if p.obj == o && fb != 0 && p.prop == fb && p.value.Number? then AsU32(p.value.n) else BufferOf(request, o, fb)
  {
    assert (request + [p])[..|request|] == request;
  }

  // ------------------------------------------------------------- enumeration

  /** The objects enumerated once `o` has been looked up: the cache holds 32, and without libdrm
      nothing is enumerated. */
  function Fetch(known: seq<int>, o: int, drm: bool): seq<int> {
    if o in known || |known| >= MAX_OBJ || !drm then known else known + [o]
  }

  function FetchAll(known: seq<int>, ids: seq<int>, drm: bool): seq<int> {
    if ids == [] then known else Fetch(FetchAll(known, ids[..|ids| - 1], drm), ids[|ids| - 1], drm)
  }

  /** How many of some ids are not known yet. */
  function Unknown(known: seq<int>, ids: seq<int>): nat {
    if ids == [] then 0 else Unknown(known, ids[..|ids| - 1]) + if ids[|ids| - 1] in known then 0 else 1
  }

  /** The first `known` stay, only ids of the request are added, and the cache fills up to 32. */
  lemma {:induction false} FetchCount(known: seq<int>, ids: seq<int>, drm: bool)
    requires Distinct(ids) && |known| <= MAX_OBJ
    ensures var f := FetchAll(known, ids, drm);
            && known <= f && (forall o :: o in f ==> o in known || o in ids)
            && |f| == if drm then Min(MAX_OBJ, |known| + Unknown(known, ids)) else |known|
  {
    if ids != [] {
      var n := |ids| - 1;
      FetchCount(known, ids[..n], drm);
      assert ids[n] !in ids[..n];
      var before := FetchAll(known, ids[..n], drm);
      if ids[n] in known {
        var j :| 0 <= j < |known| && known[j] == ids[n];
        assert before[j] == ids[n];
      }
    }
  }

  /** A tracked object is enumerated, now or earlier, exactly when it was known or there is room in
      the cache for it behind the unknown objects tracked before it. */
  lemma {:induction false} FetchedExactly(known: seq<int>, ids: seq<int>, drm: bool, i: nat)
    requires Distinct(ids) && |known| <= MAX_OBJ && i < |ids|
    ensures ids[i] in FetchAll(known, ids, drm)
            <==> ids[i] in known || (drm && |known| + Unknown(known, ids[..i]) < MAX_OBJ)
  {
    var n := |ids| - 1;
    if i < n {
      FetchedExactly(known, ids[..n], drm, i);
      assert ids[..n][..i] == ids[..i];
      assert ids[..n][i] != ids[n];
    } else {
      FetchCount(known, ids[..n], drm);
      assert ids[..i] == ids[..n];
      assert ids[n] !in ids[..n];
      if ids[n] in known {
        FetchKeeps(known, ids[..n], drm, ids[n]);
      }
    }
  }

  lemma {:induction false} FetchKeeps(known: seq<int>, ids: seq<int>, drm: bool, o: int)
    requires o in known
    ensures o in FetchAll(known, ids, drm)
  {
    if ids != [] {
      FetchKeeps(known, ids[..|ids| - 1], drm, o);
    }
  }

  /** A request that sets a property of each of the objects 1 to n. */
  function ManyObjects(n: nat): seq<PropSet> {
    if n == 0 then [] else ManyObjects(n - 1) + [PropSet(n, 1, Number(0))]
  }

  /** The ids are 1 to n, but no more than 32. */
  ghost predicate FirstIds(t: seq<int>, n: nat) {
    |t| == Min(n, MAX_OBJ) && forall o :: o in t <==> 1 <= o <= Min(n, MAX_OBJ)
  }

  lemma FirstNext(t: seq<int>, u: seq<int>, n: nat)
    requires n > 0 && FirstIds(t, n - 1) && u == if n in t || |t| == MAX_OBJ then t else t + [n]
    ensures FirstIds(u, n)
  {
  }

  lemma {:induction false} ManyTracked(n: nat)
    ensures FirstIds(Tracked(Ids(ManyObjects(n))), n)
  {
    if n > 0 {
      var before, last := ManyObjects(n - 1), PropSet(n, 1, Number(0));
      ManyTracked(n - 1);
      TrackedAppend(before, last);
      FirstNext(Tracked(Ids(before)), Tracked(Ids(before + [last])), n);
    }
  }

  lemma {:induction false} NothingFetched(known: seq<int>, ids: seq<int>, drm: bool)
    requires |known| == MAX_OBJ
    ensures FetchAll(known, ids, drm) == known
  {
    if ids != [] {
      NothingFetched(known, ids[..|ids| - 1], drm);
    }
  }

  lemma {:induction false} ManyPlain(n: nat)
    ensures Plain(ManyObjects(n))
  {
    if n > 0 {
      ManyPlain(n - 1);
    }
  }

  lemma {:induction false} ManyFetched(ids: seq<int>)
    requires Distinct(ids) && |ids| <= MAX_OBJ
    ensures FetchAll([], ids, true) == ids
  {
    if ids != [] {
      var n := |ids| - 1;
      ManyFetched(ids[..n]);
      assert ids[n] !in ids[..n];
    }
  }

  // ------------------------------------------------------------- what a request says in the end

  /** The value the kernel takes for a property: the last one set. */
  function LastSet(request: seq<PropSet>, o: int, prop: int): Option<PropValue> {
    if request == [] then None
    else
      var p := request[|request| - 1];
      if p.obj == o && p.prop == prop then Some(p.value) else LastSet(request[..|request| - 1], o, prop)
  }

  /** The buffer remembered for an object is the low 32 bits of the FB_ID the request sets last. */
  lemma {:induction false} BufferIsLast(request: seq<PropSet>, o: int, fb: int)
    requires Plain(request)
    ensures LastSet(request, o, fb).Some? ==> LastSet(request, o, fb).value.Number?
    ensures BufferOf(request, o, fb)
            == if fb != 0 && LastSet(request, o, fb).Some? then LastSet(request, o, fb).value.n % 0x1_0000_0000 else 0
  {
    if request != [] {
      BufferIsLast(request[..|request| - 1], o, fb);
    }
  }

  lemma {:induction false} LastSetAppend(a: seq<PropSet>, b: seq<PropSet>, o: int, prop: int)
    ensures LastSet(a + b, o, prop) == if LastSet(b, o, prop).Some? then LastSet(b, o, prop) else LastSet(a, o, prop)
  {
    if b == [] {
      assert a + b == a;
    } else {
      var n := |b| - 1;
      assert (a + b)[..|a + b| - 1] == a + b[..n];
      LastSetAppend(a, b[..n], o, prop);
    }
  }

  /** The composer itself never sets an update array. */
  ghost predicate Plain(request: seq<PropSet>) {
    forall i :: 0 <= i < |request| ==> request[i].value.Number?
  }

  lemma {:induction false} PlainSets(request: seq<PropSet>, o: int, prop: int)
    requires Plain(request)
    ensures LastSet(request, o, prop) != Some(UpdateArray)
  {
    if request != [] {
      PlainSets(request[..|request| - 1], o, prop);
    }
  }

  // ------------------------------------------------------------- buffer signatures

  function Signature(ids: seq<int>, fbs: seq<int>): int
    requires |ids| == |fbs|
  {
    if ids == [] then 0
    else
      var n := |ids| - 1;
      (Signature(ids[..n], fbs[..n]) * 31 + ids[n] * 131 + fbs[n]) % U32
  }

  /** The signature of a request: its first 32 distinct objects and the buffers set on them. */
  function SignatureOf(request: seq<PropSet>, fb: int): int {
    var ids := Tracked(Ids(request));
    Signature(ids, BuffersOf(ids, request, fb))
  }

  lemma {:induction false} SignatureRange(ids: seq<int>, fbs: seq<int>)
    requires |ids| == |fbs|
    ensures 0 <= Signature(ids, fbs) < U32
  {
  }

  /** 31 has an inverse modulo 2^32, so multiplying by it loses nothing. */
  lemma Times31(a: int, b: int, c: int)
    requires 0 <= a < U32 && 0 <= b < U32 && (a * 31 + c) % U32 == (b * 31 + c) % U32
    ensures a == b
  {
    var q := (a * 31 + c) / U32 - (b * 31 + c) / U32;
    assert 31 * (a - b) == U32 * q;
    assert 3186588639 * 31 == 23 * U32 + 1;
    assert a - b == U32 * (3186588639 * q - 23 * (a - b));
  }

  /** 31 to the power of `n`. */
  function Power31(n: nat): nat {
    if n == 0 then 1 else 31 * Power31(n - 1)
  }

  /** The sum of 131 times each id plus its buffer, each weighted by 31 for every object behind it. */
  function Weighted(ids: seq<int>, fbs: seq<int>): int
    requires |ids| == |fbs|
  {
    if ids == [] then 0 else (131 * ids[0] + fbs[0]) * Power31(|ids| - 1) + Weighted(ids[1..], fbs[1..])
  }

  lemma {:induction false} WeightedAppend(ids: seq<int>, fbs: seq<int>, o: int, b: int)
    requires |ids| == |fbs|
    ensures Weighted(ids + [o], fbs + [b]) == 31 * Weighted(ids, fbs) + 131 * o + b
  {
    if ids == [] {
      assert (ids + [o])[1..] == [] && (fbs + [b])[1..] == [];
    } else {
      WeightedAppend(ids[1..], fbs[1..], o, b);
      assert (ids + [o])[1..] == ids[1..] + [o] && (fbs + [b])[1..] == fbs[1..] + [b];
      Scaled(131 * ids[0] + fbs[0], Power31(|ids| - 1));
    }
  }

  lemma Scaled(x: int, p: int)
    ensures x * (31 * p) == 31 * (x * p)
  {
  }

  /** The signature is that sum, modulo 2^32. */
  lemma {:induction false} SignatureIsSum(ids: seq<int>, fbs: seq<int>)
    requires |ids| == |fbs|
    ensures Signature(ids, fbs) == Weighted(ids, fbs) % 0x1_0000_0000
  {
    if ids != [] {
      var n := |ids| - 1;
      SignatureIsSum(ids[..n], fbs[..n]);
      WeightedAppend(ids[..n], fbs[..n], ids[n], fbs[n]);
      assert ids[..n] + [ids[n]] == ids && fbs[..n] + [fbs[n]] == fbs;
      ModStep(Weighted(ids[..n], fbs[..n]), 131 * ids[n] + fbs[n]);
    }
  }

  lemma ModStep(w: int, x: int)
    ensures (31 * (w % U32) + x) % U32 == (31 * w + x) % U32
  {
    var q := w / U32;
    assert 31 * w + x == 31 * (w % U32) + x + U32 * (31 * q);
  }

  /** A new buffer on a single tracked object always changes the signature. */
  lemma {:induction false} OneBufferNoticed(ids: seq<int>, a: seq<int>, b: seq<int>, j: nat)
    requires |ids| == |a| == |b| && j < |ids| && 0 <= a[j] < U32 && 0 <= b[j] < U32 && a[j] != b[j]
    requires forall i :: 0 <= i < |ids| && i != j ==> a[i] == b[i]
    ensures Signature(ids, a) != Signature(ids, b)
  {
    var n := |ids| - 1;
    if j < n {
      OneBufferNoticed(ids[..n], a[..n], b[..n], j);
      SignatureRange(ids[..n], a[..n]);
      SignatureRange(ids[..n], b[..n]);
      if Signature(ids, a) == Signature(ids, b) {
        Times31(Signature(ids[..n], a[..n]), Signature(ids[..n], b[..n]), ids[n] * 131 + a[n]);
      }
    } else {
      assert a[..n] == b[..n];
      LastDecides(Signature(ids[..n], a[..n]) * 31 + ids[n] * 131, a[n], b[n]);
    }
  }

  lemma LastDecides(c: int, a: int, b: int)
    requires 0 <= a < U32 && 0 <= b < U32
    ensures (c + a) % U32 == (c + b) % U32 ==> a == b
  {
    var q := (c + a) / U32 - (c + b) / U32;
    assert (c + a) % U32 == (c + b) % U32 ==> a - b == U32 * q;
  }

  function Entries(rects: seq<Rect>, waveform: int, updateMode: int, marker: int, flag: int): (e: seq<Update>)
    ensures |e| == |rects|
    ensures forall i :: 0 <= i < |e| ==> e[i] == Update(rects[i], waveform, updateMode, marker, 0, flag, 0)
  {
    if rects == [] then []
    else
      var n := |rects| - 1;
      Entries(rects[..n], waveform, updateMode, marker, flag) + [Update(rects[n], waveform, updateMode, marker, 0, flag, 0)]
  }

  class Shim {
    // The DRM device the composer talks to, and SurfaceFlinger's mapping.
    const planes: int -> Option<seq<int>>
    const names: int -> Option<string>
    const drm: bool
    const sf: DamageMap

    // Tunables and counters.
    var tun: Tunables
    var sinceRecheck: int
    var lastInject: int
    var sinceFull: int
    var dmg: DamageMap?
    var tried: int
    var lastSeq: int
    /** The publication last accepted, 0 if none was; `lastSeq` is its sequence word. */
    ghost var accepted: nat
    var lastSig: int
    const parms: array<Update>

    // Per-object property cache.
    const cache: array<CacheEntry>
    var cN: nat
    var fbProp: int
    /** Every object whose properties were ever fetched from the device. */
    ghost var fetched: seq<int>

    // Objects of the request being assembled, and everything handed on to it.
    const pend: array<int>
    const pendFb: array<int>
    var nPend: nat
    var request: seq<PropSet>

    // ------------------------------------------------------------- what must hold

    /** A fresh look at the first `n` properties of an object: the last ids carrying the names. */
    function Scan(props: seq<int>): PlaneProps {
      if props == [] then PlaneProps(0, 0)
      else
        var n := |props| - 1;
        var before := Scan(props[..n]);
        match names(props[n])
        case None => before
        case Some(name) =>
          if name == "EPDC_UPDATE_PARMS_ADDR" then before.(parms := props[n])
          else if name == "EPDC_UPDATE_CNT" then before.(cnt := props[n])
          else before
    }

    function Enumerate(obj: int): PlaneProps {
      match planes(obj)
      case None => PlaneProps(0, 0)
      case Some(props) => Scan(props)
    }

    /** The FB_ID property id known after the first `n` properties of an object. */
    function ScanFb(props: seq<int>, before: int): int {
      if props == [] then before
      else
        var n := |props| - 1;
        if names(props[n]) == Some("FB_ID") then props[n] else ScanFb(props[..n], before)
    }

    predicate EpdcPlane(obj: int) {
      Enumerate(obj).parms != 0 && Enumerate(obj).cnt != 0
    }

    /** What a driving commit adds to a request for the objects `ids`, of which the shim knows
        the properties of `known`. */
    ghost function Injection(ids: seq<int>, known: seq<int>, count: nat): seq<PropSet> {
      if ids == [] then []
      else
        var n := |ids| - 1;
        Injection(ids[..n], known, count) + (if ids[n] in known then PlaneUpdate(ids[n], count) else [])
    }

    function PlaneUpdate(obj: int, count: nat): seq<PropSet> {
      if EpdcPlane(obj)
      then [PropSet(obj, Enumerate(obj).parms, UpdateArray), PropSet(obj, Enumerate(obj).cnt, Number(count))]
      else []
    }

    lemma {:induction false} InjectionIgnores(ids: seq<int>, known: seq<int>, o: int, count: nat)
      requires o !in ids
      ensures Injection(ids, known + [o], count) == Injection(ids, known, count)
    {
      if ids != [] {
        var n := |ids| - 1;
        assert ids[n] in ids;
        assert o !in ids[..n];
        InjectionIgnores(ids[..n], known, o, count);
      }
    }

    lemma InjectionAppend(ids: seq<int>, o: int, known: seq<int>, count: nat)
      ensures Injection(ids + [o], known, count)
              == Injection(ids, known, count) + (if o in known then PlaneUpdate(o, count) else [])
    {
      assert (ids + [o])[..|ids|] == ids;
    }

    lemma InjectStep(ids: seq<int>, known: seq<int>, now: seq<int>, o: int, count: nat,
                     before: seq<PropSet>, after: seq<PropSet>, request: seq<PropSet>)
      requires o !in ids && (now == known || now == known + [o])
      requires before == request + Injection(ids, known, count)
      requires after == before + (if o in now then PlaneUpdate(o, count) else [])
      ensures after == request + Injection(ids + [o], now, count)
    {
      InjectionIgnores(ids, known, o, count);
      InjectionAppend(ids, o, now, count);
    }

    /** Properties are injected only on objects the composer put in the request itself, and on
        an object only if it is an EPDC plane; the count is the number of rectangles. */
    lemma {:induction false} InjectionOnlyTracked(ids: seq<int>, known: seq<int>, count: nat)
      ensures forall i :: 0 <= i < |Injection(ids, known, count)| ==>
                var p := Injection(ids, known, count)[i];
                && p.obj in ids && EpdcPlane(p.obj)
                && (p == PropSet(p.obj, Enumerate(p.obj).parms, UpdateArray)
                    || p == PropSet(p.obj, Enumerate(p.obj).cnt, Number(count)))
      ensures forall o :: o in ids && o in known && EpdcPlane(o) ==>
                && PropSet(o, Enumerate(o).parms, UpdateArray) in Injection(ids, known, count)
                && PropSet(o, Enumerate(o).cnt, Number(count)) in Injection(ids, known, count)
    {
      if ids != [] {
        var n := |ids| - 1;
        InjectionOnlyTracked(ids[..n], known, count);
        assert forall o :: o in ids <==> o in ids[..n] || o == ids[n];
        var extra := if ids[n] in known then PlaneUpdate(ids[n], count) else [];
        assert Injection(ids, known, count) == Injection(ids[..n], known, count) + extra;
        assert extra != [] ==> extra[0] in extra && extra[1] in extra;
      }
    }

    /** The last of some properties with a name, or `none`. */
    function LastProp(props: seq<int>, name: string, none: int): int {
      if props == [] then none
      else if names(props[|props| - 1]) == Some(name) then props[|props| - 1]
      else LastProp(props[..|props| - 1], name, none)
    }

    lemma {:induction false} LastPropIs(props: seq<int>, name: string, none: int, i: nat)
      ensures (forall j :: 0 <= j < |props| ==> names(props[j]) != Some(name)) ==> LastProp(props, name, none) == none
      ensures i < |props| && names(props[i]) == Some(name) && (forall j :: i < j < |props| ==> names(props[j]) != Some(name)) ==>
                LastProp(props, name, none) == props[i]
    {
      if props != [] && names(props[|props| - 1]) != Some(name) {
        LastPropIs(props[..|props| - 1], name, none, i);
      }
    }

    /** An object's entry holds the last property of either name, and FB_ID is the last of that name. */
    lemma {:induction false} ScanExactly(props: seq<int>, fb: int)
      ensures Scan(props) == PlaneProps(LastProp(props, "EPDC_UPDATE_PARMS_ADDR", 0), LastProp(props, "EPDC_UPDATE_CNT", 0))
      ensures ScanFb(props, fb) == LastProp(props, "FB_ID", fb)
    {
      if props != [] {
        ScanExactly(props[..|props| - 1], fb);
        assert "EPDC_UPDATE_PARMS_ADDR"[5] == 'U' && "EPDC_UPDATE_CNT"[12] == 'C' && "EPDC_UPDATE_PARMS_ADDR"[12] == 'P';
      }
    }

    lemma {:induction false} ScanNames(props: seq<int>)
      ensures Scan(props).parms != 0 ==> names(Scan(props).parms) == Some("EPDC_UPDATE_PARMS_ADDR")
      ensures Scan(props).cnt != 0 ==> names(Scan(props).cnt) == Some("EPDC_UPDATE_CNT")
    {
      if props != [] {
        ScanNames(props[..|props| - 1]);
      }
    }

    /** The two properties of an EPDC plane are different ones. */
    lemma PropsDiffer(o: int)
      requires EpdcPlane(o)
      ensures Enumerate(o).parms != Enumerate(o).cnt
    {
      ScanNames(planes(o).value);
    }

    /** The kernel finds the update array and the count `n` on plane `o`. */
    ghost predicate Delivered(sent: seq<PropSet>, o: int, n: int) {
      && EpdcPlane(o)
      && LastSet(sent, o, Enumerate(o).parms) == Some(UpdateArray)
      && LastSet(sent, o, Enumerate(o).cnt) == Some(Number(n))
    }

    /** What an injection sets: both properties of every known EPDC plane among `ids`, and nothing
        on any other object. */
    lemma {:induction false} InjectionSets(ids: seq<int>, known: seq<int>, count: nat, o: int)
      ensures o in ids && o in known && EpdcPlane(o) ==> Delivered(Injection(ids, known, count), o, count)
      ensures !(o in ids && o in known && EpdcPlane(o)) ==> forall prop :: LastSet(Injection(ids, known, count), o, prop) == None
    {
      if ids != [] {
        var n := |ids| - 1;
        var extra := if ids[n] in known then PlaneUpdate(ids[n], count) else [];
        InjectionSets(ids[..n], known, count, o);
        assert o in ids <==> o in ids[..n] || o == ids[n];
        forall prop ensures LastSet(Injection(ids, known, count), o, prop)
                            == if LastSet(extra, o, prop).Some? then LastSet(extra, o, prop) else LastSet(Injection(ids[..n], known, count), o, prop)
        {
          LastSetAppend(Injection(ids[..n], known, count), extra, o, prop);
        }
        PlaneSets(ids[n], count, o);
      }
    }

    lemma PlaneSets(obj: int, count: nat, o: int)
      ensures o == obj && EpdcPlane(o) ==> Delivered(PlaneUpdate(obj, count), o, count)
      ensures !(o == obj && EpdcPlane(o)) ==> forall prop :: LastSet(PlaneUpdate(obj, count), o, prop) == None
    {
      var u := PlaneUpdate(obj, count);
      if EpdcPlane(obj) {
        PropsDiffer(obj);
        assert u[..1] == [u[0]] && u[..1][..0] == [];
        assert forall prop :: LastSet(u[..1], o, prop) == if u[0].obj == o && u[0].prop == prop then Some(u[0].value) else None;
      }
    }

    /** A driving commit reaches a plane exactly when the composer put it among the first 32
        distinct objects of the request and its properties are known; see `FetchedExactly`. */
    lemma DeliveredExactly(before: seq<PropSet>, ids: seq<int>, known: seq<int>, count: nat, o: int, n: int)
      requires Plain(before)
      ensures Delivered(before + Injection(ids, known, count), o, n) <==> o in ids && o in known && EpdcPlane(o) && n == count
    {
      InjectionSets(ids, known, count, o);
      LastSetAppend(before, Injection(ids, known, count), o, Enumerate(o).parms);
      LastSetAppend(before, Injection(ids, known, count), o, Enumerate(o).cnt);
      PlainSets(before, o, Enumerate(o).parms);
    }

    /** The 33rd object of a request gets nothing, even when nothing is cached yet. */
    lemma ThirtyThirdTracked(count: nat, n: int)
      ensures var before := ManyObjects(33); var ids := Tracked(Ids(before));
              && (forall o :: o in ids <==> 1 <= o <= 32)
              && !Delivered(before + Injection(ids, FetchAll([], ids, drm), count), 33, n)
    {
      var before := ManyObjects(33);
      ManyTracked(33);
      ManyPlain(33);
      DeliveredExactly(before, Tracked(Ids(before)), FetchAll([], Tracked(Ids(before)), drm), count, 33, n);
    }

    /** With a full cache no other object gets anything. */
    lemma FullCache(before: seq<PropSet>, known: seq<int>, count: nat, o: int, n: int)
      requires Plain(before) && |known| == MAX_OBJ && o !in known
      ensures !Delivered(before + Injection(Tracked(Ids(before)), FetchAll(known, Tracked(Ids(before)), drm), count), o, n)
    {
      NothingFetched(known, Tracked(Ids(before)), drm);
      DeliveredExactly(before, Tracked(Ids(before)), known, count, o, n);
    }

    /** So the 33rd object ever enumerated gets nothing, alone in a request after one of 32 others. */
    lemma ThirtyThirdFetched(count: nat, n: int)
      requires drm
      ensures var known := FetchAll([], Tracked(Ids(ManyObjects(32))), drm); var before := [PropSet(33, 1, Number(0))];
              !Delivered(before + Injection(Tracked(Ids(before)), FetchAll(known, Tracked(Ids(before)), drm), count), 33, n)
    {
      ManyTracked(32);
      ManyFetched(Tracked(Ids(ManyObjects(32))));
      FullCache([PropSet(33, 1, Number(0))], Tracked(Ids(ManyObjects(32))), count, 33, n);
    }

    /** Some EPDC plane is tracked and known. */
    ghost predicate PlaneReached(before: seq<PropSet>, known: seq<int>) {
      exists o :: o in Tracked(Ids(before)) && o in known && EpdcPlane(o)
    }

    /** The kernel repaints a pixel: some plane carries the update array with a count that takes in
        a rectangle holding the pixel. */
    ghost predicate Paints(sent: seq<PropSet>, updates: seq<Update>, x: int, y: int) {
      exists o, n :: 0 <= n <= |updates| && Delivered(sent, o, n) && exists i :: 0 <= i < n && Contains(updates[i].rect, x, y)
    }

    /** What the kernel repaints is what the action says, on a request that reaches an EPDC plane. */
    lemma PaintsExactly(sent: seq<PropSet>, before: seq<PropSet>, action: Action, known: seq<int>, updates: seq<Update>, x: int, y: int)
      requires Plain(before) && Sends(sent, before, action, known, updates)
      ensures Paints(sent, updates, x, y) <==> PlaneReached(before, known) && action.Drive? && Covers(action.rects, x, y)
    {
      match action
      case Pass(_) =>
        if Paints(sent, updates, x, y) {
          var o, n :| 0 <= n <= |updates| && Delivered(sent, o, n);
          PlainSets(before, o, Enumerate(o).parms);
        }
      case Drive(rects, wf, upd, marker, flag, _) =>
        forall o, n ensures Delivered(sent, o, n) <==> o in Tracked(Ids(before)) && o in known && EpdcPlane(o) && n == |rects| {
          DeliveredExactly(before, Tracked(Ids(before)), known, |rects|, o, n);
        }
        assert forall i :: 0 <= i < |rects| ==> updates[i] == updates[..|rects|][i];
        if PlaneReached(before, known) && Covers(rects, x, y) {
          var o :| o in Tracked(Ids(before)) && o in known && EpdcPlane(o);
          var i :| 0 <= i < |rects| && Contains(rects[i], x, y);
          assert Delivered(sent, o, |rects|) && Contains(updates[i].rect, x, y);
        }
    }

    ghost predicate Shape() {
      && parms.Length == 8
      && cache.Length == pend.Length == pendFb.Length == MAX_OBJ
      && pend != pendFb
      && cache as object != pend && cache as object != pendFb
      && parms as object != cache && parms as object != pend && parms as object != pendFb
    }

    ghost predicate CacheValid()
      reads this`cN, this`fetched, cache
      requires cache.Length == MAX_OBJ
    {
      && cN == |fetched| <= MAX_OBJ
      && Distinct(fetched)
      && forall i :: 0 <= i < cN ==> cache[i] == CacheEntry(fetched[i], Enumerate(fetched[i]))
    }

    ghost predicate PendValid()
      reads this`nPend, this`request, pend
      requires pend.Length == MAX_OBJ
    {
      nPend <= MAX_OBJ && pend[..nPend] == Tracked(Ids(request)) && Plain(request)
    }

    ghost predicate BuffersValid()
      reads this`nPend, this`request, this`fbProp, pend, pendFb
      requires pend.Length == pendFb.Length == MAX_OBJ
    {
      nPend <= MAX_OBJ && pendFb[..nPend] == BuffersOf(pend[..nPend], request, fbProp)
    }

    ghost predicate MapValid()
      reads this`dmg, this`lastSeq, this`accepted, sf
    {
      && sf.Valid()
      && (forall i :: 0 <= i < |sf.pubs| ==> SoundPublication(sf.pubs[i]))
      && (dmg != null ==> dmg == sf && 2 <= sf.PhaseNow())
      && lastSeq == SeqWord(accepted) && 2 * accepted <= sf.PhaseNow()
    }

    ghost predicate Valid()
      reads this, cache, pend, pendFb, sf
    {
      Shape() && CacheValid() && PendValid() && BuffersValid() && MapValid()
    }

    ghost function State(): Core
      reads this`tun, this`sinceRecheck, this`dmg, this`tried, this`lastSeq, this`lastSig, this`lastInject, this`sinceFull, parms
      requires parms.Length == 8
    {
      Core(tun, sinceRecheck, dmg != null, tried, lastSeq, lastSig, lastInject, sinceFull, parms[0].marker)
    }

    constructor (planes: int -> Option<seq<int>>, names: int -> Option<string>, drm: bool, sf: DamageMap)
      requires sf.Valid() && forall i :: 0 <= i < |sf.pubs| ==> SoundPublication(sf.pubs[i])
      ensures Valid() && State() == START && request == [] && fetched == [] && accepted == 0
      ensures this.planes == planes && this.names == names && this.drm == drm && this.sf == sf
    {
      this.planes := planes;
      this.names := names;
      this.drm := drm;
      this.sf := sf;
      tun := Tunables(1, 2, 1, 0x21000, 0, 0, 250, 0, 1);
      sinceRecheck := RECHECK;
      lastInject, sinceFull, lastSeq, lastSig, accepted := 0, 0, 0, 0, 0;
      dmg := null;
      tried := RECHECK;
      parms := new Update[8](_ => Update(Rect(0, 0, 0, 0), 0, 0, 0, 0, 0, 0));
      cache := new CacheEntry[MAX_OBJ](_ => CacheEntry(0, PlaneProps(0, 0)));
      pend := new int[MAX_OBJ];
      pendFb := new int[MAX_OBJ];
      cN, fbProp, fetched, nPend, request := 0, 0, [], 0, [];
    }

    // ------------------------------------------------------------- the damage mapping

    method RefreshTunables(props: Tunables)
      modifies this`tun, this`sinceRecheck
      requires Shape()
      ensures State() == Rechecked(old(State()), props)
    {
      sinceRecheck := sinceRecheck + 1;
      if sinceRecheck < RECHECK {
        return;
      }
      sinceRecheck := 0;
      tun := props;
    }

    /** The mapping is attached only once its initialiser has finished, and then at the first due
        attempt that can open it. `opens` says whether open and mmap succeed. */
    method AttachDamage(opens: bool) returns (ghost ready: bool)
      requires Shape() && MapValid()
      modifies this`dmg, this`tried, sf`now, sf`loads
      ensures MapValid() && old(sf.now) <= sf.now && old(sf.PhaseNow()) <= sf.PhaseNow()
      ensures sf.loads <= old(sf.loads) + 2
      ensures State() == Attached(old(State()), ready)
      ensures ready ==> opens
      ensures opens && old(dmg) == null && old(tried) + 1 >= RECHECK && |INIT_STORES| <= old(sf.now) ==> ready
    {
      ready := false;
      ghost var start := sf.now;
      PhaseMonotone(sf.pubs, sf.now, sf.now);
      if dmg != null {
        return;
      }
      tried := tried + 1;
      if tried < RECHECK {
        return;
      }
      tried := 0;
      if !opens {
        return;
      }
      var found := CheckMap();
      PhaseMonotone(sf.pubs, start, sf.now);
      if !found {
        return;
      }
      dmg := sf;
      ready := true;
    }

    /** Magic number and version are there exactly once the initialiser has finished. */
    method CheckMap() returns (found: bool)
      requires sf.Valid()
      modifies sf`now, sf`loads
      ensures sf.Valid() && old(sf.now) <= sf.now && sf.loads <= old(sf.loads) + 2
      ensures found ==> 2 <= sf.PhaseNow()
      ensures |INIT_STORES| <= old(sf.now) ==> found
    {
      var magic := sf.Read(Magic);
      ghost var t := sf.now;
      if |INIT_STORES| <= t {
        MagicKept(sf.pubs, t);
      }
      if magic != DAMAGE_MAGIC {
        return false;
      }
      var version := sf.Read(Version);
      AttachedAfterInit(sf.pubs, t, sf.now);
      if |INIT_STORES| <= sf.now {
        MagicKept(sf.pubs, sf.now);
      }
      found := version == DAMAGE_VERSION;
    }

    /** The seqlock read.  An accepted reading names the stretch of time it was taken in: its
        sequence word was the same at both ends, and unless 2^31 or more publications went by
        in between, its rectangles and full flag are exactly those of the one publication its
        sequence word numbers.  It reports a change exactly when the number of publications since
        the one accepted before is not a multiple of 2^31.  If the writer stands still between two
        publications the reading is accepted; only after a fourth failed attempt is it contended. */
    method ReadDamage(out: array<Rect>)
      returns (n: nat, full: int, changed: bool, ghost reading: Reading, ghost from: nat, ghost attempts: nat)
      requires Shape() && MapValid() && out.Length == DAMAGE_MAX
      modifies this`lastSeq, this`accepted, sf`now, sf`loads, out
      ensures MapValid() && old(sf.now) <= from <= sf.now && old(sf.PhaseNow()) <= sf.PhaseNow()
      ensures n <= DAMAGE_MAX
      ensures attempts <= 4 && sf.loads <= old(sf.loads) + attempts * LOADS_PER_ATTEMPT
      ensures reading.Contended? ==> attempts == 4
      ensures reading.Detached? <==> dmg == null
      ensures !reading.Accepted? ==> n == 0 && full == 0 && changed && lastSeq == old(lastSeq) && accepted == old(accepted)
      ensures dmg != null && Still(old(sf.PhaseNow()), sf.PhaseNow()) ==> reading.Accepted?
      ensures reading.Accepted? ==> reading == Accepted(lastSeq, out[..n], full) && Taken(reading, accepted, from)
      ensures reading.Accepted? ==>
                && old(accepted) <= accepted && changed == (lastSeq != old(lastSeq))
                && (changed <==> (accepted - old(accepted)) % SEQ_PERIOD != 0)
    {
      n, full, changed, reading, from, attempts := 0, 0, true, Contended, sf.now, 0;
      PhaseMonotone(sf.pubs, sf.now, sf.now);
      if dmg == null {
        reading := Detached;
        return;
      }
      ghost var entry := sf.PhaseNow();
      for attempt := 0 to 4
        invariant MapValid() && old(sf.now) <= sf.now && dmg == sf && entry <= sf.PhaseNow()
        invariant lastSeq == old(lastSeq) && accepted == old(accepted)
        invariant n == 0 && full == 0 && changed && reading == Contended
        invariant attempts == attempt && sf.loads <= old(sf.loads) + attempts * LOADS_PER_ATTEMPT
        invariant attempt > 0 ==> !Still(entry, sf.PhaseNow())
      {
        var ok;
        attempts := attempts + 1;
        ok, n, full, changed, reading, from := Attempt(out);
        if ok {
          return;
        }
      }
      from := sf.now;
    }

    /** What an accepted reading is: the publication its sequence word numbers, whole. */
    ghost predicate Taken(reading: Reading, number: nat, from: nat)
      requires sf.Valid()
      reads sf
    {
      && from <= sf.now && reading.Accepted?
      && 2 * number == Phase(sf.pubs, from) && reading.seqWord == SeqWord(number)
      && Load(sf.log[..from], Seq) == reading.seqWord == Load(sf.log[..sf.now], Seq)
      && (sf.PhaseNow() - Phase(sf.pubs, from) < U32 ==>
            Phase(sf.pubs, from) == sf.PhaseNow() && Reads(sf.pubs, sf.PhaseNow(), reading))
    }

    /** One attempt: taken over if the sequence word is even and did not change. */
    method Attempt(out: array<Rect>)
      returns (ok: bool, n: nat, full: int, changed: bool, ghost reading: Reading, ghost from: nat)
      requires Shape() && MapValid() && out.Length == DAMAGE_MAX && dmg == sf
      modifies this`lastSeq, this`accepted, sf`now, sf`loads, out
      ensures MapValid() && old(sf.now) <= from <= sf.now && old(sf.PhaseNow()) <= sf.PhaseNow()
      ensures n <= DAMAGE_MAX && sf.loads <= old(sf.loads) + LOADS_PER_ATTEMPT
      ensures !ok ==> n == 0 && full == 0 && changed && reading == Contended && lastSeq == old(lastSeq) && accepted == old(accepted)
      ensures Still(old(sf.PhaseNow()), sf.PhaseNow()) ==> ok
      ensures ok ==> reading == Accepted(lastSeq, out[..n], full) && Taken(reading, accepted, from)
      ensures ok ==>
                && old(accepted) <= accepted && changed == (lastSeq != old(lastSeq))
                && (changed <==> (accepted - old(accepted)) % SEQ_PERIOD != 0)
    {
      var s1, s2, c, f;
      n, full, changed, reading := 0, 0, true, Contended;
      s1, c, f, s2, from := ReadOnce(out);
      ok := s1 % 2 != 1 && s1 == s2;
      if ok {
        changed := Accept(s1, Phase(sf.pubs, from));
        full := f;
        n := c;
        reading := Accepted(lastSeq, out[..n], full);
      }
    }

    /** Takes over the sequence word of publication g/2. */
    method Accept(s1: int, ghost g: nat) returns (changed: bool)
      requires g % 2 == 0 && s1 == SeqWord(g / 2) && lastSeq == SeqWord(accepted) && 2 * accepted <= g
      modifies this`lastSeq, this`accepted
      ensures lastSeq == s1 && 2 * accepted == g && old(accepted) <= accepted && lastSeq == SeqWord(accepted)
      ensures changed == (lastSeq != old(lastSeq)) && (changed <==> (accepted - old(accepted)) % SEQ_PERIOD != 0)
      ensures lastSeq % 2 == 0
    {
      ChangeDetection(accepted, g / 2);
      SeqWordOf(g);
      EvenResidue(g);
      changed := s1 != lastSeq;
      lastSeq := s1;
      accepted := g / 2;
    }

    /** One attempt: the sequence word, the data words, the sequence word again. */
    method ReadOnce(out: array<Rect>) returns (s1: int, c: nat, f: int, s2: int, ghost from: nat)
      requires Shape() && MapValid() && out.Length == DAMAGE_MAX && dmg == sf
      modifies sf`now, sf`loads, out
      ensures MapValid() && old(sf.now) <= from <= sf.now
      ensures old(sf.PhaseNow()) <= Phase(sf.pubs, from) <= sf.PhaseNow()
      ensures sf.loads <= old(sf.loads) + LOADS_PER_ATTEMPT
      ensures c <= DAMAGE_MAX
      ensures s1 == Load(sf.log[..from], Seq)
      ensures s1 % 2 != 1 ==> Phase(sf.pubs, from) % 2 == 0 && s1 == SeqWord(Phase(sf.pubs, from) / 2)
      ensures s1 % 2 != 1 ==> s2 == Load(sf.log[..sf.now], Seq)
      ensures Still(old(sf.PhaseNow()), sf.PhaseNow()) ==> s1 % 2 != 1 && s1 == s2
      ensures s1 % 2 == 0 && s1 == s2 && sf.PhaseNow() - Phase(sf.pubs, from) < U32 ==>
                && Phase(sf.pubs, from) == sf.PhaseNow()
                && Reads(sf.pubs, sf.PhaseNow(), Accepted(s1, out[..c], f))
    {
      ghost var entry := sf.now;
      c, f, s2 := 0, 0, 0;
      s1 := sf.Read(Seq);
      from := sf.now;
      PhaseMonotone(sf.pubs, entry, from);
      PhaseMonotone(sf.pubs, from, from);
      PhaseInvariant(sf.pubs, from);
      EvenResidue(Phase(sf.pubs, from));
      if s1 % 2 == 1 {
        return;
      }
      SeqWordOf(Phase(sf.pubs, from));
      c, f := ReadData(out, from);
      ghost var u := sf.now;
      s2 := sf.Read(Seq);
      PhaseMonotone(sf.pubs, u, sf.now);
      PhaseInvariant(sf.pubs, sf.now);
      if s1 == s2 && sf.PhaseNow() - Phase(sf.pubs, from) < U32 {
        AtomicWindow(sf.pubs, from, sf.now, sf.now);
      }
    }

    /** The data words.  They are one publication's if the writer did not move meanwhile; the
        clamp keeps the array accesses in range even if it did. */
    method ReadData(out: array<Rect>, ghost from: nat) returns (c: nat, f: int)
      requires Shape() && MapValid() && out.Length == DAMAGE_MAX && dmg == sf && from <= sf.now
      requires 2 <= Phase(sf.pubs, from) <= sf.PhaseNow() && Phase(sf.pubs, from) % 2 == 0
      modifies sf`now, sf`loads, out
      ensures MapValid() && old(sf.now) <= sf.now && old(sf.PhaseNow()) <= sf.PhaseNow()
      ensures c <= DAMAGE_MAX && sf.loads == old(sf.loads) + 2 + 4 * c
      ensures sf.PhaseNow() == Phase(sf.pubs, from) ==>
                && Phase(sf.pubs, from) / 2 <= |sf.pubs| + 1
                && out[..c] == Numbered(sf.pubs, Phase(sf.pubs, from) / 2).rects
                && f == Numbered(sf.pubs, Phase(sf.pubs, from) / 2).full
    {
      ghost var g := Phase(sf.pubs, from);
      PhaseInvariant(sf.pubs, from);
      ghost var p := Numbered(sf.pubs, g / 2);
      c, f := ReadCounts(from);
      for i := 0 to c
        invariant MapValid() && dmg == sf && old(sf.now) <= sf.now && old(sf.PhaseNow()) <= sf.PhaseNow()
        invariant sf.loads == old(sf.loads) + 2 + 4 * i
        invariant sf.PhaseNow() == g ==> c == |p.rects| && f == p.full && out[..i] == p.rects[..i]
      {
        out[i] := ReadRect(i, from);
      }
      assert p.rects[..|p.rects|] == p.rects;
    }

    method ReadCounts(ghost from: nat) returns (c: nat, f: int)
      requires Shape() && MapValid() && dmg == sf && from <= sf.now
      requires 2 <= Phase(sf.pubs, from) <= sf.PhaseNow() && Phase(sf.pubs, from) % 2 == 0
      modifies sf`now, sf`loads
      ensures MapValid() && old(sf.now) <= sf.now && old(sf.PhaseNow()) <= sf.PhaseNow()
      ensures c <= DAMAGE_MAX && sf.loads == old(sf.loads) + 2
      ensures sf.PhaseNow() == Phase(sf.pubs, from) ==>
                && Phase(sf.pubs, from) / 2 <= |sf.pubs| + 1
                && c == |Numbered(sf.pubs, Phase(sf.pubs, from) / 2).rects|
                && f == Numbered(sf.pubs, Phase(sf.pubs, from) / 2).full
    {
      var count := ReadWord(Count, from);
      var full := ReadWord(Full, from);
      SoundNumbered(Phase(sf.pubs, from) / 2);
      c := ClampCount(AsU32(count));
      f := AsU32(full);
    }

    lemma SoundNumbered(k: nat)
      requires MapValid()
      ensures 1 <= k <= |sf.pubs| + 1 ==> SoundPublication(Numbered(sf.pubs, k))
    {
    }

    /** The four words of rectangle `i`. */
    method ReadRect(i: nat, ghost from: nat) returns (r: Rect)
      requires Shape() && MapValid() && dmg == sf && from <= sf.now
      requires 2 <= Phase(sf.pubs, from) <= sf.PhaseNow() && Phase(sf.pubs, from) % 2 == 0
      modifies sf`now, sf`loads
      ensures MapValid() && old(sf.now) <= sf.now && old(sf.PhaseNow()) <= sf.PhaseNow()
      ensures sf.loads == old(sf.loads) + 4
      ensures sf.PhaseNow() == Phase(sf.pubs, from) ==>
                && Phase(sf.pubs, from) / 2 <= |sf.pubs| + 1
                && (i < |Numbered(sf.pubs, Phase(sf.pubs, from) / 2).rects| ==>
                      r == Numbered(sf.pubs, Phase(sf.pubs, from) / 2).rects[i])
    {
      var l := ReadWord(Side(i, 0), from);
      var t := ReadWord(Side(i, 1), from);
      var x := ReadWord(Side(i, 2), from);
      var b := ReadWord(Side(i, 3), from);
      r := Rect(l, t, x, b);
    }

    method ReadWord(w: Word, ghost from: nat) returns (v: int)
      requires Shape() && MapValid() && dmg == sf && from <= sf.now
      requires 2 <= Phase(sf.pubs, from) <= sf.PhaseNow() && Phase(sf.pubs, from) % 2 == 0
      modifies sf`now, sf`loads
      ensures MapValid() && old(sf.now) <= sf.now && old(sf.PhaseNow()) <= sf.PhaseNow()
      ensures sf.loads == old(sf.loads) + 1
      ensures sf.PhaseNow() == Phase(sf.pubs, from) ==>
                && Phase(sf.pubs, from) / 2 <= |sf.pubs| + 1
                && ShowsWord(Numbered(sf.pubs, Phase(sf.pubs, from) / 2), w, v)
    {
      ghost var u := sf.now;
      v := sf.Read(w);
      PhaseMonotone(sf.pubs, u, sf.now);
      if sf.PhaseNow() == Phase(sf.pubs, from) {
        LoadsOf(sf, from, sf.now);
      }
    }

    // ------------------------------------------------------------- commits

    /** Fills the update array; rectangles beyond the returned count are left as they were. */
    method InitParms(dt: int, damage: seq<Rect>, forceFull: bool) returns (n: nat)
      requires Shape() && |damage| <= DAMAGE_MAX
      modifies parms, this`sinceFull
      ensures sinceFull == NextSinceFull(tun, old(sinceFull))
      ensures n == |Submitted(damage, forceFull || CleanDue(tun, old(sinceFull)))| <= DAMAGE_MAX
      ensures parms[..n] == Entries(Submitted(damage, forceFull || CleanDue(tun, old(sinceFull))),
                                    Waveform(tun, old(sinceFull), dt), UpdateMode(tun, old(sinceFull)),
                                    old(parms[0].marker), tun.flag)
      ensures parms[n..] == old(parms[..])[n..]
      ensures parms[0].marker == old(parms[0].marker)
      ensures var clean := tun.fullEvery > 0 && old(sinceFull) >= tun.fullEvery - 1;
              var moving := tun.fastWaveform > 0 && 0 <= dt < tun.fastMs;
              forall i :: 0 <= i < n ==>
                && parms[i].updateMode == (if clean then 1 else tun.updateMode)
                && parms[i].waveform == if !clean && moving then tun.fastWaveform else tun.waveform
    {
      var wf, upd, full := Choose(dt, forceFull);
      n := Fill(if full then [] else damage, wf, upd);
    }

    /** One entry per damage rectangle, or a single full-panel entry when there is none. */
    method Fill(damage: seq<Rect>, wf: int, upd: int) returns (n: nat)
      requires Shape() && |damage| <= DAMAGE_MAX
      modifies parms
      ensures n == |Submitted(damage, false)| <= DAMAGE_MAX
      ensures parms[..n] == Entries(Submitted(damage, false), wf, upd, old(parms[0].marker), tun.flag)
      ensures parms[n..] == old(parms[..])[n..]
      ensures parms[0].marker == old(parms[0].marker)
    {
      n := if |damage| == 0 then 1 else |damage|;
      ghost var rects := Submitted(damage, false);
      for i := 0 to n
        invariant forall j :: 0 <= j < i ==> parms[j] == Update(rects[j], wf, upd, old(parms[0].marker), 0, tun.flag, 0)
        invariant forall j :: i <= j < parms.Length ==> parms[j] == old(parms[j])
      {
        var r := PANEL;
        if |damage| != 0 {
          r := Clip(damage[i]);
          assert rects[i] == Clamp(damage[i]);
        }
        parms[i] := Update(r, wf, upd, parms[0].marker, 0, tun.flag, 0);
      }
    }

    /** Waveform, update mode and whether this is a forced cleaning pass. */
    method Choose(dt: int, forceFull: bool) returns (wf: int, upd: int, full: bool)
      modifies this`sinceFull
      ensures sinceFull == NextSinceFull(tun, old(sinceFull))
      ensures full == (forceFull || CleanDue(tun, old(sinceFull)))
      ensures wf == Waveform(tun, old(sinceFull), dt) && upd == UpdateMode(tun, old(sinceFull))
    {
      wf, upd, full := tun.waveform, tun.updateMode, forceFull;
      if tun.fastWaveform > 0 && dt >= 0 && dt < tun.fastMs {
        wf := tun.fastWaveform;
      }
      if tun.fullEvery > 0 {
        sinceFull := sinceFull + 1;
        if sinceFull >= tun.fullEvery {
          sinceFull := 0;
          full := true;
          wf := tun.waveform;
          upd := 1;
        }
      }
    }

    method Clip(damage: Rect) returns (r: Rect)
      ensures r == Clamp(damage)
    {
      var l, t, x, b := damage.left, damage.top, damage.right, damage.bottom;
      if l < 0 { l := 0; }
      if t < 0 { t := 0; }
      if x > PANEL_W { x := PANEL_W; }
      if b > PANEL_H { b := PANEL_H; }
      if x <= l || b <= t { l, t, x, b := 0, 0, PANEL_W, PANEL_H; }
      r := Rect(l, t, x, b);
    }

    /** Finds an object in the cache or adds it; every entry is what a fresh enumeration of the
        object gives, and no object is ever enumerated twice. */
    method Lookup(obj: int) returns (idx: int)
      requires Shape() && CacheValid()
      modifies this`cN, this`fbProp, this`fetched, cache
      ensures CacheValid()
      ensures -1 <= idx < cN && (idx >= 0 ==> cache[idx].obj == obj)
      ensures idx < 0 <==> obj !in fetched
      ensures fetched == Fetch(old(fetched), obj, drm)
      ensures fbProp == if fetched == old(fetched) || planes(obj).None? then old(fbProp) else ScanFb(planes(obj).value, old(fbProp))
    {
      idx := FindCached(obj);
      if idx >= 0 || cN >= MAX_OBJ || !drm {
        return;
      }
      idx := cN;
      cN := cN + 1;
      cache[idx] := CacheEntry(obj, PlaneProps(0, 0));
      fetched := fetched + [obj];
      match planes(obj) {
        case None =>
        case Some(props) =>
          Learn(idx, props);
      }
    }

    method FindCached(obj: int) returns (idx: int)
      requires Shape() && CacheValid()
      ensures -1 <= idx < cN && (idx >= 0 ==> cache[idx].obj == obj)
      ensures idx < 0 <==> obj !in fetched
    {
      for i := 0 to cN
        invariant forall j :: 0 <= j < i ==> cache[j].obj != obj
      {
        if cache[i].obj == obj {
          assert fetched[i] == obj;
          return i;
        }
      }
      return -1;
    }

    /** Walks an object's properties, remembering the ids that carry the names wanted. */
    method Learn(idx: nat, props: seq<int>)
      requires Shape() && idx < MAX_OBJ && cache[idx].props == PlaneProps(0, 0)
      modifies this`fbProp, cache
      ensures cache[idx] == CacheEntry(old(cache[idx].obj), Scan(props))
      ensures fbProp == ScanFb(props, old(fbProp))
      ensures forall j :: 0 <= j < MAX_OBJ && j != idx ==> cache[j] == old(cache[j])
    {
      for i := 0 to |props|
        invariant cache[idx] == CacheEntry(old(cache[idx].obj), Scan(props[..i]))
        invariant fbProp == ScanFb(props[..i], old(fbProp))
        invariant forall j :: 0 <= j < MAX_OBJ && j != idx ==> cache[j] == old(cache[j])
      {
        assert props[..i + 1][..i] == props[..i];
        match names(props[i]) {
          case None =>
          case Some(name) =>
            if name == "FB_ID" {
              fbProp := props[i];
            }
            if name == "EPDC_UPDATE_PARMS_ADDR" {
              cache[idx] := cache[idx].(props := cache[idx].props.(parms := props[i]));
            } else if name == "EPDC_UPDATE_CNT" {
              cache[idx] := cache[idx].(props := cache[idx].props.(cnt := props[i]));
            }
        }
      }
      assert props[..|props|] == props;
    }

    method FindPending(obj: int) returns (slot: int)
      requires Shape() && nPend <= MAX_OBJ
      ensures -1 <= slot < nPend
      ensures slot >= 0 <==> obj in pend[..nPend]
      ensures slot >= 0 ==> pend[slot] == obj
    {
      for i := 0 to nPend
        invariant forall j :: 0 <= j < i ==> pend[j] != obj
      {
        if pend[i] == obj {
          assert pend[..nPend][i] == obj;
          return i;
        }
      }
      return -1;
    }

    /** drmModeAtomicAddProperty: record the object, pass the property on unchanged. */
    method AddProperty(obj: int, prop: int, value: nat)
      requires Valid()
      modifies this`nPend, this`request, pend, pendFb
      ensures Valid()
      ensures request == old(request) + [PropSet(obj, prop, Number(value))]
    {
      Remember(obj, prop, value);
    }

    method Remember(obj: int, prop: int, value: nat)
      requires Shape() && PendValid() && BuffersValid()
      modifies this`nPend, this`request, pend, pendFb
      ensures PendValid() && BuffersValid()
      ensures request == old(request) + [PropSet(obj, prop, Number(value))]
    {
      var p := PropSet(obj, prop, Number(value));
      RememberStep(request, obj, prop, value, fbProp);
      Track(obj, prop, value);
      request := request + [p];
    }

    /** The slot an object has, or gets, and the buffer kept there: 0 for a new slot, until FB_ID is
        set on the object. */
    method Track(obj: int, prop: int, value: nat)
      requires Shape() && nPend <= MAX_OBJ && Distinct(pend[..nPend])
      modifies this`nPend, pend, pendFb
      ensures nPend <= MAX_OBJ
      ensures pend[..nPend] == Tracking(old(pend[..nPend]), obj)
      ensures pendFb[..nPend] == Buffering(pend[..nPend], old(pendFb[..nPend]), obj, fbProp != 0 && prop == fbProp, AsU32(value))
    {
      var slot := FindPending(obj);
      if slot < 0 && nPend < MAX_OBJ {
        slot := nPend;
        nPend := nPend + 1;
        pend[slot] := obj;
        pendFb[slot] := 0;
      }
      if slot >= 0 && fbProp != 0 && prop == fbProp {
        pendFb[slot] := AsU32(value);
      }
    }

    method PendSignature() returns (sig: int)
      requires Shape() && nPend <= MAX_OBJ
      ensures sig == Signature(pend[..nPend], pendFb[..nPend])
    {
      sig := 0;
      for i := 0 to nPend
        invariant sig == Signature(pend[..i], pendFb[..i])
      {
        assert pend[..i + 1][..i] == pend[..i] && pendFb[..i + 1][..i] == pendFb[..i];
        sig := (sig * 31 + pend[i] * 131 + pendFb[i]) % U32;
      }
    }

    /** Adds the update array and count to every EPDC plane of the request. */
    method Inject(count: nat) returns (sent: seq<PropSet>)
      requires Shape() && CacheValid() && PendValid()
      modifies this`cN, this`fbProp, this`fetched, cache
      ensures CacheValid()
      ensures fetched == FetchAll(old(fetched), Tracked(Ids(request)), drm)
      ensures sent == request + Injection(Tracked(Ids(request)), fetched, count)
    {
      sent := request;
      for i := 0 to nPend
        invariant CacheValid() && PendValid()
        invariant fetched == FetchAll(old(fetched), pend[..i], drm)
        invariant sent == request + Injection(pend[..i], fetched, count)
      {
        ghost var known, ids, before := fetched, pend[..i], sent;
        assert pend[i] !in ids by { assert pend[..nPend][i] == pend[i]; }
        sent := InjectOne(pend[i], sent, count);
        InjectStep(ids, known, fetched, pend[i], count, before, sent, request);
        assert pend[..i + 1] == ids + [pend[i]] && pend[..i + 1][..i] == ids;
      }
    }

    method InjectOne(obj: int, before: seq<PropSet>, count: nat) returns (sent: seq<PropSet>)
      requires Shape() && CacheValid()
      modifies this`cN, this`fbProp, this`fetched, cache
      ensures CacheValid()
      ensures fetched == Fetch(old(fetched), obj, drm)
      ensures sent == before + (if obj in fetched then PlaneUpdate(obj, count) else [])
    {
      sent := before;
      var idx := Lookup(obj);
      if idx < 0 {
        return;
      }
      var props := cache[idx].props;
      if props.parms == 0 || props.cnt == 0 {
        return;
      }
      sent := sent + [PropSet(obj, props.parms, UpdateArray), PropSet(obj, props.cnt, Number(count))];
    }

    /** What a commit hands to the kernel, given the action it took, the objects whose
        properties are known and the update array. */
    ghost predicate Sends(sent: seq<PropSet>, before: seq<PropSet>, action: Action, known: seq<int>, updates: seq<Update>) {
      match action
      case Pass(_) => sent == before
      case Drive(rects, wf, upd, marker, flag, _) =>
        && sent == before + Injection(Tracked(Ids(before)), known, |rects|)
        && |rects| <= |updates|
        && updates[..|rects|] == Entries(rects, wf, upd, marker, flag)
    }

    /** The first `n` entries of the array, as a commit at time `now` submits them: with update mode 1
        and the quality waveform on a cleaning pass, otherwise with the configured mode, and with the
        fast waveform, if there is one, soon after the last refresh. */
    ghost predicate Submission(c: Core, now: int, n: nat, marker: int, updates: seq<Update>) {
      var clean := c.tun.fullEvery > 0 && c.sinceFull >= c.tun.fullEvery - 1;
      var moving := c.tun.fastWaveform > 0 && c.lastInject != 0 && 0 <= now - c.lastInject < c.tun.fastMs;
      && n <= |updates|
      && forall i :: 0 <= i < n ==>
           && updates[i].updateMode == (if clean then 1 else c.tun.updateMode)
           && updates[i].waveform == (if !clean && moving then c.tun.fastWaveform else c.tun.waveform)
           && updates[i].flag == c.tun.flag && updates[i].marker == marker && updates[i].temp == 0 && updates[i].reserved == 0
    }

    lemma SubmissionExactly(c: Core, input: Input, sent: seq<PropSet>, before: seq<PropSet>, action: Action, known: seq<int>, updates: seq<Update>)
      requires action == AfterAttach(Attached(c, input.mapReady), input).1 && action.Drive? && Sends(sent, before, action, known, updates)
      ensures Submission(c, input.now, |action.rects|, action.marker, updates)
    {
      assert forall i :: 0 <= i < |action.rects| ==> updates[i] == updates[..|action.rects|][i];
    }

    /** drmModeAtomicCommit.  The decision is RefreshPolicy.Step on what the commit saw, a
        driving commit adds the update array to exactly the EPDC planes it tracked, and every
        path forgets the tracked objects. `opens` is whether the mapping can be opened and
        mapped; `clock` is the monotonic clock in milliseconds. */
    method Commit(flags: nat, props: Tunables, opens: bool, clock: int)
      returns (sent: seq<PropSet>, ghost input: Input, ghost action: Action, ghost from: nat)
      requires Valid()
      modifies this, parms, cache, sf`now, sf`loads
      ensures Valid() && nPend == 0 && request == []
      ensures input.testOnly == (flags / 0x100 % 2 == 1) && input.props == props && input.now == clock
      ensures input.sigKnown == (old(fbProp) != 0)
      ensures input.sig == SignatureOf(old(request), old(fbProp))
      ensures State() == Step(old(State()), input).0
      ensures action == Step(old(State()), input).1
      ensures Sends(sent, old(request), action, fetched, parms[..])
      ensures action.Drive? ==> Submission(Rechecked(old(State()), props), clock, |action.rects|, action.marker, parms[..])
      ensures fetched == if action.Drive? then FetchAll(old(fetched), Tracked(Ids(old(request))), drm) else old(fetched)
      ensures !input.testOnly && Rechecked(old(State()), props).tun.enable != 0 ==>
                ReadWell(Rechecked(old(State()), props), input, opens, old(sf.now), old(sf.PhaseNow()), old(accepted), accepted, from)
      ensures input.testOnly || Rechecked(old(State()), props).tun.enable == 0 ==>
                input.reading == Detached && accepted == old(accepted) && sf.now == old(sf.now)
    {
      PhaseMonotone(sf.pubs, sf.now, sf.now);
      PendSignatureIs();
      RefreshTunables(props);
      var testOnly := flags / 0x100 % 2 == 1;
      sent, from := request, sf.now;
      input := Input(testOnly, props, false, Detached, fbProp != 0, Signature(pend[..nPend], pendFb[..nPend]), clock);
      if testOnly || tun.enable == 0 {
        action := Pass(if testOnly then TestOnly else Disabled);
      } else {
        sent, input, action, from := CommitEnabled(input, clock, opens);
      }
      Forget();
    }

    /** The next request starts with nothing tracked. */
    method Forget()
      requires Shape() && CacheValid() && MapValid()
      modifies this`nPend, this`request
      ensures Valid() && nPend == 0 && request == []
      ensures State() == old(State())
    {
      nPend, request := 0, [];
    }

    method CommitEnabled(ghost seen: Input, clock: int, opens: bool)
      returns (sent: seq<PropSet>, ghost input: Input, ghost action: Action, ghost from: nat)
      requires Shape() && CacheValid() && PendValid() && MapValid() && seen.now == clock && seen.sigKnown == (fbProp != 0)
      requires seen.sig == Signature(pend[..nPend], pendFb[..nPend])
      modifies this`tried, this`dmg, this`lastSeq, this`accepted, this`lastSig, this`lastInject, this`sinceFull,
               this`cN, this`fbProp, this`fetched, parms, cache, sf`now, sf`loads
      ensures CacheValid() && MapValid()
      ensures input == seen.(mapReady := input.mapReady, reading := input.reading)
      ensures (State(), action) == AfterAttach(Attached(old(State()), input.mapReady), input)
      ensures Sends(sent, request, action, fetched, parms[..])
      ensures action.Drive? ==> Submission(old(State()), clock, |action.rects|, action.marker, parms[..])
      ensures fetched == if action.Drive? then FetchAll(old(fetched), Tracked(Ids(request)), drm) else old(fetched)
      ensures ReadWell(old(State()), input, opens, old(sf.now), old(sf.PhaseNow()), old(accepted), accepted, from)
    {
      var damage, full, go;
      ghost var notice;
      damage, full, go, input, notice, from := Look(seen, opens);
      sent, action := Act(go, clock, damage, full, input, notice);
      if action.Drive? {
        SubmissionExactly(old(State()), input, sent, request, action, fetched, parms[..]);
      }
    }

    /** Drives the panel if there is something new. */
    method Act(go: bool, clock: int, damage: seq<Rect>, full: int, ghost input: Input, ghost notice: Notice)
      returns (sent: seq<PropSet>, ghost action: Action)
      requires Shape() && CacheValid() && PendValid() && |damage| <= DAMAGE_MAX && go == notice.New?
      requires input.now == clock
      requires damage == if input.reading.Accepted? then input.reading.rects else []
      requires full == if input.reading.Accepted? then input.reading.full else 0
      modifies this`lastInject, this`sinceFull, this`cN, this`fbProp, this`fetched, parms, cache
      ensures CacheValid()
      ensures (State(), action) == if notice.Same? then (old(State()), Pass(notice.reason)) else Injected(old(State()), input)
      ensures Sends(sent, request, action, fetched, parms[..])
      ensures fetched == if action.Drive? then FetchAll(old(fetched), Tracked(Ids(request)), drm) else old(fetched)
    {
      if go {
        sent, action := Drive(clock, damage, full, input);
      } else {
        sent, action := request, Pass(notice.reason);
      }
    }

    /** What an enabled commit must have read: it attaches at the first due attempt that finds the
        mapping open and initialised, reads if and only if attached, and accepts if the writer stood
        still between two publications. */
    ghost predicate ReadAsDue(c: Core, input: Input, opens: bool, start: nat, phase: nat)
      requires sf.Valid()
      reads sf
    {
      && (input.mapReady ==> opens)
      && (opens && !c.attached && c.tried + 1 >= RECHECK && |INIT_STORES| <= start ==> input.mapReady)
      && (input.reading.Detached? <==> !Attached(c, input.mapReady).attached)
      && (!input.reading.Detached? && Still(phase, sf.PhaseNow()) ==> input.reading.Accepted?)
    }

    /** And which publication it then holds for accepted: `number`, after `was`. */
    ghost predicate ReadWell(c: Core, input: Input, opens: bool, start: nat, phase: nat, was: nat, number: nat, from: nat)
      requires sf.Valid()
      reads sf
    {
      && start <= sf.now && phase <= sf.PhaseNow() && was <= number
      && Atomic(input.reading, start, from)
      && ReadAsDue(c, input, opens, start, phase)
      && (if input.reading.Accepted? then 2 * number == Phase(sf.pubs, from) else number == was)
    }

    lemma PendSignatureIs()
      requires Shape() && PendValid() && BuffersValid()
      ensures Signature(pend[..nPend], pendFb[..nPend]) == SignatureOf(request, fbProp)
    {
    }

    /** An accepted reading is one publication, taken at a single moment of the commit. */
    ghost predicate Atomic(reading: Reading, start: nat, from: nat)
      reads sf
      requires sf.Valid()
    {
      && start <= from <= sf.now
      && (reading.Accepted? && sf.PhaseNow() - Phase(sf.pubs, from) < U32 ==>
            Phase(sf.pubs, from) == sf.PhaseNow() && Reads(sf.pubs, sf.PhaseNow(), reading))
    }

    /** Notices, which does not touch the tracked and the known objects. */
    method Look(ghost seen: Input, opens: bool)
      returns (damage: seq<Rect>, full: int, go: bool, ghost input: Input, ghost notice: Notice, ghost from: nat)
      requires Shape() && CacheValid() && PendValid() && MapValid()
      requires seen.sigKnown == (fbProp != 0) && seen.sig == Signature(pend[..nPend], pendFb[..nPend])
      modifies this`tried, this`dmg, this`lastSeq, this`accepted, this`lastSig, sf`now, sf`loads
      ensures CacheValid() && PendValid() && MapValid() && |damage| <= DAMAGE_MAX
      ensures input == seen.(mapReady := input.mapReady, reading := input.reading)
      ensures (State(), notice) == Noticed(Attached(old(State()), input.mapReady), input) && go == notice.New?
      ensures damage == if input.reading.Accepted? then input.reading.rects else []
      ensures full == if input.reading.Accepted? then input.reading.full else 0
      ensures ReadWell(old(State()), input, opens, old(sf.now), old(sf.PhaseNow()), old(accepted), accepted, from)
    {
      damage, full, go, input, notice, from := Notices(seen, opens);
    }

    /** Attaches if it can, reads the damage, and decides whether there is anything new. */
    method Notices(ghost seen: Input, opens: bool)
      returns (damage: seq<Rect>, full: int, go: bool, ghost input: Input, ghost notice: Notice, ghost from: nat)
      requires Shape() && MapValid() && nPend <= MAX_OBJ
      requires seen.sigKnown == (fbProp != 0) && seen.sig == Signature(pend[..nPend], pendFb[..nPend])
      modifies this`tried, this`dmg, this`lastSeq, this`accepted, this`lastSig, sf`now, sf`loads
      ensures MapValid() && |damage| <= DAMAGE_MAX
      ensures input == seen.(mapReady := input.mapReady, reading := input.reading)
      ensures (State(), notice) == Noticed(Attached(old(State()), input.mapReady), input) && go == notice.New?
      ensures damage == if input.reading.Accepted? then input.reading.rects else []
      ensures full == if input.reading.Accepted? then input.reading.full else 0
      ensures ReadWell(old(State()), input, opens, old(sf.now), old(sf.PhaseNow()), old(accepted), accepted, from)
    {
      var changed;
      damage, full, changed, input, from := TakeDamage(seen, opens);
      go, notice := Decide(changed, Attached(old(State()), input.mapReady), input);
    }

    /** Whether there is anything new, once the damage is read. */
    method Decide(changed: bool, ghost c: Core, ghost input: Input) returns (go: bool, ghost notice: Notice)
      requires Shape() && nPend <= MAX_OBJ && State() == c.(lastSeq := lastSeq)
      requires input.sigKnown == (fbProp != 0) && input.sig == Signature(pend[..nPend], pendFb[..nPend])
      requires if input.reading.Accepted? then input.reading.seqWord == lastSeq && changed == (lastSeq != c.lastSeq)
               else changed && lastSeq == c.lastSeq
      requires input.reading.Detached? <==> !c.attached
      modifies this`lastSig
      ensures (State(), notice) == Noticed(c, input) && go == notice.New?
    {
      go := true;
      if dmg != null {
        go := changed;
      } else if tun.skipSame != 0 && fbProp != 0 {
        var sig := PendSignature();
        if sig == lastSig {
          go := false;
        } else {
          lastSig := sig;
        }
      }
      notice := Noticed(c, input).1;
    }

    /** attach_damage, then read_damage. */
    method TakeDamage(ghost seen: Input, opens: bool)
      returns (damage: seq<Rect>, full: int, changed: bool, ghost input: Input, ghost from: nat)
      requires Shape() && MapValid()
      modifies this`tried, this`dmg, this`lastSeq, this`accepted, sf`now, sf`loads
      ensures MapValid() && |damage| <= DAMAGE_MAX
      ensures input == seen.(mapReady := input.mapReady, reading := input.reading)
      ensures State() == Attached(old(State()), input.mapReady).(lastSeq := lastSeq)
      ensures damage == if input.reading.Accepted? then input.reading.rects else []
      ensures full == if input.reading.Accepted? then input.reading.full else 0
      ensures if input.reading.Accepted? then input.reading.seqWord == lastSeq && changed == (lastSeq != old(lastSeq))
              else changed && lastSeq == old(lastSeq)
      ensures ReadWell(old(State()), input, opens, old(sf.now), old(sf.PhaseNow()), old(accepted), accepted, from)
    {
      ghost var ready := AttachDamage(opens);
      var out := new Rect[DAMAGE_MAX](_ => PANEL);
      ghost var reading, attempts;
      var n;
      n, full, changed, reading, from, attempts := ReadDamage(out);
      damage := out[..n];
      input := seen.(mapReady := ready, reading := reading);
    }

    /** The throttle test and, if it passes, the update. */
    method Drive(clock: int, damage: seq<Rect>, full: int, ghost input: Input)
      returns (sent: seq<PropSet>, ghost action: Action)
      requires Shape() && CacheValid() && PendValid() && |damage| <= DAMAGE_MAX
      requires input.now == clock
      requires damage == if input.reading.Accepted? then input.reading.rects else []
      requires full == if input.reading.Accepted? then input.reading.full else 0
      modifies this`lastInject, this`sinceFull, this`cN, this`fbProp, this`fetched, parms, cache
      ensures CacheValid() && PendValid()
      ensures State() == Injected(old(State()), input).0
      ensures action == Injected(old(State()), input).1
      ensures Sends(sent, request, action, fetched, parms[..])
      ensures fetched == if action.Drive? then FetchAll(old(fetched), Tracked(Ids(request)), drm) else old(fetched)
    {
      var dt := if lastInject != 0 then clock - lastInject else -1;
      if tun.interval > 0 && dt >= 0 && dt < tun.interval {
        return request, Pass(Throttled);
      }
      action := Injected(State(), input).1;
      var count := Prepare(clock, dt, damage, full, input);
      sent := Inject(count);
    }

    /** The state and the update array of a driving commit. */
    method Prepare(clock: int, dt: int, damage: seq<Rect>, full: int, ghost input: Input) returns (count: nat)
      requires Shape() && |damage| <= DAMAGE_MAX && input.now == clock
      requires damage == if input.reading.Accepted? then input.reading.rects else []
      requires full == if input.reading.Accepted? then input.reading.full else 0
      requires dt == Elapsed(State(), clock) && !(tun.interval > 0 && 0 <= dt < tun.interval)
      modifies this`lastInject, this`sinceFull, parms
      ensures State() == Injected(old(State()), input).0
      ensures var action := Injected(old(State()), input).1;
              && count == |action.rects| <= DAMAGE_MAX
              && parms[..count] == Entries(action.rects, action.waveform, action.updateMode, action.marker, action.flag)
    {
      ghost var c := State();
      lastInject := clock;
      parms[0] := parms[0].(marker := NextMarker(parms[0].marker));
      count := InitParms(dt, damage, full != 0);
      FullEither(damage, CleanDue(tun, c.sinceFull), full != 0);
    }
  }

  lemma FullEither(rects: seq<Rect>, a: bool, b: bool)
    ensures Submitted(rects, a || b) == Submitted(rects, b || a)
  {
  }
}
