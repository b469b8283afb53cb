/** flash-logical-via-edl.py: an image is split over a partition's extents and each piece is
    written at its device sector. */
module EdlFlash {
  import opened Common
  import opened Bytes
  import opened EdlLayout

  const CHUNK := 0x80_0000

  datatype Verdict = NoExtents | TooLarge | Misaligned | Planned | WriteFailed | Flashed

  /** One line of the plan: device sector, offset in the image, bytes to take from it. */
  datatype Step = Step(sector: nat, off: nat, take: nat)

  function Pad(n: nat): nat { (SECTOR - n % SECTOR) % SECTOR }

  /** The image padded with zeros to whole sectors. */
  function Padded(img: seq<byte>): seq<byte> { img + Zeros(Pad(|img|)) }

  /** What the partition holds after a flash: the image, zeros to the next sector, and behind
      that whatever was there. */
  function Content(img: seq<byte>, was: seq<byte>): (c: seq<byte>)
    requires |img| + Pad(|img|) <= |was|
    ensures |c| == |was|
  {
    img + Zeros(Pad(|img|)) + was[|img| + Pad(|img|)..]
  }

  function StepFor(ext: seq<Piece>, i: nat, size: nat): Step
    requires i < |ext|
  {
    var off := Total(ext[..i]);
    Step(Addr(ext[i]) / SECTOR, off, Min(Size(ext[i]), if size > off then size - off else 0))
  }

  function Taken(plan: seq<Step>): nat {
    if plan == [] then 0 else Taken(plan[..|plan| - 1]) + plan[|plan| - 1].take
  }

  ghost predicate IsPlan(plan: seq<Step>, ext: seq<Piece>, size: nat) {
    |plan| <= |ext| && forall i :: 0 <= i < |plan| ==> plan[i] == StepFor(ext, i, size)
  }

  method TotalBytes(ext: seq<Piece>) returns (total: nat)
    ensures total == Total(ext)
  {
    var sectors := 0;
    for i := 0 to |ext|
      invariant sectors * 512 == Total(ext[..i])
    {
      sectors := sectors + ext[i].len;
      assert ext[..i + 1][..i] == ext[..i];
    }
    assert ext[..|ext|] == ext;
    total := sectors * 512;
  }

  /** The plan, or nothing when an extent does not lie on device sectors. */
  method MakePlan(ext: seq<Piece>, size: nat) returns (plan: Option<seq<Step>>)
    ensures plan.Some? <==> AllAligned(ext)
    ensures plan.Some? ==> |plan.value| == |ext| && IsPlan(plan.value, ext, size)
  {
    var steps, imgOff := [], 0;
    for i := 0 to |ext|
      invariant |steps| == i && imgOff == Total(ext[..i])
      invariant IsPlan(steps, ext, size) && AllAligned(ext[..i])
    {
      var byteOff, nbytes := SUPER_OFFSET + ext[i].phys * 512, ext[i].len * 512;
      if byteOff % SECTOR != 0 || nbytes % SECTOR != 0 {
        assert !Aligned(ext[i]);
        return None;
      }
      var take := Min(nbytes, if size > imgOff then size - imgOff else 0);
      steps := steps + [Step(byteOff / SECTOR, imgOff, take)];
      imgOff := imgOff + nbytes;
      assert ext[..i + 1][..i] == ext[..i];
    }
    plan := Some(steps);
  }

  /** The piece file: the image from `off` on, copied in chunks, padded to whole sectors. */
  method CutPiece(img: seq<byte>, off: nat, take: nat) returns (piece: seq<byte>)
    requires off + take <= |img|
    ensures piece == img[off..off + take] + Zeros(Pad(take))
  {
    piece := [];
    var remaining: nat := take;
    while remaining > 0
      invariant remaining <= take && piece == img[off..off + take - remaining]
    {
      var at, n := off + take - remaining, Min(CHUNK, remaining);
      piece := piece + img[at..at + n];
      remaining := remaining - n;
    }
    piece := piece + Zeros(Pad(|piece|));
  }

  function PlanOf(ext: seq<Piece>, size: nat): (plan: seq<Step>)
    ensures IsPlan(plan, ext, size) && |plan| == |ext|
  {
    seq(|ext|, i requires 0 <= i < |ext| => StepFor(ext, i, size))
  }

  function PieceFor(img: seq<byte>, s: Step): seq<byte> {
    Slice(img, s.off, s.off + s.take) + Zeros(Pad(s.take))
  }

  /** edl ws: the device after one step; none if the piece does not end on the device. */
  function StepWritten(d: seq<byte>, img: seq<byte>, s: Step): (o: Option<seq<byte>>)
    ensures o.Some? ==> |o.value| == |d|
  {
    if s.take == 0 then Some(d)
    else if s.sector * SECTOR + |PieceFor(img, s)| > |d| then None
    else Some(Put(d, s.sector * SECTOR, PieceFor(img, s)))
  }

  function StepsWritten(d: seq<byte>, img: seq<byte>, plan: seq<Step>): (o: Option<seq<byte>>)
    ensures o.Some? ==> |o.value| == |d|
  {
    if plan == [] then Some(d)
    else
      var before := StepsWritten(d, img, plan[..|plan| - 1]);
      if before.None? then None else StepWritten(before.value, img, plan[|plan| - 1])
  }

  /** The device is left as it was when the first step that failed began. */
  ghost predicate StoppedAt(d: seq<byte>, now: seq<byte>, img: seq<byte>, plan: seq<Step>, n: nat) {
    n < |plan| && StepsWritten(d, img, plan[..n]) == Some(now) && StepsWritten(d, img, plan[..n + 1]).None?
  }

  /** flash-logical-via-edl.py: the whole program, on any extents. */
  method Flash(dev: array<byte>, img: seq<byte>, ext: seq<Piece>, go: bool) returns (v: Verdict)
    modifies dev
    ensures v == if ext == [] then NoExtents
                 else if |img| > Total(ext) then TooLarge
                 else if !AllAligned(ext) then Misaligned
                 else if !go then Planned
                 else if StepsWritten(old(dev[..]), img, PlanOf(ext, |img|)).Some? then Flashed else WriteFailed
    ensures v !in {Flashed, WriteFailed} ==> dev[..] == old(dev[..])
    ensures v.Flashed? ==> StepsWritten(old(dev[..]), img, PlanOf(ext, |img|)) == Some(dev[..])
    ensures v.WriteFailed? ==> exists n :: StoppedAt(old(dev[..]), dev[..], img, PlanOf(ext, |img|), n)
  {
    if ext == [] {
      return NoExtents;
    }
    var total := TotalBytes(ext);
    if |img| > total {
      return TooLarge;
    }
    var plan := MakePlan(ext, |img|);
    if plan.None? {
      return Misaligned;
    }
    if !go {
      return Planned;
    }
    assert plan.value == PlanOf(ext, |img|);
    var ok := WriteSteps(dev, img, plan.value);
    v := if ok then Flashed else WriteFailed;
  }

  ghost predicate Cuts(img: seq<byte>, plan: seq<Step>) {
    forall i :: 0 <= i < |plan| && plan[i].take > 0 ==> plan[i].off + plan[i].take <= |img|
  }

  method WriteSteps(dev: array<byte>, img: seq<byte>, plan: seq<Step>) returns (ok: bool)
    requires Cuts(img, plan)
    modifies dev
    ensures ok <==> StepsWritten(old(dev[..]), img, plan).Some?
    ensures ok ==> StepsWritten(old(dev[..]), img, plan) == Some(dev[..])
    ensures !ok ==> exists n :: StoppedAt(old(dev[..]), dev[..], img, plan, n)
  {
    ghost var was := dev[..];
    for i := 0 to |plan|
      invariant StepsWritten(was, img, plan[..i]) == Some(dev[..])
    {
      assert plan[..i + 1][..i] == plan[..i];
      if plan[i].take > 0 {
        ok := WriteStep(dev, img, plan[i]);
        if !ok {
          assert StoppedAt(was, dev[..], img, plan, i);
          StopsThere(was, img, plan, i + 1);
          return;
        }
      }
    }
    assert plan[..|plan|] == plan;
    ok := true;
  }

  method WriteStep(dev: array<byte>, img: seq<byte>, s: Step) returns (ok: bool)
    requires s.take > 0 && s.off + s.take <= |img|
    modifies dev
    ensures ok <==> StepWritten(old(dev[..]), img, s).Some?
    ensures ok ==> StepWritten(old(dev[..]), img, s) == Some(dev[..])
    ensures !ok ==> dev[..] == old(dev[..])
  {
    var piece := CutPiece(img, s.off, s.take);
    ok := s.sector * SECTOR + |piece| <= dev.Length;
    if ok {
      Store(dev, s.sector * SECTOR, piece);
    }
  }

  lemma {:induction false} StopsThere(d: seq<byte>, img: seq<byte>, plan: seq<Step>, n: nat)
    requires n <= |plan| && StepsWritten(d, img, plan[..n]).None?
    ensures StepsWritten(d, img, plan).None?
  {
    if n < |plan| {
      assert plan[..|plan| - 1][..n] == plan[..n];
      StopsThere(d, img, plan[..|plan| - 1], n);
    } else {
      assert plan[..n] == plan;
    }
  }

  /** The partition's contents once extents 0..i are written. */
  function ContentUpTo(img: seq<byte>, was: seq<byte>, off: nat): (c: seq<byte>)
    requires |img| + Pad(|img|) <= |was|
    ensures |c| == |was|
  {
    Put(was, 0, Slice(Padded(img), 0, off))
  }

  /** The contents as extents are written, as a function of the bytes done. */
  type Filling = nat -> seq<byte>

  ghost predicate Fills(fill: Filling, img: seq<byte>, was: seq<byte>)
    requires |img| + Pad(|img|) <= |was|
  {
    && (forall off {:trigger ContentUpTo(img, was, off)} :: fill(off) == ContentUpTo(img, was, off))
    && (forall off :: |fill(off)| == |was|)
  }

  ghost function Filler(img: seq<byte>, was: seq<byte>): (fill: Filling)
    requires |img| + Pad(|img|) <= |was|
    ensures Fills(fill, img, was) && fill(0) == was && fill(|was|) == Content(img, was)
  {
    AllWritten(img, was);
    off => if |img| + Pad(|img|) <= |was| then ContentUpTo(img, was, off) else was
  }

  /** On disjoint extents inside the device the steps all succeed, and spread the image, its padding
      and the old rest over the extents. */
  lemma FlashIsScatter(dev: seq<byte>, ext: seq<Piece>, img: seq<byte>)
    requires InDevice(ext, |dev|) && Disjoint(ext) && AllAligned(ext) && |img| <= Total(ext)
    ensures |img| + Pad(|img|) <= Total(ext)
    ensures StepsWritten(dev, img, PlanOf(ext, |img|)) == Some(Scatter(dev, ext, Content(img, Gather(dev, ext))))
  {
    var g, plan := Gather(dev, ext), PlanOf(ext, |img|);
    PaddedFits(img, ext);
    ScatterSelf(dev, ext);
    AllFilled(dev, ext, img, g, Filler(img, g), plan);
  }

  lemma AllFilled(dev: seq<byte>, ext: seq<Piece>, img: seq<byte>, g: seq<byte>, fill: Filling, plan: seq<Step>)
    requires InDevice(ext, |dev|) && Disjoint(ext) && AllAligned(ext) && |img| <= Total(ext)
    requires |img| + Pad(|img|) <= |g| == Total(ext) && Fills(fill, img, g) && Scatter(dev, ext, fill(0)) == dev
    requires |plan| == |ext| && IsPlan(plan, ext, |img|)
    ensures StepsWritten(dev, img, plan) == Some(Scatter(dev, ext, fill(|g|)))
  {
    StepsFill(dev, ext, img, g, fill, plan, |ext|);
    assert ext[..|ext|] == ext && plan[..|ext|] == plan;
  }

  lemma {:induction false} StepsFill(dev: seq<byte>, ext: seq<Piece>, img: seq<byte>, g: seq<byte>, fill: Filling, plan: seq<Step>, n: nat)
    requires InDevice(ext, |dev|) && Disjoint(ext) && AllAligned(ext) && |img| <= Total(ext)
    requires |img| + Pad(|img|) <= |g| == Total(ext) && Fills(fill, img, g) && Scatter(dev, ext, fill(0)) == dev
    requires |plan| == |ext| && IsPlan(plan, ext, |img|) && n <= |ext|
    ensures StepsWritten(dev, img, plan[..n]) == Some(Scatter(dev, ext, fill(Total(ext[..n]))))
  {
    if n > 0 {
      StepsFill(dev, ext, img, g, fill, plan, n - 1);
      assert plan[..n][..n - 1] == plan[..n - 1];
      StepFills(dev, ext, img, g, fill, plan[n - 1], n - 1);
    }
  }

  lemma StepFills(dev: seq<byte>, ext: seq<Piece>, img: seq<byte>, g: seq<byte>, fill: Filling, s: Step, i: nat)
    requires InDevice(ext, |dev|) && Disjoint(ext) && AllAligned(ext) && |img| <= Total(ext)
    requires |img| + Pad(|img|) <= |g| == Total(ext) && Fills(fill, img, g)
    requires i < |ext| && s == StepFor(ext, i, |img|)
    ensures StepWritten(Scatter(dev, ext, fill(Total(ext[..i]))), img, s) == Some(Scatter(dev, ext, fill(Total(ext[..i + 1]))))
  {
    StepFits(img, ext, i);
    StepFillsEither(dev, ext, img, g, fill, s, i, Size(ext[i]), Total(ext[..i + 1]));
  }

  lemma StepFillsEither(dev: seq<byte>, ext: seq<Piece>, img: seq<byte>, g: seq<byte>, fill: Filling, s: Step, i: nat, n: nat, next: nat)
    requires InDevice(ext, |dev|) && Disjoint(ext) && i < |ext| && n == Size(ext[i])
    requires |img| + Pad(|img|) <= |g| == Total(ext) && Fills(fill, img, g)
    requires s.off % SECTOR == 0 && n % SECTOR == 0 && s.off == Total(ext[..i]) && next == s.off + n
    requires s.sector * SECTOR == Addr(ext[i]) && s.take == Min(n, if |img| > s.off then |img| - s.off else 0)
    ensures StepWritten(Scatter(dev, ext, fill(s.off)), img, s) == Some(Scatter(dev, ext, fill(next)))
  {
    if s.take > 0 {
      TakeInside(s.off, n, s.take, |img|);
      StepFillsOn(dev, ext, img, g, fill, s, i, next);
    } else {
      FillSkips(fill, img, g, s.off, n, next);
    }
  }

  lemma StepFillsOn(dev: seq<byte>, ext: seq<Piece>, img: seq<byte>, g: seq<byte>, fill: Filling, s: Step, i: nat, next: nat)
    requires InDevice(ext, |dev|) && Disjoint(ext) && i < |ext|
    requires |img| + Pad(|img|) <= |g| == Total(ext) && Fills(fill, img, g)
    requires s.off % SECTOR == 0 && Size(ext[i]) % SECTOR == 0 && s.off == Total(ext[..i]) && next == s.off + Size(ext[i])
    requires s.sector * SECTOR == Addr(ext[i]) && s.off < |img| && s.take == Min(Size(ext[i]), |img| - s.off) && s.take > 0
    ensures StepWritten(Scatter(dev, ext, fill(s.off)), img, s) == Some(Scatter(dev, ext, fill(next)))
  {
    var piece := PieceFor(img, s);
    PieceCut(img, s);
    FillOn(fill, img, g, s.off, Size(ext[i]), s.take, piece, next);
    StepPuts(dev, ext, img, s, piece, fill(s.off), fill(next), i);
  }

  lemma TakeInside(off: nat, n: nat, take: nat, size: nat)
    requires take == Min(n, if size > off then size - off else 0) && take > 0
    ensures off < size && take == Min(n, size - off) && off + take <= size
  {
  }

  lemma PieceCut(img: seq<byte>, s: Step)
    requires s.off + s.take <= |img|
    ensures PieceFor(img, s) == img[s.off..s.off + s.take] + Zeros(Pad(s.take))
  {
  }

  lemma StepPuts(dev: seq<byte>, ext: seq<Piece>, img: seq<byte>, s: Step, piece: seq<byte>, c: seq<byte>, next: seq<byte>, i: nat)
    requires InDevice(ext, |dev|) && Disjoint(ext) && |c| == Total(ext) && i < |ext| && 0 < |piece| <= Size(ext[i])
    requires s.take > 0 && s.sector * SECTOR == Addr(ext[i]) && s.off == Total(ext[..i]) && piece == PieceFor(img, s)
    requires s.off + |piece| <= |c| && next == Put(c, s.off, piece)
    ensures StepWritten(Scatter(dev, ext, c), img, s) == Some(Scatter(dev, ext, next))
  {
    WriteExtent(dev, ext, c, next, i, piece);
  }

  lemma FillOn(fill: Filling, img: seq<byte>, g: seq<byte>, off: nat, n: nat, take: nat, piece: seq<byte>, next: nat)
    requires |img| + Pad(|img|) <= |g| && Fills(fill, img, g) && next == off + n
    requires off % SECTOR == 0 && n % SECTOR == 0 && off < |img| && take == Min(n, |img| - off) && take > 0
    requires piece == img[off..off + take] + Zeros(Pad(take))
    ensures 0 < |piece| <= n && off + |piece| <= |g| && fill(next) == Put(fill(off), off, piece)
  {
    assert fill(off) == ContentUpTo(img, g, off) && fill(next) == ContentUpTo(img, g, next);
    ContentStep(img, g, off, n, take, piece, fill(off), fill(next));
  }

  lemma FillSkips(fill: Filling, img: seq<byte>, g: seq<byte>, off: nat, n: nat, next: nat)
    requires |img| + Pad(|img|) <= |g| && Fills(fill, img, g) && next == off + n && (|img| <= off || n == 0) && off % SECTOR == 0
    ensures fill(next) == fill(off)
  {
    StepSkips(img, off, n);
    assert ContentUpTo(img, g, off + n) == ContentUpTo(img, g, off);
  }

  // ------------------------------------------------------------------ the pieces

  lemma {:induction false} AlignedTotal(ext: seq<Piece>)
    requires AllAligned(ext)
    ensures Total(ext) % SECTOR == 0
  {
    if ext != [] {
      AlignedTotal(ext[..|ext| - 1]);
      assert Aligned(ext[|ext| - 1]);
    }
  }

  lemma PaddedFits(img: seq<byte>, ext: seq<Piece>)
    requires AllAligned(ext) && |img| <= Total(ext)
    ensures |img| + Pad(|img|) <= Total(ext)
  {
    AlignedTotal(ext);
    PadEnds(0, Total(ext), |img|);
  }

  lemma AllWritten(img: seq<byte>, g: seq<byte>)
    requires |img| + Pad(|img|) <= |g|
    ensures ContentUpTo(img, g, |g|) == Content(img, g)
  {
    assert Slice(Padded(img), 0, |g|) == Padded(img);
  }

  /** Where the piece for extent `i` comes from and goes to. */
  lemma StepFits(img: seq<byte>, ext: seq<Piece>, i: nat)
    requires AllAligned(ext) && |img| <= Total(ext) && i < |ext|
    ensures var s := StepFor(ext, i, |img|);
            && s.off % SECTOR == 0 && Size(ext[i]) % SECTOR == 0
            && s.sector * SECTOR == Addr(ext[i]) && s.off == Total(ext[..i])
            && s.off + Size(ext[i]) == Total(ext[..i + 1])
            && s.take == Min(Size(ext[i]), if |img| > s.off then |img| - s.off else 0)
  {
    assert Aligned(ext[i]);
    assert ext[..i + 1][..i] == ext[..i];
    AlignedTotal(ext[..i]);
  }

  /** What is left out when the image has ended. */
  lemma StepSkips(img: seq<byte>, off: nat, n: nat)
    requires (|img| <= off || n == 0) && off % SECTOR == 0
    ensures Slice(Padded(img), 0, off + n) == Slice(Padded(img), 0, off)
  {
  }

  lemma CutWhole(img: seq<byte>, z: seq<byte>, off: nat, n: nat)
    requires off + n <= |img|
    ensures Slice(img + z, 0, off) + img[off..off + n] == Slice(img + z, 0, off + n)
    ensures |Slice(img + z, 0, off)| == off
  {
    assert n > 0 ==> Slice(img + z, 0, off + n) == img[..off + n];
    assert off > 0 ==> Slice(img + z, 0, off) == img[..off];
  }

  lemma CutTail(img: seq<byte>, z: seq<byte>, off: nat, n: nat)
    requires off < |img| && |img| + |z| <= off + n
    ensures Slice(img + z, 0, off) + (img[off..] + z) == Slice(img + z, 0, off + n)
    ensures |Slice(img + z, 0, off)| == off
  {
    assert Slice(img + z, 0, off + n) == img + z;
    assert off > 0 ==> Slice(img + z, 0, off) == img[..off];
  }

  lemma CutIsPadded(img: seq<byte>, off: nat, take: nat, n: nat)
    requires off % SECTOR == 0 && n % SECTOR == 0 && off < |img| && take == Min(n, |img| - off) && take > 0
    ensures var piece := img[off..off + take] + Zeros(Pad(take));
            && 0 < |piece| <= n && off + |piece| <= |Padded(img)|
            && Slice(Padded(img), 0, off) + piece == Slice(Padded(img), 0, off + n)
            && |Slice(Padded(img), 0, off)| == off
  {
    PadEnds(off, n, |img|);
    if off + n <= |img| {
      CutWhole(img, Zeros(Pad(|img|)), off, n);
      assert img[off..off + n] + Zeros(0) == img[off..off + n];
    } else {
      CutTail(img, Zeros(Pad(|img|)), off, n);
    }
  }

  lemma PadEnds(off: nat, n: nat, size: nat)
    requires off % SECTOR == 0 && n % SECTOR == 0
    ensures size <= off + n ==> size + Pad(size) <= off + n
    ensures off <= size ==> Pad(size - off) == Pad(size)
    ensures Pad(n) == 0
  {
  }

  lemma PutOn(g: seq<byte>, a: seq<byte>, b: seq<byte>)
    requires |a| + |b| <= |g|
    ensures Put(Put(g, 0, a), |a|, b) == Put(g, 0, a + b)
  {
  }

  lemma ContentStep(img: seq<byte>, g: seq<byte>, off: nat, n: nat, take: nat, piece: seq<byte>, c: seq<byte>, after: seq<byte>)
    requires off % SECTOR == 0 && n % SECTOR == 0 && off < |img| && take == Min(n, |img| - off) && take > 0
    requires |img| + Pad(|img|) <= |g| && piece == img[off..off + take] + Zeros(Pad(take))
    requires c == ContentUpTo(img, g, off) && after == ContentUpTo(img, g, off + n)
    ensures 0 < |piece| <= n && off + |piece| <= |g| == |c|
    ensures after == Put(c, off, piece)
  {
    CutIsPadded(img, off, take, n);
    PutOn(g, Slice(Padded(img), 0, off), piece);
  }

  lemma WriteExtent(dev: seq<byte>, ext: seq<Piece>, c: seq<byte>, next: seq<byte>, i: nat, piece: seq<byte>)
    requires InDevice(ext, |dev|) && Disjoint(ext) && |c| == Total(ext) && i < |ext| && 0 < |piece| <= Size(ext[i])
    requires Total(ext[..i]) + |piece| <= |c| && next == Put(c, Total(ext[..i]), piece)
    ensures Addr(ext[i]) + |piece| <= |dev|
    ensures Put(Scatter(dev, ext, c), Addr(ext[i]), piece) == Scatter(dev, ext, next)
  {
    ExtentContiguous(ext, i, |piece|);
    ScatterUpdate(dev, ext, c, Total(ext[..i]), piece);
  }

  lemma ExtentContiguous(ext: seq<Piece>, i: nat, n: nat)
    requires i < |ext| && 0 < n <= Size(ext[i])
    ensures Contiguous(ext, Total(ext[..i]), n) && Where(ext, Total(ext[..i])) == Addr(ext[i])
  {
    var o := Total(ext[..i]);
    WhereIn(ext, i, 0);
    WhereIn(ext, i, n - 1);
    forall p | o <= p < o + n ensures p < Total(ext) && Where(ext, p) == Addr(ext[i]) + (p - o) {
      WhereIn(ext, i, p - o);
    }
  }

  // ------------------------------------------------------------------ main results

  /** After a flash the partition reads as the image, zeros to the next sector and then its old
      contents, and no byte outside the partition's extents has changed. */
  lemma FlashRoundTrip(dev: seq<byte>, ext: seq<Piece>, img: seq<byte>, a: nat)
    requires InDevice(ext, |dev|) && Disjoint(ext) && AllAligned(ext) && |img| <= Total(ext)
    ensures |img| + Pad(|img|) <= Total(ext)
    ensures var after := Scatter(dev, ext, Content(img, Gather(dev, ext)));
            && StepsWritten(dev, img, PlanOf(ext, |img|)) == Some(after) && |after| == |dev|
            && Gather(after, ext)[..|img|] == img
            && (forall k :: |img| <= k < |img| + Pad(|img|) ==> Gather(after, ext)[k] == 0)
            && Gather(after, ext)[|img| + Pad(|img|)..] == Gather(dev, ext)[|img| + Pad(|img|)..]
            && (a < |dev| && Free(ext, a) ==> after[a] == dev[a])
  {
    FlashIsScatter(dev, ext, img);
    GatherScatter(dev, ext, Content(img, Gather(dev, ext)));
    if a < |dev| && Free(ext, a) {
      ScatterFree(dev, ext, Content(img, Gather(dev, ext)), a);
    }
  }

  lemma {:induction false} TakenUpTo(plan: seq<Step>, ext: seq<Piece>, size: nat)
    requires IsPlan(plan, ext, size)
    ensures Taken(plan) == Min(size, Total(ext[..|plan|]))
  {
    if plan != [] {
      var n := |plan| - 1;
      TakenUpTo(plan[..n], ext, size);
      assert ext[..n + 1][..n] == ext[..n];
    }
  }

  /** The takes of a plan add up to the image. */
  lemma PlanTakesAll(plan: seq<Step>, ext: seq<Piece>, size: nat)
    requires |plan| == |ext| && IsPlan(plan, ext, size) && size <= Total(ext)
    ensures Taken(plan) == size
  {
    TakenUpTo(plan, ext, size);
    assert ext[..|ext|] == ext;
  }
}
