/** Whole runs of SurfaceFlinger, the shim and the panel: which pixels the panel is left
    showing stale, and how refreshes are spaced.

    A round is the frames SurfaceFlinger composes since the previous commit followed by one
    commit.  A commit reads the newest complete publication, or finds the mapping contended. */
module EpdcRuns {
  import opened Common
  import opened Seqlock
  import opened DamageWriter
  import opened RefreshPolicy
  import EpdcShim

  type Image = (int, int) -> int

  datatype Round = Round(frames: seq<Region>, testOnly: bool, props: Tunables, mapReady: bool,
                         contended: bool, sigKnown: bool, sig: int, now: int, plane: bool)

  // ------------------------------------------------------------------ one round

  function Publish(pubs: seq<Publication>, frames: seq<Region>): seq<Publication>
    decreases |frames|
  {
    if frames == [] then pubs else Publish(pubs + [Merged(frames[0], false)], frames[1..])
  }

  /** What the commit of a round reads once `pubs` have been published. */
  function RoundReading(attached: bool, contended: bool, pubs: seq<Publication>): Reading {
    var last := Numbered(pubs, |pubs| + 1);
    if !attached then Detached
    else if contended then Contended
    else Accepted(SeqWord(|pubs| + 1), last.rects, last.full)
  }

  function RoundInput(c: Core, pubs: seq<Publication>, r: Round): Input {
    Input(r.testOnly, r.props, r.mapReady,
          RoundReading(Attached(Rechecked(c, r.props), r.mapReady).attached, r.contended, pubs),
          r.sigKnown, r.sig, r.now)
  }

  function RoundStep(c: Core, pubs: seq<Publication>, r: Round): (Core, Action) {
    Step(c, RoundInput(c, Publish(pubs, r.frames), r))
  }

  ghost predicate DirtyIn(frames: seq<Region>, x: int, y: int) {
    exists i :: 0 <= i < |frames| && Dirty(frames[i], x, y)
  }

  /** The kernel repaints the pixel on this commit. */
  ghost predicate Repaints(action: Action, plane: bool, x: int, y: int) {
    plane && action.Drive? && Covers(action.rects, x, y)
  }

  /** When publication `k` is complete before the commit starts and the next is not complete before
      it ends, an accepted reading is publication `k`. */
  lemma QuietReadingIsNewest(all: seq<Publication>, k: nat, g: nat, reading: Reading)
    requires 1 <= k <= |all| + 1 && 2 * k <= g <= 2 * k + 1
    requires EpdcShim.Reads(all, g, reading)
    ensures reading == RoundReading(true, false, all[..k - 1])
  {
    assert g / 2 == k;
  }

  /** The commits of the shim are the rounds.  `input` is what EpdcShim.Shim.Commit says it saw, `g`
      the phase of the mapping when it ended.  If the publications up to number `k` were complete
      when the commit started and the next one was not when it ended, it took the round's step. */
  lemma CommitIsRound(c: Core, pubs: seq<Publication>, r: Round, all: seq<Publication>, k: nat, g: nat, input: Input)
    requires 1 <= k <= |all| + 1 && 2 * k <= g <= 2 * k + 1 && Publish(pubs, r.frames) == all[..k - 1]
    requires input == Input(r.testOnly, r.props, r.mapReady, input.reading, r.sigKnown, r.sig, r.now)
    requires r.contended == input.reading.Contended?
    requires !r.testOnly && Rechecked(c, r.props).tun.enable != 0 ==>
               (input.reading.Detached? <==> !Attached(Rechecked(c, r.props), r.mapReady).attached)
    requires input.reading.Accepted? ==> EpdcShim.Reads(all, g, input.reading)
    ensures Step(c, input) == RoundStep(c, pubs, r)
  {
    if input.reading.Accepted? {
      QuietReadingIsNewest(all, k, g, input.reading);
    }
  }

  // ------------------------------------------------------------------ screen contents

  ghost predicate SameOnPanel(a: Image, b: Image) {
    forall x, y :: InPanel(x, y) ==> a(x, y) == b(x, y)
  }

  /** Each frame changes panel pixels only inside its damage. */
  ghost predicate Draws(fb: Image, frames: seq<Region>, images: seq<Image>) {
    |images| == |frames| &&
    (frames != [] ==>
       && (forall x, y :: InPanel(x, y) && images[0](x, y) != fb(x, y) ==> Dirty(frames[0], x, y))
       && Draws(images[0], frames[1..], images[1..]))
  }

  function Latest(fb: Image, images: seq<Image>): Image {
    if images == [] then fb else images[|images| - 1]
  }

  ghost function Repainted(panel: Image, fb: Image, action: Action, plane: bool): Image {
    (x, y) => if Repaints(action, plane, x, y) then fb(x, y) else panel(x, y)
  }

  ghost predicate Drawn(fb: Image, rounds: seq<Round>, images: seq<seq<Image>>) {
    |images| == |rounds| &&
    (rounds != [] ==> Draws(fb, rounds[0].frames, images[0])
                      && Drawn(Latest(fb, images[0]), rounds[1..], images[1..]))
  }

  /** The panel shows the framebuffer everywhere but where the waiting frames drew. */
  ghost predicate SameBut(panel: Image, fb: Image, waiting: seq<Region>) {
    forall x, y :: InPanel(x, y) && !DirtyIn(waiting, x, y) ==> panel(x, y) == fb(x, y)
  }

  /** The frames that wait for a real commit after a round: a validation pass shows none of them. */
  function Left(waiting: seq<Region>, r: Round): seq<Region> {
    if r.testOnly then waiting + r.frames else []
  }

  /** After every real commit of the run the panel shows the framebuffer, and after a validation pass
      it does so but for the frames that wait. */
  ghost predicate NeverStale(c: Core, pubs: seq<Publication>, rounds: seq<Round>, waiting: seq<Region>,
                             fb: Image, panel: Image, images: seq<seq<Image>>)
    requires Drawn(fb, rounds, images)
    decreases |rounds|
  {
    rounds != [] ==>
      var (d, action) := RoundStep(c, pubs, rounds[0]);
      var fb' := Latest(fb, images[0]);
      var panel' := Repainted(panel, fb', action, rounds[0].plane);
      SameBut(panel', fb', Left(waiting, rounds[0]))
      && NeverStale(d, Publish(pubs, rounds[0].frames), rounds[1..], Left(waiting, rounds[0]), fb', panel', images[1..])
  }

  /** Every real commit repaints every panel pixel dirtied by a frame since the last one. */
  ghost predicate Served(c: Core, pubs: seq<Publication>, rounds: seq<Round>, waiting: seq<Region>)
    decreases |rounds|
  {
    rounds != [] ==>
      var (d, action) := RoundStep(c, pubs, rounds[0]);
      && (rounds[0].testOnly || ServedRound(rounds[0], waiting + rounds[0].frames, action))
      && Served(d, Publish(pubs, rounds[0].frames), rounds[1..], Left(waiting, rounds[0]))
  }

  ghost predicate ServedRound(r: Round, due: seq<Region>, action: Action) {
    forall x, y :: InPanel(x, y) && DirtyIn(due, x, y) ==> Repaints(action, r.plane, x, y)
  }

  lemma DirtyJoin(a: seq<Region>, b: seq<Region>, x: int, y: int)
    ensures DirtyIn(a + b, x, y) <==> DirtyIn(a, x, y) || DirtyIn(b, x, y)
  {
    if i :| 0 <= i < |a| && Dirty(a[i], x, y) {
      assert Dirty((a + b)[i], x, y);
    }
    if i :| 0 <= i < |b| && Dirty(b[i], x, y) {
      assert Dirty((a + b)[|a| + i], x, y);
    }
  }

  lemma DirtySplit(frames: seq<Region>, x: int, y: int)
    requires frames != []
    ensures DirtyIn(frames, x, y) <==> Dirty(frames[0], x, y) || DirtyIn(frames[1..], x, y)
  {
    if DirtyIn(frames[1..], x, y) {
      var i :| 0 <= i < |frames[1..]| && Dirty(frames[1..][i], x, y);
      assert Dirty(frames[i + 1], x, y);
    }
    if DirtyIn(frames, x, y) && !Dirty(frames[0], x, y) {
      var i :| 0 <= i < |frames| && Dirty(frames[i], x, y);
      assert Dirty(frames[1..][i - 1], x, y);
    }
  }

  lemma {:induction false} DrawsOnlyDirty(fb: Image, frames: seq<Region>, images: seq<Image>, x: int, y: int)
    requires Draws(fb, frames, images) && InPanel(x, y) && !DirtyIn(frames, x, y)
    ensures Latest(fb, images)(x, y) == fb(x, y)
  {
    if frames != [] {
      DirtySplit(frames, x, y);
      DrawsOnlyDirty(images[0], frames[1..], images[1..], x, y);
      assert images[0](x, y) == fb(x, y);
    }
  }

  lemma {:induction false} ServedKeepsFresh(c: Core, pubs: seq<Publication>, rounds: seq<Round>, waiting: seq<Region>,
                                            fb: Image, panel: Image, images: seq<seq<Image>>)
    requires SameBut(panel, fb, waiting) && Drawn(fb, rounds, images) && Served(c, pubs, rounds, waiting)
    ensures NeverStale(c, pubs, rounds, waiting, fb, panel, images)
    decreases |rounds|
  {
    if rounds != [] {
      var r := rounds[0];
      var (d, action) := RoundStep(c, pubs, r);
      var fb' := Latest(fb, images[0]);
      var panel' := Repainted(panel, fb', action, r.plane);
      forall x, y | InPanel(x, y) && !DirtyIn(Left(waiting, r), x, y) ensures panel'(x, y) == fb'(x, y) {
        if !Repaints(action, r.plane, x, y) {
          DirtyJoin(waiting, r.frames, x, y);
          DrawsOnlyDirty(fb, r.frames, images[0], x, y);
        }
      }
      ServedKeepsFresh(d, Publish(pubs, r.frames), rounds[1..], Left(waiting, r), fb', panel', images[1..]);
    }
  }

  // ---------------------------------------------- an unserved run has a stale content

  /** Frames that leave the framebuffer as it is, but for a new value of (x, y) in each that dirties
      that pixel. */
  ghost function Counted(fb: Image, frames: seq<Region>, x: int, y: int): (images: seq<Image>)
    ensures |images| == |frames|
  {
    if frames == [] then []
    else
      var next: Image := if Dirty(frames[0], x, y) then (a, b) => if a == x && b == y then fb(x, y) + 1 else fb(a, b) else fb;
      [next] + Counted(next, frames[1..], x, y)
  }

  lemma {:induction false} CountedDraws(fb: Image, frames: seq<Region>, x: int, y: int)
    ensures Draws(fb, frames, Counted(fb, frames, x, y))
    ensures Latest(fb, Counted(fb, frames, x, y))(x, y) >= fb(x, y)
    ensures DirtyIn(frames, x, y) ==> Latest(fb, Counted(fb, frames, x, y))(x, y) > fb(x, y)
  {
    if frames != [] {
      var images := Counted(fb, frames, x, y);
      assert images[1..] == Counted(images[0], frames[1..], x, y);
      CountedDraws(images[0], frames[1..], x, y);
      DirtySplit(frames, x, y);
      assert Latest(fb, images) == Latest(images[0], images[1..]);
    }
  }

  ghost function RunCounted(fb: Image, rounds: seq<Round>, x: int, y: int): (images: seq<seq<Image>>)
    ensures |images| == |rounds|
  {
    if rounds == [] then []
    else
      var first := Counted(fb, rounds[0].frames, x, y);
      [first] + RunCounted(Latest(fb, first), rounds[1..], x, y)
  }

  /** Some real commit does not repaint (x, y) although a frame dirtied it since the last one. */
  ghost predicate Missed(c: Core, pubs: seq<Publication>, rounds: seq<Round>, waiting: seq<Region>, x: int, y: int)
    decreases |rounds|
  {
    rounds != [] &&
    var (d, action) := RoundStep(c, pubs, rounds[0]);
    || (!rounds[0].testOnly && DirtyIn(waiting + rounds[0].frames, x, y) && !Repaints(action, rounds[0].plane, x, y))
    || Missed(d, Publish(pubs, rounds[0].frames), rounds[1..], Left(waiting, rounds[0]), x, y)
  }

  lemma {:induction false} UnservedMisses(c: Core, pubs: seq<Publication>, rounds: seq<Round>, waiting: seq<Region>) returns (x: int, y: int)
    requires !Served(c, pubs, rounds, waiting)
    ensures InPanel(x, y) && Missed(c, pubs, rounds, waiting, x, y)
    decreases |rounds|
  {
    var r := rounds[0];
    var (d, action) := RoundStep(c, pubs, r);
    if !r.testOnly && !ServedRound(r, waiting + r.frames, action) {
      x, y :| InPanel(x, y) && DirtyIn(waiting + r.frames, x, y) && !Repaints(action, r.plane, x, y);
    } else {
      x, y := UnservedMisses(d, Publish(pubs, r.frames), rounds[1..], Left(waiting, r));
    }
  }

  lemma {:induction false} MissedGoesStale(c: Core, pubs: seq<Publication>, rounds: seq<Round>, waiting: seq<Region>,
                                           fb: Image, panel: Image, x: int, y: int)
    requires InPanel(x, y) && Missed(c, pubs, rounds, waiting, x, y)
    requires panel(x, y) <= fb(x, y) && (DirtyIn(waiting, x, y) ==> panel(x, y) < fb(x, y))
    ensures Drawn(fb, rounds, RunCounted(fb, rounds, x, y))
    ensures !NeverStale(c, pubs, rounds, waiting, fb, panel, RunCounted(fb, rounds, x, y))
    decreases |rounds|
  {
    var r, first := rounds[0], Counted(fb, rounds[0].frames, x, y);
    var (d, action) := RoundStep(c, pubs, r);
    var fb' := Latest(fb, first);
    var panel' := Repainted(panel, fb', action, r.plane);
    CountedDraws(fb, r.frames, x, y);
    DirtyJoin(waiting, r.frames, x, y);
    assert RunCounted(fb, rounds, x, y)[1..] == RunCounted(fb', rounds[1..], x, y);
    if Missed(d, Publish(pubs, r.frames), rounds[1..], Left(waiting, r), x, y) {
      MissedGoesStale(d, Publish(pubs, r.frames), rounds[1..], Left(waiting, r), fb', panel', x, y);
    } else {
      RunCountedDrawn(fb', rounds[1..], x, y);
      assert !DirtyIn(Left(waiting, r), x, y) && panel'(x, y) != fb'(x, y);
    }
  }

  lemma {:induction false} RunCountedDrawn(fb: Image, rounds: seq<Round>, x: int, y: int)
    ensures Drawn(fb, rounds, RunCounted(fb, rounds, x, y))
  {
    if rounds != [] {
      var first := Counted(fb, rounds[0].frames, x, y);
      CountedDraws(fb, rounds[0].frames, x, y);
      RunCountedDrawn(Latest(fb, first), rounds[1..], x, y);
      assert RunCounted(fb, rounds, x, y)[1..] == RunCounted(Latest(fb, first), rounds[1..], x, y);
    }
  }

  /** Exactly when no pixel is ever left stale, for any run at all: starting from a panel that
      shows the framebuffer, it shows the framebuffer after every real commit whatever the frames
      draw inside their damage, if and only if every real commit repaints what was dirtied since
      the one before. */
  lemma NeverStaleIffServed(c: Core, pubs: seq<Publication>, rounds: seq<Round>, fb: Image, panel: Image)
    requires SameOnPanel(panel, fb)
    ensures Served(c, pubs, rounds, []) <==>
            forall images :: Drawn(fb, rounds, images) ==> NeverStale(c, pubs, rounds, [], fb, panel, images)
  {
    if Served(c, pubs, rounds, []) {
      forall images | Drawn(fb, rounds, images) ensures NeverStale(c, pubs, rounds, [], fb, panel, images) {
        ServedKeepsFresh(c, pubs, rounds, [], fb, panel, images);
      }
    } else {
      var x, y := UnservedMisses(c, pubs, rounds, []);
      MissedGoesStale(c, pubs, rounds, [], fb, panel, x, y);
    }
  }

  // ---------------------------------------------- any run of an attached shim

  ghost predicate AllBounded(frames: seq<Region>) {
    forall i :: 0 <= i < |frames| ==> Bounded(frames[i])
  }

  ghost predicate VisibleIn(due: seq<Region>) {
    exists x, y :: InPanel(x, y) && DirtyIn(due, x, y)
  }

  /** The newest publication is that of the newest waiting frame. */
  ghost predicate NewestOf(pubs: seq<Publication>, waiting: seq<Region>) {
    waiting != [] ==> pubs != [] && pubs[|pubs| - 1] == Merged(waiting[|waiting| - 1], false)
  }

  predicate ThrottlesAt(c: Core, r: Round) {
    var d := Rechecked(c, r.props);
    d.tun.interval > 0 && 0 <= Elapsed(d, r.now) < d.tun.interval
  }

  /** The commit gets as far as reading the damage: it is a real one, and the shim is enabled. */
  predicate Looks(c: Core, r: Round) {
    !r.testOnly && Rechecked(c, r.props).tun.enable != 0
  }

  /** It drives the panel; `gap` publications have been made since the one last accepted. */
  predicate Drives(c: Core, r: Round, gap: int) {
    Looks(c, r) && !ThrottlesAt(c, r) && (r.contended || gap % SEQ_PERIOD != 0)
  }

  /** The number of the publication last accepted after a round that `n` publications precede. */
  function ReadAfter(c: Core, r: Round, n: nat, read: nat): nat {
    if Looks(c, r) && !r.contended then n + 1 else read
  }

  ghost predicate NewestAsks(frames: seq<Region>, x: int, y: int)
    requires frames != []
  {
    var newest := Merged(frames[|frames| - 1], false);
    ClampsToPanel(newest.rects) || Asks(newest, x, y)
  }

  /** It repaints what the frames dirtied that are due: it drives an EPDC plane, and refreshes all of
      it, or the newest of those frames asks for every visible pixel of the others too. */
  ghost predicate Reaches(c: Core, r: Round, due: seq<Region>, gap: int)
    requires due != []
  {
    && Drives(c, r, gap) && r.plane
    && (r.contended || CleanDue(Rechecked(c, r.props).tun, c.sinceFull)
        || forall x, y :: InPanel(x, y) && DirtyIn(due, x, y) ==> NewestAsks(due, x, y))
  }

  lemma NewestLeft(pubs: seq<Publication>, r: Round, waiting: seq<Region>)
    requires NewestOf(pubs, waiting)
    ensures |Publish(pubs, r.frames)| == |pubs| + |r.frames| && NewestOf(Publish(pubs, r.frames), waiting + r.frames)
  {
    if r.frames != [] {
      PublishNewest(pubs, r.frames);
    }
  }

  /** What a commit of an attached shim decides and leaves behind, whatever it is and whatever came
      before it. `read` is the publication last accepted. */
  lemma AnyRound(c: Core, pubs: seq<Publication>, r: Round, read: nat)
    requires c.attached && c.lastSeq == SeqWord(read) && read <= |pubs| + 1
    ensures var (d, action) := RoundStep(c, pubs, r); var n := |pubs| + |r.frames|;
            && d.attached && d.lastSeq == SeqWord(ReadAfter(c, r, n, read)) && d.tun == Rechecked(c, r.props).tun
            && (action.Drive? <==> Drives(c, r, n + 1 - read))
            && |Publish(pubs, r.frames)| == n
  {
    var n := |pubs| + |r.frames|;
    PublishCount(pubs, r.frames);
    ChangeDetection(read, n + 1);
  }

  /** It serves the frames that are due exactly if none of them is visible or it reaches them. */
  lemma RoundServes(c: Core, pubs: seq<Publication>, r: Round, waiting: seq<Region>, read: nat) returns (served: bool)
    requires c.attached && c.lastSeq == SeqWord(read) && read <= |pubs| + 1
    requires NewestOf(pubs, waiting) && AllBounded(waiting + r.frames)
    ensures served <==> ServedRound(r, waiting + r.frames, RoundStep(c, pubs, r).1)
    ensures served <==> !VisibleIn(waiting + r.frames) || Reaches(c, r, waiting + r.frames, |pubs| + |r.frames| + 1 - read)
    ensures NewestOf(Publish(pubs, r.frames), waiting + r.frames)
  {
    var due := waiting + r.frames;
    served := ServedRound(r, due, RoundStep(c, pubs, r).1);
    AnyRound(c, pubs, r, read);
    NewestLeft(pubs, r, waiting);
    if RoundStep(c, pubs, r).1.Drive? && due != [] {
      DrivenRects(c, pubs, r, due);
    }
  }

  /** What a driving commit repaints: the panel pixels the newest due frame asks for, all of them if
      it is contended or cleans or a rectangle of that frame clamps to the panel, and nothing else. */
  lemma DrivenRects(c: Core, pubs: seq<Publication>, r: Round, due: seq<Region>)
    requires Attached(Rechecked(c, r.props), r.mapReady).attached && RoundStep(c, pubs, r).1.Drive?
    requires due != [] && NewestOf(Publish(pubs, r.frames), due) && Bounded(due[|due| - 1])
    ensures var action := RoundStep(c, pubs, r).1;
            && 1 <= |action.rects| <= DAMAGE_MAX
            && (forall i :: 0 <= i < |action.rects| ==> OnPanel(action.rects[i]))
            && (action.cleaning <==> CleanDue(Rechecked(c, r.props).tun, c.sinceFull))
            && forall x, y :: InPanel(x, y) ==>
                 (Covers(action.rects, x, y) <==> r.contended || action.cleaning || NewestAsks(due, x, y))
  {
    var newest := Merged(due[|due| - 1], false);
    var action := RoundStep(c, pubs, r).1;
    var rects, full := if r.contended then [] else newest.rects, action.cleaning || (!r.contended && newest.full != 0);
    MergedCoverage(due[|due| - 1], false, 0, 0);
    assert action.rects == Submitted(rects, full);
    SubmittedCovers(rects, full, 0, 0);
    forall x, y | InPanel(x, y)
      ensures Covers(action.rects, x, y) <==> r.contended || action.cleaning || NewestAsks(due, x, y)
    {
      SubmittedCovers(rects, full, x, y);
    }
  }

  /** No panel pixel lies in the rectangle. */
  ghost predicate OffPanel(r: Rect) {
    forall x, y :: InPanel(x, y) ==> !Contains(r, x, y)
  }

  /** The panel pixels a frame refreshes, in terms of the frame alone: all of them if it has no
      rectangles, the bounding box if it has more than eight, its own otherwise; and all of them if a
      rectangle to be refreshed misses the panel. */
  ghost predicate FrameRefreshes(d: Region, x: int, y: int) {
    if d.rects == [] then true
    else if |d.rects| > 8 then Contains(d.bounds, x, y) || OffPanel(d.bounds)
    else Dirty(d, x, y) || exists i :: 0 <= i < |d.rects| && OffPanel(d.rects[i])
  }

  lemma ClampedOff(r: Rect, x: int, y: int)
    requires InPanel(x, y)
    ensures Contains(r, x, y) || OffPanel(r) <==> Contains(r, x, y) || Clamp(r) == PANEL
  {
    if Clamp(r) == PANEL && !Contains(r, x, y) {
      forall u, v | InPanel(u, v) ensures !Contains(r, u, v) {
        ClampExact(r, x, y);
        assert Contains(PANEL, x, y);
      }
    }
    if OffPanel(r) {
      assert !Contains(r, Max(r.left, 0), Max(r.top, 0)) || !InPanel(Max(r.left, 0), Max(r.top, 0));
    }
  }

  lemma NewestAsksFrame(frames: seq<Region>, x: int, y: int)
    requires frames != [] && InPanel(x, y)
    ensures NewestAsks(frames, x, y) <==> FrameRefreshes(frames[|frames| - 1], x, y)
  {
    var d := frames[|frames| - 1];
    var p := Merged(d, false);
    MergedExactly(d, false, x, y);
    forall i | 0 <= i < |p.rects|
      ensures Contains(p.rects[i], x, y) || OffPanel(p.rects[i]) <==> Contains(p.rects[i], x, y) || Clamp(p.rects[i]) == PANEL
    {
      ClampedOff(p.rects[i], x, y);
    }
    if |d.rects| > 8 {
      assert p.rects[0] == d.bounds;
    } else if i :| 0 <= i < |d.rects| && OffPanel(d.rects[i]) {
      assert Clamp(p.rects[i]) == PANEL || Contains(p.rects[i], x, y);
    }
  }

  /** A driving commit that is not contended and does not clean repaints exactly what the newest frame
      due refreshes; in particular only its bounding box if it has more than eight rectangles. */
  lemma DrivenRefreshes(c: Core, pubs: seq<Publication>, r: Round, due: seq<Region>, x: int, y: int)
    requires Attached(Rechecked(c, r.props), r.mapReady).attached && RoundStep(c, pubs, r).1.Drive?
    requires due != [] && NewestOf(Publish(pubs, r.frames), due) && Bounded(due[|due| - 1]) && InPanel(x, y)
    ensures Covers(RoundStep(c, pubs, r).1.rects, x, y)
            <==> r.contended || RoundStep(c, pubs, r).1.cleaning || FrameRefreshes(due[|due| - 1], x, y)
  {
    DrivenRects(c, pubs, r, due);
    NewestAsksFrame(due, x, y);
  }

  /** Every real commit of the run repaints what is due, or nothing visible is due. */
  ghost predicate AllReach(c: Core, pubs: seq<Publication>, rounds: seq<Round>, waiting: seq<Region>, read: nat)
    decreases |rounds|
  {
    rounds != [] ==>
      var r := rounds[0];
      var due, n := waiting + r.frames, |pubs| + |r.frames|;
      && (r.testOnly || !VisibleIn(due) || Reaches(c, r, due, n + 1 - read))
      && AllReach(RoundStep(c, pubs, r).0, Publish(pubs, r.frames), rounds[1..], Left(waiting, r), ReadAfter(c, r, n, read))
  }

  /** Both as a matter of the first round and of the others. */
  lemma OneRound(c: Core, pubs: seq<Publication>, rounds: seq<Round>, waiting: seq<Region>, read: nat)
      returns (d: Core, now: seq<Publication>, next: nat, head: bool)
    requires rounds != [] && c.attached && c.lastSeq == SeqWord(read) && read <= |pubs| + 1
    requires NewestOf(pubs, waiting) && AllBounded(waiting + rounds[0].frames)
    ensures d.attached && d.lastSeq == SeqWord(next) && next <= |now| + 1 && NewestOf(now, Left(waiting, rounds[0]))
    ensures Served(c, pubs, rounds, waiting) <==> head && Served(d, now, rounds[1..], Left(waiting, rounds[0]))
    ensures AllReach(c, pubs, rounds, waiting, read) <==> head && AllReach(d, now, rounds[1..], Left(waiting, rounds[0]), next)
  {
    var r, n := rounds[0], |pubs| + |rounds[0].frames|;
    d, now, next := RoundStep(c, pubs, r).0, Publish(pubs, r.frames), ReadAfter(c, r, n, read);
    AnyRound(c, pubs, r, read);
    var served := RoundServes(c, pubs, r, waiting, read);
    ServedHead(c, pubs, rounds, waiting, d, now, served);
    ReachHead(c, pubs, rounds, waiting, read, d, now, served);
    head := r.testOnly || served;
  }

  lemma ServedHead(c: Core, pubs: seq<Publication>, rounds: seq<Round>, waiting: seq<Region>, d: Core, now: seq<Publication>, served: bool)
    requires rounds != [] && d == RoundStep(c, pubs, rounds[0]).0 && now == Publish(pubs, rounds[0].frames)
    requires served <==> ServedRound(rounds[0], waiting + rounds[0].frames, RoundStep(c, pubs, rounds[0]).1)
    ensures Served(c, pubs, rounds, waiting) <==> (rounds[0].testOnly || served) && Served(d, now, rounds[1..], Left(waiting, rounds[0]))
  {
  }

  lemma ReachHead(c: Core, pubs: seq<Publication>, rounds: seq<Round>, waiting: seq<Region>, read: nat, d: Core, now: seq<Publication>, served: bool)
    requires rounds != [] && d == RoundStep(c, pubs, rounds[0]).0 && now == Publish(pubs, rounds[0].frames)
    requires var r := rounds[0];
             served <==> !VisibleIn(waiting + r.frames) || Reaches(c, r, waiting + r.frames, |pubs| + |r.frames| + 1 - read)
    ensures AllReach(c, pubs, rounds, waiting, read)
            <==> (rounds[0].testOnly || served) && AllReach(d, now, rounds[1..], Left(waiting, rounds[0]), ReadAfter(c, rounds[0], |pubs| + |rounds[0].frames|, read))
  {
  }

  /** Exactly which runs of an attached shim serve every frame: any number of frames before a commit,
      validation passes, idle, contended, disabled and throttled commits included. */
  lemma {:induction false} ServedExactly(c: Core, pubs: seq<Publication>, rounds: seq<Round>, waiting: seq<Region>, read: nat)
    requires c.attached && c.lastSeq == SeqWord(read) && read <= |pubs| + 1
    requires NewestOf(pubs, waiting) && AllBounded(waiting) && forall i :: 0 <= i < |rounds| ==> AllBounded(rounds[i].frames)
    ensures Served(c, pubs, rounds, waiting) <==> AllReach(c, pubs, rounds, waiting, read)
    decreases |rounds|
  {
    if rounds != [] {
      var r := rounds[0];
      assert AllBounded(r.frames);
      var d, now, next, head := OneRound(c, pubs, rounds, waiting, read);
      ServedExactly(d, now, rounds[1..], Left(waiting, r), next);
    }
  }

  // ---------------------------------------------- each frame followed by a real commit before the next

  /** Before the next frame comes, the last one has been followed by a real commit with an EPDC plane
      in it; around those there may be any validation passes and commits with nothing new.  The shim
      stays enabled. */
  ghost predicate Paced(rounds: seq<Round>, waiting: seq<Region>) {
    rounds != [] ==>
      var r := rounds[0];
      var due := waiting + r.frames;
      && |due| <= 1 && AllBounded(due) && r.props.enable != 0 && (r.testOnly || due == [] || r.plane)
      && Paced(rounds[1..], Left(waiting, r))
  }

  /** The sequence word never laps the reader: it laps only after 2^31 publications of which the
      reader, contended each time, accepted none. `gap` counts those since the last accepted. */
  ghost predicate NeverLapped(rounds: seq<Round>, waiting: seq<Region>, gap: nat) {
    rounds != [] ==>
      var r := rounds[0];
      var now := gap + |r.frames|;
      if r.testOnly || r.contended then NeverLapped(rounds[1..], Left(waiting, r), now)
      else (waiting + r.frames != [] ==> now % SEQ_PERIOD != 0) && NeverLapped(rounds[1..], [], 0)
  }

  /** No real commit that a visible frame is due at comes within the interval. */
  ghost predicate NeverThrottlesDamage(c: Core, pubs: seq<Publication>, rounds: seq<Round>, waiting: seq<Region>)
    decreases |rounds|
  {
    rounds != [] ==>
      var r := rounds[0];
      && (r.testOnly || !ThrottlesAt(c, r) || !VisibleIn(waiting + r.frames))
      && NeverThrottlesDamage(RoundStep(c, pubs, r).0, Publish(pubs, r.frames), rounds[1..], Left(waiting, r))
  }

  /** A single due frame, once its commit is neither throttled nor lapped, is served. */
  lemma OneDue(c: Core, r: Round, due: seq<Region>, gap: int)
    requires |due| == 1 && AllBounded(due) && Looks(c, r) && r.plane && (r.contended || gap % SEQ_PERIOD != 0)
    ensures Reaches(c, r, due, gap) <==> !ThrottlesAt(c, r)
  {
    forall x, y | InPanel(x, y) && DirtyIn(due, x, y) ensures NewestAsks(due, x, y) {
      MergedCoverage(due[0], false, x, y);
    }
  }

  lemma SuffixBounded(a: seq<Region>, b: seq<Region>)
    requires AllBounded(a + b)
    ensures AllBounded(b)
  {
    assert forall i :: 0 <= i < |b| ==> b[i] == (a + b)[|a| + i];
  }

  lemma {:induction false} PacedBounded(rounds: seq<Round>, waiting: seq<Region>)
    requires Paced(rounds, waiting)
    ensures forall i :: 0 <= i < |rounds| ==> AllBounded(rounds[i].frames)
  {
    if rounds != [] {
      SuffixBounded(waiting, rounds[0].frames);
      PacedBounded(rounds[1..], Left(waiting, rounds[0]));
      assert forall i :: 1 <= i < |rounds| ==> rounds[i] == rounds[1..][i - 1];
    }
  }

  lemma ThrottleHead(c: Core, pubs: seq<Publication>, rounds: seq<Round>, waiting: seq<Region>, d: Core, now: seq<Publication>, free: bool)
    requires rounds != [] && d == RoundStep(c, pubs, rounds[0]).0 && now == Publish(pubs, rounds[0].frames)
    requires free <==> !ThrottlesAt(c, rounds[0]) || !VisibleIn(waiting + rounds[0].frames)
    ensures NeverThrottlesDamage(c, pubs, rounds, waiting)
            <==> (rounds[0].testOnly || free) && NeverThrottlesDamage(d, now, rounds[1..], Left(waiting, rounds[0]))
  {
  }

  /** The same for a real round of a paced run. */
  lemma PacedServes(c: Core, r: Round, due: seq<Region>, gap: int) returns (free: bool)
    requires |due| <= 1 && AllBounded(due) && !r.testOnly && Looks(c, r)
    requires due != [] ==> r.plane && (r.contended || gap % SEQ_PERIOD != 0)
    ensures free <==> !ThrottlesAt(c, r) || !VisibleIn(due)
    ensures free <==> !VisibleIn(due) || Reaches(c, r, due, gap)
  {
    free := !ThrottlesAt(c, r) || !VisibleIn(due);
    if due != [] {
      OneDue(c, r, due, gap);
    }
  }

  lemma PacedTail(c: Core, rounds: seq<Round>, waiting: seq<Region>, n: nat, read: nat, next: nat)
    requires rounds != [] && c.tun.enable != 0 && read <= n + 1
    requires Paced(rounds, waiting) && NeverLapped(rounds, waiting, n + 1 - read)
    requires next == ReadAfter(c, rounds[0], n + |rounds[0].frames|, read)
    ensures Paced(rounds[1..], Left(waiting, rounds[0]))
    ensures NeverLapped(rounds[1..], Left(waiting, rounds[0]), n + |rounds[0].frames| + 1 - next)
    ensures Rechecked(c, rounds[0].props).tun.enable != 0
  {
  }

  lemma PacedRound(c: Core, pubs: seq<Publication>, rounds: seq<Round>, waiting: seq<Region>, read: nat, d: Core, now: seq<Publication>, next: nat)
      returns (head: bool)
    requires rounds != [] && c.tun.enable != 0 && read <= |pubs| + 1
    requires Paced(rounds, waiting) && NeverLapped(rounds, waiting, |pubs| + 1 - read)
    requires d == RoundStep(c, pubs, rounds[0]).0 && now == Publish(pubs, rounds[0].frames)
    requires next == ReadAfter(c, rounds[0], |pubs| + |rounds[0].frames|, read)
    ensures AllReach(c, pubs, rounds, waiting, read) <==> head && AllReach(d, now, rounds[1..], Left(waiting, rounds[0]), next)
    ensures NeverThrottlesDamage(c, pubs, rounds, waiting)
            <==> head && NeverThrottlesDamage(d, now, rounds[1..], Left(waiting, rounds[0]))
  {
    var r := rounds[0];
    PacedTail(c, rounds, waiting, |pubs|, read, next);
    if r.testOnly {
      head := true;
    } else {
      head := PacedServes(c, r, waiting + r.frames, |pubs| + |r.frames| + 1 - read);
      ReachHead(c, pubs, rounds, waiting, read, d, now, head);
      ThrottleHead(c, pubs, rounds, waiting, d, now, head);
    }
  }

  lemma PacedStep(c: Core, pubs: seq<Publication>, rounds: seq<Round>, waiting: seq<Region>, read: nat)
      returns (d: Core, now: seq<Publication>, next: nat, head: bool)
    requires rounds != [] && c.attached && c.tun.enable != 0 && c.lastSeq == SeqWord(read) && read <= |pubs| + 1
    requires Paced(rounds, waiting) && NeverLapped(rounds, waiting, |pubs| + 1 - read)
    ensures d.attached && d.tun.enable != 0 && d.lastSeq == SeqWord(next) && next <= |now| + 1
    ensures Paced(rounds[1..], Left(waiting, rounds[0])) && NeverLapped(rounds[1..], Left(waiting, rounds[0]), |now| + 1 - next)
    ensures AllReach(c, pubs, rounds, waiting, read) <==> head && AllReach(d, now, rounds[1..], Left(waiting, rounds[0]), next)
    ensures NeverThrottlesDamage(c, pubs, rounds, waiting)
            <==> head && NeverThrottlesDamage(d, now, rounds[1..], Left(waiting, rounds[0]))
  {
    var r := rounds[0];
    d, now, next := RoundStep(c, pubs, r).0, Publish(pubs, r.frames), ReadAfter(c, r, |pubs| + |r.frames|, read);
    AnyRound(c, pubs, r, read);
    PacedTail(c, rounds, waiting, |pubs|, read, next);
    head := PacedRound(c, pubs, rounds, waiting, read, d, now, next);
  }

  lemma {:induction false} PacedReach(c: Core, pubs: seq<Publication>, rounds: seq<Round>, waiting: seq<Region>, read: nat)
    requires c.attached && c.tun.enable != 0 && c.lastSeq == SeqWord(read) && read <= |pubs| + 1
    requires Paced(rounds, waiting) && NeverLapped(rounds, waiting, |pubs| + 1 - read)
    ensures AllReach(c, pubs, rounds, waiting, read) <==> NeverThrottlesDamage(c, pubs, rounds, waiting)
    decreases |rounds|
  {
    if rounds != [] {
      var d, now, next, head := PacedStep(c, pubs, rounds, waiting, read);
      PacedReach(d, now, rounds[1..], Left(waiting, rounds[0]), next);
    }
  }

  /** Among the runs in which each frame is followed by a real commit before the next, the served ones
      are exactly those that never throttle a visible frame. */
  lemma ServedIffNotThrottled(c: Core, pubs: seq<Publication>, rounds: seq<Round>, waiting: seq<Region>, read: nat)
    requires c.attached && c.tun.enable != 0 && c.lastSeq == SeqWord(read) && read <= |pubs| + 1
    requires NewestOf(pubs, waiting) && AllBounded(waiting) && Paced(rounds, waiting) && NeverLapped(rounds, waiting, |pubs| + 1 - read)
    ensures Served(c, pubs, rounds, waiting) <==> NeverThrottlesDamage(c, pubs, rounds, waiting)
  {
    PacedBounded(rounds, waiting);
    ServedExactly(c, pubs, rounds, waiting, read);
    PacedReach(c, pubs, rounds, waiting, read);
  }

  lemma {:induction false} NoIntervalNoThrottle(c: Core, pubs: seq<Publication>, rounds: seq<Round>, waiting: seq<Region>)
    requires c.tun.interval <= 0
    requires forall i :: 0 <= i < |rounds| ==> rounds[i].props.interval <= 0
    ensures NeverThrottlesDamage(c, pubs, rounds, waiting)
    decreases |rounds|
  {
    if rounds != [] {
      NoIntervalNoThrottle(RoundStep(c, pubs, rounds[0]).0, Publish(pubs, rounds[0].frames), rounds[1..], Left(waiting, rounds[0]));
    }
  }

  /** No stale pixels.  With the shim attached and enabled, interval 0, and each frame followed
      by a real commit before the next, the panel shows the framebuffer after every real commit:
      through merging to bounds, empty damage, contended reads, clamping and cleaning passes,
      validation passes and idle commits. */
  lemma NoStalePixels(c: Core, pubs: seq<Publication>, rounds: seq<Round>, waiting: seq<Region>, read: nat,
                      fb: Image, panel: Image, images: seq<seq<Image>>)
    requires c.attached && c.tun.enable != 0 && c.lastSeq == SeqWord(read) && read <= |pubs| + 1
    requires NewestOf(pubs, waiting) && AllBounded(waiting) && Paced(rounds, waiting) && NeverLapped(rounds, waiting, |pubs| + 1 - read)
    requires c.tun.interval <= 0 && forall i :: 0 <= i < |rounds| ==> rounds[i].props.interval <= 0
    requires SameBut(panel, fb, waiting) && Drawn(fb, rounds, images)
    ensures NeverStale(c, pubs, rounds, waiting, fb, panel, images)
  {
    NoIntervalNoThrottle(c, pubs, rounds, waiting);
    ServedIffNotThrottled(c, pubs, rounds, waiting, read);
    ServedKeepsFresh(c, pubs, rounds, waiting, fb, panel, images);
  }

  // ---------------------------------------------- what is lost otherwise

  lemma {:induction false} PublishNewest(pubs: seq<Publication>, frames: seq<Region>)
    requires frames != []
    ensures |Publish(pubs, frames)| == |pubs| + |frames|
    ensures Publish(pubs, frames)[|pubs| + |frames| - 1] == Merged(frames[|frames| - 1], false)
    decreases |frames|
  {
    if |frames| == 1 {
      assert Publish(pubs, frames) == Publish(pubs + [Merged(frames[0], false)], frames[1..]);
    } else {
      PublishNewest(pubs + [Merged(frames[0], false)], frames[1..]);
    }
  }

  /** A driving, uncontended commit repaints the panel pixels the newest frame asks for, all of
      them if it cleans or a rectangle of that frame clamps to the panel, and nothing else: earlier
      frames published since the last commit do not count. */
  lemma NewestFrameDecides(c: Core, pubs: seq<Publication>, r: Round, x: int, y: int)
    requires r.frames != [] && forall i :: 0 <= i < |r.frames| ==> Bounded(r.frames[i])
    requires r.plane && !r.contended && InPanel(x, y)
    requires Attached(Rechecked(c, r.props), r.mapReady).attached
    requires RoundStep(c, pubs, r).1.Drive?
    ensures var newest := Merged(r.frames[|r.frames| - 1], false);
            Repaints(RoundStep(c, pubs, r).1, true, x, y)
            <==> RoundStep(c, pubs, r).1.cleaning || ClampsToPanel(newest.rects) || Asks(newest, x, y)
  {
    PublishNewest(pubs, r.frames);
    DrivenRects(c, pubs, r, r.frames);
  }

  /** Several frames before one commit are all served exactly when every visible pixel any of
      them dirtied is asked for by the newest. */
  lemma CoalescedFrames(c: Core, pubs: seq<Publication>, r: Round)
    requires r.frames != [] && forall i :: 0 <= i < |r.frames| ==> Bounded(r.frames[i])
    requires r.plane && !r.contended
    requires Attached(Rechecked(c, r.props), r.mapReady).attached
    requires RoundStep(c, pubs, r).1.Drive?
    ensures var newest := Merged(r.frames[|r.frames| - 1], false);
            ServedRound(r, r.frames, RoundStep(c, pubs, r).1)
            <==> RoundStep(c, pubs, r).1.cleaning || ClampsToPanel(newest.rects)
                 || forall x, y :: InPanel(x, y) && DirtyIn(r.frames, x, y) ==> Asks(newest, x, y)
  {
    forall x, y | InPanel(x, y)
      ensures var newest := Merged(r.frames[|r.frames| - 1], false);
              Repaints(RoundStep(c, pubs, r).1, true, x, y)
              <==> RoundStep(c, pubs, r).1.cleaning || ClampsToPanel(newest.rects) || Asks(newest, x, y)
    {
      NewestFrameDecides(c, pubs, r, x, y);
    }
  }

  /** The initialiser's request for one full pass reaches the panel only while nothing replaces it:
      the first commit of an enabled shim drives, and repaints all of the panel exactly when no
      frame was published before it, or the mapping was contended, or that commit cleans, or the
      newest frame asks for everything itself. */
  lemma InitialFullPassReplaced(r: Round)
    requires forall i :: 0 <= i < |r.frames| ==> Bounded(r.frames[i])
    requires r.plane && !r.testOnly && r.props.enable != 0 && r.mapReady && (|r.frames| + 1) % SEQ_PERIOD != 0
    ensures var action := RoundStep(START, [], r).1;
            && action.Drive? && (action.cleaning <==> r.props.fullEvery == 1)
            && ((forall x, y :: InPanel(x, y) ==> Repaints(action, true, x, y))
                <==> r.frames == [] || r.contended || action.cleaning || NewestAsksAll(r.frames))
  {
    ChangeDetection(0, |r.frames| + 1);
    PublishCount([], r.frames);
    var action := RoundStep(START, [], r).1;
    if r.frames == [] || r.contended {
      forall x, y | InPanel(x, y) ensures Repaints(action, true, x, y) {
        SubmittedCovers([], true, x, y);
      }
    } else {
      forall x, y | InPanel(x, y) ensures Repaints(action, true, x, y) <==> action.cleaning || NewestAsks(r.frames, x, y) {
        NewestFrameDecides(START, [], r, x, y);
      }
    }
  }

  lemma {:induction false} PublishCount(pubs: seq<Publication>, frames: seq<Region>)
    ensures |Publish(pubs, frames)| == |pubs| + |frames|
    decreases |frames|
  {
    if frames != [] {
      PublishCount(pubs + [Merged(frames[0], false)], frames[1..]);
    }
  }

  ghost predicate NewestAsksAll(frames: seq<Region>)
    requires frames != []
  {
    forall x, y :: InPanel(x, y) ==> NewestAsks(frames, x, y)
  }

  /** A frame of one pixel. */
  function Pixel(x: int, y: int): Region {
    Region([Rect(x, y, x + 1, y + 1)], Rect(x, y, x + 1, y + 1))
  }

  lemma OnePixelFrame(u: int, v: int, x: int, y: int)
    requires InPanel(x, y) && InPanel(u, v) && (x, y) != (u, v)
    ensures !NewestAsks([Pixel(u, v)], x, y) && Dirty(Pixel(x, y), x, y)
  {
    var newest := Merged(Pixel(u, v), false);
    assert newest.rects == [Rect(u, v, u + 1, v + 1)];
    assert ClampAll(newest.rects)[0] == Rect(u, v, u + 1, v + 1);
    assert Contains(Pixel(x, y).rects[0], x, y);
  }

  /** The first commit after the given frames. */
  function FirstRound(frames: seq<Region>): Round {
    Round(frames, false, START.tun, true, false, false, 0, 1, true)
  }

  /** A first frame of one pixel leaves every other pixel of an unknown panel as it was. */
  lemma OnePixelFirst(u: int, v: int, x: int, y: int)
    requires InPanel(x, y) && InPanel(u, v) && (x, y) != (u, v)
    ensures var action := RoundStep(START, [], FirstRound([Pixel(u, v)])).1;
            action.Drive? && !Repaints(action, true, x, y)
  {
    var r := FirstRound([Pixel(u, v)]);
    InitialFullPassReplaced(r);
    OnePixelFrame(u, v, x, y);
    NewestFrameDecides(START, [], r, x, y);
  }

  /** Two frames of one pixel each before a commit: the commit refreshes the second and leaves
      the first stale. */
  lemma TwoPixelFrames(u: int, v: int, x: int, y: int)
    requires InPanel(x, y) && InPanel(u, v) && (x, y) != (u, v)
    ensures var r := FirstRound([Pixel(x, y), Pixel(u, v)]); var action := RoundStep(START, [], r).1;
            action.Drive? && Repaints(action, true, u, v) && !Repaints(action, true, x, y) && !ServedRound(r, r.frames, action)
  {
    var r := FirstRound([Pixel(x, y), Pixel(u, v)]);
    InitialFullPassReplaced(r);
    OnePixelFrame(u, v, x, y);
    OnePixelFrame(x, y, u, v);
    NewestFrameDecides(START, [], r, x, y);
    NewestFrameDecides(START, [], r, u, v);
    assert Dirty(r.frames[0], x, y);
  }

  /** A frame that arrives within the interval is lost: its sequence number has been taken. */
  lemma ThrottledFrameLost(c: Core, pubs: seq<Publication>, r: Round, read: nat, next: Round)
    requires c.attached && c.lastSeq == SeqWord(read) && read <= |pubs| + 1 && (|pubs| + |r.frames| + 1 - read) % SEQ_PERIOD != 0
    requires AllBounded(r.frames) && VisibleIn(r.frames) && Looks(c, r) && !r.contended && ThrottlesAt(c, r)
    requires next.frames == [] && !next.contended && Looks(RoundStep(c, pubs, r).0, next)
    ensures RoundStep(c, pubs, r).1 == Pass(Throttled) && !Served(c, pubs, [r, next], [])
    ensures RoundStep(RoundStep(c, pubs, r).0, Publish(pubs, r.frames), next).1 == Pass(Unchanged)
  {
    var n := ThrottledPasses(c, pubs, r, read, RoundStep(c, pubs, r).0, Publish(pubs, r.frames));
    FirstUnserved(c, pubs, [r, next]);
    IdleAfter(c, pubs, r, read, RoundStep(c, pubs, r).0, Publish(pubs, r.frames), next);
  }

  lemma IdleAfter(c: Core, pubs: seq<Publication>, r: Round, read: nat, d: Core, now: seq<Publication>, next: Round)
    requires d == RoundStep(c, pubs, r).0 && now == Publish(pubs, r.frames)
    requires c.attached && c.lastSeq == SeqWord(read) && read <= |pubs| + 1 && (|pubs| + |r.frames| + 1 - read) % SEQ_PERIOD != 0
    requires VisibleIn(r.frames) && Looks(c, r) && !r.contended && ThrottlesAt(c, r)
    requires next.frames == [] && !next.contended && Looks(d, next)
    ensures RoundStep(d, now, next).1 == Pass(Unchanged)
  {
    var n := ThrottledPasses(c, pubs, r, read, d, now);
    IdlePasses(d, now, next, n);
  }

  lemma FirstUnserved(c: Core, pubs: seq<Publication>, rounds: seq<Round>)
    requires rounds != [] && !rounds[0].testOnly && !ServedRound(rounds[0], rounds[0].frames, RoundStep(c, pubs, rounds[0]).1)
    ensures !Served(c, pubs, rounds, [])
  {
    assert [] + rounds[0].frames == rounds[0].frames;
  }

  lemma ThrottledPasses(c: Core, pubs: seq<Publication>, r: Round, read: nat, d: Core, now: seq<Publication>)
      returns (n: nat)
    requires d == RoundStep(c, pubs, r).0 && now == Publish(pubs, r.frames)
    requires c.attached && c.lastSeq == SeqWord(read) && read <= |pubs| + 1 && (|pubs| + |r.frames| + 1 - read) % SEQ_PERIOD != 0
    requires VisibleIn(r.frames) && Looks(c, r) && !r.contended && ThrottlesAt(c, r)
    ensures n == |now| && d.attached && d.lastSeq == SeqWord(n + 1)
    ensures RoundStep(c, pubs, r).1 == Pass(Throttled) && !ServedRound(r, r.frames, RoundStep(c, pubs, r).1)
  {
    AnyRound(c, pubs, r, read);
    n := |pubs| + |r.frames|;
    PassServesNothing(r, RoundStep(c, pubs, r).1);
    ThrottledAction(c, pubs, r, read);
  }

  lemma PassServesNothing(r: Round, action: Action)
    requires !action.Drive? && VisibleIn(r.frames)
    ensures !ServedRound(r, r.frames, action)
  {
    var x, y :| InPanel(x, y) && DirtyIn(r.frames, x, y);
  }

  lemma ThrottledAction(c: Core, pubs: seq<Publication>, r: Round, read: nat)
    requires c.attached && c.lastSeq == SeqWord(read) && read <= |pubs| + 1 && (|pubs| + |r.frames| + 1 - read) % SEQ_PERIOD != 0
    requires Looks(c, r) && !r.contended && ThrottlesAt(c, r)
    ensures RoundStep(c, pubs, r).1 == Pass(Throttled)
  {
    PublishCount(pubs, r.frames);
    ChangeDetection(read, |pubs| + |r.frames| + 1);
  }

  /** A commit with nothing new since the accepted publication. */
  lemma IdlePasses(c: Core, pubs: seq<Publication>, r: Round, n: nat)
    requires c.attached && |pubs| == n && c.lastSeq == SeqWord(n + 1) && r.frames == [] && !r.contended && Looks(c, r)
    ensures RoundStep(c, pubs, r).1 == Pass(Unchanged)
  {
  }

  /** The first commit after a frame, and one 50 ms later, with an interval of 100 ms. */
  function SlowRound(frames: seq<Region>, now: int): Round {
    FirstRound(frames).(props := START.tun.(interval := 100), now := now)
  }

  /** A frame of one pixel 50 ms after the first one, when the interval is 100 ms, is never shown, not
      by the idle commit that comes after the interval either. */
  lemma SecondFrameLost(x: int, y: int)
    requires InPanel(x, y)
    ensures var a, b, next := SlowRound([Pixel(x, y)], 1000), SlowRound([Pixel(x, y)], 1050), SlowRound([], 1200);
            var (c, first) := RoundStep(START, [], a);
            var (d, second) := RoundStep(c, Publish([], a.frames), b);
            && first.Drive? && second == Pass(Throttled)
            && RoundStep(d, Publish(Publish([], a.frames), b.frames), next).1 == Pass(Unchanged)
            && !Served(START, [], [a, b, next], [])
  {
    var a, b, next := SlowRound([Pixel(x, y)], 1000), SlowRound([Pixel(x, y)], 1050), SlowRound([], 1200);
    var c, pubs := RoundStep(START, [], a).0, Publish([], a.frames);
    FirstSlow(x, y, a, c, pubs);
    SlowIsLost(c, pubs, x, y, b, next);
    assert [a, b, next][1..] == [b, next];
    assert Left([], a) == [];
  }

  lemma FirstSlow(x: int, y: int, a: Round, c: Core, pubs: seq<Publication>)
    requires InPanel(x, y) && a == SlowRound([Pixel(x, y)], 1000)
    requires c == RoundStep(START, [], a).0 && pubs == Publish([], a.frames)
    ensures RoundStep(START, [], a).1.Drive? && |pubs| == 1
    ensures c.attached && c.lastSeq == SeqWord(2) && c.lastInject == 1000 && c.tun == a.props && c.sinceRecheck == 0
  {
    InitialFullPassReplaced(a);
    PublishCount([], a.frames);
  }

  lemma SlowIsLost(c: Core, pubs: seq<Publication>, x: int, y: int, b: Round, next: Round)
    requires InPanel(x, y) && b == SlowRound([Pixel(x, y)], 1050) && next == SlowRound([], 1200)
    requires c.attached && c.lastSeq == SeqWord(2) && c.lastInject == 1000 && c.tun == b.props && |pubs| == 1
    ensures RoundStep(c, pubs, b).1 == Pass(Throttled) && !Served(c, pubs, [b, next], [])
    ensures RoundStep(RoundStep(c, pubs, b).0, Publish(pubs, b.frames), next).1 == Pass(Unchanged)
  {
    assert Dirty(b.frames[0], x, y) by {
      assert Contains(b.frames[0].rects[0], x, y);
    }
    assert VisibleIn(b.frames);
    AnyRound(c, pubs, b, 2);
    ThrottledFrameLost(c, pubs, b, 2, next);
  }
}
