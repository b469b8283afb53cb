/** SurfaceFlinger, the composer, the shim and the kernel together: whole runs over a Shim object.

    A turn is what happens up to and including one commit: SurfaceFlinger publishes frames, the
    composer puts properties into a request and commits it.  The writer goes on at any time; what a
    run assumes about it is stated about the phases at which its real commits started and ended. */
module EpdcSystem {
  import opened Common
  import opened Seqlock
  import opened DamageWriter
  import opened RefreshPolicy
  import opened EpdcShim
  import R = EpdcRuns

  datatype Setting = Setting(obj: int, prop: int, value: nat)

  /** `start`: the commit comes after at least that many stores of the writer. */
  datatype Turn = Turn(frames: seq<Region>, settings: seq<Setting>, flags: nat, props: Tunables, opens: bool, clock: int, start: nat)

  function SetsOf(settings: seq<Setting>): seq<PropSet> {
    if settings == [] then []
    else
      var s := settings[|settings| - 1];
      SetsOf(settings[..|settings| - 1]) + [PropSet(s.obj, s.prop, Number(s.value))]
  }

  // ------------------------------------------------------------------ one turn

  method Assemble(shim: Shim, settings: seq<Setting>)
    requires shim.Valid() && shim.request == []
    modifies shim`nPend, shim`request, shim.pend, shim.pendFb
    ensures shim.Valid() && shim.request == SetsOf(settings)
    ensures shim.State() == old(shim.State())
  {
    for i := 0 to |settings|
      invariant shim.Valid() && shim.request == SetsOf(settings[..i]) && shim.State() == old(shim.State())
    {
      assert settings[..i + 1][..i] == settings[..i];
      shim.AddProperty(settings[i].obj, settings[i].prop, settings[i].value);
    }
    assert settings[..|settings|] == settings;
  }

  /** The writer goes on. */
  method WriterRuns(shim: Shim, t: nat)
    requires shim.Valid()
    modifies shim.sf`now
    ensures shim.Valid() && old(shim.sf.now) <= shim.sf.now && old(shim.sf.PhaseNow()) <= shim.sf.PhaseNow()
    ensures shim.State() == old(shim.State()) && (t <= |shim.sf.log| ==> t <= shim.sf.now)
  {
    shim.sf.Advance(t);
    PhaseMonotone(shim.sf.pubs, old(shim.sf.now), shim.sf.now);
  }

  /** What one commit showed: the round it was, the action it took, the phases at its start and end,
      what the kernel was handed, and the objects known afterwards. */
  datatype Shown = Shown(round: R.Round, action: Action, start: nat, end: nat, sent: seq<PropSet>, updates: seq<Update>, known: seq<int>)

  /** The publications up to number `k`, and no other, were complete while a commit ran. */
  ghost predicate Quiet(shown: Shown, k: nat) {
    2 * k <= shown.start && shown.end <= 2 * k + 1
  }

  ghost predicate QuietIfReal(shown: Shown, k: nat) {
    shown.round.testOnly || Quiet(shown, k)
  }

  /** The kernel repaints exactly what the action covers, if the round reached an EPDC plane. */
  ghost predicate Honest(shim: Shim, shown: Shown) {
    forall x, y :: shim.Paints(shown.sent, shown.updates, x, y) <==> R.Repaints(shown.action, shown.round.plane, x, y)
  }

  /** The round says what the turn did. */
  ghost predicate Says(r: R.Round, t: Turn) {
    r.frames == t.frames && r.testOnly == (t.flags / 0x100 % 2 == 1) && r.props == t.props && r.now == t.clock
  }

  /** Whenever it is quiet or a validation pass, the turn was a step of the round model from `c` to
      `d`. */
  ghost predicate WasRound(c: Core, d: Core, shown: Shown, all: seq<Publication>) {
    forall pubs, k: nat ::
      QuietIfReal(shown, k) && 1 <= k <= |all| + 1 && R.Publish(pubs, shown.round.frames) == all[..k - 1] ==>
        (d, shown.action) == R.RoundStep(c, pubs, shown.round)
  }

  lemma CommitWasRound(c: Core, shown: Shown, all: seq<Publication>, input: Input)
    requires var r := shown.round;
             && input == Input(r.testOnly, r.props, r.mapReady, input.reading, r.sigKnown, r.sig, r.now)
             && r.contended == input.reading.Contended?
             && (!r.testOnly && Rechecked(c, r.props).tun.enable != 0 ==>
                   (input.reading.Detached? <==> !Attached(Rechecked(c, r.props), r.mapReady).attached))
    requires input.reading.Accepted? && shown.end - shown.start < U32 ==> Reads(all, shown.end, input.reading)
    requires shown.start <= shown.end && shown.action == Step(c, input).1
    ensures WasRound(c, Step(c, input).0, shown, all)
  {
    forall pubs, k: nat | QuietIfReal(shown, k) && 1 <= k <= |all| + 1 && R.Publish(pubs, shown.round.frames) == all[..k - 1]
      ensures Step(c, input) == R.RoundStep(c, pubs, shown.round)
    {
      if !shown.round.testOnly {
        R.CommitIsRound(c, pubs, shown.round, all, k, shown.end, input);
      }
    }
  }

  /** The commit attaches the shim: a real one, enabled, at a due attempt that can open the mapping. */
  predicate AttachesAt(c: Core, t: Turn) {
    && t.flags / 0x100 % 2 == 0 && Rechecked(c, t.props).tun.enable != 0
    && t.opens && !c.attached && c.tried + 1 >= RECHECK
  }

  /** How the known objects and the plane follow from those known before. */
  ghost predicate Learns(shim: Shim, known: seq<int>, sets: seq<PropSet>, shown: Shown) {
    && shown.known == (if shown.action.Drive? then FetchAll(known, Tracked(Ids(sets)), shim.drm) else known)
    && (shown.round.plane <==> shim.PlaneReached(sets, shown.known))
  }

  method TakeTurn(shim: Shim, t: Turn) returns (ghost shown: Shown)
    requires shim.Valid() && shim.request == []
    modifies shim, shim.parms, shim.cache, shim.pend, shim.pendFb, shim.sf
    ensures shim.Valid() && shim.request == []
    ensures Says(shown.round, t) && Honest(shim, shown)
    ensures shown.known == shim.fetched && Learns(shim, old(shim.fetched), SetsOf(t.settings), shown)
    ensures old(shim.accepted) <= shim.accepted && 2 * shim.accepted <= shown.end
    ensures WasRound(old(shim.State()), shim.State(), shown, shim.sf.pubs)
    ensures AttachesAt(old(shim.State()), t) && |INIT_STORES| <= t.start <= |shim.sf.log| ==> shim.State().attached && shown.round.mapReady
  {
    WriterRuns(shim, t.start);
    Assemble(shim, t.settings);
    shown := CommitTurn(shim, t);
  }

  lemma IsHonest(shim: Shim, before: seq<PropSet>, shown: Shown, known: seq<int>)
    requires Plain(before) && shim.Sends(shown.sent, before, shown.action, known, shown.updates)
    requires shown.round.plane <==> shim.PlaneReached(before, known)
    ensures Honest(shim, shown)
  {
    forall x, y ensures shim.Paints(shown.sent, shown.updates, x, y) <==> R.Repaints(shown.action, shown.round.plane, x, y) {
      shim.PaintsExactly(shown.sent, before, shown.action, known, shown.updates, x, y);
    }
  }

  method CommitTurn(shim: Shim, t: Turn) returns (ghost shown: Shown)
    requires shim.Valid()
    modifies shim, shim.parms, shim.cache, shim.sf
    ensures shim.Valid() && shim.request == []
    ensures Says(shown.round, t) && Honest(shim, shown)
    ensures shown.known == shim.fetched && Learns(shim, old(shim.fetched), old(shim.request), shown)
    ensures old(shim.accepted) <= shim.accepted && 2 * shim.accepted <= shown.end
    ensures WasRound(old(shim.State()), shim.State(), shown, shim.sf.pubs)
    ensures AttachesAt(old(shim.State()), t) && |INIT_STORES| <= old(shim.sf.now) ==> shim.State().attached && shown.round.mapReady
  {
    ghost var c, before, start := shim.State(), shim.request, shim.sf.PhaseNow();
    PhaseMonotone(shim.sf.pubs, shim.sf.now, shim.sf.now);
    var sent;
    ghost var input, action, from;
    ghost var was := shim.sf.now;
    sent, input, action, from := shim.Commit(t.flags, t.props, t.opens, t.clock);
    ghost var r := R.Round(t.frames, input.testOnly, input.props, input.mapReady, input.reading.Contended?, input.sigKnown, input.sig,
                           input.now, shim.PlaneReached(before, shim.fetched));
    shown := Shown(r, action, start, shim.sf.PhaseNow(), sent, shim.parms[..], shim.fetched);
    IsHonest(shim, before, shown, shim.fetched);
    if input.reading.Accepted? {
      PhaseMonotone(shim.sf.pubs, was, from);
    }
    CommitWasRound(c, shown, shim.sf.pubs, input);
    if AttachesAt(c, t) && |INIT_STORES| <= was {
      StepAttaches(c, input);
    }
  }

  lemma StepAttaches(c: Core, input: Input)
    requires !input.testOnly && Rechecked(c, input.props).tun.enable != 0 && input.mapReady && c.tried + 1 >= RECHECK
    ensures Step(c, input).0.attached
  {
  }

  /** A request that is validated and then committed as it is, instead of being assembled again, goes
      to the kernel without an update array, whatever the commit decides: the validation pass has
      forgotten the tracked objects. */
  method CommitValidated(shim: Shim, settings: seq<Setting>, props: Tunables, opens: bool, clock: int)
      returns (ghost request: seq<PropSet>, ghost action: Action)
    requires shim.Valid() && shim.request == []
    modifies shim, shim.parms, shim.cache, shim.pend, shim.pendFb, shim.sf
    ensures shim.Valid() && request == SetsOf(settings)
    ensures forall x, y :: !shim.Paints(request, shim.parms[..], x, y)
  {
    Assemble(shim, settings);
    request := shim.request;
    PlainPaintsNothing(shim, request);
    var tried, sent;
    ghost var input, from;
    tried, input, action, from := shim.Commit(0x100, props, opens, clock);
    sent, input, action, from := shim.Commit(0, props, opens, clock);
    assert Tracked(Ids([])) == [];
    request := request + sent;
  }

  lemma PlainPaintsNothing(shim: Shim, request: seq<PropSet>)
    requires Plain(request)
    ensures forall updates, x, y :: !shim.Paints(request, updates, x, y)
  {
    forall updates, x, y ensures !shim.Paints(request, updates, x, y) {
      shim.PaintsExactly(request, request, Pass(TestOnly), [], updates, x, y);
    }
  }

  // ------------------------------------------------------------------ a run

  /** SurfaceFlinger's publications from number k + 1 on are the frames of the turns. */
  ghost predicate Published(all: seq<Publication>, k: nat, turns: seq<Turn>)
    decreases |turns|
  {
    1 <= k <= |all| + 1 &&
    (turns != [] ==>
       var n := k + |turns[0].frames|;
       n <= |all| + 1 && R.Publish(all[..k - 1], turns[0].frames) == all[..n - 1] && Published(all, n, turns[1..]))
  }

  /** No publication overlaps a real commit, and each sees those of its own and of the earlier turns. */
  ghost predicate AllQuiet(shown: seq<Shown>, k: nat)
    decreases |shown|
  {
    shown != [] ==>
      QuietIfReal(shown[0], k + |shown[0].round.frames|) && AllQuiet(shown[1..], k + |shown[0].round.frames|)
  }

  function Rounds(shown: seq<Shown>): (r: seq<R.Round>)
    ensures |r| == |shown|
  {
    if shown == [] then [] else [shown[0].round] + Rounds(shown[1..])
  }

  ghost predicate AllHonest(shim: Shim, shown: seq<Shown>) {
    forall i :: 0 <= i < |shown| ==> Honest(shim, shown[i])
  }

  ghost predicate AllSay(shown: seq<Shown>, turns: seq<Turn>) {
    |shown| == |turns| && forall i :: 0 <= i < |turns| ==> Says(shown[i].round, turns[i])
  }

  /** The actions are those of the round model. */
  ghost predicate Steps(c: Core, pubs: seq<Publication>, shown: seq<Shown>)
    decreases |shown|
  {
    shown != [] ==>
      var (d, action) := R.RoundStep(c, pubs, shown[0].round);
      shown[0].action == action && Steps(d, R.Publish(pubs, shown[0].round.frames), shown[1..])
  }

  ghost predicate AllLearn(shim: Shim, known: seq<int>, turns: seq<Turn>, shown: seq<Shown>)
    decreases |shown|
  {
    |shown| == |turns| &&
    (shown != [] ==> Learns(shim, known, SetsOf(turns[0].settings), shown[0]) && AllLearn(shim, shown[0].known, turns[1..], shown[1..]))
  }

  /** If it was quiet, the run was one of the round model. */
  ghost predicate WasRun(c: Core, all: seq<Publication>, turns: seq<Turn>, k: nat, shown: seq<Shown>) {
    AllQuiet(shown, k) && Published(all, k, turns) ==> Steps(c, all[..k - 1], shown)
  }

  /** Runs the shim over any turns. */
  method RunTurns(shim: Shim, turns: seq<Turn>, ghost k: nat) returns (ghost shown: seq<Shown>)
    requires shim.Valid() && shim.request == []
    modifies shim, shim.parms, shim.cache, shim.pend, shim.pendFb, shim.sf
    ensures shim.Valid() && shim.request == []
    ensures AllSay(shown, turns) && AllHonest(shim, shown) && AllLearn(shim, old(shim.fetched), turns, shown)
    ensures WasRun(old(shim.State()), shim.sf.pubs, turns, k, shown)
    decreases |turns|
  {
    if turns == [] {
      return [];
    }
    ghost var c, known := shim.State(), shim.fetched;
    ghost var first := TakeTurn(shim, turns[0]);
    ghost var d := shim.State();
    ghost var rest := RunTurns(shim, turns[1..], k + |turns[0].frames|);
    shown := [first] + rest;
    FactsFirst(shim, known, turns, first, rest);
    RunFirst(c, d, shim.sf.pubs, turns, k, first, rest);
  }

  lemma FactsFirst(shim: Shim, known: seq<int>, turns: seq<Turn>, first: Shown, rest: seq<Shown>)
    requires turns != [] && Says(first.round, turns[0]) && AllSay(rest, turns[1..])
    requires Honest(shim, first) && AllHonest(shim, rest)
    requires Learns(shim, known, SetsOf(turns[0].settings), first) && AllLearn(shim, first.known, turns[1..], rest)
    ensures AllSay([first] + rest, turns) && AllHonest(shim, [first] + rest) && AllLearn(shim, known, turns, [first] + rest)
  {
    assert ([first] + rest)[1..] == rest;
    assert forall i :: 1 <= i < |turns| ==> turns[i] == turns[1..][i - 1];
  }

  lemma RunFirst(c: Core, d: Core, all: seq<Publication>, turns: seq<Turn>, k: nat, first: Shown, rest: seq<Shown>)
    requires turns != [] && Says(first.round, turns[0]) && WasRound(c, d, first, all)
    requires WasRun(d, all, turns[1..], k + |turns[0].frames|, rest)
    ensures WasRun(c, all, turns, k, [first] + rest)
  {
    var shown, n := [first] + rest, k + |turns[0].frames|;
    assert shown[1..] == rest;
    if AllQuiet(shown, k) && Published(all, k, turns) {
      assert QuietIfReal(first, n) && R.Publish(all[..k - 1], first.round.frames) == all[..n - 1];
      assert (d, first.action) == R.RoundStep(c, all[..k - 1], first.round);
    }
  }

  // ------------------------------------------------------------------ what it shows

  /** What the kernel leaves on the panel. */
  ghost function Painted(shim: Shim, panel: R.Image, fb: R.Image, shown: Shown): R.Image {
    (x, y) => if shim.Paints(shown.sent, shown.updates, x, y) then fb(x, y) else panel(x, y)
  }

  /** After every commit the kernel has left the framebuffer on the panel, but for the frames that
      still wait for a real one. */
  ghost predicate ShowsFrames(shim: Shim, shown: seq<Shown>, waiting: seq<Region>, fb: R.Image, panel: R.Image, images: seq<seq<R.Image>>)
    requires |images| == |shown|
    decreases |shown|
  {
    shown != [] ==>
      var fb', left := R.Latest(fb, images[0]), R.Left(waiting, shown[0].round);
      && R.SameBut(Painted(shim, panel, fb', shown[0]), fb', left)
      && ShowsFrames(shim, shown[1..], left, fb', Painted(shim, panel, fb', shown[0]), images[1..])
  }

  /** The panel of the run is that of the round model. */
  lemma {:induction false} ShowsAsModel(shim: Shim, c: Core, pubs: seq<Publication>, shown: seq<Shown>, waiting: seq<Region>,
                                        fb: R.Image, panel: R.Image, other: R.Image, images: seq<seq<R.Image>>)
    requires AllHonest(shim, shown) && Steps(c, pubs, shown) && R.Drawn(fb, Rounds(shown), images) && R.SameOnPanel(panel, other)
    ensures ShowsFrames(shim, shown, waiting, fb, panel, images)
            <==> R.NeverStale(c, pubs, Rounds(shown), waiting, fb, other, images)
    decreases |shown|
  {
    if shown != [] {
      var r := shown[0].round;
      var (d, action) := R.RoundStep(c, pubs, r);
      var fb' := R.Latest(fb, images[0]);
      var mine, theirs := Painted(shim, panel, fb', shown[0]), R.Repainted(other, fb', action, r.plane);
      assert Rounds(shown)[1..] == Rounds(shown[1..]) && AllHonest(shim, shown[1..]);
      assert Honest(shim, shown[0]);
      assert R.SameOnPanel(mine, theirs);
      ShowsAsModel(shim, d, R.Publish(pubs, r.frames), shown[1..], R.Left(waiting, r), fb', mine, theirs, images[1..]);
    }
  }

  /** Whatever the frames draw inside their damage, and whatever the panel showed in the beginning as
      long as it was the framebuffer, it shows the framebuffer after every real commit. */
  ghost predicate NeverStale(shim: Shim, shown: seq<Shown>) {
    forall fb: R.Image, panel: R.Image, images: seq<seq<R.Image>> ::
      R.SameOnPanel(panel, fb) && R.Drawn(fb, Rounds(shown), images) ==>
        |images| == |shown| && ShowsFrames(shim, shown, [], fb, panel, images)
  }

  lemma NeverStaleIffServed(shim: Shim, c: Core, pubs: seq<Publication>, shown: seq<Shown>)
    requires AllHonest(shim, shown) && Steps(c, pubs, shown)
    ensures NeverStale(shim, shown) <==> R.Served(c, pubs, Rounds(shown), [])
  {
    if R.Served(c, pubs, Rounds(shown), []) {
      forall fb: R.Image, panel: R.Image, images: seq<seq<R.Image>> | R.SameOnPanel(panel, fb) && R.Drawn(fb, Rounds(shown), images)
        ensures |images| == |shown| && ShowsFrames(shim, shown, [], fb, panel, images)
      {
        R.ServedKeepsFresh(c, pubs, Rounds(shown), [], fb, panel, images);
        ShowsAsModel(shim, c, pubs, shown, [], fb, panel, panel, images);
      }
    } else {
      var blank: R.Image := (x, y) => 0;
      var x, y := R.UnservedMisses(c, pubs, Rounds(shown), []);
      R.MissedGoesStale(c, pubs, Rounds(shown), [], blank, blank, x, y);
      ShowsAsModel(shim, c, pubs, shown, [], blank, blank, blank, R.RunCounted(blank, Rounds(shown), x, y));
    }
  }

  // ------------------------------------------------------------------ the main results

  ghost predicate AllBounded(turns: seq<Turn>) {
    forall i :: 0 <= i < |turns| ==> R.AllBounded(turns[i].frames)
  }

  lemma {:induction false} RoundsSay(shown: seq<Shown>, turns: seq<Turn>)
    requires AllSay(shown, turns)
    ensures forall i :: 0 <= i < |shown| ==> Rounds(shown)[i] == shown[i].round && Rounds(shown)[i].frames == turns[i].frames
  {
    if shown != [] {
      assert forall i :: 1 <= i < |turns| ==> shown[1..][i - 1] == shown[i] && turns[1..][i - 1] == turns[i];
      RoundsSay(shown[1..], turns[1..]);
      assert forall i :: 1 <= i < |shown| ==> Rounds(shown)[i] == Rounds(shown[1..])[i - 1];
    }
  }

  /** Each frame is followed by a real commit before the next, with the plane among the first 32 objects
      of that request; around those there may be any validation passes and commits with nothing new.
      The shim stays enabled and without an interval. */
  ghost predicate PacedTurns(turns: seq<Turn>, waiting: seq<Region>, plane: int)
    decreases |turns|
  {
    turns != [] ==>
      var t := turns[0];
      var test, due := t.flags / 0x100 % 2 == 1, waiting + t.frames;
      && |due| <= 1 && R.AllBounded(due) && t.props.enable != 0 && t.props.interval <= 0
      && (test || due == [] || plane in Tracked(Ids(SetsOf(t.settings))))
      && PacedTurns(turns[1..], if test then due else [], plane)
  }

  function FrameCount(turns: seq<Turn>): nat {
    if turns == [] then 0 else |turns[0].frames| + FrameCount(turns[1..])
  }

  /** The plane is known, or every real commit that drives would make it known. */
  ghost predicate PlaneInReach(known: seq<int>, turns: seq<Turn>, drm: bool, plane: int) {
    forall i :: 0 <= i < |turns| && turns[i].flags / 0x100 % 2 == 0 ==>
      plane in FetchAll(known, Tracked(Ids(SetsOf(turns[i].settings))), drm)
  }

  /** The shim is attached and enabled without an interval, has not accepted more than was
      published, will not be lapped, and knows the plane or has room for it. */
  ghost predicate ReadyFor(c: Core, accepted: nat, known: seq<int>, drm: bool, k: nat, turns: seq<Turn>, plane: int) {
    && c.attached && c.tun.enable != 0 && c.tun.interval <= 0
    && accepted <= k && k + FrameCount(turns) - accepted < SEQ_PERIOD
    && PlaneInReach(known, turns, drm, plane)
  }

  /** The whole system, exactly.  For any turns of an attached shim, whatever the composer commits and
      however many frames come before each commit: if the commits are quiet, the panel always shows the
      framebuffer if and only if every real commit reaches what is due (`EpdcRuns.AllReach`). */
  method RunExactly(shim: Shim, turns: seq<Turn>, ghost k: nat) returns (ghost shown: seq<Shown>)
    requires shim.Valid() && shim.request == [] && AllBounded(turns)
    modifies shim, shim.parms, shim.cache, shim.pend, shim.pendFb, shim.sf
    ensures shim.Valid() && shim.request == []
    ensures AllSay(shown, turns) && AllHonest(shim, shown) && AllLearn(shim, old(shim.fetched), turns, shown)
    ensures AllQuiet(shown, k) && Published(shim.sf.pubs, k, turns) && old(shim.State().attached) && old(shim.accepted) <= k ==>
              (NeverStale(shim, shown) <==> R.AllReach(old(shim.State()), shim.sf.pubs[..k - 1], Rounds(shown), [], old(shim.accepted)))
  {
    ghost var c, read := shim.State(), shim.accepted;
    shown := RunTurns(shim, turns, k);
    if AllQuiet(shown, k) && Published(shim.sf.pubs, k, turns) && c.attached && read <= k {
      NeverStaleIffServed(shim, c, shim.sf.pubs[..k - 1], shown);
      RoundsSay(shown, turns);
      R.ServedExactly(c, shim.sf.pubs[..k - 1], Rounds(shown), [], read);
    }
  }

  /** The whole system.  If the shim starts ready on a panel that shows the framebuffer, and each frame
      is followed by a real commit before the next, with the plane among the first 32 objects of its
      request, then the panel shows the framebuffer after every real commit. */
  method Run(shim: Shim, turns: seq<Turn>, ghost k: nat, ghost plane: int) returns (ghost shown: seq<Shown>)
    requires shim.Valid() && shim.request == []
    modifies shim, shim.parms, shim.cache, shim.pend, shim.pendFb, shim.sf
    ensures shim.Valid() && shim.request == []
    ensures AllSay(shown, turns) && AllHonest(shim, shown) && AllLearn(shim, old(shim.fetched), turns, shown)
    ensures AllQuiet(shown, k) && Published(shim.sf.pubs, k, turns) && PacedTurns(turns, [], plane) && shim.EpdcPlane(plane)
            && old(ReadyFor(shim.State(), shim.accepted, shim.fetched, shim.drm, k, turns, plane)) ==>
              NeverStale(shim, shown)
  {
    ghost var c, read, known := shim.State(), shim.accepted, shim.fetched;
    shown := RunTurns(shim, turns, k);
    if AllQuiet(shown, k) && Published(shim.sf.pubs, k, turns) && PacedTurns(turns, [], plane) && shim.EpdcPlane(plane)
       && ReadyFor(c, read, known, shim.drm, k, turns, plane) {
      ReadyServes(shim, c, shim.sf.pubs[..k - 1], turns, shown, read, known, plane);
      NeverStaleIffServed(shim, c, shim.sf.pubs[..k - 1], shown);
    }
  }

  // ------------------------------------------------------------------ from the start

  /** A real commit of an enabled shim, made after the initialiser's last store, that can open the
      mapping. */
  ghost predicate Starts(t: Turn, size: nat) {
    && t.flags / 0x100 % 2 == 0 && t.props.enable != 0 && t.props.interval <= 0
    && t.opens && |INIT_STORES| <= t.start <= size && R.AllBounded(t.frames)
  }

  /** The first commit of a new shim attaches it, and leaves it ready for any turns that follow if the
      plane is among the objects of the request.  If it comes before the first frame it repaints all of
      the panel. */
  method StartUp(shim: Shim, t: Turn, ghost k: nat, ghost plane: int) returns (ghost first: Shown)
    requires shim.Valid() && shim.request == [] && shim.State() == START && shim.accepted == 0 && shim.fetched == []
    modifies shim, shim.parms, shim.cache, shim.pend, shim.pendFb, shim.sf
    ensures shim.Valid() && shim.request == []
    ensures Says(first.round, t) && Honest(shim, first)
    ensures Starts(t, |shim.sf.log|) && Published(shim.sf.pubs, 1, [t]) && k == 1 + |t.frames| && Quiet(first, k) && k < SEQ_PERIOD
            && plane in Tracked(Ids(SetsOf(t.settings))) && shim.drm && shim.EpdcPlane(plane) ==>
              && (forall turns :: k + FrameCount(turns) < SEQ_PERIOD ==>
                    ReadyFor(shim.State(), shim.accepted, shim.fetched, shim.drm, k, turns, plane))
              && (t.frames == [] ==> forall x, y :: InPanel(x, y) ==> shim.Paints(first.sent, first.updates, x, y))
  {
    first := TakeTurn(shim, t);
    if Starts(t, |shim.sf.log|) && Published(shim.sf.pubs, 1, [t]) && k == 1 + |t.frames| && Quiet(first, k) && k < SEQ_PERIOD
       && plane in Tracked(Ids(SetsOf(t.settings))) && shim.drm && shim.EpdcPlane(plane) {
      FirstDrives(shim, shim.State(), t, k, first, shim.sf.pubs, plane);
      forall turns | k + FrameCount(turns) < SEQ_PERIOD
        ensures ReadyFor(shim.State(), shim.accepted, shim.fetched, shim.drm, k, turns, plane)
      {
        KnownInReach(shim.fetched, turns, shim.drm, plane);
      }
    }
  }

  lemma FirstDrives(shim: Shim, d: Core, t: Turn, k: nat, first: Shown, all: seq<Publication>, plane: int)
    requires Says(first.round, t) && WasRound(START, d, first, all) && Learns(shim, [], SetsOf(t.settings), first) && Honest(shim, first)
    requires t.flags / 0x100 % 2 == 0 && t.props.enable != 0 && R.AllBounded(t.frames) && first.round.mapReady
    requires Published(all, 1, [t]) && k == 1 + |t.frames| && Quiet(first, k) && k < SEQ_PERIOD
    requires plane in Tracked(Ids(SetsOf(t.settings))) && shim.drm && shim.EpdcPlane(plane)
    ensures plane in first.known && d.tun == t.props
    ensures t.frames == [] ==> forall x, y :: InPanel(x, y) ==> shim.Paints(first.sent, first.updates, x, y)
  {
    var r := first.round;
    assert all[..0] == [] && QuietIfReal(first, k);
    assert R.Publish([], r.frames) == all[..k - 1];
    FirstStep(r, d, first.action);
    FirstFetched(SetsOf(t.settings), plane);
    LearnsPlane(shim, [], SetsOf(t.settings), first, plane);
  }

  lemma FirstStep(r: R.Round, d: Core, action: Action)
    requires (d, action) == R.RoundStep(START, [], r) && R.AllBounded(r.frames)
    requires !r.testOnly && r.props.enable != 0 && r.mapReady && |r.frames| + 1 < SEQ_PERIOD
    ensures action.Drive? && d.tun == r.props
    ensures r.frames == [] ==> forall x, y :: InPanel(x, y) ==> Covers(action.rects, x, y)
  {
    assert R.RoundStep(START, [], r) == R.RoundStep(START, [], r.(plane := true));
    R.InitialFullPassReplaced(r.(plane := true));
    if r.frames == [] {
      forall x, y | InPanel(x, y) ensures Covers(action.rects, x, y) {
        assert R.Repaints(action, true, x, y);
      }
    }
  }

  /** With an empty cache there is room for every tracked object. */
  lemma FirstFetched(sets: seq<PropSet>, plane: int)
    requires plane in Tracked(Ids(sets))
    ensures plane in FetchAll([], Tracked(Ids(sets)), true)
  {
    var ids := Tracked(Ids(sets));
    var i :| 0 <= i < |ids| && ids[i] == plane;
    UnknownAtMost([], ids[..i]);
    FetchedExactly([], ids, true, i);
  }

  lemma {:induction false} UnknownAtMost(known: seq<int>, ids: seq<int>)
    ensures Unknown(known, ids) <= |ids|
  {
    if ids != [] {
      UnknownAtMost(known, ids[..|ids| - 1]);
    }
  }

  lemma KnownInReach(known: seq<int>, turns: seq<Turn>, drm: bool, plane: int)
    requires plane in known
    ensures PlaneInReach(known, turns, drm, plane)
  {
    forall i | 0 <= i < |turns| && turns[i].flags / 0x100 % 2 == 0
      ensures plane in FetchAll(known, Tracked(Ids(SetsOf(turns[i].settings))), drm)
    {
      FetchKeeps(known, Tracked(Ids(SetsOf(turns[i].settings))), drm, plane);
    }
  }

  /** A new shim, from its first commit on: that commit attaches it, and from then on the panel, once it
      shows the framebuffer, shows it after every real commit of a paced run. */
  method StartAndRun(shim: Shim, t: Turn, turns: seq<Turn>, ghost k: nat, ghost plane: int) returns (ghost first: Shown, ghost shown: seq<Shown>)
    requires shim.Valid() && shim.request == [] && shim.State() == START && shim.accepted == 0 && shim.fetched == []
    modifies shim, shim.parms, shim.cache, shim.pend, shim.pendFb, shim.sf
    ensures shim.Valid() && shim.request == []
    ensures Says(first.round, t) && Honest(shim, first) && AllSay(shown, turns) && AllHonest(shim, shown)
    ensures Starts(t, |shim.sf.log|) && Published(shim.sf.pubs, 1, [t] + turns) && k == 1 + |t.frames| && Quiet(first, k) && AllQuiet(shown, k)
            && k + FrameCount(turns) < SEQ_PERIOD && PacedTurns(turns, [], plane)
            && plane in Tracked(Ids(SetsOf(t.settings))) && shim.drm && shim.EpdcPlane(plane) ==>
              NeverStale(shim, shown)
  {
    first := StartUp(shim, t, k, plane);
    StartPublished(shim.sf.pubs, t, turns);
    shown := Run(shim, turns, k, plane);
  }

  lemma StartPublished(all: seq<Publication>, t: Turn, turns: seq<Turn>)
    ensures Published(all, 1, [t] + turns) ==> Published(all, 1, [t]) && Published(all, 1 + |t.frames|, turns)
  {
    assert ([t] + turns)[1..] == turns && [t][1..] == [];
  }

  // ------------------------------------------------------------------ ready and paced

  /** Every driving commit with a frame due reaches a plane. */
  ghost predicate DrivesPlanes(shown: seq<Shown>, waiting: seq<Region>)
    decreases |shown|
  {
    shown != [] ==>
      && (shown[0].action.Drive? && waiting + shown[0].round.frames != [] ==> shown[0].round.plane)
      && DrivesPlanes(shown[1..], R.Left(waiting, shown[0].round))
  }

  lemma LearnsPlane(shim: Shim, known: seq<int>, sets: seq<PropSet>, first: Shown, plane: int)
    requires first.action.Drive? && Learns(shim, known, sets, first)
    requires plane in FetchAll(known, Tracked(Ids(sets)), shim.drm) && shim.EpdcPlane(plane)
    ensures plane in first.known && (plane in Tracked(Ids(sets)) ==> first.round.plane)
  {
  }

  lemma StillInReach(shim: Shim, known: seq<int>, turns: seq<Turn>, first: Shown, plane: int)
    requires turns != [] && PlaneInReach(known, turns, shim.drm, plane)
    requires first.known == known || plane in first.known
    ensures PlaneInReach(first.known, turns[1..], shim.drm, plane)
  {
    forall i | 0 <= i < |turns[1..]| && turns[1..][i].flags / 0x100 % 2 == 0
      ensures plane in FetchAll(first.known, Tracked(Ids(SetsOf(turns[1..][i].settings))), shim.drm)
    {
      assert turns[1..][i] == turns[i + 1];
      if plane in first.known {
        FetchKeeps(first.known, Tracked(Ids(SetsOf(turns[i + 1].settings))), shim.drm, plane);
      }
    }
  }

  /** A validation pass does not drive. */
  ghost predicate PassesTests(shown: seq<Shown>) {
    forall i :: 0 <= i < |shown| && shown[i].round.testOnly ==> !shown[i].action.Drive?
  }

  lemma {:induction false} StepsPassTests(c: Core, pubs: seq<Publication>, shown: seq<Shown>)
    requires Steps(c, pubs, shown)
    ensures PassesTests(shown)
    decreases |shown|
  {
    if shown != [] {
      StepsPassTests(R.RoundStep(c, pubs, shown[0].round).0, R.Publish(pubs, shown[0].round.frames), shown[1..]);
      assert forall i :: 1 <= i < |shown| ==> shown[1..][i - 1] == shown[i];
    }
  }

  lemma {:induction false} PlaneDriven(shim: Shim, known: seq<int>, turns: seq<Turn>, shown: seq<Shown>, waiting: seq<Region>, plane: int)
    requires PlaneInReach(known, turns, shim.drm, plane) && shim.EpdcPlane(plane) && PassesTests(shown)
    requires AllSay(shown, turns) && AllLearn(shim, known, turns, shown) && PacedTurns(turns, waiting, plane)
    ensures DrivesPlanes(shown, waiting)
    decreases |shown|
  {
    if shown != [] {
      var t, first := turns[0], shown[0];
      assert Says(first.round, t);
      if first.action.Drive? {
        LearnsPlane(shim, known, SetsOf(t.settings), first, plane);
      }
      StillInReach(shim, known, turns, first, plane);
      TailsSay(shown, turns);
      PlaneDriven(shim, first.known, turns[1..], shown[1..], R.Left(waiting, first.round), plane);
    }
  }

  lemma TailsSay(shown: seq<Shown>, turns: seq<Turn>)
    requires shown != [] && AllSay(shown, turns)
    ensures AllSay(shown[1..], turns[1..]) && (PassesTests(shown) ==> PassesTests(shown[1..]))
  {
    assert forall i :: 1 <= i < |turns| ==> shown[1..][i - 1] == shown[i] && turns[1..][i - 1] == turns[i];
  }

  /** The shim keeps up: of `n` publications it accepted number `read` last, none of the frames that
      wait is among those, and the `more` to come will not lap it. */
  predicate KeepsUp(c: Core, n: nat, waiting: nat, read: nat, more: nat) {
    && c.attached && c.tun.enable != 0 && c.tun.interval <= 0
    && c.lastSeq == SeqWord(read) && read + waiting <= n + 1 && n + 1 + more - read < SEQ_PERIOD
  }

  lemma StillKeepsUp(c: Core, pubs: seq<Publication>, r: R.Round, action: Action, waiting: nat, read: nat, more: nat)
      returns (d: Core, now: seq<Publication>, next: nat)
    requires action == R.RoundStep(c, pubs, r).1
    requires KeepsUp(c, |pubs|, waiting, read, |r.frames| + more) && r.props.enable != 0 && r.props.interval <= 0
    ensures d == R.RoundStep(c, pubs, r).0 && now == R.Publish(pubs, r.frames) && |now| == |pubs| + |r.frames|
    ensures KeepsUp(d, |now|, if r.testOnly then waiting + |r.frames| else 0, next, more)
    ensures next == if r.testOnly || r.contended then read else |now| + 1
    ensures !r.testOnly && waiting + |r.frames| > 0 ==> action.Drive?
  {
    var n := |pubs| + |r.frames|;
    d, now, next := R.RoundStep(c, pubs, r).0, R.Publish(pubs, r.frames), if r.testOnly || r.contended then read else n + 1;
    R.AnyRound(c, pubs, r, read);
    assert R.ReadAfter(c, r, n, read) == next;
  }

  /** A round of such a run: at most one frame due, and not accepted yet. */
  ghost predicate OneFrameDue(r: R.Round, n: nat, waiting: seq<Region>, read: nat) {
    && read + |waiting| <= n + 1 && n + |r.frames| + 1 - read < SEQ_PERIOD
    && |waiting + r.frames| <= 1 && R.AllBounded(waiting + r.frames) && r.props.enable != 0
  }

  lemma PacedFirst(rounds: seq<R.Round>, r: R.Round, rest: seq<R.Round>, waiting: seq<Region>, n: nat, read: nat, gap: nat)
    requires rounds == [r] + rest && OneFrameDue(r, n, waiting, read)
    requires r.testOnly || waiting + r.frames == [] || r.plane
    requires R.Paced(rest, R.Left(waiting, r))
    requires R.NeverLapped(rest, R.Left(waiting, r), gap)
    requires gap == if r.testOnly || r.contended then n + |r.frames| + 1 - read else 0
    ensures R.Paced(rounds, waiting) && R.NeverLapped(rounds, waiting, n + 1 - read)
  {
    assert rounds[1..] == rest;
  }

  lemma PacedTurn(r: R.Round, turns: seq<Turn>, waiting: seq<Region>, plane: int)
    requires turns != [] && Says(r, turns[0]) && PacedTurns(turns, waiting, plane)
    ensures |waiting + r.frames| <= 1 && R.AllBounded(waiting + r.frames) && r.props.enable != 0 && r.props.interval <= 0
    ensures PacedTurns(turns[1..], R.Left(waiting, r), plane) && FrameCount(turns) == |r.frames| + FrameCount(turns[1..])
  {
  }

  /** What the first round of such a run is, and what it leaves to the others. */
  lemma HeadKeepsUp(c: Core, pubs: seq<Publication>, turns: seq<Turn>, shown: seq<Shown>, waiting: seq<Region>, read: nat, plane: int)
      returns (r: R.Round, d: Core, now: seq<Publication>, next: nat, gap: nat)
    requires shown != [] && KeepsUp(c, |pubs|, |waiting|, read, FrameCount(turns))
    requires AllSay(shown, turns) && PacedTurns(turns, waiting, plane) && Steps(c, pubs, shown) && DrivesPlanes(shown, waiting)
    ensures r == shown[0].round && Rounds(shown) == [r] + Rounds(shown[1..]) && OneFrameDue(r, |pubs|, waiting, read)
    ensures r.testOnly || waiting + r.frames == [] || r.plane
    ensures |now| == |pubs| + |r.frames| && gap == |now| + 1 - next && gap == if r.testOnly || r.contended then |pubs| + |r.frames| + 1 - read else 0
    ensures KeepsUp(d, |now|, |R.Left(waiting, r)|, next, FrameCount(turns[1..]))
    ensures AllSay(shown[1..], turns[1..]) && PacedTurns(turns[1..], R.Left(waiting, r), plane)
    ensures Steps(d, now, shown[1..]) && DrivesPlanes(shown[1..], R.Left(waiting, r))
  {
    r := shown[0].round;
    assert Says(r, turns[0]);
    PacedTurn(r, turns, waiting, plane);
    d, now, next := StillKeepsUp(c, pubs, r, shown[0].action, |waiting|, read, FrameCount(turns[1..]));
    gap := |now| + 1 - next;
    TailsSay(shown, turns);
  }

  /** The rounds of such a run are paced, and every one with a frame due reaches the plane. */
  lemma {:induction false} PacedRounds(c: Core, pubs: seq<Publication>, turns: seq<Turn>, shown: seq<Shown>,
                                       waiting: seq<Region>, read: nat, plane: int)
    requires KeepsUp(c, |pubs|, |waiting|, read, FrameCount(turns))
    requires AllSay(shown, turns) && PacedTurns(turns, waiting, plane) && Steps(c, pubs, shown) && DrivesPlanes(shown, waiting)
    ensures R.Paced(Rounds(shown), waiting) && R.NeverLapped(Rounds(shown), waiting, |pubs| + 1 - read)
    decreases |shown|
  {
    if shown != [] {
      var r, d, now, next, gap := HeadKeepsUp(c, pubs, turns, shown, waiting, read, plane);
      PacedRounds(d, now, turns[1..], shown[1..], R.Left(waiting, r), next, plane);
      PacedFirst(Rounds(shown), r, Rounds(shown[1..]), waiting, |pubs|, read, gap);
    }
  }

  lemma {:induction false} PacedIntervals(turns: seq<Turn>, waiting: seq<Region>, plane: int)
    requires PacedTurns(turns, waiting, plane)
    ensures forall i :: 0 <= i < |turns| ==> turns[i].props.interval <= 0
    decreases |turns|
  {
    if turns != [] {
      PacedIntervals(turns[1..], if turns[0].flags / 0x100 % 2 == 1 then waiting + turns[0].frames else [], plane);
      assert forall i :: 1 <= i < |turns| ==> turns[1..][i - 1] == turns[i];
    }
  }

  lemma NoIntervals(turns: seq<Turn>, shown: seq<Shown>, waiting: seq<Region>, plane: int)
    requires AllSay(shown, turns) && PacedTurns(turns, waiting, plane)
    ensures forall i :: 0 <= i < |shown| ==> Rounds(shown)[i].props.interval <= 0
  {
    PacedIntervals(turns, waiting, plane);
    RoundsSay(shown, turns);
    assert forall i :: 0 <= i < |turns| ==> Says(shown[i].round, turns[i]);
  }

  lemma ReadyServes(shim: Shim, c: Core, pubs: seq<Publication>, turns: seq<Turn>, shown: seq<Shown>, read: nat, known: seq<int>, plane: int)
    requires ReadyFor(c, read, known, shim.drm, |pubs| + 1, turns, plane) && shim.EpdcPlane(plane) && c.lastSeq == SeqWord(read)
    requires AllSay(shown, turns) && AllLearn(shim, known, turns, shown) && PacedTurns(turns, [], plane) && Steps(c, pubs, shown)
    ensures R.Served(c, pubs, Rounds(shown), [])
  {
    StepsPassTests(c, pubs, shown);
    PlaneDriven(shim, known, turns, shown, [], plane);
    PacedRounds(c, pubs, turns, shown, [], read, plane);
    NoIntervals(turns, shown, [], plane);
    R.NoIntervalNoThrottle(c, pubs, Rounds(shown), []);
    R.ServedIffNotThrottled(c, pubs, Rounds(shown), [], read);
  }
}
