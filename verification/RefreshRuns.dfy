/** How refreshes are spaced, cleaned and numbered over a whole run of commits. */
module RefreshRuns {
  import opened Seqlock
  import opened RefreshPolicy

  /** One driven commit: when, under which marker, whether the counter forced a full pass, and what
      the rectangles were submitted with. */
  datatype Refresh = Refresh(time: int, marker: int, cleaning: bool, waveform: int, mode: int, flag: int)

  function After(c: Core, inputs: seq<Input>): Core {
    if inputs == [] then c else Step(After(c, inputs[..|inputs| - 1]), inputs[|inputs| - 1]).0
  }

  /** The driven commits of a run, in order. */
  function Refreshes(c: Core, inputs: seq<Input>): seq<Refresh> {
    if inputs == [] then []
    else
      var n := |inputs| - 1;
      var action := Step(After(c, inputs[..n]), inputs[n]).1;
      Refreshes(c, inputs[..n])
      + if action.Drive? then [Refresh(inputs[n].now, action.marker, action.cleaning, action.waveform, action.updateMode, action.flag)]
        else []
  }

  /** What one commit does to the clock, the cleaning counter and the marker. */
  lemma OneStep(c: Core, i: Input)
    ensures var (d, action) := Step(c, i);
            var tun := Rechecked(c, i.props).tun;
            && d.tun == tun
            && (action.Pass? ==> d.lastInject == c.lastInject && d.sinceFull == c.sinceFull && d.marker == c.marker)
            && (action.Drive? ==>
                  && d.lastInject == i.now
                  && d.sinceFull == NextSinceFull(tun, c.sinceFull)
                  && action.cleaning == CleanDue(tun, c.sinceFull)
                  && action.marker == d.marker == NextMarker(c.marker)
                  && !(tun.interval > 0 && 0 <= Elapsed(c, i.now) < tun.interval))
  {
  }

  /** The properties never change and the clock is positive and never goes back. */
  ghost predicate Steady(c: Core, inputs: seq<Input>) {
    && (forall i :: 0 <= i < |inputs| ==> inputs[i].props == c.tun)
    && (forall i :: 0 <= i < |inputs| ==> 0 < inputs[i].now && c.lastInject <= inputs[i].now)
    && (forall i, j :: 0 <= i < j < |inputs| ==> inputs[i].now <= inputs[j].now)
  }

  lemma {:induction false} TunablesStay(c: Core, inputs: seq<Input>)
    requires forall i :: 0 <= i < |inputs| ==> inputs[i].props == c.tun
    ensures After(c, inputs).tun == c.tun
  {
    if inputs != [] {
      OneStep(After(c, inputs[..|inputs| - 1]), inputs[|inputs| - 1]);
      TunablesStay(c, inputs[..|inputs| - 1]);
    }
  }

  /** The last refresh is the one the throttle measures against. */
  lemma {:induction false} LastInjectTime(c: Core, inputs: seq<Input>)
    ensures var rs := Refreshes(c, inputs);
            After(c, inputs).lastInject == if rs == [] then c.lastInject else rs[|rs| - 1].time
  {
    if inputs != [] {
      OneStep(After(c, inputs[..|inputs| - 1]), inputs[|inputs| - 1]);
      LastInjectTime(c, inputs[..|inputs| - 1]);
    }
  }

  lemma {:induction false} RefreshTimes(c: Core, inputs: seq<Input>, bound: int)
    requires forall i :: 0 <= i < |inputs| ==> 0 < inputs[i].now <= bound
    ensures forall k :: 0 <= k < |Refreshes(c, inputs)| ==> 0 < Refreshes(c, inputs)[k].time <= bound
  {
    if inputs != [] {
      RefreshTimes(c, inputs[..|inputs| - 1], bound);
    }
  }

  /** A driven commit comes at least the interval after the refresh before it. */
  lemma SpacedFromLast(c: Core, inputs: seq<Input>)
    requires Steady(c, inputs) && c.tun.interval > 0 && inputs != []
    requires |Refreshes(c, inputs[..|inputs| - 1])| > 0
    ensures var before := Refreshes(c, inputs[..|inputs| - 1]);
            |Refreshes(c, inputs)| > |before| ==>
              Refreshes(c, inputs)[|before|].time - before[|before| - 1].time >= c.tun.interval
  {
    var n := |inputs| - 1;
    TunablesStay(c, inputs[..n]);
    LastInjectTime(c, inputs[..n]);
    RefreshTimes(c, inputs[..n], inputs[n].now);
    OneStep(After(c, inputs[..n]), inputs[n]);
  }

  /** Each refresh comes at least `x` after the one before it. */
  ghost predicate Spaced(rs: seq<Refresh>, x: int) {
    forall k :: 0 < k < |rs| ==> rs[k].time - rs[k - 1].time >= x
  }

  lemma {:induction false} AllSpaced(c: Core, inputs: seq<Input>)
    requires Steady(c, inputs) && c.tun.interval > 0
    ensures Spaced(Refreshes(c, inputs), c.tun.interval)
  {
    if inputs != [] {
      var before := Refreshes(c, inputs[..|inputs| - 1]);
      AllSpaced(c, inputs[..|inputs| - 1]);
      if |before| > 0 {
        SpacedFromLast(c, inputs);
      }
    }
  }

  lemma {:induction false} SpacedApart(rs: seq<Refresh>, x: int, i: nat, j: nat)
    requires Spaced(rs, x) && i < j < |rs|
    ensures rs[j].time - rs[i].time >= Times(j - i, x)
  {
    assert rs[j].time - rs[j - 1].time >= x;
    if i < j - 1 {
      SpacedApart(rs, x, i, j - 1);
    }
  }

  /** With a positive interval, refreshes `i` and `j` of a run are at least j - i intervals
      apart. */
  lemma RefreshSpacing(c: Core, inputs: seq<Input>, i: nat, j: nat)
    requires Steady(c, inputs) && c.tun.interval > 0
    requires i < j < |Refreshes(c, inputs)|
    ensures Refreshes(c, inputs)[j].time - Refreshes(c, inputs)[i].time >= Times(j - i, c.tun.interval)
  {
    AllSpaced(c, inputs);
    SpacedApart(Refreshes(c, inputs), c.tun.interval, i, j);
  }

  /** n * x */
  function Times(n: nat, x: int): int {
    if n == 0 then 0 else Times(n - 1, x) + x
  }

  /** The cleaning counter after `k` refreshes, started at `s`. */
  function Turn(s: nat, k: nat, n: nat): nat
    requires s < n
    ensures Turn(s, k, n) < n
  {
    if k == 0 then s
    else if Turn(s, k - 1, n) + 1 == n then 0
    else Turn(s, k - 1, n) + 1
  }

  /** Refresh number `k` cleans exactly when the counter comes round at it. */
  lemma {:induction false} CleaningTurns(c: Core, inputs: seq<Input>)
    requires Steady(c, inputs) && 0 <= c.sinceFull < c.tun.fullEvery
    ensures After(c, inputs).sinceFull == Turn(c.sinceFull, |Refreshes(c, inputs)|, c.tun.fullEvery)
    ensures forall k :: 0 <= k < |Refreshes(c, inputs)| ==>
              (Refreshes(c, inputs)[k].cleaning <==> Turn(c.sinceFull, k, c.tun.fullEvery) + 1 == c.tun.fullEvery)
  {
    if inputs != [] {
      var n := |inputs| - 1;
      CleaningTurns(c, inputs[..n]);
      TunablesStay(c, inputs[..n]);
      OneStep(After(c, inputs[..n]), inputs[n]);
    }
  }

  lemma {:induction false} TurnAhead(s: nat, from: nat, d: nat, n: nat)
    requires s < n && d < n
    ensures var t := Turn(s, from, n);
            Turn(s, from + d, n) == if t + d < n then t + d else t + d - n
  {
    if d > 0 {
      TurnAhead(s, from, d - 1, n);
    }
  }

  /** Every window of `fullevery` consecutive refreshes holds exactly one cleaning pass. */
  lemma OneCleaningPerWindow(c: Core, inputs: seq<Input>, from: nat) returns (k: nat)
    requires Steady(c, inputs) && 0 <= c.sinceFull < c.tun.fullEvery
    requires from + c.tun.fullEvery <= |Refreshes(c, inputs)|
    ensures from <= k < from + c.tun.fullEvery
    ensures forall j :: from <= j < from + c.tun.fullEvery ==> (Refreshes(c, inputs)[j].cleaning <==> j == k)
  {
    CleaningTurns(c, inputs);
    var n := c.tun.fullEvery;
    k := from + (n - 1 - Turn(c.sinceFull, from, n));
    forall j | from <= j < from + n ensures Refreshes(c, inputs)[j].cleaning <==> j == k {
      TurnAhead(c.sinceFull, from, j - from, n);
    }
  }

  /** Until the 32-bit limit, markers count up by one per refresh, so no two are equal. */
  lemma {:induction false} MarkersCountUp(c: Core, inputs: seq<Input>)
    requires c.marker + |Refreshes(c, inputs)| <= MARKER_MAX
    ensures After(c, inputs).marker == c.marker + |Refreshes(c, inputs)|
    ensures forall k :: 0 <= k < |Refreshes(c, inputs)| ==> Refreshes(c, inputs)[k].marker == c.marker + k + 1
  {
    if inputs != [] {
      OneStep(After(c, inputs[..|inputs| - 1]), inputs[|inputs| - 1]);
      MarkersCountUp(c, inputs[..|inputs| - 1]);
    }
  }

  // ------------------------------------------------------------------ what refreshes are submitted with

  /** Refresh `k` of a run is the counter's turn; never if the counter is switched off. */
  ghost predicate CleansAt(c: Core, k: nat) {
    c.tun.fullEvery > 0 && 0 <= c.sinceFull < c.tun.fullEvery && Turn(c.sinceFull, k, c.tun.fullEvery) + 1 == c.tun.fullEvery
  }

  /** Refresh `k` comes less than `ms` after the one before it, the one before the run for the first. */
  ghost predicate SoonAfter(c: Core, rs: seq<Refresh>, k: nat, ms: int)
    requires k < |rs|
  {
    var last := if k > 0 then rs[k - 1].time else c.lastInject;
    (k > 0 || c.lastInject != 0) && rs[k].time - last < ms
  }

  ghost predicate SubmittedAs(c: Core, rs: seq<Refresh>, k: nat)
    requires k < |rs|
  {
    && rs[k].flag == c.tun.flag && (rs[k].cleaning <==> CleansAt(c, k))
    && (CleansAt(c, k) ==> rs[k].mode == 1 && rs[k].waveform == c.tun.waveform)
    && (!CleansAt(c, k) ==>
          && rs[k].mode == c.tun.updateMode
          && rs[k].waveform == if c.tun.fastWaveform > 0 && SoonAfter(c, rs, k, c.tun.fastMs) then c.tun.fastWaveform else c.tun.waveform)
  }

  /** Every refresh of a steady run is submitted with update mode 1 and the quality waveform when the
      cleaning counter comes round at it, and with the configured mode otherwise, and then with the
      fast waveform exactly if there is one and the refresh before it was less than `fastms` ago. */
  lemma {:induction false} SubmittedModes(c: Core, inputs: seq<Input>)
    requires Steady(c, inputs) && (c.tun.fullEvery > 0 ==> 0 <= c.sinceFull < c.tun.fullEvery)
    ensures forall k :: 0 <= k < |Refreshes(c, inputs)| ==> SubmittedAs(c, Refreshes(c, inputs), k)
  {
    if inputs != [] {
      var n := |inputs| - 1;
      var before, rs := Refreshes(c, inputs[..n]), Refreshes(c, inputs);
      SubmittedModes(c, inputs[..n]);
      forall k | 0 <= k < |before| ensures SubmittedAs(c, rs, k) {
        assert SubmittedAs(c, before, k) && rs[k] == before[k] && (k > 0 ==> rs[k - 1] == before[k - 1]);
      }
      if |rs| > |before| {
        NewestSubmitted(c, inputs, before, rs);
      }
    }
  }

  lemma NewestSubmitted(c: Core, inputs: seq<Input>, before: seq<Refresh>, rs: seq<Refresh>)
    requires Steady(c, inputs) && (c.tun.fullEvery > 0 ==> 0 <= c.sinceFull < c.tun.fullEvery) && inputs != []
    requires before == Refreshes(c, inputs[..|inputs| - 1]) && rs == Refreshes(c, inputs) && |rs| > |before|
    ensures SubmittedAs(c, rs, |before|)
  {
    var n := |inputs| - 1;
    var d := After(c, inputs[..n]);
    TunablesStay(c, inputs[..n]);
    LastInjectTime(c, inputs[..n]);
    RefreshTimes(c, inputs[..n], inputs[n].now);
    if c.tun.fullEvery > 0 {
      CleaningTurns(c, inputs[..n]);
    }
    OneSubmission(d, inputs[n]);
    SubmittedFrom(c, before, rs[|before|], d.sinceFull, d.lastInject);
    assert rs == before + [rs[|before|]];
  }

  lemma SubmittedFrom(c: Core, before: seq<Refresh>, r: Refresh, sinceFull: int, lastInject: int)
    requires c.tun.fullEvery > 0 ==> 0 <= c.sinceFull < c.tun.fullEvery && sinceFull == Turn(c.sinceFull, |before|, c.tun.fullEvery)
    requires lastInject == (if before == [] then c.lastInject else before[|before| - 1].time) && lastInject <= r.time
    requires before != [] ==> lastInject != 0
    requires var clean := c.tun.fullEvery > 0 && sinceFull >= c.tun.fullEvery - 1;
             var moving := c.tun.fastWaveform > 0 && lastInject != 0 && 0 <= r.time - lastInject < c.tun.fastMs;
             && r.flag == c.tun.flag && (r.cleaning <==> clean)
             && r.mode == (if clean then 1 else c.tun.updateMode)
             && r.waveform == (if !clean && moving then c.tun.fastWaveform else c.tun.waveform)
    ensures SubmittedAs(c, before + [r], |before|)
  {
  }

  /** Once a commit of a steady run has something new to show, it is throttled exactly if it comes
      less than the interval after the last refresh, and drives the panel otherwise. */
  lemma ThrottledExactly(c: Core, inputs: seq<Input>, i: Input)
    requires Steady(c, inputs + [i])
    ensures var rs, action := Refreshes(c, inputs), Step(After(c, inputs), i).1;
            var soon := (rs != [] || c.lastInject != 0) && i.now - (if rs != [] then rs[|rs| - 1].time else c.lastInject) < c.tun.interval;
            action.Drive? || action == Pass(Throttled) ==> (action == Pass(Throttled) <==> c.tun.interval > 0 && soon)
  {
    var all := inputs + [i];
    assert forall k :: 0 <= k < |inputs| ==> all[k] == inputs[k];
    assert all[|inputs|] == i;
    TunablesStay(c, inputs);
    LastInjectTime(c, inputs);
    RefreshTimes(c, inputs, i.now);
  }

  // ------------------------------------------------------------------ without a damage map

  /** A real commit of an enabled shim whose signature is known. */
  predicate Signed(i: Input) { !i.testOnly && i.sigKnown }

  /** The signature of the last such commit, if there was one. */
  function LastSigned(sig: int, inputs: seq<Input>): int {
    if inputs == [] then sig
    else if Signed(inputs[|inputs| - 1]) then inputs[|inputs| - 1].sig
    else LastSigned(sig, inputs[..|inputs| - 1])
  }

  /** While no damage map can be attached and `skipsame` is on, a commit passes as the same frame
      exactly if its buffers have the signature of the last commit before it. */
  lemma {:induction false} SameFrameExactly(c: Core, inputs: seq<Input>, i: Input)
    requires Steady(c, inputs + [i]) && c.tun.enable != 0 && c.tun.skipSame != 0
    requires !c.attached && !i.mapReady && forall k :: 0 <= k < |inputs| ==> !inputs[k].mapReady
    ensures After(c, inputs).lastSig == LastSigned(c.lastSig, inputs) && !After(c, inputs).attached
    ensures Step(After(c, inputs), i).1 == Pass(SameFrame) <==> Signed(i) && i.sig == LastSigned(c.lastSig, inputs)
  {
    var all := inputs + [i];
    assert all[|inputs|] == i && forall k :: 0 <= k < |inputs| ==> all[k] == inputs[k];
    if inputs != [] {
      var n := |inputs| - 1;
      assert inputs[..n] + [inputs[n]] == inputs;
      SameFrameExactly(c, inputs[..n], inputs[n]);
      TunablesStay(c, inputs[..n]);
      DetachedStep(After(c, inputs[..n]), inputs[n]);
    }
    TunablesStay(c, inputs);
    DetachedStep(After(c, inputs), i);
  }

  lemma DetachedStep(d: Core, i: Input)
    requires !d.attached && !i.mapReady && i.props == d.tun && d.tun.enable != 0 && d.tun.skipSame != 0
    ensures var (e, action) := Step(d, i);
            && !e.attached && e.lastSig == (if Signed(i) then i.sig else d.lastSig)
            && (action == Pass(SameFrame) <==> Signed(i) && i.sig == d.lastSig)
  {
  }

  // ------------------------------------------------------------------ the tunables

  /** The properties are read again at every thirtieth commit and at no other. */
  lemma {:induction false} TunablesEvery30(c: Core, inputs: seq<Input>)
    requires c.sinceRecheck == 0 && 0 < |inputs| <= 30
    ensures After(c, inputs).tun == if |inputs| == 30 then inputs[29].props else c.tun
    ensures After(c, inputs).sinceRecheck == if |inputs| == 30 then 0 else |inputs|
  {
    var n := |inputs| - 1;
    if n > 0 {
      TunablesEvery30(c, inputs[..n]);
    }
    RecheckStep(After(c, inputs[..n]), inputs[n]);
  }

  lemma RecheckStep(c: Core, i: Input)
    ensures var d := Step(c, i).0;
            && d.tun == (if c.sinceRecheck >= 29 then i.props else c.tun)
            && d.sinceRecheck == (if c.sinceRecheck >= 29 then 0 else c.sinceRecheck + 1)
  {
  }

  /** While the mapping can be attached, the thirtieth attempt after the last one attaches it and none
      before does. */
  lemma {:induction false} AttachesAt30(c: Core, inputs: seq<Input>)
    requires !c.attached && c.tried == 0 && c.tun.enable != 0 && |inputs| <= 30
    requires forall i :: 0 <= i < |inputs| ==> inputs[i].props == c.tun && !inputs[i].testOnly && inputs[i].mapReady
    ensures After(c, inputs).attached <==> |inputs| == 30
    ensures After(c, inputs).tried == if |inputs| == 30 then 0 else |inputs|
  {
    if inputs != [] {
      var n := |inputs| - 1;
      AttachesAt30(c, inputs[..n]);
      TunablesStay(c, inputs[..n]);
      AttachStep(After(c, inputs[..n]), inputs[n]);
    }
  }

  lemma AttachStep(c: Core, i: Input)
    requires !c.attached && c.tun.enable != 0 && i.props == c.tun && !i.testOnly && i.mapReady
    ensures var d := Step(c, i).0; (d.attached <==> c.tried >= 29) && d.tried == if c.tried >= 29 then 0 else c.tried + 1
  {
  }
}
