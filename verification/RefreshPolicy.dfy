/** What one composer commit decides, as a function of the shim's static state and of what the
    commit sees.  EpdcShim proves that the code computes this function; EpdcRuns proves what it
    means over whole runs. */
module RefreshPolicy {
  import opened Common
  import opened Seqlock

  const PANEL_W := 1648
  const PANEL_H := 824
  const PANEL := Rect(0, 0, PANEL_W, PANEL_H)
  const RECHECK := 30
  const MARKER_MAX := 0x7fff_ffff

  datatype Tunables = Tunables(enable: int, waveform: int, updateMode: int, flag: int, interval: int,
                               fastWaveform: int, fastMs: int, fullEvery: int, skipSame: int)

  /** One entry of the 8-entry array the kernel copies. */
  datatype Update = Update(rect: Rect, waveform: int, updateMode: int, marker: int, temp: int,
                           flag: int, reserved: int)

  /** What read_damage found. */
  datatype Reading = Detached | Contended | Accepted(seqWord: int, rects: seq<Rect>, full: int)

  /** The static variables that decide commits. */
  datatype Core = Core(tun: Tunables, sinceRecheck: int, attached: bool, tried: int, lastSeq: int,
                       lastSig: int, lastInject: int, sinceFull: int, marker: int)

  /** What one commit sees: the request flags, the properties it would re-read, whether the
      mapping can be attached now, the damage reading, the buffer signature (if FB_ID is
      known), and the clock. */
  datatype Input = Input(testOnly: bool, props: Tunables, mapReady: bool, reading: Reading,
                         sigKnown: bool, sig: int, now: int)

  datatype Reason = TestOnly | Disabled | Unchanged | SameFrame | Throttled

  datatype Action = Pass(reason: Reason)
                  | Drive(rects: seq<Rect>, waveform: int, updateMode: int, marker: int, flag: int, cleaning: bool)

  // ------------------------------------------------------------------- the pieces

  function Clamp(r: Rect): Rect {
    var l := if r.left < 0 then 0 else r.left;
    var t := if r.top < 0 then 0 else r.top;
    var x := if r.right > PANEL_W then PANEL_W else r.right;
    var b := if r.bottom > PANEL_H then PANEL_H else r.bottom;
    if x <= l || b <= t then PANEL else Rect(l, t, x, b)
  }

  function ClampAll(rects: seq<Rect>): (c: seq<Rect>)
    ensures |c| == |rects|
    ensures forall i :: 0 <= i < |rects| ==> c[i] == Clamp(rects[i])
  {
    if rects == [] then [] else ClampAll(rects[..|rects| - 1]) + [Clamp(rects[|rects| - 1])]
  }

  function Submitted(rects: seq<Rect>, full: bool): seq<Rect> {
    if full || rects == [] then [PANEL] else ClampAll(rects)
  }

  predicate InPanel(x: int, y: int) {
    0 <= x < PANEL_W && 0 <= y < PANEL_H
  }

  ghost predicate Covers(rects: seq<Rect>, x: int, y: int) {
    exists i :: 0 <= i < |rects| && Contains(rects[i], x, y)
  }

  /** Clamping a rectangle that meets the panel keeps exactly its panel pixels; one that misses
      the panel becomes the whole panel. */
  lemma ClampExact(r: Rect, x: int, y: int)
    requires InPanel(x, y)
    ensures Contains(Clamp(r), x, y) <==> Clamp(r) == PANEL || Contains(r, x, y)
    ensures (exists u, v :: InPanel(u, v) && Contains(r, u, v)) ==>
              (Contains(Clamp(r), x, y) <==> Contains(r, x, y))
  {
  }

  /** Some rectangle misses the panel, or covers it, and so clamps to all of it. */
  ghost predicate ClampsToPanel(rects: seq<Rect>) {
    exists i :: 0 <= i < |rects| && Clamp(rects[i]) == PANEL
  }

  /** The rectangles handed to the kernel are one to eight, non-empty and inside the panel, and
      the panel pixels they cover are exactly these. */
  lemma SubmittedCovers(rects: seq<Rect>, full: bool, x: int, y: int)
    requires |rects| <= DAMAGE_MAX
    ensures 1 <= |Submitted(rects, full)| <= DAMAGE_MAX && DAMAGE_MAX == 8
    ensures forall i :: 0 <= i < |Submitted(rects, full)| ==> OnPanel(Submitted(rects, full)[i])
    ensures forall i :: 0 <= i < |Submitted(rects, full)| ==>
              var r := Submitted(rects, full)[i]; 0 <= r.left < r.right <= 1648 && 0 <= r.top < r.bottom <= 824
    ensures full || rects == [] ==> Submitted(rects, full) == [Rect(0, 0, 1648, 824)]
    ensures InPanel(x, y) ==>
              (Covers(Submitted(rects, full), x, y) <==> full || rects == [] || ClampsToPanel(rects) || Covers(rects, x, y))
  {
    var s := Submitted(rects, full);
    if InPanel(x, y) {
      if full || rects == [] {
        assert Contains(s[0], x, y);
      } else {
        forall i | 0 <= i < |rects|
          ensures Contains(s[i], x, y) <==> Clamp(rects[i]) == PANEL || Contains(rects[i], x, y)
        {
          ClampExact(rects[i], x, y);
        }
      }
    }
  }

  predicate OnPanel(r: Rect) {
    0 <= r.left < r.right <= PANEL_W && 0 <= r.top < r.bottom <= PANEL_H
  }

  /** The kernel's rectangle order was recovered from field names, not documented.  Read as
      x/y/width/height instead of left/top/right/bottom, a submitted rectangle still covers. */
  lemma CoversAsWidthHeight(rects: seq<Rect>, full: bool, i: nat, x: int, y: int)
    requires |rects| <= DAMAGE_MAX && i < |Submitted(rects, full)|
    requires Contains(Submitted(rects, full)[i], x, y)
    ensures var r := Submitted(rects, full)[i];
            r.left <= x < r.left + r.right && r.top <= y < r.top + r.bottom
  {
    SubmittedCovers(rects, full, x, y);
  }

  /** `++` on the 32-bit marker, wrapping as two's complement. */
  function NextMarker(m: int): int {
    if m == MARKER_MAX then -MARKER_MAX - 1 else m + 1
  }

  predicate CleanDue(tun: Tunables, sinceFull: int) {
    tun.fullEvery > 0 && sinceFull + 1 >= tun.fullEvery
  }

  function NextSinceFull(tun: Tunables, sinceFull: int): int {
    if tun.fullEvery <= 0 then sinceFull
    else if CleanDue(tun, sinceFull) then 0
    else sinceFull + 1
  }

  function Waveform(tun: Tunables, sinceFull: int, dt: int): int {
    if !CleanDue(tun, sinceFull) && tun.fastWaveform > 0 && 0 <= dt < tun.fastMs then tun.fastWaveform
    else tun.waveform
  }

  function UpdateMode(tun: Tunables, sinceFull: int): int {
    if CleanDue(tun, sinceFull) then 1 else tun.updateMode
  }

  // ------------------------------------------------------------------- one commit

  function Rechecked(c: Core, props: Tunables): Core {
    if c.sinceRecheck + 1 < RECHECK then c.(sinceRecheck := c.sinceRecheck + 1)
    else c.(sinceRecheck := 0, tun := props)
  }

  function Attached(c: Core, mapReady: bool): Core {
    if c.attached then c
    else if c.tried + 1 < RECHECK then c.(tried := c.tried + 1)
    else c.(tried := 0, attached := mapReady)
  }

  function Elapsed(c: Core, now: int): int {
    if c.lastInject != 0 then now - c.lastInject else -1
  }

  function Injected(c: Core, i: Input): (Core, Action) {
    var dt := Elapsed(c, i.now);
    if c.tun.interval > 0 && 0 <= dt < c.tun.interval then (c, Pass(Throttled))
    else
      var cleaning := CleanDue(c.tun, c.sinceFull);
      var full := cleaning || (i.reading.Accepted? && i.reading.full != 0);
      var rects := if i.reading.Accepted? then i.reading.rects else [];
      (c.(lastInject := i.now, marker := NextMarker(c.marker), sinceFull := NextSinceFull(c.tun, c.sinceFull)),
       Drive(Submitted(rects, full), Waveform(c.tun, c.sinceFull, dt), UpdateMode(c.tun, c.sinceFull),
             NextMarker(c.marker), c.tun.flag, cleaning))
  }

  datatype Notice = Same(reason: Reason) | New

  /** Whether there is anything new to show: the sequence number decides when the mapping is
      attached, the buffer signature otherwise. */
  function Noticed(c: Core, i: Input): (Core, Notice) {
    if c.attached then
      if i.reading.Accepted? then
        (c.(lastSeq := i.reading.seqWord), if i.reading.seqWord == c.lastSeq then Same(Unchanged) else New)
      else (c, New)
    else if c.tun.skipSame != 0 && i.sigKnown then
      if i.sig == c.lastSig then (c, Same(SameFrame)) else (c.(lastSig := i.sig), New)
    else (c, New)
  }

  function AfterAttach(c: Core, i: Input): (Core, Action) {
    var (d, notice) := Noticed(c, i);
    if notice.Same? then (d, Pass(notice.reason)) else Injected(d, i)
  }

  function Step(c: Core, i: Input): (Core, Action) {
    var d := Rechecked(c, i.props);
    if i.testOnly then (d, Pass(TestOnly))
    else if d.tun.enable == 0 then (d, Pass(Disabled))
    else AfterAttach(Attached(d, i.mapReady), i)
  }

  /** What a driving commit submits, by the counter and the clock. */
  lemma OneSubmission(c: Core, i: Input)
    requires Step(c, i).1.Drive?
    ensures var action, tun := Step(c, i).1, Rechecked(c, i.props).tun;
            var clean := tun.fullEvery > 0 && c.sinceFull >= tun.fullEvery - 1;
            var moving := tun.fastWaveform > 0 && c.lastInject != 0 && 0 <= i.now - c.lastInject < tun.fastMs;
            && action.flag == tun.flag && (action.cleaning <==> clean)
            && action.updateMode == (if clean then 1 else tun.updateMode)
            && action.waveform == (if !clean && moving then tun.fastWaveform else tun.waveform)
  {
  }

  const START := Core(Tunables(1, 2, 1, 0x21000, 0, 0, 250, 0, 1), RECHECK, false, RECHECK, 0, 0, 0, 0, 0)
}
