/** fix_props of patch-recovery-adb.py: property lines are set or added so that adb is open. */
module Props {
  datatype Prop = Prop(key: string, value: string)

  const ADB := Prop("ro.adb.secure", "0")
  const DEBUGGABLE := Prop("ro.debuggable", "1")
  const SECURE := Prop("ro.secure", "0")

  predicate Sets(line: string, p: Prop) {
    p.key + "=" <= line
  }

  function Line(p: Prop): string { p.key + "=" + p.value }

  function FixLine(line: string): string {
    if Sets(line, ADB) then Line(ADB)
    else if Sets(line, DEBUGGABLE) then Line(DEBUGGABLE)
    else if Sets(line, SECURE) then Line(SECURE)
    else line
  }

  function FixEach(lines: seq<string>): (r: seq<string>)
    ensures |r| == |lines|
  {
    if lines == [] then [] else FixEach(lines[..|lines| - 1]) + [FixLine(lines[|lines| - 1])]
  }

  predicate Mentions(lines: seq<string>, p: Prop) {
    exists i :: 0 <= i < |lines| && Sets(lines[i], p)
  }

  /** The lines fixed one by one, then those of the two essential properties that were missing. */
  function FixLines(lines: seq<string>): seq<string> {
    FixEach(lines)
    + (if Mentions(lines, ADB) then [] else [Line(ADB)])
    + (if Mentions(lines, DEBUGGABLE) then [] else [Line(DEBUGGABLE)])
  }

  method FixProps(lines: seq<string>) returns (r: seq<string>)
    ensures r == FixLines(lines)
  {
    var seen: set<string> := {};
    r := [];
    for i := 0 to |lines|
      invariant r == FixEach(lines[..i])
      invariant ADB.key in seen <==> Mentions(lines[..i], ADB)
      invariant DEBUGGABLE.key in seen <==> Mentions(lines[..i], DEBUGGABLE)
    {
      assert lines[..i + 1][..i] == lines[..i];
      MentionsStep(lines, i, ADB);
      MentionsStep(lines, i, DEBUGGABLE);
      var line, hit := FixOne(lines[i]);
      seen := seen + hit;
      r := r + [line];
    }
    assert lines[..|lines|] == lines;
    if ADB.key !in seen {
      r := r + [Line(ADB)];
    }
    if DEBUGGABLE.key !in seen {
      r := r + [Line(DEBUGGABLE)];
    }
  }

  /** The inner loop: the properties are tried in order, on the line as it is by then. */
  method FixOne(was: string) returns (line: string, hit: set<string>)
    ensures line == FixLine(was)
    ensures ADB.key in hit <==> Sets(was, ADB)
    ensures DEBUGGABLE.key in hit <==> Sets(was, DEBUGGABLE)
  {
    var all := [ADB, DEBUGGABLE, SECURE];
    KeysDiffer(was);
    line, hit := was, {};
    for k := 0 to 3
      invariant line == if k > 0 && Sets(was, ADB) then Line(ADB) else if k > 1 && Sets(was, DEBUGGABLE) then Line(DEBUGGABLE)
                        else if k > 2 && Sets(was, SECURE) then Line(SECURE) else was
      invariant hit == (if k > 0 && Sets(was, ADB) then {ADB.key} else {}) + (if k > 1 && Sets(was, DEBUGGABLE) then {DEBUGGABLE.key} else {})
                       + (if k > 2 && Sets(was, SECURE) then {SECURE.key} else {})
    {
      var p := all[k];
      if Sets(line, p) {
        line := Line(p);
        hit := hit + {p.key};
      }
    }
  }

  lemma MentionsStep(lines: seq<string>, i: nat, p: Prop)
    requires i < |lines|
    ensures Mentions(lines[..i + 1], p) <==> Mentions(lines[..i], p) || Sets(lines[i], p)
  {
    if Mentions(lines[..i], p) {
      var k :| 0 <= k < i && Sets(lines[..i][k], p);
      assert lines[..i + 1][k] == lines[..i][k];
    }
    if Sets(lines[i], p) {
      assert lines[..i + 1][i] == lines[i];
    }
  }

  /** No line sets two of the properties. */
  lemma KeysDiffer(line: string)
    ensures !(Sets(line, ADB) && Sets(line, DEBUGGABLE))
    ensures !(Sets(line, ADB) && Sets(line, SECURE))
    ensures !(Sets(line, DEBUGGABLE) && Sets(line, SECURE))
  {
    assert ADB.key[3] == 'a' && DEBUGGABLE.key[3] == 'd' && SECURE.key[3] == 's';
    assert Sets(line, ADB) ==> line[3] == 'a';
    assert Sets(line, DEBUGGABLE) ==> line[3] == 'd';
    assert Sets(line, SECURE) ==> line[3] == 's';
  }

  lemma {:induction false} FixEachAt(lines: seq<string>, i: nat)
    requires i < |lines|
    ensures FixEach(lines)[i] == FixLine(lines[i])
  {
    if i < |lines| - 1 {
      FixEachAt(lines[..|lines| - 1], i);
    }
  }

  lemma FixLineSets(line: string)
    ensures FixLine(FixLine(line)) == FixLine(line)
    ensures Sets(FixLine(line), ADB) <==> Sets(line, ADB)
    ensures Sets(FixLine(line), DEBUGGABLE) <==> Sets(line, DEBUGGABLE)
    ensures Sets(FixLine(line), SECURE) <==> Sets(line, SECURE)
    ensures Sets(FixLine(line), ADB) ==> FixLine(line) == Line(ADB)
    ensures Sets(FixLine(line), DEBUGGABLE) ==> FixLine(line) == Line(DEBUGGABLE)
    ensures Sets(FixLine(line), SECURE) ==> FixLine(line) == Line(SECURE)
  {
    KeysDiffer(line);
    KeysDiffer(FixLine(line));
  }

  ghost predicate OnlyAs(lines: seq<string>, p: Prop) {
    forall i :: 0 <= i < |lines| && Sets(lines[i], p) ==> lines[i] == Line(p)
  }

  /** Afterwards the two essential properties are set, none of the three has any other value, and
      every line that set none of them is where it was. */
  lemma FixedProps(lines: seq<string>)
    ensures var r := FixLines(lines);
            && Mentions(r, ADB) && Mentions(r, DEBUGGABLE)
            && OnlyAs(r, ADB) && OnlyAs(r, DEBUGGABLE) && OnlyAs(r, SECURE)
            && |r| >= |lines|
            && forall i :: 0 <= i < |lines| && !Sets(lines[i], ADB) && !Sets(lines[i], DEBUGGABLE) && !Sets(lines[i], SECURE) ==>
                 r[i] == lines[i]
  {
    var r, n := FixLines(lines), |lines|;
    FixedEach(lines);
    KeysDiffer(Line(ADB));
    KeysDiffer(Line(DEBUGGABLE));
    assert forall i :: 0 <= i < n ==> r[i] == FixEach(lines)[i];
    EssentialSet(lines);
    forall i | n <= i < |r| ensures r[i] == Line(ADB) || r[i] == Line(DEBUGGABLE) {
    }
  }

  lemma FixedEach(lines: seq<string>)
    ensures OnlyAs(FixEach(lines), ADB) && OnlyAs(FixEach(lines), DEBUGGABLE) && OnlyAs(FixEach(lines), SECURE)
    ensures Mentions(FixEach(lines), ADB) <==> Mentions(lines, ADB)
    ensures Mentions(FixEach(lines), DEBUGGABLE) <==> Mentions(lines, DEBUGGABLE)
    ensures forall i :: 0 <= i < |lines| && !Sets(lines[i], ADB) && !Sets(lines[i], DEBUGGABLE) && !Sets(lines[i], SECURE) ==>
              FixEach(lines)[i] == lines[i]
  {
    forall i | 0 <= i < |lines|
      ensures FixEach(lines)[i] == FixLine(lines[i])
      ensures Sets(FixEach(lines)[i], ADB) <==> Sets(lines[i], ADB)
      ensures Sets(FixEach(lines)[i], DEBUGGABLE) <==> Sets(lines[i], DEBUGGABLE)
      ensures Sets(FixEach(lines)[i], ADB) ==> FixEach(lines)[i] == Line(ADB)
      ensures Sets(FixEach(lines)[i], DEBUGGABLE) ==> FixEach(lines)[i] == Line(DEBUGGABLE)
      ensures Sets(FixEach(lines)[i], SECURE) ==> FixEach(lines)[i] == Line(SECURE)
    {
      FixEachAt(lines, i);
      FixLineSets(lines[i]);
    }
  }

  lemma EssentialSet(lines: seq<string>)
    ensures Mentions(FixLines(lines), ADB) && Mentions(FixLines(lines), DEBUGGABLE)
  {
    var r, n := FixLines(lines), |lines|;
    FixedEach(lines);
    if Mentions(lines, ADB) {
      var i :| 0 <= i < n && Sets(FixEach(lines)[i], ADB);
      assert r[i] == FixEach(lines)[i];
    } else {
      assert r[n] == Line(ADB);
    }
    if Mentions(lines, DEBUGGABLE) {
      var i :| 0 <= i < n && Sets(FixEach(lines)[i], DEBUGGABLE);
      assert r[i] == FixEach(lines)[i];
    } else {
      assert r[|r| - 1] == Line(DEBUGGABLE);
    }
  }

  /** Fixing twice is fixing once. */
  lemma FixIsIdempotent(lines: seq<string>)
    ensures FixLines(FixLines(lines)) == FixLines(lines)
  {
    var r := FixLines(lines);
    FixedProps(lines);
    forall i | 0 <= i < |r| ensures FixEach(r)[i] == r[i] {
      FixEachAt(r, i);
    }
    assert FixLines(r) == FixEach(r);
  }

  // ------------------------------------------------------------------ text

  /** The characters at which str.splitlines ends a line. */
  const BREAKS := {'\n', '\r', '\U{0B}', '\U{0C}', '\U{1C}', '\U{1D}', '\U{1E}', '\U{85}', '\U{2028}', '\U{2029}'}

  /** The first line break of a text, or its end. */
  function LineEnd(text: string): (n: nat)
    ensures n <= |text| && (n < |text| ==> text[n] in BREAKS) && Unbroken(text[..n])
  {
    if text == [] || text[0] in BREAKS then 0
    else
      var n := 1 + LineEnd(text[1..]);
      assert forall k :: 1 <= k < n ==> text[k] == text[1..][..n - 1][k - 1];
      n
  }

  ghost predicate Unbroken(line: string) {
    forall k :: 0 <= k < |line| ==> line[k] !in BREAKS
  }

  ghost predicate AllUnbroken(lines: seq<string>) {
    forall i :: 0 <= i < |lines| ==> Unbroken(lines[i])
  }

  /** str.splitlines: a line break ends a line, and "\r\n" is one. */
  function SplitLines(text: string): (lines: seq<string>)
    ensures AllUnbroken(lines)
    decreases |text|
  {
    var n := LineEnd(text);
    if text == [] then []
    else if n == |text| then assert text[..n] == text; [text]
    else
      var two := text[n] == '\r' && n + 1 < |text| && text[n + 1] == '\n';
      [text[..n]] + SplitLines(text[n + (if two then 2 else 1)..])
  }

  /** The lines joined by newlines, with one more at the end. */
  function JoinLines(lines: seq<string>): string {
    if lines == [] then "\n"
    else if |lines| == 1 then lines[0] + "\n"
    else lines[0] + "\n" + JoinLines(lines[1..])
  }

  /** Every line is followed by a newline, the last one too. */
  lemma {:induction false} JoinedEnds(lines: seq<string>)
    ensures JoinLines(lines) != [] && JoinLines(lines)[|JoinLines(lines)| - 1] == '\n'
    ensures |lines| > 1 ==> JoinLines(lines) == lines[0] + "\n" + JoinLines(lines[1..])
  {
    if |lines| > 1 {
      JoinedEnds(lines[1..]);
    }
  }

  lemma {:induction false} LineEndAt(line: string, rest: string)
    requires Unbroken(line)
    ensures LineEnd(line + "\n" + rest) == |line|
  {
    var text := line + "\n" + rest;
    if line != [] {
      LineEndAt(line[1..], rest);
      assert text[1..] == line[1..] + "\n" + rest;
    }
  }

  lemma SplitFirst(line: string, rest: string)
    requires Unbroken(line)
    ensures SplitLines(line + "\n" + rest) == [line] + SplitLines(rest)
  {
    var text := line + "\n" + rest;
    LineEndAt(line, rest);
    assert text[..|line|] == line && text[|line|] == '\n' && text[|line| + 1..] == rest;
  }

  /** Lines that are joined split into the same lines again. */
  lemma {:induction false} SplitJoin(lines: seq<string>)
    requires lines != [] && AllUnbroken(lines)
    ensures SplitLines(JoinLines(lines)) == lines
  {
    if |lines| == 1 {
      SplitFirst(lines[0], []);
      assert lines[0] + "\n" + [] == lines[0] + "\n";
    } else {
      SplitJoin(lines[1..]);
      SplitFirst(lines[0], JoinLines(lines[1..]));
    }
  }

  lemma UnbrokenConcat(a: string, b: string)
    requires Unbroken(a) && Unbroken(b)
    ensures Unbroken(a + b)
  {
  }

  lemma LineUnbroken(p: Prop)
    requires Unbroken(p.key) && Unbroken(p.value)
    ensures Unbroken(Line(p))
  {
    UnbrokenConcat(p.key, "=");
    UnbrokenConcat(p.key + "=", p.value);
  }

  lemma AllSettingsUnbroken()
    ensures Unbroken(Line(ADB)) && Unbroken(Line(DEBUGGABLE)) && Unbroken(Line(SECURE))
  {
    LineUnbroken(ADB);
    LineUnbroken(DEBUGGABLE);
    LineUnbroken(SECURE);
  }

  lemma FixEachUnbroken(lines: seq<string>)
    requires AllUnbroken(lines)
    ensures AllUnbroken(FixEach(lines))
  {
    AllSettingsUnbroken();
    forall i | 0 <= i < |lines| ensures Unbroken(FixEach(lines)[i]) {
      FixEachAt(lines, i);
    }
  }

  lemma Snoc(lines: seq<string>, line: string)
    requires AllUnbroken(lines) && Unbroken(line)
    ensures AllUnbroken(lines + [line])
  {
  }

  lemma FixUnbroken(lines: seq<string>)
    requires AllUnbroken(lines)
    ensures AllUnbroken(FixLines(lines))
  {
    FixEachUnbroken(lines);
    AllSettingsUnbroken();
    var a, b := if Mentions(lines, ADB) then [] else [Line(ADB)], if Mentions(lines, DEBUGGABLE) then [] else [Line(DEBUGGABLE)];
    var both := FixEach(lines) + a;
    if a != [] {
      Snoc(FixEach(lines), Line(ADB));
    } else {
      assert both == FixEach(lines);
    }
    if b != [] {
      Snoc(both, Line(DEBUGGABLE));
    } else {
      assert both + b == both;
    }
  }

  /** fix_props: the text of a properties file with its lines fixed. */
  function FixText(text: string): string {
    JoinLines(FixLines(SplitLines(text)))
  }

  /** ro.adb.secure is 0 and ro.debuggable 1, each set and never otherwise, and ro.secure is nowhere
      anything but 0. */
  ghost predicate OpensAdb(text: string) {
    var r := SplitLines(text);
    Mentions(r, ADB) && Mentions(r, DEBUGGABLE) && OnlyAs(r, ADB) && OnlyAs(r, DEBUGGABLE) && OnlyAs(r, SECURE)
  }

  /** Whatever the text of a properties file, splitting the fixed text gives the fixed lines; the
      properties are as wanted, and fixing it again changes nothing. */
  lemma FixedText(text: string)
    ensures SplitLines(FixText(text)) == FixLines(SplitLines(text))
    ensures OpensAdb(FixText(text)) && FixText(FixText(text)) == FixText(text)
  {
    FixUnbroken(SplitLines(text));
    EssentialSet(SplitLines(text));
    SplitJoin(FixLines(SplitLines(text)));
    FixedProps(SplitLines(text));
    FixIsIdempotent(SplitLines(text));
  }
}
