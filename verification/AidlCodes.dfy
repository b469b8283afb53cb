/** The two walks of aidl-txn-codes.py over the transaction codes of two builds of an interface. */
module AidlCodes {
  type Method = string

  type Codes = map<nat, Method>

  /** Codes are immediates above 0. */
  ghost predicate Plausible(m: Codes) { 0 !in m }

  /** The codes at which A has a method that B, shifted by the insertions so far, has not. */
  function Inserts(a: Codes, b: Codes, n: nat): (r: seq<nat>)
    ensures |r| <= n
    ensures forall i :: 0 <= i < |r| ==> 1 <= r[i] <= n
  {
    if n == 0 then []
    else
      var before := Inserts(a, b, n - 1);
      if Differs(a, b, n, |before|) then before + [n] else before
  }

  predicate Differs(a: Codes, b: Codes, c: nat, shift: nat) {
    c in a && shift < c && c - shift in b && a[c] != b[c - shift]
  }

  /** The highest code of either build. */
  ghost predicate Covers(a: Codes, b: Codes, n: nat) {
    forall c: nat :: c in a || c in b ==> c <= n
  }

  method FirstWalk(a: Codes, b: Codes, n: nat) returns (inserts: seq<nat>)
    ensures inserts == Inserts(a, b, n)
  {
    var shift := 0;
    inserts := [];
    for c := 1 to n + 1
      invariant inserts == Inserts(a, b, c - 1) && shift == |inserts|
    {
      if c in a && shift < c && c - shift in b && a[c] != b[c - shift] {
        inserts := inserts + [c];
        shift := shift + 1;
      }
    }
  }

  lemma {:induction false} InsertsGrow(a: Codes, b: Codes, m: nat, n: nat)
    requires m <= n
    ensures |Inserts(a, b, m)| <= |Inserts(a, b, n)| && Inserts(a, b, n)[..|Inserts(a, b, m)|] == Inserts(a, b, m)
    ensures forall i :: |Inserts(a, b, m)| <= i < |Inserts(a, b, n)| ==> Inserts(a, b, n)[i] > m
  {
    if m < n {
      InsertsGrow(a, b, m, n - 1);
    }
  }

  /** A code is reported exactly when it differs under the insertions before it. */
  lemma InsertedWhen(a: Codes, b: Codes, c: nat, n: nat)
    requires 1 <= c <= n
    ensures c in Inserts(a, b, n) <==> Differs(a, b, c, |Inserts(a, b, c - 1)|)
  {
    InsertsGrow(a, b, c, n);
    var upto, all := Inserts(a, b, c), Inserts(a, b, n);
    assert all == upto + all[|upto|..];
  }

  /** How many of the codes 1..n are in `skip`. */
  function Skipped(skip: seq<nat>, n: nat): nat {
    if n == 0 then 0 else Skipped(skip, n - 1) + if n in skip then 1 else 0
  }

  /** The codes that differ once those in `skip` are taken out of A. */
  function Mismatches(a: Codes, b: Codes, skip: seq<nat>, n: nat): seq<nat> {
    if n == 0 then []
    else if n !in skip && Differs(a, b, n, Skipped(skip, n)) then Mismatches(a, b, skip, n - 1) + [n]
    else Mismatches(a, b, skip, n - 1)
  }

  method SecondWalk(a: Codes, b: Codes, inserts: seq<nat>, n: nat) returns (bad: seq<nat>)
    ensures bad == Mismatches(a, b, inserts, n)
  {
    var shift := 0;
    bad := [];
    for c := 1 to n + 1
      invariant bad == Mismatches(a, b, inserts, c - 1) && shift == Skipped(inserts, c - 1)
    {
      if c in inserts {
        shift := shift + 1;
      } else if c in a && shift < c && c - shift in b && a[c] != b[c - shift] {
        bad := bad + [c];
      }
    }
  }

  /** With the codes the first walk reports taken out, nothing is left to differ, whatever the two
      maps. */
  lemma {:induction false} NothingLeft(a: Codes, b: Codes, n: nat, all: nat)
    requires n <= all
    ensures Skipped(Inserts(a, b, all), n) == |Inserts(a, b, n)|
    ensures Mismatches(a, b, Inserts(a, b, all), n) == []
  {
    if n > 0 {
      NothingLeft(a, b, n - 1, all);
      InsertedWhen(a, b, n, all);
    }
  }

  method Diff(a: Codes, b: Codes, n: nat) returns (aligned: bool, inserts: seq<nat>, bad: seq<nat>)
    requires Plausible(a) && Plausible(b) && Covers(a, b, n)
    ensures inserts == Inserts(a, b, n) && bad == []
    ensures aligned <==> forall c :: c in a && c in b ==> a[c] == b[c]
  {
    inserts := FirstWalk(a, b, n);
    bad := SecondWalk(a, b, inserts, n);
    NothingLeft(a, b, n, n);
    aligned := inserts == [] && bad == [];
    AlignedWhen(a, b, n);
  }

  /** Nothing is reported exactly when every shared code maps to the same method. */
  lemma AlignedWhen(a: Codes, b: Codes, n: nat)
    requires Plausible(a) && Plausible(b) && Covers(a, b, n)
    ensures Inserts(a, b, n) == [] <==> forall c :: c in a && c in b ==> a[c] == b[c]
  {
    if Inserts(a, b, n) == [] {
      forall c | c in a && c in b ensures a[c] == b[c] {
        InsertsGrow(a, b, c - 1, n);
        InsertedWhen(a, b, c, n);
      }
    } else {
      FirstInsert(a, b, n);
    }
  }

  lemma {:induction false} FirstInsert(a: Codes, b: Codes, n: nat)
    requires Inserts(a, b, n) != []
    ensures var c := Inserts(a, b, n)[0]; c in a && c in b && a[c] != b[c]
  {
    if Inserts(a, b, n - 1) != [] {
      FirstInsert(a, b, n - 1);
    }
  }

  // ------------------------------------------------------------------ recovering the insertions

  /** Contiguous codes from 1 for methods in declaration order. */
  function Numbered(ms: seq<Method>): (r: Codes)
    ensures forall c :: c in r <==> 1 <= c <= |ms|
    ensures forall c :: c in r ==> r[c] == ms[c - 1]
  {
    if ms == [] then map[] else Numbered(ms[..|ms| - 1])[|ms| := ms[|ms| - 1]]
  }

  /** The methods of `ms` that are B's. */
  function Common(ms: seq<Method>, b: seq<Method>): seq<Method> {
    if ms == [] then []
    else if ms[|ms| - 1] in b then Common(ms[..|ms| - 1], b) + [ms[|ms| - 1]]
    else Common(ms[..|ms| - 1], b)
  }

  /** A's methods are B's in order, with methods B does not have inserted. */
  ghost predicate InsertedInto(ms: seq<Method>, b: seq<Method>) {
    Common(ms, b) == b
  }

  /** The codes of A's own methods that come before one of B's. */
  function Foreign(ms: seq<Method>, b: seq<Method>, n: nat): seq<nat>
    requires n <= |ms|
  {
    if n == 0 then []
    else if ms[n - 1] !in b && |Common(ms[..n], b)| < |b| then Foreign(ms, b, n - 1) + [n]
    else Foreign(ms, b, n - 1)
  }

  lemma {:induction false} CommonPrefix(ms: seq<Method>, b: seq<Method>, n: nat)
    requires n <= |ms|
    ensures |Common(ms[..n], b)| <= |Common(ms, b)| && Common(ms, b)[..|Common(ms[..n], b)|] == Common(ms[..n], b)
  {
    if n < |ms| {
      assert ms[..|ms| - 1][..n] == ms[..n];
      CommonPrefix(ms[..|ms| - 1], b, n);
    } else {
      assert ms[..n] == ms;
    }
  }

  /** While some method of B is still to come every foreign method counts; afterwards none does. */
  lemma {:induction false} ForeignCount(ms: seq<Method>, b: seq<Method>, n: nat)
    requires InsertedInto(ms, b) && n <= |ms|
    ensures |Foreign(ms, b, n)| + |Common(ms[..n], b)| <= n
    ensures |Common(ms[..n], b)| < |b| ==> |Foreign(ms, b, n)| + |Common(ms[..n], b)| == n
    ensures |Common(ms[..n], b)| <= |b|
  {
    CommonPrefix(ms, b, n);
    if n > 0 {
      ForeignCount(ms, b, n - 1);
      assert ms[..n][..n - 1] == ms[..n - 1];
    }
  }

  lemma NextOfB(ms: seq<Method>, b: seq<Method>, n: nat)
    requires InsertedInto(ms, b) && n < |ms| && ms[n] in b
    ensures var k := |Common(ms[..n], b)|; k < |b| && b[k] == ms[n]
  {
    assert ms[..n + 1][..n] == ms[..n];
    CommonPrefix(ms, b, n + 1);
    assert Common(ms[..n + 1], b)[|Common(ms[..n], b)|] == ms[n];
  }

  /** Code `n` differs, under the insertions before it, exactly when its method is foreign and B is
      not exhausted. */
  lemma DiffersWhen(ms: seq<Method>, b: seq<Method>, n: nat)
    requires InsertedInto(ms, b) && 0 < n <= |ms|
    ensures Differs(Numbered(ms), Numbered(b), n, |Foreign(ms, b, n - 1)|) <==> ms[n - 1] !in b && |Common(ms[..n], b)| < |b|
  {
    var shift := |Foreign(ms, b, n - 1)|;
    ForeignCount(ms, b, n - 1);
    assert ms[..n][..n - 1] == ms[..n - 1];
    if ms[n - 1] in b {
      NextOfB(ms, b, n - 1);
      assert Numbered(b)[n - shift] == ms[n - 1];
    }
  }

  /** If A is B with methods of its own inserted, the first walk reports exactly the codes of the
      inserted methods that come before some method of B. */
  lemma {:induction false} WalkRecovers(ms: seq<Method>, b: seq<Method>, n: nat)
    requires InsertedInto(ms, b) && n <= |ms|
    ensures Inserts(Numbered(ms), Numbered(b), n) == Foreign(ms, b, n)
  {
    if n > 0 {
      WalkRecovers(ms, b, n - 1);
      DiffersWhen(ms, b, n);
    }
  }

  /** Behind A's last code nothing is reported. */
  lemma {:induction false} WalkEnds(ms: seq<Method>, b: seq<Method>, n: nat)
    requires InsertedInto(ms, b) && |ms| <= n
    ensures Inserts(Numbered(ms), Numbered(b), n) == Foreign(ms, b, |ms|)
  {
    if n == |ms| {
      WalkRecovers(ms, b, n);
    } else {
      WalkEnds(ms, b, n - 1);
    }
  }

  /** Which codes those are. */
  lemma {:induction false} ForeignIs(ms: seq<Method>, b: seq<Method>, n: nat, c: nat)
    requires n <= |ms|
    ensures c in Foreign(ms, b, n) <==> 1 <= c <= n && ms[c - 1] !in b && |Common(ms[..c], b)| < |b|
  {
    if n > 0 {
      ForeignIs(ms, b, n - 1, c);
    }
  }

  lemma {:induction false} MoreToCome(ms: seq<Method>, b: seq<Method>, c: nat)
    requires InsertedInto(ms, b) && c <= |ms|
    ensures |Common(ms[..c], b)| < |b| <==> exists k :: c <= k < |ms| && ms[k] in b
    decreases |ms| - c
  {
    CommonPrefix(ms, b, c);
    if c == |ms| {
      assert ms[..c] == ms;
    } else {
      MoreToCome(ms, b, c + 1);
      assert ms[..c + 1][..c] == ms[..c];
      CommonPrefix(ms, b, c + 1);
    }
  }

  /** The reported codes, in terms of the declarations alone: a code is reported exactly when its
      method is A's own and some method of B is declared after it. */
  lemma ReportedExactly(ms: seq<Method>, b: seq<Method>, n: nat, c: nat)
    requires InsertedInto(ms, b) && |ms| <= n
    ensures c in Inserts(Numbered(ms), Numbered(b), n)
            <==> 1 <= c <= |ms| && ms[c - 1] !in b && exists k :: c <= k < |ms| && ms[k] in b
  {
    WalkEnds(ms, b, n);
    ForeignIs(ms, b, |ms|, c);
    if 1 <= c <= |ms| {
      MoreToCome(ms, b, c);
    }
  }

  /** A method inserted behind the last shared one is not reported. */
  lemma LastInsertionMissed(x: Method, y: Method, n: nat)
    requires x != y && n >= 2
    ensures InsertedInto([x, y], [x]) && y !in [x] && Inserts(Numbered([x, y]), Numbered([x]), n) == []
  {
    assert [x, y][..1] == [x] && [x][..0] == [];
    assert Common([x], [x]) == [x];
    var r := Inserts(Numbered([x, y]), Numbered([x]), n);
    if r != [] {
      ReportedExactly([x, y], [x], n, r[0]);
    }
  }
}
