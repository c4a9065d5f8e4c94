/** What the constraint check refuses though some version outside the order meets it: exactly which sets. */
module Refusals {
  import opened Trees
  import opened Strings
  import opened Texts
  import opened Versions
  import opened Constraints
  import opened Wilds

  /** Some version the grammar admits meets the set, tame or not. */
  ghost predicate Admitted(cs: seq<Constraint>) {
    exists v :: IsVersion(v) && HoldsAll(v, cs)
  }

  lemma EqualSegmentIsTame(x: string, a: string)
    requires IsSegment(x) && IsSegment(a) && CompareSegment(x, a) == 0 && TameSegment(a)
    ensures TameSegment(x)
  {
    CanonicalSegmentDecides(x, a);
    CanonicalSegmentIn(a);
  }

  lemma EqualIsTame(v: string, a: string)
    requires IsVersion(v) && Tame(a) && Compare(v, a) == 0
    ensures Tame(v)
  {
    CanonicalDecides(v, a);
    CanonicalSplit(v);
    CanonicalSplit(a);
    var x, y := SplitVersion(v), SplitVersion(a);
    assert CanonicalSegments(x) == CanonicalSegments(y);
    forall i | 0 <= i < |x| ensures TameSegment(x[i]) {
      assert CanonicalSegments(x)[i] == CanonicalSegments(y)[i];
      assert IsSegment(x[i]) && IsSegment(y[i]);
      CanonicalSegmentDecides(x[i], y[i]);
      EqualSegmentIsTame(x[i], y[i]);
    }
  }

  /** With a pin the check is exact over the whole grammar: only a tame version equals a tame pin. */
  lemma PinIsExact(cs: seq<Constraint>, i: nat)
    requires TameSet(cs) && i < |cs| && cs[i].op.EQ?
    ensures Admitted(cs) <==> Satisfiable(cs)
  {
    if v :| IsVersion(v) && HoldsAll(v, cs) {
      assert Holds(v, cs[i]);
      EqualIsTame(v, cs[i].version);
      assert Meets(v, cs);
    }
    if v :| Meets(v, cs) {
      assert IsVersion(v) && HoldsAll(v, cs);
    }
  }

  /** Alike up to `j`, where both have numbers, the first's before the second's as strings. */
  predicate CrossedAt(a: seq<string>, b: seq<string>, j: nat) {
    && 0 < j < |a| && j < |b| && Alike(a[..j], b[..j])
    && AllDigits(a[j]) && AllDigits(b[j]) && Less(a[j], b[j])
  }

  /** The version cut at `j`, with a hyphen put after the number there. */
  function Wedge(a: seq<string>, j: nat): seq<string>
    requires j < |a|
  {
    a[..j] + [a[j] + "-"]
  }

  lemma {:induction false} HyphenBelow(m: string, n: string)
    requires Less(m, n) && Digits(n)
    ensures Less(m + "-", n)
    decreases |m|
  {
    if m != "" && m[0] == n[0] {
      HyphenBelow(m[1..], n[1..]);
      assert (m + "-")[1..] == m[1..] + "-";
    }
  }

  lemma WedgeBetween(a: seq<string>, b: seq<string>, j: nat)
    requires CrossedAt(a, b, j)
    ensures CompareSegments(Wedge(a, j), a) > 0 && CompareSegments(Wedge(a, j), b) < 0
  {
    var w := a[j] + "-";
    assert w[|a[j]|] == '-' && !AllDigits(w);
    LessAt(a[j], w, |a[j]|);
    LessAsymmetric(a[j], w);
    HyphenBelow(a[j], b[j]);
    assert a == a[..j] + a[j..] && b == b[..j] + b[j..];
    SelfAlike(a[..j]);
    AfterPrefix(a[..j], [w], a[..j], a[j..]);
    AfterPrefix(a[..j], [w], b[..j], b[j..]);
  }

  lemma OnlyHyphen(b: seq<string>)
    requires Segments(b) && b != [] && CompareSegments(["-"], b) >= 0
    ensures b == ["-"]
  {
    DashIsLeast(b[0]);
    CompareSegmentMirrored(b[0], "-");
    AgainstNothing(b[1..]);
    SegmentsMirrored(b[1..], []);
    assert ["-"][1..] == [];
  }

  /** A segment between two tame ones that leave no room is a word between numbers that cross. */
  lemma HeadsCross(a: string, x: string, b: string)
    requires IsSegment(a) && IsSegment(x) && IsSegment(b) && TameSegment(a) && TameSegment(b)
    requires CompareSegment(x, a) >= 0 && CompareSegment(x, b) <= 0 && CompareSegment(a, b) >= 0
    requires CompareSegment(x, a) != 0 || CompareSegment(x, b) != 0
    ensures AllDigits(a) && AllDigits(b) && Less(a, x) && Less(a, b) && !TameSegment(x)
  {
    CompareSegmentMirrored(x, a);
    if TameSegment(x) {
      CompareSegmentTransitive(a, x, b);
      assert false;
    }
    if CompareSegment(x, a) == 0 { EqualSegmentIsTame(x, a); }
    if CompareSegment(x, b) == 0 { EqualSegmentIsTame(x, b); }
    LessTotal(x, a);
    LessTransitive(a, x, b);
  }

  lemma HeadsAlike(a: string, x: string, b: string)
    requires CompareSegment(x, a) == 0 && CompareSegment(x, b) == 0
    ensures CompareSegment(a, b) == 0
  {
    CanonicalSegmentDecides(x, a);
    CanonicalSegmentDecides(x, b);
    CanonicalSegmentDecides(a, b);
  }

  lemma AlikeOneMore(p: seq<string>, q: seq<string>, j: nat)
    requires j < |p| && j < |q| && CompareSegment(p[0], q[0]) == 0 && Alike(p[1..][..j], q[1..][..j])
    ensures Alike(p[..j + 1], q[..j + 1])
  {
    forall i | 0 <= i < j + 1 ensures CompareSegment(p[i], q[i]) == 0 {
      if i > 0 {
        assert p[1..][..j][i - 1] == p[i] && q[1..][..j][i - 1] == q[i];
      }
    }
  }

  /** All three alike up to their segments at `j`, a wild word between two numbers. */
  ghost predicate PartsAt(a: seq<string>, v: seq<string>, b: seq<string>, j: nat) {
    && j < |a| && j < |v| && j < |b| && Alike(v[..j], a[..j]) && Alike(v[..j], b[..j])
    && AllDigits(a[j]) && AllDigits(b[j]) && Less(a[j], v[j]) && Less(a[j], b[j]) && !TameSegment(v[j])
  }

  lemma PartsLater(a: seq<string>, v: seq<string>, b: seq<string>, j: nat)
    requires a != [] && v != [] && b != [] && CompareSegment(v[0], a[0]) == 0 && CompareSegment(v[0], b[0]) == 0
    requires PartsAt(a[1..], v[1..], b[1..], j)
    ensures PartsAt(a, v, b, j + 1)
  {
    AlikeOneMore(v, a, j);
    AlikeOneMore(v, b, j);
  }

  /** Strictly between two tame versions with none of those between them, a version shows where they cross. */
  lemma {:induction false} Crosses(a: seq<string>, v: seq<string>, b: seq<string>) returns (j: nat)
    requires Segments(a) && Segments(v) && Segments(b) && TameSegments(a) && TameSegments(b)
    requires CompareSegments(v, a) > 0 && CompareSegments(v, b) < 0 && CompareSegments(a + ["-"], b) >= 0
    ensures PartsAt(a, v, b, j)
    decreases |a|
  {
    NonEmpty(v, b);
    if a == [] {
      SegmentsSuccessor(v, []);
      assert a + ["-"] == ["-"];
      OnlyHyphen(b);
      assert false;
    } else {
      TailOfSum(a, ["-"]);
      AgainstNothing(v);
      if CompareSegment(v[0], a[0]) == 0 && CompareSegment(v[0], b[0]) == 0 {
        HeadsAlike(a[0], v[0], b[0]);
        AfterHead(v, a);
        AfterHead(v, b);
        AfterHead(a + ["-"], b);
        j := Crosses(a[1..], v[1..], b[1..]);
        PartsLater(a, v, b, j);
        j := j + 1;
      } else {
        j := 0;
        HeadsCross(a[0], v[0], b[0]);
      }
    }
  }

  lemma NonEmpty(v: seq<string>, b: seq<string>)
    requires Segments(v) && CompareSegments(v, b) < 0
    ensures b != []
  {
    AgainstNothing(v);
  }

  predicate Pinless(cs: seq<Constraint>) {
    forall i :: 0 <= i < |cs| ==> !cs[i].op.EQ?
  }

  lemma LowStep(was: Bound, cs: seq<Constraint>, k: nat) returns (lo: Bound)
    requires TameSet(cs) && k < |cs| && Tame(was.version) && LowFrom(was, cs) && TightestLow(was, cs[..k])
    ensures Tame(lo.version) && LowFrom(lo, cs) && TightestLow(lo, cs[..k + 1])
  {
    var limit := cs[k].Limit();
    TighterLowMeans(limit, was, was.version);
    TighterLowMeans(was, was, was.version);
    TighterLowMeans(limit, limit, was.version);
    lo := if cs[k].Lower?() && TighterLow(limit, was) then limit else was;
    TightestLowStep(was, lo, cs, k);
  }

  lemma {:induction false} LowExists(cs: seq<Constraint>, k: nat) returns (lo: Bound)
    requires TameSet(cs) && k <= |cs|
    ensures Tame(lo.version) && LowFrom(lo, cs) && TightestLow(lo, cs[..k])
    decreases k
  {
    if k == 0 {
      FloorIsLeast(FLOOR);
      lo := Bound(FLOOR, false);
    } else {
      var was := LowExists(cs, k - 1);
      lo := LowStep(was, cs, k - 1);
    }
  }

  /** A tightest upper bound of the first `k`, if they have one. */
  ghost predicate HighTo(hi: Option<Bound>, cs: seq<Constraint>, k: nat)
    requires k <= |cs|
  {
    match hi
    case None => forall i :: 0 <= i < k ==> !cs[i].Upper?()
    case Some(b) => Tame(b.version) && HighFrom(b, cs) && TightestHigh(b, cs[..k])
  }

  lemma HighStep(was: Option<Bound>, cs: seq<Constraint>, k: nat) returns (hi: Option<Bound>)
    requires TameSet(cs) && k < |cs| && HighTo(was, cs, k)
    ensures HighTo(hi, cs, k + 1) == true
  {
    var limit := cs[k].Limit();
    TighterHighMeans(limit, limit, limit.version);
    if was.Some? {
      TighterHighMeans(limit, was.value, limit.version);
      TighterHighMeans(was.value, was.value, limit.version);
      hi := Some(if cs[k].Upper?() && TighterHigh(limit, was.value) then limit else was.value);
      TightestHighStep(was.value, hi.value, cs, k);
    } else if cs[k].Upper?() {
      hi := Some(limit);
      TightestHighOneMore(limit, cs, k);
    } else {
      hi := None;
    }
  }

  lemma {:induction false} HighExists(cs: seq<Constraint>, k: nat) returns (hi: Option<Bound>)
    requires TameSet(cs) && k <= |cs|
    ensures HighTo(hi, cs, k) == true
    decreases k
  {
    if k == 0 {
      hi := None;
    } else {
      var was := HighExists(cs, k - 1);
      hi := HighStep(was, cs, k - 1);
    }
  }

  /** A refused set has a lower and an upper bound of its own with no tame version strictly between them. */
  lemma RefusedBounds(cs: seq<Constraint>) returns (lo: Bound, hi: Bound)
    requires TameSet(cs) && Pinless(cs) && !Satisfiable(cs)
    ensures Tame(lo.version) && Tame(hi.version) && LowFrom(lo, cs) && HighFrom(hi, cs)
    ensures Compare(Next(lo.version), hi.version) >= 0
  {
    assert cs[..|cs|] == cs;
    lo := LowExists(cs, |cs|);
    var high := HighExists(cs, |cs|);
    BoundsDecide(cs, lo, high);
    hi := high.value;
    NextSegments(lo.version);
    SuccessorIsNext(Next(lo.version), lo.version);
    TotalPreorder(Next(lo.version), Next(lo.version), lo.version);
    Ordered(hi.version, lo.version, Next(lo.version));
    TotalPreorder(hi.version, Next(lo.version), lo.version);
    TotalPreorder(hi.version, lo.version, lo.version);
    TotalPreorder(Next(lo.version), lo.version, lo.version);
  }

  /** What a version shows of two bounds it lies between though the check refuses them. */
  ghost predicate BetweenAt(a: seq<string>, v: seq<string>, b: seq<string>, j: nat) {
    && CrossedAt(a, b, j) && j < |v| && Alike(v[..j], a[..j]) && Less(a[j], v[j]) && !TameSegment(v[j])
  }

  lemma StrictlyBetween(cs: seq<Constraint>, lo: Bound, hi: Bound, v: string)
    requires !Satisfiable(cs) && LowFrom(lo, cs) && HighFrom(hi, cs) && Tame(lo.version) && Tame(hi.version)
    requires IsVersion(v) && HoldsAll(v, cs)
    ensures Compare(v, lo.version) > 0 && Compare(v, hi.version) < 0
  {
    MeetingIsBetween(cs, lo, Some(hi), v);
    assert Tame(v) ==> Meets(v, cs);
    if Compare(v, lo.version) == 0 { EqualIsTame(v, lo.version); }
    if Compare(v, hi.version) == 0 { EqualIsTame(v, hi.version); }
  }

  /** A bound that can be cut after its first segment is not the floor. */
  lemma NotTheFloor(cs: seq<Constraint>, lo: Bound) returns (i: nat)
    requires LowFrom(lo, cs) && |SplitVersion(lo.version)| > 1
    ensures i < |cs| && cs[i].Lower?() && cs[i].version == lo.version
  {
    SplitWhole(FLOOR, '.');
    i :| 0 <= i < |cs| && cs[i].Lower?() && cs[i].Limit() == lo;
  }

  lemma RefusedCrosses(cs: seq<Constraint>, v: string) returns (i: nat, k: nat, j: nat)
    requires TameSet(cs) && Pinless(cs) && !Satisfiable(cs) && IsVersion(v) && HoldsAll(v, cs)
    ensures i < |cs| && k < |cs| && cs[i].Lower?() && cs[k].Upper?()
    ensures BetweenAt(SplitVersion(cs[i].version), SplitVersion(v), SplitVersion(cs[k].version), j)
  {
    var lo, hi := RefusedBounds(cs);
    StrictlyBetween(cs, lo, hi, v);
    var a, b := SplitVersion(lo.version), SplitVersion(hi.version);
    NextSegments(lo.version);
    j := Crosses(a, SplitVersion(v), b);
    CrossedAlike(a, SplitVersion(v), b, j);
    assert TameSegment(SplitVersion(v)[0]);
    i := NotTheFloor(cs, lo);
    k :| 0 <= k < |cs| && cs[k].Upper?() && cs[k].Limit() == hi;
  }

  lemma CrossedAlike(a: seq<string>, v: seq<string>, b: seq<string>, j: nat)
    requires j <= |a| && j <= |v| && j <= |b| && Alike(v[..j], a[..j]) && Alike(v[..j], b[..j])
    ensures Alike(a[..j], b[..j])
  {
    forall i | 0 <= i < j ensures CompareSegment(a[..j][i], b[..j][i]) == 0 {
      HeadsAlike(a[..j][i], v[..j][i], b[..j][i]);
    }
  }

  lemma WedgeIsVersion(v: string, j: nat)
    requires IsVersion(v) && 0 < j < |SplitVersion(v)|
    ensures var w := Wedge(SplitVersion(v), j); IsVersion(Join(w, '.')) && SplitVersion(Join(w, '.')) == w
  {
    var parts := SplitVersion(v);
    assert IsSegment(parts[j]);
    Assembled(Wedge(parts, j));
  }

  lemma CrossedAdmits(x: Constraint, y: Constraint, j: nat)
    requires TameSet([x, y]) && x.Lower?() && y.Upper?() && CrossedAt(SplitVersion(x.version), SplitVersion(y.version), j)
    ensures Admitted([x, y])
  {
    assert [x, y][0] == x && [x, y][1] == y;
    var a := SplitVersion(x.version);
    WedgeBetween(a, SplitVersion(y.version), j);
    WedgeIsVersion(x.version, j);
    var v := Join(Wedge(a, j), '.');
    assert Holds(v, x) && Holds(v, y);
    assert HoldsAll(v, [x, y]);
  }

  lemma PairIsPinless(x: Constraint, y: Constraint)
    requires x.Lower?() && y.Upper?()
    ensures Pinless([x, y])
  {
  }

  lemma AdmittedCrosses(x: Constraint, y: Constraint)
    requires TameSet([x, y]) && x.Lower?() && y.Upper?() && !Satisfiable([x, y]) && Admitted([x, y])
    ensures exists j :: CrossedAt(SplitVersion(x.version), SplitVersion(y.version), j)
  {
    var cs := [x, y];
    var v :| IsVersion(v) && HoldsAll(v, cs);
    PairIsPinless(x, y);
    var i, k, j := RefusedCrosses(cs, v);
    assert cs[i] == x && cs[k] == y;
    BetweenCrosses(SplitVersion(x.version), SplitVersion(v), SplitVersion(y.version), j);
  }

  lemma BetweenCrosses(a: seq<string>, v: seq<string>, b: seq<string>, j: nat)
    requires BetweenAt(a, v, b, j)
    ensures CrossedAt(a, b, j)
  {
  }

  /** A refused pair is met by some version exactly when its versions cross. */
  lemma RefusedPair(x: Constraint, y: Constraint)
    requires TameSet([x, y]) && x.Lower?() && y.Upper?() && !Satisfiable([x, y])
    ensures Admitted([x, y]) <==> exists j :: CrossedAt(SplitVersion(x.version), SplitVersion(y.version), j)
  {
    if Admitted([x, y]) {
      AdmittedCrosses(x, y);
    } else if j :| CrossedAt(SplitVersion(x.version), SplitVersion(y.version), j) {
      CrossedAdmits(x, y, j);
    }
  }

  // Sets of bounds

  lemma SegmentsAgree(x: string, y: string, d: string)
    requires TameSegment(x) && TameSegment(y) && TameSegment(d) && CompareSegment(x, y) == 0
    ensures CompareSegment(x, d) == CompareSegment(y, d)
  {
    CompareSegmentMirrored(x, y);
    CompareSegmentMirrored(x, d);
    CompareSegmentMirrored(y, d);
    if CompareSegment(x, d) <= 0 { CompareSegmentTransitive(y, x, d); } else { CompareSegmentTransitive(d, x, y); }
    if CompareSegment(y, d) <= 0 { CompareSegmentTransitive(x, y, d); } else { CompareSegmentTransitive(d, y, x); }
  }

  lemma BeginsAlike(v: seq<string>, w: seq<string>, j: nat)
    requires 0 < j <= |v| && j <= |w| && Alike(v[..j], w[..j]) && TameSegments(v[..j]) && TameSegments(w[..j])
    ensures CompareSegment(v[0], w[0]) == 0 && TameSegment(v[0]) && TameSegment(w[0])
    ensures Alike(v[1..][..j - 1], w[1..][..j - 1]) && TameSegments(v[1..][..j - 1]) && TameSegments(w[1..][..j - 1])
  {
    AlikeTail(v[..j], w[..j]);
    assert v[..j][0] == v[0] && w[..j][0] == w[0];
    assert v[..j][1..] == v[1..][..j - 1] && w[..j][1..] == w[1..][..j - 1];
  }

  lemma DecidedAtOnce(v: seq<string>, d: seq<string>)
    requires v != [] && d != [] && CompareSegment(v[0], d[0]) != 0
    ensures CompareSegments(v, d) == CompareSegment(v[0], d[0])
  {
  }

  lemma StillUnlike(v: seq<string>, d: seq<string>, j: nat)
    requires 0 < j <= |v| && d != [] && CompareSegment(v[0], d[0]) == 0 && !(j <= |d| && Alike(v[..j], d[..j]))
    ensures !(j - 1 <= |d[1..]| && Alike(v[1..][..j - 1], d[1..][..j - 1]))
  {
    if j - 1 <= |d[1..]| && Alike(v[1..][..j - 1], d[1..][..j - 1]) {
      AlikeOneMore(v, d, j - 1);
    }
  }

  /** A version unlike both within their common beginning is on the same side of both. */
  lemma {:induction false} DecidedBefore(v: seq<string>, w: seq<string>, d: seq<string>, j: nat)
    requires j < |v| && j < |w| && Alike(v[..j], w[..j]) && Segments(v) && Segments(w) && Segments(d)
    requires TameSegments(v[..j]) && TameSegments(w[..j]) && TameSegments(d)
    requires !(j <= |d| && Alike(v[..j], d[..j]))
    ensures CompareSegments(v, d) == CompareSegments(w, d)
    decreases j
  {
    if d == [] {
      AgainstNothing(v);
      AgainstNothing(w);
    } else {
      BeginsAlike(v, w, j);
      SegmentsAgree(v[0], w[0], d[0]);
      if CompareSegment(v[0], d[0]) == 0 {
        AfterHead(v, d);
        AfterHead(w, d);
        StillUnlike(v, d, j);
        DecidedBefore(v[1..], w[1..], d[1..], j - 1);
      } else {
        DecidedAtOnce(v, d);
        DecidedAtOnce(w, d);
      }
    }
  }

  /** A wild word and a hyphenated number below it are above the same tame segments, but for numbers between the two. */
  lemma SwapLower(w: string, m: string, d: string)
    requires IsSegment(w) && !TameSegment(w) && AllDigits(m) && Less(m, w) && TameSegment(d)
    requires CompareSegment(w, d) > 0 && (AllDigits(d) ==> !Less(m, d))
    ensures CompareSegment(m + "-", d) > 0
  {
    var x := m + "-";
    assert x[|m|] == '-' && !AllDigits(x);
    LessAt(m, x, |m|);
    if AllDigits(d) {
      LessTotal(m, d);
      if d != m { LessTransitive(d, m, x); }
      LessAsymmetric(d, x);
    } else if d != "" {
      var low, high := WildSegmentBreaks(w);
      if IsDigit(d[0]) {
        WordAgainstNumbers(d, high);
        WordAgainstNumbers(d, "0");
        NinesOverWild(d, w, high);
      }
      LessTotal(w, d);
      assert Less(d, x);
      LessAsymmetric(d, x);
    }
  }

  lemma NinesOverWild(d: string, w: string, high: string)
    requires NinesThenLetter(d) && AllDigits(high) && !AllDigits(w) && CompareSegment(w, high) < 0
    ensures Less(w, d)
  {
    var k :| 0 < k < |d| && Letter(d[k]) && forall i :: 0 <= i < k ==> d[i] == '9';
    NinesAbove(d, k, high);
    LessTransitive(w, high, d);
  }

  lemma SwapUpper(w: string, m: string, d: string)
    requires IsSegment(w) && !TameSegment(w) && AllDigits(m) && Less(m, w) && TameSegment(d)
    requires CompareSegment(w, d) < 0
    ensures CompareSegment(m + "-", d) < 0
  {
    var x := m + "-";
    assert x[|m|] == '-' && !AllDigits(x);
    LessTransitive(m, w, d);
    if AllDigits(d) {
      HyphenBelow(m, d);
    } else if IsDigit(d[0]) {
      var n := m + "0";
      var k :| 0 < k < |d| && Letter(d[k]) && forall i :: 0 <= i < k ==> d[i] == '9';
      NinesAbove(d, k, n);
      assert n[..|m|] == x[..|m|];
      LessAt(x, n, |m|);
      LessTransitive(x, n, d);
    } else {
      assert x[0] == m[0];
    }
  }

  lemma HeadDecides(v: seq<string>, d: seq<string>, j: nat)
    requires j < |v| && j <= |d| && Alike(v[..j], d[..j]) && CompareSegment(v[j], SegmentAt(d, j)) != 0
    ensures CompareSegments(v, d) == CompareSegment(v[j], SegmentAt(d, j))
  {
    AfterPrefix(v[..j], v[j..], d[..j], d[j..]);
    assert v == v[..j] + v[j..] && d == d[..j] + d[j..];
  }

  lemma WildDiffers(w: string, d: seq<string>, j: nat)
    requires IsSegment(w) && !TameSegment(w) && Segments(d) && TameSegments(d)
    ensures CompareSegment(w, SegmentAt(d, j)) != 0 && TameSegment(SegmentAt(d, j))
  {
    if j < |d| && CompareSegment(w, d[j]) == 0 {
      EqualSegmentIsTame(w, d[j]);
    }
  }

  lemma AlikeIsTame(p: seq<string>, q: seq<string>)
    requires Alike(p, q) && Segments(p) && Segments(q) && TameSegments(q)
    ensures TameSegments(p)
  {
    forall i | 0 <= i < |p| ensures TameSegment(p[i]) {
      EqualSegmentIsTame(p[i], q[i]);
    }
  }

  /** `v` has a wild word at `j`, `a` begins alike and has a number there that is below it as a string. */
  ghost predicate Cuts(a: seq<string>, v: seq<string>, j: nat) {
    && Segments(a) && Segments(v) && TameSegments(a) && j < |a| && j < |v| && Alike(v[..j], a[..j])
    && AllDigits(a[j]) && Less(a[j], v[j]) && !TameSegment(v[j])
  }

  /** The wedge cut from `a` is on the side of `d` that `v` is on. */
  lemma WedgeFollows(a: seq<string>, v: seq<string>, d: seq<string>, j: nat)
    requires Cuts(a, v, j) && Segments(d) && TameSegments(d)
    requires CompareSegments(v, d) > 0 && j < |d| && Alike(v[..j], d[..j]) && AllDigits(d[j]) ==> !Less(a[j], d[j])
    ensures CompareSegments(v, d) > 0 ==> CompareSegments(Wedge(a, j), d) > 0
    ensures CompareSegments(v, d) < 0 ==> CompareSegments(Wedge(a, j), d) < 0
  {
    var w := Wedge(a, j);
    assert w[..j] == a[..j] && w[j] == a[j] + "-" && IsSegment(a[j]) && Segments(w);
    if j <= |d| && Alike(v[..j], d[..j]) {
      WildDiffers(v[j], d, j);
      HeadDecides(v, d, j);
      CrossedAlike(a, v, d, j);
      if CompareSegments(v, d) > 0 {
        SwapLower(v[j], a[j], SegmentAt(d, j));
      } else {
        SwapUpper(v[j], a[j], SegmentAt(d, j));
      }
      HeadDecides(w, d, j);
    } else {
      AlikeIsTame(v[..j], a[..j]);
      DecidedBefore(v, w, d, j);
    }
  }

  function NumberAt(cs: seq<Constraint>, i: nat, j: nat): string
    requires i < |cs|
  {
    SegmentAt(SplitVersion(cs[i].version), j)
  }

  /** A lower bound that `v` is over and that begins like it, up to a number. */
  ghost predicate LowAt(cs: seq<Constraint>, i: nat, v: seq<string>, j: nat) {
    && i < |cs| && cs[i].Lower?() && Cuts(SplitVersion(cs[i].version), v, j)
  }

  /** No number that those of the first `n` bounds have at `j` is above the string. */
  ghost predicate Tops(cs: seq<Constraint>, top: string, v: seq<string>, j: nat, n: nat)
    requires n <= |cs|
  {
    forall k :: 0 <= k < n && LowAt(cs, k, v, j) ==> !Less(top, NumberAt(cs, k, j))
  }

  lemma TopsOneMore(cs: seq<Constraint>, top: string, next: string, v: seq<string>, j: nat, n: nat)
    requires n < |cs| && Tops(cs, top, v, j, n)
    requires if Less(top, NumberAt(cs, n, j)) && LowAt(cs, n, v, j) then next == NumberAt(cs, n, j) else next == top
    ensures Tops(cs, next, v, j, n + 1)
  {
    LessIrreflexive(next);
    forall k | 0 <= k < n && LowAt(cs, k, v, j) ensures !Less(next, NumberAt(cs, k, j)) {
      if next != top && Less(next, NumberAt(cs, k, j)) {
        LessTransitive(top, next, NumberAt(cs, k, j));
      }
    }
  }

  lemma HigherCut(cs: seq<Constraint>, was: nat, v: seq<string>, j: nat, n: nat) returns (i: nat)
    requires n < |cs| && LowAt(cs, was, v, j) && Tops(cs, NumberAt(cs, was, j), v, j, n)
    ensures LowAt(cs, i, v, j) && Tops(cs, NumberAt(cs, i, j), v, j, n + 1)
  {
    var top := NumberAt(cs, was, j);
    if LowAt(cs, n, v, j) && Less(top, NumberAt(cs, n, j)) {
      i := n;
      TopsOneMore(cs, top, NumberAt(cs, n, j), v, j, n);
    } else {
      i := was;
      TopsOneMore(cs, top, top, v, j, n);
    }
  }

  /** Of the lower bounds cut at `j`, one whose number there no other's is above as a string. */
  lemma {:induction false} TopCut(cs: seq<Constraint>, first: nat, v: seq<string>, j: nat, n: nat) returns (i: nat)
    requires LowAt(cs, first, v, j) && n <= |cs|
    ensures LowAt(cs, i, v, j) && Tops(cs, NumberAt(cs, i, j), v, j, n)
    decreases n
  {
    if n == 0 {
      i := first;
    } else {
      var was := TopCut(cs, first, v, j, n - 1);
      i := HigherCut(cs, was, v, j, n - 1);
    }
  }

  /** A lower bound of the set, cut at a number and wedged there, meets the whole set. */
  ghost predicate WedgedAt(cs: seq<Constraint>, i: nat, j: nat) {
    && i < |cs| && cs[i].Lower?() && 0 < j < |SplitVersion(cs[i].version)| && AllDigits(SplitVersion(cs[i].version)[j])
    && HoldsAll(Join(Wedge(SplitVersion(cs[i].version), j), '.'), cs)
  }

  lemma OverIsCut(cs: seq<Constraint>, k: nat, v: seq<string>, j: nat)
    requires TameSet(cs) && k < |cs| && cs[k].Lower?() && Segments(v) && j < |v| && !TameSegment(v[j])
    requires CompareSegments(v, SplitVersion(cs[k].version)) > 0
    requires j < |SplitVersion(cs[k].version)| && Alike(v[..j], SplitVersion(cs[k].version)[..j])
    requires AllDigits(SplitVersion(cs[k].version)[j])
    ensures LowAt(cs, k, v, j)
  {
    var d := SplitVersion(cs[k].version);
    WildDiffers(v[j], d, j);
    HeadDecides(v, d, j);
    LessTotal(v[j], d[j]);
  }

  lemma WedgeMeets(cs: seq<Constraint>, i: nat, v: string, j: nat, c: nat)
    requires TameSet(cs) && Pinless(cs) && IsVersion(v) && !Tame(v) && HoldsAll(v, cs) && c < |cs|
    requires LowAt(cs, i, SplitVersion(v), j) && 0 < j
    requires Tops(cs, NumberAt(cs, i, j), SplitVersion(v), j, |cs|)
    ensures Holds(Join(Wedge(SplitVersion(cs[i].version), j), '.'), cs[c])
  {
    var a, parts, d := SplitVersion(cs[i].version), SplitVersion(v), SplitVersion(cs[c].version);
    assert Holds(v, cs[c]);
    if Compare(v, cs[c].version) == 0 { EqualIsTame(v, cs[c].version); }
    if CompareSegments(parts, d) > 0 && j < |d| && Alike(parts[..j], d[..j]) && AllDigits(d[j]) {
      OverIsCut(cs, c, parts, j);
    }
    WedgeFollows(a, parts, d, j);
    WedgeIsVersion(cs[i].version, j);
  }

  /** Some version meets a refused set exactly when one of finitely many does: a lower bound of the set wedged at one of its numbers. */
  lemma RefusedSet(cs: seq<Constraint>)
    requires TameSet(cs) && Pinless(cs) && !Satisfiable(cs)
    ensures Admitted(cs) <==> exists i: nat, j: nat :: WedgedAt(cs, i, j)
  {
    if Admitted(cs) {
      var v :| IsVersion(v) && HoldsAll(v, cs);
      assert Tame(v) ==> Meets(v, cs);
      var first, high, j := RefusedCrosses(cs, v);
      assert LowAt(cs, first, SplitVersion(v), j);
      var i := TopCut(cs, first, SplitVersion(v), j, |cs|);
      forall c | 0 <= c < |cs| ensures Holds(Join(Wedge(SplitVersion(cs[i].version), j), '.'), cs[c]) {
        WedgeMeets(cs, i, v, j, c);
      }
      assert WedgedAt(cs, i, j);
    } else if i: nat, j: nat :| WedgedAt(cs, i, j) {
      WedgeIsVersion(cs[i].version, j);
    }
  }

  // The least of them

  lemma InvertedBounds(a: string, b: string)
    requires Tame(a) && Tame(b) && Compare(a, b) < 0
    ensures !Satisfiable([Constraint(GTE, b), Constraint(LTE, a)])
  {
    var cs := [Constraint(GTE, b), Constraint(LTE, a)];
    forall v ensures !Meets(v, cs) {
      if Meets(v, cs) {
        assert Holds(v, cs[0]) && Holds(v, cs[1]);
        Ordered(v, a, b);
      }
    }
  }

  lemma ShortTame(v: string, s: string)
    requires IsSegment(s) && TameSegment(s) && v == "1." + s
    ensures Tame(v)
  {
    ShortVersion(v, s);
  }

  lemma HoldsBoth(v: string, x: Constraint, y: Constraint)
    requires Holds(v, x) && Holds(v, y)
    ensures HoldsAll(v, [x, y])
  {
  }

  /** 1.1a meets a set with no tame version. */
  lemma WildMeetsRefused(a: string, b: string, c: string)
    requires a == "1." + "9" && b == "1." + "10" && c == "1." + "1a"
    ensures IsVersion(c) && HoldsAll(c, [Constraint(GTE, b), Constraint(LTE, a)])
    ensures Tame(a) && Tame(b) && !Satisfiable([Constraint(GTE, b), Constraint(LTE, a)])
  {
    WildCircle(a, b, c);
    TotalPreorder(c, b, c);
    HoldsBoth(c, Constraint(GTE, b), Constraint(LTE, a));
    ShortTame(a, "9");
    ShortTame(b, "10");
    InvertedBounds(a, b);
  }
}
