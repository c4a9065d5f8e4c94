/** One rendering for each thing a require can mean. */
module Spellings {
  import opened Trees
  import opened Texts
  import opened Versions
  import opened Constraints

  predicate IsSuccessor(v: string) {
    |v| >= 2 && v[|v| - 2..] == ".-"
  }

  function Inclusive(c: Constraint): Constraint {
    if c.op.GT? then Constraint(GTE, Next(c.version))
    else if c.op.LT? && IsSuccessor(c.version) then Constraint(LTE, c.version[..|c.version| - 2])
    else c
  }

  lemma InclusiveMeans(c: Constraint, v: string)
    requires Tame(c.version) && Tame(v)
    ensures Tame(Inclusive(c).version) && (Holds(v, Inclusive(c)) <==> Holds(v, c))
    ensures !Inclusive(c).op.GT? && (Inclusive(c).op.LT? ==> !IsSuccessor(Inclusive(c).version))
    ensures (Inclusive(c).Lower?() <==> c.Lower?()) && (Inclusive(c).Upper?() <==> c.Upper?())
  {
    if c.op.GT? {
      NextSegments(c.version);
      SuccessorIsNext(v, c.version);
    } else if c.op.LT? && IsSuccessor(c.version) {
      var x := c.version[..|c.version| - 2];
      assert c.version == Next(x);
      SuffixIsSuccessor(x);
      SuccessorIsNext(v, x);
    }
  }

  /** The forms a simplified set takes: a pin, or at most one bound each way, the lower one first. */
  predicate Shaped(s: seq<Constraint>) {
    && |s| <= 2
    && (forall i :: 0 <= i < |s| ==> !s[i].op.GT?)
    && (|s| == 2 ==> s[0].op.GTE? && s[1].Upper?())
  }

  /** One range has one such form: an open ceiling is no successor, and bounds that meet are a pin. */
  predicate Reduced(s: seq<Constraint>) {
    && Shaped(s) && TameSet(s)
    && (Ceiling(s).Some? && Ceiling(s).value.exclusive ==> !IsSuccessor(Ceiling(s).value.version))
    && (|s| == 2 && s[1].op.LTE? ==> Compare(s[0].version, s[1].version) != 0)
  }

  function Floor(s: seq<Constraint>): Option<string> {
    if s != [] && (s[0].op.GTE? || s[0].op.EQ?) then Some(s[0].version) else None
  }

  function Ceiling(s: seq<Constraint>): Option<Bound> {
    if s == [] || s[|s| - 1].Lower?() then None else Some(s[|s| - 1].Limit())
  }

  lemma ShapedMeans(s: seq<Constraint>, v: string)
    requires Shaped(s)
    ensures HoldsAll(v, s) <==>
      && (Floor(s).Some? ==> Compare(v, Floor(s).value) >= 0)
      && (Ceiling(s).Some? ==> Capped(v, Ceiling(s).value))
  {
    if |s| == 1 {
      assert HoldsAll(v, s) <==> Holds(v, s[0]);
    } else if |s| == 2 {
      assert HoldsAll(v, s) <==> Holds(v, s[0]) && Holds(v, s[1]);
    }
  }

  lemma ReducedMeans(s: seq<Constraint>, v: string)
    requires Reduced(s) && Tame(v)
    ensures Meets(v, s) <==>
      && (Floor(s).Some? ==> Compare(v, Floor(s).value) >= 0)
      && (Ceiling(s).Some? ==> Capped(v, Ceiling(s).value))
    ensures Floor(s).Some? ==> Tame(Floor(s).value)
    ensures Ceiling(s).Some? ==> Tame(Ceiling(s).value.version)
  {
    ShapedMeans(s, v);
  }

  predicate StatesLower(cs: seq<Constraint>) {
    exists i :: 0 <= i < |cs| && (cs[i].Lower?() || cs[i].op.EQ?)
  }

  /** `s` is a reduced form of `cs`, with its meaning. */
  ghost predicate Simplest(cs: seq<Constraint>, s: seq<Constraint>) {
    && Reduced(s)
    && (Satisfiable(cs) ==> forall v :: Meets(v, s) <==> Meets(v, cs))
    && (StatesLower(s) <==> StatesLower(cs)) && (s == [] <==> cs == [])
  }

  // Reduced forms with one meaning are one form

  ghost predicate SameSet(a: seq<Constraint>, b: seq<Constraint>) {
    forall v :: Meets(v, a) <==> Meets(v, b)
  }

  /** A floor under a version that meets the set meets it too. */
  lemma FloorMeets(s: seq<Constraint>, w: string)
    requires Reduced(s) && Meets(w, s) && Floor(s).Some?
    ensures Meets(Floor(s).value, s)
  {
    var lo := Floor(s).value;
    ReducedMeans(s, w);
    ReducedMeans(s, lo);
    TotalPreorder(lo, w, lo);
    if Ceiling(s).Some? {
      Ordered(lo, w, Ceiling(s).value.version);
    }
  }

  lemma FloorsEqual(a: seq<Constraint>, b: seq<Constraint>, w: string)
    requires Reduced(a) && Reduced(b) && SameSet(a, b) && Meets(w, a)
    requires Floor(a).Some? && Floor(b).Some?
    ensures Compare(Floor(a).value, Floor(b).value) == 0
  {
    var x, y := Floor(a).value, Floor(b).value;
    FloorMeets(a, w);
    FloorMeets(b, w);
    ReducedMeans(a, x);
    ReducedMeans(a, y);
    ReducedMeans(b, x);
    TotalPreorder(x, y, x);
  }

  /** What lies over a version of the set and under the ceiling is in the set. */
  lemma RaisedMeets(s: seq<Constraint>, w: string, v: string)
    requires Reduced(s) && Meets(w, s) && Tame(v) && Compare(w, v) <= 0
    requires Ceiling(s).Some? ==> Capped(v, Ceiling(s).value)
    ensures Meets(v, s)
  {
    ReducedMeans(s, w);
    ReducedMeans(s, v);
    if Floor(s).Some? {
      TotalPreorder(Floor(s).value, w, v);
      TotalPreorder(Floor(s).value, v, w);
      Ordered(Floor(s).value, w, v);
    }
  }

  lemma NextIsOver(v: string)
    requires Tame(v)
    ensures Tame(Next(v)) && Compare(Next(v), v) > 0 && Compare(v, Next(v)) < 0
  {
    NextSegments(v);
    TotalPreorder(Next(v), v, v);
    SuccessorIsNext(Next(v), v);
  }

  /** Which of the five comparisons with a version it meets itself, and which its successor does. */
  lemma OwnVersion(v: string, op: Op)
    requires Tame(v)
    ensures Holds(v, Constraint(op, v)) <==> op.GTE? || op.LTE? || op.EQ?
    ensures Holds(Next(v), Constraint(op, v)) <==> op.GTE? || op.GT?
    ensures Holds(v, Constraint(op, Next(v))) <==> op.LTE? || op.LT?
  {
    NextIsOver(v);
    TotalPreorder(v, v, v);
  }

  /** Below a version that is no successor there is always room for one more. */
  lemma NoGreatestBelow(v: string, u: string)
    requires Tame(v) && Tame(u) && Compare(v, u) < 0 && !IsSuccessor(u)
    ensures Compare(Next(v), u) < 0
  {
    TotalPreorder(v, u, v);
    TotalPreorder(Next(v), u, v);
    TotalPreorder(u, Next(v), v);
    SuccessorIsNext(u, v);
    NextSegments(v);
    if Compare(Next(v), u) == 0 {
      CanonicalDecides(Next(v), u);
      EndsLikeSuccessor(v, u);
    }
  }

  lemma EndsLikeSuccessor(v: string, u: string)
    requires IsVersion(v) && IsVersion(u) && Canonical(Next(v)) == Canonical(u)
    ensures IsSuccessor(u)
  {
    NextSegments(v);
    CanonicalSplit(Next(v));
    CanonicalSplit(u);
    var parts := SplitVersion(u);
    LastIsDash(SplitVersion(v), parts);
    JoinSplit(u, '.');
    JoinLast(parts, '.');
    EndsInSuffix(u, Join(parts[..|parts| - 1], '.'));
  }

  lemma LastIsDash(p: seq<string>, q: seq<string>)
    requires p != [] && CanonicalSegments(p + ["-"]) == CanonicalSegments(q)
    ensures |q| >= 2 && q[|q| - 1] == "-"
  {
    var n := |q| - 1;
    assert (p + ["-"])[n] == "-";
    assert CanonicalSegment(q[n]) == CanonicalSegment((p + ["-"])[n]);
    DashIsDash("-");
    DashIsDash(q[n]);
  }

  lemma EndsInSuffix(u: string, head: string)
    requires u == head + ['.'] + "-"
    ensures IsSuccessor(u)
  {
  }

  lemma DashIsDash(s: string)
    ensures CanonicalSegment(s) == "-" <==> s == "-"
  {
    var t := TrimZeros(s);
    if AllDigits(s) {
      assert t != "" ==> t[0] in s;
    }
  }

  lemma {:induction false} JoinLast(parts: seq<string>, sep: char)
    requires |parts| >= 2
    ensures Join(parts, sep) == Join(parts[..|parts| - 1], sep) + [sep] + parts[|parts| - 1]
    decreases |parts|
  {
    var n := |parts| - 1;
    if n > 1 {
      JoinLast(parts[1..], sep);
      assert parts[1..][..n - 1] == parts[..n][1..];
    } else {
      assert parts[1..] == [parts[1]] && parts[..1] == [parts[0]];
    }
  }

  /** A set goes past every version below its ceiling. */
  lemma GoesPast(s: seq<Constraint>, w: string, u: string) returns (v: string)
    requires Reduced(s) && Meets(w, s) && Tame(u) && Compare(w, u) <= 0
    requires Ceiling(s).Some? ==> Compare(u, Ceiling(s).value.version) < 0
    ensures Meets(v, s) && Compare(v, u) > 0
  {
    ReducedMeans(s, w);
    NextIsOver(u);
    v := Next(u);
    if Ceiling(s).Some? {
      var x := Ceiling(s).value;
      TotalPreorder(u, x.version, u);
      if x.exclusive {
        NoGreatestBelow(u, x.version);
      } else {
        v := x.version;
        TotalPreorder(v, v, v);
      }
    }
    Ordered(w, u, v);
    RaisedMeets(s, w, v);
  }

  /** No ceiling is looser than the other form's. */
  lemma CeilingsOrdered(a: seq<Constraint>, b: seq<Constraint>, w: string)
    requires Reduced(a) && Reduced(b) && SameSet(a, b) && Meets(w, a) && Ceiling(b).Some?
    ensures Ceiling(a).Some? && TighterHigh(Ceiling(a).value, Ceiling(b).value)
  {
    var y := Ceiling(b).value;
    ReducedMeans(a, w);
    ReducedMeans(b, w);
    if Ceiling(a).None? || Compare(y.version, Ceiling(a).value.version) < 0 {
      var v := GoesPast(a, w, y.version);
      ReducedMeans(b, v);
    } else {
      var x := Ceiling(a).value;
      TotalPreorder(x.version, y.version, x.version);
      TotalPreorder(x.version, x.version, x.version);
      if !x.exclusive {
        RaisedMeets(a, w, x.version);
        ReducedMeans(b, x.version);
      }
    }
  }

  lemma FloorsPresent(a: seq<Constraint>, b: seq<Constraint>)
    requires Reduced(a) && Reduced(b) && (StatesLower(a) <==> StatesLower(b))
    ensures Floor(a).Some? <==> Floor(b).Some?
  {
    StatesLowerIsFloor(a);
    StatesLowerIsFloor(b);
  }

  lemma StatesLowerIsFloor(s: seq<Constraint>)
    requires Shaped(s)
    ensures StatesLower(s) <==> Floor(s).Some?
  {
    if Floor(s).Some? {
      assert s[0].Lower?() || s[0].op.EQ?;
    }
  }

  /** Constraint by constraint the same comparison with an equal version. */
  ghost predicate SameForm(a: seq<Constraint>, b: seq<Constraint>) {
    |a| == |b| && forall i :: 0 <= i < |a| ==> a[i].op == b[i].op && Compare(a[i].version, b[i].version) == 0
  }

  /** A range has one reduced form. */
  lemma OneForm(a: seq<Constraint>, b: seq<Constraint>, w: string)
    requires Reduced(a) && Reduced(b) && SameSet(a, b) && Meets(w, a)
    requires (StatesLower(a) <==> StatesLower(b)) && (a == [] <==> b == [])
    ensures SameForm(a, b)
  {
    FloorsPresent(a, b);
    if Floor(a).Some? {
      FloorsEqual(a, b, w);
    }
    if Ceiling(b).Some? {
      CeilingsOrdered(a, b, w);
    }
    if Ceiling(a).Some? {
      CeilingsOrdered(b, a, w);
      TotalPreorder(Ceiling(a).value.version, Ceiling(b).value.version, w);
    }
    EndsDecide(a, b);
  }

  /** The ends of two forms are those of one range. */
  ghost predicate SameEnds(a: seq<Constraint>, b: seq<Constraint>) {
    && (Floor(a).Some? <==> Floor(b).Some?)
    && (Floor(a).Some? ==> Compare(Floor(a).value, Floor(b).value) == 0)
    && (Ceiling(a).Some? <==> Ceiling(b).Some?)
    && (Ceiling(a).Some? ==>
          Compare(Ceiling(a).value.version, Ceiling(b).value.version) == 0 && Ceiling(a).value.exclusive == Ceiling(b).value.exclusive)
  }

  lemma OneBoundDecided(a: seq<Constraint>, b: seq<Constraint>)
    requires Shaped(a) && Shaped(b) && |a| == |b| == 1 && SameEnds(a, b)
    ensures SameForm(a, b)
  {
    assert a[0].op == b[0].op;
  }

  lemma TwoBoundsDecided(a: seq<Constraint>, b: seq<Constraint>)
    requires Shaped(a) && Shaped(b) && |a| == |b| == 2 && SameEnds(a, b)
    ensures SameForm(a, b)
  {
    assert a[1].op == b[1].op && a[0].op == b[0].op;
    forall i | 0 <= i < |a| ensures Compare(a[i].version, b[i].version) == 0 {
      assert i == 0 || i == 1;
    }
  }

  lemma EndsDecide(a: seq<Constraint>, b: seq<Constraint>)
    requires Reduced(a) && Reduced(b) && (a == [] <==> b == []) && SameEnds(a, b)
    ensures SameForm(a, b)
  {
    if |a| == 2 && |b| == 1 {
      PinHasNoPair(a, b);
    } else if |a| == 1 && |b| == 2 {
      TotalPreorder(Floor(a).value, Floor(b).value, Floor(a).value);
      TotalPreorder(Ceiling(a).value.version, Ceiling(b).value.version, Floor(a).value);
      PinHasNoPair(b, a);
    } else if |a| == 1 {
      OneBoundDecided(a, b);
    } else if |a| == 2 {
      TwoBoundsDecided(a, b);
    }
  }

  /** A pair of bounds that a pin shares would meet. */
  lemma PinHasNoPair(pair: seq<Constraint>, pin: seq<Constraint>)
    requires Reduced(pair) && Reduced(pin) && |pair| == 2 && |pin| == 1
    ensures !SameEnds(pair, pin)
  {
    if SameEnds(pair, pin) {
      EqualsAgree(pair[0].version, pin[0].version, pair[1].version);
      TotalPreorder(pair[1].version, pin[0].version, pin[0].version);
    }
  }
}
