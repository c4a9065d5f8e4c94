/** Version constraints: which sets any version meets. */
module Constraints {
  import opened Trees
  import opened Texts
  import opened Versions

  datatype Op = GTE | GT | LTE | LT | EQ

  datatype Constraint = Constraint(op: Op, version: string) {
    predicate Lower?() { op.GTE? || op.GT? }
    predicate Upper?() { op.LTE? || op.LT? }
    function Limit(): Bound { Bound(version, op.GT? || op.LT?) }
  }

  datatype Provide = Provide(name: string, version: string)

  datatype Require = Require(name: string, constraints: seq<Constraint>)

  predicate Holds(v: string, c: Constraint) {
    var cmp := Compare(v, c.version);
    match c.op
    case GTE => cmp >= 0
    case GT => cmp > 0
    case LTE => cmp <= 0
    case LT => cmp < 0
    case EQ => cmp == 0
  }

  predicate HoldsAll(v: string, cs: seq<Constraint>) {
    forall i :: 0 <= i < |cs| ==> Holds(v, cs[i])
  }

  /** An unversioned provide meets only a require that states nothing. */
  predicate Satisfies(p: Provide, r: Require) {
    p.name == r.name && (r.constraints == [] || (p.version != "" && HoldsAll(p.version, r.constraints)))
  }

  predicate TameSet(cs: seq<Constraint>) {
    forall i :: 0 <= i < |cs| ==> Tame(cs[i].version)
  }

  ghost predicate Meets(v: string, cs: seq<Constraint>) {
    Tame(v) && HoldsAll(v, cs)
  }

  ghost predicate Satisfiable(cs: seq<Constraint>) {
    exists v :: Meets(v, cs)
  }

  // Bounds

  datatype Bound = Bound(version: string, exclusive: bool)

  predicate Floored(v: string, b: Bound) {
    if b.exclusive then Compare(v, b.version) > 0 else Compare(v, b.version) >= 0
  }

  predicate Capped(v: string, b: Bound) {
    if b.exclusive then Compare(v, b.version) < 0 else Compare(v, b.version) <= 0
  }

  predicate TighterLow(x: Bound, y: Bound) {
    Compare(x.version, y.version) > 0 || (Compare(x.version, y.version) == 0 && (x.exclusive || !y.exclusive))
  }

  predicate TighterHigh(x: Bound, y: Bound) {
    Compare(x.version, y.version) < 0 || (Compare(x.version, y.version) == 0 && (x.exclusive || !y.exclusive))
  }

  lemma Ordered(a: string, b: string, c: string)
    requires Tame(a) && Tame(b) && Tame(c)
    ensures Compare(a, b) == -Compare(b, a)
    ensures Compare(a, b) <= 0 && Compare(b, c) <= 0 ==> Compare(a, c) <= 0
    ensures Compare(a, b) < 0 && Compare(b, c) <= 0 ==> Compare(a, c) < 0
    ensures Compare(a, b) <= 0 && Compare(b, c) < 0 ==> Compare(a, c) < 0
  {
    TotalPreorder(a, b, c);
    TotalPreorder(b, c, a);
    TotalPreorder(a, c, b);
  }

  /** Versions that compare equal meet the same constraints, and constraints at equal versions admit the same. */
  lemma EqualsAgree(a: string, b: string, v: string)
    requires Tame(a) && Tame(b) && Tame(v) && Compare(a, b) == 0
    ensures Compare(a, v) == Compare(b, v) && Compare(v, a) == Compare(v, b)
  {
    Ordered(a, b, v);
    Ordered(b, a, v);
    Ordered(v, a, b);
    Ordered(v, b, a);
  }

  lemma TighterLowMeans(x: Bound, y: Bound, v: string)
    requires Tame(x.version) && Tame(y.version) && Tame(v)
    ensures TighterLow(x, y) && Floored(v, x) ==> Floored(v, y)
    ensures TighterLow(x, y) || TighterLow(y, x)
  {
    Ordered(y.version, x.version, v);
    Ordered(v, x.version, y.version);
    Ordered(v, y.version, x.version);
  }

  lemma TighterHighMeans(x: Bound, y: Bound, v: string)
    requires Tame(x.version) && Tame(y.version) && Tame(v)
    ensures TighterHigh(x, y) && Capped(v, x) ==> Capped(v, y)
    ensures TighterHigh(x, y) || TighterHigh(y, x)
  {
    Ordered(v, x.version, y.version);
    Ordered(x.version, y.version, v);
  }

  lemma TighterLowTransitive(x: Bound, y: Bound, z: Bound)
    requires Tame(x.version) && Tame(y.version) && Tame(z.version)
    requires TighterLow(x, y) && TighterLow(y, z)
    ensures TighterLow(x, z)
  {
    Ordered(z.version, y.version, x.version);
    Ordered(x.version, y.version, z.version);
    Ordered(x.version, z.version, y.version);
  }

  lemma TighterHighTransitive(x: Bound, y: Bound, z: Bound)
    requires Tame(x.version) && Tame(y.version) && Tame(z.version)
    requires TighterHigh(x, y) && TighterHigh(y, z)
    ensures TighterHigh(x, z)
  {
    Ordered(x.version, y.version, z.version);
    Ordered(z.version, y.version, x.version);
  }

  /** `b` is as tight as every lower constraint of the set. */
  predicate TightestLow(b: Bound, cs: seq<Constraint>) {
    forall i :: 0 <= i < |cs| && cs[i].Lower?() ==> TighterLow(b, cs[i].Limit())
  }

  predicate TightestHigh(b: Bound, cs: seq<Constraint>) {
    forall i :: 0 <= i < |cs| && cs[i].Upper?() ==> TighterHigh(b, cs[i].Limit())
  }

  lemma TighterLowAt(b: Bound, b': Bound, cs: seq<Constraint>, k: nat, i: nat)
    requires Tame(b.version) && Tame(b'.version) && TameSet(cs) && i < k <= |cs| && cs[i].Lower?()
    requires TightestLow(b, cs[..k]) && TighterLow(b', b)
    ensures TighterLow(b', cs[i].Limit())
  {
    assert cs[..k][i] == cs[i];
    TighterLowTransitive(b', b, cs[i].Limit());
  }

  lemma TightestLowOneMore(b: Bound, cs: seq<Constraint>, k: nat)
    requires k < |cs| && (forall i :: 0 <= i < k && cs[i].Lower?() ==> TighterLow(b, cs[i].Limit()))
    requires cs[k].Lower?() ==> TighterLow(b, cs[k].Limit())
    ensures TightestLow(b, cs[..k + 1])
  {
    assert forall i :: 0 <= i <= k ==> cs[..k + 1][i] == cs[i];
  }

  lemma TightestLowStep(b: Bound, b': Bound, cs: seq<Constraint>, k: nat)
    requires Tame(b.version) && Tame(b'.version) && TameSet(cs) && k < |cs|
    requires TightestLow(b, cs[..k])
    requires TighterLow(b', b) && (cs[k].Lower?() ==> TighterLow(b', cs[k].Limit()))
    ensures TightestLow(b', cs[..k + 1])
  {
    forall i | 0 <= i < k && cs[i].Lower?() ensures TighterLow(b', cs[i].Limit()) {
      TighterLowAt(b, b', cs, k, i);
    }
    TightestLowOneMore(b', cs, k);
  }

  lemma TighterHighAt(b: Bound, b': Bound, cs: seq<Constraint>, k: nat, i: nat)
    requires Tame(b.version) && Tame(b'.version) && TameSet(cs) && i < k <= |cs| && cs[i].Upper?()
    requires TightestHigh(b, cs[..k]) && TighterHigh(b', b)
    ensures TighterHigh(b', cs[i].Limit())
  {
    assert cs[..k][i] == cs[i];
    TighterHighTransitive(b', b, cs[i].Limit());
  }

  lemma TightestHighOneMore(b: Bound, cs: seq<Constraint>, k: nat)
    requires k < |cs| && (forall i :: 0 <= i < k && cs[i].Upper?() ==> TighterHigh(b, cs[i].Limit()))
    requires cs[k].Upper?() ==> TighterHigh(b, cs[k].Limit())
    ensures TightestHigh(b, cs[..k + 1])
  {
    assert forall i :: 0 <= i <= k ==> cs[..k + 1][i] == cs[i];
  }

  lemma TightestHighStep(b: Bound, b': Bound, cs: seq<Constraint>, k: nat)
    requires Tame(b.version) && Tame(b'.version) && TameSet(cs) && k < |cs|
    requires TightestHigh(b, cs[..k])
    requires TighterHigh(b', b) && (cs[k].Upper?() ==> TighterHigh(b', cs[k].Limit()))
    ensures TightestHigh(b', cs[..k + 1])
  {
    forall i | 0 <= i < k && cs[i].Upper?() ensures TighterHigh(b', cs[i].Limit()) {
      TighterHighAt(b, b', cs, k, i);
    }
    TightestHighOneMore(b', cs, k);
  }

  // Satisfiability

  const FLOOR := "0"

  /** Every version is at least 0. */
  lemma FloorIsLeast(v: string)
    requires IsVersion(v)
    ensures Compare(v, FLOOR) >= 0
    ensures Tame(FLOOR)
  {
    SplitWhole(FLOOR, '.');
    var parts := SplitVersion(v);
    CompareDigitsIsValue(parts[0], "0");
    assert Value("0") == 0 by { assert "0"[1..] == ""; }
    AgainstNothing(parts[1..]);
  }

  /** The least version over a bound. */
  function Least(b: Bound): string {
    if b.exclusive then Next(b.version) else b.version
  }

  lemma LeastIsLeast(b: Bound, v: string)
    requires Tame(b.version) && Tame(v)
    ensures Tame(Least(b)) && Floored(Least(b), b)
    ensures Floored(v, b) <==> Compare(v, Least(b)) >= 0
  {
    TotalPreorder(b.version, b.version, v);
    TotalPreorder(Next(b.version), Next(b.version), v);
    NextSegments(b.version);
    SuccessorIsNext(v, b.version);
    SuccessorIsNext(Next(b.version), b.version);
  }

  /** A set with a pin is satisfiable exactly when the pin meets it. */
  lemma PinDecides(cs: seq<Constraint>, pin: string, i: nat)
    requires TameSet(cs) && i < |cs| && cs[i] == Constraint(EQ, pin)
    ensures Satisfiable(cs) <==> HoldsAll(pin, cs)
  {
    if Satisfiable(cs) {
      var v :| Meets(v, cs);
      assert Holds(v, cs[i]);
      forall j | 0 <= j < |cs| ensures Holds(pin, cs[j]) {
        assert Holds(v, cs[j]);
        EqualsAgree(v, pin, cs[j].version);
      }
    } else if HoldsAll(pin, cs) {
      assert Meets(pin, cs);
    }
  }

  ghost predicate LowFrom(lo: Bound, cs: seq<Constraint>) {
    lo == Bound(FLOOR, false) || exists i :: 0 <= i < |cs| && cs[i].Lower?() && cs[i].Limit() == lo
  }

  ghost predicate HighFrom(hi: Bound, cs: seq<Constraint>) {
    exists i :: 0 <= i < |cs| && cs[i].Upper?() && cs[i].Limit() == hi
  }

  lemma MeetingIsBetween(cs: seq<Constraint>, lo: Bound, hi: Option<Bound>, v: string)
    requires LowFrom(lo, cs) && (hi.Some? ==> HighFrom(hi.value, cs)) && IsVersion(v) && HoldsAll(v, cs)
    ensures Floored(v, lo) && (hi.Some? ==> Capped(v, hi.value))
  {
    FloorIsLeast(v);
  }

  lemma BetweenIsMeeting(cs: seq<Constraint>, lo: Bound, hi: Option<Bound>, v: string)
    requires TameSet(cs) && Tame(lo.version) && Tame(v) && Floored(v, lo) && TightestLow(lo, cs)
    requires hi.Some? ==> Tame(hi.value.version) && Capped(v, hi.value) && TightestHigh(hi.value, cs)
    requires forall i :: 0 <= i < |cs| ==> !cs[i].op.EQ? && (cs[i].Upper?() ==> hi.Some?)
    ensures Meets(v, cs)
  {
    forall i | 0 <= i < |cs| ensures Holds(v, cs[i]) {
      if cs[i].Lower?() {
        TighterLowMeans(lo, cs[i].Limit(), v);
      } else {
        TighterHighMeans(hi.value, cs[i].Limit(), v);
      }
    }
  }

  /** The set's own bounds decide it: the least version over the lower one is the witness. */
  lemma BoundsDecide(cs: seq<Constraint>, lo: Bound, hi: Option<Bound>)
    requires TameSet(cs) && Tame(lo.version) && LowFrom(lo, cs) && TightestLow(lo, cs)
    requires hi.Some? ==> Tame(hi.value.version) && HighFrom(hi.value, cs) && TightestHigh(hi.value, cs)
    requires forall i :: 0 <= i < |cs| ==> !cs[i].op.EQ? && (cs[i].Upper?() ==> hi.Some?)
    ensures Satisfiable(cs) <==> hi.None? || Capped(Least(lo), hi.value)
  {
    var w := Least(lo);
    LeastIsLeast(lo, lo.version);
    if Satisfiable(cs) {
      var v :| Meets(v, cs);
      MeetingIsBetween(cs, lo, hi, v);
      LeastIsLeast(lo, v);
      if hi.Some? {
        Ordered(v, w, v);
        Ordered(w, v, hi.value.version);
      }
    }
    if hi.None? || Capped(w, hi.value) {
      BetweenIsMeeting(cs, lo, hi, w);
    }
  }

  /** The bounds are as tight as every constraint of the set. */
  ghost predicate Tightest(lo: Bound, hi: Option<Bound>, cs: seq<Constraint>) {
    && Tame(lo.version) && TightestLow(lo, cs)
    && (hi.Some? ==> Tame(hi.value.version) && TightestHigh(hi.value, cs))
  }

  method FindPin(cs: seq<Constraint>) returns (pin: Option<string>, clash: bool)
    ensures clash && TameSet(cs) ==> !Satisfiable(cs)
    ensures !clash && pin.Some? ==> exists i :: 0 <= i < |cs| && cs[i] == Constraint(EQ, pin.value)
    ensures !clash && pin.None? ==> forall i :: 0 <= i < |cs| ==> !cs[i].op.EQ?
  {
    pin, clash := None, false;
    for k := 0 to |cs|
      invariant pin.Some? ==> exists i :: 0 <= i < k && cs[i] == Constraint(EQ, pin.value)
      invariant pin.None? ==> forall i :: 0 <= i < k ==> !cs[i].op.EQ?
    {
      if cs[k].op.EQ? {
        if pin.Some? {
          var cmp := CompareVersions(pin.value, cs[k].version);
          if cmp != 0 {
            ghost var i :| 0 <= i < k && cs[i] == Constraint(EQ, pin.value);
            if TameSet(cs) { PinDecides(cs, pin.value, i); }
            assert !Holds(pin.value, cs[k]);
            return pin, true;
          }
        }
        pin := Some(cs[k].version);
      }
    }
  }

  lemma NothingTighter()
    ensures Tightest(Bound(FLOOR, false), None, [])
  {
    FloorIsLeast(FLOOR);
  }

  method FindBounds(cs: seq<Constraint>) returns (lo: Bound, hi: Option<Bound>)
    ensures LowFrom(lo, cs) && (hi.Some? ==> HighFrom(hi.value, cs))
    ensures TameSet(cs) ==> Tightest(lo, hi, cs)
    ensures hi.None? ==> forall i :: 0 <= i < |cs| ==> !cs[i].Upper?()
  {
    lo, hi := Bound(FLOOR, false), None;
    NothingTighter();
    assert cs[..0] == [];
    for k := 0 to |cs|
      invariant LowFrom(lo, cs) && (hi.Some? ==> HighFrom(hi.value, cs))
      invariant (TameSet(cs) ==> Tightest(lo, hi, cs[..k])) == true
      invariant hi.None? ==> forall i :: 0 <= i < k ==> !cs[i].Upper?()
    {
      lo := TightenLow(lo, cs, k);
      hi := TightenHigh(hi, cs, k);
    }
    assert cs[..|cs|] == cs;
  }

  method TightenLow(lo: Bound, cs: seq<Constraint>, k: nat) returns (lo': Bound)
    requires k < |cs| && LowFrom(lo, cs)
    requires TameSet(cs) ==> Tame(lo.version) && TightestLow(lo, cs[..k])
    ensures LowFrom(lo', cs) && (TameSet(cs) ==> Tame(lo'.version) && TightestLow(lo', cs[..k + 1]))
  {
    var c := cs[k];
    lo' := lo;
    TotalPreorder(lo.version, c.version, lo.version);
    TotalPreorder(c.version, c.version, lo.version);
    if c.Lower?() {
      var exclusive := c.op.GT?;
      var cmp := CompareVersions(c.version, lo.version);
      if cmp > 0 || (cmp == 0 && exclusive && !lo.exclusive) {
        lo' := Bound(c.version, exclusive);
      }
    }
    if TameSet(cs) { TightestLowStep(lo, lo', cs, k); }
  }

  method TightenHigh(hi: Option<Bound>, cs: seq<Constraint>, k: nat) returns (hi': Option<Bound>)
    requires k < |cs| && (hi.Some? ==> HighFrom(hi.value, cs))
    requires TameSet(cs) && hi.Some? ==> Tame(hi.value.version) && TightestHigh(hi.value, cs[..k])
    requires hi.None? ==> forall i :: 0 <= i < k ==> !cs[i].Upper?()
    ensures hi'.Some? ==> HighFrom(hi'.value, cs)
    ensures TameSet(cs) && hi'.Some? ==> Tame(hi'.value.version) && TightestHigh(hi'.value, cs[..k + 1])
    ensures hi'.None? ==> forall i :: 0 <= i < k + 1 ==> !cs[i].Upper?()
  {
    var c := cs[k];
    hi' := hi;
    TotalPreorder(c.version, c.version, c.version);
    if c.Upper?() {
      var exclusive := c.op.LT?;
      var tighter := hi.None?;
      if hi.Some? {
        TotalPreorder(hi.value.version, c.version, hi.value.version);
        var cmp := CompareVersions(c.version, hi.value.version);
        TotalPreorder(c.version, hi.value.version, c.version);
        tighter := cmp < 0 || (cmp == 0 && exclusive && !hi.value.exclusive);
      }
      if tighter {
        hi' := Some(Bound(c.version, exclusive));
      }
    }
    if TameSet(cs) && hi'.Some? {
      ghost var was := hi.GetOr(hi'.value);
      TotalPreorder(was.version, was.version, c.version);
      TightestHighStep(was, hi'.value, cs, k);
    }
  }

  /** Accepts a set of constraints on tame versions exactly when some tame version meets all of it. */
  method CheckConstraintsSatisfiable(cs: seq<Constraint>) returns (ok: bool)
    ensures TameSet(cs) ==> (ok <==> Satisfiable(cs))
    ensures ok && (exists i :: 0 <= i < |cs| && cs[i].op.EQ?) ==> exists i :: 0 <= i < |cs| && cs[i].op.EQ? && HoldsAll(cs[i].version, cs)
  {
    var pin, clash := FindPin(cs);
    if clash {
      return false;
    }
    if pin.Some? {
      ghost var i :| 0 <= i < |cs| && cs[i] == Constraint(EQ, pin.value);
      if TameSet(cs) { PinDecides(cs, pin.value, i); }
      assert HoldsAll(pin.value, cs) ==> cs[i].op.EQ? && HoldsAll(cs[i].version, cs);
      return HoldsAll(pin.value, cs);
    }
    var lo, hi := FindBounds(cs);
    if TameSet(cs) { BoundsDecide(cs, lo, hi); }
    if hi.None? {
      return true;
    }
    var effective := if lo.exclusive then Next(lo.version) else lo.version;
    var cmp := CompareVersions(effective, hi.value.version);
    ok := !(cmp > 0 || (cmp == 0 && hi.value.exclusive));
  }
}
