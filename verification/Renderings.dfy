/** The canonical string of a require, and what two equal strings say. */
module Renderings {
  import opened Trees
  import opened Strings
  import opened Texts
  import opened Versions
  import opened Constraints
  import opened Spellings

  // Simplifying a set

  lemma PinIsSimplest(cs: seq<Constraint>, i: nat)
    requires TameSet(cs) && i < |cs| && cs[i].op.EQ?
    ensures Simplest(cs, [cs[i]])
  {
    var s := [cs[i]];
    assert s[0].op.EQ?;
    if Satisfiable(cs) {
      PinDecides(cs, cs[i].version, i);
      forall v ensures Meets(v, s) <==> Meets(v, cs) {
        if Meets(v, cs) {
          assert Holds(v, cs[i]);
        } else if Meets(v, s) {
          assert Holds(v, s[0]);
          forall j | 0 <= j < |cs| ensures Holds(v, cs[j]) {
            assert Holds(cs[i].version, cs[j]);
            EqualsAgree(v, cs[i].version, cs[j].version);
          }
        }
      }
    }
  }

  /** The set with its exclusive bounds written as the inclusive ones they equal. */
  ghost predicate MadeInclusive(cs: seq<Constraint>, n: seq<Constraint>) {
    |n| == |cs| && forall i :: 0 <= i < |cs| ==> n[i] == Inclusive(cs[i])
  }

  lemma MadeInclusiveMeans(cs: seq<Constraint>, n: seq<Constraint>, v: string)
    requires TameSet(cs) && MadeInclusive(cs, n) && Tame(v)
    ensures TameSet(n) && (Meets(v, n) <==> Meets(v, cs))
    ensures forall i :: 0 <= i < |n| ==> !n[i].op.GT? && (n[i].op.LT? ==> !IsSuccessor(n[i].version))
    ensures forall i :: 0 <= i < |n| ==> (n[i].Lower?() <==> cs[i].Lower?()) && (n[i].Upper?() <==> cs[i].Upper?())
  {
    forall i | 0 <= i < |cs|
      ensures Tame(n[i].version) && (Holds(v, n[i]) <==> Holds(v, cs[i]))
      ensures !n[i].op.GT? && (n[i].op.LT? ==> !IsSuccessor(n[i].version))
      ensures (n[i].Lower?() <==> cs[i].Lower?()) && (n[i].Upper?() <==> cs[i].Upper?())
    {
      InclusiveMeans(cs[i], v);
    }
    if HoldsAll(v, cs) {
      assert forall i :: 0 <= i < |cs| ==> Holds(v, cs[i]);
    } else {
      var i :| 0 <= i < |cs| && !Holds(v, cs[i]);
      assert !Holds(v, n[i]);
    }
  }

  /** `lo` is a tightest lower constraint of the set, if it has one. */
  ghost predicate LowOf(lo: Option<Constraint>, n: seq<Constraint>) {
    match lo
    case None => forall i :: 0 <= i < |n| ==> !n[i].Lower?()
    case Some(c) => c.Lower?() && c in n && TightestLow(c.Limit(), n)
  }

  ghost predicate HighOf(hi: Option<Constraint>, n: seq<Constraint>) {
    match hi
    case None => forall i :: 0 <= i < |n| ==> !n[i].Upper?()
    case Some(c) => c.Upper?() && c in n && TightestHigh(c.Limit(), n)
  }

  method TightenFloor(lo: Option<Constraint>, n: seq<Constraint>, k: nat) returns (lo': Option<Constraint>)
    requires k < |n| && (TameSet(n) ==> LowOf(lo, n[..k]))
    ensures TameSet(n) ==> LowOf(lo', n[..k + 1])
  {
    var c := n[k];
    lo' := lo;
    assert n[..k + 1] == n[..k] + [c];
    if c.Lower?() {
      var tighter := lo.None?;
      TotalPreorder(c.version, c.version, c.version);
      if lo.Some? {
        TotalPreorder(lo.value.version, c.version, c.version);
        var cmp := CompareVersions(c.version, lo.value.version);
        tighter := cmp > 0 || (cmp == 0 && c.op.GT?);
      }
      if tighter {
        lo' := Some(c);
      }
    }
    if TameSet(n) { FloorStep(lo, lo', n, k); }
  }

  lemma FloorStep(lo: Option<Constraint>, lo': Option<Constraint>, n: seq<Constraint>, k: nat)
    requires TameSet(n) && k < |n| && LowOf(lo, n[..k])
    requires lo' == lo || (n[k].Lower?() && lo' == Some(n[k]))
    requires lo.Some? ==> TighterLow(lo'.value.Limit(), lo.value.Limit())
    requires n[k].Lower?() ==> lo'.Some? && TighterLow(lo'.value.Limit(), n[k].Limit())
    ensures LowOf(lo', n[..k + 1])
  {
    assert n[..k + 1] == n[..k] + [n[k]];
    if lo'.Some? {
      TightestLowStep(lo.GetOr(lo'.value).Limit(), lo'.value.Limit(), n, k);
    }
  }

  method TightenCeiling(hi: Option<Constraint>, n: seq<Constraint>, k: nat) returns (hi': Option<Constraint>)
    requires k < |n| && (TameSet(n) ==> HighOf(hi, n[..k]))
    ensures TameSet(n) ==> HighOf(hi', n[..k + 1])
  {
    var c := n[k];
    hi' := hi;
    if c.Upper?() {
      var tighter := hi.None?;
      TotalPreorder(c.version, c.version, c.version);
      if hi.Some? {
        TotalPreorder(hi.value.version, c.version, c.version);
        var cmp := CompareVersions(c.version, hi.value.version);
        tighter := cmp < 0 || (cmp == 0 && c.op.LT?);
      }
      if tighter {
        hi' := Some(c);
      }
    }
    if TameSet(n) { CeilingStep(hi, hi', n, k); }
  }

  lemma CeilingStep(hi: Option<Constraint>, hi': Option<Constraint>, n: seq<Constraint>, k: nat)
    requires TameSet(n) && k < |n| && HighOf(hi, n[..k])
    requires hi' == hi || (n[k].Upper?() && hi' == Some(n[k]))
    requires hi.Some? ==> TighterHigh(hi'.value.Limit(), hi.value.Limit())
    requires n[k].Upper?() ==> hi'.Some? && TighterHigh(hi'.value.Limit(), n[k].Limit())
    ensures HighOf(hi', n[..k + 1])
  {
    assert n[..k + 1] == n[..k] + [n[k]];
    if hi'.Some? {
      TightestHighStep(hi.GetOr(hi'.value).Limit(), hi'.value.Limit(), n, k);
    }
  }

  function Listed(lo: Option<Constraint>, hi: Option<Constraint>): seq<Constraint> {
    (if lo.Some? then [lo.value] else []) + (if hi.Some? then [hi.value] else [])
  }

  lemma TightestMean(n: seq<Constraint>, lo: Option<Constraint>, hi: Option<Constraint>, v: string)
    requires TameSet(n) && Tame(v) && LowOf(lo, n) && HighOf(hi, n) && forall i :: 0 <= i < |n| ==> !n[i].op.EQ?
    ensures HoldsAll(v, n) <==> (lo.Some? ==> Holds(v, lo.value)) && (hi.Some? ==> Holds(v, hi.value))
  {
    if (lo.Some? ==> Holds(v, lo.value)) && (hi.Some? ==> Holds(v, hi.value)) {
      forall i | 0 <= i < |n| ensures Holds(v, n[i]) {
        if n[i].Lower?() {
          TighterLowMeans(lo.value.Limit(), n[i].Limit(), v);
        } else {
          TighterHighMeans(hi.value.Limit(), n[i].Limit(), v);
        }
      }
    }
  }

  /** The tightest bounds as the source returns them: a pin if they meet. */
  function Closed(lo: Option<Constraint>, hi: Option<Constraint>): seq<Constraint> {
    if lo.Some? && hi.Some? && lo.value.op.GTE? && hi.value.op.LTE? && Compare(lo.value.version, hi.value.version) == 0
    then [Constraint(EQ, lo.value.version)]
    else Listed(lo, hi)
  }

  lemma ClosedMeans(lo: Option<Constraint>, hi: Option<Constraint>, v: string)
    requires lo.Some? ==> lo.value.op.GTE? && Tame(lo.value.version)
    requires hi.Some? ==> hi.value.Upper?() && Tame(hi.value.version)
    requires Tame(v)
    ensures HoldsAll(v, Closed(lo, hi)) <==> (lo.Some? ==> Holds(v, lo.value)) && (hi.Some? ==> Holds(v, hi.value))
  {
    var s := Closed(lo, hi);
    if |s| == 1 && s[0].op.EQ? {
      EqualsAgree(lo.value.version, hi.value.version, v);
      assert HoldsAll(v, s) <==> Holds(v, s[0]);
    } else if |s| == 1 {
      assert HoldsAll(v, s) <==> Holds(v, s[0]);
    } else if |s| == 2 {
      assert HoldsAll(v, s) <==> Holds(v, s[0]) && Holds(v, s[1]);
    }
  }

  lemma ClosedSameSet(cs: seq<Constraint>, n: seq<Constraint>, lo: Option<Constraint>, hi: Option<Constraint>)
    requires TameSet(cs) && MadeInclusive(cs, n) && forall i :: 0 <= i < |cs| ==> !cs[i].op.EQ?
    requires LowOf(lo, n) && HighOf(hi, n)
    ensures SameSet(Closed(lo, hi), cs)
  {
    forall v ensures Meets(v, Closed(lo, hi)) <==> Meets(v, cs) {
      if Tame(v) {
        MadeInclusiveMeans(cs, n, v);
        TightestMean(n, lo, hi, v);
        ClosedMeans(lo, hi, v);
      }
    }
  }

  /** The bounds kept are on the sides the set states any. */
  lemma ClosedSides(cs: seq<Constraint>, n: seq<Constraint>, lo: Option<Constraint>, hi: Option<Constraint>)
    requires TameSet(cs) && MadeInclusive(cs, n) && forall i :: 0 <= i < |cs| ==> !cs[i].op.EQ?
    requires LowOf(lo, n) && HighOf(hi, n)
    ensures lo.Some? <==> StatesLower(cs)
    ensures lo.None? && hi.None? <==> cs == []
  {
    if lo.Some? {
      var i :| 0 <= i < |n| && n[i] == lo.value;
      SameSide(cs, n, i);
    } else if StatesLower(cs) {
      var i :| 0 <= i < |cs| && (cs[i].Lower?() || cs[i].op.EQ?);
      SameSide(cs, n, i);
    }
    if cs != [] {
      SameSide(cs, n, 0);
    }
  }

  lemma SameSide(cs: seq<Constraint>, n: seq<Constraint>, i: nat)
    requires MadeInclusive(cs, n) && i < |cs|
    ensures (n[i].Lower?() <==> cs[i].Lower?()) && (n[i].Upper?() <==> cs[i].Upper?())
    ensures n[i].Lower?() || n[i].Upper?() || cs[i].op.EQ?
  {
  }

  lemma ClosedReduced(n: seq<Constraint>, lo: Option<Constraint>, hi: Option<Constraint>)
    requires TameSet(n) && LowOf(lo, n) && HighOf(hi, n)
    requires forall i :: 0 <= i < |n| ==> !n[i].op.GT? && (n[i].op.LT? ==> !IsSuccessor(n[i].version))
    ensures Reduced(Closed(lo, hi))
    ensures Floor(Closed(lo, hi)).Some? <==> lo.Some?
  {
    if lo.Some? {
      var i :| 0 <= i < |n| && n[i] == lo.value;
    }
    if hi.Some? {
      var i :| 0 <= i < |n| && n[i] == hi.value;
    }
    ClosedOfTwo(lo, hi);
  }

  lemma ClosedOfTwo(lo: Option<Constraint>, hi: Option<Constraint>)
    requires lo.Some? ==> lo.value.op.GTE? && Tame(lo.value.version)
    requires hi.Some? ==> hi.value.Upper?() && Tame(hi.value.version) && (hi.value.op.LT? ==> !IsSuccessor(hi.value.version))
    ensures Reduced(Closed(lo, hi))
    ensures Floor(Closed(lo, hi)).Some? <==> lo.Some?
  {
    var s := Closed(lo, hi);
    assert Shaped(s) && TameSet(s);
  }

  lemma ClosedIsSimplest(cs: seq<Constraint>, n: seq<Constraint>, lo: Option<Constraint>, hi: Option<Constraint>)
    requires TameSet(cs) && MadeInclusive(cs, n) && forall i :: 0 <= i < |cs| ==> !cs[i].op.EQ?
    requires LowOf(lo, n) && HighOf(hi, n)
    ensures Simplest(cs, Closed(lo, hi))
  {
    FloorIsLeast(FLOOR);
    MadeInclusiveMeans(cs, n, FLOOR);
    ClosedSameSet(cs, n, lo, hi);
    ClosedSides(cs, n, lo, hi);
    ClosedReduced(n, lo, hi);
    StatesLowerIsFloor(Closed(lo, hi));
  }

  method FindPinned(cs: seq<Constraint>) returns (pin: Option<Constraint>)
    ensures pin.Some? ==> exists i :: 0 <= i < |cs| && cs[i] == pin.value && cs[i].op.EQ?
    ensures pin.None? ==> forall i :: 0 <= i < |cs| ==> !cs[i].op.EQ?
  {
    for k := 0 to |cs|
      invariant forall i :: 0 <= i < k ==> !cs[i].op.EQ?
    {
      if cs[k].op.EQ? {
        return Some(cs[k]);
      }
    }
    pin := None;
  }

  method MakeInclusive(cs: seq<Constraint>) returns (n: seq<Constraint>)
    ensures MadeInclusive(cs, n)
  {
    n := [];
    for k := 0 to |cs|
      invariant MadeInclusive(cs[..k], n)
    {
      n := n + [Inclusive(cs[k])];
    }
  }

  method FindEnds(n: seq<Constraint>) returns (lo: Option<Constraint>, hi: Option<Constraint>)
    ensures TameSet(n) ==> LowOf(lo, n) && HighOf(hi, n)
  {
    lo, hi := None, None;
    for k := 0 to |n|
      invariant TameSet(n) ==> LowOf(lo, n[..k]) && HighOf(hi, n[..k])
    {
      lo := TightenFloor(lo, n, k);
      hi := TightenCeiling(hi, n, k);
    }
    assert n[..|n|] == n;
  }

  method SimplifyConstraints(cs: seq<Constraint>) returns (s: seq<Constraint>)
    ensures TameSet(cs) ==> Simplest(cs, s)
  {
    var pin := FindPinned(cs);
    if pin.Some? {
      ghost var i :| 0 <= i < |cs| && cs[i] == pin.value;
      if TameSet(cs) { PinIsSimplest(cs, i); }
      return [pin.value];
    }
    var n := MakeInclusive(cs);
    var lo, hi := FindEnds(n);
    if TameSet(cs) {
      FloorIsLeast(FLOOR);
      MadeInclusiveMeans(cs, n, FLOOR);
      ClosedIsSimplest(cs, n, lo, hi);
    }
    if lo.Some? && hi.Some? && lo.value.op.GTE? && hi.value.op.LTE? {
      var cmp := CompareVersions(lo.value.version, hi.value.version);
      if cmp == 0 {
        return [Constraint(EQ, lo.value.version)];
      }
    }
    s := Listed(lo, hi);
  }

  // Rendering

  function OpText(op: Op): string {
    match op
    case GTE => ">="
    case GT => ">"
    case LTE => "<="
    case LT => "<"
    case EQ => "="
  }

  function RenderConstraint(c: Constraint): string {
    OpText(c.op) + Canonical(c.version)
  }

  function RenderAll(s: seq<Constraint>): (r: seq<string>)
    ensures |r| == |s| && forall i :: 0 <= i < |s| ==> r[i] == RenderConstraint(s[i])
  {
    if s == [] then [] else [RenderConstraint(s[0])] + RenderAll(s[1..])
  }

  /** sort.Strings, on the two strings there can be. */
  function SortTwo(r: seq<string>): seq<string> {
    if |r| == 2 && Less(r[1], r[0]) then [r[1], r[0]] else r
  }

  function Render(name: string, s: seq<Constraint>): string {
    name + " " + Join(SortTwo(RenderAll(s)), ',')
  }

  lemma OpTextUnique(o: Op, x: string, p: Op, y: string)
    requires x != "" && IsDigit(x[0]) && y != "" && IsDigit(y[0])
    requires OpText(o) + x == OpText(p) + y
    ensures o == p && x == y
  {
    var s, t := OpText(o) + x, OpText(p) + y;
    assert s[0] == t[0] && s[1] == t[1];
    assert x == s[|OpText(o)|..] && y == t[|OpText(p)|..];
  }

  lemma {:induction false} JoinWithout(parts: seq<string>, sep: char, c: char)
    requires c != sep && Free(parts, c)
    ensures c !in Join(parts, sep)
    decreases |parts|
  {
    if |parts| > 1 {
      JoinWithout(parts[1..], sep, c);
    }
  }

  lemma CanonicalText(v: string)
    requires IsVersion(v)
    ensures Canonical(v) != "" && IsDigit(Canonical(v)[0]) && ',' !in Canonical(v)
  {
    CanonicalIsVersion(v);
    VersionWithout(Canonical(v), ',');
  }

  lemma VersionWithout(v: string, c: char)
    requires IsVersion(v) && !IsDigit(c) && !Letter(c) && c != '-' && c != '.'
    ensures v != "" && IsDigit(v[0]) && c !in v
  {
    var parts := SplitVersion(v);
    SplitStarts(v, '.');
    JoinSplit(v, '.');
    forall i | 0 <= i < |parts| ensures c !in parts[i] {
      assert IsSegment(parts[i]);
    }
    JoinWithout(parts, '.', c);
  }

  lemma SplitStarts(s: string, sep: char)
    requires Split(s, sep)[0] != ""
    ensures s != "" && Split(s, sep)[0][0] == s[0]
  {
  }

  /** Constraints render alike exactly when they compare the same way with equal versions. */
  lemma RenderConstraintDecides(c: Constraint, d: Constraint)
    requires IsVersion(c.version) && IsVersion(d.version)
    ensures RenderConstraint(c) == RenderConstraint(d) <==> c.op == d.op && Compare(c.version, d.version) == 0
  {
    var x, y := Canonical(c.version), Canonical(d.version);
    CanonicalText(c.version);
    CanonicalText(d.version);
    CanonicalDecides(c.version, d.version);
    if OpText(c.op) + x == OpText(d.op) + y {
      OpTextUnique(c.op, x, d.op, y);
    }
  }

  lemma RenderedText(c: Constraint)
    requires IsVersion(c.version)
    ensures RenderConstraint(c) != "" && ',' !in RenderConstraint(c)
  {
    CanonicalText(c.version);
    OpTextShort(c.op);
  }

  lemma OpTextShort(op: Op)
    ensures ',' !in OpText(op) && OpText(op) != ""
  {
    var t := OpText(op);
    assert t[0] != ',' && |t| <= 2;
    if |t| == 2 {
      assert t[1] != ',';
    }
  }

  /** A ceiling sorts before a floor. */
  lemma CeilingFirst(c: Constraint, d: Constraint)
    requires c.Upper?() && d.op.GTE?
    ensures Less(RenderConstraint(c), RenderConstraint(d)) && !Less(RenderConstraint(d), RenderConstraint(c))
  {
    var x, y := RenderConstraint(c), RenderConstraint(d);
    assert OpText(c.op)[0] == '<' && OpText(d.op)[0] == '>';
    assert x[0] == '<' && y[0] == '>';
  }

  lemma SortedForm(s: seq<Constraint>)
    requires Shaped(s)
    ensures SortTwo(RenderAll(s)) == if |s| == 2 then [RenderConstraint(s[1]), RenderConstraint(s[0])] else RenderAll(s)
  {
    if |s| == 2 {
      CeilingFirst(s[1], s[0]);
    }
  }

  lemma SortedFree(s: seq<Constraint>)
    requires Reduced(s)
    ensures Free(SortTwo(RenderAll(s)), ',') && |SortTwo(RenderAll(s))| == |s|
    ensures s == [] <==> Join(SortTwo(RenderAll(s)), ',') == ""
  {
    SortedForm(s);
    forall i | 0 <= i < |s| ensures RenderConstraint(s[i]) != "" && ',' !in RenderConstraint(s[i]) {
      RenderedText(s[i]);
    }
  }

  lemma RenderDecides(m: string, a: seq<Constraint>, n: string, b: seq<Constraint>)
    requires ' ' !in m && ' ' !in n && Reduced(a) && Reduced(b)
    ensures Render(m, a) == Render(n, b) <==> m == n && SameForm(a, b)
  {
    var x, y := SortTwo(RenderAll(a)), SortTwo(RenderAll(b));
    SortedForm(a);
    SortedForm(b);
    forall i | 0 <= i < |a| && |a| == |b|
      ensures RenderConstraint(a[i]) == RenderConstraint(b[i]) <==> a[i].op == b[i].op && Compare(a[i].version, b[i].version) == 0
    {
      RenderConstraintDecides(a[i], b[i]);
    }
    if Render(m, a) == Render(n, b) {
      CutUnique(m, Join(x, ','), n, Join(y, ','), ' ');
      SortedFree(a);
      SortedFree(b);
      JoinInjective(x, y, ',');
      SortedDecides(a, b);
    } else if m == n && SameForm(a, b) {
      SameRendered(a, b);
    }
  }

  lemma SortedDecides(a: seq<Constraint>, b: seq<Constraint>)
    requires Reduced(a) && Reduced(b) && SortTwo(RenderAll(a)) == SortTwo(RenderAll(b))
    ensures SameForm(a, b)
  {
    SortedForm(a);
    SortedForm(b);
    SortedFree(a);
    SortedFree(b);
    forall i | 0 <= i < |a| ensures a[i].op == b[i].op && Compare(a[i].version, b[i].version) == 0 {
      assert RenderConstraint(a[i]) == RenderConstraint(b[i]) by {
        if |a| == 2 {
          assert RenderConstraint(a[i]) == SortTwo(RenderAll(a))[1 - i];
        } else {
          assert RenderConstraint(a[i]) == RenderAll(a)[i];
        }
      }
      RenderConstraintDecides(a[i], b[i]);
    }
  }

  lemma SameRendered(a: seq<Constraint>, b: seq<Constraint>)
    requires Reduced(a) && Reduced(b) && SameForm(a, b)
    ensures RenderAll(a) == RenderAll(b)
  {
    forall i | 0 <= i < |a| ensures RenderConstraint(a[i]) == RenderConstraint(b[i]) {
      RenderConstraintDecides(a[i], b[i]);
    }
  }

  // What a rendering says

  /** The two accept the same provides. */
  ghost predicate SameMeaning(r: Require, q: Require) {
    forall p: Provide :: p.version == "" || Tame(p.version) ==> (Satisfies(p, r) <==> Satisfies(p, q))
  }

  ghost predicate WellStated(r: Require) {
    ' ' !in r.name && TameSet(r.constraints) && Satisfiable(r.constraints)
  }

  /** `text` is a canonical string of the require. */
  ghost predicate Renders(text: string, r: Require) {
    exists s :: Simplest(r.constraints, s) && text == Render(r.name, s)
  }

  method RenderEach(s: seq<Constraint>) returns (rendered: seq<string>)
    ensures rendered == RenderAll(s)
  {
    rendered := [];
    for k := 0 to |s|
      invariant |rendered| == k && forall i :: 0 <= i < k ==> rendered[i] == RenderConstraint(s[i])
    {
      var text := RenderOne(s[k]);
      rendered := rendered + [text];
    }
  }

  method RenderOne(c: Constraint) returns (text: string)
    ensures text == RenderConstraint(c)
  {
    var version := CanonicalVersion(c.version);
    text := OpText(c.op) + version;
  }

  method CanonicalRequire(r: Require) returns (text: string)
    ensures TameSet(r.constraints) ==> Renders(text, r)
  {
    var s := SimplifyConstraints(r.constraints);
    var rendered := RenderEach(s);
    text := r.name + " " + Join(SortTwo(rendered), ',');
  }

  lemma SameFormSameSet(a: seq<Constraint>, b: seq<Constraint>)
    requires Reduced(a) && Reduced(b) && SameForm(a, b)
    ensures SameSet(a, b) && (StatesLower(a) <==> StatesLower(b))
  {
    forall v ensures Meets(v, a) <==> Meets(v, b) {
      if Tame(v) {
        forall i | 0 <= i < |a| ensures Holds(v, a[i]) <==> Holds(v, b[i]) {
          EqualsAgree(a[i].version, b[i].version, v);
        }
      }
    }
    StatesLowerIsFloor(a);
    StatesLowerIsFloor(b);
  }

  lemma MeaningFromSets(r: Require, q: Require)
    requires r.name == q.name && SameSet(r.constraints, q.constraints)
    requires r.constraints == [] <==> q.constraints == []
    ensures SameMeaning(r, q)
  {
    forall p: Provide | p.version == "" || Tame(p.version)
      ensures Satisfies(p, r) <==> Satisfies(p, q)
    {
      assert Meets(p.version, r.constraints) <==> Meets(p.version, q.constraints);
    }
  }

  lemma SetsFromMeaning(r: Require, q: Require)
    requires SameMeaning(r, q) && Satisfiable(r.constraints)
    ensures r.name == q.name && SameSet(r.constraints, q.constraints)
    ensures r.constraints == [] <==> q.constraints == []
  {
    var w :| Meets(w, r.constraints);
    assert Satisfies(Provide(r.name, w), r);
    assert Satisfies(Provide(r.name, w), q);
    assert Satisfies(Provide(r.name, ""), r) <==> Satisfies(Provide(r.name, ""), q);
    forall v ensures Meets(v, r.constraints) <==> Meets(v, q.constraints) {
      if Tame(v) {
        assert Satisfies(Provide(r.name, v), r) <==> Satisfies(Provide(r.name, v), q);
      }
    }
  }

  /**
   * Satisfiable requires have one canonical string exactly when they accept the same provides
   * and both, or neither, state how low a version may be.
   */
  lemma CanonicalRequireDecides(r: Require, t: string, q: Require, u: string)
    requires WellStated(r) && WellStated(q) && Renders(t, r) && Renders(u, q)
    ensures t == u <==> SameMeaning(r, q) && (StatesLower(r.constraints) <==> StatesLower(q.constraints))
  {
    var a :| Simplest(r.constraints, a) && t == Render(r.name, a);
    var b :| Simplest(q.constraints, b) && u == Render(q.name, b);
    RenderDecides(r.name, a, q.name, b);
    if t == u {
      SameFormSameSet(a, b);
      MeaningFromSets(r, q);
    } else if SameMeaning(r, q) && (StatesLower(r.constraints) <==> StatesLower(q.constraints)) {
      SetsFromMeaning(r, q);
      var w :| Meets(w, r.constraints);
      assert Meets(w, a);
      OneForm(a, b, w);
    }
  }

  lemma FloorAdmitsAll(v: string)
    requires Tame(v)
    ensures SameSet([Constraint(LTE, v)], [Constraint(GTE, FLOOR), Constraint(LTE, v)])
    ensures Meets(v, [Constraint(LTE, v)])
  {
    var r, q := [Constraint(LTE, v)], [Constraint(GTE, FLOOR), Constraint(LTE, v)];
    TotalPreorder(v, v, v);
    forall x ensures Meets(x, r) <==> Meets(x, q) {
      if Tame(x) {
        FloorIsLeast(x);
        assert HoldsAll(x, r) <==> Holds(x, r[0]);
        assert HoldsAll(x, q) <==> Holds(x, q[0]) && Holds(x, q[1]);
      }
    }
  }

  /** The floor every version has is not added: a set that writes it renders apart from one that does not. */
  lemma UnstatedFloor(name: string, v: string, r: Require, t: string, q: Require, u: string)
    requires Tame(v) && ' ' !in name && Renders(t, r) && Renders(u, q)
    requires r == Require(name, [Constraint(LTE, v)])
    requires q == Require(name, [Constraint(GTE, FLOOR), Constraint(LTE, v)])
    ensures SameMeaning(r, q) && t != u
  {
    FloorAdmitsAll(v);
    assert Meets(v, r.constraints) && Meets(v, q.constraints);
    MeaningFromSets(r, q);
    OneBound(v);
    CanonicalRequireDecides(r, t, q, u);
  }

  lemma OneBound(v: string)
    requires Tame(v)
    ensures TameSet([Constraint(LTE, v)]) && !StatesLower([Constraint(LTE, v)])
    ensures TameSet([Constraint(GTE, FLOOR), Constraint(LTE, v)]) && StatesLower([Constraint(GTE, FLOOR), Constraint(LTE, v)])
  {
    FloorIsLeast(v);
    assert [Constraint(GTE, FLOOR), Constraint(LTE, v)][0].Lower?();
  }
}
