/** The order of dotted versions, its successor, and one spelling of each point in it. */
module Versions {
  import opened Trees
  import opened Strings
  import opened Texts

  predicate IsDigit(c: char) {
    '0' <= c <= '9'
  }

  predicate AllDigits(s: string) {
    s != "" && forall i :: 0 <= i < |s| ==> IsDigit(s[i])
  }

  predicate Letter(c: char) {
    'A' <= c <= 'Z' || 'a' <= c <= 'z'
  }

  /** What the grammar writes between dots. */
  predicate IsSegment(s: string) {
    s != "" && forall i :: 0 <= i < |s| ==> IsDigit(s[i]) || Letter(s[i]) || s[i] == '-'
  }

  predicate Segments(v: seq<string>) {
    forall i :: 0 <= i < |v| ==> IsSegment(v[i])
  }

  function SplitVersion(v: string): seq<string> {
    if v == "" then [] else Split(v, '.')
  }

  /** The segments of a version the grammar admits: a numeric one, then any number more. */
  function ParseVersion(v: string): Option<seq<string>> {
    if v != "" && AllDigits(SplitVersion(v)[0]) && Segments(SplitVersion(v)) then Some(SplitVersion(v)) else None
  }

  predicate IsVersion(v: string) {
    ParseVersion(v).Some?
  }

  predicate NinesThenLetter(s: string) {
    exists k :: 0 < k < |s| && Letter(s[k]) && forall i :: 0 <= i < k ==> s[i] == '9'
  }

  /** A number, or a word that stands on one side of every number: it starts with no digit, or with nines and a letter. */
  predicate TameSegment(s: string) {
    s == "" || AllDigits(s) || !IsDigit(s[0]) || NinesThenLetter(s)
  }

  predicate TameSegments(v: seq<string>) {
    forall i :: 0 <= i < |v| ==> TameSegment(v[i])
  }

  predicate Tame(v: string) {
    match ParseVersion(v)
    case None => false
    case Some(segments) => TameSegments(segments)
  }

  function TrimZeros(s: string): (t: string)
    ensures t == "" || t[0] != '0'
    ensures |t| <= |s| && forall i :: 0 <= i < |t| ==> t[i] in s
  {
    if s != "" && s[0] == '0' then TrimZeros(s[1..]) else s
  }

  function Lexical(a: string, b: string): (c: int)
    ensures -1 <= c <= 1
  {
    if a == b then 0 else if Less(a, b) then -1 else 1
  }

  function CompareDigits(a: string, b: string): (c: int)
    ensures -1 <= c <= 1
  {
    var x, y := TrimZeros(a), TrimZeros(b);
    if |x| != |y| then (if |x| < |y| then -1 else 1) else Lexical(x, y)
  }

  function CompareSegment(a: string, b: string): (c: int)
    ensures -1 <= c <= 1
  {
    if AllDigits(a) && AllDigits(b) then CompareDigits(a, b) else Lexical(a, b)
  }

  function Head(v: seq<string>): string {
    if v == [] then "" else v[0]
  }

  function Tail(v: seq<string>): seq<string> {
    if v == [] then [] else v[1..]
  }

  /** Segment by segment, the shorter padded with empty ones. */
  function CompareSegments(a: seq<string>, b: seq<string>): (c: int)
    ensures -1 <= c <= 1
    decreases |a| + |b|
  {
    if a == [] && b == [] then 0
    else
      var c := CompareSegment(Head(a), Head(b));
      if c != 0 then c else CompareSegments(Tail(a), Tail(b))
  }

  function Compare(a: string, b: string): (c: int)
    ensures -1 <= c <= 1
  {
    CompareSegments(SplitVersion(a), SplitVersion(b))
  }

  /** A segment past the end of the shorter version is empty. */
  function SegmentAt(v: seq<string>, i: nat): string {
    if i < |v| then v[i] else ""
  }

  lemma FromStep(v: seq<string>, i: nat)
    ensures Head(From(v, i)) == SegmentAt(v, i) && Tail(From(v, i)) == From(v, i + 1)
    ensures From(v, i) == [] <==> i >= |v|
  {
  }

  method CompareVersions(a: string, b: string) returns (c: int)
    ensures c == Compare(a, b)
  {
    c := CompareSplit(SplitVersion(a), SplitVersion(b));
  }

  method CompareSplit(xs: seq<string>, ys: seq<string>) returns (c: int)
    ensures c == CompareSegments(xs, ys)
  {
    var i := 0;
    while i < |xs| || i < |ys|
      invariant 0 <= i
      invariant CompareSegments(xs, ys) == CompareSegments(From(xs, i), From(ys, i))
      decreases |xs| + |ys| - i
    {
      var av, bv := SegmentAt(xs, i), SegmentAt(ys, i);
      FromStep(xs, i);
      FromStep(ys, i);
      if AllDigits(av) && AllDigits(bv) {
        c := CompareDigits(av, bv);
        if c != 0 {
          return;
        }
      } else if av != bv {
        return if Less(av, bv) then -1 else 1;
      }
      i := i + 1;
    }
    c := 0;
  }

  function From(v: seq<string>, i: nat): seq<string> {
    if i <= |v| then v[i..] else []
  }

  // Digit strings by value

  function Pow10(n: nat): (p: nat)
    ensures p >= 1
  {
    if n == 0 then 1 else 10 * Pow10(n - 1)
  }

  predicate Digits(s: string) {
    forall i :: 0 <= i < |s| ==> IsDigit(s[i])
  }

  function Digit(c: char): (d: nat)
    requires IsDigit(c)
    ensures d <= 9 && (d == 0 <==> c == '0')
  {
    (c - '0') as nat
  }

  function Value(s: string): nat
    requires Digits(s)
  {
    if s == "" then 0 else Digit(s[0]) * Pow10(|s| - 1) + Value(s[1..])
  }

  lemma LeadingDigit(d: nat, e: nat, p: nat, x: nat, y: nat)
    requires d < e && x < p
    ensures d * p + x < e * p + y
    ensures p <= e * p
  {
    assert (d + 1) * p <= e * p;
  }

  lemma {:induction false} ValueBound(s: string)
    requires Digits(s)
    ensures Value(s) < Pow10(|s|)
    ensures s != "" && s[0] != '0' ==> Value(s) >= Pow10(|s| - 1)
    decreases |s|
  {
    if s != "" {
      ValueBound(s[1..]);
      var d, p := Digit(s[0]), Pow10(|s| - 1);
      LeadingDigit(d, 10, p, Value(s[1..]), 0);
      if d > 0 {
        LeadingDigit(0, d, p, 0, 0);
      }
    }
  }

  lemma {:induction false} TrimZerosValue(s: string)
    requires Digits(s)
    ensures Digits(TrimZeros(s)) && Value(TrimZeros(s)) == Value(s)
    decreases |s|
  {
    if s != "" && s[0] == '0' {
      TrimZerosValue(s[1..]);
    }
  }

  lemma {:induction false} LexicalIsValue(a: string, b: string)
    requires Digits(a) && Digits(b) && |a| == |b|
    ensures Lexical(a, b) == Sign(Value(a) - Value(b))
    decreases |a|
  {
    if a != "" {
      LexicalIsValue(a[1..], b[1..]);
      ValueBound(a[1..]);
      ValueBound(b[1..]);
      var p, d, e := Pow10(|a| - 1), Digit(a[0]), Digit(b[0]);
      if d < e {
        LeadingDigit(d, e, p, Value(a[1..]), Value(b[1..]));
      } else if e < d {
        LeadingDigit(e, d, p, Value(b[1..]), Value(a[1..]));
      }
      assert a == [a[0]] + a[1..] && b == [b[0]] + b[1..];
    }
  }

  function Sign(n: int): int {
    if n < 0 then -1 else if n == 0 then 0 else 1
  }

  lemma {:induction false} Pow10Grows(m: nat, n: nat)
    requires m <= n
    ensures Pow10(m) <= Pow10(n)
    decreases n
  {
    if m < n {
      Pow10Grows(m, n - 1);
    }
  }

  /** Digit strings of any length compare as the numbers they write. */
  lemma CompareDigitsIsValue(a: string, b: string)
    requires Digits(a) && Digits(b)
    ensures CompareDigits(a, b) == Sign(Value(a) - Value(b))
  {
    var x, y := TrimZeros(a), TrimZeros(b);
    TrimZerosValue(a);
    TrimZerosValue(b);
    ValueBound(x);
    ValueBound(y);
    if |x| < |y| {
      Pow10Grows(|x|, |y| - 1);
    } else if |y| < |x| {
      Pow10Grows(|y|, |x| - 1);
    } else {
      LexicalIsValue(x, y);
    }
  }

  // The order

  lemma LexicalOrder(a: string, b: string, c: string)
    ensures Lexical(a, b) == -Lexical(b, a)
    ensures Lexical(a, b) <= 0 && Lexical(b, c) <= 0 ==> Lexical(a, c) <= 0
  {
    LessTotal(a, b);
    if Less(a, b) { LessAsymmetric(a, b); }
    if Less(b, a) { LessAsymmetric(b, a); }
    if Less(a, b) && Less(b, c) { LessTransitive(a, b, c); }
  }

  lemma CompareSegmentMirrored(a: string, b: string)
    ensures CompareSegment(a, b) == -CompareSegment(b, a)
  {
    if AllDigits(a) && AllDigits(b) {
      CompareDigitsIsValue(a, b);
      CompareDigitsIsValue(b, a);
    } else {
      LexicalOrder(a, b, a);
    }
  }

  /** Where a word stands against every number: a tame one is on one side of them all. */
  lemma WordAgainstNumbers(w: string, n: string)
    requires TameSegment(w) && !AllDigits(w) && AllDigits(n)
    ensures CompareSegment(w, n) == CompareSegment(w, "0")
    ensures CompareSegment(w, n) != 0
  {
    assert AllDigits("0") && IsDigit(n[0]);
    if w != "" && IsDigit(w[0]) {
      var k :| 0 < k < |w| && Letter(w[k]) && forall i :: 0 <= i < k ==> w[i] == '9';
      NinesAbove(w, k, n);
      NinesAbove(w, k, "0");
      LessAsymmetric(n, w);
      LessAsymmetric("0", w);
    }
  }

  lemma {:induction false} NinesAbove(w: string, k: nat, n: string)
    requires k < |w| && Letter(w[k]) && (forall i :: 0 <= i < k ==> w[i] == '9') && Digits(n)
    ensures Less(n, w)
    decreases k
  {
    if n != "" && n[0] == w[0] {
      NinesAbove(w[1..], k - 1, n[1..]);
    }
  }

  lemma CompareSegmentTransitive(a: string, b: string, c: string)
    requires TameSegment(a) && TameSegment(b) && TameSegment(c)
    requires CompareSegment(a, b) <= 0 && CompareSegment(b, c) <= 0
    ensures CompareSegment(a, c) <= 0
    ensures CompareSegment(a, c) == 0 ==> CompareSegment(a, b) == 0 && CompareSegment(b, c) == 0
  {
    CompareSegmentMirrored(a, b);
    CompareSegmentMirrored(b, c);
    CompareSegmentMirrored(a, c);
    if AllDigits(a) && AllDigits(b) && AllDigits(c) {
      CompareDigitsIsValue(a, b);
      CompareDigitsIsValue(b, c);
      CompareDigitsIsValue(a, c);
    } else {
      LexicalOrder(a, b, c);
      LexicalOrder(b, c, a);
      LexicalOrder(c, a, b);
      if !AllDigits(a) && AllDigits(b) && AllDigits(c) {
        WordAgainstNumbers(a, b);
        WordAgainstNumbers(a, c);
      } else if AllDigits(a) && AllDigits(b) && !AllDigits(c) {
        WordAgainstNumbers(c, b);
        WordAgainstNumbers(c, a);
      } else if AllDigits(a) && !AllDigits(b) && AllDigits(c) {
        WordAgainstNumbers(b, a);
        WordAgainstNumbers(b, c);
      }
    }
  }

  lemma {:induction false} SegmentsReflexive(a: seq<string>)
    ensures CompareSegments(a, a) == 0
    decreases |a|
  {
    if a != [] {
      SegmentsReflexive(a[1..]);
    }
  }

  lemma {:induction false} SegmentsMirrored(a: seq<string>, b: seq<string>)
    ensures CompareSegments(a, b) == -CompareSegments(b, a)
    decreases |a| + |b|
  {
    if a != [] || b != [] {
      CompareSegmentMirrored(Head(a), Head(b));
      SegmentsMirrored(Tail(a), Tail(b));
    }
  }

  lemma {:induction false} SegmentsTransitive(a: seq<string>, b: seq<string>, c: seq<string>)
    requires TameSegments(a) && TameSegments(b) && TameSegments(c)
    requires CompareSegments(a, b) <= 0 && CompareSegments(b, c) <= 0
    ensures CompareSegments(a, c) <= 0
    ensures CompareSegments(a, c) == 0 ==> CompareSegments(a, b) == 0 && CompareSegments(b, c) == 0
    decreases |a| + |b| + |c|
  {
    if a != [] || b != [] || c != [] {
      CompareSegmentTransitive(Head(a), Head(b), Head(c));
      var x, y, z := CompareSegment(Head(a), Head(b)), CompareSegment(Head(b), Head(c)), CompareSegment(Head(a), Head(c));
      assert CompareSegment("", "") == 0;
      if x == 0 && y == 0 {
        CompareSegmentMirrored(Head(a), Head(b));
        CompareSegmentMirrored(Head(b), Head(c));
        CompareSegmentMirrored(Head(a), Head(c));
        CompareSegmentTransitive(Head(c), Head(b), Head(a));
        SegmentsTransitive(Tail(a), Tail(b), Tail(c));
      }
    }
  }

  /** Over tame versions the comparison is a total preorder. */
  lemma TotalPreorder(a: string, b: string, c: string)
    ensures Compare(a, a) == 0 && Compare(a, b) == -Compare(b, a)
    ensures Tame(a) && Tame(b) && Tame(c) && Compare(a, b) <= 0 && Compare(b, c) <= 0 ==>
      Compare(a, c) <= 0 && (Compare(a, c) == 0 ==> Compare(a, b) == 0 && Compare(b, c) == 0)
  {
    SegmentsReflexive(SplitVersion(a));
    SegmentsMirrored(SplitVersion(a), SplitVersion(b));
    if Tame(a) && Tame(b) && Tame(c) && Compare(a, b) <= 0 && Compare(b, c) <= 0 {
      SegmentsTransitive(SplitVersion(a), SplitVersion(b), SplitVersion(c));
    }
  }

  // The successor

  function Next(v: string): string {
    v + ".-"
  }

  lemma NextSegments(v: string)
    requires v != ""
    ensures SplitVersion(Next(v)) == SplitVersion(v) + ["-"]
    ensures IsVersion(v) ==> IsVersion(Next(v))
    ensures Tame(v) ==> Tame(Next(v))
  {
    assert Next(v) == v + ['.'] + "-";
    SplitLast(v, "-", '.');
  }

  lemma {:induction false} AgainstNothing(v: seq<string>)
    requires Segments(v)
    ensures if v == [] then CompareSegments(v, []) == 0 else CompareSegments(v, []) > 0
  {
  }

  /** "-" is the least segment the grammar writes. */
  lemma DashIsLeast(s: string)
    requires IsSegment(s)
    ensures CompareSegment(s, "-") >= 0
    ensures CompareSegment(s, "-") == 0 <==> s == "-"
  {
    assert !AllDigits("-") by { assert "-"[0] == '-'; }
    if s != "-" {
      LessTotal(s, "-");
      assert !Less(s, "-");
    }
  }

  lemma {:induction false} SegmentsSuccessor(w: seq<string>, v: seq<string>)
    requires Segments(w) && Segments(v)
    ensures CompareSegments(w, v) > 0 <==> CompareSegments(w, v + ["-"]) >= 0
    decreases |w|, |v|
  {
    var n := v + ["-"];
    if v == [] {
      AgainstNothing(w);
      if w != [] {
        DashIsLeast(w[0]);
        AgainstNothing(w[1..]);
        assert Tail(n) == [];
      }
    } else if w != [] {
      assert Head(n) == v[0] && Tail(n) == v[1..] + ["-"];
      SegmentsSuccessor(w[1..], v[1..]);
    }
  }

  /** Nothing lies between a version and its successor. */
  lemma SuccessorIsNext(w: string, v: string)
    requires IsVersion(w) && IsVersion(v)
    ensures Compare(w, v) > 0 <==> Compare(w, Next(v)) >= 0
  {
    NextSegments(v);
    SegmentsSuccessor(SplitVersion(w), SplitVersion(v));
  }

  /** A version that ends like a successor is one. */
  lemma SuffixIsSuccessor(v: string)
    requires IsVersion(Next(v))
    ensures IsVersion(v) && (Tame(Next(v)) ==> Tame(v))
  {
    assert Next(v) == v + ['.'] + "-";
    SplitLast(v, "-", '.');
    var parts := SplitVersion(Next(v));
    assert Split(v, '.') == parts[..|parts| - 1];
    assert v == "" ==> parts == ["", "-"];
  }

  // One spelling of each point

  function CanonicalSegment(s: string): string {
    if !AllDigits(s) then s
    else if TrimZeros(s) != "" then TrimZeros(s)
    else "0"
  }

  function CanonicalSegments(v: seq<string>): (c: seq<string>)
    ensures |c| == |v| && forall i :: 0 <= i < |v| ==> c[i] == CanonicalSegment(v[i])
  {
    if v == [] then [] else [CanonicalSegment(v[0])] + CanonicalSegments(v[1..])
  }

  function Canonical(v: string): string {
    Join(CanonicalSegments(SplitVersion(v)), '.')
  }

  method CanonicalVersion(v: string) returns (c: string)
    ensures c == Canonical(v)
  {
    var segments := SplitVersion(v);
    var was := segments;
    for i := 0 to |segments|
      invariant |segments| == |was|
      invariant forall j :: 0 <= j < |was| ==> segments[j] == if j < i then CanonicalSegment(was[j]) else was[j]
    {
      if AllDigits(segments[i]) {
        var trimmed := TrimZeros(segments[i]);
        segments := segments[i := if trimmed != "" then trimmed else "0"];
      }
    }
    assert segments == CanonicalSegments(was);
    c := Join(segments, '.');
  }

  lemma CanonicalSegmentDecides(a: string, b: string)
    ensures CompareSegment(a, b) == 0 <==> CanonicalSegment(a) == CanonicalSegment(b)
  {
    if AllDigits(a) && AllDigits(b) {
      var x, y := TrimZeros(a), TrimZeros(b);
      assert x != "0" && y != "0";
    } else if AllDigits(a) || AllDigits(b) {
      var n, w := if AllDigits(a) then a else b, if AllDigits(a) then b else a;
      assert AllDigits(CanonicalSegment(n)) by {
        assert forall i :: 0 <= i < |TrimZeros(n)| ==> TrimZeros(n)[i] in n;
      }
    }
  }

  lemma {:induction false} CanonicalSegmentsDecide(a: seq<string>, b: seq<string>)
    requires Segments(a) && Segments(b)
    ensures CompareSegments(a, b) == 0 <==> CanonicalSegments(a) == CanonicalSegments(b)
    decreases |a|
  {
    if a == [] || b == [] {
      AgainstNothing(a);
      SegmentsMirrored(a, b);
      AgainstNothing(b);
    } else {
      CanonicalSegmentDecides(a[0], b[0]);
      CanonicalSegmentsDecide(a[1..], b[1..]);
      assert CanonicalSegments(a)[1..] == CanonicalSegments(a[1..]);
      assert CanonicalSegments(b)[1..] == CanonicalSegments(b[1..]);
    }
  }

  lemma CanonicalSegmentIn(s: string)
    requires IsSegment(s)
    ensures IsSegment(CanonicalSegment(s)) && '.' !in CanonicalSegment(s)
    ensures AllDigits(s) ==> AllDigits(CanonicalSegment(s))
    ensures TameSegment(s) ==> TameSegment(CanonicalSegment(s))
  {
    assert forall i :: 0 <= i < |TrimZeros(s)| ==> TrimZeros(s)[i] in s;
  }

  lemma CanonicalSplit(v: string)
    requires IsVersion(v)
    ensures SplitVersion(Canonical(v)) == CanonicalSegments(SplitVersion(v))
    ensures IsVersion(Canonical(v))
  {
    var parts := CanonicalSegments(SplitVersion(v));
    forall i | 0 <= i < |parts| ensures IsSegment(parts[i]) && '.' !in parts[i] {
      CanonicalSegmentIn(SplitVersion(v)[i]);
    }
    CanonicalSegmentIn(SplitVersion(v)[0]);
    SplitJoin(parts, '.');
    assert parts[0] != "";
  }

  /** Two versions compare equal exactly when they have one canonical spelling. */
  lemma CanonicalDecides(a: string, b: string)
    requires IsVersion(a) && IsVersion(b)
    ensures Compare(a, b) == 0 <==> Canonical(a) == Canonical(b)
  {
    CanonicalSegmentsDecide(SplitVersion(a), SplitVersion(b));
    CanonicalSplit(a);
    CanonicalSplit(b);
  }

  /** The canonical spelling is a version, of the same point, and its own canonical spelling. */
  lemma CanonicalIsVersion(v: string)
    requires IsVersion(v)
    ensures IsVersion(Canonical(v)) && Compare(v, Canonical(v)) == 0 && Canonical(Canonical(v)) == Canonical(v)
    ensures Tame(v) ==> Tame(Canonical(v))
  {
    CanonicalSplit(v);
    var parts := SplitVersion(v);
    var c := CanonicalSegments(parts);
    assert CanonicalSegments(c) == c by {
      forall i | 0 <= i < |c| ensures CanonicalSegment(c[i]) == c[i] {
        CanonicalSegmentIn(parts[i]);
      }
    }
    CanonicalDecides(v, Canonical(v));
    if Tame(v) {
      forall i | 0 <= i < |c| ensures TameSegment(c[i]) {
        CanonicalSegmentIn(parts[i]);
      }
    }
  }
}
