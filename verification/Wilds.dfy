/** The versions outside the order: exactly which ones break it. */
module Wilds {
  import opened Strings
  import opened Texts
  import opened Versions

  // Words among the numbers

  function Run(c: char, n: nat): (s: string)
    ensures |s| == n && forall i :: 0 <= i < n ==> s[i] == c
  {
    seq(n, _ => c)
  }

  lemma {:induction false} NinesValue(s: string)
    requires forall i :: 0 <= i < |s| ==> s[i] == '9'
    ensures Digits(s) && Value(s) == Pow10(|s|) - 1
    decreases |s|
  {
    if s != "" {
      NinesValue(s[1..]);
    }
  }

  lemma {:induction false} ZerosValue(s: string)
    requires forall i :: 0 <= i < |s| ==> s[i] == '0'
    ensures Digits(s) && Value(s) == 0
    decreases |s|
  {
    if s != "" {
      ZerosValue(s[1..]);
    }
  }

  lemma TailValue(s: string)
    requires Digits(s) && s != ""
    ensures Value(s) >= Value(s[1..])
  {
    var d, p := Digit(s[0]), Pow10(|s| - 1);
    assert d * p >= 0;
  }

  lemma {:induction false} AppendedValue(x: string, y: string)
    requires Digits(x) && Digits(y)
    ensures Digits(x + y) && Value(x + y) >= Value(y)
    decreases |x|
  {
    if x == "" {
      assert x + y == y;
    } else {
      AppendedValue(x[1..], y);
      assert (x + y)[1..] == x[1..] + y;
      TailValue(x + y);
    }
  }

  /** No number of so many digits is above one that ends with as many nines. */
  lemma NinesReach(n: string, x: string, t: nat)
    requires Digits(n) && Digits(x) && |n| <= t
    ensures Digits(x + Run('9', t)) && CompareDigits(n, x + Run('9', t)) <= 0
  {
    var y := Run('9', t);
    NinesValue(y);
    AppendedValue(x, y);
    ValueBound(n);
    Pow10Grows(|n|, t);
    CompareDigitsIsValue(n, x + y);
  }

  /** How many digits a segment starts with. */
  lemma LeadingDigits(w: string) returns (k: nat)
    ensures k <= |w| && (forall i :: 0 <= i < k ==> IsDigit(w[i])) && (k < |w| ==> !IsDigit(w[k]))
  {
    k := 0;
    while k < |w| && IsDigit(w[k])
      invariant k <= |w| && forall i :: 0 <= i < k ==> IsDigit(w[i])
    {
      k := k + 1;
    }
  }

  lemma FirstOther(w: string, c: char, k: nat) returns (j: nat)
    requires k <= |w|
    ensures j <= k && (forall i :: 0 <= i < j ==> w[i] == c) && (j < k ==> w[j] != c)
  {
    j := 0;
    while j < k && w[j] == c
      invariant j <= k && forall i :: 0 <= i < j ==> w[i] == c
    {
      j := j + 1;
    }
  }

  /** A word that is not tame is above one number and below another that the numbers put the other way round. */
  ghost predicate Straddles(m: string, w: string, n: string) {
    AllDigits(m) && AllDigits(n) && CompareSegment(m, w) < 0 && CompareSegment(w, n) < 0 && CompareSegment(n, m) <= 0
  }

  lemma WildSegmentBreaks(w: string) returns (m: string, n: string)
    requires IsSegment(w) && !TameSegment(w)
    ensures Straddles(m, w, n)
  {
    var k := LeadingDigits(w);
    if w[k] == '-' {
      m, n := BeforeHyphen(w, k);
    } else {
      m, n := BeforeLetter(w, k);
    }
  }

  lemma BeforeLetter(w: string, k: nat) returns (m: string, n: string)
    requires 0 < k < |w| && (forall i :: 0 <= i < k ==> IsDigit(w[i])) && Letter(w[k]) && !TameSegment(w)
    ensures Straddles(m, w, n)
  {
    var j := FirstOther(w, '9', k);
    assert j < k;
    var d, y := w[..k], Run('9', k);
    m, n := d + y, y;
    NinesReach(n, d, k);
    assert m[..k] == d && n[..j] == w[..j];
    LessAt(m, w, k);
    LessAt(w, n, j);
    LessAsymmetric(w, n);
  }

  lemma BeforeHyphen(w: string, k: nat) returns (m: string, n: string)
    requires 0 < k < |w| && (forall i :: 0 <= i < k ==> IsDigit(w[i])) && w[k] == '-'
    ensures Straddles(m, w, n)
  {
    var j := FirstOther(w, '0', k);
    var d := w[..k];
    n := d + "0";
    assert n[..k] == w[..k];
    LessAt(w, n, k);
    if j < k {
      var z := Run('0', k);
      m := z + Run('9', k + 1);
      NinesReach(n, z, k + 1);
      assert m[..j] == w[..j];
      LessAt(m, w, j);
    } else {
      m := d;
      ZerosValue(m);
      ZerosValue(n);
      CompareDigitsIsValue(n, m);
      LessAt(m, w, k);
    }
  }

  /** A word stands on one side of all numbers exactly when it is tame. */
  lemma TameIsOneSided(w: string)
    requires IsSegment(w) && !AllDigits(w)
    ensures TameSegment(w) <==>
      || (forall n :: AllDigits(n) ==> CompareSegment(w, n) < 0)
      || (forall n :: AllDigits(n) ==> CompareSegment(w, n) > 0)
  {
    if TameSegment(w) {
      assert AllDigits("0");
      forall n | AllDigits(n) ensures CompareSegment(w, n) == CompareSegment(w, "0") != 0 {
        WordAgainstNumbers(w, n);
      }
    } else {
      var m, n := WildSegmentBreaks(w);
      CompareSegmentMirrored(m, w);
    }
  }

  // Versions that have no place in the order

  /** The same segments, up to spelling. */
  predicate Alike(p: seq<string>, q: seq<string>) {
    |p| == |q| && forall i :: 0 <= i < |p| ==> CompareSegment(p[i], q[i]) == 0
  }

  lemma AfterHead(x: seq<string>, y: seq<string>)
    requires x != [] && y != [] && CompareSegment(x[0], y[0]) == 0
    ensures CompareSegments(x, y) == CompareSegments(x[1..], y[1..])
  {
  }

  lemma TailOfSum(p: seq<string>, a: seq<string>)
    requires p != []
    ensures (p + a)[0] == p[0] && (p + a)[1..] == p[1..] + a
  {
  }

  lemma AlikeTail(p: seq<string>, q: seq<string>)
    requires Alike(p, q) && p != []
    ensures Alike(p[1..], q[1..]) && CompareSegment(p[0], q[0]) == 0
  {
    assert forall i :: 0 <= i < |p| - 1 ==> p[1..][i] == p[i + 1] && q[1..][i] == q[i + 1];
  }

  /** Versions that begin alike compare as what follows. */
  lemma {:induction false} AfterPrefix(p: seq<string>, a: seq<string>, q: seq<string>, b: seq<string>)
    requires Alike(p, q)
    ensures CompareSegments(p + a, q + b) == CompareSegments(a, b)
    decreases |p|
  {
    if p == [] {
      assert p + a == a && q + b == b;
    } else {
      AlikeTail(p, q);
      TailOfSum(p, a);
      TailOfSum(q, b);
      AfterHead(p + a, q + b);
      AfterPrefix(p[1..], a, q[1..], b);
    }
  }

  lemma SelfAlike(p: seq<string>)
    ensures Alike(p, p)
  {
    forall i | 0 <= i < |p| ensures CompareSegment(p[i], p[i]) == 0 {
      CompareSegmentMirrored(p[i], p[i]);
    }
  }

  lemma FirstWild(v: seq<string>) returns (i: nat)
    requires !TameSegments(v)
    ensures i < |v| && !TameSegment(v[i]) && TameSegments(v[..i])
  {
    i := 0;
    while TameSegment(v[i])
      invariant i < |v| && TameSegments(v[..i]) && exists j :: i <= j < |v| && !TameSegment(v[j])
      decreases |v| - i
    {
      i := i + 1;
    }
  }

  lemma Assembled(p: seq<string>)
    requires p != [] && Segments(p) && AllDigits(p[0])
    ensures SplitVersion(Join(p, '.')) == p && IsVersion(Join(p, '.')) && (Tame(Join(p, '.')) <==> TameSegments(p))
  {
    assert Free(p, '.') by {
      forall i | 0 <= i < |p| ensures '.' !in p[i] { assert IsSegment(p[i]); }
    }
    SplitJoin(p, '.');
    assert IsSegment(p[0]);
  }

  /** Whatever tame version it is under, it is under all those above. */
  ghost predicate Fits(v: string) {
    forall x, y :: Tame(x) && Tame(y) && Compare(v, y) <= 0 && Compare(y, x) <= 0 ==> Compare(v, x) <= 0
  }

  /** The order over tame versions takes in no other: a version keeps its laws beside them exactly when it is tame. */
  lemma TameIsLargest(v: string)
    requires IsVersion(v)
    ensures Tame(v) <==> Fits(v)
  {
    if Tame(v) {
      forall x, y | Tame(x) && Tame(y) && Compare(v, y) <= 0 && Compare(y, x) <= 0 ensures Compare(v, x) <= 0 {
        TotalPreorder(v, y, x);
      }
    } else {
      var parts := SplitVersion(v);
      var i := FirstWild(parts);
      assert IsSegment(parts[i]) && i > 0;
      var m, n := WildSegmentBreaks(parts[i]);
      Misplaced(v, i, m, n);
    }
  }

  lemma Misplaced(v: string, i: nat, m: string, n: string)
    requires IsVersion(v) && 0 < i < |SplitVersion(v)| && TameSegments(SplitVersion(v)[..i])
    requires Straddles(m, SplitVersion(v)[i], n)
    ensures !Fits(v)
  {
    var parts := SplitVersion(v);
    var p, x, y := parts[..i], Join(parts[..i] + [m], '.'), Join(parts[..i] + [n], '.');
    Assembled(p + [m]);
    Assembled(p + [n]);
    assert parts == p + parts[i..];
    SelfAlike(p);
    AfterPrefix(p, parts[i..], p, [n]);
    AfterPrefix(p, [n], p, [m]);
    AfterPrefix(p, [m], p, parts[i..]);
    SegmentsMirrored(SplitVersion(x), parts);
    assert Compare(v, y) < 0 && Compare(y, x) <= 0 && Compare(v, x) > 0;
  }

  lemma ShortVersion(v: string, s: string)
    requires IsSegment(s) && v == "1." + s
    ensures SplitVersion(v) == ["1", s] && IsVersion(v)
  {
    assert v == "1" + ['.'] + s;
    SplitFirst("1", s, '.');
    SplitWhole(s, '.');
  }

  /** 1.9, 1.10 and 1.1a go round in a circle. */
  lemma WildCircle(a: string, b: string, c: string)
    requires a == "1." + "9" && b == "1." + "10" && c == "1." + "1a"
    ensures IsVersion(a) && IsVersion(b) && IsVersion(c)
    ensures Compare(a, b) < 0 && Compare(b, c) < 0 && Compare(c, a) < 0
  {
    ShortVersion(a, "9");
    ShortVersion(b, "10");
    ShortVersion(c, "1a");
    WildSegments();
    OnePoint("9", "10");
    OnePoint("10", "1a");
    OnePoint("1a", "9");
  }

  lemma WildSegments()
    ensures CompareSegment("9", "10") < 0 && CompareSegment("10", "1a") < 0 && CompareSegment("1a", "9") < 0
  {
    assert TrimZeros("9") == "9" && TrimZeros("10") == "10";
    assert "1a"[1] == 'a' && !AllDigits("1a");
    assert Less("10"[1..], "1a"[1..]);
  }

  lemma OnePoint(s: string, t: string)
    requires CompareSegment(s, t) < 0
    ensures CompareSegments(["1", s], ["1", t]) < 0
  {
    assert CompareSegment("1", "1") == 0;
    assert ["1", s][1..] == [s] && ["1", t][1..] == [t];
  }
}
