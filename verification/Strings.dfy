/** Byte strings in Go's order, and the sorted spelling of a set of them. */
module Strings {

  predicate Less(a: string, b: string) {
    if b == "" then false
    else if a == "" then true
    else a[0] < b[0] || (a[0] == b[0] && Less(a[1..], b[1..]))
  }

  lemma {:induction false} LessIrreflexive(a: string)
    ensures !Less(a, a)
    decreases |a|
  {
    if a != "" {
      LessIrreflexive(a[1..]);
    }
  }

  lemma {:induction false} LessTransitive(a: string, b: string, c: string)
    requires Less(a, b) && Less(b, c)
    ensures Less(a, c)
    decreases |a|
  {
    if a != "" && a[0] == b[0] == c[0] {
      LessTransitive(a[1..], b[1..], c[1..]);
    }
  }

  lemma {:induction false} LessTotal(a: string, b: string)
    ensures Less(a, b) || Less(b, a) || a == b
    decreases |a|
  {
    if a != "" && b != "" && a[0] == b[0] {
      LessTotal(a[1..], b[1..]);
      if a[1..] == b[1..] {
        assert a == [a[0]] + a[1..] && b == [b[0]] + b[1..];
      }
    }
  }

  lemma LessAsymmetric(a: string, b: string)
    requires Less(a, b)
    ensures !Less(b, a) && a != b
  {
    LessIrreflexive(a);
    if Less(b, a) {
      LessTransitive(a, b, a);
    }
  }

  /** The first place they differ decides. */
  lemma {:induction false} LessAt(a: string, b: string, k: nat)
    requires k <= |a| && k < |b| && a[..k] == b[..k] && (k == |a| || a[k] < b[k])
    ensures Less(a, b)
    decreases k
  {
    if k > 0 {
      assert a[..k][0] == b[..k][0];
      assert a[1..][..k - 1] == a[..k][1..] && b[1..][..k - 1] == b[..k][1..];
      LessAt(a[1..], b[1..], k - 1);
    }
  }

  ghost predicate Ascending(s: seq<string>) {
    forall i, j :: 0 <= i < j < |s| ==> Less(s[i], s[j])
  }

  ghost predicate Spells(s: seq<string>, names: set<string>) {
    Ascending(s) && forall x :: x in names <==> x in s
  }

  /** A set has one ascending spelling. */
  lemma {:induction false} SpellingUnique(a: seq<string>, b: seq<string>, names: set<string>)
    requires Spells(a, names) && Spells(b, names)
    ensures a == b
    decreases |a|
  {
    assert |b| == 0 || b[0] in b;
    assert forall x :: x in b ==> x in a;
    if a != [] {
      assert a[0] in names;
      assert a[0] in b;
      assert b[0] in names;
      assert b[0] in a;
      var i :| 0 <= i < |b| && b[i] == a[0];
      var j :| 0 <= j < |a| && a[j] == b[0];
      if i > 0 && j > 0 {
        LessAsymmetric(a[0], a[j]);
        assert false;
      }
      assert a[0] == b[0];
      SpellsRest(a, names);
      SpellsRest(b, names);
      SpellingUnique(a[1..], b[1..], names - {a[0]});
      assert a == [a[0]] + a[1..] && b == [b[0]] + b[1..];
    }
  }

  lemma SpellsRest(a: seq<string>, names: set<string>)
    requires Spells(a, names) && a != []
    ensures Spells(a[1..], names - {a[0]})
  {
    LessIrreflexive(a[0]);
    assert forall k :: 1 <= k < |a| ==> Less(a[0], a[k]);
    forall x
      ensures x in names - {a[0]} <==> x in a[1..]
    {
      if x in a && x != a[0] {
        var k :| 0 <= k < |a| && a[k] == x;
        assert a[1..][k - 1] == x;
      }
    }
  }

  /** Where `x` goes in an ascending sequence it is not in. */
  function Insert(x: string, s: seq<string>): (r: seq<string>)
    ensures |r| == |s| + 1
  {
    if s == [] then [x]
    else if Less(x, s[0]) then [x] + s
    else [s[0]] + Insert(x, s[1..])
  }

  lemma {:induction false} InsertSpells(x: string, s: seq<string>, names: set<string>)
    requires Spells(s, names) && x !in names
    ensures Spells(Insert(x, s), names + {x})
    decreases |s|
  {
    var r := Insert(x, s);
    if s == [] {
      assert names == {};
    } else if Less(x, s[0]) {
      forall k | 0 <= k < |s|
        ensures Less(x, s[k])
      {
        if k > 0 { LessTransitive(x, s[0], s[k]); }
      }
      assert r == [x] + s;
    } else {
      assert s[0] in names;
      LessTotal(x, s[0]);
      SpellsRest(s, names);
      InsertSpells(x, s[1..], names - {s[0]});
      var rest := Insert(x, s[1..]);
      forall k | 0 <= k < |rest|
        ensures Less(s[0], rest[k])
      {
        assert rest[k] in rest;
        if rest[k] != x {
          assert rest[k] in s[1..];
          var m :| 0 <= m < |s[1..]| && s[1..][m] == rest[k];
          assert s[m + 1] == rest[k];
        }
      }
      assert r == [s[0]] + rest;
      forall y
        ensures y in r <==> y in names + {x}
      {
        assert y in r <==> y == s[0] || y in rest;
      }
    }
  }

  lemma {:induction false} SpellingExists(names: set<string>)
    ensures exists s :: Spells(s, names)
    decreases |names|
  {
    if names == {} {
      assert Spells([], names);
    } else {
      var x :| x in names;
      SpellingExists(names - {x});
      var s :| Spells(s, names - {x});
      InsertSpells(x, s, names - {x});
      assert names - {x} + {x} == names;
    }
  }

  /** The names in ascending order. */
  ghost function Sorted(names: set<string>): (s: seq<string>)
    ensures Spells(s, names)
  {
    SpellingExists(names);
    var s :| Spells(s, names);
    s
  }

  /** sort.Strings over a map's keys. */
  method SortNames(names: set<string>) returns (s: seq<string>)
    ensures s == Sorted(names)
  {
    s := [];
    var left := names;
    while left != {}
      invariant left <= names && Spells(s, names - left)
      decreases left
    {
      var x :| x in left;
      InsertSpells(x, s, names - left);
      assert names - left + {x} == names - (left - {x});
      s, left := Insert(x, s), left - {x};
    }
    assert names - left == names;
    SpellingUnique(s, Sorted(names), names);
  }
}
