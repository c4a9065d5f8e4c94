/** Go's path functions, on strings given by their segments. */
module PathNames {
  import opened Trees

  const MAX_PATH_LEN := 4095

  predicate IsAbs(p: Raw) {
    |p| > 1 && p[0] == ""
  }

  /** A name that stands for itself in a path. */
  predicate Plain(seg: string) {
    seg != "" && seg != "." && seg != ".."
  }

  ghost predicate AllPlain(p: Path) {
    forall i :: 0 <= i < |p| ==> Plain(p[i])
  }

  /** One segment, read from the directory `cur`. */
  function Step(cur: Path, seg: string): (r: Path)
    ensures AllPlain(cur) ==> AllPlain(r)
    ensures |r| <= |cur| || r == cur + [seg]
  {
    if seg == "" || seg == "." then cur
    else if seg == ".." then (if cur == [] then [] else Parent(cur))
    else cur + [seg]
  }

  /** path.Clean of `segs` read from the directory `cur`. */
  function Norm(cur: Path, segs: seq<string>): Path
    decreases |segs|
  {
    if segs == [] then cur else Norm(Step(cur, segs[0]), segs[1..])
  }

  lemma {:induction false} NormAppend(cur: Path, a: seq<string>, b: seq<string>)
    ensures Norm(cur, a + b) == Norm(Norm(cur, a), b)
    decreases |a|
  {
    if a == [] {
      assert a + b == b;
    } else {
      assert (a + b)[1..] == a[1..] + b;
      NormAppend(Step(cur, a[0]), a[1..], b);
    }
  }

  lemma {:induction false} NormPlain(cur: Path, segs: seq<string>)
    requires AllPlain(cur)
    ensures AllPlain(Norm(cur, segs))
    decreases |segs|
  {
    if segs != [] {
      NormPlain(Step(cur, segs[0]), segs[1..]);
    }
  }

  lemma {:induction false} NormOfPlain(cur: Path, p: Path)
    requires AllPlain(p)
    ensures Norm(cur, p) == cur + p
    decreases |p|
  {
    if p != [] {
      assert Plain(p[0]);
      assert AllPlain(p[1..]);
      NormOfPlain(cur + [p[0]], p[1..]);
      assert cur + [p[0]] + p[1..] == cur + p;
    }
  }

  /** A clean absolute path as a string. */
  function Abs(p: Path): Raw {
    if p == [] then ["", ""] else [""] + p
  }

  lemma NormAbs(p: Path)
    requires AllPlain(p)
    ensures Norm([], Abs(p)) == p
  {
    if p == [] {
      assert ["", ""][1..] == [""];
    } else {
      NormOfPlain([], p);
      assert Abs(p)[1..] == p;
    }
  }

  function RelStep(out: seq<string>, seg: string): seq<string> {
    if seg == "" || seg == "." then out
    else if seg == ".." && out != [] && out[|out| - 1] != ".." then out[..|out| - 1]
    else out + [seg]
  }

  function RelNorm(out: seq<string>, segs: seq<string>): seq<string>
    decreases |segs|
  {
    if segs == [] then out else RelNorm(RelStep(out, segs[0]), segs[1..])
  }

  /** path.Clean. */
  function Clean(p: Raw): Raw {
    if IsAbs(p) then Abs(Norm([], p))
    else if RelNorm([], p) == [] then ["."]
    else RelNorm([], p)
  }

  /** path.Join of two strings. */
  function Join(a: Raw, b: Raw): Raw {
    if a == [""] then (if b == [""] then b else Clean(b))
    else if b == [""] then Clean(a)
    else Clean(a + b)
  }

  /** The length of a clean absolute path in bytes. */
  function AbsLen(p: Path): nat {
    if p == [] then 1 else SegsLen(p)
  }

  function SegsLen(p: seq<string>): nat {
    if p == [] then 0 else SegsLen(p[..|p| - 1]) + 1 + |p[|p| - 1]|
  }

  /** The length of any path string in bytes. */
  function RawLen(p: Raw): nat {
    assert SegsLen(p) >= 1;
    SegsLen(p) - 1
  }
}
