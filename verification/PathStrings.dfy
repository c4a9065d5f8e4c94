/** What the path functions do to the strings they stand for. */
module PathStrings {
  import opened Trees
  import opened PathNames
  import opened WalkFacts
  import opened Extraction
  import Texts

  /** The string of a path. */
  function Text(p: Raw): string {
    Texts.Join(p, '/')
  }

  lemma {:induction false} TextLast(p: seq<string>, last: string)
    requires p != []
    ensures Texts.Join(p + [last], '/') == Texts.Join(p, '/') + "/" + last
    decreases |p|
  {
    var s := p + [last];
    if |p| == 1 {
      assert s[1..] == [last];
    } else {
      assert s[1..] == p[1..] + [last];
      TextLast(p[1..], last);
    }
  }

  lemma {:induction false} SegsLenIsText(p: seq<string>)
    requires p != []
    ensures SegsLen(p) == |Texts.Join(p, '/')| + 1
    decreases |p|
  {
    var front, last := p[..|p| - 1], p[|p| - 1];
    assert p == front + [last];
    if front != [] {
      SegsLenIsText(front);
      TextLast(front, last);
    }
  }

  /** Lengths are those of the string, and a path is absolute when its string starts with a slash. */
  lemma RawIsText(p: Raw)
    requires Texts.Free(p, '/')
    ensures RawLen(p) == |Text(p)|
    ensures IsAbs(p) <==> Text(p) != "" && Text(p)[0] == '/'
  {
    SegsLenIsText(p);
    if |p| > 1 {
      assert Text(p) == p[0] + "/" + Texts.Join(p[1..], '/');
      assert p[0] != "" ==> Text(p)[0] == p[0][0];
    }
  }

  /** A clean absolute path is a slash before each of its components, or one alone. */
  lemma AbsIsText(p: Path)
    ensures p == [] ==> Text(Abs(p)) == "/"
    ensures p != [] ==> Text(Abs(p)) == "/" + Texts.Join(p, '/')
    ensures AbsLen(p) == |Text(Abs(p))|
  {
    if p == [] {
      assert ["", ""][1..] == [""];
      assert Texts.Join([""], '/') == "";
    } else {
      assert ([""] + p)[1..] == p;
      SegsLenIsText(p);
    }
  }

  /** Splitting off the last component cuts the string after its last slash. */
  lemma SplitIsText(p: Raw)
    requires Texts.Free(p, '/')
    ensures Text(p) == Text(SplitDir(p)) + SplitBase(p) && '/' !in SplitBase(p)
    ensures Text(SplitDir(p)) == "" || Text(SplitDir(p))[|Text(SplitDir(p))| - 1] == '/'
  {
    if |p| > 1 {
      var front := p[..|p| - 1];
      assert p == front + [p[|p| - 1]];
      TextLast(front, p[|p| - 1]);
      TextLast(front, "");
      assert p[..|p| - 1] + [""] == front + [""];
    }
  }

  // Cleaning

  /** Names and, before them all, steps up: a relative path with nothing left to clean. */
  ghost predicate Tidy(p: seq<string>) {
    forall i :: 0 <= i < |p| ==> Plain(p[i]) || (p[i] == ".." && forall j :: 0 <= j < i ==> p[j] == "..")
  }

  lemma RelStepMeans(cur: Path, out: seq<string>, seg: string)
    requires Tidy(out)
    ensures Tidy(RelStep(out, seg)) && Norm(cur, RelStep(out, seg)) == Step(Norm(cur, out), seg)
  {
    if seg == ".." && out != [] && out[|out| - 1] != ".." {
      SplitLast(out);
      var front, last := out[..|out| - 1], out[|out| - 1];
      NormAppend(cur, front, [last]);
      NormOne(Norm(cur, front), last);
    } else if seg != "" && seg != "." {
      NormAppend(cur, out, [seg]);
      NormOne(Norm(cur, out), seg);
      assert seg == ".." && out != [] ==> out[|out| - 1] == "..";
    }
  }

  lemma {:induction false} RelNormMeans(cur: Path, out: seq<string>, segs: seq<string>)
    requires Tidy(out)
    ensures Tidy(RelNorm(out, segs)) && Norm(cur, RelNorm(out, segs)) == Norm(Norm(cur, out), segs)
    decreases |segs|
  {
    if segs != [] {
      RelStepMeans(cur, out, segs[0]);
      RelNormMeans(cur, RelStep(out, segs[0]), segs[1..]);
    }
  }

  /** A cleaned path leads, from every directory, where the path does, and has nothing left to clean. */
  lemma CleanMeans(p: Raw, cur: Path)
    ensures IsAbs(Clean(p)) <==> IsAbs(p)
    ensures IsAbs(p) ==> Norm([], Clean(p)) == Norm([], p) && exists q :: AllPlain(q) && Clean(p) == Abs(q)
    ensures !IsAbs(p) ==> Norm(cur, Clean(p)) == Norm(cur, p) && (Clean(p) == ["."] || Tidy(Clean(p)))
  {
    NormPlain([], p);
    NormAbs(Norm([], p));
    RelNormMeans(cur, [], p);
    NormOne(cur, ".");
  }
}
