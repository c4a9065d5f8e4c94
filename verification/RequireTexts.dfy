/** Requires as text: the grammar they are read by, and that a canonical string reads back as what it renders. */
module RequireTexts {
  import opened Trees
  import opened Texts
  import opened Versions
  import opened Constraints
  import opened Spellings
  import opened Renderings
  import opened Patterns

  // strings.TrimSpace

  /** Unicode's white space. */
  predicate Space(c: char) {
    || '\t' <= c <= '\r' || c == ' ' || c == '\U{85}' || c == '\U{A0}' || c == '\U{1680}' || '\U{2000}' <= c <= '\U{200A}'
    || c == '\U{2028}' || c == '\U{2029}' || c == '\U{202F}' || c == '\U{205F}' || c == '\U{3000}'
  }

  predicate Blank(s: string) {
    forall i :: 0 <= i < |s| ==> Space(s[i])
  }

  function TrimLeft(s: string): (t: string)
    ensures |t| <= |s|
  {
    if s != "" && Space(s[0]) then TrimLeft(s[1..]) else s
  }

  function TrimRight(s: string): (t: string)
    ensures |t| <= |s|
  {
    if s != "" && Space(s[|s| - 1]) then TrimRight(s[..|s| - 1]) else s
  }

  function Trim(s: string): (t: string)
    ensures |t| <= |s|
  {
    TrimRight(TrimLeft(s))
  }

  /** Nothing, or text that neither begins nor ends in space. */
  predicate Tight(s: string) {
    s == "" || (!Space(s[0]) && !Space(s[|s| - 1]))
  }

  lemma {:induction false} TrimLeftIs(a: string, s: string)
    requires Blank(a) && (s == "" || !Space(s[0]))
    ensures TrimLeft(a + s) == s
    decreases |a|
  {
    if a == "" {
      assert a + s == s;
    } else {
      assert (a + s)[1..] == a[1..] + s;
      TrimLeftIs(a[1..], s);
    }
  }

  lemma {:induction false} TrimRightIs(s: string, b: string)
    requires Blank(b) && (s == "" || !Space(s[|s| - 1]))
    ensures TrimRight(s + b) == s
    decreases |b|
  {
    if b == "" {
      assert s + b == s;
    } else {
      assert (s + b)[..|s + b| - 1] == s + b[..|b| - 1];
      TrimRightIs(s, b[..|b| - 1]);
    }
  }

  lemma TrimIs(a: string, s: string, b: string)
    requires Blank(a) && Blank(b) && Tight(s)
    ensures Trim(a + s + b) == s
  {
    if s == "" {
      TrimLeftIs(a + b, "");
      assert a + s + b == (a + b) + "";
    } else {
      TrimLeftIs(a, s + b);
      assert a + s + b == a + (s + b);
      TrimRightIs(s, b);
    }
  }

  lemma {:induction false} TrimLeftParts(s: string) returns (a: string)
    ensures Blank(a) && s == a + TrimLeft(s) && (TrimLeft(s) == "" || !Space(TrimLeft(s)[0]))
    decreases |s|
  {
    a := "";
    if s != "" && Space(s[0]) {
      var rest := TrimLeftParts(s[1..]);
      a := [s[0]] + rest;
    }
  }

  lemma {:induction false} TrimRightParts(s: string) returns (b: string)
    ensures Blank(b) && s == TrimRight(s) + b && (TrimRight(s) == "" || !Space(TrimRight(s)[|TrimRight(s)| - 1]))
    decreases |s|
  {
    b := "";
    if s != "" && Space(s[|s| - 1]) {
      var rest := TrimRightParts(s[..|s| - 1]);
      b := rest + [s[|s| - 1]];
    }
  }

  /** The text in its spaces. */
  lemma TrimParts(s: string) returns (a: string, b: string)
    ensures Blank(a) && Blank(b) && Tight(Trim(s)) && s == a + Trim(s) + b
  {
    a := TrimLeftParts(s);
    b := TrimRightParts(TrimLeft(s));
    if Trim(s) != "" {
      assert Trim(s)[0] == TrimLeft(s)[0];
    }
  }

  lemma TrimPadded(a: string, s: string, b: string)
    requires Blank(a) && Blank(b)
    ensures Trim(a + s + b) == Trim(s)
  {
    var x, y := TrimParts(s);
    TrimIs(a + x, Trim(s), y + b);
    assert a + s + b == (a + x) + Trim(s) + (y + b);
  }

  lemma TrimTail(s: string, b: string)
    requires Blank(b)
    ensures Trim(s + b) == Trim(s)
  {
    TrimPadded("", s, b);
    assert "" + s + b == s + b;
  }

  lemma TrimTwice(s: string)
    ensures Trim(Trim(s)) == Trim(s)
  {
    var a, b := TrimParts(s);
    TrimIs("", Trim(s), "");
    assert "" + Trim(s) + "" == Trim(s);
  }

  // Constraints

  datatype Start = Start(op: Op, after: string)

  /** The comparison a text begins with, the longer spelling first. */
  function Operator(s: string): (start: Option<Start>)
    ensures start.Some? ==> |start.value.after| < |s| && s == OpText(start.value.op) + start.value.after
  {
    if ">=" <= s then Some(Start(GTE, s[2..]))
    else if "<=" <= s then Some(Start(LTE, s[2..]))
    else if ">" <= s then Some(Start(GT, s[1..]))
    else if "<" <= s then Some(Start(LT, s[1..]))
    else if "=" <= s then Some(Start(EQ, s[1..]))
    else None
  }

  function CutOp(s: string): (start: Option<Start>)
    ensures start.Some? ==> |start.value.after| < |s|
  {
    match Operator(Trim(s))
    case None => None
    case Some(start) => Some(Start(start.op, Trim(start.after)))
  }

  /** The constraints a text lists: at least one, and a version after each comparison. */
  function ReadConstraints(s: string): Option<seq<Constraint>>
    decreases |s|
  {
    match CutOp(s)
    case None => None
    case Some(start) =>
      CutParts(start.after, ',');
      var cut := Cut(start.after, ',');
      var version := Trim(cut.before);
      if !IsVersion(version) then None
      else if !cut.found then Some([Constraint(start.op, version)])
      else match ReadConstraints(Trim(cut.after))
        case None => None
        case Some(rest) => Some([Constraint(start.op, version)] + rest)
  }

  /** One comparison and its version, with any spaces around either, then `tail`. */
  ghost predicate ClauseAt(s: string, a: string, c: Constraint, b: string, d: string, tail: string) {
    Blank(a) && Blank(b) && Blank(d) && s == a + OpText(c.op) + b + c.version + d + tail
  }

  ghost predicate Clause(s: string, c: Constraint, tail: string) {
    IsVersion(c.version) && exists a, b, d :: ClauseAt(s, a, c, b, d, tail)
  }

  /** The text writes the constraints in their order, commas between them. */
  ghost predicate Writes(s: string, cs: seq<Constraint>)
    decreases |cs|
  {
    if cs == [] then false
    else if |cs| == 1 then Clause(s, cs[0], "")
    else exists rest :: Writes(rest, cs[1..]) && Clause(s, cs[0], "," + rest)
  }

  /** A version's text holds nothing that separates. */
  predicate Inner(c: char) {
    IsDigit(c) || Letter(c) || c == '-' || c == '.'
  }

  lemma VersionText(v: string)
    requires IsVersion(v)
    ensures v != "" && IsDigit(v[0]) && forall i :: 0 <= i < |v| ==> Inner(v[i])
    ensures Tight(v) && ',' !in v
  {
    VersionWithout(v, ',');
    forall c | !Inner(c) ensures c !in v {
      VersionWithout(v, c);
    }
  }

  lemma OperatorIs(op: Op, s: string)
    requires s != "" && s[0] != '='
    ensures Operator(OpText(op) + s) == Some(Start(op, s))
  {
    var text := OpText(op) + s;
    assert text[|OpText(op)|..] == s;
    assert text[|OpText(op)|] == s[0];
  }

  lemma ReadTrimmed(s: string)
    ensures ReadConstraints(Trim(s)) == ReadConstraints(s)
  {
    TrimTwice(s);
  }

  lemma {:induction false} TrimRightAfter(p: string, s: string)
    requires p != "" && !Space(p[|p| - 1])
    ensures TrimRight(p + s) == p + TrimRight(s)
    decreases |s|
  {
    if s == "" {
      assert p + s == p;
    } else {
      assert (p + s)[..|p + s| - 1] == p + s[..|s| - 1];
      TrimRightAfter(p, s[..|s| - 1]);
      assert (p + s)[|p + s| - 1] == s[|s| - 1];
    }
  }

  lemma Regroup(a: string, b: string, c: string)
    ensures (a + b) + c == a + (b + c)
  {
  }

  /** The comparison of a trimmed clause, and what it leaves. */
  lemma OperatorAfterSpace(op: Op, b: string, body: string)
    requires Blank(b) && body != "" && body[0] != '='
    ensures Operator(OpText(op) + (b + body)) == Some(Start(op, b + body))
  {
    assert (b + body)[0] != '=' by { if b != "" { assert Space(b[0]); } }
    OperatorIs(op, b + body);
  }

  lemma OpTextTight(op: Op)
    ensures OpText(op) != "" && !Space(OpText(op)[0])
  {
  }

  /** A clause trimmed: its comparison, and the rest with the space after it gone. */
  lemma TrimClause(a: string, op: string, b: string, v: string, tail: string)
    requires Blank(a) && op != "" && !Space(op[0]) && v != "" && Tight(v)
    ensures Trim(a + (op + (b + (v + tail)))) == op + (b + (v + TrimRight(tail)))
  {
    var rest := b + (v + tail);
    assert op + rest != "" && (op + rest)[0] == op[0];
    TrimLeftIs(a, op + rest);
    Regroup(op, b, v + tail);
    Regroup(op + b, v, tail);
    var p := (op + b) + v;
    assert p[|p| - 1] == v[|v| - 1];
    TrimRightAfter(p, tail);
    Regroup(op + b, v, TrimRight(tail));
    Regroup(op, b, v + TrimRight(tail));
  }

  lemma TrimBody(b: string, v: string, tail: string)
    requires Blank(b) && v != "" && Tight(v)
    ensures Trim(b + (v + TrimRight(tail))) == v + TrimRight(tail)
  {
    var end := TrimRight(tail);
    assert (v + end)[0] == v[0];
    TrimLeftIs(b, v + end);
    TrimRightAfter(v, end);
    var x := TrimRightParts(tail);
    TrimRightIs(end, "");
    assert end + "" == end;
  }

  lemma ClauseText(s: string, a: string, c: Constraint, b: string, d: string, tail: string)
    requires ClauseAt(s, a, c, b, d, tail)
    ensures s == a + (OpText(c.op) + (b + (c.version + (d + tail))))
  {
  }

  /** What follows the comparison, less the spaces on its way. */
  lemma ClauseStarts(s: string, a: string, c: Constraint, b: string, d: string, tail: string)
    requires ClauseAt(s, a, c, b, d, tail) && IsVersion(c.version)
    ensures CutOp(s) == Some(Start(c.op, c.version + TrimRight(d + tail)))
  {
    var v := c.version;
    VersionText(v);
    OpTextTight(c.op);
    ClauseText(s, a, c, b, d, tail);
    TrimClause(a, OpText(c.op), b, v, d + tail);
    var body := v + TrimRight(d + tail);
    assert body[0] == v[0] && v[0] != '=';
    OperatorAfterSpace(c.op, b, body);
    TrimBody(b, v, d + tail);
  }

  lemma BlankHasNoComma(d: string)
    requires Blank(d)
    ensures ',' !in d
  {
    assert forall i :: 0 <= i < |d| ==> Space(d[i]);
  }

  lemma CutsAtComma(v: string, d: string, rest: string)
    requires Tight(v) && v != "" && ',' !in v && Blank(d)
    ensures Cut(v + TrimRight(d + ("," + rest)), ',') == Parts(v + d, TrimRight(rest), true)
  {
    var p := d + ",";
    assert p[|p| - 1] == ',';
    TrimRightAfter(p, rest);
    Regroup(d, ",", rest);
    BlankHasNoComma(d);
    CutAt(v + d, TrimRight(rest), ',');
    Regroup(v + d, ",", TrimRight(rest));
    Regroup(v, d, "," + TrimRight(rest));
    Regroup(d, ",", TrimRight(rest));
  }

  lemma TrimEnd(v: string, d: string)
    requires Tight(v) && Blank(d)
    ensures Trim(v + d) == v
  {
    TrimIs("", v, d);
    assert "" + v + d == v + d;
  }

  lemma TrimRightFirst(s: string)
    ensures Trim(TrimRight(s)) == Trim(s)
  {
    var e := TrimRightParts(s);
    TrimTail(TrimRight(s), e);
  }

  /** What reading one clause does. */
  lemma ReadOne(s: string, op: Op, after: string)
    requires CutOp(s) == Some(Start(op, after)) && !Cut(after, ',').found && IsVersion(Trim(Cut(after, ',').before))
    ensures ReadConstraints(s) == Some([Constraint(op, Trim(Cut(after, ',').before))])
  {
  }

  lemma ReadMore(s: string, op: Op, after: string, version: string, rest: string, cs: seq<Constraint>)
    requires CutOp(s) == Some(Start(op, after)) && Cut(after, ',').found && version == Trim(Cut(after, ',').before) && IsVersion(version)
    requires rest == Cut(after, ',').after && ReadConstraints(Trim(rest)) == Some(cs)
    ensures ReadConstraints(s) == Some([Constraint(op, version)] + cs)
  {
  }

  /** Text that writes constraints is read as those. */
  lemma {:induction false} ReadsWritten(s: string, cs: seq<Constraint>)
    requires Writes(s, cs)
    ensures ReadConstraints(s) == Some(cs)
    decreases |cs|
  {
    if |cs| == 1 {
      LastWritten(s, cs);
    } else {
      var rest :| Writes(rest, cs[1..]) && Clause(s, cs[0], "," + rest);
      ReadsWritten(rest, cs[1..]);
      NextWritten(s, rest, cs);
    }
  }

  lemma LastWritten(s: string, cs: seq<Constraint>)
    requires |cs| == 1 && Clause(s, cs[0], "")
    ensures ReadConstraints(s) == Some(cs)
  {
    var c := cs[0];
    assert cs == [c];
    var a, b, d :| ClauseAt(s, a, c, b, d, "");
    VersionText(c.version);
    ClauseStarts(s, a, c, b, d, "");
    TrimRightIs("", d);
    assert d + "" == d && "" + d == d && c.version + "" == c.version;
    CutNone(c.version, ',');
    TrimEnd(c.version, "");
    ReadOne(s, c.op, c.version);
  }

  lemma NextWritten(s: string, rest: string, cs: seq<Constraint>)
    requires |cs| > 1 && Clause(s, cs[0], "," + rest) && ReadConstraints(rest) == Some(cs[1..])
    ensures ReadConstraints(s) == Some(cs)
  {
    var c := cs[0];
    assert cs == [c] + cs[1..];
    var a, b, d :| ClauseAt(s, a, c, b, d, "," + rest);
    VersionText(c.version);
    ClauseStarts(s, a, c, b, d, "," + rest);
    CutsAtComma(c.version, d, rest);
    TrimEnd(c.version, d);
    TrimRightFirst(rest);
    ReadTrimmed(rest);
    ReadMore(s, c.op, c.version + TrimRight(d + ("," + rest)), c.version, TrimRight(rest), cs[1..]);
  }

  lemma BlankSum(a: string, b: string)
    requires Blank(a) && Blank(b)
    ensures Blank(a + b)
  {
  }

  /** The pieces of what follows a comparison. */
  lemma PiecesAfter(after: string, cut: Parts) returns (b: string, d: string, e: string)
    requires cut == Cut(Trim(after), ',')
    ensures Blank(b) && Blank(d) && Blank(e)
    ensures after == b + (Trim(cut.before) + (d + ((if cut.found then "," + cut.after else "") + e)))
  {
    var a1, b1 := TrimParts(after);
    CutParts(Trim(after), ',');
    var a2, b2 := TrimParts(cut.before);
    BlankSum(a1, a2);
    b, d, e := a1 + a2, b2, b1;
    var tail := if cut.found then "," + cut.after else "";
    assert Trim(after) == cut.before + tail by { Regroup(cut.before, ",", cut.after); assert cut.before + "" == cut.before; }
    Flatten(a1, a2, Trim(cut.before), b2, tail, b1);
  }

  lemma Flatten(a1: string, a2: string, v: string, b2: string, tail: string, b1: string)
    ensures a1 + ((a2 + v + b2) + tail) + b1 == (a1 + a2) + (v + (b2 + (tail + b1)))
  {
  }

  lemma FlattenClause(s: string, a: string, op: string, b: string, v: string, d: string, tail: string, e: string, f: string)
    requires s == a + (op + (b + (v + (d + (tail + e))))) + f
    ensures s == a + op + b + v + d + (tail + (e + f))
  {
  }

  /** The pieces of a text that is read, put together again. */
  lemma Pieces(s: string, start: Start, cut: Parts) returns (a: string, b: string, d: string, e: string)
    requires Operator(Trim(s)) == Some(start) && cut == Cut(Trim(start.after), ',')
    ensures Blank(a) && Blank(b) && Blank(d) && Blank(e)
    ensures s == a + OpText(start.op) + b + Trim(cut.before) + d + ((if cut.found then "," + cut.after else "") + e)
  {
    var a0, b0 := TrimParts(s);
    var b', d', e' := PiecesAfter(start.after, cut);
    FlattenClause(s, a0, OpText(start.op), b', Trim(cut.before), d', if cut.found then "," + cut.after else "", e', b0);
    BlankSum(e', b0);
    a, b, d, e := a0, b', d', e' + b0;
  }

  /** What is read was written. */
  lemma {:induction false} ReadIsWritten(s: string, cs: seq<Constraint>)
    requires ReadConstraints(s) == Some(cs)
    ensures Writes(s, cs)
    decreases |s|
  {
    var start := Operator(Trim(s)).value;
    var cut := Cut(Trim(start.after), ',');
    var c := Constraint(start.op, Trim(cut.before));
    var a, b, d, e := Pieces(s, start, cut);
    if !cut.found {
      BlankSum(d, e);
      LastClause(s, a, c, b, d, e);
    } else {
      var rest := cut.after + e;
      RestRead(cut.after, e);
      Regroup(",", cut.after, e);
      ReadIsWritten(rest, cs[1..]);
      assert ClauseAt(s, a, c, b, d, "," + rest);
      OneMoreWritten(s, c, rest, cs);
    }
  }

  lemma LastClause(s: string, a: string, c: Constraint, b: string, d: string, e: string)
    requires s == a + OpText(c.op) + b + c.version + d + ("" + e) && Blank(a) && Blank(b) && Blank(d + e) && IsVersion(c.version)
    ensures Writes(s, [c])
  {
    assert ClauseAt(s, a, c, b, d + e, "");
  }

  lemma OneMoreWritten(s: string, c: Constraint, rest: string, cs: seq<Constraint>)
    requires |cs| > 1 && cs[0] == c && Clause(s, c, "," + rest) && Writes(rest, cs[1..])
    ensures Writes(s, cs)
  {
  }

  lemma ReadAlike(s: string, t: string)
    requires Trim(s) == Trim(t)
    ensures ReadConstraints(s) == ReadConstraints(t)
  {
  }

  lemma RestRead(after: string, e: string)
    requires Blank(e)
    ensures ReadConstraints(after + e) == ReadConstraints(Trim(after))
  {
    TrimTail(after, e);
    TrimTwice(after);
    ReadAlike(after + e, Trim(after));
  }

  // Names

  const DEFAULT_NAMESPACE := "com.docker.kit"

  predicate LowerAlphanumeric(c: char) {
    'a' <= c <= 'z' || IsDigit(c)
  }

  predicate BareName(s: string) {
    && 1 <= |s| <= 64 && LowerAlphanumeric(s[0]) && (LowerAlphanumeric(s[|s| - 1]) || s[|s| - 1] == '+')
    && forall i :: 0 <= i < |s| ==> LowerAlphanumeric(s[i]) || s[i] == '+' || s[i] == '.' || s[i] == '-'
  }

  predicate Label(s: string) {
    && 1 <= |s| <= 63 && LowerAlphanumeric(s[0]) && LowerAlphanumeric(s[|s| - 1])
    && forall i :: 0 <= i < |s| ==> LowerAlphanumeric(s[i]) || s[i] == '-'
  }

  /** A domain written backwards, or one of the two labels set aside. */
  predicate Namespace(s: string) {
    && 1 <= |s| <= 253 && (s == "deb" || s == "apk" || |Split(s, '.')| >= 2)
    && forall i :: 0 <= i < |Split(s, '.')| ==> Label(Split(s, '.')[i])
  }

  predicate ValidName(name: string) {
    var cut := Cut(name, '/');
    if cut.found then Namespace(cut.before) && BareName(cut.after) else BareName(name)
  }

  function Normalize(name: string): string {
    if '/' in name then name else DEFAULT_NAMESPACE + ("/" + name)
  }

  predicate NameChar(c: char) {
    LowerAlphanumeric(c) || c == '+' || c == '.' || c == '-' || c == '/'
  }

  lemma NamespaceText(s: string)
    requires Namespace(s)
    ensures LowerAlphanumeric(s[0]) && forall i :: 0 <= i < |s| ==> NameChar(s[i])
  {
    var labels := Split(s, '.');
    SplitStarts(s, '.');
    JoinSplit(s, '.');
    forall c | !NameChar(c) ensures c !in s {
      forall i | 0 <= i < |labels| ensures c !in labels[i] {
        assert Label(labels[i]);
      }
      JoinWithout(labels, '.', c);
    }
  }

  lemma NameText(name: string)
    requires ValidName(name)
    ensures name != "" && Tight(name) && forall i :: 0 <= i < |name| ==> NameChar(name[i])
  {
    CutParts(name, '/');
    var cut := Cut(name, '/');
    if cut.found {
      NamespaceText(cut.before);
    }
  }

  lemma DefaultLabels()
    ensures Split(DEFAULT_NAMESPACE, '.') == ["com", "docker", "kit"]
  {
    var labels := ["com", "docker", "kit"];
    assert labels[1..] == ["docker", "kit"] && ["docker", "kit"][1..] == ["kit"];
    assert Join(["kit"], '.') == "kit";
    assert Join(["docker", "kit"], '.') == "docker.kit";
    assert Join(labels, '.') == DEFAULT_NAMESPACE;
    SplitJoin(labels, '.');
  }

  lemma DefaultAreLabels()
    ensures Label("com") && Label("docker") && Label("kit")
  {
  }

  lemma DefaultIsNamespace()
    ensures Namespace(DEFAULT_NAMESPACE)
  {
    DefaultLabels();
    DefaultAreLabels();
    assert |DEFAULT_NAMESPACE| == 14;
    AreNamespace(DEFAULT_NAMESPACE, "com", "docker", "kit");
  }

  lemma AreNamespace(s: string, a: string, b: string, c: string)
    requires Split(s, '.') == [a, b, c] && Label(a) && Label(b) && Label(c) && 3 < |s| <= 253
    ensures Namespace(s)
  {
    var parts := Split(s, '.');
    forall i | 0 <= i < |parts| ensures Label(parts[i]) {
      assert parts[i] == if i == 0 then a else if i == 1 then b else c;
    }
  }

  lemma DefaultText()
    ensures '/' !in DEFAULT_NAMESPACE
  {
  }

  lemma Qualified(namespace: string, name: string)
    requires Namespace(namespace) && '/' !in namespace && BareName(name)
    ensures ValidName(namespace + ("/" + name)) && '/' in namespace + ("/" + name)
  {
    CutAt(namespace, name, '/');
    Regroup(namespace, "/", name);
    assert (namespace + ("/" + name))[|namespace|] == '/';
  }

  /** A normalized name is a valid one with a namespace, and stays as it is. */
  lemma NormalizedIsValid(name: string)
    requires ValidName(name)
    ensures ValidName(Normalize(name)) && Normalize(Normalize(name)) == Normalize(name)
  {
    CutParts(name, '/');
    if '/' !in name {
      DefaultIsNamespace();
      DefaultText();
      Qualified(DEFAULT_NAMESPACE, name);
    }
  }

  // Whole entries

  predicate Comparison(c: char) {
    c == '>' || c == '<' || c == '='
  }

  function FirstComparison(s: string): (i: nat)
    ensures i <= |s| && (i < |s| ==> Comparison(s[i])) && forall j :: 0 <= j < i ==> !Comparison(s[j])
  {
    if s == "" || Comparison(s[0]) then 0 else 1 + FirstComparison(s[1..])
  }

  /** The require a text reads as: a name, and what constraints follow it. */
  function ReadRequire(text: string): Option<Require> {
    var s := Trim(text);
    var i := FirstComparison(s);
    var name, rest := Trim(s[..i]), Trim(s[i..]);
    if !ValidName(name) then None
    else if rest == "" then Some(Require(Normalize(name), []))
    else match ReadConstraints(rest)
      case None => None
      case Some(cs) => Some(Require(Normalize(name), cs))
  }

  /** A valid name, spaces, and the constraints if there are any. */
  ghost predicate RequireAt(text: string, a: string, name: string, b: string, tail: string, r: Require) {
    && Blank(a) && Blank(b) && text == a + name + b + tail && ValidName(name) && r.name == Normalize(name)
    && if r.constraints == [] then tail == "" else Writes(tail, r.constraints)
  }

  lemma FirstComparisonIs(a: string, b: string)
    requires (forall i :: 0 <= i < |a| ==> !Comparison(a[i])) && (b == "" || Comparison(b[0]))
    ensures FirstComparison(a + b) == |a|
    ensures (a + b)[..|a|] == a && (a + b)[|a|..] == b
  {
    assert forall i :: 0 <= i < |a| ==> (a + b)[i] == a[i];
    assert b != "" ==> (a + b)[|a|] == b[0];
  }

  lemma ConstraintsStart(s: string)
    requires ReadConstraints(s).Some?
    ensures Trim(s) != "" && Comparison(Trim(s)[0])
  {
  }

  lemma NotComparing(name: string, gap: string)
    requires ValidName(name) && Blank(gap)
    ensures forall i :: 0 <= i < |name + gap| ==> !Comparison((name + gap)[i])
  {
    NameText(name);
    assert forall i :: 0 <= i < |name| ==> NameChar(name[i]);
    assert forall i :: 0 <= i < |gap| ==> Space(gap[i]);
  }

  lemma ReadNamed(text: string, name: string, r: Require)
    requires Trim(text) == name && ValidName(name) && r == Require(Normalize(name), [])
    ensures ReadRequire(text) == Some(r)
  {
    NotComparing(name, "");
    assert name + "" == name;
    FirstComparisonIs(name, "");
    TrimTwice(text);
    assert Trim("") == "";
  }

  lemma ReadConstrained(text: string, name: string, gap: string, rest: string, cs: seq<Constraint>)
    requires ValidName(name) && Blank(gap) && rest != "" && Comparison(rest[0]) && Trim(rest) == rest && ReadConstraints(rest) == Some(cs)
    requires Trim(text) == name + gap + rest
    ensures ReadRequire(text) == Some(Require(Normalize(name), cs))
  {
    NotComparing(name, gap);
    FirstComparisonIs(name + gap, rest);
    NameText(name);
    TrimEnd(name, gap);
  }

  /** Text of that form is read as that require. */
  lemma ReadsRequire(text: string, a: string, name: string, b: string, tail: string, r: Require)
    requires RequireAt(text, a, name, b, tail, r)
    ensures ReadRequire(text) == Some(r)
  {
    NameText(name);
    if r.constraints == [] {
      TrimIs(a, name, b);
      assert a + name + b + tail == a + name + b;
      ReadNamed(text, name, r);
    } else {
      var x, y := TrimParts(tail);
      ReadsWritten(tail, r.constraints);
      ConstraintsStart(tail);
      TextTrimmed(a, name, b, x, Trim(tail), y);
      BlankSum(b, x);
      TrimTwice(tail);
      ReadTrimmed(tail);
      ReadConstrained(text, name, b + x, Trim(tail), r.constraints);
    }
  }

  lemma TextTrimmed(a: string, name: string, b: string, x: string, rest: string, y: string)
    requires Blank(a) && Blank(y) && name != "" && Tight(name) && rest != "" && Tight(rest)
    ensures Trim(a + name + b + (x + rest + y)) == name + (b + x) + rest
  {
    var s := name + (b + x) + rest;
    assert s[0] == name[0] && s[|s| - 1] == rest[|rest| - 1];
    TrimIs(a, s, y);
    assert a + name + b + (x + rest + y) == a + s + y;
  }

  lemma BlankOut(s: string)
    requires Trim(s) == "" && (s == "" || Comparison(s[0]))
    ensures s == ""
  {
    var x, y := TrimParts(s);
    BlankSum(x, y);
    assert s == x + y && Blank(s);
  }

  lemma Halves(s: string, i: nat)
    requires i <= |s|
    ensures s == s[..i] + s[i..]
  {
  }

  /** What is read as a require has that form. */
  lemma RequireIsWritten(text: string, r: Require) returns (a: string, name: string, b: string, tail: string)
    requires ReadRequire(text) == Some(r)
    ensures RequireAt(text, a, name, b, tail, r)
  {
    var s := Trim(text);
    var i := FirstComparison(s);
    var front, rest := s[..i], s[i..];
    var a0, b0 := TrimParts(text);
    var a1, b1 := TrimParts(front);
    name := Trim(front);
    BlankSum(a0, a1);
    BlankSum(b1, b0);
    Halves(s, i);
    NameParts(text, a0, a1, name, b1, rest, b0);
    a := a0 + a1;
    if Trim(rest) == "" {
      BlankOut(rest);
      b, tail := b1 + b0, "";
    } else {
      b, tail := b1, rest + b0;
      RestRead(rest, b0);
      ReadIsWritten(tail, r.constraints);
    }
  }

  lemma NameParts(text: string, a0: string, a1: string, name: string, b1: string, rest: string, b0: string)
    requires text == a0 + ((a1 + name + b1) + rest) + b0
    ensures text == (a0 + a1) + name + b1 + (rest + b0)
    ensures rest == "" ==> text == (a0 + a1) + name + (b1 + b0) + ""
  {
  }

  /** A text reads as a require exactly when it writes it, in the grammar. */
  lemma ReadsGrammar(text: string, r: Require)
    ensures ReadRequire(text) == Some(r) <==> exists a, name, b, tail :: RequireAt(text, a, name, b, tail, r)
  {
    if ReadRequire(text) == Some(r) {
      var a, name, b, tail := RequireIsWritten(text, r);
    }
    if a, name, b, tail :| RequireAt(text, a, name, b, tail, r) {
      ReadsRequire(text, a, name, b, tail, r);
    }
  }

  // Parsing, step by step

  method SplitRequireName(s: string) returns (name: string, rest: string, ok: bool)
    ensures name == Trim(s[..FirstComparison(s)]) && rest == Trim(s[FirstComparison(s)..])
    ensures !ok ==> name == ""
  {
    for i := 0 to |s|
      invariant forall j :: 0 <= j < i ==> !Comparison(s[j])
    {
      if Comparison(s[i]) {
        assert FirstComparison(s) == i;
        name, rest := Trim(s[..i]), Trim(s[i..]);
        return name, rest, name != "";
      }
    }
    assert FirstComparison(s) == |s| && s[..|s|] == s && s[|s|..] == "";
    name, rest, ok := Trim(s), "", true;
  }

  /** The reading, if it is tame only when some version meets it. */
  ghost predicate Checked(read: Option<seq<Constraint>>, out: Option<seq<Constraint>>) {
    && (out.Some? ==> out == read)
    && (read.Some? && TameSet(read.value) ==> (out.Some? <==> Satisfiable(read.value)))
  }

  ghost predicate ReadSoFar(s: string, out: seq<Constraint>, rest: string) {
    ReadConstraints(s) == match ReadConstraints(rest) case None => None case Some(more) => Some(out + more)
  }

  lemma ReadNothing(s: string)
    ensures ReadSoFar(s, [], s)
  {
    if ReadConstraints(s).Some? {
      assert [] + ReadConstraints(s).value == ReadConstraints(s).value;
    }
  }

  lemma ReadOn(s: string, out: seq<Constraint>, rest: string, c: Constraint, next: string)
    requires ReadSoFar(s, out, rest)
    requires ReadConstraints(rest) == match ReadConstraints(next) case None => None case Some(more) => Some([c] + more)
    ensures ReadSoFar(s, out + [c], next)
  {
    if ReadConstraints(next).Some? {
      Regrouped(out, c, ReadConstraints(next).value);
    }
  }

  lemma Regrouped(out: seq<Constraint>, c: Constraint, more: seq<Constraint>)
    ensures out + ([c] + more) == (out + [c]) + more
  {
  }

  /** The next constraint of a list, and the text after its comma if it has one. */
  method NextConstraint(s: string) returns (c: Option<Constraint>, next: Option<string>)
    ensures c.None? ==> ReadConstraints(s).None?
    ensures c.Some? && next.None? ==> ReadConstraints(s) == Some([c.value])
    ensures c.Some? && next.Some? ==> |next.value| < |s|
    ensures c.Some? && next.Some? ==>
      ReadConstraints(s) == match ReadConstraints(next.value) case None => None case Some(more) => Some([c.value] + more)
  {
    c, next := None, None;
    var start := CutOp(s);
    if start.None? {
      return;
    }
    var cut := Cut(start.value.after, ',');
    CutParts(start.value.after, ',');
    var version := Trim(cut.before);
    if version == "" || !IsVersion(version) {
      return;
    }
    c := Some(Constraint(start.value.op, version));
    if cut.found {
      next := Some(Trim(cut.after));
    }
  }

  method ParseConstraints(s: string) returns (out: Option<seq<Constraint>>)
    ensures Checked(ReadConstraints(s), out)
  {
    var list: seq<Constraint> := [];
    var rest := s;
    ReadNothing(s);
    while rest != ""
      invariant ReadSoFar(s, list, rest)
      decreases |rest|
    {
      var c, next := NextConstraint(rest);
      if c.None? {
        return None;
      }
      if next.None? {
        list := list + [c.value];
        var ok := CheckConstraintsSatisfiable(list);
        return if ok then Some(list) else None;
      }
      ReadOn(s, list, rest, c.value, next.value);
      list, rest := list + [c.value], next.value;
    }
    assert ReadConstraints("").None?;
    out := None;
  }

  /** Reads a require by the grammar, and refuses constraints no version can meet. */
  method ParseRequire(text: string) returns (r: Option<Require>)
    ensures r.Some? ==> r == ReadRequire(text)
    ensures ReadRequire(text).Some? && TameSet(ReadRequire(text).value.constraints) ==>
      (r.Some? <==> Satisfiable(ReadRequire(text).value.constraints))
  {
    var s := Trim(text);
    var name, rest, ok := SplitRequireName(s);
    if !ok || !ValidName(name) {
      return None;
    }
    if rest == "" {
      NothingAsked();
      return Some(Require(Normalize(name), []));
    }
    var constraints := ParseConstraints(rest);
    if constraints.None? {
      return None;
    }
    r := Some(Require(Normalize(name), constraints.value));
  }

  lemma NothingAsked()
    ensures Satisfiable([])
  {
    OneBound(FLOOR);
    FloorAdmitsAll(FLOOR);
    assert Meets(FLOOR, []);
  }

  // A canonical string reads back

  function Canonicals(s: seq<Constraint>): (r: seq<Constraint>)
    ensures |r| == |s| && forall i :: 0 <= i < |s| ==> r[i] == Constraint(s[i].op, Canonical(s[i].version))
  {
    if s == [] then [] else [Constraint(s[0].op, Canonical(s[0].version))] + Canonicals(s[1..])
  }

  /** A reduced form as it is listed: the ceiling first. */
  function AsListed(s: seq<Constraint>): seq<Constraint> {
    if |s| == 2 then [s[1], s[0]] else s
  }

  lemma NothingBetween(op: string, v: string, tail: string)
    ensures op + v + tail == "" + op + "" + v + "" + tail
  {
  }

  lemma RenderedClause(c: Constraint, tail: string)
    requires IsVersion(c.version)
    ensures Clause(RenderConstraint(c) + tail, Constraint(c.op, Canonical(c.version)), tail)
  {
    CanonicalIsVersion(c.version);
    NothingBetween(OpText(c.op), Canonical(c.version), tail);
    assert ClauseAt(RenderConstraint(c) + tail, "", Constraint(c.op, Canonical(c.version)), "", "", tail);
  }

  lemma JoinStep(s: seq<Constraint>)
    requires s != []
    ensures |s| == 1 ==> Join(RenderAll(s), ',') == RenderConstraint(s[0]) + "" && Canonicals(s) == [Canonicals(s)[0]]
    ensures |s| > 1 ==> Join(RenderAll(s), ',') == RenderConstraint(s[0]) + ("," + Join(RenderAll(s[1..]), ','))
    ensures Canonicals(s)[1..] == Canonicals(s[1..])
  {
    assert RenderAll(s)[1..] == RenderAll(s[1..]);
    if |s| > 1 {
      Regroup(RenderConstraint(s[0]), ",", Join(RenderAll(s[1..]), ','));
    }
  }

  lemma {:induction false} JoinWrites(s: seq<Constraint>)
    requires s != [] && forall i :: 0 <= i < |s| ==> IsVersion(s[i].version)
    ensures Writes(Join(RenderAll(s), ','), Canonicals(s))
    decreases |s|
  {
    JoinStep(s);
    if |s| == 1 {
      RenderedClause(s[0], "");
    } else {
      var rest := Join(RenderAll(s[1..]), ',');
      JoinWrites(s[1..]);
      RenderedClause(s[0], "," + rest);
      OneMoreWritten(Join(RenderAll(s), ','), Canonicals(s)[0], rest, Canonicals(s));
    }
  }

  lemma NothingBefore(name: string, tail: string)
    ensures name + " " + tail == "" + name + " " + tail
  {
  }

  lemma ListedRenders(name: string, s: seq<Constraint>)
    requires Reduced(s)
    ensures Render(name, s) == "" + name + " " + Join(RenderAll(AsListed(s)), ',')
  {
    SortedForm(s);
    TwoRendered(s);
    NothingBefore(name, Join(RenderAll(AsListed(s)), ','));
  }

  lemma TwoRendered(s: seq<Constraint>)
    ensures |s| == 2 ==> [RenderConstraint(s[1]), RenderConstraint(s[0])] == RenderAll(AsListed(s))
  {
  }

  lemma ListedWrites(s: seq<Constraint>)
    requires Reduced(s) && s != []
    ensures Writes(Join(RenderAll(AsListed(s)), ','), Canonicals(AsListed(s)))
  {
    JoinWrites(AsListed(s));
  }

  lemma RenderReads(name: string, s: seq<Constraint>)
    requires ValidName(name) && Normalize(name) == name && Reduced(s)
    ensures ReadRequire(Render(name, s)) == Some(Require(name, Canonicals(AsListed(s))))
  {
    var tail := Join(RenderAll(AsListed(s)), ',');
    ListedRenders(name, s);
    if s != [] {
      ListedWrites(s);
    }
    OneSpace();
    ReadsRequire(Render(name, s), "", name, " ", tail, Require(name, Canonicals(AsListed(s))));
  }

  lemma OneSpace()
    ensures Blank(" ") && Blank("")
  {
  }

  lemma HoldTogether(a: seq<Constraint>, b: seq<Constraint>, v: string)
    requires |a| == |b| && forall i :: 0 <= i < |a| ==> (Holds(v, a[i]) <==> Holds(v, b[i]))
    ensures HoldsAll(v, a) <==> HoldsAll(v, b)
  {
  }

  lemma ListedHolds(s: seq<Constraint>, v: string)
    ensures HoldsAll(v, AsListed(s)) <==> HoldsAll(v, s)
  {
    if |s| == 2 {
      var l := AsListed(s);
      assert l[0] == s[1] && l[1] == s[0];
      assert HoldsAll(v, s) <==> Holds(v, s[0]) && Holds(v, s[1]);
      assert HoldsAll(v, l) <==> Holds(v, l[0]) && Holds(v, l[1]);
    }
  }

  lemma ListedMeans(s: seq<Constraint>, v: string)
    requires Reduced(s) && Tame(v)
    ensures HoldsAll(v, Canonicals(AsListed(s))) <==> HoldsAll(v, s)
  {
    var l := AsListed(s);
    ListedHolds(s, v);
    forall i | 0 <= i < |l| ensures Holds(v, l[i]) <==> Holds(v, Canonicals(l)[i]) {
      CanonicalHolds(l[i], v);
    }
    HoldTogether(l, Canonicals(l), v);
  }

  lemma CanonicalHolds(c: Constraint, v: string)
    requires Tame(c.version) && Tame(v)
    ensures Holds(v, c) <==> Holds(v, Constraint(c.op, Canonical(c.version)))
  {
    CanonicalIsVersion(c.version);
    EqualsAgree(c.version, Canonical(c.version), v);
  }

  lemma ListedTame(s: seq<Constraint>)
    requires Reduced(s)
    ensures TameSet(Canonicals(AsListed(s))) && (StatesLower(Canonicals(AsListed(s))) <==> StatesLower(s))
  {
    var l := AsListed(s);
    forall i | 0 <= i < |s| ensures Tame(Canonicals(l)[i].version) {
      CanonicalIsVersion(l[i].version);
    }
    if |s| == 2 {
      assert Canonicals(l)[1].op == s[0].op && Canonicals(l)[0].op == s[1].op;
    } else if |s| == 1 {
      assert Canonicals(l)[0].op == s[0].op;
    }
  }

  lemma ListedSameSet(s: seq<Constraint>)
    requires Reduced(s)
    ensures SameSet(s, Canonicals(AsListed(s)))
  {
    ListedTame(s);
    forall v ensures Meets(v, s) <==> Meets(v, Canonicals(AsListed(s))) {
      if Tame(v) {
        ListedMeans(s, v);
      }
    }
  }

  /** A name that was read is valid, whole, and holds no space. */
  lemma ReadName(text: string, r: Require)
    requires ReadRequire(text) == Some(r)
    ensures ValidName(r.name) && Normalize(r.name) == r.name && ' ' !in r.name
  {
    var a, name, b, tail := RequireIsWritten(text, r);
    NormalizedIsValid(name);
    NameText(r.name);
    assert forall i :: 0 <= i < |r.name| ==> NameChar(r.name[i]);
  }

  /** Lower bounds are written with a greater-than sign, upper ones with a less-than sign, and an equals sign after it includes the bound. */
  lemma TextSays(c: Constraint)
    requires IsVersion(c.version)
    ensures RenderConstraint(c)[0] == '>' <==> c.Lower?()
    ensures RenderConstraint(c)[0] == '<' <==> c.Upper?()
    ensures RenderConstraint(c)[0] == '=' <==> c.op.EQ?
    ensures |RenderConstraint(c)| > 1 && (RenderConstraint(c)[1] == '=' <==> !c.op.EQ? && !c.Limit().exclusive)
  {
    CanonicalText(c.version);
    var text := OpText(c.op) + Canonical(c.version);
    assert |OpText(c.op)| == 1 ==> text[1] == Canonical(c.version)[0];
  }

  /** A canonical string of a require that was read reads as one of the same meaning, with no other canonical string. */
  lemma CanonicalReads(text: string, r: Require, t: string)
    requires ReadRequire(text) == Some(r) && TameSet(r.constraints) && Satisfiable(r.constraints) && Renders(t, r)
    ensures ReadRequire(t).Some? && SameMeaning(r, ReadRequire(t).value)
    ensures forall u :: Renders(u, ReadRequire(t).value) ==> u == t
  {
    var s :| Simplest(r.constraints, s) && t == Render(r.name, s);
    ReadName(text, r);
    RenderReads(r.name, s);
    var q := ReadRequire(t).value;
    ListedTame(s);
    ListedSameSet(s);
    MeaningFromSets(r, q);
    SatisfiableToo(r.constraints, q.constraints);
    forall u | Renders(u, q) ensures u == t {
      CanonicalRequireDecides(r, t, q, u);
    }
  }

  lemma SatisfiableToo(a: seq<Constraint>, b: seq<Constraint>)
    requires SameSet(a, b) && Satisfiable(a)
    ensures Satisfiable(b)
  {
  }
}
