/** Dependency graphs: the least order that puts every node after what it needs, by repeated removal. */
module Graphs {
  import opened Trees

  datatype Graph<T> = Graph(nodes: set<T>, needs: map<T, set<T>>) {
    ghost predicate Valid() {
      needs.Keys == nodes && forall u :: u in nodes ==> needs[u] <= nodes
    }
  }

  ghost predicate NoRepeats<T(!new)>(s: seq<T>) {
    forall i, j :: 0 <= i < j < |s| ==> s[i] != s[j]
  }

  ghost predicate StrictTotal<T(!new)>(less: (T, T) -> bool, nodes: set<T>) {
    && (forall a, b :: a in nodes && b in nodes ==> a == b || less(a, b) || less(b, a))
    && (forall a, b :: a in nodes && b in nodes && less(a, b) ==> a != b && !less(b, a))
    && (forall a, b, c :: a in nodes && b in nodes && c in nodes && less(a, b) && less(b, c) ==> less(a, c))
  }

  // What an order is, and when there is none

  /** Every node once, after all it needs. */
  ghost predicate Topological<T(!new)>(g: Graph<T>, out: seq<T>)
    requires g.Valid()
  {
    && NoRepeats(out) && (forall u :: u in g.nodes <==> u in out)
    && forall k, d :: 0 <= k < |out| && d in g.needs[out[k]] ==> d in out[..k]
  }

  ghost predicate FirstDifference<T(!new)>(less: (T, T) -> bool, a: seq<T>, b: seq<T>, k: nat) {
    k < |a| && k < |b| && a[..k] == b[..k] && less(a[k], b[k])
  }

  ghost predicate Precedes<T(!new)>(less: (T, T) -> bool, a: seq<T>, b: seq<T>) {
    exists k :: FirstDifference(less, a, b, k)
  }

  /** The lexicographically least of the topological orders. */
  ghost predicate LeastTopological<T(!new)>(g: Graph<T>, less: (T, T) -> bool, out: seq<T>)
    requires g.Valid()
  {
    Topological(g, out) && forall t :: Topological(g, t) ==> t == out || Precedes(less, out, t)
  }

  /** A walk along needs that comes back to where it began. */
  ghost predicate Cycle<T(!new)>(g: Graph<T>, p: seq<T>) {
    |p| >= 2 && p[0] == p[|p| - 1] && Walk(g, p)
  }

  ghost predicate Walk<T(!new)>(g: Graph<T>, p: seq<T>) {
    forall i :: 0 <= i < |p| - 1 ==> StepAt(g, p, i)
  }

  ghost predicate StepAt<T(!new)>(g: Graph<T>, p: seq<T>, i: nat)
    requires i + 1 < |p|
  {
    p[i] in g.needs && p[i + 1] in g.needs[p[i]]
  }

  ghost predicate Cyclic<T(!new)>(g: Graph<T>) {
    exists p :: Cycle(g, p)
  }

  lemma DifferOneWay<T(!new)>(less: (T, T) -> bool, nodes: set<T>, a: seq<T>, b: seq<T>, j: nat, k: nat)
    requires StrictTotal(less, nodes) && FirstDifference(less, a, b, j) && a[j] in nodes && b[j] in nodes
    requires k < |a| ==> a[k] in nodes
    ensures a != b && !FirstDifference(less, b, a, k)
  {
    if k < |a| && k < |b| {
      if j < k {
        assert a[..k][j] == a[j] && b[..k][j] == b[j];
      } else if k < j {
        assert a[..j][k] == a[k] && b[..j][k] == b[k];
      }
    }
  }

  lemma PrecedesOneWay<T(!new)>(less: (T, T) -> bool, nodes: set<T>, a: seq<T>, b: seq<T>)
    requires StrictTotal(less, nodes) && (forall u :: u in a ==> u in nodes) && (forall u :: u in b ==> u in nodes)
    requires Precedes(less, a, b)
    ensures a != b && !Precedes(less, b, a)
  {
    var j: nat :| FirstDifference(less, a, b, j);
    assert a[j] in a && b[j] in b;
    forall k: nat ensures !FirstDifference(less, b, a, k) {
      if k < |a| && k < |b| {
        assert a[k] in a && b[k] in b;
      }
      DifferOneWay(less, nodes, a, b, j, k);
    }
  }

  /** One graph has one least order. */
  lemma LeastIsUnique<T(!new)>(g: Graph<T>, less: (T, T) -> bool, a: seq<T>, b: seq<T>)
    requires g.Valid() && StrictTotal(less, g.nodes)
    requires LeastTopological(g, less, a) && LeastTopological(g, less, b)
    ensures a == b
  {
    if Precedes(less, a, b) {
      PrecedesOneWay(less, g.nodes, a, b);
    }
  }

  // Removal

  ghost predicate Ready<T(!new)>(g: Graph<T>, done: seq<T>, u: T)
    requires g.Valid()
  {
    u in g.nodes && u !in done && forall d :: d in g.needs[u] ==> d in done
  }

  /** Each node was the least of those ready when it was taken. */
  ghost predicate Greedy<T(!new)>(g: Graph<T>, less: (T, T) -> bool, out: seq<T>)
    requires g.Valid()
  {
    forall k :: 0 <= k < |out| ==> TakenLeast(g, less, out, k)
  }

  ghost predicate TakenLeast<T(!new)>(g: Graph<T>, less: (T, T) -> bool, out: seq<T>, k: nat)
    requires g.Valid() && k < |out|
  {
    Ready(g, out[..k], out[k]) && forall v :: Ready(g, out[..k], v) ==> v == out[k] || less(out[k], v)
  }

  ghost predicate Stuck<T(!new)>(g: Graph<T>, out: seq<T>)
    requires g.Valid()
  {
    forall u :: !Ready(g, out, u)
  }

  lemma GreedyNoRepeats<T(!new)>(g: Graph<T>, less: (T, T) -> bool, out: seq<T>)
    requires g.Valid() && Greedy(g, less, out)
    ensures NoRepeats(out) && forall u :: u in out ==> u in g.nodes
  {
    forall i, j | 0 <= i < j < |out| ensures out[i] != out[j] {
      assert TakenLeast(g, less, out, j);
      assert out[..j][i] == out[i];
    }
    forall k | 0 <= k < |out| ensures out[k] in g.nodes {
      assert TakenLeast(g, less, out, k);
    }
  }

  lemma {:induction false} CountNoRepeats<T(!new)>(s: seq<T>, nodes: set<T>)
    requires NoRepeats(s) && forall u :: u in s ==> u in nodes
    ensures |s| <= |nodes|
    ensures |s| == |nodes| <==> forall u :: u in nodes ==> u in s
    decreases |s|
  {
    if s == [] {
      if |nodes| > 0 {
        var u :| u in nodes;
      }
    } else {
      var last, rest := s[|s| - 1], s[..|s| - 1];
      forall u | u in rest ensures u in nodes - {last} {
        var i :| 0 <= i < |rest| && rest[i] == u;
        assert s[i] == u;
      }
      CountNoRepeats(rest, nodes - {last});
      assert last in nodes;
      assert s == rest + [last];
    }
  }

  lemma GreedyTopological<T(!new)>(g: Graph<T>, less: (T, T) -> bool, out: seq<T>)
    requires g.Valid() && Greedy(g, less, out) && |out| == |g.nodes|
    ensures Topological(g, out)
  {
    GreedyNoRepeats(g, less, out);
    CountNoRepeats(out, g.nodes);
    forall k, d | 0 <= k < |out| && d in g.needs[out[k]] ensures d in out[..k] {
      assert TakenLeast(g, less, out, k);
    }
  }

  lemma {:induction false} FirstDiffers<T(!new)>(a: seq<T>, b: seq<T>) returns (k: nat)
    requires |a| == |b| && a != b
    ensures k < |a| && a[..k] == b[..k] && a[k] != b[k]
    decreases |a|
  {
    if a[0] != b[0] {
      k := 0;
    } else {
      assert a == [a[0]] + a[1..] && b == [b[0]] + b[1..];
      var j := FirstDiffers(a[1..], b[1..]);
      k := j + 1;
      assert a[..k] == [a[0]] + a[1..][..j] && b[..k] == [b[0]] + b[1..][..j];
    }
  }

  lemma GreedyIsLeast<T(!new)>(g: Graph<T>, less: (T, T) -> bool, out: seq<T>)
    requires g.Valid() && Greedy(g, less, out) && |out| == |g.nodes|
    ensures LeastTopological(g, less, out)
  {
    GreedyTopological(g, less, out);
    forall t | Topological(g, t) ensures t == out || Precedes(less, out, t) {
      CountNoRepeats(t, g.nodes);
      if t != out {
        var k := FirstDiffers(out, t);
        TopologicalReady(g, t, k);
        assert TakenLeast(g, less, out, k);
        assert FirstDifference(less, out, t, k);
      }
    }
  }

  lemma TopologicalReady<T(!new)>(g: Graph<T>, t: seq<T>, k: nat)
    requires g.Valid() && Topological(g, t) && k < |t|
    ensures Ready(g, t[..k], t[k])
  {
    assert forall i :: 0 <= i < k ==> t[i] != t[k];
  }

  /** The order with the node at `j` moved up to `k`. */
  function Raised<T>(out: seq<T>, k: nat, j: nat): seq<T>
    requires k <= j < |out|
  {
    out[..k] + [out[j]] + out[k..j] + out[j + 1..]
  }

  lemma RaisedAt<T>(out: seq<T>, k: nat, j: nat, i: nat)
    requires k <= j < |out| && i < |out|
    ensures |Raised(out, k, j)| == |out|
    ensures Raised(out, k, j)[i] == if i < k || i > j then out[i] else if i == k then out[j] else out[i - 1]
  {
  }

  lemma RaisedHas<T>(out: seq<T>, k: nat, j: nat, i: nat, m: nat)
    requires k <= j < |out| && i < |out| && m < |out|
    requires if i < k || i > j then m < i else k < i && m < i - 1
    ensures out[m] in Raised(out, k, j)[..i]
  {
    var at := if m < k || m > j then m else if m == j then k else m + 1;
    RaisedAt(out, k, j, at);
    RaisedAt(out, k, j, i);
    assert Raised(out, k, j)[..i][at] == out[m];
  }

  lemma RaisedNodes<T(!new)>(out: seq<T>, k: nat, j: nat)
    requires k <= j < |out| && NoRepeats(out)
    ensures NoRepeats(Raised(out, k, j))
    ensures forall u :: u in out <==> u in Raised(out, k, j)
  {
    var t := Raised(out, k, j);
    assert |t| == |out| && forall i :: 0 <= i < |out| ==> t[i] == out[Before(k, j, i)];
    forall u | u in out ensures u in t {
      var m :| 0 <= m < |out| && out[m] == u;
      assert t[if m < k || m > j then m else if m == j then k else m + 1] == u;
    }
  }

  /** Where the node now at `i` stood. */
  function Before(k: nat, j: nat, i: nat): nat
    requires k <= j
  {
    if i < k || i > j then i else if i == k then j else i - 1
  }

  lemma RaisedNeeds<T(!new)>(g: Graph<T>, out: seq<T>, k: nat, j: nat, i: nat, d: T)
    requires g.Valid() && Topological(g, out) && k <= j < |out| && Ready(g, out[..k], out[j]) && i < |out|
    requires d in g.needs[out[Before(k, j, i)]]
    ensures d in Raised(out, k, j)[..i]
  {
    if i == k {
      assert Raised(out, k, j)[..k] == out[..k];
    } else {
      var was := Before(k, j, i);
      assert d in out[..was];
      var m :| 0 <= m < was && out[..was][m] == d;
      RaisedHas(out, k, j, i, m);
    }
  }

  lemma RaisedTopological<T(!new)>(g: Graph<T>, out: seq<T>, k: nat, j: nat)
    requires g.Valid() && Topological(g, out) && k <= j < |out| && Ready(g, out[..k], out[j])
    ensures Topological(g, Raised(out, k, j))
  {
    var t := Raised(out, k, j);
    RaisedNodes(out, k, j);
    forall i, d | 0 <= i < |t| && d in g.needs[t[i]] ensures d in t[..i] {
      RaisedAt(out, k, j, i);
      RaisedNeeds(g, out, k, j, i, d);
    }
  }

  lemma Agree<T>(a: seq<T>, b: seq<T>, k: nat, i: nat)
    requires i < k <= |a| && k <= |b| && a[..k] == b[..k]
    ensures a[i] == b[i]
  {
    assert a[..k][i] == a[i] && b[..k][i] == b[i];
  }

  /** In the least order each node is the least of those ready when it comes. */
  lemma LeastTakesLeast<T(!new)>(g: Graph<T>, less: (T, T) -> bool, out: seq<T>, k: nat, v: T)
    requires g.Valid() && StrictTotal(less, g.nodes) && LeastTopological(g, less, out) && k < |out| && Ready(g, out[..k], v)
    ensures v == out[k] || less(out[k], v)
  {
    var j :| 0 <= j < |out| && out[j] == v;
    assert forall i :: 0 <= i < k ==> out[i] in out[..k];
    var t := Raised(out, k, j);
    RaisedTopological(g, out, k, j);
    RaisedAt(out, k, j, k);
    if v != out[k] {
      var m: nat :| FirstDifference(less, out, t, m);
      assert t[..k] == out[..k] && out[m] in out;
      if m > k {
        Agree(out, t, m, k);
      } else if m < k {
        Agree(out, t, k, m);
      }
    }
  }

  /** Stuck before the end, the nodes left need each other in a circle. */
  lemma StuckIsCyclic<T(!new)>(g: Graph<T>, less: (T, T) -> bool, out: seq<T>)
    requires g.Valid() && Greedy(g, less, out) && Stuck(g, out) && |out| != |g.nodes|
    ensures Cyclic(g)
  {
    GreedyNoRepeats(g, less, out);
    CountNoRepeats(out, g.nodes);
    var left := set u | u in g.nodes && u !in out;
    var u :| u in g.nodes && u !in out;
    forall v | v in left ensures v in g.needs && exists d :: d in g.needs[v] && d in left {
      assert !Ready(g, out, v);
      var d :| d in g.needs[v] && d !in out;
      assert d in left;
    }
    WalkToCycle(g, left, [u]);
  }

  lemma WalkOn<T(!new)>(g: Graph<T>, p: seq<T>, d: T)
    requires p != [] && Walk(g, p) && p[|p| - 1] in g.needs && d in g.needs[p[|p| - 1]]
    ensures Walk(g, p + [d])
  {
    var q := p + [d];
    forall i | 0 <= i < |q| - 1 ensures StepAt(g, q, i) {
      if i < |p| - 1 {
        assert StepAt(g, p, i);
      }
    }
  }

  lemma WalkFrom<T(!new)>(g: Graph<T>, p: seq<T>, k: nat)
    requires k < |p| && Walk(g, p)
    ensures Walk(g, p[k..])
  {
    forall i | 0 <= i < |p[k..]| - 1 ensures StepAt(g, p[k..], i) {
      assert StepAt(g, p, k + i);
    }
  }

  /** A walk that can always go on among finitely many nodes meets itself. */
  lemma {:induction false} WalkToCycle<T(!new)>(g: Graph<T>, left: set<T>, p: seq<T>)
    requires p != [] && Walk(g, p) && NoRepeats(p) && forall u :: u in p ==> u in left
    requires forall v :: v in left ==> v in g.needs && exists d :: d in g.needs[v] && d in left
    ensures Cyclic(g)
    decreases |left| - |p|
  {
    var last := p[|p| - 1];
    assert last in left;
    var d :| d in g.needs[last] && d in left;
    if d in p {
      MeetsItself(g, p, d);
    } else {
      WalkOn(g, p, d);
      OneMoreNode(left, p, d);
      WalkToCycle(g, left, p + [d]);
    }
  }

  lemma MeetsItself<T(!new)>(g: Graph<T>, p: seq<T>, d: T)
    requires p != [] && Walk(g, p) && p[|p| - 1] in g.needs && d in g.needs[p[|p| - 1]] && d in p
    ensures Cyclic(g)
  {
    var i :| 0 <= i < |p| && p[i] == d;
    var q := p + [d];
    WalkOn(g, p, d);
    WalkFrom(g, q, i);
    assert q[i..][0] == d && q[i..][|q[i..]| - 1] == d;
    assert Cycle(g, q[i..]);
  }

  lemma OneMoreNode<T(!new)>(left: set<T>, p: seq<T>, d: T)
    requires NoRepeats(p) && (forall u :: u in p ==> u in left) && d in left && d !in p
    ensures NoRepeats(p + [d]) && (forall u :: u in p + [d] ==> u in left) && |p| < |left|
  {
    CountNoRepeats(p, left);
  }

  lemma {:induction false} WalkGoesBack<T(!new)>(g: Graph<T>, out: seq<T>, p: seq<T>, i: nat, j: nat) returns (k: nat)
    requires g.Valid() && Topological(g, out) && Walk(g, p)
    requires i < |p| && j < |out| && out[j] == p[i]
    ensures k <= j < |out| && out[k] == p[|p| - 1] && (i < |p| - 1 ==> k < j)
    decreases |p| - i
  {
    k := j;
    if i < |p| - 1 {
      assert StepAt(g, p, i) && p[i + 1] in out[..j];
      var m :| 0 <= m < j && out[m] == p[i + 1];
      k := WalkGoesBack(g, out, p, i + 1, m);
    }
  }

  lemma CyclicHasNoOrder<T(!new)>(g: Graph<T>, out: seq<T>)
    requires g.Valid() && Topological(g, out)
    ensures !Cyclic(g)
  {
    forall p ensures !Cycle(g, p) {
      if Cycle(g, p) {
        assert StepAt(g, p, 0) && p[0] in out;
        var j :| 0 <= j < |out| && out[j] == p[0];
        var k := WalkGoesBack(g, out, p, 0, j);
      }
    }
  }

  // The tables the removal works on

  /** What each node still waits for. */
  ghost function Waiting<T(!new)>(g: Graph<T>, done: seq<T>, u: T): set<T>
    requires u in g.needs
  {
    set d | d in g.needs[u] && d !in done
  }

  /** `dependents` lists the nodes that need each one, and `indegree` counts what each waits for. */
  ghost predicate Tabled<T(!new)>(g: Graph<T>, dependents: map<T, seq<T>>) {
    && g.Valid() && dependents.Keys == g.nodes
    && forall d :: d in g.nodes ==> Dependents(g, dependents[d], d)
  }

  ghost predicate Dependents<T(!new)>(g: Graph<T>, s: seq<T>, d: T)
    requires g.Valid()
  {
    NoRepeats(s) && forall u :: u in s <==> u in g.nodes && d in g.needs[u]
  }

  ghost predicate Counted<T(!new)>(g: Graph<T>, indegree: map<T, int>, done: seq<T>)
    requires g.Valid()
  {
    indegree.Keys == g.nodes && forall u :: u in g.nodes ==> indegree[u] == |Waiting(g, done, u)|
  }

  ghost predicate ReadyList<T(!new)>(g: Graph<T>, ready: seq<T>, done: seq<T>)
    requires g.Valid()
  {
    NoRepeats(ready) && forall u :: u in ready <==> Ready(g, done, u)
  }

  /** What the nodes taken need has been taken. */
  ghost predicate Closed<T(!new)>(g: Graph<T>, done: seq<T>)
    requires g.Valid()
  {
    forall u, d :: u in done && u in g.nodes && d in g.needs[u] ==> d in done
  }

  lemma GreedyClosed<T(!new)>(g: Graph<T>, less: (T, T) -> bool, out: seq<T>)
    requires g.Valid() && Greedy(g, less, out)
    ensures Closed(g, out)
  {
    forall u, d | u in out && u in g.nodes && d in g.needs[u] ensures d in out {
      var k :| 0 <= k < |out| && out[k] == u;
      assert TakenLeast(g, less, out, k) && d in out[..k];
    }
  }

  lemma NoneWaiting<T(!new)>(g: Graph<T>, done: seq<T>, u: T)
    requires g.Valid() && u in g.nodes
    ensures |Waiting(g, done, u)| == 0 <==> forall d :: d in g.needs[u] ==> d in done
  {
    if forall d :: d in g.needs[u] ==> d in done {
      assert Waiting(g, done, u) == {};
    }
    if |Waiting(g, done, u)| == 0 {
      forall d | d in g.needs[u] ensures d in done {
        assert d !in Waiting(g, done, u);
      }
    }
  }

  lemma OneLessWaiting<T(!new)>(g: Graph<T>, done: seq<T>, next: T, u: T)
    requires g.Valid() && u in g.nodes && next !in done
    ensures |Waiting(g, done + [next], u)| == |Waiting(g, done, u)| - (if next in g.needs[u] then 1 else 0)
  {
    var before, after := Waiting(g, done, u), Waiting(g, done + [next], u);
    assert after == before - {next};
  }

  function Insert<T>(less: (T, T) -> bool, x: T, s: seq<T>): seq<T> {
    if s == [] || less(x, s[0]) then [x] + s else [s[0]] + Insert(less, x, s[1..])
  }

  ghost predicate Ascending<T(!new)>(less: (T, T) -> bool, s: seq<T>) {
    forall i, j :: 0 <= i < j < |s| ==> less(s[i], s[j])
  }

  lemma {:induction false} InsertAscends<T(!new)>(less: (T, T) -> bool, nodes: set<T>, x: T, s: seq<T>)
    requires StrictTotal(less, nodes) && x in nodes && x !in s && Ascending(less, s) && forall u :: u in s ==> u in nodes
    ensures Ascending(less, Insert(less, x, s)) && forall u :: u in Insert(less, x, s) <==> u == x || u in s
    decreases |s|
  {
    var r := Insert(less, x, s);
    if s != [] {
      assert s[0] in nodes;
      if less(x, s[0]) {
        forall j | 0 <= j < |s| ensures less(x, s[j]) {
          assert s[j] in nodes;
        }
      } else {
        var rest := Insert(less, x, s[1..]);
        assert less(s[0], x);
        InsertAscends(less, nodes, x, s[1..]);
        forall j | 0 <= j < |rest| ensures less(s[0], rest[j]) {
          assert rest[j] in rest;
          if rest[j] != x {
            var i :| 0 <= i < |s[1..]| && s[1..][i] == rest[j];
            assert s[i + 1] == rest[j];
          }
        }
      }
    }
  }

  method Sort<T(!new)>(less: (T, T) -> bool, s: seq<T>, ghost nodes: set<T>) returns (r: seq<T>)
    requires StrictTotal(less, nodes) && NoRepeats(s) && forall u :: u in s ==> u in nodes
    ensures Ascending(less, r) && forall u :: u in r <==> u in s
  {
    r := [];
    for k := 0 to |s|
      invariant Ascending(less, r) && forall u :: u in r <==> u in s[..k]
    {
      assert s[k] !in s[..k];
      assert s[..k + 1] == s[..k] + [s[k]];
      InsertAscends(less, nodes, s[k], r);
      r := Insert(less, s[k], r);
    }
    Whole(s);
  }

  lemma Whole<T>(s: seq<T>)
    ensures s[..|s|] == s
  {
    assert s[..|s|] == s;
  }

  /** Lowers the counts of the nodes listed; those that reach zero are ready. */
  method Lower<T(==, !new)>(deps: seq<T>, indegree: map<T, int>, ready: seq<T>) returns (indegree': map<T, int>, ready': seq<T>)
    requires NoRepeats(deps) && NoRepeats(ready) && forall u :: u in deps ==> u in indegree && u !in ready
    ensures indegree'.Keys == indegree.Keys
    ensures forall u :: u in indegree ==> indegree'[u] == indegree[u] - (if u in deps then 1 else 0)
    ensures NoRepeats(ready') && forall u :: u in ready' <==> u in ready || (u in deps && indegree'[u] == 0)
  {
    indegree', ready' := indegree, ready;
    ghost var freed: set<T> := {};
    for j := 0 to |deps|
      invariant indegree'.Keys == indegree.Keys
      invariant forall i :: 0 <= i < |deps| ==> (deps[i] in freed <==> i < j)
      invariant forall u :: u in freed ==> u in deps
      invariant forall u :: u in indegree ==> indegree'[u] == indegree[u] - (if u in freed then 1 else 0)
      invariant NoRepeats(ready')
      invariant forall u :: u in ready' <==> u in ready || (u in freed && indegree'[u] == 0)
    {
      var dep := deps[j];
      assert dep in deps && dep !in ready';
      indegree' := indegree'[dep := indegree'[dep] - 1];
      if indegree'[dep] == 0 {
        ready' := ready' + [dep];
      }
      freed := freed + {dep};
    }
  }

  /** Takes `next` out of the counts of its dependents. */
  method Release<T(==, !new)>(ghost g: Graph<T>, dependents: map<T, seq<T>>, indegree: map<T, int>, ready: seq<T>,
      ghost done: seq<T>, next: T)
    returns (indegree': map<T, int>, ready': seq<T>)
    requires Tabled(g, dependents) && Counted(g, indegree, done) && Ready(g, done, next) && Closed(g, done)
    requires NoRepeats(ready) && forall u :: u in ready <==> Ready(g, done, u) && u != next
    ensures Counted(g, indegree', done + [next]) && ReadyList(g, ready', done + [next])
  {
    assert Dependents(g, dependents[next], next);
    indegree', ready' := Lower(dependents[next], indegree, ready);
    Released(g, dependents, indegree, indegree', ready', done, next);
  }

  lemma Released<T(!new)>(g: Graph<T>, dependents: map<T, seq<T>>, indegree: map<T, int>, indegree': map<T, int>,
      ready': seq<T>, done: seq<T>, next: T)
    requires Tabled(g, dependents) && Counted(g, indegree, done) && Ready(g, done, next) && Closed(g, done)
    requires indegree'.Keys == g.nodes
    requires forall u :: u in g.nodes ==> indegree'[u] == indegree[u] - (if u in dependents[next] then 1 else 0)
    requires forall u :: u in ready' <==> (Ready(g, done, u) && u != next) || (u in dependents[next] && indegree'[u] == 0)
    ensures Counted(g, indegree', done + [next]) && forall u :: u in ready' <==> Ready(g, done + [next], u)
  {
    forall u | u in g.nodes
      ensures indegree'[u] == |Waiting(g, done + [next], u)|
      ensures u in ready' <==> Ready(g, done + [next], u)
    {
      ReleasedAt(g, done, next, u);
    }
  }

  lemma ReleasedAt<T(!new)>(g: Graph<T>, done: seq<T>, next: T, u: T)
    requires g.Valid() && u in g.nodes && Ready(g, done, next) && Closed(g, done)
    ensures |Waiting(g, done + [next], u)| == |Waiting(g, done, u)| - (if next in g.needs[u] then 1 else 0)
    ensures Ready(g, done + [next], u) <==>
      (Ready(g, done, u) && u != next) || (next in g.needs[u] && |Waiting(g, done + [next], u)| == 0)
  {
    OneLessWaiting(g, done, next, u);
    NoneWaiting(g, done + [next], u);
    NoneWaiting(g, done, u);
  }

  lemma TakenOne<T(!new)>(g: Graph<T>, less: (T, T) -> bool, out: seq<T>, ready: seq<T>)
    requires g.Valid() && Greedy(g, less, out) && ready != [] && Ascending(less, ready)
    requires forall u :: u in ready <==> Ready(g, out, u)
    ensures Greedy(g, less, out + [ready[0]])
  {
    var next := out + [ready[0]];
    forall k | 0 <= k < |next| ensures TakenLeast(g, less, next, k) {
      assert next[..k] == out[..k];
      if k < |out| {
        assert TakenLeast(g, less, out, k);
      } else {
        assert out[..k] == out && ready[0] in ready;
      }
    }
  }

  /** Takes the least ready node, again and again, until none is. */
  method Drain<T(==, !new)>(ghost g: Graph<T>, less: (T, T) -> bool, dependents: map<T, seq<T>>, indegree: map<T, int>, ready: seq<T>)
    returns (out: seq<T>)
    requires Tabled(g, dependents) && StrictTotal(less, g.nodes)
    requires Counted(g, indegree, []) && ReadyList(g, ready, [])
    ensures Greedy(g, less, out) && Stuck(g, out)
  {
    out := [];
    var counts, list := indegree, ready;
    while list != []
      invariant Greedy(g, less, out) && |out| <= |g.nodes|
      invariant Counted(g, counts, out) && ReadyList(g, list, out)
      decreases |g.nodes| - |out|
    {
      var next;
      next, list := PopLeast(g, less, list, out);
      GreedyClosed(g, less, out);
      counts, list := Release(g, dependents, counts, list, out, next);
      out := out + [next];
      GreedyBounded(g, less, out);
    }
  }

  lemma GreedyBounded<T(!new)>(g: Graph<T>, less: (T, T) -> bool, out: seq<T>)
    requires g.Valid() && Greedy(g, less, out)
    ensures |out| <= |g.nodes|
  {
    GreedyNoRepeats(g, less, out);
    CountNoRepeats(out, g.nodes);
  }

  method PopLeast<T(==, !new)>(ghost g: Graph<T>, less: (T, T) -> bool, ready: seq<T>, ghost out: seq<T>)
    returns (next: T, rest: seq<T>)
    requires g.Valid() && StrictTotal(less, g.nodes) && Greedy(g, less, out) && ReadyList(g, ready, out) && ready != []
    ensures Ready(g, out, next) && Greedy(g, less, out + [next])
    ensures NoRepeats(rest) && forall u :: u in rest <==> Ready(g, out, u) && u != next
  {
    assert ready[0] in ready;
    var list := Sort(less, ready, g.nodes);
    next, rest := list[0], list[1..];
    assert next in list;
    RestOf(less, g.nodes, list);
    TakenOne(g, less, out, list);
  }

  lemma RestOf<T(!new)>(less: (T, T) -> bool, nodes: set<T>, s: seq<T>)
    requires StrictTotal(less, nodes) && s != [] && Ascending(less, s) && forall u :: u in s ==> u in nodes
    ensures NoRepeats(s[1..]) && forall u :: u in s[1..] <==> u in s && u != s[0]
  {
    forall i, j | 0 <= i < j < |s| ensures s[i] != s[j] {
      assert s[i] in s && s[j] in s;
    }
    forall u | u in s && u != s[0] ensures u in s[1..] {
      var i :| 0 <= i < |s| && s[i] == u;
      assert s[1..][i - 1] == u;
    }
  }

  /** Where removal ends decides everything: all taken is the least order, less is a cycle. */
  lemma DrainedDecides<T(!new)>(g: Graph<T>, less: (T, T) -> bool, out: seq<T>)
    requires g.Valid() && Greedy(g, less, out) && Stuck(g, out)
    ensures |out| == |g.nodes| <==> !Cyclic(g)
    ensures |out| == |g.nodes| ==> LeastTopological(g, less, out)
  {
    if |out| == |g.nodes| {
      GreedyIsLeast(g, less, out);
      CyclicHasNoOrder(g, out);
    } else {
      StuckIsCyclic(g, less, out);
    }
  }

  // Building the tables, and the whole sort

  /** The graph whose node `nodes[i]` needs exactly what `found[i]` lists, repeats and all. */
  ghost predicate Describes<T(!new)>(g: Graph<T>, nodes: seq<T>, found: seq<seq<T>>) {
    && g.Valid() && NoRepeats(nodes) && |found| == |nodes| && (forall u :: u in g.nodes <==> u in nodes)
    && forall i :: 0 <= i < |nodes| ==> NeedsListed(g, nodes[i], found[i])
  }

  ghost predicate NeedsListed<T(!new)>(g: Graph<T>, u: T, found: seq<T>) {
    u in g.needs && forall d :: d in g.needs[u] <==> d in found
  }

  /** The tables with the nodes of `seen` entered. */
  ghost predicate Entered<T(!new)>(g: Graph<T>, dependents: map<T, seq<T>>, indegree: map<T, int>, seen: set<T>)
    requires g.Valid()
  {
    && dependents.Keys == g.nodes && indegree.Keys == g.nodes
    && (forall d :: d in g.nodes ==> DependentsIn(g, dependents[d], d, seen))
    && forall u :: u in g.nodes ==> indegree[u] == if u in seen then |g.needs[u]| else 0
  }

  ghost predicate DependentsIn<T(!new)>(g: Graph<T>, s: seq<T>, d: T, seen: set<T>)
    requires g.Valid()
  {
    NoRepeats(s) && forall u :: u in s <==> u in seen && u in g.nodes && d in g.needs[u]
  }

  ghost function Elements<T(!new)>(s: seq<T>): set<T> {
    set u | u in s
  }

  lemma OneMoreElement<T(!new)>(s: seq<T>, i: nat)
    requires i < |s|
    ensures Elements(s[..i + 1]) == Elements(s[..i]) + {s[i]}
    ensures NoRepeats(s) ==> s[i] !in Elements(s[..i])
  {
    assert s[..i + 1] == s[..i] + [s[i]];
  }

  /** The tables with `u` listed under each of `deps`, and counting them. */
  ghost predicate ListedUnder<T(!new)>(u: T, deps: set<T>, before: map<T, seq<T>>, after: map<T, seq<T>>) {
    && after.Keys == before.Keys
    && forall d :: d in before ==> after[d] == if d in deps then before[d] + [u] else before[d]
  }

  ghost predicate CountsOnly<T(!new)>(u: T, n: int, before: map<T, int>, after: map<T, int>) {
    && after.Keys == before.Keys && u in after && after[u] == n
    && forall v :: v in before && v != u ==> after[v] == before[v]
  }

  /** An edge to `u` from what one relation found, unless it has one already. */
  method AddEdge<T(==, !new)>(u: T, p: T, deps: set<T>, dependents: map<T, seq<T>>, indegree: map<T, int>,
      ghost dependents0: map<T, seq<T>>, ghost indegree0: map<T, int>)
    returns (deps': set<T>, dependents': map<T, seq<T>>, indegree': map<T, int>)
    requires ListedUnder(u, deps, dependents0, dependents) && CountsOnly(u, |deps|, indegree0, indegree) && p in dependents0
    ensures deps' == deps + {p}
    ensures ListedUnder(u, deps', dependents0, dependents') && CountsOnly(u, |deps'|, indegree0, indegree')
  {
    deps', dependents', indegree' := deps, dependents, indegree;
    if p in deps {
      assert deps + {p} == deps;
    } else {
      deps' := deps + {p};
      dependents' := dependents[p := dependents[p] + [u]];
      indegree' := indegree[u := indegree[u] + 1];
    }
  }

  method AddEdges<T(==, !new)>(u: T, found: seq<T>, dependents: map<T, seq<T>>, indegree: map<T, int>)
    returns (dependents': map<T, seq<T>>, indegree': map<T, int>)
    requires u in indegree && indegree[u] == 0 && forall d :: d in found ==> d in dependents
    ensures ListedUnder(u, Elements(found), dependents, dependents') && CountsOnly(u, |Elements(found)|, indegree, indegree')
  {
    dependents', indegree' := dependents, indegree;
    var deps: set<T> := {};
    for j := 0 to |found|
      invariant deps == Elements(found[..j])
      invariant ListedUnder(u, deps, dependents, dependents') && CountsOnly(u, |deps|, indegree, indegree')
    {
      OneMoreElement(found, j);
      assert found[j] in found;
      deps, dependents', indegree' := AddEdge(u, found[j], deps, dependents', indegree', dependents, indegree);
    }
    Whole(found);
  }

  /** Enters one node. */
  method Enter<T(==, !new)>(ghost g: Graph<T>, u: T, found: seq<T>, dependents: map<T, seq<T>>, indegree: map<T, int>, ghost seen: set<T>)
    returns (dependents': map<T, seq<T>>, indegree': map<T, int>)
    requires g.Valid() && u in g.nodes && u !in seen && NeedsListed(g, u, found)
    requires Entered(g, dependents, indegree, seen)
    ensures Entered(g, dependents', indegree', seen + {u})
  {
    dependents', indegree' := AddEdges(u, found, dependents, indegree);
    assert Elements(found) == g.needs[u];
    forall d | d in g.nodes ensures DependentsIn(g, dependents'[d], d, seen + {u}) {
      DependentsOneMore(g, dependents[d], d, seen, u);
    }
  }

  lemma DependentsOneMore<T(!new)>(g: Graph<T>, s: seq<T>, d: T, seen: set<T>, u: T)
    requires g.Valid() && u in g.nodes && u !in seen && DependentsIn(g, s, d, seen)
    ensures DependentsIn(g, if d in g.needs[u] then s + [u] else s, d, seen + {u})
  {
    assert u !in s;
  }

  /** Where every node stands once all are entered. */
  lemma AllEntered<T(!new)>(g: Graph<T>, dependents: map<T, seq<T>>, indegree: map<T, int>, seen: set<T>)
    requires g.Valid() && Entered(g, dependents, indegree, seen) && g.nodes <= seen
    ensures Tabled(g, dependents) && Counted(g, indegree, [])
  {
    forall d | d in g.nodes ensures Dependents(g, dependents[d], d) {
      assert DependentsIn(g, dependents[d], d, seen);
    }
    forall u | u in g.nodes ensures indegree[u] == |Waiting(g, [], u)| {
      assert Waiting(g, [], u) == g.needs[u];
    }
  }

  lemma NoneEntered<T(!new)>(g: Graph<T>, nodes: seq<T>, dependents: map<T, seq<T>>, indegree: map<T, int>)
    requires g.Valid() && forall u :: u in g.nodes <==> u in nodes
    requires dependents.Keys == indegree.Keys == g.nodes
    requires forall u :: u in g.nodes ==> dependents[u] == [] && indegree[u] == 0
    ensures Entered(g, dependents, indegree, Elements(nodes[..0]))
  {
    assert Elements(nodes[..0]) == {};
  }

  method Tables<T(==, !new)>(ghost g: Graph<T>, nodes: seq<T>, found: seq<seq<T>>)
    returns (dependents: map<T, seq<T>>, indegree: map<T, int>)
    requires Describes(g, nodes, found)
    ensures Tabled(g, dependents) && Counted(g, indegree, [])
  {
    dependents := map u | u in nodes :: [];
    indegree := map u | u in nodes :: 0;
    NoneEntered(g, nodes, dependents, indegree);
    for i := 0 to |nodes|
      invariant Entered(g, dependents, indegree, Elements(nodes[..i]))
    {
      assert nodes[i] in nodes && NeedsListed(g, nodes[i], found[i]);
      OneMoreElement(nodes, i);
      dependents, indegree := Enter(g, nodes[i], found[i], dependents, indegree, Elements(nodes[..i]));
    }
    Whole(nodes);
    AllEntered(g, dependents, indegree, Elements(nodes));
  }

  method FirstReady<T(==, !new)>(ghost g: Graph<T>, nodes: seq<T>, indegree: map<T, int>) returns (ready: seq<T>)
    requires g.Valid() && NoRepeats(nodes) && (forall u :: u in g.nodes <==> u in nodes) && Counted(g, indegree, [])
    ensures ReadyList(g, ready, [])
  {
    ready := [];
    for i := 0 to |nodes|
      invariant NoRepeats(ready)
      invariant forall u :: u in ready <==> u in Elements(nodes[..i]) && u in g.nodes && indegree[u] == 0
    {
      var u := nodes[i];
      assert u in nodes;
      OneMoreElement(nodes, i);
      if indegree[u] == 0 {
        ready := ready + [u];
      }
    }
    Whole(nodes);
    forall u ensures u in ready <==> Ready(g, [], u) {
      if u in g.nodes {
        assert u in nodes;
        NoneWaiting(g, [], u);
      }
    }
  }

  /** The least topological order, or none when the graph has a cycle. */
  method TopologicalSort<T(==, !new)>(ghost g: Graph<T>, less: (T, T) -> bool, nodes: seq<T>, found: seq<seq<T>>)
    returns (out: Option<seq<T>>)
    requires Describes(g, nodes, found) && StrictTotal(less, g.nodes)
    ensures out.None? <==> Cyclic(g)
    ensures out.Some? ==> LeastTopological(g, less, out.value)
  {
    var dependents, indegree := Tables(g, nodes, found);
    var ready := FirstReady(g, nodes, indegree);
    var ordered := Drain(g, less, dependents, indegree, ready);
    DrainedDecides(g, less, ordered);
    CountNoRepeats(nodes, g.nodes);
    out := if |ordered| != |nodes| then None else Some(ordered);
  }
}
