/** The index of the paths kits have contributed, by component. */
module Ownership {
  import opened Trees

  class OwnershipNode {
    const name: string
    const parent: OwnershipNode?
    const kit: string
    const directory: bool
    var children: map<string, OwnershipNode>
    var descendant: OwnershipNode?

    constructor (name: string, parent: OwnershipNode?, kit: string, directory: bool)
      ensures this.name == name && this.parent == parent && this.kit == kit && this.directory == directory
      ensures children == map[] && descendant == null
    {
      this.name, this.parent, this.kit, this.directory := name, parent, kit, directory;
      children, descendant := map[], null;
    }
  }

  type Index = map<Path, OwnershipNode>

  /** What the index's nodes hold: their children, and the first owned node below each. */
  type Held = map<Path, (map<string, OwnershipNode>, OwnershipNode?)>

  ghost function HeldBy(nodes: Index): Held
    reads nodes.Values
  {
    map p | p in nodes :: (nodes[p].children, nodes[p].descendant)
  }

  ghost predicate Hung(nodes: Index, held: Held, p: Path) {
    p != [] && p in nodes ==>
      && Parent(p) in held && Last(p) in held[Parent(p)].0 && held[Parent(p)].0[Last(p)] == nodes[p]
      && Parent(p) in nodes && nodes[p].parent == nodes[Parent(p)] && nodes[p].name == Last(p) && nodes[p].kit != ""
  }

  ghost predicate Listed(nodes: Index, held: Held, p: Path, name: string) {
    p in held && name in held[p].0 ==> p + [name] in nodes
  }

  ghost predicate Alone(nodes: Index, p: Path, q: Path) {
    p in nodes && q in nodes && nodes[p] == nodes[q] ==> p == q
  }

  /** `descendant` is one of the children, and null exactly where there are none. */
  ghost predicate Foremost(held: Held, p: Path) {
    p in held ==> if held[p].0 == map[] then held[p].1 == null else exists name :: name in held[p].0 && held[p].0[name] == held[p].1
  }

  ghost predicate Indexed(nodes: Index, held: Held) {
    && [] in nodes && nodes[[]].parent == null && nodes[[]].kit == ""
    && nodes.Keys == held.Keys
    && (forall p {:trigger Hung(nodes, held, p)} :: Hung(nodes, held, p))
    && (forall p, name {:trigger Listed(nodes, held, p, name)} :: Listed(nodes, held, p, name))
    && (forall p, q {:trigger Alone(nodes, p, q)} :: Alone(nodes, p, q))
    && (forall p {:trigger Foremost(held, p)} :: Foremost(held, p))
  }

  /** The root of the index these nodes are, one node a path, if they are one. */
  ghost function RootOf(nodes: Index): Option<OwnershipNode>
    reads nodes.Values
  {
    if Indexed(nodes, HeldBy(nodes)) then Some(nodes[[]]) else None
  }

  ghost function Grown(held: Held, p: Path, name: string, n: OwnershipNode): Held
    requires p in held
  {
    held[p := (held[p].0[name := n], if held[p].1 == null then n else held[p].1)][p + [name] := (map[], null)]
  }

  lemma GrownIndexed(nodes: Index, held: Held, p: Path, name: string, n: OwnershipNode)
    requires Indexed(nodes, held) && p in nodes && name !in held[p].0
    requires n !in nodes.Values && n.name == name && n.parent == nodes[p] && n.kit != ""
    ensures p + [name] !in nodes
    ensures Indexed(nodes[p + [name] := n], Grown(held, p, name, n))
  {
    var c := p + [name];
    var nodes', held' := nodes[c := n], Grown(held, p, name, n);
    assert Parent(c) == p && Last(c) == name && c != p;
    assert Hung(nodes, held, c);
    forall q ensures Hung(nodes', held', q) { GrownHung(nodes, held, p, name, n, q); }
    forall q, m ensures Listed(nodes', held', q, m) { assert Listed(nodes, held, q, m); }
    forall q, r ensures Alone(nodes', q, r) {
      assert Alone(nodes, q, r);
      assert q in nodes ==> nodes[q] in nodes.Values;
      assert r in nodes ==> nodes[r] in nodes.Values;
    }
    forall q ensures Foremost(held', q) { GrownForemost(held, p, name, n, q); }
  }

  lemma GrownHung(nodes: Index, held: Held, p: Path, name: string, n: OwnershipNode, q: Path)
    requires Indexed(nodes, held) && p in nodes && p + [name] !in nodes
    requires n.name == name && n.parent == nodes[p] && n.kit != ""
    ensures Hung(nodes[p + [name] := n], Grown(held, p, name, n), q)
  {
    var c := p + [name];
    assert Parent(c) == p && Last(c) == name && c != p;
    assert Hung(nodes, held, q);
    if q != [] && q != c && q in nodes {
      assert q == Parent(q) + [Last(q)];
    }
  }

  lemma GrownForemost(held: Held, p: Path, name: string, n: OwnershipNode, q: Path)
    requires p in held && Foremost(held, p) && Foremost(held, q) && name !in held[p].0
    ensures Foremost(Grown(held, p, name, n), q)
  {
    var held' := Grown(held, p, name, n);
    if q == p && p + [name] != p {
      assert name in held'[p].0;
      if held[p].1 != null {
        var m :| m in held[p].0 && held[p].0[m] == held[p].1;
        assert m in held'[p].0 && held'[p].0[m] == held'[p].1;
      }
    }
  }

  lemma OnlyOne(nodes: Index, p: Path)
    requires (forall p, q {:trigger Alone(nodes, p, q)} :: Alone(nodes, p, q)) && p in nodes
    ensures forall q :: q in nodes && nodes[q] == nodes[p] ==> q == p
  {
    forall q | q in nodes && nodes[q] == nodes[p] ensures q == p { assert Alone(nodes, p, q); }
  }

  lemma NodeBelow(nodes: Index, p: Path, name: string)
    requires RootOf(nodes).Some? && p in nodes
    ensures name in nodes[p].children <==> p + [name] in nodes
    ensures name in nodes[p].children ==> nodes[p].children[name] == nodes[p + [name]]
  {
    var c := p + [name];
    assert Parent(c) == p && Last(c) == name;
    assert Listed(nodes, HeldBy(nodes), p, name);
    assert Hung(nodes, HeldBy(nodes), c);
  }

  lemma {:induction false} PrefixIndexed(nodes: Index, p: Path, q: Path)
    requires RootOf(nodes).Some? && q in nodes && p <= q
    ensures p in nodes
    decreases |q|
  {
    if p < q {
      assert Hung(nodes, HeldBy(nodes), q);
      PrefixIndexed(nodes, p, Parent(q));
    } else {
      assert p == q;
    }
  }

  /** `descendant` is set exactly where some contributed path lies strictly below. */
  lemma DescendantIff(nodes: Index, p: Path)
    requires RootOf(nodes).Some? && p in nodes
    ensures nodes[p].descendant != null <==> exists q :: q in nodes && p < q
    ensures nodes[p].descendant != null ==>
      exists name :: p + [name] in nodes && nodes[p + [name]] == nodes[p].descendant
  {
    assert Foremost(HeldBy(nodes), p);
    if nodes[p].children == map[] {
      forall q | q in nodes && p < q
        ensures false
      {
        var c := p + [q[|p|]];
        assert c == q[..|p| + 1];
        PrefixIndexed(nodes, c, q);
        NodeBelow(nodes, p, q[|p|]);
      }
    } else {
      var name :| name in nodes[p].children && nodes[p].children[name] == nodes[p].descendant;
      NodeBelow(nodes, p, name);
      assert p + [name] in nodes && p < p + [name];
    }
  }

  /** Adds a path one kit contributes. */
  method Claim(parent: OwnershipNode, name: string, kit: string, directory: bool, ghost p: Path, ghost nodes: Index)
    returns (n: OwnershipNode)
    requires RootOf(nodes).Some? && p in nodes && nodes[p] == parent && name !in parent.children && kit != ""
    modifies parent
    ensures fresh(n) && n.kit == kit && n.directory == directory
    ensures p + [name] !in nodes && RootOf(nodes[p + [name] := n]) == old(RootOf(nodes))
  {
    ghost var held := HeldBy(nodes);
    n := new OwnershipNode(name, parent, kit, directory);
    GrownIndexed(nodes, held, p, name, n);
    parent.children := parent.children[name := n];
    if parent.descendant == null {
      parent.descendant := n;
    }
    OnlyOne(nodes, p);
    ghost var nodes' := nodes[p + [name] := n];
    assert p + [name] != p;
    assert HeldBy(nodes') == Grown(held, p, name, n);
    assert Parent(p + [name]) == p;
  }

  /** The path a node stands at, by its parents. */
  method PathOf(n: OwnershipNode, ghost p: Path, ghost nodes: Index) returns (path: Path)
    requires RootOf(nodes).Some? && p in nodes && nodes[p] == n
    ensures path == p
  {
    var at := n;
    path := [];
    ghost var q := p;
    while at.parent != null
      invariant q in nodes && nodes[q] == at && q + path == p
      decreases |q|
    {
      assert Hung(nodes, HeldBy(nodes), q);
      path := [at.name] + path;
      at := at.parent;
      assert q == Parent(q) + [Last(q)];
      q := Parent(q);
    }
    assert Hung(nodes, HeldBy(nodes), q);
  }
}
