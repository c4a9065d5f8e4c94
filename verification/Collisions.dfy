/** Whether a set of kits can be mounted together, by one index of the paths already owned. */
module Collisions {
  import opened Trees
  import opened Inventory
  import opened Ownership
  import opened Damage

  ghost predicate Owned(nodes: Index, p: Path) {
    p != [] && p in nodes
  }

  /** The index holds exactly what the kits contribute, under the kit that first did. */
  ghost predicate Claimed(nodes: Index, kits: seq<Tree>, refs: seq<string>) {
    && |kits| == |refs|
    && (forall i, p :: 0 <= i < |kits| && Contributed(kits[i], p) ==>
          Owned(nodes, p) && (nodes[p].directory <==> kits[i][p].Dir?))
    && (forall p :: Owned(nodes, p) ==>
          exists i :: 0 <= i < |kits| && Contributed(kits[i], p) && refs[i] == nodes[p].kit)
  }

  /** What the check refuses at one entry. */
  ghost predicate Offends(nodes: Index, t: Tree, p: Path)
    requires p in t
  {
    || (Owned(nodes, p) && !(t[p].Dir? && nodes[p].directory))
    || (Covers(t, p) && exists q :: q in nodes && p < q)
  }

  lemma InoffensiveIsHarmless(nodes: Index, kits: seq<Tree>, refs: seq<string>, t: Tree, i: nat)
    requires Claimed(nodes, kits, refs) && i < |kits|
    requires forall p :: p in t ==> !Offends(nodes, t, p)
    ensures Harmless(t, kits[i])
  {
    forall q | Contributed(kits[i], q)
      ensures !Damages(t, kits[i], q)
    {
      assert Owned(nodes, q);
      forall k | 0 <= k < |q|
        ensures !Covers(t, q[..k])
      {
        assert q[..k] < q;
      }
    }
  }

  /** The owned path `q` that the new kit damages, and its owner. */
  ghost predicate Victim(nodes: Index, t: Tree, q: Path, owner: string) {
    && Owned(nodes, q) && nodes[q].kit == owner
    && ((q in t && !(t[q].Dir? && nodes[q].directory)) || Hidden(t, q))
  }

  lemma VictimIsDamaged(nodes: Index, kits: seq<Tree>, refs: seq<string>, t: Tree, q: Path, owner: string)
    requires Claimed(nodes, kits, refs) && Victim(nodes, t, q, owner)
    ensures exists i :: 0 <= i < |kits| && refs[i] == owner && Contributed(kits[i], q) && Damages(t, kits[i], q)
  {
    var i :| 0 <= i < |kits| && Contributed(kits[i], q) && refs[i] == nodes[q].kit;
    assert Damages(t, kits[i], q);
  }

  /** `stack` holds the index's nodes on the way to `q`. */
  ghost predicate TrailIn(stack: seq<OwnershipNode?>, q: Path, nodes: Index) {
    && |stack| == |q| + 1
    && forall k {:trigger stack[k]} :: 0 <= k <= |q| ==> stack[k] == if q[..k] in nodes then nodes[q[..k]] else null
  }

  lemma TrailStep(stack: seq<OwnershipNode?>, q: Path, nodes: Index, p: Path, n: OwnershipNode?)
    requires TrailIn(stack, q, nodes) && p != [] && Parent(p) <= q
    requires n == if p in nodes then nodes[p] else null
    ensures TrailIn(stack[..|p|] + [n], p, nodes)
    ensures stack[|p| - 1] == if Parent(p) in nodes then nodes[Parent(p)] else null
  {
    var s := stack[..|p|] + [n];
    assert p[..|p|] == p;
    forall k | 0 <= k < |p|
      ensures s[k] == stack[k] && p[..k] == q[..k]
    {
      assert Parent(p)[..k] == p[..k] && Parent(p)[..k] == q[..k];
    }
    assert Parent(p) == q[..|p| - 1];
  }

  /** What the first walk knows of the node for one entry. */
  lemma EntryJudged(nodes: Index, t: Tree, p: Path, n: OwnershipNode?)
    requires RootOf(nodes).Some? && p in t && n == if p in nodes then nodes[p] else null
    ensures n == null ==> !Offends(nodes, t, p)
    ensures n != null ==> (n.kit != "" <==> Owned(nodes, p))
    ensures n != null ==> (n.descendant != null <==> exists q :: q in nodes && p < q)
    ensures n != null && n.descendant != null ==>
      exists name :: p + [name] in nodes && nodes[p + [name]] == n.descendant
  {
    if n == null {
      forall q | q in nodes ensures !(p < q) {
        if p < q { PrefixIndexed(nodes, p, q); assert false; }
      }
    } else {
      assert Hung(nodes, HeldBy(nodes), p);
      DescendantIff(nodes, p);
    }
  }

  lemma ChildIsVictim(nodes: Index, t: Tree, p: Path, name: string, owner: string)
    requires RootOf(nodes).Some? && Covers(t, p) && p + [name] in nodes && nodes[p + [name]].kit == owner
    ensures Victim(nodes, t, p + [name], owner)
  {
    var q := p + [name];
    assert q[..|p|] == p;
    assert HiddenFrom(t, q, 0);
  }

  /** What one entry damages, given the index's node for its path. */
  method Judge(entry: WalkEntry, node: OwnershipNode?, ghost p: Path, ghost t: Tree, ghost nodes: Index)
    returns (victim: Option<(Path, string)>)
    requires RootOf(nodes).Some? && p in t && entry == EntryFor(p, t[p])
    requires node == if p in nodes then nodes[p] else null
    ensures victim.None? ==> !Offends(nodes, t, p)
    ensures victim.Some? ==> Victim(nodes, t, victim.value.0, victim.value.1)
  {
    EntryJudged(nodes, t, p, node);
    if node != null {
      if node.kit != "" && (!entry.directory || !node.directory) {
        var path := PathOf(node, p, nodes);
        return Some((path, node.kit));
      }
      if node.descendant != null && (!entry.directory || entry.hides) {
        ghost var name :| p + [name] in nodes && nodes[p + [name]] == node.descendant;
        ChildIsVictim(nodes, t, p, name, node.descendant.kit);
        var path := PathOf(node.descendant, p + [name], nodes);
        return Some((path, node.descendant.kit));
      }
    }
    victim := None;
  }

  /** The first walk: looks for a path this kit would damage, claiming nothing. */
  method FindVictim(entries: seq<WalkEntry>, owners: OwnershipNode, ghost t: Tree, ghost paths: seq<Path>, ghost nodes: Index)
    returns (victim: Option<(Path, string)>)
    requires RootOf(nodes) == Some(owners)
    requires Covering(t, [], paths) && Stepwise(paths) && paths != [] && paths[0] == [] && entries == Report(t, paths)
    ensures victim.None? ==> forall p :: p in t ==> !Offends(nodes, t, p)
    ensures victim.Some? ==> Victim(nodes, t, victim.value.0, victim.value.1)
  {
    var stack: seq<OwnershipNode?> := [owners];
    var k := 0;
    while k < |entries|
      invariant 0 <= k <= |entries| && RootOf(nodes) == Some(owners)
      invariant if k == 0 then stack == [owners] else TrailIn(stack, paths[k - 1], nodes)
      invariant forall j :: 0 <= j < k ==> !Offends(nodes, t, paths[j])
    {
      var entry := entries[k];
      ghost var p := paths[k];
      assert entry == EntryFor(p, t[p]);
      var node: OwnershipNode? := owners;
      if entry.depth != 0 {
        ghost var n: OwnershipNode? := if p in nodes then nodes[p] else null;
        TrailStep(stack, paths[k - 1], nodes, p, n);
        node := stack[entry.depth - 1];
        ChildInIndex(nodes, p);
        node := if node != null && entry.name in node.children then node.children[entry.name] else null;
        stack := stack[..entry.depth] + [node];
      }
      victim := Judge(entry, node, p, t, nodes);
      if victim.Some? {
        return;
      }
      k := k + 1;
    }
    victim := None;
  }

  lemma ChildInIndex(nodes: Index, p: Path)
    requires RootOf(nodes).Some? && p != []
    ensures p in nodes ==>
      Parent(p) in nodes && Last(p) in nodes[Parent(p)].children && nodes[Parent(p)].children[Last(p)] == nodes[p]
    ensures p !in nodes && Parent(p) in nodes ==> Last(p) !in nodes[Parent(p)].children
  {
    assert p == Parent(p) + [Last(p)];
    assert Hung(nodes, HeldBy(nodes), p);
    assert Listed(nodes, HeldBy(nodes), Parent(p), Last(p));
  }

  /** The index after the contributed paths among `done` have been added to it. */
  ghost predicate Grew(nodes: Index, nodes': Index, t: Tree, ref: string, done: set<Path>) {
    && (forall q :: q in nodes' <==> q in nodes || (q in done && Contributed(t, q)))
    && (forall q :: q in nodes ==> nodes'[q] == nodes[q])
    && (forall q :: q in nodes' && q !in nodes ==>
          q in t && nodes'[q].kit == ref && (nodes'[q].directory <==> t[q].Dir?))
  }

  lemma GrewClaimed(nodes: Index, nodes': Index, kits: seq<Tree>, refs: seq<string>, t: Tree, ref: string, done: set<Path>)
    requires Claimed(nodes, kits, refs) && Grew(nodes, nodes', t, ref, done)
    requires forall p :: p in t ==> p in done && !Offends(nodes, t, p)
    ensures Claimed(nodes', kits + [t], refs + [ref])
  {
    var kits', refs' := kits + [t], refs + [ref];
    forall i, p | 0 <= i < |kits'| && Contributed(kits'[i], p)
      ensures Owned(nodes', p) && (nodes'[p].directory <==> kits'[i][p].Dir?)
    {
      if i < |kits| {
        assert Contributed(kits[i], p);
        assert Owned(nodes, p);
      } else if p in nodes {
        assert !Offends(nodes, t, p);
      }
    }
    forall p | Owned(nodes', p)
      ensures exists i :: 0 <= i < |kits'| && Contributed(kits'[i], p) && refs'[i] == nodes'[p].kit
    {
      if p in nodes {
        assert Owned(nodes, p);
        var i :| 0 <= i < |kits| && Contributed(kits[i], p) && refs[i] == nodes[p].kit;
        assert Contributed(kits'[i], p) && refs'[i] == nodes'[p].kit;
      } else {
        assert kits'[|kits|] == t && refs'[|kits|] == ref;
      }
    }
  }

  /** Takes the node for one contributed path, made if nobody had it. */
  method Take(parent: OwnershipNode, entry: WalkEntry, ref: string,
      ghost p: Path, ghost t: Tree, ghost nodes0: Index, ghost nodes: Index, ghost done: set<Path>)
    returns (node: OwnershipNode, ghost nodes': Index)
    requires RootOf(nodes).Some? && ref != "" && Contributed(t, p) && entry == EntryFor(p, t[p])
    requires Parent(p) in nodes && nodes[Parent(p)] == parent
    requires Grew(nodes0, nodes, t, ref, done)
    modifies parent
    ensures RootOf(nodes') == old(RootOf(nodes)) && p in nodes' && nodes'[p] == node
    ensures forall q :: q in nodes ==> q in nodes' && nodes'[q] == nodes[q]
    ensures forall q :: q in nodes' ==> q in nodes || fresh(nodes'[q])
    ensures Grew(nodes0, nodes', t, ref, done + {p})
  {
    ChildInIndex(nodes, p);
    nodes' := nodes;
    if entry.name in parent.children {
      node := parent.children[entry.name];
    } else {
      assert p == Parent(p) + [entry.name];
      node := Claim(parent, entry.name, ref, entry.directory, Parent(p), nodes);
      nodes' := nodes[p := node];
    }
  }

  /** The directory the walk is in after visiting `q`: a whiteout is not entered. */
  ghost function Entered(t: Tree, q: Path): Path
    requires q in t
  {
    if t[q].Whiteout? && q != [] then Parent(q) else q
  }

  lemma NextFromEntered(t: Tree, p: Path, q: Path)
    requires WellFormed(t) && p in t && q in t && p != [] && Parent(p) <= q
    ensures Parent(p) <= Entered(t, q)
    ensures IsDirAt(t, Parent(p))
  {
    assert Hangs(t, p);
    if Parent(p) == q {
    } else if Entered(t, q) != q {
      assert Parent(p) == q[..|p| - 1] && |p| - 1 < |q|;
    }
  }

  /** The stack stands at the directory the walk is in. */
  ghost predicate StandsAt(stack: seq<OwnershipNode?>, top: Path, nodes: Index) {
    && |stack| == |top| + 1
    && forall k {:trigger stack[k]} :: 0 <= k <= |top| ==> top[..k] in nodes && stack[k] == nodes[top[..k]]
  }

  lemma StandsUpTo(stack: seq<OwnershipNode?>, top: Path, nodes: Index, d: nat)
    requires StandsAt(stack, top, nodes) && d <= |top|
    ensures StandsAt(stack[..d + 1], top[..d], nodes) && top[..d] in nodes && stack[d] == nodes[top[..d]]
  {
    forall k | 0 <= k <= d ensures stack[..d + 1][k] == stack[k] && top[..d][..k] == top[..k] {}
  }

  lemma StandsOn(stack: seq<OwnershipNode?>, p: Path, nodes: Index, nodes': Index, node: OwnershipNode)
    requires p != [] && StandsAt(stack, Parent(p), nodes) && p in nodes' && nodes'[p] == node
    requires forall q :: q in nodes ==> q in nodes' && nodes'[q] == nodes[q]
    ensures StandsAt(stack + [node], p, nodes')
  {
    assert p[..|p|] == p;
    forall k | 0 <= k < |p| ensures (stack + [node])[k] == stack[k] && Parent(p)[..k] == p[..k] {}
  }

  lemma BackToParent(stack: seq<OwnershipNode?>, t: Tree, p: Path, q: Path, nodes: Index)
    requires WellFormed(t) && p in t && q in t && p != [] && Parent(p) <= q
    requires StandsAt(stack, Entered(t, q), nodes)
    ensures |p| <= |stack| && StandsAt(stack[..|p|], Parent(p), nodes)
    ensures Parent(p) in nodes && stack[|p| - 1] == nodes[Parent(p)]
    ensures Entered(t, p) == p || Entered(t, p) == Parent(p)
  {
    var top := Entered(t, q);
    NextFromEntered(t, p, q);
    StandsUpTo(stack, top, nodes, |p| - 1);
    assert top[..|p| - 1] == Parent(p);
  }

  /** One entry of the second walk. */
  method Visit(stack: seq<OwnershipNode?>, entry: WalkEntry, ref: string,
      ghost p: Path, ghost q: Path, ghost t: Tree, ghost nodes0: Index, ghost nodes: Index, ghost done: set<Path>)
    returns (stack': seq<OwnershipNode?>, ghost nodes': Index)
    requires RootOf(nodes).Some? && WellFormed(t) && ref != "" && Grew(nodes0, nodes, t, ref, done)
    requires p in t && q in t && p != [] && Parent(p) <= q && entry == EntryFor(p, t[p])
    requires StandsAt(stack, Entered(t, q), nodes)
    modifies nodes.Values
    ensures RootOf(nodes') == old(RootOf(nodes)) && Grew(nodes0, nodes', t, ref, done + {p})
    ensures StandsAt(stack', Entered(t, p), nodes')
    ensures forall q :: q in nodes' ==> q in nodes || fresh(nodes'[q])
    ensures forall q :: q in nodes ==> q in nodes' && nodes'[q] == nodes[q]
  {
    BackToParent(stack, t, p, q, nodes);
    stack', nodes' := stack[..entry.depth], nodes;
    if !entry.whiteout {
      var node;
      node, nodes' := Take(stack'[entry.depth - 1], entry, ref, p, t, nodes0, nodes, done);
      StandsOn(stack', p, nodes, nodes', node);
      stack' := stack' + [node];
    }
  }

  /** The first `k` paths are claimed, and the stack stands at the last of them. */
  ghost predicate Claiming(stack: seq<OwnershipNode?>, ref: string, t: Tree, paths: seq<Path>, k: nat, nodes: Index, nodes': Index, done: set<Path>)
    requires 0 < k <= |paths| && forall q :: q in paths ==> q in t
  {
    Grew(nodes, nodes', t, ref, done) && (forall j :: 0 <= j < k ==> paths[j] in done) && StandsAt(stack, Entered(t, paths[k - 1]), nodes')
  }

  lemma ClaimFromRoot(stack: seq<OwnershipNode?>, ref: string, t: Tree, paths: seq<Path>, nodes: Index)
    requires WellFormed(t) && paths != [] && paths[0] == [] && (forall q :: q in paths ==> q in t)
    requires |stack| == 1 && RootOf(nodes) == Some(stack[0])
    ensures Claiming(stack, ref, t, paths, 1, nodes, nodes, {[]})
  {
    assert IsDirAt(t, []);
  }

  method ClaimNext(stack: seq<OwnershipNode?>, entries: seq<WalkEntry>, ref: string, k: nat,
      ghost t: Tree, ghost paths: seq<Path>, ghost nodes: Index, ghost nodes1: Index, ghost done: set<Path>)
    returns (stack': seq<OwnershipNode?>, ghost nodes': Index)
    requires RootOf(nodes1).Some? && WellFormed(t) && ref != "" && (forall q :: q in paths ==> q in t)
    requires Stepwise(paths) && entries == Report(t, paths) && 0 < k < |paths|
    requires Claiming(stack, ref, t, paths, k, nodes, nodes1, done)
    modifies nodes1.Values
    ensures RootOf(nodes') == old(RootOf(nodes1)) && Claiming(stack', ref, t, paths, k + 1, nodes, nodes', done + {paths[k]})
    ensures forall q :: q in nodes' ==> q in nodes1 || fresh(nodes'[q])
    ensures forall q :: q in nodes1 ==> q in nodes' && nodes'[q] == nodes1[q]
  {
    ghost var p := paths[k];
    assert p in paths && entries[k] == EntryFor(p, t[p]);
    stack', nodes' := Visit(stack, entries[k], ref, p, paths[k - 1], t, nodes, nodes1, done);
  }

  /** The second walk: this kit's paths are claimed; deletions claim nothing. */
  method ClaimAll(entries: seq<WalkEntry>, owners: OwnershipNode, ref: string,
      ghost t: Tree, ghost paths: seq<Path>, ghost nodes: Index)
    returns (ghost nodes': Index, ghost done: set<Path>)
    requires RootOf(nodes) == Some(owners) && WellFormed(t) && ref != ""
    requires Covering(t, [], paths) && Stepwise(paths) && paths != [] && paths[0] == [] && entries == Report(t, paths)
    modifies nodes.Values
    ensures RootOf(nodes') == Some(owners) && Grew(nodes, nodes', t, ref, done) && forall p :: p in t ==> p in done
    ensures forall q :: q in nodes' ==> q in nodes || fresh(nodes'[q])
  {
    var stack: seq<OwnershipNode?> := [owners];
    nodes', done := nodes, {[]};
    ClaimFromRoot(stack, ref, t, paths, nodes);
    var k := 1;
    while k < |entries|
      invariant 1 <= k <= |entries| && RootOf(nodes') == Some(owners)
      invariant Claiming(stack, ref, t, paths, k, nodes, nodes', done) == true
      invariant forall q :: q in nodes' ==> q in nodes || fresh(nodes'[q])
    {
      stack, nodes' := ClaimNext(stack, entries, ref, k, t, paths, nodes, nodes', done);
      k, done := k + 1, done + {paths[k]};
    }
  }
}
