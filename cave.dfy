/** The cave system as a finite graph: nodes indexed from 0, each with a
    name, the blocks lying in it and the indices of its neighbours, and one
    entrance node. The repository's CaveSystem class is not part of this
    model; this is the interface the explorer reads. */
module Caves {
  import opened Blocks

  datatype CaveNode = CaveNode(name: string, blocks: seq<MinecraftBlock>, neighbours: seq<nat>)

  datatype CaveSystem = CaveSystem(nodes: seq<CaveNode>, entrance: nat)

  /** Every index refers to a node: the objects of the original graph can
      only point at nodes that exist. */
  ghost predicate WellFormed(c: CaveSystem) {
    && c.entrance < |c.nodes|
    && forall i, j | 0 <= i < |c.nodes| && 0 <= j < |c.nodes[i].neighbours| :: c.nodes[i].neighbours[j] < |c.nodes|
  }

  /** All entries are node indices. */
  ghost predicate InCave(c: CaveSystem, s: seq<nat>) {
    forall k | 0 <= k < |s| :: s[k] < |c.nodes|
  }

  /** No two nodes share a name. */
  ghost predicate UniqueNames(c: CaveSystem) {
    forall i, j | 0 <= i < j < |c.nodes| :: c.nodes[i].name != c.nodes[j].name
  }

  ghost function AllNames(c: CaveSystem): set<string> {
    set i | 0 <= i < |c.nodes| :: c.nodes[i].name
  }

  /** A walk from the entrance along neighbour links. */
  ghost predicate IsPath(c: CaveSystem, p: seq<nat>) {
    && |p| >= 1
    && p[0] == c.entrance
    && InCave(c, p)
    && forall k | 0 <= k < |p| - 1 :: p[k + 1] in c.nodes[p[k]].neighbours
  }

  ghost predicate Reachable(c: CaveSystem, i: nat) {
    exists p :: IsPath(c, p) && p[|p| - 1] == i
  }

  /** The names of the listed nodes. */
  ghost function NamesOf(c: CaveSystem, s: seq<nat>): set<string>
    requires InCave(c, s)
  {
    set k | 0 <= k < |s| :: c.nodes[s[k]].name
  }

  /** The blocks of the listed nodes, node after node, each node's blocks in
      its own order. */
  function BlocksOf(c: CaveSystem, s: seq<nat>): (r: seq<MinecraftBlock>)
    requires forall k | 0 <= k < |s| :: s[k] < |c.nodes|
    ensures forall b | b in r :: exists k | 0 <= k < |s| :: b in c.nodes[s[k]].blocks
  {
    if s == [] then []
    else
      var front := s[..|s| - 1];
      var r := BlocksOf(c, front) + c.nodes[s[|s| - 1]].blocks;
      assert forall b | b in BlocksOf(c, front) :: exists k | 0 <= k < |front| :: b in c.nodes[s[k]].blocks;
      r
  }

  /** The blocks of the first listed node come first. */
  lemma {:induction false} BlocksOfStart(c: CaveSystem, s: seq<nat>)
    requires InCave(c, s) && |s| >= 1
    ensures |c.nodes[s[0]].blocks| <= |BlocksOf(c, s)|
    ensures BlocksOf(c, s)[..|c.nodes[s[0]].blocks|] == c.nodes[s[0]].blocks
    decreases |s|
  {
    if |s| == 1 {
      assert BlocksOf(c, s) == BlocksOf(c, []) + c.nodes[s[0]].blocks;
    } else {
      var front := s[..|s| - 1];
      BlocksOfStart(c, front);
    }
  }

  /** Every block of every listed node is collected. */
  lemma {:induction false} BlocksOfCovers(c: CaveSystem, s: seq<nat>)
    requires InCave(c, s)
    ensures forall k, b | 0 <= k < |s| && b in c.nodes[s[k]].blocks :: b in BlocksOf(c, s)
    decreases |s|
  {
    if s != [] {
      var front := s[..|s| - 1];
      BlocksOfCovers(c, front);
      forall k, b | 0 <= k < |s| && b in c.nodes[s[k]].blocks ensures b in BlocksOf(c, s) {
        if k < |front| {
          assert front[k] == s[k];
        }
      }
    }
  }

  lemma EntranceReachable(c: CaveSystem)
    requires WellFormed(c)
    ensures Reachable(c, c.entrance)
  {
    assert IsPath(c, [c.entrance]);
  }

  /** A neighbour of a reachable node is reachable. */
  lemma ReachableStep(c: CaveSystem, i: nat, j: nat)
    requires WellFormed(c)
    requires i < |c.nodes| && Reachable(c, i) && j in c.nodes[i].neighbours
    ensures Reachable(c, j)
  {
    var p :| IsPath(c, p) && p[|p| - 1] == i;
    var q := p + [j];
    assert q[|q| - 1] == j;
    assert IsPath(c, q) by {
      var n := c.nodes[i].neighbours;
      var m :| 0 <= m < |n| && n[m] == j;
      assert j < |c.nodes|;
      forall k | 0 <= k < |q| - 1 ensures q[k + 1] in c.nodes[q[k]].neighbours {
        if k < |p| - 1 {
          assert q[k] == p[k] && q[k + 1] == p[k + 1];
        }
      }
    }
  }

  /** With unique names, a node whose name is among the listed nodes' names
      is itself listed. */
  lemma NameDeterminesNode(c: CaveSystem, s: seq<nat>, i: nat)
    requires UniqueNames(c) && InCave(c, s)
    requires i < |c.nodes| && c.nodes[i].name in NamesOf(c, s)
    ensures i in s
  {
    var k :| 0 <= k < |s| && c.nodes[s[k]].name == c.nodes[i].name;
    assert s[k] == i;
  }

  /** When the listed nodes include the entrance's name and every neighbour
      of a listed node has a listed name, unique names make every node on a
      walk from the entrance a listed node. */
  lemma {:induction false} ClosedListCoversPath(c: CaveSystem, s: seq<nat>, p: seq<nat>)
    requires WellFormed(c) && UniqueNames(c) && InCave(c, s)
    requires c.nodes[c.entrance].name in NamesOf(c, s)
    requires forall k, j | 0 <= k < |s| && 0 <= j < |c.nodes[s[k]].neighbours| ::
               c.nodes[c.nodes[s[k]].neighbours[j]].name in NamesOf(c, s)
    requires IsPath(c, p)
    ensures p[|p| - 1] in s
    decreases |p|
  {
    if |p| == 1 {
      NameDeterminesNode(c, s, c.entrance);
    } else {
      var front := p[..|p| - 1];
      assert IsPath(c, front) by {
        forall k | 0 <= k < |front| - 1 ensures front[k + 1] in c.nodes[front[k]].neighbours {
          assert front[k] == p[k] && front[k + 1] == p[k + 1];
        }
      }
      ClosedListCoversPath(c, s, front);
      var last := p[|p| - 2];
      assert p[|p| - 1] in c.nodes[last].neighbours;
      var k :| 0 <= k < |s| && s[k] == last;
      var n := c.nodes[s[k]].neighbours;
      var j :| 0 <= j < |n| && n[j] == p[|p| - 1];
      NameDeterminesNode(c, s, p[|p| - 1]);
    }
  }

  /** The order in which the unvisited neighbours are pushed: last
      neighbour first, so that the first neighbour ends on top. */
  ghost function PushOrder(c: CaveSystem, ns: seq<nat>, visited: set<string>): seq<nat>
    requires forall k | 0 <= k < |ns| :: ns[k] < |c.nodes|
  {
    if ns == [] then []
    else PushOrder(c, ns[1..], visited) + (if c.nodes[ns[0]].name in visited then [] else [ns[0]])
  }

  /** Exactly the neighbours whose names are unvisited are pushed, and the
      first of them ends on top of the stack. */
  lemma {:induction false} PushOrderCovers(c: CaveSystem, ns: seq<nat>, visited: set<string>)
    requires forall k | 0 <= k < |ns| :: ns[k] < |c.nodes|
    ensures forall x | x in PushOrder(c, ns, visited) :: x in ns && c.nodes[x].name !in visited
    ensures forall x | x in ns :: c.nodes[x].name in visited || x in PushOrder(c, ns, visited)
    ensures ns != [] && c.nodes[ns[0]].name !in visited ==>
              PushOrder(c, ns, visited)[|PushOrder(c, ns, visited)| - 1] == ns[0]
  {
    if ns != [] {
      PushOrderCovers(c, ns[1..], visited);
      assert ns == [ns[0]] + ns[1..];
    }
  }
}
