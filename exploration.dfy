/** The specification of depth-first cave exploration: the state the
    exploration loop keeps and the steps that preserve it. */
module Exploration {
  import opened Blocks
  import opened Caves

  /** Every neighbour of an explored node has a visited name or is still
      waiting on the stack. */
  ghost predicate Frontier(c: CaveSystem, order: seq<nat>, visited: set<string>, stack: seq<nat>)
    requires WellFormed(c) && InCave(c, order)
  {
    forall k, j | 0 <= k < |order| && 0 <= j < |c.nodes[order[k]].neighbours| ::
      c.nodes[c.nodes[order[k]].neighbours[j]].name in visited || c.nodes[order[k]].neighbours[j] in stack
  }

  /** Every entry is a node reachable from the entrance. */
  ghost predicate AllReachable(c: CaveSystem, s: seq<nat>) {
    InCave(c, s) && forall k | 0 <= k < |s| :: Reachable(c, s[k])
  }

  /** `order` lists reachable nodes with pairwise distinct names, which are
      the visited names, and `found` holds their blocks. */
  ghost predicate Explored(c: CaveSystem, visited: set<string>, order: seq<nat>, found: seq<MinecraftBlock>) {
    && AllReachable(c, order)
    && visited == NamesOf(c, order) && visited <= AllNames(c)
    && (forall k, l | 0 <= k < l < |order| :: c.nodes[order[k]].name != c.nodes[order[l]].name)
    && found == BlocksOf(c, order)
  }

  /** What holds each time the exploration loop tests its stack: `order`
      lists the explored nodes and `found` their blocks; the stack holds
      reachable nodes; and nothing reachable from an explored node, nor the
      entrance, has been lost. */
  ghost predicate DfsState(c: CaveSystem, visited: set<string>, stack: seq<nat>, order: seq<nat>, found: seq<MinecraftBlock>)
    requires WellFormed(c)
  {
    && AllReachable(c, stack) && Explored(c, visited, order, found)
    && Frontier(c, order, visited, stack)
    && (c.nodes[c.entrance].name in visited || c.entrance in stack)
    && (order == [] ==> stack == [c.entrance])
    && (order != [] ==> order[0] == c.entrance)
  }

  lemma DfsStart(c: CaveSystem)
    requires WellFormed(c)
    ensures DfsState(c, {}, [c.entrance], [], [])
  {
    EntranceReachable(c);
  }

  /** Popping a node whose name is already visited keeps the state. */
  lemma DfsSkip(c: CaveSystem, visited: set<string>, popped: seq<nat>, current: nat, order: seq<nat>, found: seq<MinecraftBlock>)
    requires WellFormed(c)
    requires DfsState(c, visited, popped + [current], order, found)
    requires current < |c.nodes| && c.nodes[current].name in visited
    ensures DfsState(c, visited, popped, order, found)
  {
    var before := popped + [current];
    PopFacts(c, popped, current);
    forall k, j | 0 <= k < |order| && 0 <= j < |c.nodes[order[k]].neighbours|
      ensures c.nodes[c.nodes[order[k]].neighbours[j]].name in visited || c.nodes[order[k]].neighbours[j] in popped
    {
      var n := c.nodes[order[k]].neighbours[j];
      if n != current && n in before {
        assert n in popped;
      }
    }
  }

  /** The stack is its top pushed onto the rest. */
  lemma DfsPop(c: CaveSystem, visited: set<string>, before: seq<nat>, order: seq<nat>, found: seq<MinecraftBlock>)
    requires WellFormed(c) && before != []
    requires DfsState(c, visited, before, order, found)
    ensures before == before[..|before| - 1] + [before[|before| - 1]]
    ensures before[|before| - 1] < |c.nodes|
  {
  }

  /** What the stack held below its top still lists reachable nodes. */
  lemma PopFacts(c: CaveSystem, popped: seq<nat>, current: nat)
    requires AllReachable(c, popped + [current])
    ensures AllReachable(c, popped) && current < |c.nodes| && Reachable(c, current)
    ensures c.entrance in popped + [current] && c.entrance != current ==> c.entrance in popped
  {
    var before := popped + [current];
    forall k | 0 <= k < |popped| ensures popped[k] < |c.nodes| && Reachable(c, popped[k]) {
      assert popped[k] == before[k];
    }
    assert before[|popped|] == current;
  }

  /** The stack after a visit: what was left below the popped node, then
      neighbours of the visited node. */
  lemma VisitStack(c: CaveSystem, popped: seq<nat>, current: nat, pushed: seq<nat>)
    requires WellFormed(c) && AllReachable(c, popped) && current < |c.nodes| && Reachable(c, current)
    requires forall x | x in pushed :: x in c.nodes[current].neighbours
    ensures AllReachable(c, popped + pushed)
  {
    var stack := popped + pushed;
    forall k | 0 <= k < |stack| ensures stack[k] < |c.nodes| && Reachable(c, stack[k]) {
      if k < |popped| {
        assert stack[k] == popped[k];
      } else {
        assert stack[k] == pushed[k - |popped|];
        ReachableStep(c, current, stack[k]);
      }
    }
  }

  /** The explored list after a visit lists reachable nodes. */
  lemma VisitOrder(c: CaveSystem, order: seq<nat>, current: nat)
    requires AllReachable(c, order) && current < |c.nodes| && Reachable(c, current)
    ensures AllReachable(c, order + [current])
    ensures BlocksOf(c, order + [current]) == BlocksOf(c, order) + c.nodes[current].blocks
  {
    var order' := order + [current];
    assert order'[..|order|] == order;
    forall k | 0 <= k < |order'| ensures order'[k] < |c.nodes| && Reachable(c, order'[k]) {
      if k < |order| {
        assert order'[k] == order[k];
      }
    }
  }

  /** Visiting a node adds exactly its name to the names of the explored
      nodes. */
  lemma VisitNames(c: CaveSystem, order: seq<nat>, current: nat)
    requires InCave(c, order) && current < |c.nodes|
    ensures InCave(c, order + [current])
    ensures NamesOf(c, order + [current]) == NamesOf(c, order) + {c.nodes[current].name}
  {
    var order' := order + [current];
    assert InCave(c, order') by {
      forall k | 0 <= k < |order'| ensures order'[k] < |c.nodes| {
        if k < |order| {
          assert order'[k] == order[k];
        }
      }
    }
    forall x | x in NamesOf(c, order') ensures x in NamesOf(c, order) + {c.nodes[current].name} {
      var k :| 0 <= k < |order'| && c.nodes[order'[k]].name == x;
      if k < |order| {
        assert order'[k] == order[k];
      }
    }
    forall x | x in NamesOf(c, order) ensures x in NamesOf(c, order') {
      var k :| 0 <= k < |order| && c.nodes[order[k]].name == x;
      assert order'[k] == order[k];
    }
    assert order'[|order|] == current;
  }

  /** Visiting a node whose name is new keeps the names pairwise distinct. */
  lemma VisitDistinct(c: CaveSystem, order: seq<nat>, current: nat)
    requires InCave(c, order) && current < |c.nodes|
    requires forall k, l | 0 <= k < l < |order| :: c.nodes[order[k]].name != c.nodes[order[l]].name
    requires c.nodes[current].name !in NamesOf(c, order)
    ensures InCave(c, order + [current])
    ensures forall k, l | 0 <= k < l < |order + [current]| ::
              c.nodes[(order + [current])[k]].name != c.nodes[(order + [current])[l]].name
  {
    var order' := order + [current];
    assert InCave(c, order') by {
      forall k | 0 <= k < |order'| ensures order'[k] < |c.nodes| {
        if k < |order| {
          assert order'[k] == order[k];
        }
      }
    }
    forall k, l | 0 <= k < l < |order'| ensures c.nodes[order'[k]].name != c.nodes[order'[l]].name {
      assert order'[k] == order[k];
      if l < |order| {
        assert order'[l] == order[l];
      } else {
        assert c.nodes[order[k]].name in NamesOf(c, order);
      }
    }
  }

  /** Visiting a new name leaves fewer names unvisited. */
  lemma VisitShrinks(c: CaveSystem, visited: set<string>, current: nat)
    requires current < |c.nodes| && c.nodes[current].name !in visited
    ensures visited <= AllNames(c) ==> visited + {c.nodes[current].name} <= AllNames(c)
    ensures |AllNames(c) - (visited + {c.nodes[current].name})| < |AllNames(c) - visited|
  {
    var name := c.nodes[current].name;
    assert name in AllNames(c);
    assert AllNames(c) - (visited + {name}) == (AllNames(c) - visited) - {name};
  }

  /** Exploring a reachable node with a new name adds its name and its
      blocks and leaves fewer names unvisited. */
  lemma VisitExplored(c: CaveSystem, visited: set<string>, order: seq<nat>, found: seq<MinecraftBlock>, current: nat)
    requires Explored(c, visited, order, found)
    requires current < |c.nodes| && Reachable(c, current) && c.nodes[current].name !in visited
    ensures Explored(c, visited + {c.nodes[current].name}, order + [current], found + c.nodes[current].blocks)
    ensures |AllNames(c) - (visited + {c.nodes[current].name})| < |AllNames(c) - visited|
  {
    VisitOrder(c, order, current);
    VisitNames(c, order, current);
    VisitDistinct(c, order, current);
    VisitShrinks(c, visited, current);
  }

  /** After a visit, every neighbour of an explored node still has a visited
      name or waits on the stack. */
  lemma VisitFrontier(c: CaveSystem, order: seq<nat>, visited: set<string>, popped: seq<nat>,
                      current: nat, pushed: seq<nat>)
    requires WellFormed(c) && InCave(c, order) && current < |c.nodes|
    requires Frontier(c, order, visited, popped + [current])
    requires forall x | x in c.nodes[current].neighbours ::
               c.nodes[x].name in visited + {c.nodes[current].name} || x in pushed
    ensures InCave(c, order + [current])
    ensures Frontier(c, order + [current], visited + {c.nodes[current].name}, popped + pushed)
  {
    var before := popped + [current];
    var order' := order + [current];
    var visited' := visited + {c.nodes[current].name};
    var stack := popped + pushed;
    assert InCave(c, order') by {
      forall k | 0 <= k < |order'| ensures order'[k] < |c.nodes| {
        if k < |order| {
          assert order'[k] == order[k];
        }
      }
    }
    forall k, j | 0 <= k < |order'| && 0 <= j < |c.nodes[order'[k]].neighbours|
      ensures c.nodes[c.nodes[order'[k]].neighbours[j]].name in visited' || c.nodes[order'[k]].neighbours[j] in stack
    {
      var n := c.nodes[order'[k]].neighbours[j];
      if k < |order| {
        assert order'[k] == order[k];
        assert n in before || c.nodes[n].name in visited;
        if n != current && n in before {
          assert n in popped;
        }
      } else {
        assert n in c.nodes[current].neighbours;
      }
    }
  }

  /** Exploring a node whose name is new keeps the state: its name becomes
      visited, its blocks are collected, and its unvisited neighbours are
      pushed. The number of unvisited names drops. */
  lemma DfsVisit(c: CaveSystem, visited: set<string>, popped: seq<nat>, current: nat,
                 order: seq<nat>, found: seq<MinecraftBlock>, stack: seq<nat>)
    requires WellFormed(c)
    requires DfsState(c, visited, popped + [current], order, found)
    requires current < |c.nodes| && c.nodes[current].name !in visited
    requires stack == popped + PushOrder(c, c.nodes[current].neighbours, visited + {c.nodes[current].name})
    ensures DfsState(c, visited + {c.nodes[current].name}, stack, order + [current], found + c.nodes[current].blocks)
    ensures |AllNames(c) - (visited + {c.nodes[current].name})| < |AllNames(c) - visited|
  {
    var node := c.nodes[current];
    var pushed := PushOrder(c, node.neighbours, visited + {node.name});
    PushOrderCovers(c, node.neighbours, visited + {node.name});
    PopFacts(c, popped, current);
    VisitStack(c, popped, current, pushed);
    VisitExplored(c, visited, order, found, current);
    VisitFrontier(c, order, visited, popped, current, pushed);
  }

  /** Once the stack is empty, the state gives what exploration promises. */
  lemma DfsDone(c: CaveSystem, visited: set<string>, order: seq<nat>, found: seq<MinecraftBlock>)
    requires WellFormed(c)
    requires DfsState(c, visited, [], order, found)
    ensures InCave(c, order)
    ensures |order| >= 1 && order[0] == c.entrance
    ensures forall k | 0 <= k < |order| :: Reachable(c, order[k])
    ensures forall k, l | 0 <= k < l < |order| :: c.nodes[order[k]].name != c.nodes[order[l]].name
    ensures found == BlocksOf(c, order)
    ensures UniqueNames(c) ==> forall i | 0 <= i < |c.nodes| && Reachable(c, i) :: i in order
  {
    if UniqueNames(c) {
      forall i | 0 <= i < |c.nodes| && Reachable(c, i) ensures i in order {
        var p :| IsPath(c, p) && p[|p| - 1] == i;
        ClosedListCoversPath(c, order, p);
      }
    }
  }

  /** What the explored list gives about the found blocks themselves: the
      entrance's blocks come first, every found block lies in a reachable
      node, and once every reachable node is explored, every block of a
      reachable node is found. */
  lemma FoundBlocks(c: CaveSystem, order: seq<nat>, found: seq<MinecraftBlock>)
    requires InCave(c, order) && |order| >= 1 && order[0] == c.entrance
    requires forall k | 0 <= k < |order| :: Reachable(c, order[k])
    requires found == BlocksOf(c, order)
    ensures |c.nodes[c.entrance].blocks| <= |found|
    ensures found[..|c.nodes[c.entrance].blocks|] == c.nodes[c.entrance].blocks
    ensures forall b | b in found :: exists i | 0 <= i < |c.nodes| && Reachable(c, i) :: b in c.nodes[i].blocks
    ensures (forall i | 0 <= i < |c.nodes| && Reachable(c, i) :: i in order) ==>
              forall i, b | 0 <= i < |c.nodes| && Reachable(c, i) && b in c.nodes[i].blocks :: b in found
  {
    BlocksOfStart(c, order);
    BlocksOfCovers(c, order);
    forall b | b in found ensures exists i | 0 <= i < |c.nodes| && Reachable(c, i) :: b in c.nodes[i].blocks {
      var k :| 0 <= k < |order| && b in c.nodes[order[k]].blocks;
      assert Reachable(c, order[k]);
    }
    if forall i | 0 <= i < |c.nodes| && Reachable(c, i) :: i in order {
      forall i, b | 0 <= i < |c.nodes| && Reachable(c, i) && b in c.nodes[i].blocks ensures b in found {
        var k :| 0 <= k < |order| && order[k] == i;
      }
    }
  }

  /** Appends the node's blocks in their order. */
  method CollectBlocks(found: seq<MinecraftBlock>, blocks: seq<MinecraftBlock>) returns (r: seq<MinecraftBlock>)
    ensures r == found + blocks
  {
    r := found;
    for i := 0 to |blocks|
      invariant r == found + blocks[..i]
    {
      r := r + [blocks[i]];
    }
    assert blocks[..|blocks|] == blocks;
  }

  /** Pushes the neighbours whose names are unvisited, from the last
      neighbour to the first, so the first ends on top. */
  method PushUnvisited(c: CaveSystem, stack: seq<nat>, neighbours: seq<nat>, visited: set<string>)
    returns (r: seq<nat>)
    requires forall k | 0 <= k < |neighbours| :: neighbours[k] < |c.nodes|
    ensures r == stack + PushOrder(c, neighbours, visited)
  {
    r := stack;
    for i := |neighbours| downto 0
      invariant r == stack + PushOrder(c, neighbours[i..], visited)
    {
      var neighbour := neighbours[i];
      assert neighbours[i..][1..] == neighbours[i + 1..];
      if c.nodes[neighbour].name !in visited {
        r := r + [neighbour];
      }
    }
    assert neighbours[0..] == neighbours;
  }
}
