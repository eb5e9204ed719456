/** The game: a miner called Steve, a cave system and a checklist, with the
    depth-first exploration of the cave, the objective-mining filter and
    mining order, and the greedy time-budgeted profit mining. */
module Game {
  import opened Bst
  import opened Sorting
  import opened Collections
  import opened Blocks
  import opened Checklist
  import opened Mining
  import opened Caves

  import opened Exploration
  import opened Objective
  import opened Profit


  class NotMinecraft {
    const miner: Miner
    const caveSystem: CaveSystem
    const checklist: MinecraftChecklist

    constructor (caveSystem: CaveSystem, checklist: MinecraftChecklist)
      ensures fresh(miner) && miner.name == "Steve"
      ensures fresh(miner.inventory) && miner.inventory.items == []
      ensures this.caveSystem == caveSystem && this.checklist == checklist
    {
      miner := new Miner("Steve");
      this.caveSystem := caveSystem;
      this.checklist := checklist;
    }

    /** Depth-first exploration from the entrance with an explicit stack and
        a set of visited names. `order` lists the nodes whose blocks were
        collected, in collection order: the entrance first, every one
        reachable, no name twice, and every reachable node among them when
        no two nodes share a name. */
    method DfsExploreCave() returns (found: seq<MinecraftBlock>, ghost order: seq<nat>)
      requires WellFormed(caveSystem)
      ensures InCave(caveSystem, order)
      ensures |order| >= 1 && order[0] == caveSystem.entrance
      ensures forall k | 0 <= k < |order| :: Reachable(caveSystem, order[k])
      ensures forall k, l | 0 <= k < l < |order| ::
                caveSystem.nodes[order[k]].name != caveSystem.nodes[order[l]].name
      ensures found == BlocksOf(caveSystem, order)
      ensures UniqueNames(caveSystem) ==>
                forall i | 0 <= i < |caveSystem.nodes| && Reachable(caveSystem, i) :: i in order
      ensures |caveSystem.nodes[caveSystem.entrance].blocks| <= |found|
      ensures found[..|caveSystem.nodes[caveSystem.entrance].blocks|] == caveSystem.nodes[caveSystem.entrance].blocks
      ensures forall b | b in found ::
                exists i | 0 <= i < |caveSystem.nodes| && Reachable(caveSystem, i) :: b in caveSystem.nodes[i].blocks
      ensures UniqueNames(caveSystem) ==>
                forall i, b | 0 <= i < |caveSystem.nodes| && Reachable(caveSystem, i) && b in caveSystem.nodes[i].blocks ::
                  b in found
    {
      var c := caveSystem;
      var visited: set<string> := {};
      found := [];
      var stack: seq<nat> := [c.entrance];
      order := [];
      DfsStart(c);
      while stack != []
        invariant DfsState(c, visited, stack, order, found)
        decreases |AllNames(c) - visited|, |stack|
      {
        var current := stack[|stack| - 1];
        ghost var before := stack;
        stack := stack[..|stack| - 1];
        DfsPop(c, visited, before, order, found);
        var node := c.nodes[current];
        if node.name !in visited {
          ghost var popped := stack;
          ghost var names, collected := visited, found;
          visited := visited + {node.name};
          found := CollectBlocks(found, node.blocks);
          stack := PushUnvisited(c, stack, node.neighbours, visited);
          DfsVisit(c, names, popped, current, order, collected, stack);
          order := order + [current];
        } else {
          DfsSkip(c, visited, stack, current, order, found);
        }
      }
      DfsDone(c, visited, order, found);
      FoundBlocks(c, order, found);
    }

    /** The explored blocks, in their order, that equal one of the
        checklist's blocks strictly between the ratios of `block1` and
        `block2`. */
    method ObjectiveMiningFilter(blocks: seq<MinecraftBlock>, block1: Block, block2: Block) returns (result: seq<MinecraftBlock>)
      requires checklist.Valid()
      ensures result == WithNameIn(blocks, OptimalBlocks(checklist.checklist.root, Ratio(block1), Ratio(block2)))
    {
      var optimal := checklist.GetOptimalBlocks(block1, block2);
      result := [];
      for i := 0 to |blocks|
        invariant result == WithNameIn(blocks[..i], optimal[..])
      {
        assert blocks[..i + 1][..i] == blocks[..i];
        if HasName(optimal[..], blocks[i]) {
          result := result + [blocks[i]];
        }
      }
      assert blocks[..|blocks|] == blocks;
    }

    /** Mines every block once, in non-increasing ratio order. */
    method ObjectiveMining(blocks: seq<Block>)
      modifies miner.inventory
      ensures miner.inventory == old(miner.inventory)
      ensures miner.inventory.items == old(miner.inventory.items) + ItemsOf(MiningOrder(blocks))
    {
      var sortedBlocks := MiningOrder(blocks);
      for i := 0 to |sortedBlocks|
        invariant miner.inventory == old(miner.inventory)
        invariant miner.inventory.items == old(miner.inventory.items) + ItemsOf(sortedBlocks[..i])
      {
        miner.Mine(sortedBlocks[i]);
        ItemsOfAppend(sortedBlocks[..i], [sortedBlocks[i]]);
        assert sortedBlocks[..i + 1] == sortedBlocks[..i] + [sortedBlocks[i]];
      }
      assert sortedBlocks[..|sortedBlocks|] == sortedBlocks;
    }

    /** Pops blocks from a max-ratio heap while time remains, mining a block
        only when its hardness fits the remaining time and discarding it
        otherwise. `mined` and `discarded` list the popped blocks in popping
        order and `remaining` is the time left at the end. */
    method ProfitMining(blocks: seq<Block>, timeInSeconds: int)
      returns (ghost popped: seq<Block>, ghost mined: seq<Block>, ghost discarded: seq<Block>, ghost remaining: int)
      modifies miner.inventory
      ensures miner.inventory == old(miner.inventory)
      ensures miner.inventory.items == old(miner.inventory.items) + ItemsOf(mined)
      ensures remaining == timeInSeconds - TotalHardness(mined)
      ensures timeInSeconds <= 0 ==> mined == [] && discarded == []
      ensures timeInSeconds > 0 ==> 0 <= remaining && TotalHardness(mined) <= timeInSeconds
      ensures multiset(mined) + multiset(discarded) <= multiset(blocks)
      ensures remaining > 0 ==> multiset(mined) + multiset(discarded) == multiset(blocks)
      ensures RatiosNonIncreasing(mined)
      ensures forall m, b | m in mined && b in multiset(blocks) - multiset(mined) - multiset(discarded) ::
                Ratio(b) <= Ratio(m)
      ensures forall d | d in discarded :: d.hardness > 0
      ensures (forall b | b in blocks :: b.hardness > 0) ==> forall d | d in discarded :: d.hardness > remaining
      ensures Replay(popped, timeInSeconds) == Outcome(mined, discarded, remaining)
      ensures PoppedWhileTimeLeft(popped, timeInSeconds)
      ensures multiset(popped) <= multiset(blocks)
      ensures remaining > 0 ==> multiset(popped) == multiset(blocks)
      ensures RatiosNonIncreasing(popped)
      ensures forall p, b | p in popped && b in multiset(blocks) - multiset(popped) :: Ratio(b) <= Ratio(p)
    {
      var heap := multiset(blocks);
      var remainingTime := timeInSeconds;
      popped, mined, discarded := [], [], [];
      PopTraceStart(blocks, timeInSeconds);
      while remainingTime > 0 && |heap| > 0
        invariant miner.inventory == old(miner.inventory)
        invariant miner.inventory.items == old(miner.inventory.items) + ItemsOf(mined)
        invariant PopTrace(blocks, timeInSeconds, heap, popped, mined, discarded, remainingTime)
        decreases |heap|
      {
        ghost var heap0 := heap;
        var block;
        block, heap := GetMax(heap);
        PopStep(blocks, timeInSeconds, heap0, popped, mined, discarded, remainingTime, block);
        popped := popped + [block];
        if block.hardness <= remainingTime {
          miner.Mine(block);
          InventoryStep(old(miner.inventory.items), mined, block);
          mined := mined + [block];
          remainingTime := remainingTime - block.hardness;
          if remainingTime == 0 {
            break;
          }
        } else {
          discarded := discarded + [block];
        }
      }
      ProfitFinishTime(blocks, timeInSeconds, heap, popped, mined, discarded, remainingTime);
      ProfitFinishCounts(blocks, timeInSeconds, heap, popped, mined, discarded, remainingTime);
      ProfitFinishOrder(blocks, timeInSeconds, heap, popped, mined, discarded, remainingTime);
      PopFinish(blocks, timeInSeconds, heap, popped, mined, discarded, remainingTime);
      remaining := remainingTime;
    }
  }
}
