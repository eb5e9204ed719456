/** The specification of profit mining: pops from a max-ratio heap, the
    state kept between two pops and the steps that preserve it. */
module Profit {
  import opened Blocks
  import opened Mining

  /** The time spent mining the blocks. */
  function TotalHardness(s: seq<Block>): int {
    if s == [] then 0 else TotalHardness(s[..|s| - 1]) + s[|s| - 1].hardness
  }

  /** Blocks in non-increasing ratio order. */
  ghost predicate RatiosNonIncreasing(s: seq<Block>) {
    forall i, j | 0 <= i < j < |s| :: Ratio(s[j]) <= Ratio(s[i])
  }

  /** Mining one more block appends its item to the inventory. */
  lemma InventoryStep(start: seq<MinecraftItem>, mined: seq<Block>, block: Block)
    ensures start + ItemsOf(mined) + [block.item] == start + ItemsOf(mined + [block])
  {
    ItemsOfSnoc(mined, block);
  }

  /** A non-empty heap has a block of greatest ratio. */
  lemma MaxExists(heap: multiset<Block>)
    requires |heap| > 0
    ensures exists b :: b in heap && forall x | x in heap :: Ratio(x) <= Ratio(b)
    decreases |heap|
  {
    var y :| y in heap;
    var rest := heap - multiset{y};
    var best := y;
    if |rest| > 0 {
      MaxExists(rest);
      var m :| m in rest && forall x | x in rest :: Ratio(x) <= Ratio(m);
      if Ratio(y) <= Ratio(m) {
        best := m;
      }
    }
    forall x | x in heap ensures Ratio(x) <= Ratio(best) {
      assert x in rest || x == y;
    }
  }

  /** Removes and returns a block of greatest ratio from a non-empty heap. */
  method GetMax(heap: multiset<Block>) returns (block: Block, rest: multiset<Block>)
    requires |heap| > 0
    ensures block in heap && forall x | x in heap :: Ratio(x) <= Ratio(block)
    ensures rest == heap - multiset{block} && |rest| == |heap| - 1
  {
    MaxExists(heap);
    block :| block in heap && forall x | x in heap :: Ratio(x) <= Ratio(block);
    rest := heap - multiset{block};
  }

  /** Taking a block of greatest ratio from the heap keeps the mined blocks
      in non-increasing ratio order, each at least as good as any block left,
      whether or not the taken block is mined. */
  lemma GreedyStep(mined: seq<Block>, heap: multiset<Block>, block: Block)
    requires block in heap && forall x | x in heap :: Ratio(x) <= Ratio(block)
    requires RatiosNonIncreasing(mined)
    requires forall m, b | m in mined && b in heap :: Ratio(b) <= Ratio(m)
    ensures RatiosNonIncreasing(mined + [block])
    ensures forall m, b | m in mined + [block] && b in heap - multiset{block} :: Ratio(b) <= Ratio(m)
  {
    var s := mined + [block];
    forall i, j | 0 <= i < j < |s| ensures Ratio(s[j]) <= Ratio(s[i]) {
      if j == |mined| {
        assert s[i] in mined;
      }
    }
  }

  /** Moving a block from the heap to the end of a list keeps the count of
      every block. */
  lemma MoveBlock(heap: multiset<Block>, other: multiset<Block>, list: seq<Block>, block: Block)
    requires block in heap
    ensures (heap - multiset{block}) + other + multiset(list + [block]) == heap + other + multiset(list)
  {
    assert heap == (heap - multiset{block}) + multiset{block};
    assert multiset(list + [block]) == multiset(list) + multiset{block};
  }

  /** What the greedy rule makes of a sequence of popped blocks: the blocks
      mined, the blocks dropped and the time left. */
  datatype Outcome = Outcome(mined: seq<Block>, discarded: seq<Block>, remaining: int)

  /** Replays the popped blocks in popping order from the given time: a
      block is mined exactly when its hardness fits the time left, and
      dropped otherwise. */
  function Replay(popped: seq<Block>, time: int): Outcome
    decreases |popped|
  {
    if popped == [] then Outcome([], [], time)
    else
      var before := Replay(popped[..|popped| - 1], time);
      var block := popped[|popped| - 1];
      if block.hardness <= before.remaining then
        Outcome(before.mined + [block], before.discarded, before.remaining - block.hardness)
      else
        Outcome(before.mined, before.discarded + [block], before.remaining)
  }

  /** Every block was popped while time was left. */
  ghost predicate PoppedWhileTimeLeft(popped: seq<Block>, time: int) {
    forall i | 0 <= i < |popped| :: Replay(popped[..i], time).remaining > 0
  }

  /** The replay splits the popped blocks into mined and dropped ones. */
  lemma {:induction false} ReplayPartition(popped: seq<Block>, time: int)
    ensures multiset(Replay(popped, time).mined) + multiset(Replay(popped, time).discarded) == multiset(popped)
    decreases |popped|
  {
    if popped != [] {
      var front := popped[..|popped| - 1];
      ReplayPartition(front, time);
      assert popped == front + [popped[|popped| - 1]];
    }
  }

  /** The time left after the replay is the time less the hardness mined. */
  lemma {:induction false} ReplayTime(popped: seq<Block>, time: int)
    ensures Replay(popped, time).remaining == time - TotalHardness(Replay(popped, time).mined)
    decreases |popped|
  {
    if popped != [] {
      var front := popped[..|popped| - 1];
      var last := popped[|popped| - 1];
      var before := Replay(front, time);
      ReplayTime(front, time);
      if last.hardness <= before.remaining {
        var m := before.mined + [last];
        assert m[..|m| - 1] == before.mined;
      }
    }
  }

  /** The replay keeps the popping order: when the popped blocks come in
      non-increasing ratio order, so do the mined ones, and every mined or
      dropped block was popped. */
  lemma {:induction false} ReplayKeepsOrder(popped: seq<Block>, time: int)
    ensures forall b | b in Replay(popped, time).mined :: b in popped
    ensures forall b | b in Replay(popped, time).discarded :: b in popped
    ensures RatiosNonIncreasing(popped) ==> RatiosNonIncreasing(Replay(popped, time).mined)
    decreases |popped|
  {
    if popped != [] {
      var front := popped[..|popped| - 1];
      var last := popped[|popped| - 1];
      ReplayKeepsOrder(front, time);
      assert popped == front + [last];
      if RatiosNonIncreasing(popped) {
        assert RatiosNonIncreasing(front) by {
          forall i, j | 0 <= i < j < |front| ensures Ratio(front[j]) <= Ratio(front[i]) {
            assert front[i] == popped[i] && front[j] == popped[j];
          }
        }
        var m := Replay(front, time).mined;
        forall x | x in m ensures Ratio(last) <= Ratio(x) {
          var i :| 0 <= i < |front| && front[i] == x;
          assert popped[i] == x;
        }
      }
    }
  }

  /** A prefix of blocks popped while time was left was popped while time
      was left, and time was left after it. */
  lemma PoppedFront(popped: seq<Block>, time: int)
    requires PoppedWhileTimeLeft(popped, time) && popped != []
    ensures PoppedWhileTimeLeft(popped[..|popped| - 1], time)
    ensures Replay(popped[..|popped| - 1], time).remaining > 0
  {
    var front := popped[..|popped| - 1];
    assert popped[..|front|] == front;
    forall i | 0 <= i < |front| ensures Replay(front[..i], time).remaining > 0 {
      assert front[..i] == popped[..i];
    }
  }

  /** Blocks are popped only with a positive budget, and a positive budget
      is never overspent. */
  lemma ReplayRemaining(popped: seq<Block>, time: int)
    requires PoppedWhileTimeLeft(popped, time)
    ensures time <= 0 ==> popped == []
    ensures time > 0 ==> Replay(popped, time).remaining >= 0
  {
    if popped != [] {
      assert popped[..0] == [];
      PoppedFront(popped, time);
    }
  }

  /** A dropped block is one that did not fit a positive time left: its
      hardness is positive, and when all hardnesses are positive it exceeds
      the final time left. */
  lemma {:induction false} ReplayDiscards(popped: seq<Block>, time: int)
    requires PoppedWhileTimeLeft(popped, time)
    ensures forall d | d in Replay(popped, time).discarded :: d.hardness > 0
    ensures (forall b | b in popped :: b.hardness > 0) ==>
              forall d | d in Replay(popped, time).discarded :: d.hardness > Replay(popped, time).remaining
    decreases |popped|
  {
    if popped != [] {
      var front := popped[..|popped| - 1];
      var last := popped[|popped| - 1];
      PoppedFront(popped, time);
      ReplayDiscards(front, time);
      if forall b | b in popped :: b.hardness > 0 {
        assert forall b | b in front :: b in popped;
        assert last in popped;
      }
    }
  }

  /** What the pops so far give: the mined and dropped blocks and the time
      left are the replay of the popped blocks, each popped while time was
      left; the popped blocks and the heap together are the input, and the
      popped blocks come best ratio first, none worse than a block still in
      the heap. */
  ghost predicate PopTrace(blocks: seq<Block>, time: int, heap: multiset<Block>, popped: seq<Block>,
                           mined: seq<Block>, discarded: seq<Block>, remaining: int)
  {
    && Replay(popped, time) == Outcome(mined, discarded, remaining)
    && PoppedWhileTimeLeft(popped, time)
    && heap + multiset(popped) == multiset(blocks)
    && RatiosNonIncreasing(popped)
    && (forall p, b | p in popped && b in heap :: Ratio(b) <= Ratio(p))
  }

  lemma PopTraceStart(blocks: seq<Block>, time: int)
    ensures PopTrace(blocks, time, multiset(blocks), [], [], [], time)
  {
  }

  /** Popping a block of greatest ratio while time is left extends the trace;
      the block is mined exactly when it fits the time left. */
  lemma PopStep(blocks: seq<Block>, time: int, heap: multiset<Block>, popped: seq<Block>,
                mined: seq<Block>, discarded: seq<Block>, remaining: int, block: Block)
    requires PopTrace(blocks, time, heap, popped, mined, discarded, remaining)
    requires 0 < remaining
    requires block in heap && forall x | x in heap :: Ratio(x) <= Ratio(block)
    ensures Replay(popped + [block], time) ==
              if block.hardness <= remaining then Outcome(mined + [block], discarded, remaining - block.hardness)
              else Outcome(mined, discarded + [block], remaining)
    ensures var o := Replay(popped + [block], time);
      PopTrace(blocks, time, heap - multiset{block}, popped + [block], o.mined, o.discarded, o.remaining)
  {
    var next := popped + [block];
    assert next[..|next| - 1] == popped;
    GreedyStep(popped, heap, block);
    PoppedStep(popped, time, block);
    MoveBlock(heap, multiset{}, popped, block);
  }

  /** A block popped while time is left extends a trace popped while time
      was left. */
  lemma PoppedStep(popped: seq<Block>, time: int, block: Block)
    requires PoppedWhileTimeLeft(popped, time) && Replay(popped, time).remaining > 0
    ensures PoppedWhileTimeLeft(popped + [block], time)
  {
    var next := popped + [block];
    forall i | 0 <= i < |next| ensures Replay(next[..i], time).remaining > 0 {
      if i < |popped| {
        assert next[..i] == popped[..i];
      } else {
        assert next[..i] == popped;
      }
    }
  }

  /** What the trace gives once the loop has stopped. */
  lemma PopFinish(blocks: seq<Block>, time: int, heap: multiset<Block>, popped: seq<Block>,
                  mined: seq<Block>, discarded: seq<Block>, remaining: int)
    requires PopTrace(blocks, time, heap, popped, mined, discarded, remaining)
    requires remaining <= 0 || |heap| == 0
    ensures Replay(popped, time) == Outcome(mined, discarded, remaining)
    ensures PoppedWhileTimeLeft(popped, time)
    ensures multiset(popped) <= multiset(blocks)
    ensures remaining > 0 ==> multiset(popped) == multiset(blocks)
    ensures RatiosNonIncreasing(popped)
    ensures forall p, b | p in popped && b in multiset(blocks) - multiset(popped) :: Ratio(b) <= Ratio(p)
  {
    assert multiset(blocks) - multiset(popped) == heap;
  }

  /** Once the loop has stopped, the time left is the budget less the
      hardness of what was mined, and never below zero for a positive budget. */
  lemma ProfitFinishTime(blocks: seq<Block>, time: int, heap: multiset<Block>, popped: seq<Block>,
                         mined: seq<Block>, discarded: seq<Block>, remaining: int)
    requires PopTrace(blocks, time, heap, popped, mined, discarded, remaining)
    ensures remaining == time - TotalHardness(mined)
    ensures time <= 0 ==> mined == [] && discarded == []
    ensures time > 0 ==> 0 <= remaining && TotalHardness(mined) <= time
  {
    ReplayTime(popped, time);
    ReplayRemaining(popped, time);
  }

  /** Once the loop has stopped, the mined and the dropped blocks come from
      the input, all of it when time is left, and the blocks never popped are
      worth no more than any mined block. */
  lemma ProfitFinishCounts(blocks: seq<Block>, time: int, heap: multiset<Block>, popped: seq<Block>,
                           mined: seq<Block>, discarded: seq<Block>, remaining: int)
    requires PopTrace(blocks, time, heap, popped, mined, discarded, remaining)
    requires remaining <= 0 || |heap| == 0
    ensures multiset(mined) + multiset(discarded) <= multiset(blocks)
    ensures remaining > 0 ==> multiset(mined) + multiset(discarded) == multiset(blocks)
    ensures forall m, b | m in mined && b in multiset(blocks) - multiset(mined) - multiset(discarded) ::
              Ratio(b) <= Ratio(m)
  {
    ReplayPartition(popped, time);
    ReplayKeepsOrder(popped, time);
    assert multiset(blocks) - multiset(mined) - multiset(discarded) == heap;
  }

  /** Once the loop has stopped, the mined blocks are in non-increasing
      ratio order and every dropped block did not fit. */
  lemma ProfitFinishOrder(blocks: seq<Block>, time: int, heap: multiset<Block>, popped: seq<Block>,
                          mined: seq<Block>, discarded: seq<Block>, remaining: int)
    requires PopTrace(blocks, time, heap, popped, mined, discarded, remaining)
    ensures RatiosNonIncreasing(mined)
    ensures forall d | d in discarded :: d.hardness > 0
    ensures (forall b | b in blocks :: b.hardness > 0) ==> forall d | d in discarded :: d.hardness > remaining
  {
    ReplayKeepsOrder(popped, time);
    ReplayDiscards(popped, time);
    if forall b | b in blocks :: b.hardness > 0 {
      forall b | b in popped ensures b.hardness > 0 {
        assert b in multiset(blocks);
      }
    }
  }
}
