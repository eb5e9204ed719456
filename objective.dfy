/** The specification of objective mining: the name filter over the
    checklist's optimal blocks and the order in which blocks are mined. */
module Objective {
  import opened Bst
  import opened Sorting
  import opened Blocks
  import opened Checklist

  /** `block in optimal`: membership by block equality, that is, by name. */
  predicate HasName(pool: seq<MinecraftBlock>, b: MinecraftBlock) {
    exists o | o in pool :: SameBlock(o, b)
  }

  /** The blocks of `s`, in their order, that equal some block of `pool`. */
  function WithNameIn(s: seq<MinecraftBlock>, pool: seq<MinecraftBlock>): (r: seq<MinecraftBlock>)
    ensures forall b | b in r :: b in s && HasName(pool, b)
    ensures forall b | b in s && HasName(pool, b) :: b in r
  {
    if s == [] then []
    else
      var front := s[..|s| - 1];
      var r := WithNameIn(front, pool) + (if HasName(pool, s[|s| - 1]) then [s[|s| - 1]] else []);
      assert forall b | b in s :: b in front || b == s[|s| - 1];
      r
  }

  /** Filtering a concatenation filters each part: the filter keeps order. */
  lemma {:induction false} WithNameInAppend(a: seq<MinecraftBlock>, b: seq<MinecraftBlock>, pool: seq<MinecraftBlock>)
    ensures WithNameIn(a + b, pool) == WithNameIn(a, pool) + WithNameIn(b, pool)
    decreases |b|
  {
    if b != [] {
      var b' := b[..|b| - 1];
      assert (a + b)[..|a + b| - 1] == a + b';
      WithNameInAppend(a, b', pool);
    } else {
      assert a + b == a;
    }
  }

  /** In a valid checklist, the objective filter keeps exactly the blocks
      sharing a name with a stored block whose ratio lies strictly between
      the two bounds. */
  lemma ObjectiveFilterMembers(s: seq<MinecraftBlock>, t: Tree<Block>, r1: Key, r2: Key, b: MinecraftBlock)
    requires IsBST(t) && KeyedByRatio(t)
    ensures var lower := if r1 <= r2 then r1 else r2;
      var upper := if r1 <= r2 then r2 else r1;
      b in WithNameIn(s, OptimalBlocks(t, r1, r2)) <==>
        b in s && exists o: Block | (Ratio(o), o) in InOrder(t) :: SameBlock(o, b) && lower < Ratio(o) < upper
  {
    OptimalBlocksMembers(t, r1, r2);
  }

  /** The mergesort key of objective mining: the negated ratio. */
  function NegRatio(b: Block): real {
    -Ratio(b)
  }

  /** The order in which objective mining mines: a permutation of the
      blocks, by non-increasing ratio. */
  function MiningOrder(blocks: seq<Block>): (r: seq<Block>)
    ensures multiset(r) == multiset(blocks) && |r| == |blocks|
    ensures forall i, j | 0 <= i < j < |r| :: Ratio(r[j]) <= Ratio(r[i])
  {
    var r := StableSortBy(blocks, NegRatio);
    SortPreservesLength(blocks, NegRatio);
    assert forall i, j | 0 <= i < j < |r| :: NegRatio(r[i]) <= NegRatio(r[j]);
    r
  }

  /** Blocks of equal ratio are mined in their original order: for every
      key `k`, the blocks whose negated ratio is `k` come out in input order. */
  lemma MiningOrderStable(blocks: seq<Block>, k: real)
    ensures WithKey(MiningOrder(blocks), NegRatio, k) == WithKey(blocks, NegRatio, k)
  {
    SortIsStable(blocks, NegRatio, k);
  }
}
