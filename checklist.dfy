/** The checklist of blocks, kept in a BetterBST keyed by each block's
    value-to-hardness ratio, with guarded add and remove, membership, a
    sorted listing and a query for the blocks strictly between two ratios. */
module Checklist {
  import opened Bst
  import opened BetterBst
  import opened Blocks
  import opened Collections

  /** Every stored pair is keyed by its own block's ratio. */
  ghost predicate KeyedByRatio(t: Tree<Block>) {
    forall e | e in InOrder(t) :: e.0 == Ratio(e.1)
  }

  /** No two blocks of the list share a ratio. */
  ghost predicate DistinctRatios(blocks: seq<Block>) {
    forall i, j | 0 <= i < j < |blocks| :: Ratio(blocks[i]) != Ratio(blocks[j])
  }

  /** The blocks of a sequence of pairs, in order. */
  function Items(s: seq<(Key, Block)>): (r: seq<Block>)
    ensures |r| == |s|
    ensures forall i | 0 <= i < |s| :: r[i] == s[i].1
  {
    if s == [] then [] else [s[0].1] + Items(s[1..])
  }

  /** The pairs of `s` whose key lies strictly between `lower` and `upper`. */
  ghost function Between(s: seq<(Key, Block)>, lower: Key, upper: Key): seq<(Key, Block)> {
    if s == [] then []
    else (if lower < s[0].0 < upper then [s[0]] else []) + Between(s[1..], lower, upper)
  }

  /** What the range query promises: the stored blocks whose ratio lies
      strictly between the two given ratios, taken in either order, listed
      ascending. */
  ghost function OptimalBlocks(t: Tree<Block>, r1: Key, r2: Key): seq<Block> {
    var lower := if r1 <= r2 then r1 else r2;
    var upper := if r1 <= r2 then r2 else r1;
    Items(Between(InOrder(t), lower, upper))
  }

  /** The tree after a guarded add: unchanged when the ratio is already a key. */
  ghost function Added(t: Tree<Block>, b: Block): Tree<Block> {
    if Ratio(b) in Keys(t) then t else Insert(t, Ratio(b), b)
  }

  /** The tree after a guarded remove: unchanged when the ratio is not a key. */
  ghost function Removed(t: Tree<Block>, b: Block): Tree<Block> {
    if Ratio(b) in Keys(t) then Delete(t, Ratio(b)) else t
  }

  /** The pairs kept are exactly the pairs of `s` strictly between the
      bounds. */
  lemma {:induction false} BetweenMembers(s: seq<(Key, Block)>, lower: Key, upper: Key)
    ensures forall e :: e in Between(s, lower, upper) <==> e in s && lower < e.0 < upper
    decreases |s|
  {
    if s != [] {
      BetweenMembers(s[1..], lower, upper);
      assert s == [s[0]] + s[1..];
    }
  }

  /** Filtering keeps an ascending list ascending. */
  lemma {:induction false} BetweenAscendingKeys(s: seq<(Key, Block)>, lower: Key, upper: Key)
    requires Ascending(s)
    ensures Ascending(Between(s, lower, upper))
    decreases |s|
  {
    if s != [] {
      var tail := s[1..];
      assert Ascending(tail) by {
        forall i, j | 0 <= i < j < |tail| ensures tail[i].0 < tail[j].0 {
          assert tail[i] == s[i + 1] && tail[j] == s[j + 1];
        }
      }
      BetweenAscendingKeys(tail, lower, upper);
      BetweenMembers(tail, lower, upper);
      var rest := Between(tail, lower, upper);
      forall i | 0 <= i < |rest| ensures s[0].0 < rest[i].0 {
        assert rest[i] in tail;
        var j :| 0 <= j < |tail| && tail[j] == rest[i];
        assert s[j + 1] == rest[i];
      }
    }
  }

  /** The filter with the strict tests `k > lower` and `k < upper` keeps
      exactly the pairs strictly between the two bounds. */
  lemma {:induction false} StrictTestsMatchBetween(s: seq<(Key, Block)>, f1: Key -> bool, f2: Key -> bool, lower: Key, upper: Key)
    requires forall k :: f1(k) == (k > lower)
    requires forall k :: f2(k) == (k < upper)
    ensures Matching(s, f1, f2) == Between(s, lower, upper)
    decreases |s|
  {
    if s != [] {
      StrictTestsMatchBetween(s[1..], f1, f2, lower, upper);
    }
  }

  lemma {:induction false} ItemsMembers(s: seq<(Key, Block)>, b: Block)
    ensures b in Items(s) <==> exists e | e in s :: e.1 == b
  {
    var r := Items(s);
    if b in r {
      var i :| 0 <= i < |r| && r[i] == b;
      assert s[i] in s;
    }
    if exists e | e in s :: e.1 == b {
      var e :| e in s && e.1 == b;
      var i :| 0 <= i < |s| && s[i] == e;
      assert r[i] == b;
    }
  }

  /** The range query ignores the order of its two bounds. */
  lemma OptimalBlocksSymmetric(t: Tree<Block>, r1: Key, r2: Key)
    ensures OptimalBlocks(t, r1, r2) == OptimalBlocks(t, r2, r1)
  {
    if r1 == r2 {
    } else if r1 < r2 {
      assert !(r2 <= r1);
    } else {
      assert !(r1 <= r2);
    }
  }

  /** In a valid checklist the range query lists exactly the stored blocks
      whose ratio is strictly between the two bounds, in ascending ratio
      order; blocks whose ratio equals a bound are left out. */
  lemma OptimalBlocksMembers(t: Tree<Block>, r1: Key, r2: Key)
    requires IsBST(t) && KeyedByRatio(t)
    ensures var lower := if r1 <= r2 then r1 else r2;
      var upper := if r1 <= r2 then r2 else r1;
      forall b: Block :: b in OptimalBlocks(t, r1, r2) <==>
        (Ratio(b), b) in InOrder(t) && lower < Ratio(b) < upper
    ensures RatiosAscending(OptimalBlocks(t, r1, r2))
  {
    var lower := if r1 <= r2 then r1 else r2;
    var upper := if r1 <= r2 then r2 else r1;
    BetweenMembers(InOrder(t), lower, upper);
    BetweenBlocks(InOrder(t), lower, upper);
    SearchTreeIffAscending(t);
    BetweenAscendingKeys(InOrder(t), lower, upper);
    BetweenAscending(InOrder(t), lower, upper);
  }

  /** The blocks of the pairs between two bounds, in a list keyed by ratio,
      are the listed blocks whose ratio lies between the bounds. */
  lemma BetweenBlocks(s: seq<(Key, Block)>, lower: Key, upper: Key)
    requires forall e | e in s :: e.0 == Ratio(e.1)
    requires forall e :: e in Between(s, lower, upper) <==> e in s && lower < e.0 < upper
    ensures forall b: Block :: b in Items(Between(s, lower, upper)) <==>
              (Ratio(b), b) in s && lower < Ratio(b) < upper
  {
    var between := Between(s, lower, upper);
    forall b: Block ensures b in Items(between) <==> (Ratio(b), b) in s && lower < Ratio(b) < upper {
      ItemsMembers(between, b);
      if b in Items(between) {
        var e :| e in between && e.1 == b;
        assert e == (Ratio(b), b);
      }
      if (Ratio(b), b) in s && lower < Ratio(b) < upper {
        assert (Ratio(b), b) in between;
      }
    }
  }

  /** The blocks taken from an ascending list keyed by ratio have ascending
      ratios. */
  lemma BetweenAscending(s: seq<(Key, Block)>, lower: Key, upper: Key)
    requires forall e | e in s :: e.0 == Ratio(e.1)
    requires Ascending(Between(s, lower, upper))
    requires forall e | e in Between(s, lower, upper) :: e in s
    ensures RatiosAscending(Items(Between(s, lower, upper)))
  {
    var between := Between(s, lower, upper);
    var r := Items(between);
    forall i, j | 0 <= i < j < |r| ensures Ratio(r[i]) < Ratio(r[j]) {
      assert between[i] in s && between[j] in s;
    }
  }

  /** A guarded add is idempotent and keeps the checklist keyed by ratio. */
  lemma AddedSpec(t: Tree<Block>, b: Block)
    requires IsBST(t) && KeyedByRatio(t)
    ensures IsBST(Added(t, b)) && KeyedByRatio(Added(t, b))
    ensures Added(Added(t, b), b) == Added(t, b)
    ensures Keys(Added(t, b)) == Keys(t) + {Ratio(b)}
    ensures Ratio(b) !in Keys(t) ==> Lookup(Added(t, b), Ratio(b)) == Some(b)
    ensures forall j | j != Ratio(b) :: Lookup(Added(t, b), j) == Lookup(t, j)
  {
    if Ratio(b) !in Keys(t) {
      InsertEntries(t, Ratio(b), b);
    }
  }

  /** A guarded remove takes out the block's ratio and touches no other key. */
  lemma RemovedSpec(t: Tree<Block>, b: Block)
    requires IsBST(t) && KeyedByRatio(t)
    ensures IsBST(Removed(t, b)) && KeyedByRatio(Removed(t, b))
    ensures Keys(Removed(t, b)) == Keys(t) - {Ratio(b)}
    ensures Lookup(Removed(t, b), Ratio(b)) == None
    ensures forall j | j != Ratio(b) :: Lookup(Removed(t, b), j) == Lookup(t, j)
  {
    LookupFindsKeys(t, Ratio(b));
    if Ratio(b) in Keys(t) {
      DeleteSpec(t, Ratio(b));
      DeleteEntries(t, Ratio(b));
    }
  }

  class MinecraftChecklist {
    var checklist: BetterBST<Block>

    ghost predicate Valid()
      reads this, checklist
    {
      checklist.Valid() && KeyedByRatio(checklist.root)
    }

    /** Keys each block by its ratio and builds the balanced tree. The
        stored ratios are those of the given blocks; when no two blocks share
        a ratio, each block is stored under its own ratio. */
    constructor (blocks: seq<Block>)
      ensures Valid() && fresh(checklist)
      ensures Keys(checklist.root) == set b | b in blocks :: Ratio(b)
      ensures forall e | e in InOrder(checklist.root) :: e.1 in blocks
      ensures DistinctRatios(blocks) ==>
                && (forall b | b in blocks :: Lookup(checklist.root, Ratio(b)) == Some(b))
                && Len() == |blocks|
    {
      var elements: seq<(Key, Block)> := [];
      for i := 0 to |blocks|
        invariant |elements| == i
        invariant forall j | 0 <= j < i :: elements[j] == (Ratio(blocks[j]), blocks[j])
      {
        elements := elements + [(Ratio(blocks[i]), blocks[i])];
      }
      checklist := new BetterBST(elements);
      new;
      ChecklistOfBlocks(blocks, elements, checklist.root);
      if DistinctRatios(blocks) {
        DistinctBlocks(blocks, elements, checklist.root);
      }
    }

    /** `len(self)`: the number of stored blocks. */
    function Len(): nat
      requires Valid()
      reads this, checklist
      ensures Len() == |InOrder(checklist.root)| == |Keys(checklist.root)|
    {
      InOrderKeys(checklist.root);
      checklist.Len()
    }

    /** `item in self`: the block stored under the item's ratio has the
        item's name; False when nothing is stored under that ratio. */
    method Contains(item: Block) returns (r: bool)
      requires Valid()
      ensures r <==> exists e | e in InOrder(checklist.root) :: e.0 == Ratio(item) && SameBlock(e.1, item)
    {
      var key := Ratio(item);
      var stored := checklist.Get(key);
      match stored
      case None =>
        r := false;
        InOrderKeys(checklist.root);
        forall e | e in InOrder(checklist.root) ensures e.0 != key {
          var i :| 0 <= i < |InOrder(checklist.root)| && InOrder(checklist.root)[i] == e;
          assert e.0 in KeysOf(InOrder(checklist.root));
        }
      case Some(b) =>
        r := SameBlock(b, item);
        assert (key, b) in InOrder(checklist.root);
    }

    /** Adds the block unless a block with its ratio is already stored. */
    method AddBlock(block: Block)
      requires Valid()
      modifies checklist
      ensures Valid()
      ensures checklist.root == Added(old(checklist.root), block)
    {
      var key := Ratio(block);
      if !checklist.ContainsKey(key) {
        checklist.Put(key, block);
      }
      AddedSpec(old(checklist.root), block);
    }

    /** Removes the block's ratio if it is stored; otherwise does nothing. */
    method RemoveBlock(block: Block)
      requires Valid()
      modifies checklist
      ensures Valid()
      ensures checklist.root == Removed(old(checklist.root), block)
      ensures Ratio(block) !in Keys(checklist.root)
      ensures forall j | j != Ratio(block) :: Lookup(checklist.root, j) == Lookup(old(checklist.root), j)
    {
      var key := Ratio(block);
      if checklist.ContainsKey(key) {
        var _ := checklist.DelItem(key);
      }
      RemovedSpec(old(checklist.root), block);
      LookupFindsKeys(checklist.root, key);
    }

    /** The stored blocks in ascending ratio order, one per stored key. */
    method GetSortedBlocks() returns (result: array<Block>)
      requires Valid()
      ensures fresh(result)
      ensures result.Length == Len()
      ensures result[..] == Items(InOrder(checklist.root))
      ensures RatiosAscending(result[..])
    {
      var entries := InOrder(checklist.root);
      InOrderKeys(checklist.root);
      result := ItemsArray(entries);
      ItemsAscending(checklist.root);
    }

    /** The stored blocks whose ratio lies strictly between the ratios of
        `block1` and `block2`, ascending, found with the pruned filter. */
    method GetOptimalBlocks(block1: Block, block2: Block) returns (result: array<Block>)
      requires Valid()
      ensures fresh(result)
      ensures result[..] == OptimalBlocks(checklist.root, Ratio(block1), Ratio(block2))
    {
      var r1, r2 := Ratio(block1), Ratio(block2);
      var lower := if r1 <= r2 then r1 else r2;
      var upper := if r1 <= r2 then r2 else r1;
      var filter1 := k => k > lower;
      var filter2 := k => k < upper;
      var filtered := checklist.FilterKeys(filter1, filter2);
      StrictTestsMatchBetween(InOrder(checklist.root), filter1, filter2, lower, upper);
      result := ItemsArray(filtered.items);
    }
  }

  /** A new array holding the blocks of the pairs, in order. */
  method ItemsArray(entries: seq<(Key, Block)>) returns (result: array<Block>)
    ensures fresh(result)
    ensures result[..] == Items(entries)
  {
    result := new Block[|entries|];
    var index := 0;
    while index < |entries|
      invariant 0 <= index <= |entries| == result.Length
      invariant forall j | 0 <= j < index :: result[j] == entries[j].1
    {
      result[index] := entries[index].1;
      index := index + 1;
    }
  }

  /** The blocks ascend strictly by ratio. */
  ghost predicate RatiosAscending(s: seq<Block>) {
    forall i, j | 0 <= i < j < |s| :: Ratio(s[i]) < Ratio(s[j])
  }

  /** The items of a valid checklist's in-order traversal ascend strictly by ratio. */
  lemma ItemsAscending(t: Tree<Block>)
    requires IsBST(t) && KeyedByRatio(t)
    ensures RatiosAscending(Items(InOrder(t)))
  {
    var entries := InOrder(t);
    SearchTreeIffAscending(t);
    forall i, j | 0 <= i < j < |entries| ensures Ratio(entries[i].1) < Ratio(entries[j].1) {
      assert entries[i] in entries && entries[j] in entries;
    }
  }

  /** What the constructor establishes about the tree built from the blocks,
      whatever the ratios. */
  lemma ChecklistOfBlocks(blocks: seq<Block>, elements: seq<(Key, Block)>, t: Tree<Block>)
    requires |elements| == |blocks|
    requires forall j | 0 <= j < |blocks| :: elements[j] == (Ratio(blocks[j]), blocks[j])
    requires Keys(t) == KeysOf(elements)
    requires forall e | e in InOrder(t) :: e in elements
    ensures KeyedByRatio(t)
    ensures Keys(t) == set b | b in blocks :: Ratio(b)
    ensures forall e | e in InOrder(t) :: e.1 in blocks
  {
    forall e | e in InOrder(t) ensures e.0 == Ratio(e.1) && e.1 in blocks {
      var j :| 0 <= j < |elements| && elements[j] == e;
      assert blocks[j] in blocks;
    }
    forall k | k in Keys(t) ensures k in set b | b in blocks :: Ratio(b) {
      var j :| 0 <= j < |elements| && elements[j].0 == k;
      assert blocks[j] in blocks;
    }
    forall b | b in blocks ensures Ratio(b) in Keys(t) {
      var j :| 0 <= j < |blocks| && blocks[j] == b;
      assert elements[j].0 == Ratio(b);
    }
  }

  /** With distinct ratios every block is stored under its ratio and the
      checklist holds one block per given block. */
  lemma DistinctBlocks(blocks: seq<Block>, elements: seq<(Key, Block)>, t: Tree<Block>)
    requires |elements| == |blocks|
    requires forall j | 0 <= j < |blocks| :: elements[j] == (Ratio(blocks[j]), blocks[j])
    requires DistinctRatios(blocks)
    requires IsBST(t) && InOrder(t) == SortElements(elements)
    ensures DistinctKeys(elements)
    ensures forall b | b in blocks :: Lookup(t, Ratio(b)) == Some(b)
    ensures |Keys(t)| == |blocks|
  {
    var s := InOrder(t);
    forall i, j | 0 <= i < j < |elements| ensures elements[i].0 != elements[j].0 {
      assert Ratio(blocks[i]) != Ratio(blocks[j]);
    }
    forall b | b in blocks ensures Lookup(t, Ratio(b)) == Some(b) {
      var j :| 0 <= j < |blocks| && blocks[j] == b;
      assert elements[j] in multiset(s);
      LookupMatchesInOrder(t, Ratio(b), b);
    }
    InOrderKeys(t);
    SizeIsKeyCount(t);
  }
}
