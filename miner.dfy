/** The miner: a name fixed at creation and an inventory list that mining
    appends to and clearing hands back, replacing it with a new empty list. */
module Mining {
  import opened Blocks
  import opened Collections

  /** The items the given blocks drop, in the same order. */
  function ItemsOf(blocks: seq<MinecraftBlock>): (r: seq<MinecraftItem>)
    ensures |r| == |blocks|
  {
    if blocks == [] then [] else [blocks[0].item] + ItemsOf(blocks[1..])
  }

  /** The item at each position is the item of the block there. */
  lemma {:induction false} ItemsOfElements(blocks: seq<MinecraftBlock>)
    ensures forall i | 0 <= i < |blocks| :: ItemsOf(blocks)[i] == blocks[i].item
  {
    if blocks != [] {
      ItemsOfElements(blocks[1..]);
    }
  }

  lemma {:induction false} ItemsOfAppend(a: seq<MinecraftBlock>, b: seq<MinecraftBlock>)
    ensures ItemsOf(a + b) == ItemsOf(a) + ItemsOf(b)
  {
    if a == [] {
      assert a + b == b;
    } else {
      assert (a + b)[1..] == a[1..] + b;
      ItemsOfAppend(a[1..], b);
    }
  }

  lemma ItemsOfSnoc(s: seq<MinecraftBlock>, b: MinecraftBlock)
    ensures ItemsOf(s + [b]) == ItemsOf(s) + [b.item]
  {
    ItemsOfAppend(s, [b]);
    assert ItemsOf([b]) == [b.item];
  }

  class Miner {
    /** The name never changes after construction. */
    const name: string
    var inventory: List<MinecraftItem>

    constructor (name: string)
      ensures this.name == name
      ensures fresh(inventory) && inventory.items == []
    {
      this.name := name;
      inventory := new List();
    }

    /** Appends the block's item at the end of the inventory. */
    method Mine(block: MinecraftBlock)
      modifies inventory
      ensures inventory == old(inventory)
      ensures inventory.items == old(inventory.items) + [block.item]
    {
      inventory.Append(block.item);
    }

    /** Hands back the inventory list held before the call and starts a new,
        empty one. The returned list is a different object from the new
        inventory, so later mining does not change it. */
    method ClearInventory() returns (previous: List<MinecraftItem>)
      modifies this
      ensures previous == old(inventory) && previous.items == old(inventory.items)
      ensures fresh(inventory) && inventory.items == []
      ensures inventory != previous
    {
      previous := inventory;
      inventory := new List();
    }
  }
}
