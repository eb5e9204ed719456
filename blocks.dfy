/** Mined blocks and the items they drop. Two blocks are the same block when
    their names agree, and blocks are ranked by value-to-hardness ratio. */
module Blocks {
  import opened Bst

  datatype MinecraftItem = MinecraftItem(name: string, description: string, value: int)

  datatype MinecraftBlock = MinecraftBlock(name: string, description: string, hardness: int, item: MinecraftItem)

  /** The blocks the model works with. The ratio divides by the hardness, so a
      block of hardness 0, whose ratio raises a division error, is excluded. */
  type Block = b: MinecraftBlock | b.hardness != 0
    witness MinecraftBlock("", "", 1, MinecraftItem("", "", 0))

  /** The value-to-hardness ratio, an exact real quotient. */
  function Ratio(b: Block): Key {
    b.item.value as real / b.hardness as real
  }

  /** Block equality: equality of names. */
  predicate SameBlock(a: MinecraftBlock, b: MinecraftBlock) {
    a.name == b.name
  }
}
