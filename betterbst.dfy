/** BetterBST: a binary search tree built once, balanced, from a batch of
    (key, item) pairs, and queried with a pruned in-order range filter.

    The build sorts the pairs by key, then inserts the lower-middle pair of
    each index range with the ordinary insertion before recursing on the left
    and right parts. It is proved to produce exactly `Balanced(sorted)`, whose
    in-order traversal is the sorted input and whose height is the least
    possible, ceil(log2(n + 1)).

    The filter walks left only when the lower-bound test holds at a node, and
    right only when the upper-bound test holds; for monotone tests it is
    proved to return exactly the in-order entries passing both tests. */
module BetterBst {
  import opened Bst
  import opened Sorting
  import opened Collections

  /** No two pairs share a key. */
  ghost predicate DistinctKeys<I>(s: seq<(Key, I)>) {
    forall i, j | 0 <= i < j < |s| :: s[i].0 != s[j].0
  }

  function EntryKey<I>(e: (Key, I)): Key {
    e.0
  }

  /** Sorting the pairs by key, non-decreasing for any input and strictly
      ascending for distinct keys (the private sort step of the class). */
  function SortElements<I>(elements: seq<(Key, I)>): (r: seq<(Key, I)>)
    ensures multiset(r) == multiset(elements)
    ensures |r| == |elements|
    ensures SortedBy(r, EntryKey)
    ensures DistinctKeys(elements) ==> Ascending(r)
  {
    SortPreservesLength(elements, EntryKey);
    SortedDistinctIsAscending(elements);
    StableSortBy(elements, EntryKey)
  }

  lemma SortedDistinctIsAscending<I>(elements: seq<(Key, I)>)
    ensures DistinctKeys(elements) ==> Ascending(StableSortBy(elements, EntryKey))
  {
    if DistinctKeys(elements) {
      var r := StableSortBy(elements, EntryKey);
      assert DistinctBy(elements, EntryKey) by {
        forall i, j | 0 <= i < j < |elements| ensures EntryKey(elements[i]) != EntryKey(elements[j]) { }
      }
      SortOfDistinctIsStrict(elements, EntryKey);
      assert forall i, j | 0 <= i < j < |r| :: EntryKey(r[i]) < EntryKey(r[j]);
    }
  }

  // ---------------------------------------------------------------------
  // The balanced build

  /** The tree the build aims at over elements[start..end] (both ends
      inclusive): the lower-middle entry at the root, the entries before it
      on the left and those after it on the right. */
  function BalancedRange<I>(elements: seq<(Key, I)>, start: int, end: int): Tree<I>
    requires 0 <= start <= end + 1 <= |elements|
    decreases end - start + 1
  {
    if start > end then Leaf
    else
      var mid := (start + end) / 2;
      Node(BalancedRange(elements, start, mid - 1), elements[mid].0, elements[mid].1,
           BalancedRange(elements, mid + 1, end))
  }

  /** The balanced tree over the whole sequence. */
  function Balanced<I>(s: seq<(Key, I)>): Tree<I> {
    BalancedRange(s, 0, |s| - 1)
  }

  /** The order in which the recursive build inserts elements[start..end]
      (both ends inclusive): the middle one first, then the left part, then
      the right part. */
  function BuildOrder<I>(elements: seq<(Key, I)>, start: int, end: int): seq<(Key, I)>
    requires 0 <= start <= end + 1 <= |elements|
    decreases end - start + 1
  {
    if start > end then []
    else
      var mid := (start + end) / 2;
      [elements[mid]] + BuildOrder(elements, start, mid - 1) + BuildOrder(elements, mid + 1, end)
  }

  /** Pre-order listing: a node before its left subtree, then its right one. */
  function PreOrder<I>(t: Tree<I>): seq<(Key, I)> {
    match t
    case Leaf => []
    case Node(l, k, v, r) => [(k, v)] + PreOrder(l) + PreOrder(r)
  }

  /** Inserting the entries one after the other, from the left. */
  function InsertAll<I>(t: Tree<I>, es: seq<(Key, I)>): (r: Tree<I>)
    ensures IsBST(t) ==> IsBST(r)
    decreases |es|
  {
    if es == [] then t else InsertAll(Insert(t, es[0].0, es[0].1), es[1..])
  }

  /** The smallest h with m <= 2^h. */
  function CeilLog2(m: nat): nat
    requires m >= 1
    decreases m
  {
    if m == 1 then 0 else 1 + CeilLog2((m + 1) / 2)
  }

  /** Sizes of sibling subtrees differ by at most one, at every node. */
  ghost predicate SizeBalanced<I>(t: Tree<I>) {
    match t
    case Leaf => true
    case Node(l, _, _, r) =>
      SizeBalanced(l) && SizeBalanced(r) && -1 <= Size(l) - Size(r) <= 1
  }

  /** Splitting a range at a position inside it. */
  lemma SliceSplit<T>(s: seq<T>, start: int, mid: int, end: int)
    requires 0 <= start <= mid <= end < |s|
    ensures s[start..end + 1] == s[start..mid] + [s[mid]] + s[mid + 1..end + 1]
  {
  }

  /** The in-order traversal of the balanced tree over a range is that range. */
  lemma {:induction false} RangeInOrder<I>(elements: seq<(Key, I)>, start: int, end: int)
    requires 0 <= start <= end + 1 <= |elements|
    ensures InOrder(BalancedRange(elements, start, end)) == elements[start..end + 1]
    decreases end - start + 1
  {
    if start <= end {
      var mid := (start + end) / 2;
      RangeInOrder(elements, start, mid - 1);
      RangeInOrder(elements, mid + 1, end);
      SliceSplit(elements, start, mid, end);
    } else {
      assert elements[start..end + 1] == [];
    }
  }

  /** The in-order traversal of the balanced tree is its input sequence. */
  lemma BalancedInOrder<I>(s: seq<(Key, I)>)
    ensures InOrder(Balanced(s)) == s
  {
    RangeInOrder(s, 0, |s| - 1);
    assert s[0..|s|] == s;
  }

  /** Built from ascending keys, the balanced tree satisfies the ordering invariant. */
  lemma BalancedIsSearchTree<I>(s: seq<(Key, I)>)
    requires Ascending(s)
    ensures IsBST(Balanced(s))
  {
    BalancedInOrder(s);
    SearchTreeIffAscending(Balanced(s));
  }

  /** The balanced tree over a range holds one node per position. */
  lemma {:induction false} RangeSize<I>(elements: seq<(Key, I)>, start: int, end: int)
    requires 0 <= start <= end + 1 <= |elements|
    ensures Size(BalancedRange(elements, start, end)) == end - start + 1
    decreases end - start + 1
  {
    if start <= end {
      var mid := (start + end) / 2;
      RangeSize(elements, start, mid - 1);
      RangeSize(elements, mid + 1, end);
    }
  }

  /** At every node of the balanced tree over a range, the two subtrees
      differ in size by at most one. */
  lemma {:induction false} RangeSizeBalanced<I>(elements: seq<(Key, I)>, start: int, end: int)
    requires 0 <= start <= end + 1 <= |elements|
    ensures SizeBalanced(BalancedRange(elements, start, end))
    decreases end - start + 1
  {
    if start <= end {
      var mid := (start + end) / 2;
      RangeSizeBalanced(elements, start, mid - 1);
      RangeSizeBalanced(elements, mid + 1, end);
      RangeSize(elements, start, mid - 1);
      RangeSize(elements, mid + 1, end);
    }
  }

  /** At every node the two subtrees of the balanced tree differ in size by at most one. */
  lemma BalancedIsSizeBalanced<I>(s: seq<(Key, I)>)
    ensures SizeBalanced(Balanced(s))
  {
    RangeSizeBalanced(s, 0, |s| - 1);
  }

  lemma {:induction false} CeilLog2Monotone(a: nat, b: nat)
    requires 1 <= a <= b
    ensures CeilLog2(a) <= CeilLog2(b)
    decreases b
  {
    if a > 1 {
      CeilLog2Monotone((a + 1) / 2, (b + 1) / 2);
    }
  }

  /** CeilLog2(m) is the least h with m <= 2^h. */
  lemma {:induction false} CeilLog2Bounds(m: nat)
    requires m >= 1
    ensures m <= Pow2(CeilLog2(m))
    ensures CeilLog2(m) > 0 ==> Pow2(CeilLog2(m) - 1) < m
    decreases m
  {
    if m > 1 {
      CeilLog2Bounds((m + 1) / 2);
    }
  }

  /** The balanced tree over a range of n entries has height
      ceil(log2(n + 1)). */
  lemma {:induction false} RangeHeight<I>(elements: seq<(Key, I)>, start: int, end: int)
    requires 0 <= start <= end + 1 <= |elements|
    ensures Height(BalancedRange(elements, start, end)) == CeilLog2(end - start + 2)
    decreases end - start + 1
  {
    if start <= end {
      var mid := (start + end) / 2;
      RangeHeight(elements, start, mid - 1);
      RangeHeight(elements, mid + 1, end);
      HalfHeights(start, end, mid);
    }
  }

  /** Around the middle of a non-empty range, the right part is at least as
      high as the left part, and the whole range one level higher than the
      right part. */
  lemma HalfHeights(start: int, end: int, mid: int)
    requires start <= end && mid == (start + end) / 2
    ensures CeilLog2(mid - 1 - start + 2) <= CeilLog2(end - (mid + 1) + 2)
    ensures CeilLog2(end - start + 2) == 1 + CeilLog2(end - (mid + 1) + 2)
  {
    var n := end - start + 1;
    HalvesArith(n);
    CeilLog2Monotone(mid - start + 1, end - mid + 1);
    assert (n + 2) / 2 == end - mid + 1;
  }

  /** The balanced tree over n entries has height ceil(log2(n + 1)). */
  lemma BalancedHeight<I>(s: seq<(Key, I)>)
    ensures Height(Balanced(s)) == CeilLog2(|s| + 1)
  {
    RangeHeight(s, 0, |s| - 1);
  }

  /** Around the middle of n >= 1 entries, the right part plus one has
      (n + 2) / 2 entries, no fewer than the left part plus one. */
  lemma HalvesArith(n: nat)
    requires n >= 1
    ensures n - (n - 1) / 2 == (n + 2) / 2
    ensures (n - 1) / 2 + 1 <= n - (n - 1) / 2
  {
  }

  /** No binary tree with n nodes is lower than ceil(log2(n + 1)). */
  lemma HeightIsMinimal<I>(t: Tree<I>)
    ensures CeilLog2(Size(t) + 1) <= Height(t)
  {
    var c := CeilLog2(Size(t) + 1);
    SizeBelowPow2(t);
    CeilLog2Bounds(Size(t) + 1);
    if Height(t) < c {
      Pow2Monotone(Height(t), c - 1);
    }
  }

  /** The recursive build order of a range is the pre-order of the balanced
      tree over that range. */
  lemma {:induction false} BuildOrderIsPreOrder<I>(elements: seq<(Key, I)>, start: int, end: int)
    requires 0 <= start <= end + 1 <= |elements|
    ensures BuildOrder(elements, start, end) == PreOrder(BalancedRange(elements, start, end))
    decreases end - start + 1
  {
    if start <= end {
      var mid := (start + end) / 2;
      BuildOrderIsPreOrder(elements, start, mid - 1);
      BuildOrderIsPreOrder(elements, mid + 1, end);
    }
  }

  lemma {:induction false} InsertAllAppend<I>(t: Tree<I>, a: seq<(Key, I)>, b: seq<(Key, I)>)
    ensures InsertAll(t, a + b) == InsertAll(InsertAll(t, a), b)
    decreases |a|
  {
    if a == [] {
      assert a + b == b;
    } else {
      assert (a + b)[1..] == a[1..] + b;
      InsertAllAppend(Insert(t, a[0].0, a[0].1), a[1..], b);
    }
  }

  lemma {:induction false} InsertAllKeys<I>(t: Tree<I>, es: seq<(Key, I)>)
    ensures Keys(InsertAll(t, es)) == Keys(t) + KeysOf(es)
    decreases |es|
  {
    if es != [] {
      InsertAllKeys(Insert(t, es[0].0, es[0].1), es[1..]);
      KeysOfAppend([es[0]], es[1..]);
      assert es == [es[0]] + es[1..];
      assert KeysOf([es[0]]) == {es[0].0} by {
        assert [es[0]][0] == es[0];
      }
    }
  }

  /** Keys below the root all land in the left subtree. */
  lemma {:induction false} InsertAllLeft<I>(l: Tree<I>, k: Key, v: I, r: Tree<I>, es: seq<(Key, I)>)
    requires forall i | 0 <= i < |es| :: es[i].0 < k
    ensures InsertAll(Node(l, k, v, r), es) == Node(InsertAll(l, es), k, v, r)
    decreases |es|
  {
    if es != [] {
      InsertAllLeft(Insert(l, es[0].0, es[0].1), k, v, r, es[1..]);
    }
  }

  /** Keys above the root all land in the right subtree. */
  lemma {:induction false} InsertAllRight<I>(l: Tree<I>, k: Key, v: I, r: Tree<I>, es: seq<(Key, I)>)
    requires forall i | 0 <= i < |es| :: k < es[i].0
    ensures InsertAll(Node(l, k, v, r), es) == Node(l, k, v, InsertAll(r, es))
    decreases |es|
  {
    if es != [] {
      InsertAllRight(l, k, v, Insert(r, es[0].0, es[0].1), es[1..]);
    }
  }

  lemma {:induction false} PreOrderKeys<I>(t: Tree<I>)
    ensures KeysOf(PreOrder(t)) == Keys(t)
  {
    match t
    case Leaf =>
    case Node(l, k, v, r) =>
      PreOrderKeys(l);
      PreOrderKeys(r);
      KeysOfAppend([(k, v)] + PreOrder(l), PreOrder(r));
      KeysOfAppend([(k, v)], PreOrder(l));
      assert KeysOf([(k, v)]) == {k} by {
        assert [(k, v)][0].0 == k;
      }
  }

  /** Inserting pairs leaves in the tree only the pairs inserted and the
      pairs already there. */
  lemma {:induction false} InsertAllEntries<I>(t: Tree<I>, es: seq<(Key, I)>)
    ensures forall e | e in InOrder(InsertAll(t, es)) :: e in InOrder(t) || e in es
    decreases |es|
  {
    if es != [] {
      InsertEntries(t, es[0].0, es[0].1);
      InsertAllEntries(Insert(t, es[0].0, es[0].1), es[1..]);
      assert es == [es[0]] + es[1..];
    }
  }

  /** A tree's pre-order lists only pairs that its in-order lists. */
  lemma {:induction false} PreOrderEntries<I>(t: Tree<I>)
    ensures forall e | e in PreOrder(t) :: e in InOrder(t)
  {
    match t
    case Leaf =>
    case Node(l, k, v, r) =>
      PreOrderEntries(l);
      PreOrderEntries(r);
  }

  /** The tree built from a permutation of `elements` holds only pairs of
      `elements`, and all of its keys. */
  lemma BuiltFromPermutation<I>(sorted: seq<(Key, I)>, elements: seq<(Key, I)>)
    requires multiset(sorted) == multiset(elements)
    ensures var t := InsertAll(Leaf, BuildOrder(sorted, 0, |sorted| - 1));
      && (forall e | e in InOrder(t) :: e in elements)
      && KeysOf(sorted) == KeysOf(elements)
  {
    var order := BuildOrder(sorted, 0, |sorted| - 1);
    InsertAllEntries(Leaf, order);
    BuildOrderIsPreOrder(sorted, 0, |sorted| - 1);
    PreOrderEntries(Balanced(sorted));
    BalancedInOrder(sorted);
    forall e | e in InOrder(InsertAll(Leaf, order)) ensures e in elements {
      assert e in multiset(sorted);
    }
    KeysOfPermutation(sorted, elements);
  }

  /** A permutation has the same keys. */
  lemma KeysOfPermutation<I>(a: seq<(Key, I)>, b: seq<(Key, I)>)
    requires multiset(a) == multiset(b)
    ensures KeysOf(a) == KeysOf(b)
  {
    forall k | k in KeysOf(a) ensures k in KeysOf(b) {
      var i :| 0 <= i < |a| && a[i].0 == k;
      assert a[i] in multiset(b);
      var j :| 0 <= j < |b| && b[j] == a[i];
    }
    forall k | k in KeysOf(b) ensures k in KeysOf(a) {
      var j :| 0 <= j < |b| && b[j].0 == k;
      assert b[j] in multiset(a);
      var i :| 0 <= i < |a| && a[i] == b[j];
    }
  }

  /** Every pair of a list whose keys are below `k` has a key below `k`. */
  lemma EntriesBelow<I>(es: seq<(Key, I)>, k: Key)
    requires forall x | x in KeysOf(es) :: x < k
    ensures forall i | 0 <= i < |es| :: es[i].0 < k
  {
    forall i | 0 <= i < |es| ensures es[i].0 < k {
      assert es[i].0 in KeysOf(es);
    }
  }

  /** Every pair of a list whose keys are above `k` has a key above `k`. */
  lemma EntriesAbove<I>(es: seq<(Key, I)>, k: Key)
    requires forall x | x in KeysOf(es) :: k < x
    ensures forall i | 0 <= i < |es| :: k < es[i].0
  {
    forall i | 0 <= i < |es| ensures k < es[i].0 {
      assert es[i].0 in KeysOf(es);
    }
  }

  /** Inserting a search tree's pre-order into an empty tree rebuilds it exactly. */
  lemma {:induction false} RebuildFromPreOrder<I>(t: Tree<I>)
    requires IsBST(t)
    ensures InsertAll(Leaf, PreOrder(t)) == t
  {
    match t
    case Leaf =>
    case Node(l, k, v, r) =>
      var pl, pr := PreOrder(l), PreOrder(r);
      RebuildFromPreOrder(l);
      RebuildFromPreOrder(r);
      PreOrderKeys(l);
      PreOrderKeys(r);
      EntriesBelow(pl, k);
      EntriesAbove(pr, k);
      InsertAllAppend(Leaf, [(k, v)] + pl, pr);
      InsertAllAppend(Leaf, [(k, v)], pl);
      assert InsertAll(Leaf, [(k, v)]) == Node(Leaf, k, v, Leaf);
      InsertAllLeft(Leaf, k, v, Leaf, pl);
      InsertAllRight(l, k, v, Leaf, pr);
  }

  /** The build inserts, into an empty tree, exactly the balanced tree over
      the ascending input. */
  lemma BuildIsBalanced<I>(sorted: seq<(Key, I)>)
    requires Ascending(sorted)
    ensures InsertAll(Leaf, BuildOrder(sorted, 0, |sorted| - 1)) == Balanced(sorted)
  {
    BuildOrderIsPreOrder(sorted, 0, |sorted| - 1);
    BalancedIsSearchTree(sorted);
    RebuildFromPreOrder(Balanced(sorted));
  }

  /** One step of the recursive build: inserting the middle element and then
      the two parts is inserting the build order of the whole range. */
  lemma BuildStep<I>(before: Tree<I>, elements: seq<(Key, I)>, start: int, end: int)
    requires 0 <= start <= end < |elements|
    ensures var mid := (start + end) / 2;
      var order := BuildOrder(elements, start, end);
      && InsertAll(InsertAll(Insert(before, elements[mid].0, elements[mid].1),
                             BuildOrder(elements, start, mid - 1)),
                   BuildOrder(elements, mid + 1, end)) == InsertAll(before, order)
      && Keys(InsertAll(before, order)) == Keys(before) + KeysOf(elements[start..end + 1])
  {
    var mid := (start + end) / 2;
    var a, b := BuildOrder(elements, start, mid - 1), BuildOrder(elements, mid + 1, end);
    InsertAllAppend(before, [elements[mid]], a);
    InsertAllAppend(before, [elements[mid]] + a, b);
    assert InsertAll(before, [elements[mid]]) == Insert(before, elements[mid].0, elements[mid].1);
    BuildOrderKeys(elements, start, end);
    InsertAllKeys(before, BuildOrder(elements, start, end));
  }

  /** The build order carries exactly the keys of the range it is built from. */
  lemma BuildOrderKeys<I>(elements: seq<(Key, I)>, start: int, end: int)
    requires 0 <= start <= end + 1 <= |elements|
    ensures KeysOf(BuildOrder(elements, start, end)) == KeysOf(elements[start..end + 1])
  {
    var t := BalancedRange(elements, start, end);
    BuildOrderIsPreOrder(elements, start, end);
    PreOrderKeys(t);
    InOrderKeys(t);
    RangeInOrder(elements, start, end);
  }

  // ---------------------------------------------------------------------
  // The pruned range filter

  /** A lower-bound test: once true at some key, true at every larger key. */
  ghost predicate LowerBoundTest(f: Key -> bool) {
    forall a, b | a <= b && f(a) :: f(b)
  }

  /** An upper-bound test: once true at some key, true at every smaller key. */
  ghost predicate UpperBoundTest(f: Key -> bool) {
    forall a, b | a <= b && f(b) :: f(a)
  }

  /** The entries of `s` whose key passes both tests, in their order in `s`. */
  ghost function Matching<I>(s: seq<(Key, I)>, f1: Key -> bool, f2: Key -> bool): seq<(Key, I)> {
    if s == [] then []
    else (if f1(s[0].0) && f2(s[0].0) then [s[0]] else []) + Matching(s[1..], f1, f2)
  }

  /** What the pruned walk emits from subtree `t`. */
  ghost function Pruned<I>(t: Tree<I>, f1: Key -> bool, f2: Key -> bool): seq<(Key, I)> {
    match t
    case Leaf => []
    case Node(l, k, v, r) =>
      (if f1(k) then Pruned(l, f1, f2) else [])
      + (if f1(k) && f2(k) then [(k, v)] else [])
      + (if f2(k) then Pruned(r, f1, f2) else [])
  }

  lemma {:induction false} MatchingAppend<I>(a: seq<(Key, I)>, b: seq<(Key, I)>, f1: Key -> bool, f2: Key -> bool)
    ensures Matching(a + b, f1, f2) == Matching(a, f1, f2) + Matching(b, f1, f2)
    decreases |a|
  {
    if a == [] {
      assert a + b == b;
    } else {
      assert (a + b)[1..] == a[1..] + b;
      MatchingAppend(a[1..], b, f1, f2);
    }
  }

  lemma {:induction false} MatchingNothing<I>(s: seq<(Key, I)>, f1: Key -> bool, f2: Key -> bool)
    requires forall i | 0 <= i < |s| :: !(f1(s[i].0) && f2(s[i].0))
    ensures Matching(s, f1, f2) == []
    decreases |s|
  {
    if s != [] {
      MatchingNothing(s[1..], f1, f2);
    }
  }

  /** Pruning is sound: when the lower-bound test fails at a node, no entry
      of its left subtree can pass it, and when the upper-bound test fails,
      no entry of its right subtree can pass that one. */
  lemma SkippedSubtreesMatchNothing<I>(t: Tree<I>, f1: Key -> bool, f2: Key -> bool)
    requires IsBST(t) && t.Node?
    requires LowerBoundTest(f1) && UpperBoundTest(f2)
    ensures !f1(t.key) ==> forall k | k in Keys(t.left) :: !f1(k)
    ensures !f2(t.key) ==> forall k | k in Keys(t.right) :: !f2(k)
    ensures !f1(t.key) ==> Matching(InOrder(t.left), f1, f2) == []
    ensures !f2(t.key) ==> Matching(InOrder(t.right), f1, f2) == []
  {
    var sl, sr := InOrder(t.left), InOrder(t.right);
    InOrderKeys(t.left);
    InOrderKeys(t.right);
    if !f1(t.key) {
      forall i | 0 <= i < |sl| ensures !f1(sl[i].0) {
        assert sl[i].0 in KeysOf(sl);
        assert sl[i].0 < t.key;
      }
      MatchingNothing(sl, f1, f2);
    }
    if !f2(t.key) {
      forall i | 0 <= i < |sr| ensures !f2(sr[i].0) {
        assert sr[i].0 in KeysOf(sr);
        assert t.key < sr[i].0;
      }
      MatchingNothing(sr, f1, f2);
    }
  }

  /** For monotone tests, the pruned walk emits exactly the in-order entries
      passing both tests. */
  lemma {:induction false} PrunedIsMatching<I>(t: Tree<I>, f1: Key -> bool, f2: Key -> bool)
    requires IsBST(t)
    requires LowerBoundTest(f1) && UpperBoundTest(f2)
    ensures Pruned(t, f1, f2) == Matching(InOrder(t), f1, f2)
  {
    match t
    case Leaf =>
    case Node(l, k, v, r) =>
      PrunedIsMatching(l, f1, f2);
      PrunedIsMatching(r, f1, f2);
      SkippedSubtreesMatchNothing(t, f1, f2);
      MatchingAppend(InOrder(l) + [(k, v)], InOrder(r), f1, f2);
      MatchingAppend(InOrder(l), [(k, v)], f1, f2);
      assert Matching([(k, v)], f1, f2) == if f1(k) && f2(k) then [(k, v)] else [] by {
        assert [(k, v)][1..] == [];
      }
  }

  /** The walk emits at most one entry per node. */
  lemma {:induction false} PrunedSize<I>(t: Tree<I>, f1: Key -> bool, f2: Key -> bool)
    ensures |Pruned(t, f1, f2)| <= Size(t)
  {
    match t
    case Leaf =>
    case Node(l, _, _, r) =>
      PrunedSize(l, f1, f2);
      PrunedSize(r, f1, f2);
  }

  // ---------------------------------------------------------------------
  // The class

  class BetterBST<I> {
    var root: Tree<I>

    ghost predicate Valid()
      reads this
    {
      IsBST(root)
    }

    /** Sorts the pairs, then builds the balanced tree from them. The tree
        stores exactly the given keys, each with one of the items given for
        it. When the keys are distinct the tree is the balanced tree of the
        sorted pairs: it holds every pair and no other, in key order, with
        the least height any tree of that size can have. */
    constructor (elements: seq<(Key, I)>)
      ensures Valid()
      ensures Keys(root) == KeysOf(elements)
      ensures forall e | e in InOrder(root) :: e in elements
      ensures DistinctKeys(elements) ==>
                && root == Balanced(SortElements(elements))
                && InOrder(root) == SortElements(elements)
                && Height(root) == CeilLog2(|elements| + 1)
                && Size(root) == |elements|
    {
      root := Leaf;
      new;
      var sorted := SortElements(elements);
      BuildBalancedTree(sorted);
      BuiltFromPermutation(sorted, elements);
      if DistinctKeys(elements) {
        BuildIsBalanced(sorted);
        BalancedIsSearchTree(sorted);
        BalancedInOrder(sorted);
        BalancedHeight(sorted);
        InOrderKeys(root);
      }
    }

    /** Builds from the whole index range [0, |elements| - 1]. */
    method BuildBalancedTree(elements: seq<(Key, I)>)
      modifies this
      ensures root == InsertAll(old(root), BuildOrder(elements, 0, |elements| - 1))
      ensures Keys(root) == Keys(old(root)) + KeysOf(elements)
    {
      BuildSubtree(elements, 0, |elements| - 1);
      assert elements[0..|elements|] == elements;
    }

    /** Inserts the middle element of [start, end], then builds the left part
        and then the right part; an empty range inserts nothing. */
    method BuildSubtree(elements: seq<(Key, I)>, start: int, end: int)
      requires 0 <= start <= end + 1 <= |elements|
      modifies this
      ensures root == InsertAll(old(root), BuildOrder(elements, start, end))
      ensures Keys(root) == Keys(old(root)) + KeysOf(elements[start..end + 1])
      ensures start > end ==> root == old(root)
      decreases end - start + 1
    {
      ghost var before := root;
      if start > end {
        assert KeysOf(elements[start..end + 1]) == {};
        return;
      }
      var mid := (start + end) / 2;
      assert start <= mid <= end;
      var (key, item) := elements[mid];
      Put(key, item);
      BuildSubtree(elements, start, mid - 1);
      BuildSubtree(elements, mid + 1, end);
      BuildStep(before, elements, start, end);
    }

    /** Returns the in-order entries that pass the two tests. For a
        lower-bound `filter1` and an upper-bound `filter2` these are exactly
        the stored entries with both tests true, ascending by key. The tree
        is not modified. */
    method FilterKeys(filter1: Key -> bool, filter2: Key -> bool) returns (result: List<(Key, I)>)
      requires Valid()
      ensures fresh(result)
      ensures result.items == Pruned(root, filter1, filter2)
      ensures LowerBoundTest(filter1) && UpperBoundTest(filter2) ==>
                result.items == Matching(InOrder(root), filter1, filter2)
      ensures |result.items| <= Len()
    {
      result := new List();
      FilterTraverse(root, filter1, filter2, result);
      PrunedSize(root, filter1, filter2);
      if LowerBoundTest(filter1) && UpperBoundTest(filter2) {
        PrunedIsMatching(root, filter1, filter2);
      }
    }

    /** Appends to `result` what the pruned in-order walk of `current` emits. */
    method FilterTraverse(current: Tree<I>, filter1: Key -> bool, filter2: Key -> bool, result: List<(Key, I)>)
      modifies result
      ensures result.items == old(result.items) + Pruned(current, filter1, filter2)
      decreases current
    {
      if current.Leaf? {
        return;
      }
      if filter1(current.key) {
        FilterTraverse(current.left, filter1, filter2, result);
      }
      if filter1(current.key) && filter2(current.key) {
        result.Append((current.key, current.item));
      }
      if filter2(current.key) {
        FilterTraverse(current.right, filter1, filter2, result);
      }
    }

    // The inherited key-indexed interface of the substrate tree.

    /** `self[key] = item`. */
    method Put(key: Key, item: I)
      modifies this
      ensures root == Insert(old(root), key, item)
    {
      root := Insert(root, key, item);
    }

    /** `self[key]`, with None for the substrate's KeyError. */
    method Get(key: Key) returns (r: Option<I>)
      requires Valid()
      ensures r.Some? <==> key in Keys(root)
      ensures forall v :: r == Some(v) <==> (key, v) in InOrder(root)
    {
      r := Lookup(root, key);
      LookupFindsKeys(root, key);
      forall v ensures r == Some(v) <==> (key, v) in InOrder(root) {
        LookupMatchesInOrder(root, key, v);
      }
    }

    /** `del self[key]`; `found` is false where the substrate raises KeyError,
        and then the tree is left as it was. */
    method DelItem(key: Key) returns (found: bool)
      requires Valid()
      modifies this
      ensures Valid()
      ensures found == (key in Keys(old(root)))
      ensures root == Delete(old(root), key)
      ensures Keys(root) == Keys(old(root)) - {key}
      ensures forall j | j != key :: Lookup(root, j) == Lookup(old(root), j)
      ensures !found ==> root == old(root)
    {
      found := key in Keys(root);
      if !found {
        DeleteAbsent(root, key);
      }
      DeleteSpec(root, key);
      root := Delete(root, key);
    }

    /** `key in self`. */
    predicate ContainsKey(key: Key)
      requires Valid()
      reads this
      ensures ContainsKey(key) <==> key in Keys(root)
    {
      LookupFindsKeys(root, key);
      Lookup(root, key).Some?
    }

    /** `len(self)`: the number of stored keys. */
    function Len(): nat
      requires Valid()
      reads this
      ensures Len() == |Keys(root)|
    {
      SizeIsKeyCount(root);
      Size(root)
    }
  }
}
