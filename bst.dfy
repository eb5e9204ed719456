/** The ordered-map substrate the repository inherits from its
    data_structures package (BinarySearchTree and TreeNode, whose code is not
    part of this model), described only by its interface: insertion that
    overwrites an existing key, lookup that reports a miss, deletion that
    replaces a two-child node by its in-order successor, size, and in-order
    iteration. Keys are reals: an abstract, totally ordered key type. */
module Bst {

  type Key = real

  datatype Option<T> = None | Some(value: T)

  datatype Tree<I> = Leaf | Node(left: Tree<I>, key: Key, item: I, right: Tree<I>)

  function Keys<I>(t: Tree<I>): set<Key> {
    match t
    case Leaf => {}
    case Node(l, k, _, r) => Keys(l) + {k} + Keys(r)
  }

  /** The ordering invariant: left keys < node key < right keys, everywhere. */
  ghost predicate IsBST<I>(t: Tree<I>) {
    match t
    case Leaf => true
    case Node(l, k, _, r) =>
      && IsBST(l) && IsBST(r)
      && (forall j | j in Keys(l) :: j < k)
      && (forall j | j in Keys(r) :: k < j)
  }

  /** In-order iteration: the (key, item) pairs from left to right. */
  function InOrder<I>(t: Tree<I>): seq<(Key, I)> {
    match t
    case Leaf => []
    case Node(l, k, v, r) => InOrder(l) + [(k, v)] + InOrder(r)
  }

  function Size<I>(t: Tree<I>): nat {
    match t
    case Leaf => 0
    case Node(l, _, _, r) => Size(l) + 1 + Size(r)
  }

  /** Number of nodes on a longest root-to-leaf path (a leaf has height 0). */
  function Height<I>(t: Tree<I>): nat {
    match t
    case Leaf => 0
    case Node(l, _, _, r) => 1 + (if Height(l) < Height(r) then Height(r) else Height(l))
  }

  /** The keys of a sequence of entries. */
  ghost function KeysOf<I>(s: seq<(Key, I)>): set<Key> {
    set i | 0 <= i < |s| :: s[i].0
  }

  /** Keys strictly ascending from left to right. */
  ghost predicate Ascending<I>(s: seq<(Key, I)>) {
    forall i, j | 0 <= i < j < |s| :: s[i].0 < s[j].0
  }

  /** The item stored under `k`, or None (the substrate's KeyError). */
  function Lookup<I>(t: Tree<I>, k: Key): Option<I> {
    match t
    case Leaf => None
    case Node(l, k0, v0, r) =>
      if k < k0 then Lookup(l, k) else if k0 < k then Lookup(r, k) else Some(v0)
  }

  /** `t[k] = v`: adds the key, or overwrites the item of an existing key. */
  function Insert<I>(t: Tree<I>, k: Key, v: I): (r: Tree<I>)
    ensures Keys(r) == Keys(t) + {k}
    ensures IsBST(t) ==> IsBST(r)
    ensures forall j :: Lookup(r, j) == if j == k then Some(v) else Lookup(t, j)
  {
    match t
    case Leaf => Node(Leaf, k, v, Leaf)
    case Node(l, k0, v0, r) =>
      if k < k0 then Node(Insert(l, k, v), k0, v0, r)
      else if k0 < k then Node(l, k0, v0, Insert(r, k, v))
      else Node(l, k0, v, r)
  }

  /** The leftmost entry of a non-empty tree. */
  function MinEntry<I>(t: Tree<I>): (e: (Key, I))
    requires t.Node?
    ensures e.0 in Keys(t)
    ensures IsBST(t) ==> forall j | j in Keys(t) :: e.0 <= j
    ensures Lookup(t, e.0) == Some(e.1) || !IsBST(t)
  {
    if t.left.Leaf? then (t.key, t.item) else MinEntry(t.left)
  }

  /** `del t[k]`: removes `k`; a node with two children takes its successor. */
  function Delete<I>(t: Tree<I>, k: Key): Tree<I> {
    match t
    case Leaf => Leaf
    case Node(l, k0, v0, r) =>
      if k < k0 then Node(Delete(l, k), k0, v0, r)
      else if k0 < k then Node(l, k0, v0, Delete(r, k))
      else if l.Leaf? then r
      else if r.Leaf? then l
      else
        var m := MinEntry(r);
        Node(l, m.0, m.1, Delete(r, m.0))
  }

  /** A lookup hit is always a key of the tree. */
  lemma {:induction false} LookupHitIsKey<I>(t: Tree<I>, k: Key)
    ensures Lookup(t, k).Some? ==> k in Keys(t)
  {
    match t
    case Leaf =>
    case Node(l, k0, _, r) =>
      if k < k0 { LookupHitIsKey(l, k); } else if k0 < k { LookupHitIsKey(r, k); }
  }

  /** In a search tree, lookup finds exactly the keys of the tree. */
  lemma {:induction false} LookupFindsKeys<I>(t: Tree<I>, k: Key)
    requires IsBST(t)
    ensures Lookup(t, k).Some? <==> k in Keys(t)
  {
    LookupHitIsKey(t, k);
    match t
    case Leaf =>
    case Node(l, k0, _, r) =>
      if k < k0 {
        LookupFindsKeys(l, k);
      } else if k0 < k {
        LookupFindsKeys(r, k);
      }
  }

  /** Deletion removes exactly `k` and keeps the ordering invariant. */
  lemma {:induction false} DeleteSpec<I>(t: Tree<I>, k: Key)
    requires IsBST(t)
    ensures IsBST(Delete(t, k))
    ensures Keys(Delete(t, k)) == Keys(t) - {k}
    ensures forall j :: Lookup(Delete(t, k), j) == if j == k then None else Lookup(t, j)
  {
    match t
    case Leaf =>
    case Node(l, k0, v0, r) =>
      if k < k0 {
        DeleteSpec(l, k);
        assert k !in Keys(r);
      } else if k0 < k {
        DeleteSpec(r, k);
        assert k !in Keys(l);
      } else if l.Leaf? {
        forall j ensures Lookup(r, j) == if j == k then None else Lookup(t, j) {
          LookupHitIsKey(r, j);
        }
      } else if r.Leaf? {
        forall j ensures Lookup(l, j) == if j == k then None else Lookup(t, j) {
          LookupHitIsKey(l, j);
        }
      } else {
        var m := MinEntry(r);
        DeleteSpec(r, m.0);
        var d := Delete(t, k);
        assert d == Node(l, m.0, m.1, Delete(r, m.0));
        assert Keys(d) == Keys(t) - {k};
        forall j ensures Lookup(d, j) == if j == k then None else Lookup(t, j) {
          LookupHitIsKey(l, j);
          LookupHitIsKey(r, j);
        }
      }
  }

  /** Deleting an absent key leaves the tree as it is. */
  lemma {:induction false} DeleteAbsent<I>(t: Tree<I>, k: Key)
    requires k !in Keys(t)
    ensures Delete(t, k) == t
  {
    match t
    case Leaf =>
    case Node(l, k0, _, r) =>
      if k < k0 { DeleteAbsent(l, k); } else if k0 < k { DeleteAbsent(r, k); }
  }

  /** The in-order pairs carry exactly the tree's keys, one per node. */
  lemma {:induction false} InOrderKeys<I>(t: Tree<I>)
    ensures KeysOf(InOrder(t)) == Keys(t)
    ensures |InOrder(t)| == Size(t)
  {
    match t
    case Leaf =>
    case Node(l, k, v, r) =>
      InOrderKeys(l);
      InOrderKeys(r);
      KeysOfAppend(InOrder(l) + [(k, v)], InOrder(r));
      KeysOfAppend(InOrder(l), [(k, v)]);
      assert KeysOf([(k, v)]) == {k} by {
        assert [(k, v)][0].0 == k;
      }
  }

  lemma KeysOfAppend<I>(a: seq<(Key, I)>, b: seq<(Key, I)>)
    ensures KeysOf(a + b) == KeysOf(a) + KeysOf(b)
  {
    var ab := a + b;
    forall x | x in KeysOf(ab) ensures x in KeysOf(a) + KeysOf(b) {
      var i :| 0 <= i < |ab| && ab[i].0 == x;
      if i < |a| { assert a[i] == ab[i]; } else { assert b[i - |a|] == ab[i]; }
    }
    forall x | x in KeysOf(a) + KeysOf(b) ensures x in KeysOf(ab) {
      if x in KeysOf(a) {
        var i :| 0 <= i < |a| && a[i].0 == x;
        assert ab[i] == a[i];
      } else {
        var i :| 0 <= i < |b| && b[i].0 == x;
        assert ab[|a| + i] == b[i];
      }
    }
  }

  /** The ordering invariant holds exactly when in-order keys strictly ascend. */
  lemma {:induction false} SearchTreeIffAscending<I>(t: Tree<I>)
    ensures IsBST(t) <==> Ascending(InOrder(t))
  {
    match t
    case Leaf =>
    case Node(l, k, v, r) =>
      SearchTreeIffAscending(l);
      SearchTreeIffAscending(r);
      InOrderKeys(l);
      InOrderKeys(r);
      if IsBST(t) {
        AscendingJoin(InOrder(l), k, v, InOrder(r));
      }
      if Ascending(InOrder(t)) {
        AscendingSplit(InOrder(l), k, v, InOrder(r));
      }
  }

  /** Gluing two ascending runs around a middle key gives an ascending run. */
  lemma AscendingJoin<I>(sl: seq<(Key, I)>, k: Key, v: I, sr: seq<(Key, I)>)
    requires Ascending(sl) && Ascending(sr)
    requires forall x | x in KeysOf(sl) :: x < k
    requires forall x | x in KeysOf(sr) :: k < x
    ensures Ascending(sl + [(k, v)] + sr)
  {
    var s := sl + [(k, v)] + sr;
    var n := |sl|;
    forall i, j | 0 <= i < j < |s| ensures s[i].0 < s[j].0 {
      if j < n {
        assert s[i] == sl[i] && s[j] == sl[j];
      } else if j == n {
        assert s[i] == sl[i] && sl[i].0 in KeysOf(sl);
      } else if i < n {
        assert s[i] == sl[i] && sl[i].0 in KeysOf(sl);
        assert s[j] == sr[j - n - 1] && sr[j - n - 1].0 in KeysOf(sr);
      } else if i == n {
        assert s[j] == sr[j - n - 1] && sr[j - n - 1].0 in KeysOf(sr);
      } else {
        assert s[i] == sr[i - n - 1] && s[j] == sr[j - n - 1];
      }
    }
  }

  /** An ascending run splits into ascending parts around any middle entry. */
  lemma AscendingSplit<I>(sl: seq<(Key, I)>, k: Key, v: I, sr: seq<(Key, I)>)
    requires Ascending(sl + [(k, v)] + sr)
    ensures Ascending(sl) && Ascending(sr)
    ensures forall x | x in KeysOf(sl) :: x < k
    ensures forall x | x in KeysOf(sr) :: k < x
  {
    var s := sl + [(k, v)] + sr;
    var n := |sl|;
    assert s[n] == (k, v);
    forall i, j | 0 <= i < j < |sl| ensures sl[i].0 < sl[j].0 {
      assert s[i] == sl[i] && s[j] == sl[j];
    }
    forall i, j | 0 <= i < j < |sr| ensures sr[i].0 < sr[j].0 {
      assert s[n + 1 + i] == sr[i] && s[n + 1 + j] == sr[j];
    }
    forall x | x in KeysOf(sl) ensures x < k {
      var i :| 0 <= i < |sl| && sl[i].0 == x;
      assert s[i] == sl[i];
    }
    forall x | x in KeysOf(sr) ensures k < x {
      var i :| 0 <= i < |sr| && sr[i].0 == x;
      assert s[n + 1 + i] == sr[i];
    }
  }

  /** In a search tree, lookup returns `v` exactly when (k, v) is iterated. */
  lemma {:induction false} LookupMatchesInOrder<I>(t: Tree<I>, k: Key, v: I)
    requires IsBST(t)
    ensures Lookup(t, k) == Some(v) <==> (k, v) in InOrder(t)
  {
    match t
    case Leaf =>
    case Node(l, k0, v0, r) =>
      LookupMatchesInOrder(l, k, v);
      LookupMatchesInOrder(r, k, v);
      InOrderKeys(l);
      InOrderKeys(r);
      if (k, v) in InOrder(l) {
        var i :| 0 <= i < |InOrder(l)| && InOrder(l)[i] == (k, v);
        assert k in KeysOf(InOrder(l));
      }
      if (k, v) in InOrder(r) {
        var i :| 0 <= i < |InOrder(r)| && InOrder(r)[i] == (k, v);
        assert k in KeysOf(InOrder(r));
      }
  }

  /** A search tree has one node per key. */
  lemma {:induction false} SizeIsKeyCount<I>(t: Tree<I>)
    requires IsBST(t)
    ensures Size(t) == |Keys(t)|
  {
    match t
    case Leaf =>
    case Node(l, k, _, r) =>
      SizeIsKeyCount(l);
      SizeIsKeyCount(r);
      assert k !in Keys(l) && k !in Keys(r);
      assert Keys(l) !! Keys(r) by {
        forall x | x in Keys(l) ensures x !in Keys(r) { }
      }
      assert |Keys(l) + Keys(r)| == |Keys(l)| + |Keys(r)|;
      assert Keys(t) == (Keys(l) + Keys(r)) + {k};
  }

  /** Insertion iterates only the new pair and pairs that were there before. */
  lemma {:induction false} InsertEntries<I>(t: Tree<I>, k: Key, v: I)
    ensures forall e | e in InOrder(Insert(t, k, v)) :: e == (k, v) || e in InOrder(t)
  {
    match t
    case Leaf =>
    case Node(l, k0, v0, r) =>
      if k < k0 {
        InsertEntries(l, k, v);
      } else if k0 < k {
        InsertEntries(r, k, v);
      }
  }

  lemma {:induction false} MinEntryIsIterated<I>(t: Tree<I>)
    requires t.Node?
    ensures MinEntry(t) in InOrder(t)
  {
    if t.left.Node? {
      MinEntryIsIterated(t.left);
    }
  }

  /** Deletion iterates only pairs that were there before. */
  lemma {:induction false} DeleteEntries<I>(t: Tree<I>, k: Key)
    ensures forall e | e in InOrder(Delete(t, k)) :: e in InOrder(t)
  {
    match t
    case Leaf =>
    case Node(l, k0, v0, r) =>
      if k < k0 {
        DeleteEntries(l, k);
      } else if k0 < k {
        DeleteEntries(r, k);
      } else if l.Node? && r.Node? {
        var m := MinEntry(r);
        MinEntryIsIterated(r);
        DeleteEntries(r, m.0);
      }
  }

  function Pow2(h: nat): (p: nat)
    ensures p >= 1
  {
    if h == 0 then 1 else 2 * Pow2(h - 1)
  }

  /** A tree of height h has at most 2^h - 1 nodes. */
  lemma {:induction false} SizeBelowPow2<I>(t: Tree<I>)
    ensures Size(t) < Pow2(Height(t))
  {
    match t
    case Leaf =>
    case Node(l, _, _, r) =>
      SizeBelowPow2(l);
      SizeBelowPow2(r);
      Pow2Monotone(Height(l), Height(t) - 1);
      Pow2Monotone(Height(r), Height(t) - 1);
  }

  lemma {:induction false} Pow2Monotone(a: nat, b: nat)
    requires a <= b
    ensures Pow2(a) <= Pow2(b)
  {
    if a < b { Pow2Monotone(a, b - 1); }
  }
}
