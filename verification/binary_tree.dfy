/**
  Plain (unbalanced, unthreaded) binary search trees keyed by `int`.

  This module holds what the three tree maps share: the node shape, the
  in-order and reverse in-order snapshots (`GoIn`/`GoDe`, `InOrderTraversal`),
  the search-tree ordering, the descent to the link where a key is or belongs,
  and a recursive reference insertion and deletion whose effect on the
  snapshot is proved once here. Each map module models its own source's
  control flow and is shown equal to the reference.
 */
module BinaryTree {
  import opened Common
  import opened Assoc

  datatype Tree<V> = Nil | Node(key: int, val: V, left: Tree<V>, right: Tree<V>)

  /** Ascending snapshot: left subtree, the node, right subtree. */
  function Inorder<V>(t: Tree<V>): seq<Entry<V>> {
    match t
    case Nil => []
    case Node(k, v, l, r) => Inorder(l) + [(k, v)] + Inorder(r)
  }

  /** Descending snapshot: right subtree, the node, left subtree. */
  function RevInorder<V>(t: Tree<V>): seq<Entry<V>> {
    match t
    case Nil => []
    case Node(k, v, l, r) => RevInorder(r) + [(k, v)] + RevInorder(l)
  }

  /** The search-tree ordering: the in-order keys are strictly increasing. */
  predicate Bst<V>(t: Tree<V>) {
    Ascending(Inorder(t))
  }

  /** The descending snapshot is exactly the ascending one reversed. */
  lemma {:induction false} RevInorderIsReverse<V>(t: Tree<V>)
    ensures RevInorder(t) == Reverse(Inorder(t))
  {
    match t
    case Nil =>
    case Node(k, v, l, r) =>
      RevInorderIsReverse(l);
      RevInorderIsReverse(r);
      ReverseOfConcat(Inorder(l), (k, v), Inorder(r));
  }

  /** At a node of a search tree, the left keys lie below and the right keys above. */
  lemma BstNode<V>(t: Tree<V>)
    requires t.Node? && Bst(t)
    ensures Bst(t.left) && Bst(t.right)
    ensures AllBelow(Inorder(t.left), t.key) && AllAbove(Inorder(t.right), t.key)
  {
    AscendingAround(Inorder(t.left), (t.key, t.val), Inorder(t.right));
  }

  lemma BelowMeansAbsent<V>(s: seq<Entry<V>>, k: int, x: int)
    requires AllBelow(s, x) && x <= k
    ensures !HasKey(s, k)
  {
  }

  lemma AboveMeansAbsent<V>(s: seq<Entry<V>>, k: int, x: int)
    requires AllAbove(s, x) && k <= x
    ensures !HasKey(s, k)
  {
  }

  lemma HasKeyAround<V>(a: seq<Entry<V>>, x: Entry<V>, b: seq<Entry<V>>, k: int)
    ensures HasKey(a + [x] + b, k) <==> HasKey(a, k) || x.0 == k || HasKey(b, k)
  {
    var s := a + [x] + b;
    assert forall i :: 0 <= i < |a| ==> s[i] == a[i];
    assert forall i :: 0 <= i < |b| ==> s[|a| + 1 + i] == b[i];
    assert s[|a|] == x;
    assert forall i :: |a| < i < |s| ==> s[i] == b[i - |a| - 1];
  }

  // ---------------------------------------------------------------------
  // Recursive reference operations

  /** Reference insert-or-overwrite. */
  function Insert<V>(t: Tree<V>, k: int, v: V): Tree<V> {
    match t
    case Nil => Node(k, v, Nil, Nil)
    case Node(key, val, l, r) =>
      if k < key then Node(key, val, Insert(l, k, v), r)
      else if key < k then Node(key, val, l, Insert(r, k, v))
      else Node(key, v, l, r)
  }

  /** Reference insertion has exactly the abstract insert-or-overwrite effect. */
  lemma {:induction false} InsertContents<V>(t: Tree<V>, k: int, v: V)
    requires Bst(t)
    ensures Inorder(Insert(t, k, v)) == Put(Inorder(t), k, v)
    ensures Bst(Insert(t, k, v))
  {
    InsertInorder(t, k, v);
    PutAscending(Inorder(t), k, v);
  }

  lemma {:induction false} InsertInorder<V>(t: Tree<V>, k: int, v: V)
    requires Bst(t)
    ensures Inorder(Insert(t, k, v)) == Put(Inorder(t), k, v)
  {
    if t.Node? {
      BstNode(t);
      if k < t.key {
        InsertInorder(t.left, k, v);
        PutIntoLeft(Inorder(t.left), (t.key, t.val), Inorder(t.right), k, v);
      } else if t.key < k {
        InsertInorder(t.right, k, v);
        PutIntoRight(Inorder(t.left), (t.key, t.val), Inorder(t.right), k, v);
      } else {
        PutOnto(Inorder(t.left), (t.key, t.val), Inorder(t.right), v);
      }
    }
  }

  /** The smallest entry of a non-empty tree and the tree without it. */
  function RemoveMin<V>(t: Tree<V>): (Entry<V>, Tree<V>)
    requires t.Node?
  {
    if t.left == Nil then ((t.key, t.val), t.right)
    else
      var (m, l') := RemoveMin(t.left);
      (m, Node(t.key, t.val, l', t.right))
  }

  /** The removed minimum is the first in-order entry and the rest keeps the order. */
  lemma {:induction false} RemoveMinContents<V>(t: Tree<V>)
    requires t.Node?
    ensures [RemoveMin(t).0] + Inorder(RemoveMin(t).1) == Inorder(t)
  {
    if t.left != Nil {
      RemoveMinContents(t.left);
    }
  }

  /** Unlinking the node at the root of `t`, the classic three cases. */
  function EraseRoot<V>(t: Tree<V>): Tree<V>
    requires t.Node?
  {
    if t.left == Nil then t.right
    else if t.right == Nil then t.left
    else
      var (m, rest) := RemoveMin(t.right);
      Node(m.0, m.1, t.left, rest)
  }

  lemma EraseRootContents<V>(t: Tree<V>)
    requires t.Node?
    ensures Inorder(EraseRoot(t)) == Inorder(t.left) + Inorder(t.right)
  {
    if t.left != Nil && t.right != Nil {
      RemoveMinContents(t.right);
    }
  }

  /** Reference deletion; a missing key leaves the tree as it is. */
  function Erase<V>(t: Tree<V>, k: int): Tree<V> {
    match t
    case Nil => Nil
    case Node(key, val, l, r) =>
      if k < key then Node(key, val, Erase(l, k), r)
      else if key < k then Node(key, val, l, Erase(r, k))
      else EraseRoot(t)
  }

  /** Reference deletion has exactly the abstract removal effect. */
  lemma {:induction false} EraseContents<V>(t: Tree<V>, k: int)
    requires Bst(t)
    ensures Inorder(Erase(t, k)) == Remove(Inorder(t), k)
    ensures Bst(Erase(t, k))
  {
    EraseInorder(t, k);
    RemoveAscending(Inorder(t), k);
  }

  lemma {:induction false} EraseInorder<V>(t: Tree<V>, k: int)
    requires Bst(t)
    ensures Inorder(Erase(t, k)) == Remove(Inorder(t), k)
  {
    if t.Node? {
      var key, L, R := t.key, Inorder(t.left), Inorder(t.right);
      BstNode(t);
      if k < key {
        EraseInorder(t.left, k);
        AboveMeansAbsent(R, k, key);
        RemoveAbsent(R, k);
        EraseLeft(t, k);
      } else if key < k {
        EraseInorder(t.right, k);
        BelowMeansAbsent(L, k, key);
        RemoveAbsent(L, k);
        EraseRight(t, k);
      } else {
        EraseRootContents(t);
        BelowMeansAbsent(L, k, key);
        RemoveAbsent(L, k);
        AboveMeansAbsent(R, k, key);
        RemoveAbsent(R, k);
        EraseHere(t, k);
      }
    }
  }

  /** `Erase` descending left removes the key from the whole snapshot when
      it removes it from the left part and the right part lacks it. */
  lemma EraseLeft<V>(t: Tree<V>, k: int)
    requires t.Node? && k < t.key
    requires Inorder(Erase(t.left, k)) == Remove(Inorder(t.left), k)
    requires Remove(Inorder(t.right), k) == Inorder(t.right)
    ensures Inorder(Erase(t, k)) == Remove(Inorder(t), k)
  {
    var L, x, R := Inorder(t.left), (t.key, t.val), Inorder(t.right);
    RemoveKeyLeft(L, x, R, k);
    assert Inorder(t) == L + [x] + R;
    assert Erase(t, k) == Node(t.key, t.val, Erase(t.left, k), t.right);
  }

  /** The mirror image of `EraseLeft`. */
  lemma EraseRight<V>(t: Tree<V>, k: int)
    requires t.Node? && t.key < k
    requires Inorder(Erase(t.right, k)) == Remove(Inorder(t.right), k)
    requires Remove(Inorder(t.left), k) == Inorder(t.left)
    ensures Inorder(Erase(t, k)) == Remove(Inorder(t), k)
  {
    var L, x, R := Inorder(t.left), (t.key, t.val), Inorder(t.right);
    RemoveKeyRight(L, x, R, k);
    assert Inorder(t) == L + [x] + R;
    assert Erase(t, k) == Node(t.key, t.val, t.left, Erase(t.right, k));
  }

  /** `Erase` at the key's own node drops exactly that entry. */
  lemma EraseHere<V>(t: Tree<V>, k: int)
    requires t.Node? && t.key == k
    requires Inorder(EraseRoot(t)) == Inorder(t.left) + Inorder(t.right)
    requires Remove(Inorder(t.left), k) == Inorder(t.left)
    requires Remove(Inorder(t.right), k) == Inorder(t.right)
    ensures Inorder(Erase(t, k)) == Remove(Inorder(t), k)
  {
    var L, x, R := Inorder(t.left), (t.key, t.val), Inorder(t.right);
    RemoveKeyBetween(L, x, R, k);
    assert Inorder(t) == L + [x] + R;
    assert Erase(t, k) == EraseRoot(t);
  }

  lemma RemoveKeyLeft<V>(L: seq<Entry<V>>, x: Entry<V>, R: seq<Entry<V>>, k: int)
    requires x.0 != k && Remove(R, k) == R
    ensures Remove(L + [x] + R, k) == Remove(L, k) + [x] + R
  {
    RemoveAround(L, x, R, k);
  }

  lemma RemoveKeyRight<V>(L: seq<Entry<V>>, x: Entry<V>, R: seq<Entry<V>>, k: int)
    requires x.0 != k && Remove(L, k) == L
    ensures Remove(L + [x] + R, k) == L + [x] + Remove(R, k)
  {
    RemoveAround(L, x, R, k);
  }

  lemma RemoveKeyBetween<V>(L: seq<Entry<V>>, x: Entry<V>, R: seq<Entry<V>>, k: int)
    requires x.0 == k && Remove(L, k) == L && Remove(R, k) == R
    ensures Remove(L + [x] + R, k) == L + R
  {
    RemoveAround(L, x, R, k);
    assert L + [] + R == L + R;
  }

  /** Removal from a node's snapshot works on the three parts separately. */
  lemma RemoveAround<V>(L: seq<Entry<V>>, x: Entry<V>, R: seq<Entry<V>>, k: int)
    ensures Remove(L + [x] + R, k) == Remove(L, k) + (if x.0 == k then [] else [x]) + Remove(R, k)
  {
    RemoveConcat(L + [x], R, k);
    RemoveConcat(L, [x], k);
    assert [x][1..] == [];
  }

  /** Membership by descent, as every `Find` loop computes it. */
  function Contains<V>(t: Tree<V>, k: int): bool {
    match t
    case Nil => false
    case Node(key, _, l, r) =>
      if k < key then Contains(l, k)
      else if key < k then Contains(r, k)
      else true
  }

  /** Descent finds a key exactly when the snapshot holds it. */
  lemma {:induction false} ContainsIff<V>(t: Tree<V>, k: int)
    requires Bst(t)
    ensures Contains(t, k) <==> HasKey(Inorder(t), k)
  {
    match t
    case Nil =>
    case Node(key, val, l, r) =>
      BstNode(t);
      HasKeyAround(Inorder(l), (key, val), Inorder(r), k);
      if k < key {
        ContainsIff(l, k);
        AboveMeansAbsent(Inorder(r), k, key);
      } else if key < k {
        ContainsIff(r, k);
        BelowMeansAbsent(Inorder(l), k, key);
      }
  }

  // ---------------------------------------------------------------------
  // Links as paths: the `Node**` a descent loop ends on

  datatype Side = GoLeft | GoRight

  type Path = seq<Side>

  /** The subtree hanging from the link reached by `p` (`Nil` for a null link). */
  function At<V>(t: Tree<V>, p: Path): Tree<V>
    decreases |p|
  {
    if p == [] || t == Nil then t
    else if p[0] == GoLeft then At(t.left, p[1..])
    else At(t.right, p[1..])
  }

  /** Writes `s` into the link reached by `p` (`*link = s`). */
  function Replace<V>(t: Tree<V>, p: Path, s: Tree<V>): Tree<V>
    decreases |p|
  {
    if p == [] then s
    else if t == Nil then t
    else if p[0] == GoLeft then Node(t.key, t.val, Replace(t.left, p[1..], s), t.right)
    else Node(t.key, t.val, t.left, Replace(t.right, p[1..], s))
  }

  /** The descent loop shared by `Spot` and the maps' insert loops: go left
      while the key is smaller, right while it is larger, and stop on an
      equal key or a null link. */
  function Search<V>(t: Tree<V>, k: int): Path {
    match t
    case Nil => []
    case Node(key, _, l, r) =>
      if k < key then [GoLeft] + Search(l, k)
      else if key < k then [GoRight] + Search(r, k)
      else []
  }

  /** The descent ends on a null link exactly for an absent key, otherwise on the key's node. */
  lemma {:induction false} SearchFinds<V>(t: Tree<V>, k: int)
    requires Bst(t)
    ensures At(t, Search(t, k)) == Nil <==> !HasKey(Inorder(t), k)
    ensures At(t, Search(t, k)).Node? ==> At(t, Search(t, k)).key == k
  {
    match t
    case Nil =>
    case Node(key, val, l, r) =>
      BstNode(t);
      HasKeyAround(Inorder(l), (key, val), Inorder(r), k);
      if k < key {
        SearchFinds(l, k);
        AboveMeansAbsent(Inorder(r), k, key);
        assert Search(t, k)[1..] == Search(l, k);
      } else if key < k {
        SearchFinds(r, k);
        BelowMeansAbsent(Inorder(l), k, key);
        assert Search(t, k)[1..] == Search(r, k);
      }
  }

  /** The node found by the descent carries the value the snapshot lists for the key. */
  lemma {:induction false} LookupAtSearch<V>(t: Tree<V>, key: int)
    requires Bst(t) && At(t, Search(t, key)).Node?
    ensures Lookup(Inorder(t), key) == Some(At(t, Search(t, key)).val)
  {
    match t
    case Node(k, v, l, r) =>
      BstNode(t);
      LookupConcat(Inorder(l) + [(k, v)], Inorder(r), key);
      LookupConcat(Inorder(l), [(k, v)], key);
      if key < k {
        assert Search(t, key)[1..] == Search(l, key);
        LookupAtSearch(l, key);
      } else if k < key {
        assert Search(t, key)[1..] == Search(r, key);
        LookupAtSearch(r, key);
        BelowMeansAbsent(Inorder(l), key, k);
      } else {
        BelowMeansAbsent(Inorder(l), key, k);
      }
  }

  /** Writing a fresh leaf into the null link, or overwriting the value found,
      is the reference insertion. */
  lemma {:induction false} ReplaceAtSearchIsInsert<V>(t: Tree<V>, k: int, v: V)
    ensures var p := Search(t, k);
      Replace(t, p, if At(t, p) == Nil then Node(k, v, Nil, Nil)
                    else Node(At(t, p).key, v, At(t, p).left, At(t, p).right))
      == Insert(t, k, v)
  {
    match t
    case Nil =>
    case Node(key, val, l, r) =>
      if k < key {
        ReplaceAtSearchIsInsert(l, k, v);
        assert Search(t, k)[1..] == Search(l, k);
      } else if key < k {
        ReplaceAtSearchIsInsert(r, k, v);
        assert Search(t, k)[1..] == Search(r, k);
      }
  }

  /** Writing the unlinked node's replacement into the link found is the reference deletion. */
  lemma {:induction false} ReplaceAtSearchIsErase<V>(t: Tree<V>, k: int)
    requires At(t, Search(t, k)).Node?
    ensures Replace(t, Search(t, k), EraseRoot(At(t, Search(t, k)))) == Erase(t, k)
  {
    match t
    case Node(key, val, l, r) =>
      if k < key {
        assert Search(t, k)[1..] == Search(l, k);
        ReplaceAtSearchIsErase(l, k);
      } else if key < k {
        assert Search(t, k)[1..] == Search(r, k);
        ReplaceAtSearchIsErase(r, k);
      }
  }

  /** The path of left links from the top of `t` down to its leftmost node. */
  function LeftSpine<V>(t: Tree<V>): Path
    requires t.Node?
  {
    if t.left == Nil then [] else [GoLeft] + LeftSpine(t.left)
  }

  /** Following the left spine reaches the minimum, and unlinking it there
      (writing its right child into the link) is `RemoveMin`. */
  lemma {:induction false} LeftSpineIsMin<V>(t: Tree<V>)
    requires t.Node?
    ensures At(t, LeftSpine(t)).Node?
    ensures (At(t, LeftSpine(t)).key, At(t, LeftSpine(t)).val) == RemoveMin(t).0
    ensures Replace(t, LeftSpine(t), At(t, LeftSpine(t)).right) == RemoveMin(t).1
  {
    if t.left != Nil {
      LeftSpineIsMin(t.left);
      assert LeftSpine(t)[1..] == LeftSpine(t.left);
    }
  }

  function Size<V>(t: Tree<V>): nat {
    match t
    case Nil => 0
    case Node(_, _, l, r) => Size(l) + 1 + Size(r)
  }

  lemma {:induction false} SizeIsLength<V>(t: Tree<V>)
    ensures |Inorder(t)| == Size(t)
  {
    match t
    case Nil =>
    case Node(_, _, l, r) =>
      SizeIsLength(l);
      SizeIsLength(r);
  }
}
