/**
  The ordered map of tasks/tree/NTree/filesystem/map/map.hpp (the one the toy
  file tree stores its entries in). Same tree and counter as the splice
  variant, but `Erase` tracks the parent of the node it descends to, and in
  the two-child case copies the successor's key and value into the erased
  node and unlinks the successor node instead of moving it.
 */
module CopyMap {
  import opened Common
  import opened Assoc
  import opened BinaryTree

  datatype CMap<V> = CMap(root: Tree<V>, size: nat)

  /** The class invariant: a search tree whose counter is its node count. */
  predicate Valid<V>(m: CMap<V>) {
    Bst(m.root) && m.size == |Inorder(m.root)|
  }

  function Size<V>(m: CMap<V>): nat {
    m.size
  }

  /** `IsEmpty` looks at the root, not at the counter; under the invariant both agree. */
  function IsEmpty<V>(m: CMap<V>): (r: bool)
    requires Valid(m)
    ensures r <==> Size(m) == 0
    ensures r <==> Values(m, true) == []
  {
    m.root == Nil
  }

  /** `Values(is_increase)`: in-order or reverse in-order traversal. */
  function Values<V>(m: CMap<V>, isIncrease: bool): (r: seq<Entry<V>>)
    requires Valid(m)
    ensures |r| == Size(m)
    ensures isIncrease ==> Ascending(r)
    ensures !isIncrease ==> Descending(r)
  {
    RevInorderIsReverse(m.root);
    ReverseDescends(Inorder(m.root));
    if isIncrease then Inorder(m.root) else RevInorder(m.root)
  }

  /** The descending snapshot is the exact reverse of the ascending one. */
  lemma ValuesReversed<V>(m: CMap<V>)
    requires Valid(m)
    ensures Values(m, false) == Reverse(Values(m, true))
  {
    RevInorderIsReverse(m.root);
  }

  /** `Find`: descent to an equivalent key. */
  function Find<V>(m: CMap<V>, key: int): (found: bool)
    requires Valid(m)
    ensures found <==> HasKey(Values(m, true), key)
  {
    ContainsIff(m.root, key);
    Contains(m.root, key)
  }

  /** `operator[]`: descend; return the value of an equivalent key, or create
      a node holding `dflt` (the model of `Value()`) at the null link reached. */
  function Index<V>(m: CMap<V>, key: int, dflt: V): (r: (CMap<V>, V))
    requires Valid(m)
    ensures Valid(r.0)
    ensures HasKey(Values(m, true), key) ==>
      r.0 == m && Lookup(Values(m, true), key) == Some(r.1)
    ensures !HasKey(Values(m, true), key) ==>
      r.1 == dflt && Values(r.0, true) == Put(Values(m, true), key, dflt) && Size(r.0) == Size(m) + 1
  {
    var current := Search(m.root, key);
    SearchFinds(m.root, key);
    var x := At(m.root, current);
    if x == Nil then
      ReplaceAtSearchIsInsert(m.root, key, dflt);
      InsertContents(m.root, key, dflt);
      PutLength(Inorder(m.root), key, dflt);
      (CMap(Replace(m.root, current, Node(key, dflt, Nil, Nil)), m.size + 1), dflt)
    else
      LookupAtSearch(m.root, key);
      (m, x.val)
  }

  /** `Insert`: overwrite the value of an equivalent key, or create a node at the null link. */
  function Insert<V>(m: CMap<V>, key: int, value: V): (r: CMap<V>)
    requires Valid(m)
    ensures Valid(r)
    ensures Values(r, true) == Put(Values(m, true), key, value)
    ensures Size(r) == if HasKey(Values(m, true), key) then Size(m) else Size(m) + 1
  {
    var current := Search(m.root, key);
    SearchFinds(m.root, key);
    var x := At(m.root, current);
    ReplaceAtSearchIsInsert(m.root, key, value);
    InsertContents(m.root, key, value);
    PutLength(Inorder(m.root), key, value);
    if x == Nil then CMap(Replace(m.root, current, Node(key, value, Nil, Nil)), m.size + 1)
    else CMap(Replace(m.root, current, Node(x.key, value, x.left, x.right)), m.size)
  }

  /** `Insert` of a list of pairs: one insert per pair, in the order given. */
  function InsertAll<V>(m: CMap<V>, values: seq<Entry<V>>): (r: CMap<V>)
    requires Valid(m)
    ensures Valid(r)
    ensures Values(r, true) == PutAll(Values(m, true), values)
    decreases |values|
  {
    if values == [] then m
    else InsertAll(Insert(m, values[0].0, values[0].1), values[1..])
  }

  /** What is left where `current` stood: nothing for a leaf, its only child,
      or, with two children, `current` itself carrying the successor's key and
      value, with the successor node unlinked from under its parent (which is
      `current` when the successor is the direct right child). */
  function Unlink<V>(current: Tree<V>): (r: Tree<V>)
    requires current.Node?
    ensures Inorder(r) == Inorder(current.left) + Inorder(current.right)
  {
    EraseRootContents(current);
    if current.left == Nil && current.right == Nil then Nil
    else if current.left == Nil || current.right == Nil then
      if current.left != Nil then current.left else current.right
    else
      var (successor, rest) := RemoveMin(current.right);
      Node(successor.0, successor.1, current.left, rest)
  }

  /** `Erase`: parent-tracking descent; throws for an absent key. */
  function Erase<V>(m: CMap<V>, key: int): (r: Result<CMap<V>, MapError>)
    requires Valid(m)
    ensures r.Err? <==> !HasKey(Values(m, true), key)
    ensures r.Err? ==> r.error == KeyNotFound(key)
    ensures r.Ok? ==> Valid(r.value) && Values(r.value, true) == Remove(Values(m, true), key)
    ensures r.Ok? ==> Size(r.value) == Size(m) - 1
  {
    var path := Search(m.root, key);
    SearchFinds(m.root, key);
    var current := At(m.root, path);
    if current == Nil then Err(KeyNotFound(key))
    else
      assert Unlink(current) == EraseRoot(current);
      ReplaceAtSearchIsErase(m.root, key);
      EraseContents(m.root, key);
      RemoveLength(Inorder(m.root), key);
      Ok(CMap(Replace(m.root, path, Unlink(current)), m.size - 1))
  }

  /** `Clear`: drop every node and reset the counter. */
  function Clear<V>(m: CMap<V>): (r: CMap<V>)
    ensures Valid(r) && IsEmpty(r) && Size(r) == 0
  {
    CMap(Nil, 0)
  }

  /** `Swap`: the two maps exchange trees and counters. */
  function Swap<V>(a: CMap<V>, b: CMap<V>): (r: (CMap<V>, CMap<V>))
    requires Valid(a) && Valid(b)
    ensures Valid(r.0) && Valid(r.1)
    ensures Values(r.0, true) == Values(b, true) && Size(r.0) == Size(b)
    ensures Values(r.1, true) == Values(a, true) && Size(r.1) == Size(a)
  {
    (b, a)
  }
}
