/**
  The ordered map of tasks/tree/bst/map.hpp: an unbalanced binary search
  tree plus an element counter. Every operation goes through `Spot`, which
  returns the link (`Node**`) where a key is or belongs; two-child deletion
  splices the successor node into the erased node's place.

  The map is a value: a mutating member returns the new map, a thrown
  exception is an `Err` (and the caller keeps the map it had).
 */
module SpliceMap {
  import opened Common
  import opened Assoc
  import opened BinaryTree

  datatype SMap<V> = SMap(root: Tree<V>, cnt: nat)

  /** The class invariant: a search tree whose counter is its node count. */
  predicate Valid<V>(m: SMap<V>) {
    Bst(m.root) && m.cnt == |Inorder(m.root)|
  }

  function Empty<V>(): (r: SMap<V>)
    ensures Valid(r) && Values(r, true) == [] && IsEmpty(r)
  {
    SMap(Nil, 0)
  }

  function Size<V>(m: SMap<V>): nat {
    m.cnt
  }

  predicate IsEmpty<V>(m: SMap<V>) {
    m.cnt == 0
  }

  /** `Values(is_increase)`: the ascending snapshot, or its exact reverse. */
  function Values<V>(m: SMap<V>, isIncrease: bool): (r: seq<Entry<V>>)
    requires Valid(m)
    ensures |r| == Size(m)
    ensures isIncrease ==> Ascending(r)
    ensures !isIncrease ==> Descending(r)
  {
    RevInorderIsReverse(m.root);
    ReverseDescends(Inorder(m.root));
    if isIncrease then Inorder(m.root) else RevInorder(m.root)
  }

  /** The descending snapshot is the exact reverse of the ascending one. */
  lemma ValuesReversed<V>(m: SMap<V>)
    requires Valid(m)
    ensures Values(m, false) == Reverse(Values(m, true))
  {
    RevInorderIsReverse(m.root);
  }

  /** The link where `key` is stored, or the null link where it would go. */
  function Spot<V>(m: SMap<V>, key: int): (p: Path)
    requires Valid(m)
    ensures At(m.root, p) == Nil <==> !HasKey(Values(m, true), key)
    ensures At(m.root, p).Node? ==> At(m.root, p).key == key
  {
    SearchFinds(m.root, key);
    Search(m.root, key)
  }

  /** `Find`: descent to an equivalent key. */
  function Find<V>(m: SMap<V>, key: int): (found: bool)
    requires Valid(m)
    ensures found <==> HasKey(Values(m, true), key)
  {
    ContainsIff(m.root, key);
    Contains(m.root, key)
  }

  /** `Insert`: overwrite the value of a present key, or link a new node at the spot. */
  function Insert<V>(m: SMap<V>, key: int, value: V): (r: SMap<V>)
    requires Valid(m)
    ensures Valid(r)
    ensures Values(r, true) == Put(Values(m, true), key, value)
    ensures Size(r) == if HasKey(Values(m, true), key) then Size(m) else Size(m) + 1
  {
    var p := Spot(m, key);
    var x := At(m.root, p);
    ReplaceAtSearchIsInsert(m.root, key, value);
    InsertContents(m.root, key, value);
    PutLength(Inorder(m.root), key, value);
    if x == Nil then SMap(Replace(m.root, p, Node(key, value, Nil, Nil)), m.cnt + 1)
    else SMap(Replace(m.root, p, Node(x.key, value, x.left, x.right)), m.cnt)
  }

  /** `Insert` of a list of pairs: one insert per pair, in the order given. */
  function InsertAll<V>(m: SMap<V>, values: seq<Entry<V>>): (r: SMap<V>)
    requires Valid(m)
    ensures Valid(r)
    ensures Values(r, true) == PutAll(Values(m, true), values)
    decreases |values|
  {
    if values == [] then m
    else InsertAll(Insert(m, values[0].0, values[0].1), values[1..])
  }

  /** `operator[]`: a present key is left alone and its value returned; an
      absent key is inserted with `dflt` (the model of `Value{}`). */
  function Index<V>(m: SMap<V>, key: int, dflt: V): (r: (SMap<V>, V))
    requires Valid(m)
    ensures Valid(r.0)
    ensures HasKey(Values(m, true), key) ==>
      r.0 == m && Lookup(Values(m, true), key) == Some(r.1)
    ensures !HasKey(Values(m, true), key) ==>
      r.1 == dflt && Values(r.0, true) == Put(Values(m, true), key, dflt) && Size(r.0) == Size(m) + 1
  {
    var p := Spot(m, key);
    var x := At(m.root, p);
    if x == Nil then
      (Insert(m, key, dflt), dflt)
    else
      LookupAtSearch(m.root, key);
      (m, x.val)
  }

  /** The node that replaces an erased node `x`: its one child, or, with two
      children, the successor `s` (leftmost of the right subtree) taking over
      `x`'s left child and, unless it is `x`'s direct right child, `x`'s right
      subtree with `s` unlinked from it. */
  function Splice<V>(x: Tree<V>): (r: Tree<V>)
    requires x.Node?
    ensures r == EraseRoot(x)
  {
    if x.left == Nil then x.right
    else if x.right == Nil then x.left
    else
      var q := LeftSpine(x.right);
      LeftSpineIsMin(x.right);
      var s := At(x.right, q);
      if q == [] then Node(s.key, s.val, x.left, s.right)
      else Node(s.key, s.val, x.left, Replace(x.right, q, s.right))
  }

  /** `Erase`: throws for an absent key, otherwise unlinks its node. */
  function Erase<V>(m: SMap<V>, key: int): (r: Result<SMap<V>, MapError>)
    requires Valid(m)
    ensures r.Err? <==> !HasKey(Values(m, true), key)
    ensures r.Err? ==> r.error == KeyNotFound(key)
    ensures r.Ok? ==> Valid(r.value) && Values(r.value, true) == Remove(Values(m, true), key)
    ensures r.Ok? ==> Size(r.value) == Size(m) - 1
  {
    var p := Spot(m, key);
    var x := At(m.root, p);
    if x == Nil then Err(KeyNotFound(key))
    else
      ReplaceAtSearchIsErase(m.root, key);
      EraseContents(m.root, key);
      RemoveLength(Inorder(m.root), key);
      Ok(SMap(Replace(m.root, p, Splice(x)), m.cnt - 1))
  }

  /** `Clear`: drop every node and reset the counter. */
  function Clear<V>(m: SMap<V>): (r: SMap<V>)
    ensures Valid(r) && Values(r, true) == [] && Size(r) == 0
  {
    SMap(Nil, 0)
  }

  /** `Swap`: the two maps exchange trees and counters. */
  function Swap<V>(a: SMap<V>, b: SMap<V>): (r: (SMap<V>, SMap<V>))
    requires Valid(a) && Valid(b)
    ensures Valid(r.0) && Valid(r.1)
    ensures Values(r.0, true) == Values(b, true) && Size(r.0) == Size(b)
    ensures Values(r.1, true) == Values(a, true) && Size(r.1) == Size(a)
  {
    (b, a)
  }

  /** The move constructor: the new map takes the tree and counter, and the
      source is left empty with count 0. Result: (new map, source afterwards). */
  function MoveConstruct<V>(o: SMap<V>): (r: (SMap<V>, SMap<V>))
    requires Valid(o)
    ensures Valid(r.0) && Values(r.0, true) == Values(o, true) && Size(r.0) == Size(o)
    ensures Valid(r.1) && Values(r.1, true) == [] && Size(r.1) == 0
  {
    (SMap(o.root, o.cnt), SMap(Nil, 0))
  }

  /** Move assignment. `self` is the `this != &o` test: assigning a map to
      itself changes nothing; otherwise the target's own nodes are freed
      (memory is not modelled), it takes the source's tree and counter, and
      the source is left empty.
      Result: (target afterwards, source afterwards). */
  function MoveAssign<V>(target: SMap<V>, o: SMap<V>, self: bool): (r: (SMap<V>, SMap<V>))
    requires Valid(o) && (self ==> target == o)
    ensures self ==> r.0 == o && r.1 == o
    ensures !self ==> Valid(r.0) && Values(r.0, true) == Values(o, true) && Size(r.0) == Size(o)
    ensures !self ==> Valid(r.1) && Values(r.1, true) == [] && Size(r.1) == 0
  {
    if self then (target, o) else (SMap(o.root, o.cnt), SMap(Nil, 0))
  }
}
