/**
  The map of tasks/tree/iterators/map.hpp over the threaded tree, with the
  three defects of the source corrected (see ThreadedAsWritten for the code
  as written): an insertion through a threaded slot clears the tag, a thread
  met by `Erase`'s descent means the key is absent, and resetting the threads
  nulls the threaded pointers.

  `threadsOk` is the lazily maintained flag `threads_ok_`: mutations clear
  it, and `Begin`, `End` and `Find` (const members that still rebuild the
  threads) return the map with the threads rebuilt.
 */
module ThreadedMap {
  import opened Common
  import opened Assoc
  import opened BinaryTree
  import opened ThreadedTree

  datatype TMap<V> = TMap(root: TTree<V>, sz: nat, threadsOk: bool)

  /** The class invariant: a well-formed search tree, the counter equal to the
      number of owned nodes, and complete threads whenever the flag says so. */
  predicate Valid<V>(m: TMap<V>) {
    WellFormed(m.root) && Bst(Plain(m.root)) && m.sz == |Entries(m.root)|
    && (m.threadsOk ==> Threaded(m.root))
  }

  /** The default constructor: no nodes, and (trivially) valid threads. */
  function Init<V>(): (r: TMap<V>)
    ensures Valid(r) && Values(r, true) == [] && r.threadsOk
  {
    TMap(TNil, 0, true)
  }

  function Size<V>(m: TMap<V>): nat {
    m.sz
  }

  predicate IsEmpty<V>(m: TMap<V>) {
    m.sz == 0
  }

  /** `Values(inc)`: `GoIn` or `GoDe`, which follow untagged right links only. */
  function Values<V>(m: TMap<V>, inc: bool): (r: seq<Entry<V>>)
    requires Valid(m)
    ensures |r| == Size(m)
    ensures inc ==> Ascending(r)
    ensures !inc ==> Descending(r)
  {
    RevInorderIsReverse(Plain(m.root));
    ReverseDescends(Entries(m.root));
    if inc then Entries(m.root) else RevInorder(Plain(m.root))
  }

  /** The descending snapshot is the exact reverse of the ascending one. */
  lemma ValuesReversed<V>(m: TMap<V>)
    requires Valid(m)
    ensures Values(m, false) == Reverse(Values(m, true))
  {
    RevInorderIsReverse(Plain(m.root));
  }

  /** `Insert`: overwrite in place (same shape, flag kept), or link a new
      node at the null or threaded slot where the descent stops. */
  function Insert<V>(m: TMap<V>, key: int, value: V): (r: TMap<V>)
    requires Valid(m)
    ensures Valid(r)
    ensures Values(r, true) == Put(Values(m, true), key, value)
    ensures HasKey(Values(m, true), key) ==>
      Size(r) == Size(m) && r.threadsOk == m.threadsOk && SameShape(r.root, m.root)
    ensures !HasKey(Values(m, true), key) ==> Size(r) == Size(m) + 1 && !r.threadsOk
  {
    NodeOfFinds(m.root, key);
    InsertAtPlain(m.root, key, value);
    InsertContents(Plain(m.root), key, value);
    PutLength(Entries(m.root), key, value);
    var found := NodeOf(m.root, key).TNode?;
    if found then
      InsertAtOverwrite(m.root, key, value, None);
      TMap(InsertAt(m.root, key, value), m.sz, m.threadsOk)
    else
      TMap(InsertAt(m.root, key, value), m.sz + 1, false)
  }

  /** `Insert` of an initializer list: one insert per pair, in order. */
  function InsertAll<V>(m: TMap<V>, values: seq<Entry<V>>): (r: TMap<V>)
    requires Valid(m)
    ensures Valid(r)
    ensures Values(r, true) == PutAll(Values(m, true), values)
    decreases |values|
  {
    if values == [] then m
    else InsertAll(Insert(m, values[0].0, values[0].1), values[1..])
  }

  /** `operator[]`: the value of a present key (map unchanged), or a new node
      holding `dflt` (the model of `Value{}`), which is returned. */
  function Index<V>(m: TMap<V>, key: int, dflt: V): (r: (TMap<V>, V))
    requires Valid(m)
    ensures Valid(r.0)
    ensures HasKey(Values(m, true), key) ==>
      r.0 == m && Lookup(Values(m, true), key) == Some(r.1)
    ensures !HasKey(Values(m, true), key) ==>
      r.1 == dflt && Values(r.0, true) == Put(Values(m, true), key, dflt)
      && Size(r.0) == Size(m) + 1 && !r.0.threadsOk
  {
    NodeOfFinds(m.root, key);
    var n := NodeOf(m.root, key);
    if n.TNode? then (m, n.val) else (Insert(m, key, dflt), dflt)
  }

  /** `Erase`: throws for an absent key; otherwise unlinks it (the four
      cases of `Unlink`) and clears the flag. */
  function Erase<V>(m: TMap<V>, key: int): (r: Result<TMap<V>, MapError>)
    requires Valid(m)
    ensures r.Err? <==> !HasKey(Values(m, true), key)
    ensures r.Err? ==> r.error == KeyNotFound(key)
    ensures r.Ok? ==> Valid(r.value) && Values(r.value, true) == Remove(Values(m, true), key)
    ensures r.Ok? ==> Size(r.value) == Size(m) - 1 && !r.value.threadsOk
  {
    EraseAtPlain(m.root, key);
    ContainsIff(Plain(m.root), key);
    EraseContents(Plain(m.root), key);
    RemoveLength(Entries(m.root), key);
    match EraseAt(m.root, key)
    case None => Err(KeyNotFound(key))
    case Some(t) => Ok(TMap(t, m.sz - 1, false))
  }

  /** `Clear`: no nodes, counter 0, threads trivially valid. */
  function Clear<V>(m: TMap<V>): (r: TMap<V>)
    ensures Valid(r) && r.root == TNil && Size(r) == 0 && r.threadsOk
  {
    TMap(TNil, 0, true)
  }

  /** `Swap`: exchange trees and counters; both flags are cleared. */
  function Swap<V>(a: TMap<V>, b: TMap<V>): (r: (TMap<V>, TMap<V>))
    requires Valid(a) && Valid(b)
    ensures Valid(r.0) && Valid(r.1)
    ensures Values(r.0, true) == Values(b, true) && Size(r.0) == Size(b)
    ensures Values(r.1, true) == Values(a, true) && Size(r.1) == Size(a)
    ensures !r.0.threadsOk && !r.1.threadsOk
  {
    (TMap(b.root, b.sz, false), TMap(a.root, a.sz, false))
  }

  /** `EnsureThreaded`: rebuild the threads when the flag is clear. No child
      link changes; afterwards the threads are complete; a map whose flag is
      set is left as it is. */
  function EnsureThreaded<V>(m: TMap<V>): (r: TMap<V>)
    requires Valid(m)
    ensures Valid(r) && r.threadsOk && Threaded(r.root)
    ensures Plain(r.root) == Plain(m.root) && Size(r) == Size(m)
    ensures m.threadsOk ==> r == m
  {
    if m.threadsOk then m else TMap(BuildThreads(m.root), m.sz, true)
  }

  /** Iterator validity: `End`, or a key held by the map. */
  predicate Live<V>(m: TMap<V>, it: Iterator)
    requires Valid(m)
  {
    it.NodeIt? ==> HasKey(Values(m, true), it.key)
  }

  /** `Begin`: rebuild if needed, then the leftmost node (`End` if empty). */
  function Begin<V>(m: TMap<V>): (r: (TMap<V>, Iterator))
    requires Valid(m)
    ensures r.0 == EnsureThreaded(m)
    ensures Size(m) == 0 ==> r.1 == EndIt
    ensures Size(m) > 0 ==> r.1 == NodeIt(Values(m, true)[0].0)
  {
    var m' := EnsureThreaded(m);
    if m'.root == TNil then (m', EndIt)
    else
      LeftmostFirst(m'.root);
      (m', NodeIt(Leftmost(m'.root)))
  }

  /** `End`: rebuild if needed, then the null position. */
  function End<V>(m: TMap<V>): (r: (TMap<V>, Iterator))
    requires Valid(m)
    ensures r.0 == EnsureThreaded(m) && r.1 == EndIt
  {
    (EnsureThreaded(m), EndIt)
  }

  /** `Find`: rebuild if needed, then descend; a tagged or null slot means `End`. */
  function Find<V>(m: TMap<V>, key: int): (r: (TMap<V>, Iterator))
    requires Valid(m)
    ensures r.0 == EnsureThreaded(m)
    ensures HasKey(Values(m, true), key) ==> r.1 == NodeIt(key)
    ensures !HasKey(Values(m, true), key) ==> r.1 == EndIt
  {
    var m' := EnsureThreaded(m);
    NodeOfFinds(m'.root, key);
    var n := NodeOf(m'.root, key);
    (m', if n.TNode? then NodeIt(n.key) else EndIt)
  }

  /** `*it`: the entry of the node the iterator is on. */
  function Deref<V>(m: TMap<V>, it: Iterator): (r: Entry<V>)
    requires Valid(m) && it.NodeIt? && Live(m, it)
    ensures r.0 == it.key && Lookup(Values(m, true), it.key) == Some(r.1)
  {
    NodeOfFinds(m.root, it.key);
    var n := NodeOf(m.root, it.key);
    (n.key, n.val)
  }

  /** `++it` on a map with complete threads: the next larger key, or `End`
      from the largest; `End` stays `End`. */
  function Next<V>(m: TMap<V>, it: Iterator): (r: Iterator)
    requires Valid(m) && m.threadsOk && Live(m, it)
    ensures Live(m, r)
    ensures it == EndIt ==> r == EndIt
    ensures it.NodeIt? && r.NodeIt? ==>
      it.key < r.key &&
      forall j :: 0 <= j < |Values(m, true)| && it.key < Values(m, true)[j].0 ==>
        r.key <= Values(m, true)[j].0
    ensures it.NodeIt? && r == EndIt ==>
      forall j :: 0 <= j < |Values(m, true)| ==> Values(m, true)[j].0 <= it.key
  {
    match it
    case EndIt => EndIt
    case NodeIt(k) =>
      NodeOfFinds(m.root, k);
      NextFacts(m, k);
      StepFrom(NodeOf(m.root, k))
  }

  lemma NextFacts<V>(m: TMap<V>, k: int)
    requires Valid(m) && m.threadsOk && HasKey(Values(m, true), k)
    ensures NodeOf(m.root, k).TNode?
    ensures var r := StepFrom(NodeOf(m.root, k)); var E := Values(m, true);
      (r.NodeIt? ==>
         HasKey(E, r.key) && k < r.key &&
         forall j :: 0 <= j < |E| && k < E[j].0 ==> r.key <= E[j].0)
      && (r == EndIt ==> forall j :: 0 <= j < |E| ==> E[j].0 <= k)
  {
    var E := Values(m, true);
    var i :| 0 <= i < |E| && E[i].0 == k;
    StepInside(m.root, None, i);
    forall j | 0 <= j < |E|
      ensures j <= i ==> E[j].0 <= k
      ensures i < j ==> E[i + 1].0 <= E[j].0
    {
    }
  }

  /** `++` from the `i`-th entry's node reaches the `i+1`-th entry (or `End`). */
  lemma NextIsSuccessor<V>(m: TMap<V>, i: int)
    requires Valid(m) && m.threadsOk && 0 <= i < Size(m)
    ensures Live(m, PosOf(m.root, i))
    ensures Next(m, PosOf(m.root, i)) == PosOf(m.root, i + 1)
  {
    StepInside(m.root, None, i);
  }

  /** `n` applications of `++`. */
  function Advance<V>(m: TMap<V>, it: Iterator, n: nat): (r: Iterator)
    requires Valid(m) && m.threadsOk && Live(m, it)
    ensures Live(m, r)
  {
    if n == 0 then it else Next(m, Advance(m, it, n - 1))
  }

  /** Stepping from `Begin` visits the entries in ascending order and reaches
      `End` after exactly `Size()` steps. */
  lemma {:induction false} IterationVisitsInOrder<V>(m: TMap<V>, i: nat)
    requires Valid(m) && i <= Size(m)
    ensures var (m', b) := Begin(m);
      Advance(m', b, i) == PosOf(m'.root, i)
      && (i < Size(m) ==> Deref(m', Advance(m', b, i)) == Values(m, true)[i])
      && (i == Size(m) ==> Advance(m', b, i) == EndIt)
  {
    var (m', b) := Begin(m);
    AdvanceFromBegin(m', b, i);
    if i < Size(m) {
      StepInside(m'.root, None, i);
    }
  }

  /** From the first position, `i` steps land on the `i`-th position. */
  lemma {:induction false} AdvanceFromBegin<V>(m: TMap<V>, b: Iterator, i: nat)
    requires Valid(m) && m.threadsOk && i <= Size(m)
    requires b == PosOf(m.root, 0) && Live(m, b)
    ensures Advance(m, b, i) == PosOf(m.root, i)
  {
    if i > 0 {
      AdvanceFromBegin(m, b, i - 1);
      NextIsSuccessor(m, i - 1);
    }
  }

  /** The loop `for (it = Begin(); it != End(); ++it) out.push_back(*it)`. */
  method CollectByIteration<V>(m: TMap<V>) returns (m': TMap<V>, out: seq<Entry<V>>)
    requires Valid(m)
    ensures m' == EnsureThreaded(m)
    ensures out == Values(m, true)
  {
    var start := Begin(m);
    m' := start.0;
    var it := start.1;
    out := [];
    var i := 0;
    while it != EndIt
      invariant 0 <= i <= Size(m)
      invariant it == PosOf(m'.root, i) && Live(m', it)
      invariant out == Values(m, true)[..i]
      decreases Size(m) - i
    {
      StepInside(m'.root, None, i);
      out := out + [Deref(m', it)];
      NextIsSuccessor(m', i);
      it := Next(m', it);
      i := i + 1;
    }
  }
}
