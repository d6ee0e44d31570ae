/**
  The node structure of tasks/tree/iterators/map.hpp: an unbalanced binary
  search tree in which a node's right pointer `r_` is either an owned child
  or, when the tag `r_is_thr_` is set, a "thread" to the node's in-order
  successor. Nodes are identified by their keys (keys are unique in a search
  tree), so a thread is recorded as the successor's key.

  `Plain` forgets the threads and yields the plain tree of module
  BinaryTree; every operation here is proved to act on that projection
  exactly as the reference operations do.
 */
module ThreadedTree {
  import opened Common
  import opened Assoc
  import opened BinaryTree

  /** A right slot: the pointer `r_` together with its tag. */
  datatype Right<V> =
    | Empty                      // tag clear, null pointer
    | Child(sub: TTree<V>)       // tag clear, owned subtree
    | Thread(succ: int)          // tag set, pointer to the node holding key `succ`
    | Shadowed(sub: TTree<V>)    // tag set over an owned subtree

  datatype TTree<V> = TNil | TNode(key: int, val: V, left: TTree<V>, right: Right<V>)

  /** The forward iterator: a node (by key) or the null position `End`. */
  datatype Iterator = EndIt | NodeIt(key: int)

  /** The owned tree seen by the traversals `GoIn`/`GoDe`, which follow a
      right pointer only when its tag is clear. */
  function Plain<V>(t: TTree<V>): Tree<V> {
    match t
    case TNil => Nil
    case TNode(k, v, l, r) => Node(k, v, Plain(l), PlainRight(r))
  }

  function PlainRight<V>(r: Right<V>): Tree<V> {
    match r
    case Child(s) => Plain(s)
    case _ => Nil
  }

  /** The ascending snapshot of the owned tree. */
  function Entries<V>(t: TTree<V>): seq<Entry<V>> {
    Inorder(Plain(t))
  }

  /** The shapes the corrected operations produce: no tag over an owned node
      and no owned slot holding null. */
  predicate WellFormed<V>(t: TTree<V>) {
    match t
    case TNil => true
    case TNode(_, _, l, r) => WellFormed(l) && WellFormedRight(r)
  }

  predicate WellFormedRight<V>(r: Right<V>) {
    match r
    case Child(s) => s.TNode? && WellFormed(s)
    case Shadowed(_) => false
    case _ => true
  }

  /** Every tag-free null right slot of `t` except the last one holds a
      thread to the in-order successor; the last right slot holds `after`
      (the successor of the whole subtree, or null when there is none). */
  predicate ThreadedFrom<V>(t: TTree<V>, after: Option<int>) {
    match t
    case TNil => true
    case TNode(k, _, l, r) => ThreadedFrom(l, Some(k)) && RightThreadedFrom(r, after)
  }

  predicate RightThreadedFrom<V>(r: Right<V>, after: Option<int>) {
    match r
    case Child(s) => ThreadedFrom(s, after)
    case Empty => after == None
    case Thread(x) => after == Some(x)
    case Shadowed(_) => false
  }

  /** The state `threads_ok_` promises: threads complete and the maximum null. */
  predicate Threaded<V>(t: TTree<V>) {
    ThreadedFrom(t, None)
  }

  /** No right tag anywhere: the situation in which the source's descent
      loops cannot stop early. */
  predicate TagFree<V>(t: TTree<V>) {
    match t
    case TNil => true
    case TNode(_, _, l, r) => TagFree(l) && match r
      case Child(s) => TagFree(s)
      case Empty => true
      case _ => false
  }

  // ---------------------------------------------------------------------
  // Descent and iteration

  /** The descent of `Find`: go left, go right through an owned child, stop
      at a tag or a null link (returning `TNil`), or stop at the key. */
  function NodeOf<V>(t: TTree<V>, k: int): TTree<V> {
    match t
    case TNil => TNil
    case TNode(key, _, l, r) =>
      if k < key then NodeOf(l, k)
      else if key < k then (match r case Child(s) => NodeOf(s, k) case _ => TNil)
      else t
  }

  /** The key of the leftmost node, where `Begin` and the non-thread `++` stop. */
  function Leftmost<V>(t: TTree<V>): int
    requires t.TNode?
  {
    match t
    case TNode(k, _, l, _) => if l == TNil then k else Leftmost(l)
  }

  /** `MapIterator::operator++` from node `n`: follow a tagged pointer, or go
      to the leftmost node of the right subtree (null if there is none). */
  function StepFrom<V>(n: TTree<V>): Iterator
    requires n.TNode?
  {
    match n.right
    case Thread(x) => NodeIt(x)
    case Shadowed(s) => if s == TNil then EndIt else NodeIt(s.key)
    case Child(s) => if s == TNil then EndIt else NodeIt(Leftmost(s))
    case Empty => EndIt
  }

  /** The position of the `i`-th smallest entry, `End` past the last. */
  function PosOf<V>(t: TTree<V>, i: nat): Iterator {
    if i < |Entries(t)| then NodeIt(Entries(t)[i].0) else EndIt
  }

  function AfterPos(after: Option<int>): Iterator {
    if after.Some? then NodeIt(after.value) else EndIt
  }

  /** The descent through the owned tree is the plain tree's descent. */
  lemma {:induction false} PlainNodeOf<V>(t: TTree<V>, k: int)
    ensures Plain(NodeOf(t, k)) == At(Plain(t), Search(Plain(t), k))
  {
    match t
    case TNil =>
    case TNode(key, v, l, r) =>
      if k < key {
        PlainNodeOf(l, k);
        assert Search(Plain(t), k)[1..] == Search(Plain(l), k);
      } else if key < k {
        assert Search(Plain(t), k)[1..] == Search(PlainRight(r), k);
        match r
        case Child(s) => PlainNodeOf(s, k);
        case _ =>
      }
  }

  /** In a search tree the descent finds exactly the present keys, with their values. */
  lemma NodeOfFinds<V>(t: TTree<V>, k: int)
    requires Bst(Plain(t))
    ensures NodeOf(t, k).TNode? <==> HasKey(Entries(t), k)
    ensures NodeOf(t, k).TNode? ==> NodeOf(t, k).key == k
    ensures NodeOf(t, k).TNode? ==> Lookup(Entries(t), k) == Some(NodeOf(t, k).val)
  {
    PlainNodeOf(t, k);
    SearchFinds(Plain(t), k);
    if NodeOf(t, k).TNode? {
      LookupAtSearch(Plain(t), k);
    }
  }

  /** The leftmost node holds the smallest entry. */
  lemma {:induction false} LeftmostFirst<V>(t: TTree<V>)
    requires t.TNode?
    ensures |Entries(t)| > 0 && Entries(t)[0].0 == Leftmost(t)
  {
    match t
    case TNode(k, v, l, r) =>
      assert Entries(t) == Entries(l) + [(k, v)] + Inorder(PlainRight(r));
      if l != TNil {
        LeftmostFirst(l);
      }
  }

  /** Inside a subtree threaded to `after`, the node of the `i`-th entry is
      found by the descent, and `++` from it reaches the `i+1`-th entry, or
      `after` from the last one. */
  lemma {:induction false} StepInside<V>(t: TTree<V>, after: Option<int>, i: int)
    requires WellFormed(t) && ThreadedFrom(t, after) && Bst(Plain(t))
    requires 0 <= i < |Entries(t)|
    ensures NodeOf(t, Entries(t)[i].0).TNode?
    ensures (NodeOf(t, Entries(t)[i].0).key, NodeOf(t, Entries(t)[i].0).val) == Entries(t)[i]
    ensures StepFrom(NodeOf(t, Entries(t)[i].0)) ==
      if i + 1 < |Entries(t)| then NodeIt(Entries(t)[i + 1].0) else AfterPos(after)
  {
    match t
    case TNode(k, v, l, r) =>
      BstNode(Plain(t));
      var L, R := Entries(l), Inorder(PlainRight(r));
      assert Entries(t) == L + [(k, v)] + R;
      if i < |L| {
        assert Entries(t)[i] == L[i];
        assert L[i].0 < k;
        StepInside(l, Some(k), i);
        if i + 1 < |L| {
          assert Entries(t)[i + 1] == L[i + 1];
        } else {
          assert Entries(t)[i + 1] == (k, v);
        }
      } else if i == |L| {
        assert Entries(t)[i] == (k, v);
        match r
        case Child(s) =>
          LeftmostFirst(s);
          assert Entries(t)[i + 1] == R[0];
        case Empty =>
        case Thread(x) =>
      } else {
        var s := r.sub;
        var j := i - |L| - 1;
        assert Entries(t)[i] == R[j];
        assert R[j].0 > k;
        StepInside(s, after, j);
        if j + 1 < |R| {
          assert Entries(t)[i + 1] == R[j + 1];
        }
      }
  }

  /** Threads describe the in-order order: in a threaded tree, the right slot
      of the `i`-th node is an owned child, a thread to the `i+1`-th key, or,
      for the maximum, null. */
  lemma ThreadTargets<V>(t: TTree<V>, i: int)
    requires WellFormed(t) && Threaded(t) && Bst(Plain(t))
    requires 0 <= i < |Entries(t)|
    ensures var n := NodeOf(t, Entries(t)[i].0);
      n.TNode? && (n.right.Child? ||
        n.right == if i + 1 < |Entries(t)| then Thread(Entries(t)[i + 1].0) else Empty)
  {
    StepInside(t, None, i);
    NodeOfWellFormed(t, Entries(t)[i].0);
  }

  lemma {:induction false} NodeOfWellFormed<V>(t: TTree<V>, k: int)
    requires WellFormed(t)
    ensures WellFormed(NodeOf(t, k))
  {
    match t
    case TNil =>
    case TNode(key, _, l, r) =>
      if k < key {
        NodeOfWellFormed(l, k);
      } else if key < k {
        match r
        case Child(s) => NodeOfWellFormed(s, k);
        case _ =>
      }
  }

  // ---------------------------------------------------------------------
  // Rebuilding the threads (`ResetThreadFlags` and `BuildThreads`, corrected)

  /** Clear every thread: a tagged slot becomes null, so no tag is left and
      the owned tree is untouched. (Clearing the tag while keeping the
      pointer, as the source does, is modelled in ThreadedAsWritten.) */
  function Reset<V>(t: TTree<V>): (r: TTree<V>)
    ensures TagFree(r) && Plain(r) == Plain(t)
    ensures WellFormed(t) ==> WellFormed(r)
  {
    match t
    case TNil => TNil
    case TNode(k, v, l, r) => TNode(k, v, Reset(l), ResetRight(r))
  }

  function ResetRight<V>(r: Right<V>): (r': Right<V>)
    ensures r' == Empty || (r'.Child? && TagFree(r'.sub))
    ensures PlainRight(r') == PlainRight(r)
    ensures WellFormedRight(r) ==> WellFormedRight(r')
  {
    match r
    case Child(s) => Child(Reset(s))
    case _ => Empty
  }

  /** The threading pass: during the in-order walk each null right slot gets
      a thread to the node visited next; the last node's successor is
      `after`. On a tree without tags the result is threaded relative to
      `after`; child links are never touched. */
  function Link<V>(t: TTree<V>, after: Option<int>): (r: TTree<V>)
    ensures Plain(r) == Plain(t)
    ensures TagFree(t) ==> ThreadedFrom(r, after)
    ensures WellFormed(t) ==> WellFormed(r)
  {
    match t
    case TNil => TNil
    case TNode(k, v, l, r) => TNode(k, v, Link(l, Some(k)), LinkRight(r, after))
  }

  /** A null slot becomes a thread to `after` (stays null when there is no
      successor); an owned child is threaded recursively. */
  function LinkRight<V>(r: Right<V>, after: Option<int>): (r': Right<V>)
    ensures PlainRight(r') == PlainRight(r)
    ensures (r == Empty || (r.Child? && TagFree(r.sub))) ==> RightThreadedFrom(r', after)
    ensures WellFormedRight(r) ==> WellFormedRight(r')
  {
    match r
    case Child(s) => Child(Link(s, after))
    case Empty => if after.Some? then Thread(after.value) else Empty
    case _ => r
  }

  /** `BuildThreads`: reset, then thread the whole tree (no successor after
      the maximum). The owned tree is unchanged and the threads complete. */
  function BuildThreads<V>(t: TTree<V>): (r: TTree<V>)
    ensures Threaded(r) && Plain(r) == Plain(t)
    ensures WellFormed(t) ==> WellFormed(r)
  {
    Link(Reset(t), None)
  }

  /** Rebuilding threads that are already complete changes nothing. */
  lemma {:induction false} LinkResetKeeps<V>(t: TTree<V>, after: Option<int>)
    requires WellFormed(t) && ThreadedFrom(t, after)
    ensures Link(Reset(t), after) == t
  {
    match t
    case TNil =>
    case TNode(k, v, l, r) =>
      LinkResetKeeps(l, Some(k));
      match r
      case Child(s) => LinkResetKeeps(s, after);
      case _ =>
  }

  /** `BuildThreads` on a tree whose threads are already complete is a no-op. */
  lemma BuildThreadsKeeps<V>(t: TTree<V>)
    requires WellFormed(t) && Threaded(t)
    ensures BuildThreads(t) == t
  {
    LinkResetKeeps(t, None);
  }

  // ---------------------------------------------------------------------
  // Insertion (corrected: a threaded slot counts as null and the tag is cleared)

  /** The descent of `Insert`/`operator[]`, writing at the link where it stops. */
  function InsertAt<V>(t: TTree<V>, k: int, v: V): TTree<V> {
    match t
    case TNil => TNode(k, v, TNil, Empty)
    case TNode(key, val, l, r) =>
      if k < key then TNode(key, val, InsertAt(l, k, v), r)
      else if key < k then
        (match r
         case Child(s) => TNode(key, val, l, Child(InsertAt(s, k, v)))
         case _ => TNode(key, val, l, Child(TNode(k, v, TNil, Empty))))
      else TNode(key, v, l, r)
  }

  /** Insertion acts on the owned tree as the reference insertion. */
  lemma {:induction false} InsertAtPlain<V>(t: TTree<V>, k: int, v: V)
    requires WellFormed(t)
    ensures Plain(InsertAt(t, k, v)) == Insert(Plain(t), k, v)
    ensures WellFormed(InsertAt(t, k, v))
  {
    match t
    case TNil =>
    case TNode(key, val, l, r) =>
      if k < key {
        InsertAtPlain(l, k, v);
      } else if key < k {
        match r
        case Child(s) => InsertAtPlain(s, k, v);
        case Empty =>
          assert InsertAt(t, k, v) == TNode(key, val, l, Child(TNode(k, v, TNil, Empty)));
          assert Plain(TNode(k, v, TNil, Empty)) == Node(k, v, Nil, Nil);
          assert WellFormed(TNode(k, v, TNil, Empty));
        case Thread(_) =>
          assert InsertAt(t, k, v) == TNode(key, val, l, Child(TNode(k, v, TNil, Empty)));
          assert Plain(TNode(k, v, TNil, Empty)) == Node(k, v, Nil, Nil);
          assert WellFormed(TNode(k, v, TNil, Empty));
        case Shadowed(_) =>
      }
  }

  /** Same keys in the same places and the same right slots; values may differ. */
  predicate SameShape<V>(a: TTree<V>, b: TTree<V>) {
    match a
    case TNil => b == TNil
    case TNode(k, _, l, r) =>
      b.TNode? && b.key == k && SameShape(l, b.left) && SameRightShape(r, b.right)
  }

  predicate SameRightShape<V>(a: Right<V>, b: Right<V>) {
    match a
    case Child(s) => b.Child? && SameShape(s, b.sub)
    case Shadowed(s) => b.Shadowed? && SameShape(s, b.sub)
    case Empty => b == Empty
    case Thread(x) => b == Thread(x)
  }

  /** Overwriting a key the descent finds keeps the shape, and so the threads. */
  lemma {:induction false} InsertAtOverwrite<V>(t: TTree<V>, k: int, v: V, after: Option<int>)
    requires NodeOf(t, k).TNode?
    ensures SameShape(InsertAt(t, k, v), t)
    ensures ThreadedFrom(t, after) ==> ThreadedFrom(InsertAt(t, k, v), after)
  {
    match t
    case TNode(key, val, l, r) =>
      SameShapeRefl(l);
      SameRightShapeRefl(r);
      if k < key {
        InsertAtOverwrite(l, k, v, Some(key));
      } else if key < k {
        match r
        case Child(s) =>
          InsertAtOverwrite(s, k, v, after);
          assert InsertAt(t, k, v) == TNode(key, val, l, Child(InsertAt(s, k, v)));
          assert RightThreadedFrom(r, after) ==> ThreadedFrom(s, after);
      }
  }

  lemma {:induction false} SameShapeRefl<V>(t: TTree<V>)
    ensures SameShape(t, t)
  {
    match t
    case TNil =>
    case TNode(_, _, l, r) =>
      SameShapeRefl(l);
      SameRightShapeRefl(r);
  }

  lemma {:induction false} SameRightShapeRefl<V>(r: Right<V>)
    ensures SameRightShape(r, r)
  {
    match r
    case Child(s) => SameShapeRefl(s);
    case Shadowed(s) => SameShapeRefl(s);
    case _ =>
  }

  // ---------------------------------------------------------------------
  // Erasure

  /** The tree an unlinked successor leaves behind: its owned right child,
      or null when its right slot is null or a thread. */
  function Owned<V>(r: Right<V>): TTree<V> {
    match r
    case Child(s) => s
    case _ => TNil
  }

  /** Writing a tree into a right link clears the tag. */
  function Slot<V>(t: TTree<V>): Right<V> {
    if t == TNil then Empty else Child(t)
  }

  /** The leftmost node's entry, and the tree with that node unlinked (its
      owned right child written into its link). */
  function CutMin<V>(t: TTree<V>): (r: (Entry<V>, TTree<V>))
    requires t.TNode?
    ensures WellFormed(t) ==>
      r.0 == RemoveMin(Plain(t)).0 && Plain(r.1) == RemoveMin(Plain(t)).1 && WellFormed(r.1)
  {
    assert WellFormed(t) ==> WellFormed(t.left) && WellFormedRight(t.right);
    if t.left == TNil then ((t.key, t.val), Owned(t.right))
    else
      var c := CutMin(t.left);
      (c.0, TNode(t.key, t.val, c.1, t.right))
  }

  /** What replaces an erased node `n` in its link: the four cases of `Erase`
      (no left and no owned right; owned right only; left only; both, where
      the successor is unlinked and takes over `n`'s children, which also
      covers a successor that is `n`'s direct right child). */
  function Unlink<V>(n: TTree<V>): (r: TTree<V>)
    requires n.TNode?
    ensures WellFormed(n) ==> Plain(r) == EraseRoot(Plain(n)) && WellFormed(r)
  {
    assert WellFormed(n) ==> WellFormed(n.left) && WellFormedRight(n.right);
    if n.left == TNil && !n.right.Child? then TNil
    else if n.left == TNil then n.right.sub
    else if !n.right.Child? then n.left
    else if n.right.sub == TNil then n.left
    else
      var (s, rest) := CutMin(n.right.sub);
      TNode(s.0, s.1, n.left, Slot(rest))
  }

  /** Corrected `Erase` descent: a tagged or null right slot means the key is
      absent (`None`, the thrown exception). */
  function EraseAt<V>(t: TTree<V>, k: int): Option<TTree<V>> {
    match t
    case TNil => None
    case TNode(key, val, l, r) =>
      if k < key then
        (match EraseAt(l, k)
         case None => None
         case Some(l') => Some(TNode(key, val, l', r)))
      else if key < k then
        (match r
         case Child(s) =>
           (match EraseAt(s, k)
            case None => None
            case Some(s') => Some(TNode(key, val, l, Slot(s'))))
         case _ => None)
      else Some(Unlink(t))
  }

  /** Corrected erasure finds exactly the keys the plain descent finds and
      acts on the owned tree as the reference deletion. */
  lemma {:induction false} EraseAtPlain<V>(t: TTree<V>, k: int)
    requires WellFormed(t)
    ensures EraseAt(t, k).Some? <==> Contains(Plain(t), k)
    ensures EraseAt(t, k).Some? ==>
      Plain(EraseAt(t, k).value) == Erase(Plain(t), k) && WellFormed(EraseAt(t, k).value)
  {
    match t
    case TNil =>
    case TNode(key, val, l, r) =>
      if k < key {
        EraseAtPlain(l, k);
      } else if key < k {
        match r
        case Child(s) => EraseAtPlain(s, k);
        case _ =>
      }
  }
}
