/**
  The three places where tasks/tree/iterators/map.hpp, as written, departs
  from the behaviour ThreadedMap proves: the descent of `Insert` and
  `operator[]` writes through a threaded slot without clearing the tag;
  `ResetThreadFlags` clears tags but keeps the stale pointers and walks
  them; and `Erase`'s descent stops at a thread with `n` on a node whose key
  differs. Each as-written operation coincides with the corrected one on a
  tree without tags, and a concrete run shows where they part.
 */
module ThreadedAsWritten {
  import opened Common
  import opened Assoc
  import opened BinaryTree
  import opened ThreadedTree
  import ThreadedMap

  // ---------------------------------------------------------------------
  // Insert and operator[] as written

  /** The descent of `Insert`/`operator[]`: a tagged slot ends the descent
      like a null link, and the new node is stored into `r_` with the tag
      still set, so it becomes a tagged owned subtree. */
  function InsertDescent<V>(t: TTree<V>, k: int, v: V): (r: TTree<V>)
    ensures TagFree(t) ==> r == InsertAt(t, k, v)
  {
    match t
    case TNil => TNode(k, v, TNil, Empty)
    case TNode(key, val, l, r) =>
      if k < key then TNode(key, val, InsertDescent(l, k, v), r)
      else if key < k then
        (match r
         case Child(s) => TNode(key, val, l, Child(InsertDescent(s, k, v)))
         case Empty => TNode(key, val, l, Child(TNode(k, v, TNil, Empty)))
         case _ => TNode(key, val, l, Shadowed(TNode(k, v, TNil, Empty))))
      else TNode(key, v, l, r)
  }

  /** `Insert` as written; it agrees with the corrected insertion on a tree without tags. */
  function Insert<V>(m: ThreadedMap.TMap<V>, key: int, value: V): (r: ThreadedMap.TMap<V>)
    ensures TagFree(m.root) && ThreadedMap.Valid(m) ==> r == ThreadedMap.Insert(m, key, value)
  {
    var found := NodeOf(m.root, key).TNode?;
    ThreadedMap.TMap(InsertDescent(m.root, key, value),
      if found then m.sz else m.sz + 1, m.threadsOk && found)
  }

  /** `operator[]` as written (same descent as `Insert`). */
  function Index<V>(m: ThreadedMap.TMap<V>, key: int, dflt: V): (r: (ThreadedMap.TMap<V>, V))
    ensures TagFree(m.root) && ThreadedMap.Valid(m) ==> r == ThreadedMap.Index(m, key, dflt)
  {
    var n := NodeOf(m.root, key);
    if n.TNode? then (m, n.val) else (Insert(m, key, dflt), dflt)
  }

  // ---------------------------------------------------------------------
  // Erase as written

  /** The descent of `Erase`: meeting a tag while going right breaks out of
      the loop with `n` on the current node, which is then unlinked. */
  function EraseDescent<V>(t: TTree<V>, k: int): (r: Option<TTree<V>>)
    ensures TagFree(t) ==> r == EraseAt(t, k)
  {
    match t
    case TNil => None
    case TNode(key, val, l, r) =>
      if k < key then
        (match EraseDescent(l, k)
         case None => None
         case Some(l') => Some(TNode(key, val, l', r)))
      else if key < k then
        (match r
         case Child(s) =>
           (match EraseDescent(s, k)
            case None => None
            case Some(s') => Some(TNode(key, val, l, Slot(s'))))
         case Empty => None
         case _ => Some(Unlink(t)))
      else Some(Unlink(t))
  }

  /** `Erase` as written; it agrees with the corrected erasure on a tree without tags. */
  function Erase<V>(m: ThreadedMap.TMap<V>, key: int): (r: Result<ThreadedMap.TMap<V>, MapError>)
    ensures TagFree(m.root) && ThreadedMap.Valid(m) ==> r == ThreadedMap.Erase(m, key)
  {
    match EraseDescent(m.root, key)
    case None => Err(KeyNotFound(key))
    case Some(t) => Ok(ThreadedMap.TMap(t, if m.sz > 0 then m.sz - 1 else 0, false))
  }

  // ---------------------------------------------------------------------
  // ResetThreadFlags as written: a stack walk over the raw pointers

  /** The pointers of every node: its left child and whatever `r_` points at. */
  type Pointers = map<int, (Option<int>, Option<int>)>

  function KeyOf<V>(t: TTree<V>): Option<int> {
    if t.TNode? then Some(t.key) else None
  }

  function Target<V>(r: Right<V>): Option<int> {
    match r
    case Empty => None
    case Child(s) => KeyOf(s)
    case Thread(x) => Some(x)
    case Shadowed(s) => KeyOf(s)
  }

  function Graph<V>(t: TTree<V>): Pointers {
    match t
    case TNil => map[]
    case TNode(k, _, l, r) => Graph(l) + RightGraph(r) + map[k := (KeyOf(l), Target(r))]
  }

  function RightGraph<V>(r: Right<V>): Pointers {
    match r
    case Child(s) => Graph(s)
    case Shadowed(s) => Graph(s)
    case _ => map[]
  }

  function LeftOf(g: Pointers, x: int): Option<int> {
    if x in g then g[x].0 else None
  }

  function RightOf(g: Pointers, x: int): Option<int> {
    if x in g then g[x].1 else None
  }

  /** The loop of `ResetThreadFlags`, one step per unit of `fuel`: push and
      go left while `cur` is non-null, otherwise pop a node, clear its tag and
      go to wherever `r_` points; the tag never steers the walk. The result is
      the order in which tags were cleared, or `None` when `fuel` ran out.
      A walk that finishes has cleared at least one tag for every node on
      its stack and for the node it starts at. */
  function ResetWalk(g: Pointers, cur: Option<int>, st: seq<int>, fuel: nat): (r: Option<seq<int>>)
    ensures r.Some? ==> |r.value| >= |st| + (if cur.Some? then 1 else 0)
    decreases fuel
  {
    if fuel == 0 then None
    else if cur.Some? then ResetWalk(g, LeftOf(g, cur.value), st + [cur.value], fuel - 1)
    else if st == [] then Some([])
    else
      var x := st[|st| - 1];
      Prefixed([x], ResetWalk(g, RightOf(g, x), st[..|st| - 1], fuel - 1))
  }

  /** A larger step budget never changes the result of a walk that finished,
      so the budget decides only whether the walk is seen to finish. */
  lemma {:induction false} ResetWalkMonotone(g: Pointers, cur: Option<int>, st: seq<int>, fuel: nat, more: nat)
    requires ResetWalk(g, cur, st, fuel).Some?
    ensures ResetWalk(g, cur, st, fuel + more) == ResetWalk(g, cur, st, fuel)
    decreases fuel
  {
    if cur.Some? {
      ResetWalkMonotone(g, LeftOf(g, cur.value), st + [cur.value], fuel - 1, more);
    } else if st != [] {
      var x := st[|st| - 1];
      ResetWalkMonotone(g, RightOf(g, x), st[..|st| - 1], fuel - 1, more);
    }
  }

  function Prefixed(xs: seq<int>, o: Option<seq<int>>): Option<seq<int>> {
    match o
    case None => None
    case Some(ys) => Some(xs + ys)
  }

  /** Every node of `t` has its own pointers in `g`. */
  predicate Holds<V>(g: Pointers, t: TTree<V>) {
    match t
    case TNil => true
    case TNode(k, _, l, r) =>
      k in g && g[k] == (KeyOf(l), Target(r)) && Holds(g, l) && RightHolds(g, r)
  }

  predicate RightHolds<V>(g: Pointers, r: Right<V>) {
    match r
    case Child(s) => Holds(g, s)
    case Shadowed(s) => Holds(g, s)
    case _ => true
  }

  /** Pointers recorded in `g` stay recorded in any map that agrees with `g`. */
  lemma {:induction false} HoldsExtend<V>(g: Pointers, g2: Pointers, t: TTree<V>)
    requires Holds(g, t)
    requires forall x :: x in g ==> x in g2 && g2[x] == g[x]
    ensures Holds(g2, t)
  {
    match t
    case TNil =>
    case TNode(_, _, l, r) =>
      HoldsExtend(g, g2, l);
      match r {
        case Child(s) => HoldsExtend(g, g2, s);
        case Shadowed(s) => HoldsExtend(g, g2, s);
        case _ =>
      }
  }

  /** Every node recorded in the pointers of a tag-free tree is one of its keys. */
  lemma {:induction false} GraphKeys<V>(t: TTree<V>, x: int)
    requires TagFree(t)
    ensures x in Graph(t) ==> HasKey(Entries(t), x)
  {
    match t
    case TNil =>
    case TNode(k, v, l, r) =>
      var rt := Owned(r);
      assert RightGraph(r) == Graph(rt) && PlainRight(r) == Plain(rt);
      HasKeyAround(Entries(l), (k, v), Entries(rt), x);
      GraphKeys(l, x);
      match r
      case Child(s) => GraphKeys(s, x);
      case _ =>
  }

  lemma KeyBelow<V>(s: seq<Entry<V>>, k: int, x: int)
    requires AllBelow(s, k) && HasKey(s, x)
    ensures x < k
  {
  }

  lemma KeyAbove<V>(s: seq<Entry<V>>, k: int, x: int)
    requires AllAbove(s, k) && HasKey(s, x)
    ensures k < x
  {
  }

  /** In a tag-free search tree the keys are distinct, so the pointer map
      built from the tree records every node's own pointers. */
  lemma {:induction false} GraphHolds<V>(t: TTree<V>)
    requires TagFree(t) && Bst(Plain(t))
    ensures Holds(Graph(t), t)
  {
    match t
    case TNil =>
    case TNode(k, v, l, r) =>
      BstNode(Plain(t));
      var rt := Owned(r);
      assert RightGraph(r) == Graph(rt) && PlainRight(r) == Plain(rt);
      assert Graph(t) == Graph(l) + Graph(rt) + map[k := (KeyOf(l), Target(r))];
      forall x | x in Graph(l)
        ensures x in Graph(t) && Graph(t)[x] == Graph(l)[x]
      {
        GraphKeys(l, x);
        KeyBelow(Entries(l), k, x);
        GraphKeys(rt, x);
        AboveMeansAbsent(Entries(rt), x, k);
      }
      GraphHolds(l);
      HoldsExtend(Graph(l), Graph(t), l);
      match r {
        case Child(s) =>
          forall x | x in Graph(s)
            ensures x in Graph(t) && Graph(t)[x] == Graph(s)[x]
          {
            GraphKeys(s, x);
            KeyAbove(Entries(s), k, x);
          }
          GraphHolds(s);
          HoldsExtend(Graph(s), Graph(t), s);
        case _ =>
      }
  }

  lemma PrefixedEmpty(o: Option<seq<int>>)
    ensures Prefixed([], o) == o
  {
    if o.Some? {
      assert [] + o.value == o.value;
    }
  }

  lemma PrefixedTwice(a: seq<int>, b: seq<int>, o: Option<seq<int>>)
    ensures Prefixed(a, Prefixed(b, o)) == Prefixed(a + b, o)
  {
    if o.Some? {
      assert a + (b + o.value) == (a + b) + o.value;
    }
  }

  /** One push step of the walk. */
  lemma PushStep(g: Pointers, k: int, st: seq<int>, fuel: nat)
    requires fuel > 0
    ensures ResetWalk(g, Some(k), st, fuel) == ResetWalk(g, LeftOf(g, k), st + [k], fuel - 1)
  {
  }

  /** One pop step of the walk: the node's tag is cleared and `r_` followed. */
  lemma PopStep(g: Pointers, k: int, st: seq<int>, fuel: nat)
    requires fuel > 0
    ensures ResetWalk(g, None, st + [k], fuel) == Prefixed([k], ResetWalk(g, RightOf(g, k), st, fuel - 1))
  {
    assert (st + [k])[..|st|] == st;
  }

  /** A tag-free node splits into its left subtree, itself and its owned right subtree. */
  lemma NodeParts<V>(t: TTree<V>)
    requires t.TNode? && TagFree(t) && Bst(Plain(t))
    ensures TagFree(t.left) && Bst(Plain(t.left))
    ensures TagFree(Owned(t.right)) && Bst(Plain(Owned(t.right)))
    ensures Target(t.right) == KeyOf(Owned(t.right))
    ensures |Entries(t)| == |Entries(t.left)| + 1 + |Entries(Owned(t.right))|
    ensures KeysOf(Entries(t)) == KeysOf(Entries(t.left)) + [t.key] + KeysOf(Entries(Owned(t.right)))
  {
    BstNode(Plain(t));
    var L, x, R := Entries(t.left), (t.key, t.val), Entries(Owned(t.right));
    assert PlainRight(t.right) == Plain(Owned(t.right));
    assert Entries(t) == L + [x] + R;
    KeysOfConcat(L + [x], R);
    KeysOfConcat(L, [x]);
    assert KeysOf([x]) == [t.key];
  }

  /** What the walk needs to know about one node of a tag-free search tree
      whose pointers are recorded in `g`. */
  lemma NodeFacts<V>(g: Pointers, t: TTree<V>)
    requires t.TNode? && TagFree(t) && Bst(Plain(t)) && Holds(g, t)
    ensures LeftOf(g, t.key) == KeyOf(t.left) && RightOf(g, t.key) == KeyOf(Owned(t.right))
    ensures Holds(g, t.left) && Holds(g, Owned(t.right))
    ensures TagFree(t.left) && Bst(Plain(t.left))
    ensures TagFree(Owned(t.right)) && Bst(Plain(Owned(t.right)))
    ensures |Entries(t)| == |Entries(t.left)| + 1 + |Entries(Owned(t.right))|
    ensures KeysOf(Entries(t)) == KeysOf(Entries(t.left)) + [t.key] + KeysOf(Entries(Owned(t.right)))
  {
    NodeParts(t);
  }

  /** Walking a tag-free search tree of `n` nodes with keys `K` from its root
      above stack `st` emits `K`, using two steps per node, and then carries
      on with the stack as it was. */
  lemma {:induction false} WalkSubtree<V>(g: Pointers, t: TTree<V>, st: seq<int>, f: nat, n: nat, K: seq<int>)
    requires TagFree(t) && Bst(Plain(t)) && Holds(g, t)
    requires n == |Entries(t)| && K == KeysOf(Entries(t))
    ensures ResetWalk(g, KeyOf(t), st, f + 2 * n) == Prefixed(K, ResetWalk(g, None, st, f))
    decreases t
  {
    if t.TNil? {
      assert Entries(t) == [];
      PrefixedEmpty(ResetWalk(g, None, st, f));
    } else {
      NodeFacts(g, t);
      var l, rt := t.left, Owned(t.right);
      var nL, nR := |Entries(l)|, |Entries(rt)|;
      var KL, KR := KeysOf(Entries(l)), KeysOf(Entries(rt));
      WalkSubtree(g, l, st + [t.key], f + 2 * nR + 1, nL, KL);
      if t.right.Child? {
        WalkSubtree(g, rt, st, f, nR, KR);
      } else {
        assert rt == TNil && Entries(rt) == [];
        PrefixedEmpty(ResetWalk(g, None, st, f));
      }
      WalkNode(g, t.key, st, f, nL, nR, KL, KR);
    }
  }

  /** The walk over one node: push it, walk its left subtree, pop it, walk
      its right subtree. */
  lemma WalkNode(g: Pointers, k: int, st: seq<int>, f: nat, nL: nat, nR: nat, KL: seq<int>, KR: seq<int>)
    requires ResetWalk(g, LeftOf(g, k), st + [k], f + 2 * nR + 1 + 2 * nL)
      == Prefixed(KL, ResetWalk(g, None, st + [k], f + 2 * nR + 1))
    requires ResetWalk(g, RightOf(g, k), st, f + 2 * nR) == Prefixed(KR, ResetWalk(g, None, st, f))
    ensures ResetWalk(g, Some(k), st, f + 2 * (nL + 1 + nR))
      == Prefixed(KL + [k] + KR, ResetWalk(g, None, st, f))
  {
    var X := ResetWalk(g, None, st, f);
    PushStep(g, k, st, f + 2 * (nL + 1 + nR));
    PopStep(g, k, st, f + 2 * nR + 1);
    PrefixedTwice([k], KR, X);
    PrefixedTwice(KL, [k] + KR, X);
    assert KL + [k] + KR == KL + ([k] + KR);
  }

  lemma {:induction false} KeysOfConcat<V>(a: seq<Entry<V>>, b: seq<Entry<V>>)
    ensures KeysOf(a + b) == KeysOf(a) + KeysOf(b)
  {
    if a == [] {
      assert a + b == b;
    } else {
      KeysOfConcat(a[1..], b);
      assert (a + b)[1..] == a[1..] + b;
      assert KeysOf(a + b) == [a[0].0] + KeysOf(a[1..] + b);
    }
  }

  /** With nothing to pop and nowhere to go, the walk stops. */
  lemma WalkStops(g: Pointers, K: seq<int>)
    ensures Prefixed(K, ResetWalk(g, None, [], 1)) == Some(K)
  {
    assert ResetWalk(g, None, [], 1) == Some([]);
    assert K + [] == K;
  }

  /** On a tree without tags the as-written walk ends after `2n + 1` steps,
      having visited every key in ascending order. */
  lemma ResetWalkTagFree<V>(t: TTree<V>)
    requires TagFree(t) && Bst(Plain(t))
    ensures ResetWalk(Graph(t), KeyOf(t), [], 1 + 2 * |Entries(t)|) == Some(KeysOf(Entries(t)))
  {
    GraphHolds(t);
    WalkFromRoot(Graph(t), t, |Entries(t)|, KeysOf(Entries(t)));
  }

  /** The same for any pointer table that records the tree's pointers. */
  lemma WalkFromRoot<V>(g: Pointers, t: TTree<V>, n: nat, K: seq<int>)
    requires TagFree(t) && Bst(Plain(t)) && Holds(g, t)
    requires n == |Entries(t)| && K == KeysOf(Entries(t))
    ensures ResetWalk(g, KeyOf(t), [], 1 + 2 * n) == Some(K)
  {
    WalkSubtree(g, t, [], 1, n, K);
    WalkStops(g, K);
  }

  /** The stack `[a, a, ..., a]` of height `n`. */
  function Copies(a: int, n: nat): seq<int> {
    seq(n, _ => a)
  }

  /** A node `a` whose left child `b` has no left child and a stale pointer
      back to `a`: the walk cycles a, b, a, b, ... above any stack `P`, and
      the stack gains one `a` per round, so it never finishes. */
  lemma {:induction false} Cycle(g: Pointers, a: int, b: int, P: seq<int>, n: nat, fuel: nat)
    requires a in g && g[a].0 == Some(b) && b in g && g[b] == (None, Some(a))
    ensures ResetWalk(g, Some(a), P + Copies(a, n), fuel) == None
    ensures ResetWalk(g, Some(b), P + Copies(a, n), fuel) == None
    ensures ResetWalk(g, None, P + Copies(a, n) + [b], fuel) == None
    decreases fuel
  {
    if fuel > 0 {
      Cycle(g, a, b, P, n + 1, fuel - 1);
      Cycle(g, a, b, P, n, fuel - 1);
      assert P + Copies(a, n) + [a] == P + Copies(a, n + 1);
      assert (P + Copies(a, n) + [b])[..|P| + n] == P + Copies(a, n);
    }
  }

  // ---------------------------------------------------------------------
  // The runs that tell the two apart

  /** The map after `Insert(3)`, `Insert(1)` and `Begin()`: 3 at the root,
      1 to its left, and 1's right slot threaded to 3. */
  function ThreadedPair(): ThreadedMap.TMap<int> {
    ThreadedMap.TMap(TNode(3, 30, TNode(1, 10, TNil, Thread(3)), Empty), 2, true)
  }

  /** Up to the first `Begin()` nothing has a tag: the as-written reset walk
      ends, and the rebuild yields `ThreadedPair`. */
  lemma ReachThreadedPair()
    ensures var m := Insert(Insert(ThreadedMap.Init(), 3, 30), 1, 10);
      TagFree(m.root) && ThreadedMap.Valid(m)
      && ResetWalk(Graph(m.root), Some(3), [], 5) == Some([1, 3])
      && ThreadedMap.Begin(m).0 == ThreadedPair()
  {
    var m := Insert(Insert(ThreadedMap.Init(), 3, 30), 1, 10);
    PairInserted();
    assert Entries(m.root) == [(1, 10), (3, 30)];
    ResetWalkTagFree(m.root);
    assert KeysOf(Entries(m.root)) == [1, 3];
    assert Reset(m.root) == m.root;
    assert Link(TNode(1, 10, TNil, Empty), Some(3)) == TNode(1, 10, TNil, Thread(3));
  }

  /** Inserting 3 and then 1 into an empty map. */
  lemma PairInserted()
    ensures Insert(Insert(ThreadedMap.Init(), 3, 30), 1, 10)
      == ThreadedMap.TMap(TNode(3, 30, TNode(1, 10, TNil, Empty), Empty), 2, false)
  {
    var m1 := Insert(ThreadedMap.Init<int>(), 3, 30);
    assert m1 == ThreadedMap.TMap(TNode(3, 30, TNil, Empty), 1, false);
  }

  /** Insert 3, 1, `Begin()`, insert 2: the new node hangs under a set tag, so
      until the next rebuild `Values(true)` (GoIn) skips it although the size
      counts it. The corrected insertion lists it. */
  lemma InsertThroughThreadHidesNode()
    ensures var m := Insert(ThreadedPair(), 2, 20);
      m.root == TNode(3, 30, TNode(1, 10, TNil, Shadowed(TNode(2, 20, TNil, Empty))), Empty)
      && m.sz == 3 && Entries(m.root) == [(1, 10), (3, 30)]
    ensures ThreadedMap.Valid(ThreadedPair())
      && Entries(ThreadedMap.Insert(ThreadedPair(), 2, 20).root) == [(1, 10), (2, 20), (3, 30)]
  {
    var p := ThreadedPair();
    assert Entries(p.root) == [(1, 10), (3, 30)];
    assert ThreadedMap.Valid(p);
    assert NodeOf(p.root, 2) == TNil;
    var m := Insert(p, 2, 20);
    assert m.root == TNode(3, 30, TNode(1, 10, TNil, Shadowed(TNode(2, 20, TNil, Empty))), Empty);
    assert Plain(m.root) == Node(3, 30, Node(1, 10, Nil, Nil), Nil);
    var c := ThreadedMap.Insert(p, 2, 20);
    assert c.root == TNode(3, 30, TNode(1, 10, TNil, Child(TNode(2, 20, TNil, Empty))), Empty);
    assert Plain(c.root) == Node(3, 30, Node(1, 10, Nil, Node(2, 20, Nil, Nil)), Nil);
  }

  /** The node hidden by `InsertThroughThreadHidesNode` comes back at the
      next rebuild: the as-written reset walk follows `r_` whatever the tag
      says, reaches 2, clears its tag and finishes. */
  lemma HiddenNodeReturnsOnRebuild()
    ensures var m := Insert(ThreadedPair(), 2, 20);
      !m.threadsOk && ResetWalk(Graph(m.root), Some(3), [], 7) == Some([1, 2, 3])
  {
    var m := Insert(ThreadedPair(), 2, 20);
    assert NodeOf(ThreadedPair().root, 2) == TNil;
    assert m.root == TNode(3, 30, TNode(1, 10, TNil, Shadowed(TNode(2, 20, TNil, Empty))), Empty);
    var g := Graph(m.root);
    assert Graph(TNode(2, 20, TNil, Empty)) == map[2 := (None, None)];
    assert g == map[2 := (None, None), 1 := (None, Some(2)), 3 := (Some(1), None)];
    assert LeftOf(g, 3) == Some(1) && LeftOf(g, 1) == None && LeftOf(g, 2) == None;
    assert RightOf(g, 3) == None && RightOf(g, 1) == Some(2) && RightOf(g, 2) == None;
    assert [] + [3] == [3] && [3] + [] == [3] && [3] + [2] == [3, 2] && [3] + [1] == [3, 1];
    assert [2] + [3] == [2, 3] && [1] + [2, 3] == [1, 2, 3];
    assert ResetWalk(g, None, [], 1) == Some([]);
    PopStep(g, 3, [], 2);
    assert ResetWalk(g, None, [3], 2) == Some([3]);
    PopStep(g, 2, [3], 3);
    assert ResetWalk(g, None, [3, 2], 3) == Some([2, 3]);
    PushStep(g, 2, [3], 4);
    assert ResetWalk(g, Some(2), [3], 4) == Some([2, 3]);
    PopStep(g, 1, [3], 5);
    assert ResetWalk(g, None, [3, 1], 5) == Some([1, 2, 3]);
    PushStep(g, 1, [3], 6);
    PushStep(g, 3, [], 7);
    assert ResetWalk(g, Some(3), [], 7) == Some([1, 2, 3]);
  }

  /** Insert 3, 1, `Begin()`, insert 5, `Begin()`: the reset walk returns to
      3 through 1's stale pointer after every round and never finishes,
      however many steps it is given. */
  lemma RebuildNeverEnds()
    ensures var m := Insert(ThreadedPair(), 5, 50);
      !m.threadsOk
      && m.root == TNode(3, 30, TNode(1, 10, TNil, Thread(3)), Child(TNode(5, 50, TNil, Empty)))
      && forall fuel: nat :: ResetWalk(Graph(m.root), Some(3), [], fuel) == None
  {
    var m := Insert(ThreadedPair(), 5, 50);
    assert m.root == TNode(3, 30, TNode(1, 10, TNil, Thread(3)), Child(TNode(5, 50, TNil, Empty)));
    var g := Graph(m.root);
    assert Graph(TNode(1, 10, TNil, Thread(3))) == map[1 := (None, Some(3))];
    assert g[3] == (Some(1), Some(5));
    assert g[1] == (None, Some(3));
    forall fuel: nat
      ensures ResetWalk(g, Some(3), [], fuel) == None
    {
      Cycle(g, 3, 1, [], 0, fuel);
      assert [] + Copies(3, 0) == [];
    }
  }

  /** Insert 3, 1, `Begin()`, erase 2: 2 is absent, but the descent breaks at
      1's thread and node 1 is unlinked instead of the call throwing, as the
      corrected erasure does. */
  lemma EraseThroughThreadRemovesOther()
    ensures !HasKey(Entries(ThreadedPair().root), 2)
    ensures Erase(ThreadedPair(), 2) == Ok(ThreadedMap.TMap(TNode(3, 30, TNil, Empty), 1, false))
    ensures ThreadedMap.Valid(ThreadedPair())
      && ThreadedMap.Erase(ThreadedPair(), 2) == Err(KeyNotFound(2))
  {
    var p := ThreadedPair();
    assert Entries(p.root) == [(1, 10), (3, 30)];
    assert ThreadedMap.Valid(p);
    assert EraseDescent(p.root, 2) == Some(TNode(3, 30, TNil, Empty));
    assert EraseAt(p.root, 2) == None;
  }
}
