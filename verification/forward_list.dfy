/**
  The singly linked list of tasks/lists/forward/forward_list.hpp. The chain
  of nodes from `head_` is the sequence `items`; `size` is the separately
  kept counter `size_`. An iterator is the node it points at, which in a
  list of distinct nodes is its position, or the null iterator `End`.

  The list is a value: a mutating member returns the new list, and a thrown
  exception is an `Err` (the caller keeps the list it had).
 */
module ForwardList {
  import opened Common

  datatype FList<T> = FList(items: seq<T>, size: nat)

  /** The two exceptions: `ListIsEmptyException`, and the `runtime_error`
      of dereferencing the end iterator. */
  datatype ListError = ListIsEmpty | DerefEnd

  /** A null node pointer (`End`), or the node at position `pos`. */
  datatype Iter = End | At(pos: nat)

  /** The class invariant: the counter is the length of the chain. */
  predicate Valid<T>(l: FList<T>) {
    l.size == |l.items|
  }

  /** An iterator into `l`: the end, or one of its nodes. */
  predicate Live<T>(l: FList<T>, it: Iter) {
    it.At? ==> it.pos < |l.items|
  }

  /** The default constructor. */
  function Init<T>(): (r: FList<T>)
    ensures Valid(r) && r.items == [] && IsEmpty(r)
  {
    FList([], 0)
  }

  /** `IsEmpty` looks at `head_`, not at the counter. */
  predicate IsEmpty<T>(l: FList<T>) {
    l.items == []
  }

  function Size<T>(l: FList<T>): nat {
    l.size
  }

  /** `PushFront`: a new head node pointing at the old head. */
  function PushFront<T>(l: FList<T>, v: T): (r: FList<T>)
    requires Valid(l)
    ensures Valid(r) && Size(r) == Size(l) + 1
    ensures r.items[0] == v && r.items[1..] == l.items
  {
    FList([v] + l.items, l.size + 1)
  }

  /** `Front`: the head's value; throws on an empty list. */
  function Front<T>(l: FList<T>): (r: Result<T, ListError>)
    requires Valid(l)
    ensures r.Err? <==> IsEmpty(l)
    ensures r.Err? ==> r.error == ListIsEmpty
    ensures r.Ok? ==> r.value == l.items[0]
  {
    if l.items == [] then Err(ListIsEmpty) else Ok(l.items[0])
  }

  /** `PopFront`: unlink the head; throws on an empty list. */
  function PopFront<T>(l: FList<T>): (r: Result<FList<T>, ListError>)
    requires Valid(l)
    ensures r.Err? <==> IsEmpty(l)
    ensures r.Err? ==> r.error == ListIsEmpty
    ensures r.Ok? ==> Valid(r.value) && Size(r.value) == Size(l) - 1 && r.value.items == l.items[1..]
  {
    if l.items == [] then Err(ListIsEmpty) else Ok(FList(l.items[1..], l.size - 1))
  }

  /** `PopFront` undoes `PushFront`, and `PushFront` of the front undoes `PopFront`. */
  lemma PushPopInverse<T>(l: FList<T>, v: T)
    requires Valid(l)
    ensures PopFront(PushFront(l, v)) == Ok(l)
    ensures Front(PushFront(l, v)) == Ok(v)
    ensures !IsEmpty(l) ==> PushFront(PopFront(l).value, Front(l).value) == l
  {
    if !IsEmpty(l) {
      assert [l.items[0]] + l.items[1..] == l.items;
    }
  }

  /** `InsertAfter`: at `End` the value becomes the new head; otherwise a new
      node goes right after `pos`. */
  function InsertAfter<T>(l: FList<T>, it: Iter, v: T): (r: FList<T>)
    requires Valid(l) && Live(l, it)
    ensures Valid(r) && Size(r) == Size(l) + 1
    ensures it.End? ==> r == PushFront(l, v)
    ensures it.At? ==>
      r.items[..it.pos + 1] == l.items[..it.pos + 1]
      && r.items[it.pos + 1] == v
      && r.items[it.pos + 2..] == l.items[it.pos + 1..]
  {
    if it.End? then PushFront(l, v)
    else
      var i := it.pos + 1;
      var r := FList(l.items[..i] + [v] + l.items[i..], l.size + 1);
      assert r.items[..i] == l.items[..i];
      assert r.items[i + 1..] == l.items[i..];
      r
  }

  /** `EraseAfter`: nothing at `End` or at the last node; otherwise the node
      after `pos` is unlinked. */
  function EraseAfter<T>(l: FList<T>, it: Iter): (r: FList<T>)
    requires Valid(l) && Live(l, it)
    ensures Valid(r)
    ensures it.End? || it.pos + 1 == |l.items| ==> r == l
    ensures it.At? && it.pos + 1 < |l.items| ==>
      Size(r) == Size(l) - 1
      && r.items[..it.pos + 1] == l.items[..it.pos + 1]
      && r.items[it.pos + 1..] == l.items[it.pos + 2..]
  {
    if it.End? || it.pos + 1 == |l.items| then l
    else
      var i := it.pos + 1;
      var r := FList(l.items[..i] + l.items[i + 1..], l.size - 1);
      assert r.items[..i] == l.items[..i];
      assert r.items[i..] == l.items[i + 1..];
      r
  }

  /** `EraseAfter` at a node undoes `InsertAfter` at the same node. */
  lemma EraseAfterInsertAfter<T>(l: FList<T>, pos: nat, v: T)
    requires Valid(l) && pos < |l.items|
    ensures EraseAfter(InsertAfter(l, At(pos), v), At(pos)) == l
  {
    var r := EraseAfter(InsertAfter(l, At(pos), v), At(pos));
    assert r.items == r.items[..pos + 1] + r.items[pos + 1..];
    assert l.items == l.items[..pos + 1] + l.items[pos + 1..];
  }

  /** `Clear`: every node deleted, the counter reset. */
  function Clear<T>(l: FList<T>): (r: FList<T>)
    ensures Valid(r) && IsEmpty(r) && Size(r) == 0
  {
    FList([], 0)
  }

  /** `Swap`: the two lists exchange chains and counters. */
  function Swap<T>(a: FList<T>, b: FList<T>): (r: (FList<T>, FList<T>))
    requires Valid(a) && Valid(b)
    ensures Valid(r.0) && r.0.items == b.items && Size(r.0) == Size(b)
    ensures Valid(r.1) && r.1.items == a.items && Size(r.1) == Size(a)
  {
    (b, a)
  }

  /** `Begin`: the head node, which is null for an empty list. */
  function Begin<T>(l: FList<T>): (it: Iter)
    ensures Live(l, it)
    ensures it == End <==> IsEmpty(l)
    ensures it.At? ==> it.pos == 0
  {
    if l.items == [] then End else At(0)
  }

  /** The iterator's `operator*` (and `operator->`): throws at `End`. */
  function Deref<T>(l: FList<T>, it: Iter): (r: Result<T, ListError>)
    requires Live(l, it)
    ensures r.Err? <==> it == End
    ensures r.Err? ==> r.error == DerefEnd
    ensures r.Ok? ==> r.value == l.items[it.pos]
  {
    if it.End? then Err(DerefEnd) else Ok(l.items[it.pos])
  }

  /** The iterator's `operator++`: follow `next_`; `End` stays `End`. */
  function Next<T>(l: FList<T>, it: Iter): (r: Iter)
    requires Live(l, it)
    ensures Live(l, r)
    ensures it == End ==> r == End
    ensures it.At? && it.pos + 1 < |l.items| ==> r == At(it.pos + 1)
    ensures it.At? && it.pos + 1 == |l.items| ==> r == End
  {
    if it.End? || it.pos + 1 == |l.items| then End else At(it.pos + 1)
  }

  /** `n` applications of `operator++`. */
  function Advance<T>(l: FList<T>, it: Iter, n: nat): (r: Iter)
    requires Live(l, it)
    ensures Live(l, r)
    decreases n
  {
    if n == 0 then it else Advance(l, Next(l, it), n - 1)
  }

  /** Stepping from `Begin` visits the elements in order and reaches `End`
      after `Size()` steps. */
  lemma {:induction false} IterationVisitsInOrder<T>(l: FList<T>, n: nat)
    requires Valid(l) && n <= |l.items|
    ensures n < |l.items| ==> Deref(l, Advance(l, Begin(l), n)) == Ok(l.items[n])
    ensures n == |l.items| ==> Advance(l, Begin(l), n) == End
  {
    if n > 0 {
      AdvanceFrom(l, 0, n);
    }
  }

  /** From the node at `i`, `n` steps reach the node at `i + n`, or `End`
      just past the last node. */
  lemma {:induction false} AdvanceFrom<T>(l: FList<T>, i: nat, n: nat)
    requires i < |l.items| && i + n <= |l.items|
    ensures Advance(l, At(i), n) == if i + n < |l.items| then At(i + n) else End
    decreases n
  {
    if n > 0 {
      if i + 1 < |l.items| {
        AdvanceFrom(l, i + 1, n - 1);
      } else {
        EndStays(l, n - 1);
      }
    }
  }

  /** `operator++` on `End` stays at `End`, however often it is applied. */
  lemma {:induction false} EndStays<T>(l: FList<T>, n: nat)
    ensures Advance(l, End, n) == End
  {
    if n > 0 {
      EndStays(l, n - 1);
    }
  }

  /** `Find`: the first node holding `v`, or `End`. */
  method Find<T(==)>(l: FList<T>, v: T) returns (it: Iter)
    requires Valid(l)
    ensures Live(l, it)
    ensures it == End <==> v !in l.items
    ensures it.At? ==> l.items[it.pos] == v && v !in l.items[..it.pos]
  {
    var i := 0;
    while i < |l.items|
      invariant i <= |l.items|
      invariant v !in l.items[..i]
    {
      if l.items[i] == v {
        return At(i);
      }
      assert l.items[..i + 1] == l.items[..i] + [l.items[i]];
      i := i + 1;
    }
    assert l.items[..i] == l.items;
    return End;
  }

  /** `ForwardList(sz)`: `sz` pushes of the default value `dflt` (`T()`). */
  method Sized<T>(sz: nat, dflt: T) returns (r: FList<T>)
    ensures Valid(r) && Size(r) == sz
    ensures forall i :: 0 <= i < |r.items| ==> r.items[i] == dflt
  {
    r := Init();
    var i := 0;
    while i < sz
      invariant i <= sz
      invariant Valid(r) && Size(r) == i
      invariant forall j :: 0 <= j < |r.items| ==> r.items[j] == dflt
    {
      r := PushFront(r, dflt);
      i := i + 1;
    }
  }

  /** The initializer-list constructor: pushes the values from the last to
      the first, so the list keeps their order. */
  method FromValues<T>(values: seq<T>) returns (r: FList<T>)
    ensures Valid(r) && r.items == values
  {
    r := Init();
    var i := |values|;
    while i > 0
      invariant 0 <= i <= |values|
      invariant Valid(r) && r.items == values[i..]
    {
      i := i - 1;
      r := PushFront(r, values[i]);
      assert r.items == [values[i]] + values[i + 1..];
    }
  }

  /** The copy constructor: push the source's values onto a scratch list
      (which reverses them), then move them back one `Front`/`PopFront` at a
      time (which reverses them again). */
  method Copy<T>(other: FList<T>) returns (r: FList<T>)
    requires Valid(other)
    ensures Valid(r) && r.items == other.items
  {
    r := Init();
    if !IsEmpty(other) {
      var temp := Init();
      var i := 0;
      while i < |other.items|
        invariant i <= |other.items|
        invariant Valid(temp) && temp.items == Reverse(other.items[..i])
      {
        temp := PushFront(temp, other.items[i]);
        ReversePrefixStep(other.items, i);
        i := i + 1;
      }
      assert other.items[..i] == other.items;
      ghost var reversed := temp.items;
      ghost var j := 0;
      while !IsEmpty(temp)
        invariant j <= |reversed|
        invariant Valid(temp) && temp.items == reversed[j..]
        invariant Valid(r) && r.items == Reverse(reversed[..j])
        decreases |temp.items|
      {
        r := PushFront(r, Front(temp).value);
        temp := PopFront(temp).value;
        ReversePrefixStep(reversed, j);
        j := j + 1;
      }
      assert reversed[..j] == reversed;
      ReverseReverse(other.items);
    }
  }

  /** Copy assignment. `self` is the `this == &other` test: assigning a list
      to itself leaves it alone; otherwise the old nodes are freed (memory
      is not modelled) and the source is copied as the copy constructor
      does. */
  method CopyAssign<T>(target: FList<T>, other: FList<T>, self: bool) returns (r: FList<T>)
    requires Valid(other) && (self ==> target == other)
    ensures Valid(r) && r.items == other.items
    ensures self ==> r == target
  {
    if self {
      return target;
    }
    r := Copy(other);
  }
}
