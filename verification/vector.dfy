/**
  The growable array of tasks/vector/vector/vector.cpp. The live slots
  `data_[0 .. size_)` are the sequence `elems`; `cap` is `capacity_`. The
  slots past `size_` hold nothing a caller can observe, so they are not
  modelled. The initial capacity is the class constant `DefaultCapacity`,
  10, of tasks/vector/vector/vector.hpp.

  The vector is a value: a mutating member returns the new vector. The
  shifting loops of `Insert`, `Erase` and `Resize` are kept as loops over a
  buffer, and their results are stated against plain sequence slicing.
 */
module Vector {

  const InitialCapacity: nat := 10

  datatype Vec<T> = Vec(elems: seq<T>, cap: nat)

  /** The class invariant: the live slots fit in the allocation. */
  predicate Valid<T>(v: Vec<T>) {
    |v.elems| <= v.cap
  }

  function Size<T>(v: Vec<T>): nat {
    |v.elems|
  }

  function Capacity<T>(v: Vec<T>): nat {
    v.cap
  }

  /** `2^k`: the doublings of a capacity. */
  function Pow2(k: nat): (r: nat)
    ensures r >= 1
  {
    if k == 0 then 1 else 2 * Pow2(k - 1)
  }

  /** The default constructor: no buffer at all. */
  function Init<T>(): (r: Vec<T>)
    ensures Valid(r) && Size(r) == 0 && Capacity(r) == 0
  {
    Vec([], 0)
  }

  /** `Vector(count, value)`: exactly `count` slots, all holding `value`. */
  function Sized<T>(count: nat, value: T): (r: Vec<T>)
    ensures Valid(r) && Size(r) == count && Capacity(r) == count
    ensures forall i :: 0 <= i < |r.elems| ==> r.elems[i] == value
  {
    Vec(seq(count, _ => value), count)
  }

  /** The initializer-list constructor: no buffer for an empty list,
      otherwise at least the initial capacity. */
  function FromValues<T>(init: seq<T>): (r: Vec<T>)
    ensures Valid(r) && r.elems == init
    ensures init == [] ==> Capacity(r) == 0
    ensures init != [] ==> Capacity(r) >= InitialCapacity && Capacity(r) >= |init|
    ensures init != [] ==> Capacity(r) == InitialCapacity || Capacity(r) == |init|
  {
    if init == [] then Vec([], 0)
    else Vec(init, if |init| < InitialCapacity then InitialCapacity else |init|)
  }

  /** `Reserve`: a request of 0 or of no more than the current capacity does
      nothing; otherwise the elements move to a buffer of exactly that size. */
  function Reserve<T>(v: Vec<T>, newCap: nat): (r: Vec<T>)
    requires Valid(v)
    ensures Valid(r) && r.elems == v.elems
    ensures newCap == 0 || newCap <= v.cap ==> r == v
    ensures newCap != 0 && newCap > v.cap ==> Capacity(r) == newCap
  {
    if newCap == 0 || newCap <= v.cap then v else Vec(v.elems, newCap)
  }

  /** The growth step shared by `PushBack`, `EmplaceBack` and `Insert`: a
      vector without a buffer gets the initial capacity, a full one doubles. */
  function GrowForOne<T>(v: Vec<T>): (r: Vec<T>)
    requires Valid(v)
    ensures Valid(r) && r.elems == v.elems && Size(r) < Capacity(r)
    ensures v.cap == 0 ==> Capacity(r) == InitialCapacity
    ensures 0 < v.cap == |v.elems| ==> Capacity(r) == 2 * v.cap
    ensures |v.elems| < v.cap ==> r == v
  {
    if v.cap == 0 then Reserve(v, InitialCapacity)
    else if |v.elems| == v.cap then Reserve(v, v.cap * 2)
    else v
  }

  /** `PushBack` (and `EmplaceBack`, whose constructed value is `x`): grow if
      needed, then append. */
  function PushBack<T>(v: Vec<T>, x: T): (r: Vec<T>)
    requires Valid(v)
    ensures Valid(r) && r.elems == v.elems + [x]
    ensures Capacity(r) == Capacity(GrowForOne(v))
  {
    var w := GrowForOne(v);
    Vec(w.elems + [x], w.cap)
  }

  /** `PopBack`: nothing on an empty vector, otherwise drop the last element. */
  function PopBack<T>(v: Vec<T>): (r: Vec<T>)
    requires Valid(v)
    ensures Valid(r) && Capacity(r) == Capacity(v)
    ensures v.elems == [] ==> r == v
    ensures v.elems != [] ==> v.elems == r.elems + [v.elems[|v.elems| - 1]]
  {
    if v.elems == [] then v else Vec(v.elems[..|v.elems| - 1], v.cap)
  }

  /** `PopBack` undoes `PushBack`, leaving only the grown capacity behind. */
  lemma PopBackPushBack<T>(v: Vec<T>, x: T)
    requires Valid(v)
    ensures PopBack(PushBack(v, x)) == GrowForOne(v)
  {
    assert (v.elems + [x])[..|v.elems|] == v.elems;
  }

  /** A vector grown only by `PushBack` from the default one has no buffer,
      or a buffer of the initial capacity doubled some number of times. */
  ghost predicate PushShaped<T>(v: Vec<T>) {
    v.cap == 0 || exists k: nat :: v.cap == InitialCapacity * Pow2(k)
  }

  lemma PushBackKeepsShape<T>(v: Vec<T>, x: T)
    requires Valid(v) && PushShaped(v)
    ensures PushShaped(PushBack(v, x)) && Capacity(PushBack(v, x)) > 0
  {
    if v.cap == 0 {
      assert PushBack(v, x).cap == InitialCapacity * Pow2(0);
    } else if |v.elems| == v.cap {
      var k: nat :| v.cap == InitialCapacity * Pow2(k);
      assert PushBack(v, x).cap == InitialCapacity * Pow2(k + 1);
    }
  }

  /** `Clear`: every element destroyed, the buffer kept. */
  function Clear<T>(v: Vec<T>): (r: Vec<T>)
    requires Valid(v)
    ensures Valid(r) && Size(r) == 0 && Capacity(r) == Capacity(v)
  {
    Vec([], v.cap)
  }

  /** `Insert`: a position past the end does nothing; otherwise grow as
      `PushBack` does, shift `[position, size)` one slot right from the back,
      and write the value into the gap. */
  method Insert<T>(v: Vec<T>, position: nat, x: T) returns (r: Vec<T>)
    requires Valid(v)
    ensures Valid(r)
    ensures position > Size(v) ==> r == v
    ensures position <= Size(v) ==>
      r.elems == v.elems[..position] + [x] + v.elems[position..]
      && Capacity(r) == Capacity(GrowForOne(v))
  {
    if position > |v.elems| {
      return v;
    }
    var w := GrowForOne(v);
    var n := |w.elems|;
    var buf := w.elems + [x];
    var i := n;
    while i > position
      invariant position <= i <= n && |buf| == n + 1
      invariant buf[..i] == w.elems[..i]
      invariant buf[i + 1..] == w.elems[i..]
    {
      buf := buf[i := buf[i - 1]];
      assert buf[i..] == [w.elems[i - 1]] + w.elems[i..];
      i := i - 1;
    }
    buf := buf[position := x];
    assert buf == w.elems[..position] + [x] + w.elems[position..];
    r := Vec(buf, w.cap);
  }

  /** `Erase(begin, end)`: nothing unless `begin < end`, `begin < size` and
      `end <= size`; otherwise move the tail `[end, size)` down over the
      erased range, front to back, and shorten by `end - begin`. */
  method Erase<T>(v: Vec<T>, b: nat, e: nat) returns (r: Vec<T>)
    requires Valid(v)
    ensures Valid(r) && Capacity(r) == Capacity(v)
    ensures b >= Size(v) || e > Size(v) || b >= e ==> r == v
    ensures b < e <= Size(v) ==>
      r.elems == v.elems[..b] + v.elems[e..] && Size(r) == Size(v) - (e - b)
  {
    var n := |v.elems|;
    if b >= n || e > n || b >= e {
      return v;
    }
    var k := e - b;
    var buf := v.elems;
    var i := e;
    while i < n
      invariant e <= i <= n && |buf| == n
      invariant forall t :: 0 <= t < b ==> buf[t] == v.elems[t]
      invariant forall t :: b <= t < i - k ==> buf[t] == v.elems[t + k]
      invariant forall t :: i <= t < n ==> buf[t] == v.elems[t]
    {
      buf := buf[i - k := buf[i]];
      i := i + 1;
    }
    var kept := v.elems[..b] + v.elems[e..];
    assert |kept| == n - k;
    assert forall t :: 0 <= t < n - k ==> buf[t] == kept[t];
    r := Vec(buf[..n - k], v.cap);
  }

  /** `Erase` of the one slot `Insert` filled gives the elements back. */
  method InsertThenErase<T>(v: Vec<T>, position: nat, x: T) returns (r: Vec<T>)
    requires Valid(v) && position <= Size(v)
    ensures r.elems == v.elems && Capacity(r) == Capacity(GrowForOne(v))
  {
    var w := Insert(v, position, x);
    r := Erase(w, position, position + 1);
    assert w.elems[..position] == v.elems[..position];
    assert w.elems[position + 1..] == v.elems[position..];
    assert v.elems == v.elems[..position] + v.elems[position..];
  }

  /** `Resize(count, value)`: shrinking truncates and keeps the buffer;
      growing past the capacity doubles, from the current capacity or the
      initial one, until `count` fits, then the new slots get `value`. */
  method Resize<T>(v: Vec<T>, count: nat, x: T) returns (r: Vec<T>)
    requires Valid(v)
    ensures Valid(r) && Size(r) == count
    ensures count < Size(v) ==> r.elems == v.elems[..count] && Capacity(r) == Capacity(v)
    ensures count >= Size(v) ==> r.elems[..Size(v)] == v.elems
    ensures forall i :: Size(v) <= i < count ==> r.elems[i] == x
    ensures count <= Capacity(v) ==> Capacity(r) == Capacity(v)
    ensures count > Capacity(v) ==>
      var start := if v.cap > 0 then v.cap else InitialCapacity;
      (exists k: nat :: Capacity(r) == start * Pow2(k))
      && forall j: nat :: count <= start * Pow2(j) ==> Capacity(r) <= start * Pow2(j)
  {
    var n := |v.elems|;
    if count < n {
      return Vec(v.elems[..count], v.cap);
    }
    var w := v;
    if count > v.cap {
      var start := if v.cap > 0 then v.cap else InitialCapacity;
      var newCap := start;
      ghost var k: nat := 0;
      while newCap < count
        invariant newCap == start * Pow2(k)
        invariant newCap == start || newCap < 2 * count
      {
        newCap := newCap * 2;
        k := k + 1;
      }
      forall j: nat | count <= start * Pow2(j)
        ensures newCap <= start * Pow2(j)
      {
        LeastDoubling(start, count, k, j);
      }
      w := Reserve(v, newCap);
    }
    var buf := w.elems;
    var i := n;
    while i < count
      invariant n <= i <= count && |buf| == i
      invariant buf[..n] == v.elems
      invariant forall j :: n <= j < i ==> buf[j] == x
    {
      buf := buf + [x];
      i := i + 1;
    }
    r := Vec(buf, w.cap);
  }

  /** The doubling loop stops at the least doubling of `start` that holds
      `count`: one more doubling would have been needed to pass it, or none
      was taken. */
  lemma LeastDoubling(start: nat, count: nat, k: nat, j: nat)
    requires start > 0 && count <= start * Pow2(k)
    requires start * Pow2(k) == start || start * Pow2(k) < 2 * count
    requires count <= start * Pow2(j)
    ensures start * Pow2(k) <= start * Pow2(j)
  {
    NoSpareDoubling(start, count, k, j);
    Pow2Grows(k, j);
    MulGrows(start, Pow2(k), Pow2(j));
  }

  /** A capacity reached by more doublings than `j` is at least twice
      `start * 2^j`, so it cannot be the first to pass a `count` that
      `start * 2^j` already holds. */
  lemma NoSpareDoubling(start: nat, count: nat, k: nat, j: nat)
    requires start > 0
    requires start * Pow2(k) == start || start * Pow2(k) < 2 * count
    requires count <= start * Pow2(j)
    ensures k <= j
  {
    if j < k {
      var P, Q := Pow2(k), Pow2(j);
      assert 2 * Q <= P by {
        Pow2Grows(j + 1, k);
      }
      assert 2 * start <= start * P by {
        MulGrows(start, 2, P);
      }
      assert 2 * (start * Q) <= start * P by {
        MulGrows(start, 2 * Q, P);
        MulTwice(start, Q);
      }
      assert false;
    }
  }

  lemma MulTwice(a: nat, b: nat)
    ensures a * (2 * b) == 2 * (a * b)
  {
  }

  lemma {:induction false} Pow2Grows(a: nat, b: nat)
    requires a <= b
    ensures Pow2(a) <= Pow2(b)
    decreases b - a
  {
    if a < b {
      Pow2Grows(a, b - 1);
    }
  }

  lemma MulGrows(a: nat, x: nat, y: nat)
    requires x <= y
    ensures a * x <= a * y
  {
  }

  /** The copy constructor: a buffer of exactly the source's size (none for
      an empty source), filled slot by slot. */
  method CopyConstruct<T>(other: Vec<T>) returns (r: Vec<T>)
    requires Valid(other)
    ensures Valid(r) && r.elems == other.elems && Capacity(r) == Size(other)
  {
    var buf: seq<T> := [];
    var i := 0;
    while i < |other.elems|
      invariant i <= |other.elems|
      invariant buf == other.elems[..i]
    {
      buf := buf + [other.elems[i]];
      i := i + 1;
    }
    assert other.elems[..i] == other.elems;
    r := Vec(buf, |other.elems|);
  }

  /** Copy assignment: a new buffer of exactly the source's size only when
      the source does not fit, then an element-wise copy. Assigning a vector
      to itself leaves it as it is, which this also yields. */
  function CopyAssign<T>(target: Vec<T>, other: Vec<T>): (r: Vec<T>)
    requires Valid(target) && Valid(other)
    ensures Valid(r) && r.elems == other.elems
    ensures Size(other) > Capacity(target) ==> Capacity(r) == Size(other)
    ensures Size(other) <= Capacity(target) ==> Capacity(r) == Capacity(target)
  {
    if |other.elems| > target.cap then Vec(other.elems, |other.elems|)
    else Vec(other.elems, target.cap)
  }

  /** The move constructor: the buffer changes hands and the source is left
      with no buffer. Result: (new vector, source afterwards). */
  function MoveConstruct<T>(other: Vec<T>): (r: (Vec<T>, Vec<T>))
    requires Valid(other)
    ensures Valid(r.0) && r.0.elems == other.elems && Capacity(r.0) == Capacity(other)
    ensures r.1 == Init()
  {
    (Vec(other.elems, other.cap), Vec([], 0))
  }

  /** Move assignment. `self` is the `this == &other` test: a vector moved
      into itself stays as it was; otherwise the target's elements are
      dropped, its buffer is freed and the source's buffer changes hands.
      Result: (target afterwards, source afterwards). */
  function MoveAssign<T>(target: Vec<T>, other: Vec<T>, self: bool): (r: (Vec<T>, Vec<T>))
    requires Valid(other) && (self ==> target == other)
    ensures self ==> r.0 == other && r.1 == other
    ensures !self ==> Valid(r.0) && r.0.elems == other.elems && Capacity(r.0) == Capacity(other)
    ensures !self ==> r.1 == Init()
  {
    if self then (target, other) else MoveConstruct(other)
  }
}
