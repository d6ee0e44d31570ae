/**
  The abstract contents of every ordered map in the model: a sequence of
  (key, value) pairs, which is what the maps' `Values(true)` snapshot returns.
  A well-formed content sequence is strictly ascending by key.
 */
module Assoc {
  import opened Common

  type Entry<V> = (int, V)

  predicate Ascending<V>(s: seq<Entry<V>>) {
    forall i, j :: 0 <= i < j < |s| ==> s[i].0 < s[j].0
  }

  predicate Descending<V>(s: seq<Entry<V>>) {
    forall i, j :: 0 <= i < j < |s| ==> s[i].0 > s[j].0
  }

  predicate HasKey<V>(s: seq<Entry<V>>, k: int) {
    exists i :: 0 <= i < |s| && s[i].0 == k
  }

  predicate AllBelow<V>(s: seq<Entry<V>>, k: int) {
    forall i :: 0 <= i < |s| ==> s[i].0 < k
  }

  predicate AllAbove<V>(s: seq<Entry<V>>, k: int) {
    forall i :: 0 <= i < |s| ==> k < s[i].0
  }

  /** The value stored under `k`, if any. */
  function Lookup<V>(s: seq<Entry<V>>, k: int): (r: Option<V>)
    ensures r.Some? <==> HasKey(s, k)
  {
    if s == [] then None
    else if s[0].0 == k then Some(s[0].1)
    else
      assert HasKey(s, k) ==> HasKey(s[1..], k) by {
        if HasKey(s, k) {
          var i :| 0 <= i < |s| && s[i].0 == k;
          assert s[1..][i - 1].0 == k;
        }
      }
      Lookup(s[1..], k)
  }

  /** Insert-or-overwrite: the abstract effect of `Insert` on every map. */
  function Put<V>(s: seq<Entry<V>>, k: int, v: V): seq<Entry<V>> {
    if s == [] then [(k, v)]
    else if s[0].0 == k then [(k, v)] + s[1..]
    else if k < s[0].0 then [(k, v)] + s
    else [s[0]] + Put(s[1..], k, v)
  }

  /** One insert-or-overwrite per pair, in the order given: the effect of
      inserting an initializer list. */
  function PutAll<V>(s: seq<Entry<V>>, es: seq<Entry<V>>): seq<Entry<V>>
    decreases |es|
  {
    if es == [] then s else PutAll(Put(s, es[0].0, es[0].1), es[1..])
  }

  /** The keys of a snapshot, in order. */
  function KeysOf<V>(s: seq<Entry<V>>): (r: seq<int>)
    ensures |r| == |s|
  {
    if s == [] then [] else [s[0].0] + KeysOf(s[1..])
  }

  /** Deletion of a key: the abstract effect of a successful `Erase`. */
  function Remove<V>(s: seq<Entry<V>>, k: int): seq<Entry<V>> {
    if s == [] then []
    else if s[0].0 == k then Remove(s[1..], k)
    else [s[0]] + Remove(s[1..], k)
  }

  /** After insertion the key maps to the new value and every other key is unaffected. */
  lemma {:induction false} PutLookup<V>(s: seq<Entry<V>>, k: int, v: V, j: int)
    ensures Lookup(Put(s, k, v), j) == if j == k then Some(v) else Lookup(s, j)
  {
    if s != [] && s[0].0 != k && !(k < s[0].0) {
      PutLookup(s[1..], k, v, j);
    }
  }

  /** After removal the key is gone and every other key is unaffected. */
  lemma {:induction false} RemoveLookup<V>(s: seq<Entry<V>>, k: int, j: int)
    ensures Lookup(Remove(s, k), j) == if j == k then None else Lookup(s, j)
  {
    if s != [] {
      RemoveLookup(s[1..], k, j);
    }
  }

  lemma HasKeyCons<V>(x: Entry<V>, s: seq<Entry<V>>, k: int)
    ensures HasKey([x] + s, k) <==> x.0 == k || HasKey(s, k)
  {
    var xs := [x] + s;
    assert forall i :: 0 < i < |xs| ==> xs[i] == s[i - 1];
    assert forall i :: 0 <= i < |s| ==> s[i] == xs[i + 1];
    assert xs[0] == x;
  }

  /** An ascending sequence splits around any element into a smaller and a larger part. */
  lemma AscendingAround<V>(a: seq<Entry<V>>, x: Entry<V>, b: seq<Entry<V>>)
    ensures Ascending(a + [x] + b) <==>
      Ascending(a) && Ascending(b) && AllBelow(a, x.0) && AllAbove(b, x.0)
  {
    var s := a + [x] + b;
    if Ascending(s) {
      forall i, j | 0 <= i < j < |a| ensures a[i].0 < a[j].0 { assert s[i] == a[i] && s[j] == a[j]; }
      forall i, j | 0 <= i < j < |b| ensures b[i].0 < b[j].0 {
        assert s[|a| + 1 + i] == b[i] && s[|a| + 1 + j] == b[j];
      }
      forall i | 0 <= i < |a| ensures a[i].0 < x.0 { assert s[i] == a[i] && s[|a|] == x; }
      forall i | 0 <= i < |b| ensures x.0 < b[i].0 { assert s[|a| + 1 + i] == b[i] && s[|a|] == x; }
    }
    if Ascending(a) && Ascending(b) && AllBelow(a, x.0) && AllAbove(b, x.0) {
      forall i, j | 0 <= i < j < |s| ensures s[i].0 < s[j].0 {
        if j < |a| {
          assert s[i] == a[i] && s[j] == a[j];
        } else if j == |a| {
          assert s[i] == a[i];
        } else if i < |a| {
          assert s[i] == a[i] && s[j] == b[j - |a| - 1];
        } else if i == |a| {
          assert s[j] == b[j - |a| - 1];
        } else {
          assert s[i] == b[i - |a| - 1] && s[j] == b[j - |a| - 1];
        }
      }
    }
  }

  /** An ascending sequence never holds its first key again further on. */
  lemma AscendingHead<V>(s: seq<Entry<V>>)
    requires s != [] && Ascending(s)
    ensures !HasKey(s[1..], s[0].0)
  {
    forall i | 0 <= i < |s[1..]| ensures s[1..][i].0 != s[0].0 {
      assert s[1..][i] == s[i + 1];
    }
  }

  /** Insert adds an entry exactly when the key was absent. */
  lemma {:induction false} PutLength<V>(s: seq<Entry<V>>, k: int, v: V)
    requires Ascending(s)
    ensures |Put(s, k, v)| == if HasKey(s, k) then |s| else |s| + 1
  {
    if s == [] {
    } else {
      HasKeyCons(s[0], s[1..], k);
      assert [s[0]] + s[1..] == s;
      if s[0].0 == k {
      } else if k < s[0].0 {
        forall i | 0 <= i < |s[1..]| ensures s[1..][i].0 != k {
          assert s[1..][i] == s[i + 1];
        }
      } else {
        PutLength(s[1..], k, v);
      }
    }
  }

  /** Insertion keeps every key that lay above `x` above `x` when the new key does too. */
  lemma {:induction false} PutAbove<V>(s: seq<Entry<V>>, k: int, v: V, x: int)
    requires AllAbove(s, x) && x < k
    ensures AllAbove(Put(s, k, v), x)
  {
    if s != [] && s[0].0 != k && !(k < s[0].0) {
      PutAbove(s[1..], k, v, x);
    }
  }

  /** Insertion keeps a snapshot strictly ascending. */
  lemma {:induction false} PutAscending<V>(s: seq<Entry<V>>, k: int, v: V)
    requires Ascending(s)
    ensures Ascending(Put(s, k, v))
  {
    if s == [] {
    } else if s[0].0 == k {
      AscendingAround([], s[0], s[1..]);
      AscendingAround([], (k, v), s[1..]);
    } else if k < s[0].0 {
      AscendingAround([], s[0], s[1..]);
      assert AllAbove(s, k);
      AscendingAround([], (k, v), s);
    } else {
      AscendingAround([], s[0], s[1..]);
      PutAscending(s[1..], k, v);
      PutAbove(s[1..], k, v, s[0].0);
      AscendingAround([], s[0], Put(s[1..], k, v));
    }
  }

  /** Removing a present key drops exactly one entry. */
  lemma {:induction false} RemoveLength<V>(s: seq<Entry<V>>, k: int)
    requires Ascending(s)
    ensures |Remove(s, k)| == if HasKey(s, k) then |s| - 1 else |s|
  {
    if s != [] {
      HasKeyCons(s[0], s[1..], k);
      assert [s[0]] + s[1..] == s;
      AscendingAround([], s[0], s[1..]);
      RemoveLength(s[1..], k);
      if s[0].0 == k {
        AscendingHead(s);
      }
    }
  }

  /** Removing a key absent from `s` changes nothing. */
  lemma {:induction false} RemoveAbsent<V>(s: seq<Entry<V>>, k: int)
    requires !HasKey(s, k)
    ensures Remove(s, k) == s
  {
    if s != [] {
      HasKeyCons(s[0], s[1..], k);
      assert [s[0]] + s[1..] == s;
      RemoveAbsent(s[1..], k);
    }
  }

  lemma {:induction false} RemoveAbove<V>(s: seq<Entry<V>>, k: int, x: int)
    requires AllAbove(s, x)
    ensures AllAbove(Remove(s, k), x)
  {
    if s != [] {
      RemoveAbove(s[1..], k, x);
    }
  }

  /** Removal keeps a snapshot strictly ascending. */
  lemma {:induction false} RemoveAscending<V>(s: seq<Entry<V>>, k: int)
    requires Ascending(s)
    ensures Ascending(Remove(s, k))
  {
    if s != [] {
      AscendingAround([], s[0], s[1..]);
      RemoveAscending(s[1..], k);
      if s[0].0 != k {
        RemoveAbove(s[1..], k, s[0].0);
        AscendingAround([], s[0], Remove(s[1..], k));
      }
    }
  }

  /** Inserting a key smaller than everything in `b` never looks past the end of `a`. */
  lemma {:induction false} PutBeforeSuffix<V>(a: seq<Entry<V>>, b: seq<Entry<V>>, k: int, v: V)
    requires AllAbove(b, k)
    ensures Put(a + b, k, v) == Put(a, k, v) + b
  {
    if a == [] {
      assert a + b == b;
    } else {
      assert (a + b)[1..] == a[1..] + b;
      PutBeforeSuffix(a[1..], b, k, v);
    }
  }

  /** Inserting a key larger than everything in `a` leaves `a` in front untouched. */
  lemma {:induction false} PutAfterPrefix<V>(a: seq<Entry<V>>, b: seq<Entry<V>>, k: int, v: V)
    requires AllBelow(a, k)
    ensures Put(a + b, k, v) == a + Put(b, k, v)
  {
    if a == [] {
      assert a + b == b;
    } else {
      var ab := a + b;
      var rest := a[1..] + b;
      assert ab == [a[0]] + rest;
      assert ab[1..] == rest;
      assert a[0].0 < k;
      PutAfterPrefix(a[1..], b, k, v);
      calc {
        Put(ab, k, v);
        [a[0]] + Put(rest, k, v);
        [a[0]] + (a[1..] + Put(b, k, v));
        { assert [a[0]] + a[1..] == a; }
        a + Put(b, k, v);
      }
    }
  }

  /** Insertion into `a + [x] + b` for a key that belongs in `a`. */
  lemma PutIntoLeft<V>(a: seq<Entry<V>>, x: Entry<V>, b: seq<Entry<V>>, k: int, v: V)
    requires k < x.0 && AllAbove(b, x.0)
    ensures Put(a + [x] + b, k, v) == Put(a, k, v) + [x] + b
  {
    assert AllAbove([x] + b, k);
    assert a + [x] + b == a + ([x] + b);
    PutBeforeSuffix(a, [x] + b, k, v);
  }

  /** Insertion into `a + [x] + b` for a key that belongs in `b`. */
  lemma PutIntoRight<V>(a: seq<Entry<V>>, x: Entry<V>, b: seq<Entry<V>>, k: int, v: V)
    requires x.0 < k && AllBelow(a, x.0)
    ensures Put(a + [x] + b, k, v) == a + [x] + Put(b, k, v)
  {
    assert AllBelow(a + [x], k);
    PutAfterPrefix(a + [x], b, k, v);
  }

  /** Insertion into `a + [x] + b` for the key of `x` overwrites `x`. */
  lemma PutOnto<V>(a: seq<Entry<V>>, x: Entry<V>, b: seq<Entry<V>>, v: V)
    requires AllBelow(a, x.0)
    ensures Put(a + [x] + b, x.0, v) == a + [(x.0, v)] + b
  {
    assert a + [x] + b == a + ([x] + b);
    PutAfterPrefix(a, [x] + b, x.0, v);
    assert Put([x] + b, x.0, v) == [(x.0, v)] + b;
  }

  lemma {:induction false} RemoveConcat<V>(a: seq<Entry<V>>, b: seq<Entry<V>>, k: int)
    ensures Remove(a + b, k) == Remove(a, k) + Remove(b, k)
  {
    if a == [] {
      assert a + b == b;
    } else {
      assert (a + b)[1..] == a[1..] + b;
      assert (a + b)[0] == a[0];
      RemoveConcat(a[1..], b, k);
    }
  }

  /** A lookup in a concatenation answers from the front part when it holds the key. */
  lemma {:induction false} LookupConcat<V>(a: seq<Entry<V>>, b: seq<Entry<V>>, k: int)
    ensures Lookup(a + b, k) == if HasKey(a, k) then Lookup(a, k) else Lookup(b, k)
  {
    if a == [] {
      assert a + b == b;
    } else {
      assert (a + b)[1..] == a[1..] + b;
      assert (a + b)[0] == a[0];
      HasKeyCons(a[0], a[1..], k);
      assert [a[0]] + a[1..] == a;
      LookupConcat(a[1..], b, k);
    }
  }

  /** Removing the first entry of an ascending sequence by its key is taking its tail. */
  lemma RemoveFirst<V>(s: seq<Entry<V>>)
    requires s != [] && Ascending(s)
    ensures Remove(s, s[0].0) == s[1..]
  {
    AscendingHead(s);
    RemoveAbsent(s[1..], s[0].0);
  }

  /** The reverse of an ascending snapshot is strictly descending. */
  lemma ReverseDescends<V>(s: seq<Entry<V>>)
    requires Ascending(s)
    ensures Descending(Reverse(s))
  {
  }
}
