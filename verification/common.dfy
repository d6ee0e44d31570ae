/** Failure-carrying results and small sequence helpers shared by every container model. */
module Common {

  datatype Option<T> = None | Some(value: T)

  /** `Err` stands for a thrown exception, `Ok` for a normal return. */
  datatype Result<T, E> = Ok(value: T) | Err(error: E)

  /** The exception the map containers throw from `Erase`. */
  datatype MapError = KeyNotFound(key: int)

  /** `s` read back to front. */
  function Reverse<T>(s: seq<T>): (r: seq<T>)
    ensures |r| == |s|
    ensures forall i :: 0 <= i < |s| ==> r[i] == s[|s| - 1 - i]
  {
    if s == [] then [] else Reverse(s[1..]) + [s[0]]
  }

  /** Reversal turns a concatenation around: the basis of every descending snapshot. */
  lemma ReverseOfConcat<T>(a: seq<T>, x: T, b: seq<T>)
    ensures Reverse(a + [x] + b) == Reverse(b) + [x] + Reverse(a)
  {
    var lhs := Reverse(a + [x] + b);
    var rhs := Reverse(b) + [x] + Reverse(a);
    assert |lhs| == |rhs|;
    forall i | 0 <= i < |lhs| ensures lhs[i] == rhs[i] {
      if i < |b| {
        assert lhs[i] == (a + [x] + b)[|a| + |b| - i];
      } else if i == |b| {
        assert lhs[i] == (a + [x] + b)[|a|];
      } else {
        assert lhs[i] == (a + [x] + b)[|a| + |b| - i];
      }
    }
  }

  /** Reversing one more element of a prefix puts it in front. */
  lemma ReversePrefixStep<T>(s: seq<T>, i: nat)
    requires i < |s|
    ensures Reverse(s[..i + 1]) == [s[i]] + Reverse(s[..i])
  {
    ReverseOfConcat(s[..i], s[i], []);
    assert s[..i + 1] == s[..i] + [s[i]] + [];
  }

  /** Reading a sequence back to front twice gives it back. */
  lemma ReverseReverse<T>(s: seq<T>)
    ensures Reverse(Reverse(s)) == s
  {
  }
}
