/**
  `std::string`'s `operator<`: lexicographic comparison character by
  character, a proper prefix coming first. The file tree's name maps are
  ordered by it, so a listing is sorted by it.
 */
module StrOrder {

  predicate Less(a: string, b: string)
    decreases |a|
  {
    if a == [] then b != []
    else if b == [] then false
    else a[0] < b[0] || (a[0] == b[0] && Less(a[1..], b[1..]))
  }

  /** Strictly ascending: the order of a name map's keys. */
  predicate Ascending(s: seq<string>) {
    forall i, j :: 0 <= i < j < |s| ==> Less(s[i], s[j])
  }

  /** Ascending with ties allowed: the order of a merged listing. */
  predicate NonDescending(s: seq<string>) {
    forall i, j :: 0 <= i < j < |s| ==> !Less(s[j], s[i])
  }

  lemma {:induction false} LessIrreflexive(a: string)
    ensures !Less(a, a)
    decreases |a|
  {
    if a != [] {
      LessIrreflexive(a[1..]);
    }
  }

  lemma {:induction false} LessAsymmetric(a: string, b: string)
    ensures !(Less(a, b) && Less(b, a))
    decreases |a|
  {
    if a != [] && b != [] && a[0] == b[0] {
      LessAsymmetric(a[1..], b[1..]);
    }
  }

  lemma {:induction false} LessTransitive(a: string, b: string, c: string)
    requires Less(a, b) && Less(b, c)
    ensures Less(a, c)
    decreases |a|
  {
    if a != [] && a[0] == b[0] && b[0] == c[0] {
      LessTransitive(a[1..], b[1..], c[1..]);
    }
  }

  /** Any two different strings are ordered one way or the other. */
  lemma {:induction false} LessTotal(a: string, b: string)
    ensures a == b || Less(a, b) || Less(b, a)
    decreases |a|
  {
    if a != [] && b != [] && a[0] == b[0] {
      LessTotal(a[1..], b[1..]);
      if a[1..] == b[1..] {
        assert a == [a[0]] + a[1..] && b == [b[0]] + b[1..];
      }
    }
  }

  /** `!Less(a, b)` means `b` comes first or equals `a`. */
  lemma NotLess(a: string, b: string)
    requires !Less(a, b)
    ensures !Less(b, a) ==> a == b
    ensures a != b ==> Less(b, a)
  {
    LessTotal(a, b);
  }

  /** A non-empty finite set of strings has a least element. */
  lemma {:induction false} MinExists(s: set<string>)
    requires s != {}
    ensures exists m :: m in s && forall x :: x in s && x != m ==> Less(m, x)
    decreases |s|
  {
    var y :| y in s;
    var rest := s - {y};
    if rest == {} {
      assert s == {y};
      assert forall x :: x in s && x != y ==> Less(y, x);
    } else {
      MinExists(rest);
      var m :| m in rest && forall x :: x in rest && x != m ==> Less(m, x);
      LessTotal(m, y);
      if Less(m, y) {
        assert forall x :: x in s && x != m ==> Less(m, x);
      } else {
        forall x | x in s && x != y
          ensures Less(y, x)
        {
          if x != m {
            LessTransitive(y, m, x);
          }
        }
      }
    }
  }

  /** The keys of a name map in the order `Values(true)` produces them:
      repeatedly take the least name left. */
  method SortedNames(s: set<string>) returns (r: seq<string>)
    ensures Ascending(r)
    ensures multiset(r) == multiset(s)
  {
    r := [];
    var rest := s;
    while rest != {}
      invariant Ascending(r)
      invariant multiset(r) + multiset(rest) == multiset(s)
      invariant forall i, x :: 0 <= i < |r| && x in rest ==> Less(r[i], x)
      decreases |rest|
    {
      MinExists(rest);
      var m :| m in rest && forall x :: x in rest && x != m ==> Less(m, x);
      TakeLeast(r, rest, m);
      assert multiset(rest) == multiset(rest - {m}) + multiset{m};
      r := r + [m];
      rest := rest - {m};
    }
  }

  /** Appending the least name left keeps the listing ascending and below
      every name still left. */
  lemma TakeLeast(r: seq<string>, rest: set<string>, m: string)
    requires Ascending(r) && m in rest
    requires forall i, x :: 0 <= i < |r| && x in rest ==> Less(r[i], x)
    requires forall x :: x in rest && x != m ==> Less(m, x)
    ensures Ascending(r + [m])
    ensures forall i, x :: 0 <= i < |r + [m]| && x in rest - {m} ==> Less((r + [m])[i], x)
  {
    var r' := r + [m];
    forall i, x | 0 <= i < |r'| && x in rest - {m}
      ensures Less(r'[i], x)
    {
      if i < |r| {
        assert r'[i] == r[i];
      }
    }
  }
}
