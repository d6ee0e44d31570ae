/**
  The merge at the end of `ListFiles` in tasks/tree/NTree/filesystem/fs.cpp:
  two name lists, each in map order, become one listing.
 */
module Merging {
  import opened StrOrder

  /** The loop of `ListFiles`: take the next directory name when no file
      name is left or when it is strictly smaller than the next file name,
      otherwise take the next file name. */
  method Merge(cd: seq<string>, cf: seq<string>) returns (out: seq<string>)
    ensures multiset(out) == multiset(cd) + multiset(cf)
    ensures Ascending(cd) && Ascending(cf) ==> NonDescending(out)
  {
    out := [];
    var i, j := 0, 0;
    while i < |cd| || j < |cf|
      invariant MergeInv(out, cd, i, cf, j)
      decreases |cd| - i + |cf| - j
    {
      if j >= |cf| || (i < |cd| && Less(cd[i], cf[j])) {
        StepDir(out, cd, i, cf, j);
        out := out + [cd[i]];
        i := i + 1;
      } else {
        StepFile(out, cd, i, cf, j);
        out := out + [cf[j]];
        j := j + 1;
      }
    }
    assert cd[..i] == cd && cf[..j] == cf;
  }

  /** The loop invariant of `Merge`: the output holds exactly the names
      taken so far and, when both lists are ascending, is in order. */
  predicate MergeInv(out: seq<string>, cd: seq<string>, i: nat, cf: seq<string>, j: nat) {
    i <= |cd| && j <= |cf|
    && multiset(out) == multiset(cd[..i]) + multiset(cf[..j])
    && (Ascending(cd) && Ascending(cf) ==> Merged(out, cd, i, cf, j))
  }

  lemma StepDir(out: seq<string>, cd: seq<string>, i: nat, cf: seq<string>, j: nat)
    requires MergeInv(out, cd, i, cf, j) && i < |cd|
    requires j < |cf| ==> Less(cd[i], cf[j])
    ensures MergeInv(out + [cd[i]], cd, i + 1, cf, j)
  {
    if Ascending(cd) && Ascending(cf) {
      TakeDir(out, cd, i, cf, j);
    }
    TakeLeft(out, cd, i, multiset(cf[..j]));
  }

  lemma StepFile(out: seq<string>, cd: seq<string>, i: nat, cf: seq<string>, j: nat)
    requires MergeInv(out, cd, i, cf, j) && j < |cf|
    requires i < |cd| ==> !Less(cd[i], cf[j])
    ensures MergeInv(out + [cf[j]], cd, i, cf, j + 1)
  {
    if Ascending(cd) && Ascending(cf) {
      TakeFile(out, cd, i, cf, j);
    }
    TakeRight(out, multiset(cd[..i]), cf, j);
  }

  /** What `Merge` keeps while it runs on two ascending lists: the output is
      sorted and no output name comes after either head still to take. */
  predicate Merged(out: seq<string>, cd: seq<string>, i: nat, cf: seq<string>, j: nat) {
    Ascending(cd) && Ascending(cf) && NonDescending(out)
    && (i < |cd| ==> NoneAbove(out, cd[i]))
    && (j < |cf| ==> NoneAbove(out, cf[j]))
  }

  lemma TakeDir(out: seq<string>, cd: seq<string>, i: nat, cf: seq<string>, j: nat)
    requires i < |cd| && j <= |cf| && Merged(out, cd, i, cf, j)
    requires j < |cf| ==> Less(cd[i], cf[j])
    ensures Merged(out + [cd[i]], cd, i + 1, cf, j)
  {
    if j < |cf| {
      LessAsymmetric(cd[i], cf[j]);
    }
    TakeNext(out, cd, i, cf, j);
  }

  lemma TakeFile(out: seq<string>, cd: seq<string>, i: nat, cf: seq<string>, j: nat)
    requires i <= |cd| && j < |cf| && Merged(out, cd, i, cf, j)
    requires i < |cd| ==> !Less(cd[i], cf[j])
    ensures Merged(out + [cf[j]], cd, i, cf, j + 1)
  {
    TakeNext(out, cf, j, cd, i);
  }

  lemma TakeLeft(out: seq<string>, a: seq<string>, i: nat, m: multiset<string>)
    requires i < |a| && multiset(out) == multiset(a[..i]) + m
    ensures multiset(out + [a[i]]) == multiset(a[..i + 1]) + m
  {
    assert a[..i + 1] == a[..i] + [a[i]];
  }

  lemma TakeRight(out: seq<string>, m: multiset<string>, b: seq<string>, j: nat)
    requires j < |b| && multiset(out) == m + multiset(b[..j])
    ensures multiset(out + [b[j]]) == m + multiset(b[..j + 1])
  {
    assert b[..j + 1] == b[..j] + [b[j]];
  }

  /** No name of `out` comes after `x`. */
  predicate NoneAbove(out: seq<string>, x: string) {
    forall k :: 0 <= k < |out| ==> !Less(x, out[k])
  }

  /** Appending the head `a[i]` of one ascending list, when it is not above
      the head `b[j]` of the other, keeps the output sorted and below both
      heads that remain. */
  lemma TakeNext(out: seq<string>, a: seq<string>, i: nat, b: seq<string>, j: nat)
    requires Ascending(a) && Ascending(b) && i < |a| && j <= |b|
    requires NonDescending(out)
    requires NoneAbove(out, a[i])
    requires j < |b| ==> NoneAbove(out, b[j])
    requires j < |b| ==> !Less(b[j], a[i])
    ensures NonDescending(out + [a[i]])
    ensures i + 1 < |a| ==> NoneAbove(out + [a[i]], a[i + 1])
    ensures j < |b| ==> NoneAbove(out + [a[i]], b[j])
  {
    var o := out + [a[i]];
    if i + 1 < |a| {
      forall k | 0 <= k < |o|
        ensures !Less(a[i + 1], o[k])
      {
        LessAsymmetric(a[i], a[i + 1]);
        if k < |out| && Less(a[i + 1], o[k]) {
          LessTransitive(a[i], a[i + 1], o[k]);
        }
      }
    }
  }
}
