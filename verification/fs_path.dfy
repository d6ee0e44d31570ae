/**
  Path text of the toy file tree (tasks/tree/NTree/filesystem/fs.cpp):
  `Split` cuts a string at separator characters, `JoinPath` writes a list of
  names back as an absolute path.
 */
module FsPath {

  /** The separators every path operation splits at: `/` and `\`. */
  const Separators: set<char> := {'/', '\\'}

  /** A piece `Split` can produce: non-empty, no separator inside. */
  predicate Piece(p: string, seps: set<char>) {
    p != [] && forall i :: 0 <= i < |p| ==> p[i] !in seps
  }

  predicate Pieces(ps: seq<string>, seps: set<char>) {
    forall k :: 0 <= k < |ps| ==> Piece(ps[k], seps)
  }

  /** `s` without its separator characters. */
  function Drop(s: string, seps: set<char>): string {
    if s == [] then [] else (if s[0] in seps then [] else [s[0]]) + Drop(s[1..], seps)
  }

  /** The pieces laid end to end. */
  function Flatten(ps: seq<string>): string {
    if ps == [] then [] else ps[0] + Flatten(ps[1..])
  }

  /** The loop of `Split` from character `s[0]` on, with the piece `cur`
      collected so far: a separator closes a non-empty piece, any other
      character extends it, and the end of the string closes the last one. */
  function SplitFrom(s: string, seps: set<char>, cur: string): (r: seq<string>)
    decreases |s|
  {
    if s == [] then (if cur == [] then [] else [cur])
    else if s[0] in seps then (if cur == [] then [] else [cur]) + SplitFrom(s[1..], seps, [])
    else SplitFrom(s[1..], seps, cur + [s[0]])
  }

  /** `Split(str, splitter)`: the maximal separator-free runs of `str`. */
  function Split(s: string, seps: set<char>): (r: seq<string>)
    ensures Pieces(r, seps)
    ensures Flatten(r) == Drop(s, seps)
  {
    SplitFromPieces(s, seps, []);
    SplitFromFlatten(s, seps, []);
    SplitFrom(s, seps, [])
  }

  lemma {:induction false} SplitFromPieces(s: string, seps: set<char>, cur: string)
    requires forall i :: 0 <= i < |cur| ==> cur[i] !in seps
    ensures Pieces(SplitFrom(s, seps, cur), seps)
    decreases |s|
  {
    if s != [] {
      if s[0] in seps {
        SplitFromPieces(s[1..], seps, []);
      } else {
        SplitFromPieces(s[1..], seps, cur + [s[0]]);
      }
    }
  }

  lemma {:induction false} FlattenCons(p: string, ps: seq<string>)
    ensures Flatten([p] + ps) == p + Flatten(ps)
  {
    assert ([p] + ps)[1..] == ps;
  }

  lemma {:induction false} SplitFromFlatten(s: string, seps: set<char>, cur: string)
    ensures Flatten(SplitFrom(s, seps, cur)) == cur + Drop(s, seps)
    decreases |s|
  {
    if s == [] {
      if cur != [] {
        FlattenCons(cur, []);
      }
    } else if s[0] in seps {
      SplitFromFlatten(s[1..], seps, []);
      assert Drop(s, seps) == [] + Drop(s[1..], seps);
      if cur != [] {
        FlattenCons(cur, SplitFrom(s[1..], seps, []));
      } else {
        assert [] + SplitFrom(s[1..], seps, []) == SplitFrom(s[1..], seps, []);
      }
    } else {
      SplitFromFlatten(s[1..], seps, cur + [s[0]]);
      assert cur + [s[0]] + Drop(s[1..], seps) == cur + ([s[0]] + Drop(s[1..], seps));
    }
  }

  /** `JoinPath`: `"/"` for no names, otherwise `"/" + name` for each. */
  function JoinPath(chunks: seq<string>): (r: string)
    ensures r != [] && r[0] == '/'
    ensures chunks == [] ==> r == "/"
    ensures |r| == if chunks == [] then 1 else |chunks| + |Flatten(chunks)|
  {
    if chunks == [] then "/" else
      JoinAllShape(chunks);
      JoinAll(chunks)
  }

  function JoinAll(chunks: seq<string>): string {
    if chunks == [] then [] else "/" + chunks[0] + JoinAll(chunks[1..])
  }

  lemma {:induction false} JoinAllShape(chunks: seq<string>)
    ensures chunks != [] ==> JoinAll(chunks) != [] && JoinAll(chunks)[0] == '/'
    ensures |JoinAll(chunks)| == |chunks| + |Flatten(chunks)|
  {
    if chunks != [] {
      JoinAllShape(chunks[1..]);
    }
  }

  /** Characters that are not separators pass through `SplitFrom` into the
      piece being collected. */
  lemma {:induction false} SplitFromRun(q: string, t: string, seps: set<char>, cur: string)
    requires forall i :: 0 <= i < |q| ==> q[i] !in seps
    ensures SplitFrom(q + t, seps, cur) == SplitFrom(t, seps, cur + q)
    decreases |q|
  {
    if q != [] {
      assert (q + t)[1..] == q[1..] + t;
      SplitFromRun(q[1..], t, seps, cur + [q[0]]);
      assert cur + [q[0]] + q[1..] == cur + q;
    } else {
      assert q + t == t && cur + q == cur;
    }
  }

  /** Splitting a joined path gives the names back, provided each is a
      non-empty name without separators. */
  lemma {:induction false} SplitJoinAll(ps: seq<string>)
    requires Pieces(ps, Separators)
    ensures SplitFrom(JoinAll(ps), Separators, []) == ps
  {
    if ps != [] {
      var p, rest := ps[0], ps[1..];
      var j := JoinAll(rest);
      assert JoinAll(ps) == "/" + (p + j);
      assert ("/" + (p + j))[1..] == p + j;
      SplitFromRun(p, j, Separators, []);
      assert [] + p == p;
      SplitJoinAll(rest);
      if rest == [] {
        assert ps == [p];
      } else {
        assert j[0] == '/';
      }
    }
  }

  /** `Split` undoes `JoinPath`. */
  lemma SplitJoinPath(ps: seq<string>)
    requires Pieces(ps, Separators)
    ensures Split(JoinPath(ps), Separators) == ps
  {
    if ps == [] {
      assert SplitFrom("/", Separators, []) == [] + SplitFrom([], Separators, []);
    } else {
      SplitJoinAll(ps);
    }
  }

  /** Every piece holds at least one character. */
  lemma {:induction false} FlattenLength(ps: seq<string>, seps: set<char>)
    requires Pieces(ps, seps)
    ensures |Flatten(ps)| >= |ps|
  {
    if ps != [] {
      FlattenLength(ps[1..], seps);
    }
  }

  /** A separator splits the text around it into two independent halves. */
  lemma {:induction false} SplitFromAtSeparator(a: string, c: char, b: string, seps: set<char>, cur: string)
    requires c in seps
    ensures SplitFrom(a + [c] + b, seps, cur) == SplitFrom(a, seps, cur) + SplitFrom(b, seps, [])
    decreases |a|
  {
    if a == [] {
      assert a + [c] + b == [c] + b;
      assert ([c] + b)[1..] == b;
    } else {
      assert (a + [c] + b)[1..] == a[1..] + [c] + b;
      if a[0] in seps {
        SplitFromAtSeparator(a[1..], c, b, seps, []);
      } else {
        SplitFromAtSeparator(a[1..], c, b, seps, cur + [a[0]]);
      }
    }
  }

  /** `Split(a + "/" + b)` is `Split(a)` followed by `Split(b)`. */
  lemma SplitAtSlash(a: string, b: string)
    ensures Split(a + "/" + b, Separators) == Split(a, Separators) + Split(b, Separators)
  {
    SplitFromAtSeparator(a, '/', b, Separators, []);
  }
}
