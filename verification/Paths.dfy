/** Absolute canonical paths and the string comparisons made on them
    (src/ghost/perms/permfs.c, lines 181-193). */
module Paths {
  import opened Basics

  // ---------- C strings ----------

  /** `strncmp` finds no difference between the two from `i` up to `n`. */
  predicate SameChars(a: string, b: string, i: nat, n: nat)
    decreases n - i
  {
    i >= n || (CharAt(a, i) == CharAt(b, i) && (CharAt(a, i) == NUL || SameChars(a, b, i + 1, n)))
  }

  lemma {:induction false} SameCharsMeaning(a: string, b: string, i: nat, n: nat)
    requires NUL !in a && NUL !in b && i <= |a| && i <= |b| && i <= n
    ensures SameChars(a, b, i, n) <==> (if n <= |a| && n <= |b| then a[i..n] == b[i..n] else a[i..] == b[i..])
    decreases n - i
  {
    if i < n && i < |a| && i < |b| && a[i] == b[i] {
      SameCharsMeaning(a, b, i + 1, n);
      assert a[i..] == [a[i]] + a[i + 1..] && b[i..] == [b[i]] + b[i + 1..];
      if n <= |a| && n <= |b| {
        assert a[i..n] == [a[i]] + a[i + 1..n] && b[i..n] == [b[i]] + b[i + 1..n];
      }
    }
  }

  // ---------- paths ----------

  /** A path component. */
  predicate IsComponent(c: string) {
    c != "" && '/' !in c && NUL !in c
  }

  predicate AreComponents(cs: seq<string>) {
    forall c | c in cs :: IsComponent(c)
  }

  function Joined(cs: seq<string>): string {
    if cs == [] then "" else "/" + cs[0] + Joined(cs[1..])
  }

  /** The absolute canonical path with these components. */
  function PathOf(cs: seq<string>): string {
    if cs == [] then "/" else Joined(cs)
  }

  /** The test for an entry of an ancestor directory, as the code makes it. */
  predicate Below(entry: string, path: string) {
    SameChars(entry, path, 0, |entry|) && CharAt(path, |entry|) == '/'
  }

  predicate Exact(entry: string, path: string) {
    SameChars(entry, path, 0, |path| + 1)
  }

  lemma {:induction false} ExactMeaning(entry: string, path: string)
    requires NUL !in entry && NUL !in path
    ensures Exact(entry, path) <==> entry == path
  {
    SameCharsMeaning(entry, path, 0, |path| + 1);
    assert entry[0..] == entry && path[0..] == path;
  }

  lemma {:induction false} BelowMeaning(entry: string, path: string)
    requires NUL !in entry && NUL !in path
    ensures Below(entry, path) <==> entry <= path && |entry| < |path| && path[|entry|] == '/'
  {
    SameCharsMeaning(entry, path, 0, |entry|);
    assert entry[0..] == entry && path[0..] == path && entry[0..|entry|] == entry;
    if |entry| <= |path| {
      assert path[0..|entry|] == path[..|entry|];
    }
  }

  lemma {:induction false} JoinedShape(cs: seq<string>)
    requires AreComponents(cs)
    ensures NUL !in Joined(cs) && (cs != [] ==> Joined(cs)[0] == '/' && |Joined(cs)| >= 2)
  {
    if cs != [] {
      assert IsComponent(cs[0]);
      JoinedShape(cs[1..]);
      assert Joined(cs) == "/" + cs[0] + Joined(cs[1..]);
    }
  }

  /** Two components followed by a slash or the end, at the same place, are equal. */
  lemma {:induction false} SameComponent(c: string, x: string, d: string, y: string)
    requires IsComponent(c) && IsComponent(d)
    requires x == "" || x[0] == '/'
    requires d + y <= c + x && (y != "" ==> y[0] == '/') && (y == "" ==> |d| < |c + x| && (c + x)[|d|] == '/')
    ensures c == d
  {
    var s := c + x;
    assert forall i | 0 <= i < |c| :: s[i] == c[i] && c[i] != '/';
    assert forall i | 0 <= i < |d| :: (d + y)[i] == d[i] == s[i] && d[i] != '/';
    assert y != "" ==> (d + y)[|d|] == y[0] == s[|d|];
    assert x != "" ==> s[|c|] == x[0];
    assert |c| == |d|;
    assert c == s[..|c|] == d;
  }

  ghost predicate Under(a: string, b: string) {
    a <= b && |a| < |b| && b[|a|] == '/'
  }

  lemma {:induction false} UnderCancel(h: string, y: string, x: string)
    ensures Under(h + y, h + x) <==> Under(y, x)
  {
    assert (h + y)[|h|..] == y && (h + x)[|h|..] == x;
    assert h + y <= h + x <==> y <= x;
  }

  lemma {:induction false} UnderJoined(ds: seq<string>, cs: seq<string>)
    requires AreComponents(ds) && AreComponents(cs) && ds != []
    ensures Under(Joined(ds), Joined(cs)) <==> ds < cs
    decreases |ds|
  {
    if cs != [] {
      assert IsComponent(ds[0]) && IsComponent(cs[0]);
      JoinedShape(ds[1..]);
      JoinedShape(cs[1..]);
      var d, y, c, x := ds[0], Joined(ds[1..]), cs[0], Joined(cs[1..]);
      assert Joined(ds) == "/" + (d + y) && Joined(cs) == "/" + (c + x);
      UnderCancel("/", d + y, c + x);
      if d == c {
        UnderCancel(d, y, x);
        assert ds == [d] + ds[1..] && cs == [c] + cs[1..];
        assert ds < cs <==> ds[1..] < cs[1..];
        if ds[1..] != [] {
          UnderJoined(ds[1..], cs[1..]);
        }
      } else if Under(d + y, c + x) {
        SameComponent(c, x, d, y);
      }
    }
  }

  /** On canonical paths the test recognises exactly the proper ancestors, except
      the root directory, whose entry is never an ancestor. */
  lemma {:induction false} BelowIsProperAncestorExceptRoot(ds: seq<string>, cs: seq<string>)
    requires AreComponents(ds) && AreComponents(cs)
    ensures Below(PathOf(ds), PathOf(cs)) <==> ds < cs && ds != []
  {
    JoinedShape(cs);
    JoinedShape(ds);
    BelowMeaning(PathOf(ds), PathOf(cs));
    if ds == [] {
      if cs != [] {
        assert IsComponent(cs[0]);
        assert Joined(cs) == "/" + cs[0] + Joined(cs[1..]);
        assert Joined(cs)[1] == cs[0][0];
        assert cs[0][0] in cs[0];
      }
    } else {
      UnderJoined(ds, cs);
    }
  }

  lemma {:induction false} PathDeterminesComponents(ds: seq<string>, cs: seq<string>)
    requires AreComponents(ds) && AreComponents(cs)
    ensures PathOf(ds) == PathOf(cs) <==> ds == cs
    decreases |ds|
  {
    JoinedShape(cs);
    JoinedShape(ds);
    if ds != [] && cs != [] && Joined(ds) == Joined(cs) {
      JoinedShape(ds[1..]);
      JoinedShape(cs[1..]);
      assert IsComponent(ds[0]) && IsComponent(cs[0]);
      var d, y, c, x := ds[0], Joined(ds[1..]), cs[0], Joined(cs[1..]);
      assert Joined(ds)[1..] == d + y && Joined(cs)[1..] == c + x;
      assert forall i | 0 <= i < |c| :: (c + x)[i] == c[i] && c[i] != '/';
      assert forall i | 0 <= i < |d| :: (d + y)[i] == d[i] && d[i] != '/';
      assert y != "" ==> (d + y)[|d|] == y[0] == '/';
      assert x != "" ==> (c + x)[|c|] == x[0] == '/';
      assert |c| == |d|;
      assert d == (d + y)[..|d|] && c == (c + x)[..|d|];
      assert y == (d + y)[|d|..] && x == (c + x)[|d|..];
      assert ds[1..] == [] ==> y == "";
      assert cs[1..] == [] ==> x == "";
      if ds[1..] != [] && cs[1..] != [] {
        PathDeterminesComponents(ds[1..], cs[1..]);
      }
      assert ds == [d] + ds[1..] && cs == [c] + cs[1..];
    }
  }
}
