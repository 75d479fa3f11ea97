/** Directory listings of flat sets of files: when a listing exists, and what it contains. */
module Listings {
  import opened SlashPaths
  import opened Trees

  /** A listing of a flat set of files: each file is one leaf, each leaf is one file. */
  ghost predicate Lists<V>(listing: Tree<V>, files: map<string, V>) {
    && listing.Dir? && WellNamed(listing)
    && (forall x | x in Leaves(listing, []) :: x.0 != [] && Join(x.0) in files && files[Join(x.0)] == x.1)
    && (forall p | p in files :: exists x :: x in Leaves(listing, []) && x.0 != [] && Join(x.0) == p)
  }

  lemma ListsNamed<V>(listing: Tree<V>, files: map<string, V>)
    requires Lists(listing, files)
    ensures listing.Dir? && WellNamed(listing)
  {
  }

  // ---- which sets of files a directory can hold ------------------------------------------------

  /** One path is the other, or leads through it. */
  predicate Through(a: Path, b: Path) {
    |a| <= |b| && b[..|a|] == a
  }

  predicate CleanName(path: string) {
    forall i | 0 <= i < |Split(path)| :: Split(path)[i] != ""
  }

  /** The path can be written into a directory holding these files: no file is on the way, none lies below. */
  predicate Fits<V>(files: map<string, V>, path: string) {
    && CleanName(path)
    && forall k | k in files :: k == path || !(Through(Split(k), Split(path)) || Through(Split(path), Split(k)))
  }

  /** Every file of the set can be in the directory beside the others. */
  ghost predicate Listable<V>(files: map<string, V>) {
    forall k | k in files :: Fits(files, k)
  }

  lemma ListableGrows<V>(files: map<string, V>, path: string, v: V)
    requires Listable(files) && Fits(files, path)
    ensures Listable(files[path := v])
  {
    var more := files[path := v];
    forall k | k in more ensures Fits(more, k) {
      if k in files { assert Fits(files, k); }
    }
  }

  lemma ListableShrinks<V>(files: map<string, V>, fewer: map<string, V>)
    requires Listable(files) && fewer.Keys <= files.Keys
    ensures Listable(fewer)
  {
    forall k | k in fewer ensures Fits(fewer, k) {
      assert Fits(files, k);
    }
  }

  // ---- every such set has a listing ------------------------------------------------------------

  function Chain<V>(path: Path, v: V): Tree<V> {
    if path == [] then Leaf(v) else Dir([DirEntry(path[0], Chain(path[1..], v))])
  }

  function Put<V>(entries: seq<DirEntry<V>>, path: Path, v: V): seq<DirEntry<V>>
    requires path != []
    decreases |path|, |entries|
  {
    if entries == [] then [DirEntry(path[0], Chain(path[1..], v))]
    else if entries[0].name != path[0] then [entries[0]] + Put(entries[1..], path, v)
    else if |path| == 1 || entries[0].node.Leaf? then entries
    else [DirEntry(path[0], Dir(Put(entries[0].node.entries, path[1..], v)))] + entries[1..]
  }

  /** No directory of the tree is empty. */
  ghost predicate NoEmpty<V>(t: Tree<V>) {
    t.Dir? ==> t.entries != [] && EntriesNoEmpty(t.entries)
  }

  ghost predicate EntriesNoEmpty<V>(entries: seq<DirEntry<V>>) {
    entries != [] ==> NoEmpty(entries[0].node) && EntriesNoEmpty(entries[1..])
  }

  lemma {:induction false} SomeLeaf<V>(t: Tree<V>, at: Path) returns (x: (Path, V))
    requires NoEmpty(t)
    ensures x in Leaves(t, at)
  {
    if t.Leaf? {
      x := (at, t.value);
    } else {
      x := SomeLeaf(t.entries[0].node, at + [t.entries[0].name]);
    }
  }

  lemma {:induction false} ChainLeaves<V>(path: Path, v: V, at: Path)
    requires CleanPath(path)
    ensures Leaves(Chain(path, v), at) == [(at + path, v)]
    ensures WellNamed(Chain(path, v)) && NoEmpty(Chain(path, v))
  {
    if path == [] {
      assert at + path == at;
    } else {
      ChainLeaves(path[1..], v, at + [path[0]]);
      assert at + [path[0]] + path[1..] == at + path;
      var entries := [DirEntry(path[0], Chain(path[1..], v))];
      assert entries[1..] == [] && Chain(path, v) == Dir(entries);
      assert EntriesLeaves(entries, at) == Leaves(entries[0].node, at + [path[0]]) + EntriesLeaves(entries[1..], at);
    }
  }

  /** No leaf lies on the path and the path does not end inside the tree. */
  ghost predicate FreeFor<V>(leaves: seq<(Path, V)>, p: Path) {
    forall x | x in leaves :: !Through(x.0, p) && !Through(p, x.0)
  }

  lemma NamesAfterPut<V>(entries: seq<DirEntry<V>>, path: Path, v: V, name: string)
    requires path != [] && name != path[0]
    requires forall i | 0 <= i < |entries| :: entries[i].name != name
    ensures forall i | 0 <= i < |Put(entries, path, v)| :: Put(entries, path, v)[i].name != name
    decreases |entries|
  {
    if entries != [] && entries[0].name != path[0] {
      NamesAfterPut(entries[1..], path, v, name);
    }
  }

  /** A file cannot be written where a file or a directory of that name already is. */
  lemma Blocked<V>(entries: seq<DirEntry<V>>, at: Path, path: Path)
    requires path != [] && entries != [] && EntriesNoEmpty(entries) && entries[0].name == path[0]
    requires |path| == 1 || entries[0].node.Leaf?
    ensures !FreeFor(EntriesLeaves(entries, at), at + path)
  {
    var here := at + [path[0]];
    var x := SomeLeaf(entries[0].node, here);
    LeavesBelow(entries[0].node, here, x);
    assert x in EntriesLeaves(entries, at);
    assert (at + path)[..|here|] == here;
    assert |path| == 1 ==> at + path == here;
  }

  lemma NamedCons<V>(e: DirEntry<V>, rest: seq<DirEntry<V>>)
    requires EntriesNamed(rest) && EntriesNoEmpty(rest)
    requires e.name != "" && SLASH !in e.name && WellNamed(e.node) && NoEmpty(e.node)
    requires forall i | 0 <= i < |rest| :: rest[i].name != e.name
    ensures EntriesNamed([e] + rest) && EntriesNoEmpty([e] + rest)
  {
    assert ([e] + rest)[1..] == rest;
    assert forall i | 1 <= i < |[e] + rest| :: ([e] + rest)[i] == rest[i - 1];
  }

  lemma DirNamed<V>(entries: seq<DirEntry<V>>)
    requires entries != [] && EntriesNamed(entries) && EntriesNoEmpty(entries)
    ensures WellNamed(Dir(entries)) && NoEmpty(Dir(entries))
  {
  }

  lemma {:induction false} NamedParts<V>(entries: seq<DirEntry<V>>)
    requires entries != [] && EntriesNamed(entries) && EntriesNoEmpty(entries)
    ensures
      var e, rest := entries[0], entries[1..];
      && EntriesNamed(rest) && EntriesNoEmpty(rest)
      && e.name != "" && SLASH !in e.name && WellNamed(e.node) && NoEmpty(e.node)
      && forall i | 0 <= i < |rest| :: rest[i].name != e.name
  {
    assert forall i | 0 <= i < |entries[1..]| :: entries[1..][i] == entries[i + 1];
  }

  lemma FirstLeaves<V>(entries: seq<DirEntry<V>>, at: Path)
    requires entries != []
    ensures multiset(EntriesLeaves(entries, at))
         == multiset(Leaves(entries[0].node, at + [entries[0].name])) + multiset(EntriesLeaves(entries[1..], at))
  {
    assert EntriesLeaves(entries, at)
        == Leaves(entries[0].node, at + [entries[0].name]) + EntriesLeaves(entries[1..], at);
  }

  lemma Swap<X>(a: multiset<X>, b: multiset<X>, x: X)
    ensures a + (b + multiset{x}) == (a + b) + multiset{x} == (a + multiset{x}) + b
  {
  }

  /** Writing one more file adds exactly that leaf. */
  lemma {:induction false} PutLeaves<V>(entries: seq<DirEntry<V>>, at: Path, path: Path, v: V)
    requires path != [] && CleanPath(path)
    requires EntriesNamed(entries) && EntriesNoEmpty(entries)
    requires FreeFor(EntriesLeaves(entries, at), at + path)
    ensures multiset(EntriesLeaves(Put(entries, path, v), at))
         == multiset(EntriesLeaves(entries, at)) + multiset{(at + path, v)}
    ensures EntriesNamed(Put(entries, path, v)) && EntriesNoEmpty(Put(entries, path, v)) && Put(entries, path, v) != []
    decreases |path|, |entries|
  {
    assert at + [path[0]] + path[1..] == at + path;
    if entries == [] {
      ChainLeaves(path[1..], v, at + [path[0]]);
      assert EntriesLeaves(Put(entries, path, v), at) == [(at + path, v)] + [];
    } else if entries[0].name != path[0] {
      PutBeyond(entries, at, path, v);
    } else {
      if |path| == 1 || entries[0].node.Leaf? { Blocked(entries, at, path); }
      PutWithin(entries, at, path, v);
    }
  }

  /** The first entry stays, the rest is extended. */
  lemma PutBeyond<V>(entries: seq<DirEntry<V>>, at: Path, path: Path, v: V)
    requires path != [] && CleanPath(path) && entries != [] && entries[0].name != path[0]
    requires EntriesNamed(entries) && EntriesNoEmpty(entries)
    requires FreeFor(EntriesLeaves(entries, at), at + path)
    ensures multiset(EntriesLeaves(Put(entries, path, v), at))
         == multiset(EntriesLeaves(entries, at)) + multiset{(at + path, v)}
    ensures EntriesNamed(Put(entries, path, v)) && EntriesNoEmpty(Put(entries, path, v))
    decreases |path|, |entries|, 0
  {
    var e, rest, r := entries[0], entries[1..], Put(entries, path, v);
    assert r == [e] + Put(rest, path, v) && r[1..] == Put(rest, path, v) && r[0] == e;
    FirstLeaves(entries, at);
    FirstLeaves(r, at);
    NamedParts(entries);
    assert EntriesLeaves(entries, at) == Leaves(e.node, at + [e.name]) + EntriesLeaves(rest, at);
    hide EntriesLeaves, Leaves, Put, NoEmpty, WellNamed, EntriesNamed, EntriesNoEmpty, CleanPath;
    PutLeaves(rest, at, path, v);
    NamesAfterPut(rest, path, v, e.name);
    NamedCons(e, Put(rest, path, v));
    Swap(multiset(Leaves(e.node, at + [e.name])), multiset(EntriesLeaves(rest, at)), (at + path, v));
  }

  /** The first entry is extended, the rest stays. */
  lemma PutWithin<V>(entries: seq<DirEntry<V>>, at: Path, path: Path, v: V)
    requires |path| > 1 && CleanPath(path) && entries != [] && entries[0].name == path[0] && entries[0].node.Dir?
    requires EntriesNamed(entries) && EntriesNoEmpty(entries)
    requires FreeFor(EntriesLeaves(entries, at), at + path)
    ensures multiset(EntriesLeaves(Put(entries, path, v), at))
         == multiset(EntriesLeaves(entries, at)) + multiset{(at + path, v)}
    ensures EntriesNamed(Put(entries, path, v)) && EntriesNoEmpty(Put(entries, path, v))
    decreases |path|, |entries|, 0
  {
    hide EntriesLeaves, Leaves, Put, NoEmpty, WellNamed, EntriesNamed, EntriesNoEmpty, CleanPath;
    var e, rest, r := entries[0], entries[1..], Put(entries, path, v);
    var inner, here := e.node.entries, at + [e.name];
    var below := Put(inner, path[1..], v);
    PutInto(entries, path, v);
    DirLeaves(entries, at);
    DirLeaves(r, at);
    NamedParts(entries);
    InnerNamed(inner);
    CleanRest(path);
    assert here + path[1..] == at + path;
    PutLeaves(inner, here, path[1..], v);
    DirNamed(below);
    NamedCons(r[0], rest);
    Swap(multiset(EntriesLeaves(inner, here)), multiset(EntriesLeaves(rest, at)), (at + path, v));
  }

  lemma PutInto<V>(entries: seq<DirEntry<V>>, path: Path, v: V)
    requires |path| > 1 && entries != [] && entries[0].name == path[0] && entries[0].node.Dir?
    ensures Put(entries, path, v) == [DirEntry(path[0], Dir(Put(entries[0].node.entries, path[1..], v)))] + entries[1..]
  {
  }

  lemma {:induction false} DirLeaves<V>(entries: seq<DirEntry<V>>, at: Path)
    requires entries != [] && entries[0].node.Dir?
    ensures
      var inner := EntriesLeaves(entries[0].node.entries, at + [entries[0].name]);
      var rest := EntriesLeaves(entries[1..], at);
      EntriesLeaves(entries, at) == inner + rest
  {
  }

  lemma InnerNamed<V>(inner: seq<DirEntry<V>>)
    requires WellNamed(Dir(inner)) && NoEmpty(Dir(inner))
    ensures EntriesNamed(inner) && EntriesNoEmpty(inner)
  {
  }

  lemma CleanRest(path: Path)
    requires path != [] && CleanPath(path)
    ensures CleanPath(path[1..])
  {
  }

  /** Every listable set of files has a directory listing. */
  lemma {:induction false} ListingExists<V>(files: map<string, V>) returns (t: Tree<V>)
    requires Listable(files)
    ensures Lists(t, files) && EntriesNoEmpty(t.entries)
    decreases |files|
  {
    if files == map[] {
      t := Dir([]);
    } else {
      var k :| k in files;
      var fewer := files - {k};
      ListableShrinks(files, fewer);
      assert files.Keys == fewer.Keys + {k};
      var smaller := ListingExists(fewer);
      var path := Split(k);
      SplitSlashFree(k);
      JoinSplit(k);
      assert Fits(files, k);
      forall x | x in EntriesLeaves(smaller.entries, []) ensures !Through(x.0, path) && !Through(path, x.0) {
        assert x in Leaves(smaller, []);
        EntriesLeavesClean(smaller.entries, [], x);
        SplitJoin(x.0);
        assert Join(x.0) in fewer;
      }
      assert [] + path == path;
      PutLeaves(smaller.entries, [], path, files[k]);
      t := Dir(Put(smaller.entries, path, files[k]));
      ListsMore(smaller, fewer, t, files, k, path);
    }
  }

  lemma ListsMore<V>(smaller: Tree<V>, fewer: map<string, V>, t: Tree<V>, files: map<string, V>, k: string, path: Path)
    requires k in files && fewer == files - {k} && path != [] && Join(path) == k
    requires Lists(smaller, fewer) && t.Dir? && WellNamed(t)
    requires multiset(Leaves(t, [])) == multiset(Leaves(smaller, [])) + multiset{(path, files[k])}
    ensures Lists(t, files)
  {
    forall x | x in Leaves(t, []) ensures x.0 != [] && Join(x.0) in files && files[Join(x.0)] == x.1 {
      assert x in multiset(Leaves(t, []));
      assert x == (path, files[k]) || x in Leaves(smaller, []);
    }
    forall p | p in files ensures exists x :: x in Leaves(t, []) && x.0 != [] && Join(x.0) == p {
      if p == k {
        assert (path, files[k]) in multiset(Leaves(t, []));
      } else {
        assert p in fewer;
        var x :| x in Leaves(smaller, []) && x.0 != [] && Join(x.0) == p;
        assert x in multiset(Leaves(t, []));
      }
    }
  }
}
