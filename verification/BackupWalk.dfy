/** `walkBackup`: list every leaf below a backup directory, in ascending path order. */
module BackupWalk {
  import opened SlashPaths
  import opened Sorting
  import opened Trees
  import opened Listings

  /** The path strings of a list of leaves, relative to the root of the walk. */
  ghost function Names<V>(found: seq<(Path, V)>): seq<string>
    requires forall x | x in found :: x.0 != []
  {
    seq(|found|, i requires 0 <= i < |found| => assert found[i] in found; Join(found[i].0))
  }

  lemma NamesDistinct<V>(root: Tree<V>, found: seq<(Path, V)>)
    requires root.Dir? && WellNamed(root)
    requires multiset(found) == multiset(Leaves(root, []))
    requires forall x | x in found :: x.0 != []
    ensures NoDuplicates(Names(found))
  {
    var all := Leaves(root, []);
    LeafPathsDistinct(root, []);
    forall i, j | 0 <= i < j < |all| ensures all[i] != all[j] {
      assert all[i].0 != all[j].0;
    }
    NoDuplicatesPermutation(all, found);
    forall i, j | 0 <= i < j < |found| ensures Names(found)[i] != Names(found)[j] {
      assert found[i] in multiset(all) && found[j] in multiset(all);
      assert found[i] in all && found[j] in all;
      LeavesClean(root, [], found[i]);
      LeavesClean(root, [], found[j]);
      var k :| 0 <= k < |all| && all[k] == found[i];
      var l :| 0 <= l < |all| && all[l] == found[j];
      assert k != l;
      assert all[k].0 != all[l].0;
      if Join(found[i].0) == Join(found[j].0) {
        JoinInjective(found[i].0, found[j].0);
      }
    }
  }

  /**
   * Nothing is lost or repeated: what has been found, what lies below the stacked directories and what
   * is still to be looked at in the current directory make up the leaves of the root.
   */
  ghost predicate Walking<V>(
      root: Tree<V>, stack: seq<Item<V>>, found: seq<(Path, V)>, rest: seq<DirEntry<V>>, at: Path)
  {
    multiset(found) + StackLeaves(stack) + multiset(EntriesLeaves(rest, at)) == multiset(Leaves(root, []))
  }

  lemma {:induction false} PopDirectory<V>(root: Tree<V>, stack: seq<Item<V>>, found: seq<(Path, V)>, at: Path)
    requires stack != [] && stack[|stack| - 1].node.Dir? && Walking(root, stack, found, [], at)
    ensures
      var top := stack[|stack| - 1];
      && Walking(root, stack[..|stack| - 1], found, top.node.entries, top.path)
      && StackSize(stack[..|stack| - 1]) + EntriesSize(top.node.entries) < StackSize(stack)
  {
  }

  lemma {:induction false} VisitEntry<V>(
      root: Tree<V>, stack: seq<Item<V>>, found: seq<(Path, V)>, rest: seq<DirEntry<V>>, at: Path)
    requires rest != [] && Walking(root, stack, found, rest, at)
    ensures
      var here, node := at + [rest[0].name], rest[0].node;
      if node.Dir? then
        && Walking(root, stack + [Item(here, node)], found, rest[1..], at)
        && StackSize(stack + [Item(here, node)]) + EntriesSize(rest[1..]) == StackSize(stack) + EntriesSize(rest)
      else
        && Walking(root, stack, found + [(here, node.value)], rest[1..], at)
        && EntriesSize(rest[1..]) <= EntriesSize(rest)
  {
    var here, node := at + [rest[0].name], rest[0].node;
    assert EntriesLeaves(rest, at) == Leaves(node, here) + EntriesLeaves(rest[1..], at);
    Regroup(multiset(found), StackLeaves(stack), multiset(Leaves(node, here)), multiset(EntriesLeaves(rest[1..], at)));
    if node.Dir? {
      PushOne(stack, Item(here, node));
    }
  }

  lemma Regroup<X>(a: multiset<X>, b: multiset<X>, c: multiset<X>, d: multiset<X>)
    ensures a + b + (c + d) == a + (b + c) + d == a + c + b + d
  {
  }

  /** Every entry found so far has a name, and the output lists those names. */
  ghost predicate Named<V>(found: seq<(Path, V)>, out: seq<string>) {
    (forall x | x in found :: x.0 != []) && out == Names(found)
  }

  lemma NameOne<V>(found: seq<(Path, V)>, out: seq<string>, x: (Path, V))
    requires Named(found, out) && x.0 != []
    ensures Named(found + [x], out + [Join(x.0)])
  {
  }

  /** Terminates, and returns each leaf's path exactly once, strictly ascending; no name is skipped. */
  method WalkBackup<V>(root: Tree<V>) returns (paths: seq<string>, ghost found: seq<(Path, V)>)
    requires root.Dir? && WellNamed(root)
    ensures multiset(found) == multiset(Leaves(root, []))
    ensures forall x | x in found :: x.0 != []
    ensures multiset(paths) == multiset(Names(found))
    ensures StrictlyAscending(Less, paths)
  {
    hide WellNamed, StrictlyAscending, Less, Join, StackLeaves, StackSize, EntriesSize, EntriesLeaves, Leaves, Walking,
      Named;
    WalkStarts(root);
    var out: seq<string> := [];
    found := [];
    var stack := [Item([], root)];
    ghost var at: Path := [];
    while stack != []
      invariant forall it | it in stack :: it.node.Dir?
      invariant Walking(root, stack, found, [], at)
      invariant Named(found, out)
      decreases StackSize(stack)
    {
      ghost var size := StackSize(stack);
      PopDirectory(root, stack, found, at);
      var current := stack[|stack| - 1];
      stack := stack[..|stack| - 1];
      at := current.path;
      var entries := current.node.entries;
      for i := 0 to |entries|
        invariant forall it | it in stack :: it.node.Dir?
        invariant Walking(root, stack, found, entries[i..], at)
        invariant StackSize(stack) + EntriesSize(entries[i..]) < size
        invariant Named(found, out)
      {
        VisitEntry(root, stack, found, entries[i..], at);
        assert entries[i..][1..] == entries[i + 1..];
        var here := current.path + [entries[i].name];
        if entries[i].node.Dir? {
          stack := stack + [Item(here, entries[i].node)];
        } else {
          NameOne(found, out, (here, entries[i].node.value));
          out := out + [Join(here)];
          found := found + [(here, entries[i].node.value)];
        }
      }
    }
    WalkEnds(root, found, out, at);
    paths := Sort(Less, out);
  }

  lemma WalkStarts<V>(root: Tree<V>)
    ensures Walking(root, [Item([], root)], [], [], [])
    ensures Named<V>([], [])
  {
    assert [Item([], root)][..0] == [];
  }

  lemma WalkEnds<V>(root: Tree<V>, found: seq<(Path, V)>, out: seq<string>, at: Path)
    requires root.Dir? && WellNamed(root)
    requires Walking(root, [], found, [], at) && Named(found, out)
    ensures multiset(found) == multiset(Leaves(root, []))
    ensures (forall x | x in found :: x.0 != []) && out == Names(found)
    ensures StrictlyAscending(Less, Sort(Less, out))
  {
    SortedNames(root, found);
  }

  lemma SortedNames<V>(root: Tree<V>, found: seq<(Path, V)>)
    requires root.Dir? && WellNamed(root)
    requires multiset(found) == multiset(Leaves(root, []))
    requires forall x | x in found :: x.0 != []
    ensures StrictlyAscending(Less, Sort(Less, Names(found)))
  {
    NamesDistinct(root, found);
    LessStrictTotal(multiset(Names(found)));
    SortStrict(Less, Names(found));
  }

  /** The walk over a listing of a flat set of files returns exactly the names of those files. */
  lemma WalkCovers<V>(listing: Tree<V>, files: map<string, V>, found: seq<(Path, V)>, paths: seq<string>)
    requires Lists(listing, files)
    requires multiset(found) == multiset(Leaves(listing, []))
    requires forall x | x in found :: x.0 != []
    requires multiset(paths) == multiset(Names(found))
    ensures forall p :: p in paths <==> p in files
  {
    forall p ensures p in paths <==> p in files {
      if p in paths {
        assert p in multiset(Names(found));
        var i :| 0 <= i < |found| && Names(found)[i] == p;
        assert found[i] in multiset(found);
        assert found[i] in Leaves(listing, []);
      }
      if p in files {
        var x :| x in Leaves(listing, []) && x.0 != [] && Join(x.0) == p;
        assert x in multiset(found);
        var i :| 0 <= i < |found| && found[i] == x;
        assert Names(found)[i] == p;
        assert p in multiset(Names(found));
        assert p in multiset(paths);
      }
    }
  }
}
