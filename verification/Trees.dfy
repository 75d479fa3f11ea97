/** Directory trees as `readdir` shows them, and what a stack-driven walk over one collects. */
module Trees {
  import opened Sorting
  import opened SlashPaths

  datatype Tree<V> = Leaf(value: V) | Dir(entries: seq<DirEntry<V>>)
  datatype DirEntry<V> = DirEntry(name: string, node: Tree<V>)

  /** Names from the root of the walk down. */
  type Path = seq<string>

  /** One item of a walk's worklist: a node and where it is. */
  datatype Item<V> = Item(path: Path, node: Tree<V>)

  // ---- sizes, for termination ------------------------------------------------------------------

  function Size<V>(t: Tree<V>): nat
    ensures Size(t) > 0
  {
    if t.Leaf? then 1 else 1 + EntriesSize(t.entries)
  }

  function EntriesSize<V>(entries: seq<DirEntry<V>>): nat {
    if entries == [] then 0 else Size(entries[0].node) + EntriesSize(entries[1..])
  }

  function StackSize<V>(stack: seq<Item<V>>): nat {
    if stack == [] then 0 else StackSize(stack[..|stack| - 1]) + Size(stack[|stack| - 1].node)
  }

  // ---- the leaves below a node -----------------------------------------------------------------

  ghost function Leaves<V>(t: Tree<V>, at: Path): seq<(Path, V)> {
    if t.Leaf? then [(at, t.value)] else EntriesLeaves(t.entries, at)
  }

  ghost function EntriesLeaves<V>(entries: seq<DirEntry<V>>, at: Path): seq<(Path, V)> {
    if entries == [] then []
    else Leaves(entries[0].node, at + [entries[0].name]) + EntriesLeaves(entries[1..], at)
  }

  ghost function StackLeaves<V>(stack: seq<Item<V>>): multiset<(Path, V)> {
    if stack == [] then multiset{}
    else
      var top := stack[|stack| - 1];
      StackLeaves(stack[..|stack| - 1]) + multiset(Leaves(top.node, top.path))
  }

  /** The children of a directory, pushed in listing order. */
  function Items<V>(entries: seq<DirEntry<V>>, at: Path): seq<Item<V>> {
    seq(|entries|, i requires 0 <= i < |entries| => Item(at + [entries[i].name], entries[i].node))
  }

  lemma PushOne<V>(stack: seq<Item<V>>, it: Item<V>)
    ensures StackLeaves(stack + [it]) == StackLeaves(stack) + multiset(Leaves(it.node, it.path))
    ensures StackSize(stack + [it]) == StackSize(stack) + Size(it.node)
  {
    assert (stack + [it])[..|stack|] == stack;
  }

  /** Pushing a directory's children replaces the directory by what is below it. */
  lemma {:induction false} PushEntries<V>(stack: seq<Item<V>>, entries: seq<DirEntry<V>>, at: Path)
    ensures StackLeaves(stack + Items(entries, at)) == StackLeaves(stack) + multiset(EntriesLeaves(entries, at))
    ensures StackSize(stack + Items(entries, at)) == StackSize(stack) + EntriesSize(entries)
    decreases |entries|
  {
    if entries == [] {
      assert stack + Items(entries, at) == stack;
    } else {
      var first := Item(at + [entries[0].name], entries[0].node);
      assert stack + Items(entries, at) == (stack + [first]) + Items(entries[1..], at);
      PushEntries(stack + [first], entries[1..], at);
      PushOne(stack, first);
      assert multiset(EntriesLeaves(entries, at))
          == multiset(Leaves(first.node, first.path)) + multiset(EntriesLeaves(entries[1..], at));
    }
  }

  // ---- well-formed trees: sibling names differ, and no name is empty or holds a slash ----------

  ghost predicate WellNamed<V>(t: Tree<V>) {
    t.Dir? ==> EntriesNamed(t.entries)
  }

  ghost predicate EntriesNamed<V>(entries: seq<DirEntry<V>>) {
    entries != [] ==>
      && entries[0].name != "" && SLASH !in entries[0].name
      && WellNamed(entries[0].node)
      && (forall i | 1 <= i < |entries| :: entries[i].name != entries[0].name)
      && EntriesNamed(entries[1..])
  }

  ghost predicate Below(at: Path, p: Path) {
    |at| <= |p| && p[..|at|] == at
  }

  lemma {:induction false} LeavesBelow<V>(t: Tree<V>, at: Path, x: (Path, V))
    requires x in Leaves(t, at)
    ensures Below(at, x.0)
    decreases t, 1
  {
    if t.Dir? { EntriesLeavesBelow(t.entries, at, x); }
  }

  lemma {:induction false} EntriesLeavesBelow<V>(entries: seq<DirEntry<V>>, at: Path, x: (Path, V))
    requires x in EntriesLeaves(entries, at)
    ensures Below(at, x.0) && |x.0| > |at|
    ensures exists i :: 0 <= i < |entries| && entries[i].name == x.0[|at|]
    decreases entries, 0
  {
    var here := at + [entries[0].name];
    if x in Leaves(entries[0].node, here) {
      LeavesBelow(entries[0].node, here, x);
      assert x.0[..|at|] == here[..|at|] == at;
      assert entries[0].name == x.0[|at|];
    } else {
      EntriesLeavesBelow(entries[1..], at, x);
      var i :| 0 <= i < |entries[1..]| && entries[1..][i].name == x.0[|at|];
      assert entries[i + 1].name == x.0[|at|];
    }
  }

  ghost predicate DistinctPaths<V>(found: seq<(Path, V)>) {
    forall i, j | 0 <= i < j < |found| :: found[i].0 != found[j].0
  }

  lemma DistinctConcat<V>(a: seq<(Path, V)>, b: seq<(Path, V)>)
    requires DistinctPaths(a) && DistinctPaths(b)
    requires forall i, j | 0 <= i < |a| && 0 <= j < |b| :: a[i].0 != b[j].0
    ensures DistinctPaths(a + b)
  {
    var all := a + b;
    forall i, j | 0 <= i < j < |all| ensures all[i].0 != all[j].0 {
      assert i < |a| ==> all[i] == a[i];
      assert i >= |a| ==> all[i] == b[i - |a|];
      assert j < |a| ==> all[j] == a[j];
      assert j >= |a| ==> all[j] == b[j - |a|];
    }
  }

  /** In a well-named tree each path leads to one leaf. */
  lemma {:induction false} LeafPathsDistinct<V>(t: Tree<V>, at: Path)
    requires WellNamed(t)
    ensures DistinctPaths(Leaves(t, at))
    decreases t, 1
  {
    if t.Dir? {
      EntriesLeafPathsDistinct(t.entries, at);
    } else {
      assert |Leaves(t, at)| == 1;
    }
  }

  lemma {:induction false} EntriesLeafPathsDistinct<V>(entries: seq<DirEntry<V>>, at: Path)
    requires EntriesNamed(entries)
    ensures DistinctPaths(EntriesLeaves(entries, at))
    decreases entries, 0
  {
    if entries != [] {
      var here := at + [entries[0].name];
      var first, rest := Leaves(entries[0].node, here), EntriesLeaves(entries[1..], at);
      LeafPathsDistinct(entries[0].node, here);
      EntriesLeafPathsDistinct(entries[1..], at);
      forall k, l | 0 <= k < |first| && 0 <= l < |rest| ensures first[k].0 != rest[l].0 {
        var x, y := first[k], rest[l];
        assert x in first && y in rest;
        LeavesBelow(entries[0].node, here, x);
        EntriesLeavesBelow(entries[1..], at, y);
        var i :| 0 <= i < |entries[1..]| && entries[1..][i].name == y.0[|at|];
        assert entries[i + 1].name == y.0[|at|];
        assert x.0[|at|] == here[|at|];
      }
      DistinctConcat(first, rest);
    }
  }

  /** Every leaf path is a non-empty list of non-empty, slash-free names. */
  ghost predicate CleanPath(p: Path) {
    SlashFree(p) && forall i | 0 <= i < |p| :: p[i] != ""
  }

  lemma {:induction false} LeavesClean<V>(t: Tree<V>, at: Path, x: (Path, V))
    requires WellNamed(t) && CleanPath(at) && x in Leaves(t, at)
    ensures CleanPath(x.0)
    decreases t, 1
  {
    if t.Dir? { EntriesLeavesClean(t.entries, at, x); }
  }

  lemma {:induction false} EntriesLeavesClean<V>(entries: seq<DirEntry<V>>, at: Path, x: (Path, V))
    requires EntriesNamed(entries) && CleanPath(at) && x in EntriesLeaves(entries, at)
    ensures CleanPath(x.0)
    decreases entries, 0
  {
    if x in Leaves(entries[0].node, at + [entries[0].name]) {
      LeavesClean(entries[0].node, at + [entries[0].name], x);
    } else {
      EntriesLeavesClean(entries[1..], at, x);
    }
  }
}
