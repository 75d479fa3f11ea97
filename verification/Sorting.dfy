/** Stable sorting by a comparison, and the order of strings by UTF-16 code unit, which is that of `<` in JavaScript. */
module Sorting {
  /** lt orders the elements of s strictly and totally; equal elements may repeat. */
  ghost predicate StrictTotalOn<T(!new)>(lt: (T, T) -> bool, s: multiset<T>) {
    && (forall x {:trigger lt(x, x)} | x in s :: !lt(x, x))
    && (forall x, y, z {:trigger lt(x, y), lt(y, z)} | x in s && y in s && z in s && lt(x, y) && lt(y, z) :: lt(x, z))
    && (forall x, y {:trigger lt(x, y)} | x in s && y in s && x != y :: lt(x, y) || lt(y, x))
  }

  /** No later element is below an earlier one. */
  ghost predicate Ascending<T>(lt: (T, T) -> bool, s: seq<T>) {
    forall i, j | 0 <= i < j < |s| :: !lt(s[j], s[i])
  }

  ghost predicate StrictlyAscending<T>(lt: (T, T) -> bool, s: seq<T>) {
    forall i, j | 0 <= i < j < |s| :: lt(s[i], s[j])
  }

  ghost predicate NoDuplicates<T>(s: seq<T>) {
    forall i, j | 0 <= i < j < |s| :: s[i] != s[j]
  }

  function Insert<T>(lt: (T, T) -> bool, x: T, s: seq<T>): (r: seq<T>)
    ensures multiset(r) == multiset{x} + multiset(s)
  {
    if s == [] || !lt(s[0], x) then [x] + s
    else
      assert s == [s[0]] + s[1..];
      [s[0]] + Insert(lt, x, s[1..])
  }

  function Sort<T>(lt: (T, T) -> bool, s: seq<T>): (r: seq<T>)
    ensures multiset(r) == multiset(s)
    ensures |r| == |s|
  {
    if s == [] then []
    else
      assert s == [s[0]] + s[1..];
      var r := Insert(lt, s[0], Sort(lt, s[1..]));
      assert |multiset(r)| == |multiset(s)|;
      r
  }

  lemma AscendingCons<T>(lt: (T, T) -> bool, first: T, rest: seq<T>)
    requires Ascending(lt, rest)
    requires forall z | z in rest :: !lt(z, first)
    ensures Ascending(lt, [first] + rest)
  {
  }

  /** What x goes in front of is not below x. */
  lemma NoneBelow<T(!new)>(lt: (T, T) -> bool, x: T, s: seq<T>)
    requires StrictTotalOn(lt, multiset{x} + multiset(s)) && Ascending(lt, s)
    requires s == [] || !lt(s[0], x)
    ensures forall z | z in s :: !lt(z, x)
  {
    forall j | 0 <= j < |s| ensures !lt(s[j], x) {
      if j > 0 && lt(s[j], x) { BelowFirst(lt, x, s, j); }
    }
  }

  /** What comes after a first element below x, x among it, is not below that element. */
  lemma FirstStays<T(!new)>(lt: (T, T) -> bool, x: T, s: seq<T>)
    requires StrictTotalOn(lt, multiset{x} + multiset(s)) && Ascending(lt, s)
    requires s != [] && lt(s[0], x)
    ensures forall z | z in Insert(lt, x, s[1..]) :: !lt(z, s[0])
  {
    hide Insert;
    var rest := Insert(lt, x, s[1..]);
    NotBothWays(lt, s[0], x, multiset{x} + multiset(s));
    forall z | z in rest ensures !lt(z, s[0]) {
      assert z in multiset(rest);
      if z != x { assert z in s[1..]; }
    }
  }

  lemma TotalOnRest<T(!new)>(lt: (T, T) -> bool, x: T, s: seq<T>)
    requires s != [] && StrictTotalOn(lt, multiset{x} + multiset(s))
    ensures StrictTotalOn(lt, multiset{x} + multiset(s[1..]))
  {
    assert s == [s[0]] + s[1..];
  }

  lemma {:induction false} InsertAscends<T(!new)>(lt: (T, T) -> bool, x: T, s: seq<T>)
    requires StrictTotalOn(lt, multiset{x} + multiset(s))
    requires Ascending(lt, s)
    ensures Ascending(lt, Insert(lt, x, s))
  {
    hide Ascending, StrictTotalOn;
    if s == [] || !lt(s[0], x) {
      NoneBelow(lt, x, s);
      AscendingCons(lt, x, s);
    } else {
      TotalOnRest(lt, x, s);
      FirstStays(lt, x, s);
      RestAscends(lt, s);
      InsertAscends(lt, x, s[1..]);
      AscendingCons(lt, s[0], Insert(lt, x, s[1..]));
    }
  }

  lemma NotBothWays<T(!new)>(lt: (T, T) -> bool, x: T, y: T, s: multiset<T>)
    requires StrictTotalOn(lt, s) && x in s && y in s && lt(x, y)
    ensures !lt(y, x)
  {
    assert !lt(x, x);
  }

  lemma BelowFirst<T(!new)>(lt: (T, T) -> bool, x: T, s: seq<T>, j: nat)
    requires StrictTotalOn(lt, multiset{x} + multiset(s))
    requires Ascending(lt, s) && 0 < j < |s| && lt(s[j], x)
    ensures lt(s[0], x)
  {
    assert s[0] in multiset(s) && s[j] in multiset(s);
    if s[0] != s[j] {
      assert !lt(s[j], s[0]);
      assert lt(s[0], s[j]);
    }
  }

  lemma {:induction false} SortAscends<T(!new)>(lt: (T, T) -> bool, s: seq<T>)
    requires StrictTotalOn(lt, multiset(s))
    ensures Ascending(lt, Sort(lt, s))
  {
    if s != [] {
      assert s == [s[0]] + s[1..];
      SortAscends(lt, s[1..]);
      InsertAscends(lt, s[0], Sort(lt, s[1..]));
    }
  }

  lemma SameFirst<T(!new)>(lt: (T, T) -> bool, s: seq<T>, t: seq<T>)
    requires StrictTotalOn(lt, multiset(s))
    requires multiset(s) == multiset(t) && s != [] && t != []
    requires Ascending(lt, s) && Ascending(lt, t)
    ensures s[0] == t[0]
  {
    assert s[0] in multiset(t) && t[0] in multiset(s);
    var j :| 0 <= j < |t| && t[j] == s[0];
    var i :| 0 <= i < |s| && s[i] == t[0];
    assert j > 0 ==> !lt(s[0], t[0]);
    assert i > 0 ==> !lt(t[0], s[0]);
  }

  lemma RestMultiset<T>(s: seq<T>)
    requires s != []
    ensures multiset(s[1..]) == multiset(s) - multiset{s[0]}
  {
    assert s == [s[0]] + s[1..];
  }

  lemma RestAscends<T>(lt: (T, T) -> bool, s: seq<T>)
    requires s != [] && Ascending(lt, s)
    ensures Ascending(lt, s[1..])
  {
  }

  lemma FirstAndRest<T>(s: seq<T>, t: seq<T>)
    requires s != [] && t != [] && s[0] == t[0] && s[1..] == t[1..]
    ensures s == t
  {
    assert s == [s[0]] + s[1..] && t == [t[0]] + t[1..];
  }

  /** Two ascending sequences with the same elements are the same sequence. */
  lemma {:induction false} AscendingUnique<T(!new)>(lt: (T, T) -> bool, s: seq<T>, t: seq<T>)
    requires StrictTotalOn(lt, multiset(s))
    requires multiset(s) == multiset(t)
    requires Ascending(lt, s) && Ascending(lt, t)
    ensures s == t
    decreases |s|
  {
    assert |s| == |multiset(s)| == |multiset(t)| == |t|;
    if s != [] {
      SameFirst(lt, s, t);
      RestMultiset(s);
      RestMultiset(t);
      RestAscends(lt, s);
      RestAscends(lt, t);
      AscendingUnique(lt, s[1..], t[1..]);
      FirstAndRest(s, t);
    }
  }

  /** Sorting forgets the order of its input. */
  lemma SortForgetsOrder<T(!new)>(lt: (T, T) -> bool, s: seq<T>, t: seq<T>)
    requires StrictTotalOn(lt, multiset(s))
    requires multiset(s) == multiset(t)
    ensures Sort(lt, s) == Sort(lt, t)
  {
    SortAscends(lt, s);
    SortAscends(lt, t);
    AscendingUnique(lt, Sort(lt, s), Sort(lt, t));
  }

  lemma {:induction false} NoDuplicatesMultiset<T>(s: seq<T>)
    ensures NoDuplicates(s) <==> forall x | x in s :: multiset(s)[x] == 1
  {
    if s != [] {
      var rest := s[1..];
      assert s == [s[0]] + rest;
      NoDuplicatesMultiset(rest);
      if NoDuplicates(s) {
        assert s[0] !in rest;
        forall x | x in s ensures multiset(s)[x] == 1 {
          if x != s[0] { assert x in rest; }
        }
      }
      if forall x | x in s :: multiset(s)[x] == 1 {
        assert multiset(s)[s[0]] == 1;
        assert multiset(rest)[s[0]] == 0;
        forall x | x in rest ensures multiset(rest)[x] == 1 {
          assert x in s;
          assert x in multiset(rest);
        }
        assert NoDuplicates(rest);
        forall i, j | 0 <= i < j < |s| ensures s[i] != s[j] {
          assert s[j] == rest[j - 1];
          if i == 0 {
            assert rest[j - 1] in multiset(rest);
          } else {
            assert s[i] == rest[i - 1];
          }
        }
      }
    }
  }

  lemma NoDuplicatesPermutation<T>(s: seq<T>, t: seq<T>)
    requires NoDuplicates(s) && multiset(s) == multiset(t)
    ensures NoDuplicates(t)
  {
    NoDuplicatesMultiset(s);
    NoDuplicatesMultiset(t);
    forall x | x in t ensures multiset(t)[x] == 1 {
      assert x in multiset(t);
      assert x in s;
    }
  }

  lemma {:induction false} SetSize<T>(s: seq<T>)
    requires NoDuplicates(s)
    ensures |set x | x in s| == |s|
  {
    if s != [] {
      var rest := s[1..];
      SetSize(rest);
      assert s[0] !in rest;
      assert (set x | x in s) == (set x | x in rest) + {s[0]};
    }
  }

  lemma SubsetSameSize<T>(a: set<T>, b: set<T>)
    requires a <= b && |a| == |b|
    ensures a == b
  {
    assert |b - a| == |b| - |a|;
  }

  /** Lists of the same length without repetition, one contained in the other, are permutations. */
  lemma SameElements<T>(a: seq<T>, b: seq<T>)
    requires NoDuplicates(a) && NoDuplicates(b) && |a| == |b|
    requires forall x | x in a :: x in b
    ensures multiset(a) == multiset(b)
  {
    var sa, sb := set x | x in a, set x | x in b;
    SetSize(a);
    SetSize(b);
    SubsetSameSize(sa, sb);
    NoDuplicatesMultiset(a);
    NoDuplicatesMultiset(b);
    forall x ensures multiset(a)[x] == multiset(b)[x] {
      assert x in a <==> x in sa;
      assert x in b <==> x in sb;
      assert x in multiset(a) <==> x in a;
      assert x in multiset(b) <==> x in b;
    }
  }

  /** Sorting distinct elements puts them in strictly ascending order. */
  lemma SortStrict<T(!new)>(lt: (T, T) -> bool, s: seq<T>)
    requires StrictTotalOn(lt, multiset(s)) && NoDuplicates(s)
    ensures StrictlyAscending(lt, Sort(lt, s)) && NoDuplicates(Sort(lt, s))
  {
    var r := Sort(lt, s);
    SortAscends(lt, s);
    NoDuplicatesPermutation(s, r);
    forall i, j | 0 <= i < j < |r| ensures lt(r[i], r[j]) {
      assert r[i] in multiset(r) && r[j] in multiset(r);
    }
  }

  // ---- sorting and mapping ---------------------------------------------------------------------

  function Map<T, U>(f: T -> U, s: seq<T>): (r: seq<U>)
    ensures |r| == |s| && forall i | 0 <= i < |r| :: r[i] == f(s[i])
  {
    seq(|s|, i requires 0 <= i < |s| => f(s[i]))
  }

  lemma MapConcat<T, U>(f: T -> U, s: seq<T>, t: seq<T>)
    ensures Map(f, s + t) == Map(f, s) + Map(f, t)
  {
  }

  lemma TakeOut<T>(x: T, s: seq<T>, t: seq<T>, j: nat)
    requires multiset([x] + s) == multiset(t) && j < |t| && t[j] == x
    ensures multiset(s) == multiset(t[..j] + t[j + 1..])
  {
    assert t == t[..j] + [x] + t[j + 1..];
    assert multiset(t[..j] + t[j + 1..]) == multiset(t) - multiset{x};
    assert multiset([x] + s) == multiset{x} + multiset(s);
  }

  /** Lists with the same elements are mapped to lists with the same elements. */
  lemma {:induction false} MapPermutes<T, U>(f: T -> U, s: seq<T>, t: seq<T>)
    requires multiset(s) == multiset(t)
    ensures multiset(Map(f, s)) == multiset(Map(f, t))
  {
    assert |multiset(s)| == |s| && |multiset(t)| == |t|;
    if s != [] {
      var x, rest := s[0], s[1..];
      assert s == [x] + rest;
      assert x in multiset(t);
      var j :| 0 <= j < |t| && t[j] == x;
      TakeOut(x, rest, t, j);
      MapPermutes(f, rest, t[..j] + t[j + 1..]);
      MapTakeOut(f, x, rest, t, j);
    }
  }

  lemma MapTakeOut<T, U>(f: T -> U, x: T, rest: seq<T>, t: seq<T>, j: nat)
    requires j < |t| && t[j] == x
    requires multiset(Map(f, rest)) == multiset(Map(f, t[..j] + t[j + 1..]))
    ensures multiset(Map(f, [x] + rest)) == multiset(Map(f, t))
  {
    hide Map;
    var l, r := t[..j], t[j + 1..];
    assert t == l + ([x] + r);
    MapConcat(f, l, r);
    MapConcat(f, l, [x] + r);
    MapConcat(f, [x], r);
    MapConcat(f, [x], rest);
  }

  lemma MapFirst<T, U>(f: T -> U, s: seq<T>)
    requires s != []
    ensures Map(f, s) == [f(s[0])] + Map(f, s[1..]) && Map(f, s)[1..] == Map(f, s[1..])
  {
  }

  lemma {:induction false} MapInserts<T(!new), U>(lt: (T, T) -> bool, less: (U, U) -> bool, f: T -> U, x: T, s: seq<T>)
    requires forall y, z :: lt(y, z) <==> less(f(y), f(z))
    ensures Map(f, Insert(lt, x, s)) == Insert(less, f(x), Map(f, s))
  {
    hide Map;
    if s == [] {
      MapFirst(f, [x]);
    } else {
      MapFirst(f, s);
      MapFirst(f, [x] + s);
      assert ([x] + s)[1..] == s;
      if lt(s[0], x) {
        var rest := Insert(lt, x, s[1..]);
        MapInserts(lt, less, f, x, s[1..]);
        MapFirst(f, [s[0]] + rest);
        assert ([s[0]] + rest)[1..] == rest;
      }
    }
  }

  /** Sorting by a key sorts the keys, whether or not they repeat. */
  lemma {:induction false} MapSorts<T(!new), U>(lt: (T, T) -> bool, less: (U, U) -> bool, f: T -> U, s: seq<T>)
    requires forall y, z :: lt(y, z) <==> less(f(y), f(z))
    ensures Map(f, Sort(lt, s)) == Sort(less, Map(f, s))
  {
    hide Map, Insert;
    if s != [] {
      MapSorts(lt, less, f, s[1..]);
      MapInserts(lt, less, f, s[0], Sort(lt, s[1..]));
      MapFirst(f, s);
    }
  }

  // ---- the order of strings --------------------------------------------------------------------

  /** The UTF-16 code units of a character: itself, or a surrogate pair. */
  function Units(c: char): (r: seq<nat>)
    ensures 1 <= |r| <= 2
  {
    var n := c as int;
    if n < 0x1_0000 then [n] else [0xD800 + (n - 0x1_0000) / 0x400, 0xDC00 + (n - 0x1_0000) % 0x400]
  }

  function Utf16(s: string): seq<nat> {
    if s == "" then [] else Units(s[0]) + Utf16(s[1..])
  }

  predicate UnitsLess(a: seq<nat>, b: seq<nat>) {
    if b == [] then false
    else if a == [] then true
    else a[0] < b[0] || (a[0] == b[0] && UnitsLess(a[1..], b[1..]))
  }

  /** One string comes before another in the order of their code units. */
  predicate Less(a: string, b: string) {
    UnitsLess(Utf16(a), Utf16(b))
  }

  lemma UnitsTell(c: char, d: char, s: seq<nat>, t: seq<nat>)
    requires Units(c) + s == Units(d) + t
    ensures c == d && s == t
  {
    var u, v := Units(c) + s, Units(d) + t;
    assert u[0] == Units(c)[0] && v[0] == Units(d)[0];
    assert |Units(c)| == |Units(d)|;
    assert |Units(c)| == 2 ==> u[1] == Units(c)[1] && v[1] == Units(d)[1];
    assert s == u[|Units(c)|..] && t == v[|Units(d)|..];
  }

  lemma {:induction false} Utf16Injective(a: string, b: string)
    requires Utf16(a) == Utf16(b)
    ensures a == b
  {
    if a != "" && b != "" {
      UnitsTell(a[0], b[0], Utf16(a[1..]), Utf16(b[1..]));
      Utf16Injective(a[1..], b[1..]);
      assert a == [a[0]] + a[1..] && b == [b[0]] + b[1..];
    }
  }

  lemma {:induction false} UnitsIrreflexive(a: seq<nat>)
    ensures !UnitsLess(a, a)
  {
    if a != [] { UnitsIrreflexive(a[1..]); }
  }

  lemma {:induction false} UnitsTransitive(a: seq<nat>, b: seq<nat>, c: seq<nat>)
    requires UnitsLess(a, b) && UnitsLess(b, c)
    ensures UnitsLess(a, c)
  {
    if a != [] && a[0] == b[0] == c[0] { UnitsTransitive(a[1..], b[1..], c[1..]); }
  }

  lemma {:induction false} UnitsTotal(a: seq<nat>, b: seq<nat>)
    requires a != b
    ensures UnitsLess(a, b) || UnitsLess(b, a)
  {
    if a != [] && b != [] && a[0] == b[0] {
      assert a == [a[0]] + a[1..] && b == [b[0]] + b[1..];
      UnitsTotal(a[1..], b[1..]);
    }
  }

  /** The two agree before i, and there the first is at its end or has the smaller unit. */
  predicate BeforeAt(a: seq<nat>, b: seq<nat>, i: int) {
    0 <= i <= |a| && i < |b| && a[..i] == b[..i] && (i == |a| || a[i] < b[i])
  }

  /** A proper prefix comes first, and otherwise the string with the smaller unit where they first differ. */
  lemma {:induction false} UnitsLessExactly(a: seq<nat>, b: seq<nat>)
    ensures UnitsLess(a, b) <==> exists i :: BeforeAt(a, b, i)
  {
    if a != [] && b != [] {
      UnitsLessExactly(a[1..], b[1..]);
      if i :| BeforeAt(a[1..], b[1..], i) && a[0] == b[0] {
        assert a[..i + 1] == [a[0]] + a[1..][..i] && b[..i + 1] == [b[0]] + b[1..][..i];
        assert BeforeAt(a, b, i + 1);
      }
      if i :| BeforeAt(a, b, i) && i > 0 {
        assert a[..i][0] == a[0] && a[..i][1..] == a[1..][..i - 1] && b[..i][1..] == b[1..][..i - 1];
        assert BeforeAt(a[1..], b[1..], i - 1);
      }
    }
    if a == [] && b != [] { assert BeforeAt(a, b, 0); }
    if a != [] && b != [] && a[0] < b[0] { assert BeforeAt(a, b, 0); }
  }

  /** One unit is the character itself, and a surrogate pair spells a character from 0x10000 on. */
  lemma UnitsExactly(c: char, hi: nat, lo: nat)
    ensures Units(c) == [hi] <==> c as int == hi && hi < 0x1_0000
    ensures Units(c) == [hi, lo] <==>
      && 0xD800 <= hi < 0xDC00 && 0xDC00 <= lo < 0xE000
      && c as int == 0x1_0000 + (hi - 0xD800) * 0x400 + (lo - 0xDC00)
  {
    if 0xD800 <= hi < 0xDC00 && 0xDC00 <= lo < 0xE000
      && c as int == 0x1_0000 + (hi - 0xD800) * 0x400 + (lo - 0xDC00)
    {
      assert Units(c)[0] == hi && Units(c)[1] == lo;
    }
    if Units(c) == [hi, lo] { assert Units(c)[0] == hi && Units(c)[1] == lo; }
    if Units(c) == [hi] { assert Units(c)[0] == hi; }
  }

  /** The units of a text are those of its characters. */
  lemma {:induction false} Utf16Append(a: string, b: string)
    ensures Utf16(a + b) == Utf16(a) + Utf16(b) && (|a| == 1 ==> Utf16(a) == Units(a[0]))
  {
    if a == "" {
      assert a + b == b;
    } else {
      assert (a + b)[0] == a[0] && (a + b)[1..] == a[1..] + b;
      Utf16Append(a[1..], b);
      assert a[1..] == "" ==> Utf16(a[1..]) == [];
    }
  }

  lemma LessIrreflexive(a: string)
    ensures !Less(a, a)
  {
    UnitsIrreflexive(Utf16(a));
  }

  lemma LessTransitive(a: string, b: string, c: string)
    requires Less(a, b) && Less(b, c)
    ensures Less(a, c)
  {
    UnitsTransitive(Utf16(a), Utf16(b), Utf16(c));
  }

  lemma LessTotal(a: string, b: string)
    requires a != b
    ensures Less(a, b) || Less(b, a)
  {
    hide Utf16;
    if Utf16(a) == Utf16(b) { Utf16Injective(a, b); } else { UnitsTotal(Utf16(a), Utf16(b)); }
  }

  lemma LessStrictTotal(s: multiset<string>)
    ensures StrictTotalOn(Less, s)
  {
    hide Less;
    forall x: string ensures !Less(x, x) { LessIrreflexive(x); }
    forall x: string, y: string, z: string | Less(x, y) && Less(y, z) ensures Less(x, z) { LessTransitive(x, y, z); }
    forall x: string, y: string | x != y ensures Less(x, y) || Less(y, x) { LessTotal(x, y); }
  }
}
