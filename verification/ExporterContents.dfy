/** What an export contains: nothing that was not redacted or undefined is lost, and the manifest tells files apart. */
module ExporterContents {
  import opened Basics
  import opened Sorting
  import opened Json
  import opened Redactor
  import opened Exporter
  import Framing

  // ---- what the canonical form keeps -----------------------------------------------------------

  ghost predicate KeysAscend(fields: seq<Field>) {
    forall i, j | 0 <= i < j < |fields| :: Less(fields[i].key, fields[j].key)
  }

  lemma {:induction false} DefinedExactly(fields: seq<Field>)
    ensures forall f :: f in Defined(fields) <==> f in fields && f.value != Undefined
    ensures (forall f | f in fields :: f.value != Undefined) ==> Defined(fields) == fields
  {
    if fields != [] {
      assert fields == [fields[0]] + fields[1..];
      DefinedExactly(fields[1..]);
    }
  }

  lemma NoKeys()
    ensures KeysAscend([])
  {
  }

  lemma AscendingCons(first: Field, rest: seq<Field>)
    requires KeysAscend(rest) && forall f | f in rest :: Less(first.key, f.key)
    ensures KeysAscend([first] + rest)
  {
  }

  lemma RestAscends(fields: seq<Field>)
    requires fields != [] && KeysAscend(fields)
    ensures KeysAscend(fields[1..]) && forall f | f in fields[1..] :: Less(fields[0].key, f.key)
  {
    forall f | f in fields[1..] ensures Less(fields[0].key, f.key) {
      var i :| 0 <= i < |fields[1..]| && fields[1..][i] == f;
      assert fields[i + 1] == f;
    }
  }

  lemma {:induction false} DefinedAscend(fields: seq<Field>)
    requires KeysAscend(fields)
    ensures KeysAscend(Defined(fields))
  {
    hide Less, KeysAscend;
    if fields != [] {
      RestAscends(fields);
      DefinedExactly(fields[1..]);
      DefinedAscend(fields[1..]);
      AscendingCons(fields[0], Defined(fields[1..]));
      assert [] + Defined(fields[1..]) == Defined(fields[1..]);
    } else {
      assert KeysAscend([]) by { NoKeys(); }
    }
  }

  lemma AscendDistinct(fields: seq<Field>)
    requires KeysAscend(fields)
    ensures DistinctKeys(fields)
  {
    forall i, j | 0 <= i < j < |fields| ensures fields[i].key != fields[j].key { LessIrreflexive(fields[i].key); }
  }

  lemma {:induction false} SortedFields(fields: seq<Field>)
    requires DistinctKeys(fields)
    ensures
      var sorted := Sort(ByKey(), CanonFields(fields));
      KeysAscend(sorted) && forall f :: f in sorted <==> f in CanonFields(fields)
  {
    hide Sort, Less, Canon;
    var c := CanonFields(fields);
    CanonDistinct(fields);
    FieldOrderTotal(c);
    SortStrict(ByKey(), c);
    var sorted := Sort(ByKey(), c);
    forall i, j | 0 <= i < j < |sorted| ensures Less(sorted[i].key, sorted[j].key) {
      assert ByKey()(sorted[i], sorted[j]);
    }
    forall f ensures f in sorted <==> f in c {
      assert f in sorted <==> f in multiset(sorted);
      assert f in c <==> f in multiset(c);
    }
  }

  lemma CanonDefined(v: Json)
    ensures Canon(v) == Undefined <==> v == Undefined
  {
    if v.Obj? { CanonObject(v.fields); }
  }

  /** The canonical form of an object has exactly its defined fields, in canonical form, in ascending order of keys. */
  lemma {:induction false} CanonKeeps(fields: seq<Field>, key: string)
    requires DistinctKeys(fields)
    ensures
      var canonical := Canon(Obj(fields)).fields;
      && KeysAscend(canonical)
      && Get(canonical, key)
         == match Get(fields, key) { case Some(x) => if x == Undefined then None else Some(Canon(x)) case None => None }
    ensures Canon(Obj(fields)).Obj?
  {
    CanonObject(fields);
    hide Canon, Sort, Defined, Less, KeysAscend;
    SortedFields(fields);
    var sorted := Sort(ByKey(), CanonFields(fields));
    var canonical := Defined(sorted);
    DefinedExactly(sorted);
    DefinedAscend(sorted);
    AscendDistinct(canonical);
    if Get(fields, key).Some? {
      var i := GetFound(fields, key);
      CanonDefined(fields[i].value);
      var f := Field(key, Canon(fields[i].value));
      assert CanonFields(fields)[i] == f;
      if f.value != Undefined {
        var j :| 0 <= j < |canonical| && canonical[j] == f;
        GetAt(canonical, j);
      }
    }
    if Get(canonical, key).Some? { KeptFrom(fields, canonical, key); }
  }

  lemma KeptFrom(fields: seq<Field>, canonical: seq<Field>, key: string)
    requires DistinctKeys(fields) && Get(canonical, key).Some?
    requires forall f | f in canonical :: f in CanonFields(fields) && f.value != Undefined
    ensures Get(fields, key).Some? && Get(fields, key).value != Undefined
  {
    hide Canon;
    var j := GetFound(canonical, key);
    assert canonical[j] in canonical;
    var i :| 0 <= i < |fields| && CanonFields(fields)[i] == canonical[j];
    GetAt(fields, i);
    CanonDefined(fields[i].value);
  }

  ghost predicate NoUndefined(v: Json) {
    match v
    case Undefined => false
    case Arr(items) => forall x | x in items :: NoUndefined(x)
    case Obj(fields) => forall f | f in fields :: NoUndefined(f.value)
    case _ => true
  }

  lemma CanonSize(fields: seq<Field>)
    requires DistinctKeys(fields) && forall f | f in fields :: NoUndefined(f.value)
    ensures |Canon(Obj(fields)).fields| == |fields|
  {
    CanonObject(fields);
    hide Canon, Sort, Defined;
    SortedFields(fields);
    var sorted := Sort(ByKey(), CanonFields(fields));
    forall f | f in sorted ensures f.value != Undefined {
      var i :| 0 <= i < |fields| && CanonFields(fields)[i] == f;
      assert fields[i] in fields;
      CanonDefined(fields[i].value);
    }
    DefinedExactly(sorted);
  }

  /** The canonical form is the same value, but for the order of keys. */
  lemma {:induction false} CanonSame(v: Json)
    requires WellFormed(v) && NoUndefined(v)
    ensures Equivalent(v, Canon(v))
  {
    match v {
      case Arr(items) =>
        forall i | 0 <= i < |items| ensures Equivalent(items[i], Canon(v).items[i]) { CanonSame(items[i]); }
      case Obj(fields) =>
        CanonSize(fields);
        forall i | 0 <= i < |fields|
          ensures Get(Canon(v).fields, fields[i].key).Some?
          ensures Equivalent(fields[i].value, Get(Canon(v).fields, fields[i].key).value)
        {
          assert fields[i] in fields;
          GetAt(fields, i);
          CanonKeeps(fields, fields[i].key);
          CanonSame(fields[i].value);
        }
        CanonKeeps(fields, "");
      case _ =>
    }
  }

  lemma SameValue(a: seq<Field>, b: seq<Field>, i: nat) returns (j: nat)
    requires DistinctKeys(a) && DistinctKeys(b) && Canon(Obj(a)) == Canon(Obj(b))
    requires i < |a| && a[i].value != Undefined
    ensures j < |b| && Get(b, a[i].key) == Some(b[j].value) && Canon(a[i].value) == Canon(b[j].value)
  {
    hide Canon, KeysAscend;
    GetAt(a, i);
    CanonKeeps(a, a[i].key);
    CanonKeeps(b, a[i].key);
    j := GetFound(b, a[i].key);
  }

  lemma SameShape(a: Json, b: Json)
    requires Canon(a) == Canon(b)
    ensures match a
      case Arr(items) =>
        b.Arr? && |items| == |b.items| && forall i | 0 <= i < |items| :: Canon(items[i]) == Canon(b.items[i])
      case Obj(_) => b.Obj?
      case _ => a == b
  {
    if a.Arr? {
      forall i | 0 <= i < |a.items| ensures Canon(a.items[i]) == Canon(b.items[i]) {
        assert Canon(a).items[i] == Canon(b).items[i];
      }
    }
  }

  /** Only values that are the same but for the order of keys have one canonical form. */
  lemma {:induction false} CanonTells(a: Json, b: Json)
    requires WellFormed(a) && WellFormed(b) && NoUndefined(a) && NoUndefined(b)
    requires Canon(a) == Canon(b)
    ensures Equivalent(a, b)
    decreases a
  {
    hide Canon, DistinctKeys;
    SameShape(a, b);
    match a {
      case Arr(items) =>
        forall i | 0 <= i < |items| ensures Equivalent(items[i], b.items[i]) { CanonTells(items[i], b.items[i]); }
      case Obj(fields) =>
        CanonSize(fields);
        CanonSize(b.fields);
        forall i | 0 <= i < |fields|
          ensures Get(b.fields, fields[i].key).Some?
          ensures Equivalent(fields[i].value, Get(b.fields, fields[i].key).value)
        {
          assert fields[i] in fields;
          var j := SameValue(fields, b.fields, i);
          assert b.fields[j] in b.fields;
          CanonTells(fields[i].value, b.fields[j].value);
        }
      case _ =>
    }
  }

  // ---- what a file says about its rows ---------------------------------------------------------

  function Terminated(c: Codec, rows: seq<Json>): (r: seq<string>)
    ensures |r| == |rows| && forall i | 0 <= i < |r| :: r[i] == Line(c, rows[i]) + "\n"
  {
    seq(|rows|, i requires 0 <= i < |rows| => Line(c, rows[i]) + "\n")
  }

  lemma {:induction false} LinesAreFlat(c: Codec, rows: seq<Json>)
    ensures Lines(c, rows) == Framing.Flat(Terminated(c, rows))
  {
    hide Line;
    if rows != [] {
      LinesAreFlat(c, rows[1..]);
      assert Terminated(c, rows)[1..] == Terminated(c, rows[1..]);
    }
  }

  /** Cut at its newlines, a file is the printed rows of its table by ascending id, each one line, and nothing else. */
  lemma {:induction false} FileIsItsLines(c: Codec, table: string, rows: seq<Json>)
    requires forall x | x in rows :: '\n' !in Line(c, x)
    ensures
      var content := FileOf(c, table, rows).content;
      && Framing.Lines('\n', content) == Terminated(c, Sort(ById(), rows)) && Framing.Tail('\n', content) == ""
  {
    hide Line, Sort, Lines, Terminated;
    var sorted := Sort(ById(), rows);
    var lines := Terminated(c, sorted);
    LinesAreFlat(c, sorted);
    SameMembers(sorted, rows);
    forall l | l in lines ensures Framing.IsLine('\n', l) {
      var i :| 0 <= i < |lines| && lines[i] == l;
      assert sorted[i] in sorted;
      assert l[..|l| - 1] == Line(c, sorted[i]);
    }
    Framing.OnlyCut('\n', lines, "");
    assert Framing.Flat(lines) + "" == Framing.Flat(lines);
  }

  /** The printer does not collide on what is printed for the rows of two tables. */
  ghost predicate PrintsApart(c: Codec, a: seq<Json>, b: seq<Json>) {
    forall x, y | x in a && y in b && Line(c, x) == Line(c, y) :: Canon(Redact(x)) == Canon(Redact(y))
  }

  ghost predicate Plain(c: Codec, rows: seq<Json>) {
    forall x | x in rows :: '\n' !in Line(c, x) && WellFormed(x) && NoUndefined(x)
  }

  /** Equal files come from tables whose rows are, by id and once redacted, the same but for the order of keys. */
  lemma {:induction false} EqualFilesEqualRows(c: Codec, table: string, a: seq<Json>, b: seq<Json>)
    requires Plain(c, a) && Plain(c, b) && PrintsApart(c, a, b)
    requires FileOf(c, table, a).content == FileOf(c, table, b).content
    ensures
      var x, y := Sort(ById(), a), Sort(ById(), b);
      |x| == |y| && forall k | 0 <= k < |x| :: Equivalent(Redact(x[k]), Redact(y[k]))
  {
    hide Line, Sort, FileOf, Canon, Redact, Terminated, WellFormed, NoUndefined, Equivalent;
    FileIsItsLines(c, table, a);
    FileIsItsLines(c, table, b);
    var x, y := Sort(ById(), a), Sort(ById(), b);
    SameMembers(x, a);
    SameMembers(y, b);
    forall k | 0 <= k < |x| ensures Equivalent(Redact(x[k]), Redact(y[k])) {
      assert x[k] in x && y[k] in y;
      var l, m := Terminated(c, x)[k], Terminated(c, y)[k];
      assert l[..|l| - 1] == Line(c, x[k]) && m[..|m| - 1] == Line(c, y[k]);
      RedactWellFormed(x[k]);
      RedactWellFormed(y[k]);
      RedactNoUndefined(x[k]);
      RedactNoUndefined(y[k]);
      CanonTells(Redact(x[k]), Redact(y[k]));
    }
  }

  lemma {:induction false} RedactNoUndefined(v: Json)
    requires NoUndefined(v)
    ensures NoUndefined(Redact(v))
  {
    hide IsSecretKey;
    match v {
      case Arr(items) =>
        forall x | x in Redact(v).items ensures NoUndefined(x) {
          var i :| 0 <= i < |items| && Redact(v).items[i] == x;
          RedactNoUndefined(items[i]);
        }
      case Obj(fields) =>
        forall f | f in Redact(v).fields ensures NoUndefined(f.value) {
          var i :| 0 <= i < |fields| && Redact(v).fields[i] == f;
          assert fields[i] in fields;
          RedactNoUndefined(fields[i].value);
        }
      case _ =>
    }
  }

  /** The id of a row is the string under its key "id". */
  lemma IdIsUnderItsKey(fields: seq<Field>, i: nat)
    requires DistinctKeys(fields) && i < |fields| && fields[i].key == "id" && fields[i].value.Str?
    ensures IdOf(Obj(fields)) == fields[i].value.s
  {
    GetAt(fields, i);
  }

  // ---- what an export says about its files -----------------------------------------------------

  /** An export has one file for each table, in ascending order of paths, and counts every table's rows. */
  lemma {:induction false} ExportHasEveryTable(c: Codec, source: SourceAdapter, classification: string)
    ensures
      var r := Exported(c, source, classification);
      var tables := ["identities", "memories", "catalog_entries", "catalog_sources", "catalog_relations", "events",
        "audit", "sync_previews"];
      && |r.files| == 8 && r.descriptors == r.files
      && (forall i, j | 0 <= i < j < 8 :: Less(r.files[i].path, r.files[j].path))
      && (forall t | t in tables :: FileOf(c, t, if t in source.rows then source.rows[t] else []) in r.files)
      && (forall t, rows :: FileOf(c, t, rows).path == t + ".ndjson" && FileOf(c, t, rows).count == |rows|
                            && FileOf(c, t, rows).digest == c.digest(FileOf(c, t, rows).content))
      && r.counts == Map(t => (t, if t in source.rows then |source.rows[t]| else 0), tables)
  {
    RowsExactly(source);
    hide Sort, Lines, Rows, StableStringify, ManifestJson;
    var all := AllFiles(c, source);
    var files := Sort(ByPath(), all);
    assert |all| == 8;
    FilesAscend(c, source);
    forall t | t in TABLE_ORDER ensures FileOf(c, t, Rows(source, t)) in files {
      var i :| 0 <= i < |TABLE_ORDER| && TABLE_ORDER[i] == t;
      assert all[i] == FileOf(c, t, Rows(source, t));
      assert all[i] in multiset(all);
      assert all[i] in multiset(files);
    }
  }

  lemma RowsExactly(source: SourceAdapter)
    ensures forall t :: Rows(source, t) == if t in source.rows then source.rows[t] else []
  {
  }

  lemma FilesAscend(c: Codec, source: SourceAdapter)
    ensures StrictlyAscending(ByPath(), Sort(ByPath(), AllFiles(c, source)))
  {
    hide Sort, Less, Lines, Rows;
    var all, lt := AllFiles(c, source), ByPath();
    TablesDistinct();
    forall i, j | 0 <= i < j < |all| ensures all[i].path != all[j].path {
      SuffixTells(TABLE_ORDER[i], TABLE_ORDER[j]);
    }
    forall x {:trigger lt(x, x)} | x in multiset(all) ensures !lt(x, x) { LessIrreflexive(x.path); }
    forall x, y, z {:trigger lt(x, y), lt(y, z)} | lt(x, y) && lt(y, z) ensures lt(x, z) {
      LessTransitive(x.path, y.path, z.path);
    }
    forall x, y {:trigger lt(x, y)} | x in multiset(all) && y in multiset(all) && x != y ensures lt(x, y) || lt(y, x) {
      var i :| 0 <= i < |all| && all[i] == x;
      var j :| 0 <= j < |all| && all[j] == y;
      LessTotal(x.path, y.path);
    }
    SortStrict(lt, all);
  }

  lemma SuffixTells(a: string, b: string)
    requires a != b
    ensures a + ".ndjson" != b + ".ndjson"
  {
    var x, y := a + ".ndjson", b + ".ndjson";
    assert x[..|x| - 7] == a && y[..|y| - 7] == b;
  }

  /** The manifest digests of two exports do not collide. */
  ghost predicate ManifestsApart(c: Codec, a: Json, b: Json) {
    c.digest(StableStringify(c, a)) == c.digest(StableStringify(c, b)) ==> Canon(a) == Canon(b)
  }

  function ManifestOf(c: Codec, source: SourceAdapter, classification: string): Json {
    ManifestJson(source, AllCounts(source), Sort(ByPath(), AllFiles(c, source)), classification)
  }

  /** Equal manifest digests mean equal counts and, file by file, equal paths, digests and counts. */
  lemma {:induction false} ManifestTells(c: Codec, a: SourceAdapter, b: SourceAdapter, x: string, y: string)
    requires ManifestsApart(c, ManifestOf(c, a, x), ManifestOf(c, b, y))
    requires Exported(c, a, x).manifestDigest == Exported(c, b, y).manifestDigest
    ensures
      var r, s := Exported(c, a, x), Exported(c, b, y);
      && a.adapterId == b.adapterId && a.sourceDigest == b.sourceDigest && x == y && r.counts == s.counts
      && |r.files| == |s.files|
      && forall i | 0 <= i < |r.files| ::
           && r.files[i].path == s.files[i].path && r.files[i].digest == s.files[i].digest
           && r.files[i].count == s.files[i].count
  {
    hide Sort, Lines, Rows, Canon, AllFiles, AllCounts;
    var f, g := Sort(ByPath(), AllFiles(c, a)), Sort(ByPath(), AllFiles(c, b));
    SameManifestParts(a, b, AllCounts(a), AllCounts(b), f, g, x, y);
    SameCounts(a, b);
  }

  lemma {:induction false} ManifestKeys(
      source: SourceAdapter, counts: seq<(string, nat)>, files: seq<FileEntry>, classification: string)
    ensures ManifestJson(source, counts, files, classification).Obj?
    ensures
      var fields := ManifestJson(source, counts, files, classification).fields;
      && DistinctKeys(fields)
      && Get(fields, "adapterId") == Some(Str(source.adapterId))
      && Get(fields, "sourceDigest") == Some(Str(source.sourceDigest))
      && Get(fields, "counts") == Some(CountsJson(counts)) && Get(fields, "files") == Some(FilesJson(files))
      && Get(fields, "classification") == Some(Obj([Field("default", Str(classification))]))
  {
    var fields := ManifestJson(source, counts, files, classification).fields;
    assert "counts"[0] != "files"[0];
    GetAt(fields, 1);
    GetAt(fields, 2);
    GetAt(fields, 3);
    GetAt(fields, 4);
    GetAt(fields, 5);
  }

  function CountsJson(counts: seq<(string, nat)>): (r: Json)
    ensures r.Obj?
  {
    Obj(seq(|counts|, i requires 0 <= i < |counts| => Field(counts[i].0, Num(counts[i].1))))
  }

  function FilesJson(files: seq<FileEntry>): (r: Json)
    ensures r.Arr?
  {
    Arr(seq(|files|, i requires 0 <= i < |files| => Described(files[i])))
  }

  lemma SameManifestParts(
      a: SourceAdapter, b: SourceAdapter, k: seq<(string, nat)>, l: seq<(string, nat)>, f: seq<FileEntry>,
      g: seq<FileEntry>, x: string, y: string)
    requires Canon(ManifestJson(a, k, f, x)) == Canon(ManifestJson(b, l, g, y))
    ensures a.adapterId == b.adapterId && a.sourceDigest == b.sourceDigest && x == y
    ensures Canon(CountsJson(k)) == Canon(CountsJson(l))
    ensures |f| == |g|
    ensures forall i | 0 <= i < |f| ::
      f[i].path == g[i].path && f[i].digest == g[i].digest && f[i].count == g[i].count
  {
    hide CountsJson, FilesJson, Described;
    ManifestKeys(a, k, f, x);
    ManifestKeys(b, l, g, y);
    hide ManifestJson, Canon;
    var m, n := ManifestJson(a, k, f, x).fields, ManifestJson(b, l, g, y).fields;
    SameAtKey(m, n, "adapterId");
    SameAtKey(m, n, "sourceDigest");
    SameAtKey(m, n, "counts");
    SameAtKey(m, n, "files");
    SameAtKey(m, n, "classification");
    CanonText(a.adapterId);
    CanonText(b.adapterId);
    CanonText(a.sourceDigest);
    CanonText(b.sourceDigest);
    SameDefault(x, y);
    SameDescribed(f, g);
  }

  lemma CanonText(s: string)
    ensures Canon(Str(s)) == Str(s)
  {
  }

  lemma SameAtKey(m: seq<Field>, n: seq<Field>, key: string)
    requires DistinctKeys(m) && DistinctKeys(n) && Canon(Obj(m)) == Canon(Obj(n))
    requires Get(m, key).Some? && Get(n, key).Some? && Get(m, key).value != Undefined && Get(n, key).value != Undefined
    ensures Canon(Get(m, key).value) == Canon(Get(n, key).value)
  {
    hide Canon;
    CanonKeeps(m, key);
    CanonKeeps(n, key);
  }

  lemma SameDefault(x: string, y: string)
    requires Canon(Obj([Field("default", Str(x))])) == Canon(Obj([Field("default", Str(y))]))
    ensures x == y
  {
    SameAtKey([Field("default", Str(x))], [Field("default", Str(y))], "default");
  }

  lemma SameDescribed(f: seq<FileEntry>, g: seq<FileEntry>)
    requires Canon(FilesJson(f)) == Canon(FilesJson(g))
    ensures |f| == |g|
    ensures forall i | 0 <= i < |f| ::
      f[i].path == g[i].path && f[i].digest == g[i].digest && f[i].count == g[i].count
  {
    var m, n := Canon(FilesJson(f)).items, Canon(FilesJson(g)).items;
    assert |m| == |f| && |n| == |g|;
    forall i | 0 <= i < |f|
      ensures f[i].path == g[i].path && f[i].digest == g[i].digest && f[i].count == g[i].count
    {
      assert m[i] == n[i];
      SameFile(f[i], g[i]);
    }
  }

  lemma SameFile(f: FileEntry, g: FileEntry)
    requires Canon(Described(f)) == Canon(Described(g))
    ensures f.path == g.path && f.digest == g.digest && f.count == g.count
  {
    var m, n := Described(f).fields, Described(g).fields;
    DescribedKeys(f);
    DescribedKeys(g);
    SameAtKey(m, n, "path");
    SameAtKey(m, n, "digest");
    SameAtKey(m, n, "count");
  }

  lemma {:induction false} DescribedKeys(f: FileEntry)
    ensures
      var fields := Described(f).fields;
      && DistinctKeys(fields) && Get(fields, "path") == Some(Str(f.path))
      && Get(fields, "digest") == Some(Str(f.digest)) && Get(fields, "count") == Some(Num(f.count))
  {
    var fields := Described(f).fields;
    assert fields[0].key[0] == 'p' && fields[1].key[0] == 'd' && fields[2].key[0] == 'c';
    GetAt(fields, 0);
    GetAt(fields, 1);
    GetAt(fields, 2);
  }

  lemma SameCounts(a: SourceAdapter, b: SourceAdapter)
    requires Canon(CountsJson(AllCounts(a))) == Canon(CountsJson(AllCounts(b)))
    ensures AllCounts(a) == AllCounts(b)
  {
    hide Rows, Canon;
    var m, n := CountsJson(AllCounts(a)).fields, CountsJson(AllCounts(b)).fields;
    TablesDistinct();
    assert forall i | 0 <= i < |TABLE_ORDER| :: m[i].key == TABLE_ORDER[i] == n[i].key;
    forall i | 0 <= i < |TABLE_ORDER| ensures AllCounts(a)[i] == AllCounts(b)[i] {
      GetAt(m, i);
      GetAt(n, i);
      SameAtKey(m, n, TABLE_ORDER[i]);
      CanonNumber(m[i].value.n);
      CanonNumber(n[i].value.n);
    }
  }

  lemma CanonNumber(n: int)
    ensures Canon(Num(n)) == Num(n)
  {
  }

  lemma TablesDistinct()
    ensures forall i, j | 0 <= i < j < |TABLE_ORDER| :: TABLE_ORDER[i] != TABLE_ORDER[j]
  {
    forall i, j | 0 <= i < j < |TABLE_ORDER| ensures TABLE_ORDER[i] != TABLE_ORDER[j] { TablesDiffer(j); }
  }
}
