/** The deterministic export: sorted, redacted, canonically printed rows, and a manifest over their digests. */
module Exporter {
  import opened Basics
  import opened Sorting
  import opened Json
  import opened Redactor

  const TABLE_ORDER: seq<string> := [
    "identities", "memories", "catalog_entries", "catalog_sources", "catalog_relations", "events", "audit",
    "sync_previews"]

  /** The library code under the export: `JSON.stringify`, SHA-256, and printing a count as a JSON number. */
  datatype Codec = Codec(stringify: Json -> string, digest: string -> string)

  datatype SourceAdapter = SourceAdapter(adapterId: string, sourceDigest: string, rows: map<string, seq<Json>>)
  datatype FileEntry = FileEntry(path: string, digest: string, count: nat, content: string)
  datatype ExportResult = ExportResult(
    counts: seq<(string, nat)>, descriptors: seq<FileEntry>, manifestDigest: string, files: seq<FileEntry>)

  // ---- canonical text --------------------------------------------------------------------------

  function ByKey(): (Field, Field) -> bool {
    (x: Field, y: Field) => Less(x.key, y.key)
  }

  /** Fields with an undefined value are dropped. */
  function Defined(fields: seq<Field>): (r: seq<Field>)
    ensures forall f | f in r :: f in fields
  {
    if fields == [] then []
    else (if fields[0].value == Undefined then [] else [fields[0]]) + Defined(fields[1..])
  }

  /** Each value canonical, each object's keys in ascending order. */
  function Canon(v: Json): Json {
    match v
    case Arr(items) => Arr(seq(|items|, i requires 0 <= i < |items| => Canon(items[i])))
    case Obj(fields) =>
      var canonical := seq(|fields|, i requires 0 <= i < |fields| => Field(fields[i].key, Canon(fields[i].value)));
      Obj(Defined(Sort(ByKey(), canonical)))
    case _ => v
  }

  function StableStringify(c: Codec, v: Json): string {
    c.stringify(Canon(v))
  }

  // ---- rows ------------------------------------------------------------------------------------

  /** The string a row is sorted by. */
  function IdOf(row: Json): string {
    if !row.Obj? then ""
    else
      match Get(row.fields, "id")
      case Some(Str(s)) => s
      case _ => ""
  }

  function ById(): (Json, Json) -> bool {
    (x: Json, y: Json) => Less(IdOf(x), IdOf(y))
  }

  function Rows(source: SourceAdapter, table: string): seq<Json> {
    if table in source.rows then source.rows[table] else []
  }

  /** What is printed for a row. */
  function Line(c: Codec, row: Json): string {
    StableStringify(c, Redact(row))
  }

  function Lines(c: Codec, rows: seq<Json>): string {
    if rows == [] then "" else Line(c, rows[0]) + "\n" + Lines(c, rows[1..])
  }

  /** One NDJSON file: the table's rows by id, redacted and printed one to a line. */
  function FileOf(c: Codec, table: string, rows: seq<Json>): FileEntry {
    var content := Lines(c, Sort(ById(), rows));
    FileEntry(table + ".ndjson", c.digest(content), |rows|, content)
  }

  function AllFiles(c: Codec, source: SourceAdapter): seq<FileEntry> {
    seq(|TABLE_ORDER|, i requires 0 <= i < |TABLE_ORDER| => FileOf(c, TABLE_ORDER[i], Rows(source, TABLE_ORDER[i])))
  }

  function AllCounts(source: SourceAdapter): seq<(string, nat)> {
    seq(|TABLE_ORDER|, i requires 0 <= i < |TABLE_ORDER| => (TABLE_ORDER[i], |Rows(source, TABLE_ORDER[i])|))
  }

  function ByPath(): (FileEntry, FileEntry) -> bool {
    (x: FileEntry, y: FileEntry) => Less(x.path, y.path)
  }

  function Described(f: FileEntry): Json {
    Obj([Field("path", Str(f.path)), Field("digest", Str(f.digest)), Field("count", Num(f.count))])
  }

  function ManifestJson(
      source: SourceAdapter, counts: seq<(string, nat)>, files: seq<FileEntry>, classification: string): Json
  {
    Obj([
      Field("schemaVersion", Num(1)),
      Field("adapterId", Str(source.adapterId)),
      Field("sourceDigest", Str(source.sourceDigest)),
      Field("counts", Obj(seq(|counts|, i requires 0 <= i < |counts| => Field(counts[i].0, Num(counts[i].1))))),
      Field("files", Arr(seq(|files|, i requires 0 <= i < |files| => Described(files[i])))),
      Field("classification", Obj([Field("default", Str(classification))]))])
  }

  /** What an export returns. */
  function Exported(c: Codec, source: SourceAdapter, classification: string): ExportResult {
    var files := Sort(ByPath(), AllFiles(c, source));
    var counts := AllCounts(source);
    var manifestJson := StableStringify(c, ManifestJson(source, counts, files, classification));
    ExportResult(counts, files, c.digest(manifestJson), files)
  }

  class ExportService {
    const codec: Codec
    const classification: string
    /** The files of the working directory. */
    var workdir: map<string, string>

    constructor (codec: Codec, classification: string)
      ensures this.codec == codec && this.classification == classification && workdir == map[]
    {
      this.codec, this.classification, workdir := codec, classification, map[];
    }

    /** The rows of one table, redacted and printed in order. */
    method PrintRows(rows: seq<Json>) returns (content: string)
      ensures content == Lines(codec, rows)
    {
      hide Redact, StableStringify, IsSecretKey;
      content := "";
      for i := 0 to |rows|
        invariant content + Lines(codec, rows[i..]) == Lines(codec, rows)
      {
        var redacted := RedactInternal(rows[i]);
        content := content + (StableStringify(codec, redacted) + "\n");
        assert rows[i..][1..] == rows[i + 1..];
      }
    }

    method Run(source: SourceAdapter) returns (r: ExportResult)
      modifies this
      ensures r == Exported(codec, source, classification)
      ensures forall f | f in r.files :: f.path in workdir && workdir[f.path] == f.content
    {
      hide Sort, Lines, StableStringify, ManifestJson, Rows, IdOf;
      var counts: seq<(string, nat)>, files: seq<FileEntry> := [], [];
      for t := 0 to |TABLE_ORDER|
        invariant counts == AllCounts(source)[..t] && files == AllFiles(codec, source)[..t]
        invariant forall i | 0 <= i < t ::
          && files[i].path == TABLE_ORDER[i] + ".ndjson"
          && files[i].path in workdir && workdir[files[i].path] == files[i].content
      {
        var table := TABLE_ORDER[t];
        var rows := Rows(source, table);
        var sorted := Sort(ById(), rows);
        var content := PrintRows(sorted);
        counts := counts + [(table, |sorted|)];
        var path := table + ".ndjson";
        TablesDiffer(t);
        workdir := workdir[path := content];
        files := files + [FileEntry(path, codec.digest(content), |sorted|, content)];
      }
      assert counts == AllCounts(source) && files == AllFiles(codec, source);
      var descriptors := Sort(ByPath(), files);
      var manifestJson := StableStringify(codec, ManifestJson(source, counts, descriptors, classification));
      r := ExportResult(counts, descriptors, codec.digest(manifestJson), descriptors);
      SortedFilesListed(files);
      ManifestApart();
      workdir := workdir["manifest.json" := manifestJson + "\n"];
    }
  }

  lemma ManifestApart()
    ensures forall i | 0 <= i < |TABLE_ORDER| :: TABLE_ORDER[i] + ".ndjson" != "manifest.json"
  {
    forall i | 0 <= i < |TABLE_ORDER| ensures TABLE_ORDER[i] + ".ndjson" != "manifest.json" {
      var path := TABLE_ORDER[i] + ".ndjson";
      assert path[|path| - 5] == 'd';
    }
  }

  lemma TablesDiffer(t: nat)
    requires t < |TABLE_ORDER|
    ensures forall i | 0 <= i < t :: TABLE_ORDER[i] + ".ndjson" != TABLE_ORDER[t] + ".ndjson"
  {
    assert TABLE_ORDER[2][8] != TABLE_ORDER[3][8];
    forall i | 0 <= i < t ensures TABLE_ORDER[i] + ".ndjson" != TABLE_ORDER[t] + ".ndjson" {
      var a, b, s := TABLE_ORDER[i], TABLE_ORDER[t], ".ndjson";
      assert |a| != |b| || (i == 2 && t == 3);
      assert |a| == |b| ==> (a + s)[8] == a[8] && (b + s)[8] == b[8];
    }
  }

  lemma SortedFilesListed(files: seq<FileEntry>)
    ensures forall f | f in Sort(ByPath(), files) :: f in files
  {
    forall f | f in Sort(ByPath(), files) ensures f in files {
      assert f in multiset(Sort(ByPath(), files));
    }
  }

  // ---- canonical text forgets the order of keys ---------------------------------------------------

  ghost predicate RowsWellFormed(rows: seq<Json>) {
    forall x | x in rows :: WellFormed(x)
  }

  lemma {:induction false} RedactWellFormed(v: Json)
    requires WellFormed(v)
    ensures WellFormed(Redact(v))
  {
    hide IsSecretKey;
    match v {
      case Arr(items) =>
        forall x | x in Redact(v).items ensures WellFormed(x) {
          var i :| 0 <= i < |items| && Redact(v).items[i] == x;
          RedactWellFormed(items[i]);
        }
      case Obj(fields) =>
        var out := Redact(v).fields;
        forall i, j | 0 <= i < j < |out| ensures out[i].key != out[j].key { assert fields[i].key != fields[j].key; }
        forall f | f in out ensures WellFormed(f.value) {
          var i :| 0 <= i < |out| && out[i] == f;
          assert fields[i] in fields;
          RedactWellFormed(fields[i].value);
        }
      case _ =>
    }
  }

  lemma FieldOrderTotal(fields: seq<Field>)
    requires DistinctKeys(fields)
    ensures StrictTotalOn(ByKey(), multiset(fields))
  {
    var lt, s := ByKey(), multiset(fields);
    forall x {:trigger lt(x, x)} | x in s ensures !lt(x, x) { LessIrreflexive(x.key); }
    forall x, y, z {:trigger lt(x, y), lt(y, z)} | lt(x, y) && lt(y, z) ensures lt(x, z) {
      LessTransitive(x.key, y.key, z.key);
    }
    forall x, y {:trigger lt(x, y)} | x in s && y in s && x != y ensures lt(x, y) || lt(y, x) {
      var i :| 0 <= i < |fields| && fields[i] == x;
      var j :| 0 <= j < |fields| && fields[j] == y;
      assert x.key != y.key;
      LessTotal(x.key, y.key);
    }
  }

  function CanonFields(fields: seq<Field>): (r: seq<Field>)
    ensures |r| == |fields|
  {
    seq(|fields|, i requires 0 <= i < |fields| => Field(fields[i].key, Canon(fields[i].value)))
  }

  /** The canonical form forgets the order of keys, at every depth. */
  lemma {:induction false} CanonForgetsKeyOrder(a: Json, b: Json)
    requires WellFormed(a) && WellFormed(b) && Equivalent(a, b)
    ensures Canon(a) == Canon(b)
    decreases a
  {
    match a {
      case Arr(items) =>
        forall i | 0 <= i < |items| ensures Canon(items[i]) == Canon(b.items[i]) {
          CanonForgetsKeyOrder(items[i], b.items[i]);
        }
        assert Canon(a).items == Canon(b).items;
      case Obj(fields) =>
        forall i | 0 <= i < |fields|
          ensures Get(b.fields, fields[i].key).Some?
          ensures Canon(fields[i].value) == Canon(Get(b.fields, fields[i].key).value)
        {
          assert fields[i] in fields;
          var j := GetFound(b.fields, fields[i].key);
          assert b.fields[j] in b.fields;
          CanonForgetsKeyOrder(fields[i].value, Get(b.fields, fields[i].key).value);
        }
        SameCanonFields(fields, b.fields);
      case _ =>
    }
  }

  lemma CanonObject(fields: seq<Field>)
    ensures Canon(Obj(fields)) == Obj(Defined(Sort(ByKey(), CanonFields(fields))))
  {
    hide Sort, Defined;
  }

  lemma SameCanonFields(a: seq<Field>, b: seq<Field>)
    requires DistinctKeys(a) && DistinctKeys(b) && |a| == |b|
    requires forall i | 0 <= i < |a| ::
      Get(b, a[i].key).Some? && Canon(a[i].value) == Canon(Get(b, a[i].key).value)
    ensures Canon(Obj(a)) == Canon(Obj(b))
  {
    CanonObject(a);
    CanonObject(b);
    hide Canon, Sort, Get;
    var ca, cb := CanonFields(a), CanonFields(b);
    forall x | x in ca ensures x in cb {
      var i :| 0 <= i < |ca| && ca[i] == x;
      var j := GetFound(b, a[i].key);
      assert cb[j] == x;
    }
    CanonDistinct(a);
    CanonDistinct(b);
    SameElements(ca, cb);
    FieldOrderTotal(ca);
    SortForgetsOrder(ByKey(), ca, cb);
  }

  lemma CanonDistinct(a: seq<Field>)
    requires DistinctKeys(a)
    ensures DistinctKeys(CanonFields(a)) && NoDuplicates(CanonFields(a))
  {
    var c := CanonFields(a);
    forall i, j | 0 <= i < j < |c| ensures c[i].key != c[j].key { assert a[i].key != a[j].key; }
  }

  // ---- rows that print alike ---------------------------------------------------------------------

  /** Row by row the same id and the same printed line. */
  ghost predicate Paired(c: Codec, a: seq<Json>, b: seq<Json>) {
    |a| == |b| && forall i | 0 <= i < |a| :: IdOf(a[i]) == IdOf(b[i]) && Line(c, a[i]) == Line(c, b[i])
  }

  lemma {:induction false} InsertKeepsPairs(c: Codec, x: Json, y: Json, a: seq<Json>, b: seq<Json>)
    requires IdOf(x) == IdOf(y) && Line(c, x) == Line(c, y) && Paired(c, a, b)
    ensures Paired(c, Insert(ById(), x, a), Insert(ById(), y, b))
  {
    hide IdOf, Line, Less, Paired;
    FirstPaired(c, a, b);
    if a == [] || !ById()(a[0], x) {
      PairOntoPairs(c, x, y, a, b);
    } else {
      InsertKeepsPairs(c, x, y, a[1..], b[1..]);
      PairOntoPairs(c, a[0], b[0], Insert(ById(), x, a[1..]), Insert(ById(), y, b[1..]));
    }
  }

  lemma FirstPaired(c: Codec, a: seq<Json>, b: seq<Json>)
    requires Paired(c, a, b)
    ensures |a| == |b|
    ensures a != [] ==> Paired(c, a[1..], b[1..]) && IdOf(a[0]) == IdOf(b[0]) && Line(c, a[0]) == Line(c, b[0])
  {
    hide IdOf, Line;
  }

  lemma PairOntoPairs(c: Codec, x: Json, y: Json, a: seq<Json>, b: seq<Json>)
    requires IdOf(x) == IdOf(y) && Line(c, x) == Line(c, y) && Paired(c, a, b)
    ensures Paired(c, [x] + a, [y] + b)
  {
    hide IdOf, Line;
  }

  /** The sort moves paired rows alike, whether or not their ids are distinct. */
  lemma {:induction false} SortKeepsPairs(c: Codec, a: seq<Json>, b: seq<Json>)
    requires Paired(c, a, b)
    ensures Paired(c, Sort(ById(), a), Sort(ById(), b))
  {
    hide IdOf, Line, Less;
    if a != [] {
      SortKeepsPairs(c, a[1..], b[1..]);
      InsertKeepsPairs(c, a[0], b[0], Sort(ById(), a[1..]), Sort(ById(), b[1..]));
    }
  }

  lemma {:induction false} SameLines(c: Codec, a: seq<Json>, b: seq<Json>)
    requires |a| == |b| && forall k | 0 <= k < |a| :: Line(c, a[k]) == Line(c, b[k])
    ensures Lines(c, a) == Lines(c, b)
  {
    hide Line;
    if a != [] {
      SameLines(c, a[1..], b[1..]);
    }
  }

  lemma PairedFile(c: Codec, table: string, a: seq<Json>, b: seq<Json>)
    requires Paired(c, a, b)
    ensures FileOf(c, table, a) == FileOf(c, table, b)
  {
    hide IdOf, Line, Sort, Lines;
    SortKeepsPairs(c, a, b);
    SameLines(c, Sort(ById(), a), Sort(ById(), b));
  }

  /** The export is a function of the files of its tables. */
  lemma SameExport(c: Codec, a: SourceAdapter, b: SourceAdapter, classification: string)
    requires a.adapterId == b.adapterId && a.sourceDigest == b.sourceDigest
    requires forall t | t in TABLE_ORDER :: FileOf(c, t, Rows(a, t)) == FileOf(c, t, Rows(b, t))
    ensures Exported(c, a, classification) == Exported(c, b, classification)
  {
    hide Rows, Sort, Lines;
    forall i | 0 <= i < |TABLE_ORDER|
      ensures AllFiles(c, a)[i] == AllFiles(c, b)[i] && AllCounts(a)[i] == AllCounts(b)[i]
    {
      var t := TABLE_ORDER[i];
      assert FileOf(c, t, Rows(a, t)).count == FileOf(c, t, Rows(b, t)).count;
    }
    assert AllFiles(c, a) == AllFiles(c, b) && AllCounts(a) == AllCounts(b);
  }

  // ---- secrets -----------------------------------------------------------------------------------

  lemma IdIsPublic()
    ensures !IsSecretKey("id")
  {
  }

  lemma {:induction false} LowEqualIds(a: seq<Field>, b: seq<Field>)
    requires LowEqual(Obj(a), Obj(b))
    ensures Get(a, "id").Some? <==> Get(b, "id").Some?
    ensures Get(a, "id").Some? ==> LowEqual(Get(a, "id").value, Get(b, "id").value)
  {
    IdIsPublic();
    hide IsSecretKey;
    if a != [] {
      assert LowEqual(Obj(a[1..]), Obj(b[1..])) by {
        forall i | 0 <= i < |a[1..]| ensures a[1..][i] == a[i + 1] && b[1..][i] == b[i + 1] { }
      }
      if a[0].key != "id" { LowEqualIds(a[1..], b[1..]); }
    }
  }

  lemma LowEqualId(x: Json, y: Json)
    requires LowEqual(x, y)
    ensures IdOf(x) == IdOf(y)
  {
    if x.Obj? { LowEqualIds(x.fields, y.fields); }
  }

  /** The sources differ at most in values below secret-shaped keys, at any depth. */
  ghost predicate SameButSecrets(a: SourceAdapter, b: SourceAdapter) {
    && a.adapterId == b.adapterId && a.sourceDigest == b.sourceDigest
    && forall t | t in TABLE_ORDER :: RowsLowEqual(Rows(a, t), Rows(b, t))
  }

  ghost predicate RowsLowEqual(x: seq<Json>, y: seq<Json>) {
    |x| == |y| && forall i | 0 <= i < |x| :: LowEqual(x[i], y[i])
  }

  lemma LowEqualPaired(c: Codec, x: seq<Json>, y: seq<Json>)
    requires RowsLowEqual(x, y)
    ensures Paired(c, x, y)
  {
    hide IdOf, Redact, LowEqual, StableStringify;
    forall i | 0 <= i < |x| ensures IdOf(x[i]) == IdOf(y[i]) && Redact(x[i]) == Redact(y[i]) {
      RedactHidesExactly(x[i], y[i]);
      LowEqualId(x[i], y[i]);
    }
  }

  /** Noninterference: no byte of any file, no digest and no count depends on a value below a secret-shaped key. */
  lemma SecretsDoNotShow(c: Codec, a: SourceAdapter, b: SourceAdapter, classification: string)
    requires SameButSecrets(a, b)
    ensures Exported(c, a, classification) == Exported(c, b, classification)
  {
    hide Rows, RowsLowEqual, FileOf, Exported, Paired;
    forall t | t in TABLE_ORDER ensures FileOf(c, t, Rows(a, t)) == FileOf(c, t, Rows(b, t)) {
      LowEqualPaired(c, Rows(a, t), Rows(b, t));
      PairedFile(c, t, Rows(a, t), Rows(b, t));
    }
    SameExport(c, a, b, classification);
  }

  // ---- order -------------------------------------------------------------------------------------

  function Ids(rows: seq<Json>): seq<string> {
    Map(IdOf, rows)
  }

  /** Sorting rows sorts their ids, whether or not these repeat. */
  lemma SortedIds(rows: seq<Json>)
    ensures Ids(Sort(ById(), rows)) == Sort(Less, Ids(rows))
    ensures Ascending(Less, Ids(Sort(ById(), rows)))
  {
    hide Sort, IdOf, Less;
    MapSorts(ById(), Less, IdOf, rows);
    LessStrictTotal(multiset(Ids(rows)));
    SortAscends(Less, Ids(rows));
  }

  /** Rows that share an id print the same line. */
  ghost predicate SharedIdsPrintAlike(c: Codec, rows: seq<Json>) {
    forall x, y | x in rows && y in rows && IdOf(x) == IdOf(y) :: Line(c, x) == Line(c, y)
  }

  lemma SameMembers(a: seq<Json>, b: seq<Json>)
    requires multiset(a) == multiset(b)
    ensures |a| == |b| && forall x :: x in a <==> x in b
  {
    assert |multiset(a)| == |a| && |multiset(b)| == |b|;
    forall x ensures x in a <==> x in b {
      assert x in a <==> x in multiset(a);
      assert x in b <==> x in multiset(b);
    }
  }

  /** Where rows that share an id print alike, the order of the rows leaves no trace in the file. */
  lemma PermutedFile(c: Codec, table: string, rows: seq<Json>, permuted: seq<Json>)
    requires multiset(permuted) == multiset(rows) && SharedIdsPrintAlike(c, rows)
    ensures FileOf(c, table, permuted) == FileOf(c, table, rows)
  {
    hide Sort, IdOf, Less, Line, Lines;
    var x, y := Sort(ById(), permuted), Sort(ById(), rows);
    SortedIds(permuted);
    SortedIds(rows);
    MapPermutes(IdOf, permuted, rows);
    LessStrictTotal(multiset(Ids(permuted)));
    SortForgetsOrder(Less, Ids(permuted), Ids(rows));
    SameMembers(permuted, rows);
    SameMembers(x, rows);
    SameMembers(y, rows);
    forall k | 0 <= k < |x| ensures Line(c, x[k]) == Line(c, y[k]) {
      assert x[k] in x && y[k] in y;
      assert Ids(x)[k] == Ids(y)[k];
    }
    SameLines(c, x, y);
  }

  /** b's rows are a's, listed in another order, each with its keys in another order at any depth. */
  ghost predicate Reordered(a: seq<Json>, b: seq<Json>, permuted: seq<Json>) {
    multiset(permuted) == multiset(a) && |permuted| == |b| && forall i | 0 <= i < |b| :: Equivalent(permuted[i], b[i])
  }

  lemma EquivalentPaired(c: Codec, a: seq<Json>, b: seq<Json>)
    requires |a| == |b| && forall i | 0 <= i < |b| :: Equivalent(a[i], b[i])
    requires RowsWellFormed(a) && RowsWellFormed(b)
    ensures Paired(c, a, b)
  {
    hide IdOf, Redact, Equivalent, Canon;
    forall i | 0 <= i < |b| ensures IdOf(a[i]) == IdOf(b[i]) && Line(c, a[i]) == Line(c, b[i]) {
      assert a[i] in a && b[i] in b;
      EquivalentIds(a[i], b[i]);
      RedactEquivalent(a[i], b[i]);
      RedactWellFormed(a[i]);
      RedactWellFormed(b[i]);
      CanonForgetsKeyOrder(Redact(a[i]), Redact(b[i]));
    }
  }

  ghost predicate ReorderedTable(c: Codec, a: seq<Json>, b: seq<Json>, permuted: seq<Json>) {
    RowsWellFormed(a) && RowsWellFormed(b) && SharedIdsPrintAlike(c, a) && Reordered(a, b, permuted)
  }

  lemma ReorderedFile(c: Codec, table: string, a: seq<Json>, b: seq<Json>, permuted: seq<Json>)
    requires ReorderedTable(c, a, b, permuted)
    ensures FileOf(c, table, a) == FileOf(c, table, b)
  {
    hide SharedIdsPrintAlike, Equivalent, FileOf, Paired;
    SameMembers(permuted, a);
    EquivalentPaired(c, permuted, b);
    PairedFile(c, table, permuted, b);
    PermutedFile(c, table, a, permuted);
  }

  /** Determinism: the order of the rows of a table and of the keys of an object leave no trace in an export. */
  lemma OrderDoesNotShow(
      c: Codec, a: SourceAdapter, b: SourceAdapter, permuted: string -> seq<Json>, classification: string)
    requires a.adapterId == b.adapterId && a.sourceDigest == b.sourceDigest
    requires forall t | t in TABLE_ORDER :: ReorderedTable(c, Rows(a, t), Rows(b, t), permuted(t))
    ensures Exported(c, a, classification) == Exported(c, b, classification)
  {
    hide Rows, ReorderedTable, FileOf, Exported;
    forall t | t in TABLE_ORDER ensures FileOf(c, t, Rows(a, t)) == FileOf(c, t, Rows(b, t)) {
      ReorderedFile(c, t, Rows(a, t), Rows(b, t), permuted(t));
    }
    SameExport(c, a, b, classification);
  }

  ghost predicate DistinctIds(rows: seq<Json>) {
    forall i, j | 0 <= i < j < |rows| :: IdOf(rows[i]) != IdOf(rows[j])
  }

  lemma DistinctIdsPrintAlike(c: Codec, rows: seq<Json>)
    requires DistinctIds(rows)
    ensures SharedIdsPrintAlike(c, rows)
  {
    hide IdOf, Line;
    forall x, y | x in rows && y in rows && IdOf(x) == IdOf(y) ensures x == y {
      var i :| 0 <= i < |rows| && rows[i] == x;
      var j :| 0 <= j < |rows| && rows[j] == y;
      assert i == j;
    }
  }

  // ---- rows that share an id ---------------------------------------------------------------------

  ghost predicate OrderUnnoticed(c: Codec, table: string, rows: seq<Json>) {
    forall p | multiset(p) == multiset(rows) :: FileOf(c, table, p) == FileOf(c, table, rows)
  }

  /** A table's file is the same for every order of its rows exactly when rows that share an id print alike. */
  lemma SharedIdShowsOrder(c: Codec, table: string, rows: seq<Json>)
    requires forall x | x in rows :: '\n' !in Line(c, x)
    ensures OrderUnnoticed(c, table, rows) <==> SharedIdsPrintAlike(c, rows)
  {
    hide FileOf, IdOf, Line;
    if SharedIdsPrintAlike(c, rows) {
      forall p | multiset(p) == multiset(rows) ensures FileOf(c, table, p) == FileOf(c, table, rows) {
        PermutedFile(c, table, rows, p);
      }
    }
    if OrderUnnoticed(c, table, rows) {
      forall x, y | x in rows && y in rows && IdOf(x) == IdOf(y) ensures Line(c, x) == Line(c, y) {
        if x != y {
          var rest := PullTwo(rows, x, y);
          assert FileOf(c, table, [x, y] + rest) == FileOf(c, table, rows) == FileOf(c, table, [y, x] + rest);
          SwappedFiles(c, table, x, y, rest);
        }
      }
    }
  }

  lemma Pull(rows: seq<Json>, x: Json) returns (rest: seq<Json>)
    requires x in rows
    ensures multiset([x] + rest) == multiset(rows)
  {
    var i :| 0 <= i < |rows| && rows[i] == x;
    rest := rows[..i] + rows[i + 1..];
    assert rows == rows[..i] + [x] + rows[i + 1..];
  }

  lemma PullTwo(rows: seq<Json>, x: Json, y: Json) returns (rest: seq<Json>)
    requires x in rows && y in rows && x != y
    ensures multiset([x, y] + rest) == multiset(rows) == multiset([y, x] + rest)
  {
    var others := Pull(rows, x);
    assert y in multiset(rows);
    assert y in others;
    rest := Pull(others, y);
    assert [x, y] + rest == [x] + ([y] + rest);
    assert [y, x] + rest == [y] + [x] + rest;
  }

  /** Where a row goes: in front of the first whose id is not below its own. */
  function Place(id: string, s: seq<Json>): (k: nat)
    ensures k <= |s|
  {
    if s == [] || !Less(IdOf(s[0]), id) then 0 else 1 + Place(id, s[1..])
  }

  lemma {:induction false} InsertAtPlace(x: Json, s: seq<Json>)
    ensures Insert(ById(), x, s) == s[..Place(IdOf(x), s)] + [x] + s[Place(IdOf(x), s)..]
  {
    hide Less, IdOf;
    if s != [] && Less(IdOf(s[0]), IdOf(x)) { InsertAtPlace(x, s[1..]); }
  }

  lemma {:induction false} PlaceStays(y: Json, s: seq<Json>)
    ensures var k := Place(IdOf(y), s); Place(IdOf(y), s[..k] + ([y] + s[k..])) == k
  {
    hide Less, IdOf;
    LessIrreflexive(IdOf(y));
    var k := Place(IdOf(y), s);
    if k > 0 {
      PlaceStays(y, s[1..]);
      assert (s[..k] + ([y] + s[k..]))[1..] == s[1..][..k - 1] + ([y] + s[1..][k - 1..]);
    }
  }

  lemma SortStep(x: Json, rest: seq<Json>)
    ensures Sort(ById(), [x] + rest) == Insert(ById(), x, Sort(ById(), rest))
  {
    hide Insert;
    assert ([x] + rest)[1..] == rest;
  }

  lemma {:induction false} InsertTwice(x: Json, y: Json, s: seq<Json>)
    requires IdOf(x) == IdOf(y)
    ensures var k := Place(IdOf(x), s);
      Insert(ById(), x, Insert(ById(), y, s)) == s[..k] + ([x, y] + s[k..])
  {
    hide Less, IdOf, Place, Insert;
    var k := Place(IdOf(x), s);
    var front, back := s[..k], s[k..];
    InsertAtPlace(y, s);
    assert front + [y] + back == front + ([y] + back);
    PlaceStays(y, s);
    InsertAtPlace(x, front + ([y] + back));
    Between(front, x, [y] + back);
    assert [x] + ([y] + back) == [x, y] + back;
  }

  lemma Between(front: seq<Json>, x: Json, back: seq<Json>)
    ensures (front + back)[..|front|] + [x] + (front + back)[|front|..] == front + ([x] + back)
  {
    assert (front + back)[..|front|] == front && (front + back)[|front|..] == back;
  }

  /** Two rows with one id in front of others end up side by side, in the order in which they were. */
  lemma {:induction false} SideBySide(x: Json, y: Json, rest: seq<Json>)
    requires IdOf(x) == IdOf(y)
    ensures var s := Sort(ById(), rest); var k := Place(IdOf(x), s);
      Sort(ById(), [x, y] + rest) == s[..k] + ([x, y] + s[k..])
  {
    hide Less, IdOf, Place, Sort, Insert;
    assert [x, y] + rest == [x] + ([y] + rest);
    SortStep(y, rest);
    SortStep(x, [y] + rest);
    InsertTwice(x, y, Sort(ById(), rest));
  }

  lemma LinesStep(c: Codec, first: Json, rest: seq<Json>)
    ensures Lines(c, [first] + rest) == Line(c, first) + "\n" + Lines(c, rest)
  {
    hide Line;
    assert ([first] + rest)[1..] == rest;
  }

  lemma {:induction false} LinesAppend(c: Codec, a: seq<Json>, b: seq<Json>)
    ensures Lines(c, a + b) == Lines(c, a) + Lines(c, b)
  {
    hide Line, Lines;
    if a == [] {
      assert a + b == b;
      assert Lines(c, a) == "" by { LinesNone(c); }
    } else {
      var first, rest := a[0], a[1..];
      assert a == [first] + rest && a + b == [first] + (rest + b);
      LinesAppend(c, rest, b);
      LinesStep(c, first, rest);
      LinesStep(c, first, rest + b);
    }
  }

  lemma LinesNone(c: Codec)
    ensures Lines(c, []) == ""
  {
  }

  lemma TwoLines(c: Codec, x: Json, y: Json, more: seq<Json>)
    ensures Lines(c, [x, y] + more) == Line(c, x) + "\n" + (Line(c, y) + "\n" + Lines(c, more))
  {
    hide Line;
    assert ([x, y] + more)[1..] == [y] + more && ([y] + more)[1..] == more;
  }

  lemma SwappedFiles(c: Codec, table: string, x: Json, y: Json, rest: seq<Json>)
    requires IdOf(x) == IdOf(y) && '\n' !in Line(c, x) && '\n' !in Line(c, y)
    requires FileOf(c, table, [x, y] + rest) == FileOf(c, table, [y, x] + rest)
    ensures Line(c, x) == Line(c, y)
  {
    hide Line, Lines, IdOf, Sort, Place;
    var s := Sort(ById(), rest);
    var k := Place(IdOf(x), s);
    SideBySide(x, y, rest);
    SideBySide(y, x, rest);
    LinesAppend(c, s[..k], [x, y] + s[k..]);
    LinesAppend(c, s[..k], [y, x] + s[k..]);
    TwoLines(c, x, y, s[k..]);
    TwoLines(c, y, x, s[k..]);
    SamePrefix(Lines(c, s[..k]), Lines(c, [x, y] + s[k..]), Lines(c, [y, x] + s[k..]));
    var tail := Lines(c, s[k..]);
    FirstLine(Line(c, x), Line(c, y), Line(c, y) + "\n" + tail, Line(c, x) + "\n" + tail);
  }

  lemma SamePrefix(p: string, s: string, t: string)
    requires p + s == p + t
    ensures s == t
  {
    assert (p + s)[|p|..] == s && (p + t)[|p|..] == t;
  }

  lemma FirstLine(p: string, q: string, s: string, t: string)
    requires '\n' !in p && '\n' !in q && p + "\n" + s == q + "\n" + t
    ensures p == q
  {
    NotShorter(p, q, s, t);
    NotShorter(q, p, t, s);
    assert (p + "\n" + s)[..|p|] == p && (q + "\n" + t)[..|q|] == q;
  }

  lemma NotShorter(p: string, q: string, s: string, t: string)
    requires '\n' !in q && p + "\n" + s == q + "\n" + t
    ensures |p| >= |q|
  {
    var whole := q + "\n" + t;
    assert forall i | 0 <= i < |q| :: whole[i] == q[i] && q[i] != '\n';
    assert (p + "\n" + s)[|p|] == '\n';
  }

  // ---- reordered keys ------------------------------------------------------------------------------

  lemma EquivalentIds(x: Json, y: Json)
    requires Equivalent(x, y) && WellFormed(x) && WellFormed(y)
    ensures IdOf(x) == IdOf(y)
  {
    if x.Obj? {
      if Get(x.fields, "id").Some? {
        var i := GetFound(x.fields, "id");
        assert Get(y.fields, x.fields[i].key).Some?;
      } else if Get(y.fields, "id").Some? {
        MissingEverywhere(x.fields, y.fields, "id");
      }
    }
  }

  lemma MissingEverywhere(a: seq<Field>, b: seq<Field>, key: string)
    requires DistinctKeys(a) && DistinctKeys(b) && |a| == |b|
    requires forall i | 0 <= i < |a| :: Get(b, a[i].key).Some?
    ensures Get(a, key) == None ==> Get(b, key) == None
  {
    GetMissing(a, key);
    GetMissing(b, key);
    forall k | k in KeysOf(a) ensures k in KeysOf(b) {
      GetMissing(b, k);
      var i :| 0 <= i < |a| && KeysOf(a)[i] == k;
    }
    SameElements(KeysOf(a), KeysOf(b));
    assert key in KeysOf(b) <==> key in multiset(KeysOf(b));
    assert key in KeysOf(a) <==> key in multiset(KeysOf(a));
  }

  lemma {:induction false} RedactEquivalent(x: Json, y: Json)
    requires Equivalent(x, y) && WellFormed(x) && WellFormed(y)
    ensures Equivalent(Redact(x), Redact(y))
    decreases x
  {
    hide IsSecretKey;
    match x {
      case Arr(items) =>
        forall i | 0 <= i < |items| ensures Equivalent(Redact(items[i]), Redact(y.items[i])) {
          RedactEquivalent(items[i], y.items[i]);
        }
      case Obj(fields) =>
        var rx, ry := Redact(x).fields, Redact(y).fields;
        forall i | 0 <= i < |fields|
          ensures Get(ry, rx[i].key).Some? && Equivalent(rx[i].value, Get(ry, rx[i].key).value)
        {
          assert fields[i] in fields;
          var j := GetFound(y.fields, fields[i].key);
          assert y.fields[j] in y.fields;
          RedactEquivalent(fields[i].value, y.fields[j].value);
          var redacted := if IsSecretKey(fields[i].key) then REDACTED else Redact(y.fields[j].value);
          assert ry[j] == Field(fields[i].key, redacted);
          RedactKeys(y.fields, j);
        }
      case _ =>
    }
  }

  lemma RedactKeys(fields: seq<Field>, j: nat)
    requires DistinctKeys(fields) && j < |fields|
    ensures Get(Redact(Obj(fields)).fields, fields[j].key) == Some(Redact(Obj(fields)).fields[j].value)
  {
    hide IsSecretKey;
    var r := Redact(Obj(fields)).fields;
    forall i, k | 0 <= i < k < |r| ensures r[i].key != r[k].key { assert fields[i].key != fields[k].key; }
    GetAt(r, j);
  }
}
