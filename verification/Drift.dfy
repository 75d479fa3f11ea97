/**
 * Manifest digests and drift detection in the materializer.
 *
 * A digest is taken of the canonical text of a manifest: canonical JSON, base64 and SHA-256 together are
 * one function of the manifest with its files sorted by path, assumed not to collide where it is compared.
 */
module Drift {
  import opened Basics
  import opened Sorting

  datatype ManifestFile = ManifestFile(relativePath: string, sha256: string, bytes: Bytes, mode: nat, sourceRef: string)

  datatype ManifestV1 = ManifestV1(
    runId: Option<string>, snapshotId: string, harness: string, profileId: string, targetRoot: string,
    files: seq<ManifestFile>, generatedAt: string, rendererVersion: string)

  /** What `readFileSync` would find at each path of the target. */
  type Content = map<string, Bytes>

  /** The library code around a manifest: the hash of its canonical text, and the path comparison. */
  datatype Codec = Codec(hash: ManifestV1 -> string, before: (string, string) -> bool)

  /** The digest of a target without a manifest. */
  const NO_MANIFEST: string := "0000000000000000000000000000000000000000000000000000000000000000"

  function ByPath(c: Codec): (ManifestFile, ManifestFile) -> bool {
    (x: ManifestFile, y: ManifestFile) => c.before(x.relativePath, y.relativePath)
  }

  /** The canonical form of a manifest, which is also what is written to disk and read back. */
  function Canonical(c: Codec, plan: ManifestV1): ManifestV1 {
    plan.(files := Sort(ByPath(c), plan.files))
  }

  function DigestPlan(c: Codec, plan: ManifestV1): string {
    c.hash(Canonical(c, plan))
  }

  /** Live bytes, with a missing file read as empty. */
  function LiveBytes(live: Content, path: string): Bytes {
    if path in live then live[path] else []
  }

  function WithLive(live: Content, file: ManifestFile): ManifestFile {
    file.(bytes := LiveBytes(live, file.relativePath))
  }

  function Reread(live: Content, files: seq<ManifestFile>): (r: seq<ManifestFile>)
    ensures |r| == |files|
  {
    seq(|files|, i requires 0 <= i < |files| => WithLive(live, files[i]))
  }

  function Rebuilt(live: Content, observed: ManifestV1): ManifestV1 {
    observed.(files := Reread(live, observed.files))
  }

  /** The digest of the manifest on disk with its files re-read. */
  function ObservedDigest(c: Codec, manifest: Option<ManifestV1>, live: Content): string {
    if manifest == None then NO_MANIFEST else DigestPlan(c, Rebuilt(live, manifest.value))
  }

  // ---- hypotheses about the library code -------------------------------------------------------

  /** The hash does not collide on the canonical texts of these two manifests. */
  ghost predicate TellsApart(c: Codec, a: ManifestV1, b: ManifestV1) {
    DigestPlan(c, a) == DigestPlan(c, b) ==> Canonical(c, a) == Canonical(c, b)
  }

  /** Where this manifest and these files are found, the hash tells the plan from them and from no manifest. */
  ghost predicate SoundHash(c: Codec, plan: ManifestV1, manifest: Option<ManifestV1>, live: Content) {
    && DigestPlan(c, plan) != NO_MANIFEST
    && (manifest.Some? ==> TellsApart(c, Rebuilt(live, manifest.value), plan))
  }

  /** No path comes twice and the comparison orders the plan's paths strictly and totally. */
  ghost predicate OrdersPaths(c: Codec, files: seq<ManifestFile>) {
    && (forall i, j | 0 <= i < j < |files| :: files[i].relativePath != files[j].relativePath)
    && (forall f {:trigger f in files} | f in files :: !c.before(f.relativePath, f.relativePath))
    && (forall f, g, h | f in files && g in files && h in files
          && c.before(f.relativePath, g.relativePath) && c.before(g.relativePath, h.relativePath) ::
          c.before(f.relativePath, h.relativePath))
    && (forall f, g | f in files && g in files && f.relativePath != g.relativePath ::
          c.before(f.relativePath, g.relativePath) || c.before(g.relativePath, f.relativePath))
  }

  // ---- sorting by path -------------------------------------------------------------------------

  lemma SamePathSameFile(files: seq<ManifestFile>, f: ManifestFile, g: ManifestFile)
    requires forall i, j | 0 <= i < j < |files| :: files[i].relativePath != files[j].relativePath
    requires f in files && g in files && f.relativePath == g.relativePath
    ensures f == g
  {
    var i :| 0 <= i < |files| && files[i] == f;
    var j :| 0 <= j < |files| && files[j] == g;
  }

  lemma PathOrderTotal(c: Codec, files: seq<ManifestFile>)
    requires OrdersPaths(c, files)
    ensures StrictTotalOn(ByPath(c), multiset(files))
  {
    var lt, s := ByPath(c), multiset(files);
    forall x {:trigger lt(x, x)} | x in s ensures !lt(x, x) {
      assert x in files;
    }
    forall x, y, z {:trigger lt(x, y), lt(y, z)} | x in s && y in s && z in s && lt(x, y) && lt(y, z) ensures lt(x, z) {
      assert x in files && y in files && z in files;
    }
    forall x, y {:trigger lt(x, y)} | x in s && y in s && x != y ensures lt(x, y) || lt(y, x) {
      assert x in files && y in files;
      if x.relativePath == y.relativePath { SamePathSameFile(files, x, y); }
    }
  }

  // ---- the results -----------------------------------------------------------------------------

  /** The digest does not depend on the order of the files in the plan. */
  lemma DigestForgetsOrder(c: Codec, a: ManifestV1, b: ManifestV1)
    requires OrdersPaths(c, a.files)
    requires multiset(a.files) == multiset(b.files) && a.(files := b.files) == b
    ensures DigestPlan(c, a) == DigestPlan(c, b)
  {
    PathOrderTotal(c, a.files);
    SortForgetsOrder(ByPath(c), a.files, b.files);
  }

  /** Every declared file holds its planned bytes. */
  ghost predicate Undrifted(live: Content, plan: ManifestV1) {
    forall f | f in plan.files :: LiveBytes(live, f.relativePath) == f.bytes
  }

  function Blank(f: ManifestFile): ManifestFile {
    f.(bytes := [])
  }

  /** The manifest is the plan's own: the same header and, but for the bytes it quotes, the same files. */
  ghost predicate ManifestOf(m: ManifestV1, plan: ManifestV1) {
    m.(files := plan.files) == plan && multiset(Map(Blank, m.files)) == multiset(Map(Blank, plan.files))
  }

  /**
   * A digest observed on disk that equals a plan's digest means that the plan's own manifest is there and
   * every plan file already holds its planned bytes.
   */
  lemma MatchingDigestMeansApplied(c: Codec, plan: ManifestV1, manifest: Option<ManifestV1>, live: Content)
    requires SoundHash(c, plan, manifest, live)
    requires ObservedDigest(c, manifest, live) == DigestPlan(c, plan)
    ensures manifest.Some? && ManifestOf(manifest.value, plan) && Undrifted(live, plan)
  {
    hide Sort;
    assert manifest.Some?;
    var rebuilt := Rebuilt(live, manifest.value);
    assert Sort(ByPath(c), rebuilt.files) == Sort(ByPath(c), plan.files);
    assert multiset(rebuilt.files) == multiset(plan.files);
    MapPermutes(Blank, rebuilt.files, plan.files);
    assert Map(Blank, rebuilt.files) == Map(Blank, manifest.value.files);
    forall f | f in plan.files ensures LiveBytes(live, f.relativePath) == f.bytes {
      assert f in multiset(rebuilt.files);
      var i :| 0 <= i < |rebuilt.files| && rebuilt.files[i] == f;
    }
  }

  /** Re-reading the files of the plan's manifest gives the plan's files, in some order, where nothing drifted. */
  lemma RereadPlan(plan: ManifestV1, m: ManifestV1, live: Content)
    requires ManifestOf(m, plan) && Undrifted(live, plan)
    ensures multiset(Reread(live, m.files)) == multiset(plan.files)
  {
    var reread := (f: ManifestFile) => WithLive(live, f);
    MapPermutes(reread, Map(Blank, m.files), Map(Blank, plan.files));
    assert Map(reread, Map(Blank, m.files)) == Reread(live, m.files);
    forall i | 0 <= i < |plan.files| ensures reread(Blank(plan.files[i])) == plan.files[i] {
      assert plan.files[i] in plan.files;
    }
    assert Map(reread, Map(Blank, plan.files)) == plan.files;
  }

  /** And nothing else makes the digests equal. */
  lemma MatchingDigestExactly(c: Codec, plan: ManifestV1, manifest: Option<ManifestV1>, live: Content)
    requires SoundHash(c, plan, manifest, live) && OrdersPaths(c, plan.files)
    ensures ObservedDigest(c, manifest, live) == DigestPlan(c, plan) <==>
      manifest.Some? && ManifestOf(manifest.value, plan) && Undrifted(live, plan)
  {
    hide Sort, OrdersPaths, ManifestOf, Undrifted, SoundHash;
    if ObservedDigest(c, manifest, live) == DigestPlan(c, plan) {
      MatchingDigestMeansApplied(c, plan, manifest, live);
    } else if manifest.Some? && ManifestOf(manifest.value, plan) && Undrifted(live, plan) {
      var rebuilt := Rebuilt(live, manifest.value);
      RereadPlan(plan, manifest.value, live);
      SameHeader(plan, manifest.value);
      DigestForgetsOrder(c, plan, rebuilt);
    }
  }

  lemma SameHeader(plan: ManifestV1, m: ManifestV1)
    requires ManifestOf(m, plan)
    ensures m.(files := plan.files) == plan
  {
  }

  /**
   * Drift detection is exact: once a plan's manifest is on disk, the observed digest is the plan's digest
   * if and only if every declared file's live bytes are its planned bytes.
   */
  lemma DriftExact(c: Codec, plan: ManifestV1, live: Content)
    requires SoundHash(c, plan, Some(Canonical(c, plan)), live) && OrdersPaths(c, plan.files)
    ensures ObservedDigest(c, Some(Canonical(c, plan)), live) == DigestPlan(c, plan) <==> Undrifted(live, plan)
  {
    hide Sort, OrdersPaths, ObservedDigest, SoundHash, Undrifted, DigestPlan;
    MapPermutes(Blank, Canonical(c, plan).files, plan.files);
    MatchingDigestExactly(c, plan, Some(Canonical(c, plan)), live);
  }

  /** One half of that needs nothing of the hash: an undrifted target under the plan's manifest has its digest. */
  lemma OwnDigest(c: Codec, plan: ManifestV1, live: Content)
    requires OrdersPaths(c, plan.files) && Undrifted(live, plan)
    ensures ObservedDigest(c, Some(Canonical(c, plan)), live) == DigestPlan(c, plan)
  {
    hide Sort, OrdersPaths, Undrifted;
    var m := Canonical(c, plan);
    MapPermutes(Blank, m.files, plan.files);
    RereadPlan(plan, m, live);
    DigestForgetsOrder(c, plan, Rebuilt(live, m));
  }

  /** With no empty file in the plan, a missing file is drift too. */
  lemma MissingIsDrift(plan: ManifestV1, live: Content)
    requires forall f | f in plan.files :: f.bytes != []
    ensures Undrifted(live, plan) <==>
      forall f | f in plan.files :: f.relativePath in live && live[f.relativePath] == f.bytes
  {
  }

  /** A missing file whose planned bytes are empty goes unnoticed: this is what refusing empty bytes prevents. */
  lemma EmptyFileUnnoticed(c: Codec, plan: ManifestV1, live: Content, f: ManifestFile)
    requires SoundHash(c, plan, Some(Canonical(c, plan)), live) && OrdersPaths(c, plan.files)
    requires f in plan.files && f.bytes == [] && f.relativePath !in live
    requires forall g | g in plan.files && g != f :: LiveBytes(live, g.relativePath) == g.bytes
    ensures ObservedDigest(c, Some(Canonical(c, plan)), live) == DigestPlan(c, plan)
  {
    DriftExact(c, plan, live);
  }
}
