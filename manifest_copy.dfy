/**
  The manifest-driven copier (app/app.py): turn the file names of a CSV
  manifest into blob paths under the source prefix, keep those the store
  says exist, and start a server-side copy of each under the target prefix,
  in batches of 50. The source blob is not deleted.
 */
module ManifestCopy {
  import opened Wrappers
  import opened PyText
  import opened Seqs
  import opened Store

  /** `BATCH_SIZE`. */
  const BatchSize: nat := 50

  /** The blob container: contents by blob name. */
  type Container = map<string, Bytes>

  /** `source_prefix` and `target_prefix`. */
  datatype Config = Config(sourcePrefix: string, targetPrefix: string)

  /** What `blob_client.exists()` does: answer, or raise. */
  datatype ExistsAnswer = Exists | Missing | CheckRaised

  /** How `main` ends. */
  datatype AppOutcome = NoFilenames | NoMatchingBlobs | Completed

  // ---------------------------------------------------------------------
  // Target name (copy_and_delete_blob)

  /** The name `blob_name.replace(source_prefix, target_prefix, 1)`. */
  function Replaced(name: string, cfg: Config): string {
    ReplaceFirst(name, cfg.sourcePrefix, cfg.targetPrefix)
  }

  /** `target_blob_name`: the replacement, or, when it changed nothing, the
      last segment of the name placed directly under the target prefix. */
  function TargetBlobName(name: string, cfg: Config): string {
    var replaced := Replaced(name, cfg);
    if replaced == name then RStrip(cfg.targetPrefix, '/') + "/" + LastSegment(name)
    else replaced
  }

  /** When the source prefix occurs in the name and differs from the target
      prefix, only its leftmost occurrence, wherever it is, is replaced. */
  lemma TargetReplacesFirstOccurrence(name: string, cfg: Config)
    requires Contains(name, cfg.sourcePrefix) && cfg.sourcePrefix != cfg.targetPrefix
    ensures var k := Find(name, cfg.sourcePrefix).value;
      && OccursAt(name, cfg.sourcePrefix, k)
      && (forall j :: 0 <= j < k ==> !OccursAt(name, cfg.sourcePrefix, j))
      && TargetBlobName(name, cfg) == name[..k] + cfg.targetPrefix + name[k + |cfg.sourcePrefix|..]
  {
    var k := Find(name, cfg.sourcePrefix).value;
    assert Replaced(name, cfg) == name[..k] + cfg.targetPrefix + name[k + |cfg.sourcePrefix|..];
    ReplaceFirstUnchangedIff(name, cfg.sourcePrefix, cfg.targetPrefix);
    assert Replaced(name, cfg) != name;
  }

  /** A name that starts with the source prefix has that prefix swapped for
      the target prefix. */
  lemma TargetForPrefixedName(name: string, cfg: Config)
    requires StartsWith(name, cfg.sourcePrefix) && cfg.sourcePrefix != cfg.targetPrefix
    ensures TargetBlobName(name, cfg) == cfg.targetPrefix + name[|cfg.sourcePrefix|..]
  {
    ReplaceFirstAtStart(name, cfg.sourcePrefix, cfg.targetPrefix);
    ReplaceFirstUnchangedIff(name, cfg.sourcePrefix, cfg.targetPrefix);
    assert OccursAt(name, cfg.sourcePrefix, 0);
  }

  /** The fallback fires exactly when the source prefix does not occur in
      the name or the two prefixes are equal. It keeps only the text after
      the last '/' of the name, dropping every directory. */
  lemma FallbackIff(name: string, cfg: Config)
    ensures Replaced(name, cfg) == name <==> !Contains(name, cfg.sourcePrefix) || cfg.sourcePrefix == cfg.targetPrefix
    ensures Replaced(name, cfg) == name ==>
      var base := LastSegment(name);
      && TargetBlobName(name, cfg) == RStrip(cfg.targetPrefix, '/') + "/" + base
      && '/' !in base
      && (name == base || name == ParentDir(name) + "/" + base)
  {
    ReplaceFirstUnchangedIff(name, cfg.sourcePrefix, cfg.targetPrefix);
    ParentDirAndLastSegment(name);
  }

  /** `start_copy_from_url` from the blob to its target name, taken as
      completed once issued; `raises` says the call failed. The source is
      never deleted and only the target name can change. */
  function CopyBlob(c: Container, name: string, cfg: Config, raises: bool): Container {
    if raises || name !in c then c else c[TargetBlobName(name, cfg) := c[name]]
  }

  /** What one copy does: nothing is deleted, the source keeps its content,
      the target gets the source's content unless the call raises or the
      blob is gone, and every other blob is left as it was. */
  lemma CopyBlobEffect(c: Container, name: string, cfg: Config, raises: bool)
    ensures var r := CopyBlob(c, name, cfg, raises);
      && (forall k :: k in c ==> k in r)
      && (name in c ==> r[name] == c[name])
      && (!raises && name in c ==> TargetBlobName(name, cfg) in r && r[TargetBlobName(name, cfg)] == c[name])
      && (raises || name !in c ==> r == c)
      && (forall k :: k in r && k != TargetBlobName(name, cfg) ==> k in c && r[k] == c[k])
  {
  }

  /** Copying `blobs` one after the other, starting from `c`. */
  function CopyAll(blobs: seq<string>, c: Container, cfg: Config, raisesOf: string -> bool): Container {
    if blobs == [] then c
    else
      var last := blobs[|blobs| - 1];
      CopyBlob(CopyAll(blobs[..|blobs| - 1], c, cfg, raisesOf), last, cfg, raisesOf(last))
  }

  lemma {:induction false} CopyAllAppend(a: seq<string>, b: seq<string>, c: Container, cfg: Config, raisesOf: string -> bool)
    ensures CopyAll(a + b, c, cfg, raisesOf) == CopyAll(b, CopyAll(a, c, cfg, raisesOf), cfg, raisesOf)
    decreases |b|
  {
    if b == [] {
      assert a + b == a;
    } else {
      var init, last := b[..|b| - 1], b[|b| - 1];
      CopyAllAppend(a, init, c, cfg, raisesOf);
      assert (a + b)[..|a + b| - 1] == a + init;
      assert (a + b)[|a + b| - 1] == last;
      calc {
        CopyAll(a + b, c, cfg, raisesOf);
        CopyBlob(CopyAll(a + init, c, cfg, raisesOf), last, cfg, raisesOf(last));
        CopyBlob(CopyAll(init, CopyAll(a, c, cfg, raisesOf), cfg, raisesOf), last, cfg, raisesOf(last));
        CopyAll(b, CopyAll(a, c, cfg, raisesOf), cfg, raisesOf);
      }
    }
  }

  /** The copier deletes nothing, and a blob that is no copy's target keeps
      its content. */
  lemma {:induction false} CopyAllNonDestructive(blobs: seq<string>, c: Container, cfg: Config, raisesOf: string -> bool)
    ensures forall k :: k in c ==> k in CopyAll(blobs, c, cfg, raisesOf)
    ensures forall k :: k in c && (forall i :: 0 <= i < |blobs| ==> TargetBlobName(blobs[i], cfg) != k) ==>
      CopyAll(blobs, c, cfg, raisesOf)[k] == c[k]
    decreases |blobs|
  {
    if blobs != [] {
      var init := blobs[..|blobs| - 1];
      CopyAllNonDestructive(init, c, cfg, raisesOf);
      CopyBlobEffect(CopyAll(init, c, cfg, raisesOf), blobs[|blobs| - 1], cfg, raisesOf(blobs[|blobs| - 1]));
      forall k | k in c && (forall i :: 0 <= i < |blobs| ==> TargetBlobName(blobs[i], cfg) != k)
        ensures CopyAll(blobs, c, cfg, raisesOf)[k] == c[k]
      {
        assert forall i :: 0 <= i < |init| ==> TargetBlobName(init[i], cfg) == TargetBlobName(blobs[i], cfg);
        assert TargetBlobName(blobs[|blobs| - 1], cfg) != k;
      }
    }
  }

  // ---------------------------------------------------------------------
  // Manifest names to blob paths, and the existence partition

  /** One manifest name as a blob path: kept when it already starts with
      the source prefix, otherwise placed under it. Either way the path
      starts with the source prefix stripped of trailing slashes. */
  function NormalizeName(filename: string, sourcePrefix: string): (r: string)
    ensures StartsWith(r, RStrip(sourcePrefix, '/'))
    ensures StartsWith(filename, sourcePrefix) ==> r == filename
    ensures !StartsWith(filename, sourcePrefix) ==> |r| == |RStrip(sourcePrefix, '/')| + 1 + |filename|
  {
    if StartsWith(filename, sourcePrefix) then filename
    else RStrip(sourcePrefix, '/') + "/" + filename
  }

  /** With a source prefix that ends in at most one '/' (the configured form,
      "raw/"), every normalised path starts with the prefix itself, so
      normalising twice changes nothing. */
  lemma NormalizeIdempotent(filename: string, sourcePrefix: string)
    requires var p := RStrip(sourcePrefix, '/'); sourcePrefix == p || sourcePrefix == p + "/"
    ensures StartsWith(NormalizeName(filename, sourcePrefix), sourcePrefix)
    ensures NormalizeName(NormalizeName(filename, sourcePrefix), sourcePrefix) == NormalizeName(filename, sourcePrefix)
  {
    var p := RStrip(sourcePrefix, '/');
    if !StartsWith(filename, sourcePrefix) {
      assert (p + "/" + filename)[..|p|] == p;
      assert (p + "/" + filename)[..|p| + 1] == p + "/";
    }
  }

  function Normalizer(sourcePrefix: string): string -> string {
    n => NormalizeName(n, sourcePrefix)
  }

  /** The loop of lines 106-111 that builds `csv_blob_paths`. */
  method NormalizeCsvNames(names: seq<string>, sourcePrefix: string) returns (paths: seq<string>)
    ensures paths == MapSeq(names, Normalizer(sourcePrefix))
  {
    paths := [];
    var i := 0;
    while i < |names|
      invariant 0 <= i <= |names|
      invariant |paths| == i && forall k :: 0 <= k < i ==> paths[k] == NormalizeName(names[k], sourcePrefix)
    {
      var filename := names[i];
      if StartsWith(filename, sourcePrefix) {
        paths := paths + [filename];
      } else {
        paths := paths + [RStrip(sourcePrefix, '/') + "/" + filename];
      }
      i := i + 1;
    }
  }

  function IsFound(existsOf: string -> ExistsAnswer): string -> bool {
    p => existsOf(p) == Exists
  }

  function IsNotFound(existsOf: string -> ExistsAnswer): string -> bool {
    p => existsOf(p) != Exists
  }

  /** The loop of lines 119-131: each path goes to `matching_blobs` when the
      check answered True, and to `not_found_blobs` when it answered False
      or raised. */
  method PartitionByExistence(paths: seq<string>, existsOf: string -> ExistsAnswer)
    returns (matching: seq<string>, notFound: seq<string>)
    ensures matching == Filter(paths, IsFound(existsOf))
    ensures notFound == Filter(paths, IsNotFound(existsOf))
  {
    matching, notFound := [], [];
    var i := 0;
    while i < |paths|
      invariant 0 <= i <= |paths|
      invariant matching == Filter(paths[..i], IsFound(existsOf))
      invariant notFound == Filter(paths[..i], IsNotFound(existsOf))
    {
      var blobPath := paths[i];
      var answer := existsOf(blobPath);
      if answer == Exists {
        matching := matching + [blobPath];
      } else {
        notFound := notFound + [blobPath];
      }
      assert paths[..i + 1][..i] == paths[..i];
      i := i + 1;
    }
    assert paths[..i] == paths;
  }

  /** Every path lands in exactly one of the two lists, duplicates kept, and
      a path is matching exactly when the check answered True. */
  lemma PartitionIsExact(paths: seq<string>, existsOf: string -> ExistsAnswer, p: string)
    ensures multiset(Filter(paths, IsFound(existsOf))) + multiset(Filter(paths, IsNotFound(existsOf))) == multiset(paths)
    ensures |Filter(paths, IsFound(existsOf))| + |Filter(paths, IsNotFound(existsOf))| == |paths|
    ensures p in Filter(paths, IsFound(existsOf)) <==> p in paths && existsOf(p) == Exists
    ensures p in Filter(paths, IsNotFound(existsOf)) <==> p in paths && existsOf(p) != Exists
  {
    FilterPartition(paths, IsFound(existsOf), IsNotFound(existsOf));
    FilterMembership(paths, IsFound(existsOf), p);
    FilterMembership(paths, IsNotFound(existsOf), p);
  }

  /** What `filter_blobs_by_csv_filenames` returns. */
  function MatchingBlobs(names: seq<string>, cfg: Config, existsOf: string -> ExistsAnswer): seq<string> {
    Filter(MapSeq(names, Normalizer(cfg.sourcePrefix)), IsFound(existsOf))
  }

  /** `filter_blobs_by_csv_filenames`. */
  method FilterBlobsByCsvFilenames(names: seq<string>, cfg: Config, existsOf: string -> ExistsAnswer)
    returns (matching: seq<string>)
    ensures matching == MatchingBlobs(names, cfg, existsOf)
  {
    var paths := NormalizeCsvNames(names, cfg.sourcePrefix);
    var notFound;
    matching, notFound := PartitionByExistence(paths, existsOf);
  }

  /** Every blob the copier works on starts with the source prefix
      stripped of trailing slashes, and was reported to exist. */
  lemma MatchingBlobsShape(names: seq<string>, cfg: Config, existsOf: string -> ExistsAnswer, p: string)
    requires p in MatchingBlobs(names, cfg, existsOf)
    ensures StartsWith(p, RStrip(cfg.sourcePrefix, '/')) && existsOf(p) == Exists
    ensures exists i :: 0 <= i < |names| && p == NormalizeName(names[i], cfg.sourcePrefix)
  {
    var paths := MapSeq(names, Normalizer(cfg.sourcePrefix));
    FilterMembership(paths, IsFound(existsOf), p);
    var i :| 0 <= i < |paths| && paths[i] == p;
    assert p == NormalizeName(names[i], cfg.sourcePrefix);
  }

  // ---------------------------------------------------------------------
  // main

  /** One batch: a copy is started for every blob of it. */
  method CopyBatch(batch: seq<string>, c: Container, cfg: Config, raisesOf: string -> bool) returns (c': Container)
    ensures c' == CopyAll(batch, c, cfg, raisesOf)
  {
    c' := c;
    var j := 0;
    while j < |batch|
      invariant 0 <= j <= |batch|
      invariant c' == CopyAll(batch[..j], c, cfg, raisesOf)
    {
      c' := CopyBlob(c', batch[j], cfg, raisesOf(batch[j]));
      assert batch[..j + 1][..j] == batch[..j];
      j := j + 1;
    }
    assert batch[..j] == batch;
  }

  /** The batch loop of `main`: `i` runs over `range(0, len(blobs), 50)` and
      each batch is `blobs[i:i + 50]`. */
  method RunCopyBatches(blobs: seq<string>, c: Container, cfg: Config, raisesOf: string -> bool)
    returns (c': Container, ghost batches: seq<seq<string>>)
    ensures c' == CopyAll(blobs, c, cfg, raisesOf)
    ensures batches == Batches(blobs, BatchSize)
  {
    c' := c;
    batches := [];
    var i := 0;
    ghost var done := 0;
    while i < |blobs|
      invariant 0 <= done <= |blobs| && done == (if i <= |blobs| then i else |blobs|)
      invariant c' == CopyAll(blobs[..done], c, cfg, raisesOf)
      invariant batches + Batches(blobs[done..], BatchSize) == Batches(blobs, BatchSize)
    {
      var hi := if i + BatchSize <= |blobs| then i + BatchSize else |blobs|;
      var batch := blobs[i..hi];
      BatchProgress(blobs, i, hi, BatchSize, batches);
      SliceJoin(blobs, i, hi);
      CopyAllAppend(blobs[..i], batch, c, cfg, raisesOf);
      c' := CopyBatch(batch, c', cfg, raisesOf);
      batches := batches + [batch];
      i := i + BatchSize;
      done := hi;
    }
    assert blobs[..|blobs|] == blobs;
  }

  /** `main`: `csvNames` is what `get_filenames_from_csv` returned. An empty
      manifest and an empty match list both end the run before any copy. */
  method RunManifestCopy(csvNames: seq<string>, cfg: Config, existsOf: string -> ExistsAnswer,
                         c: Container, raisesOf: string -> bool)
    returns (outcome: AppOutcome, c': Container)
    ensures var matching := MatchingBlobs(csvNames, cfg, existsOf);
      && (outcome == NoFilenames <==> csvNames == [])
      && (outcome == NoMatchingBlobs <==> csvNames != [] && matching == [])
      && (outcome == Completed <==> csvNames != [] && matching != [])
      && (outcome == Completed ==> c' == CopyAll(matching, c, cfg, raisesOf))
      && (outcome != Completed ==> c' == c)
  {
    c' := c;
    if csvNames == [] {
      return NoFilenames, c';
    }
    var blobNames := FilterBlobsByCsvFilenames(csvNames, cfg, existsOf);
    if |blobNames| == 0 {
      return NoMatchingBlobs, c';
    }
    ghost var batches;
    c', batches := RunCopyBatches(blobNames, c, cfg, raisesOf);
    outcome := Completed;
  }

  /** A manifest of bare names under "raw/": "a.json" exists as "raw/a.json",
      "b.json" does not; one copy, to "archive/a.json". */
  lemma ManifestExample(existsOf: string -> ExistsAnswer)
    requires existsOf("raw/a.json") == Exists && existsOf("raw/b.json") == Missing
    ensures MatchingBlobs(["a.json", "b.json"], Config("raw/", "archive/"), existsOf) == ["raw/a.json"]
    ensures TargetBlobName("raw/a.json", Config("raw/", "archive/")) == "archive/a.json"
  {
    var paths := MapSeq(["a.json", "b.json"], Normalizer("raw/"));
    ExamplePaths();
    assert paths[..1] == ["raw/a.json"];
    assert Filter(paths[..1][..0], IsFound(existsOf)) == [];
    TargetForPrefixedName("raw/a.json", Config("raw/", "archive/"));
  }

  lemma ExamplePaths()
    ensures MapSeq(["a.json", "b.json"], Normalizer("raw/")) == ["raw/a.json", "raw/b.json"]
  {
    assert RStrip("raw/", '/') == "raw";
    assert !StartsWith("a.json", "raw/") && !StartsWith("b.json", "raw/");
    assert NormalizeName("a.json", "raw/") == "raw/a.json";
    assert NormalizeName("b.json", "raw/") == "raw/b.json";
  }
}
