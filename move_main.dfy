/**
  `main` of the date-and-identifier mover (app/main.py): list, select,
  ask for confirmation, then move the selected files in batches of 50,
  counting successes and failures.
 */
module MoveMain {
  import opened Wrappers
  import opened PyText
  import opened Seqs
  import opened ContentCheck
  import opened FileFilter
  import opened MoveFile

  /** `BATCH_SIZE`. */
  const BatchSize: nat := 50

  /** `source_path`, `TARGET_PATH` and the filter settings. */
  datatype Config = Config(sourcePath: string, targetPath: string, criteria: Criteria)

  datatype Tally = Tally(successful: nat, failed: nat)

  /** The tally and the store after some moves. */
  datatype Run = Run(tally: Tally, lake: Lake)

  /** How `main` ends. */
  datatype RunOutcome = NoFilesFound | NoFilesMatch | Cancelled | Completed(tally: Tally)

  /** One `move_file` and its count. */
  function Step(r: Run, filePath: string, cfg: Config, faultOf: string -> Fault): Run {
    var m := Move(r.lake, filePath, cfg.sourcePath, cfg.targetPath, faultOf(filePath));
    var t := r.tally;
    Run(if m.ok then Tally(t.successful + 1, t.failed) else Tally(t.successful, t.failed + 1), m.lake)
  }

  /** Moving `files` one after the other from `start`, counting each `True`
      as a success and each `False` as a failure: every file is counted
      exactly once, and the counters only grow. */
  function MoveAll(files: seq<string>, start: Run, cfg: Config, faultOf: string -> Fault): (r: Run)
    ensures r.tally.successful + r.tally.failed == start.tally.successful + start.tally.failed + |files|
    ensures r.tally.successful >= start.tally.successful && r.tally.failed >= start.tally.failed
  {
    if files == [] then start
    else Step(MoveAll(files[..|files| - 1], start, cfg, faultOf), files[|files| - 1], cfg, faultOf)
  }

  /** A failure stops nothing: moving `a + b` is moving `a`, then moving `b`
      from where `a` left the counters and the store. */
  lemma {:induction false} MoveAllAppend(a: seq<string>, b: seq<string>, start: Run, cfg: Config, faultOf: string -> Fault)
    ensures MoveAll(a + b, start, cfg, faultOf) == MoveAll(b, MoveAll(a, start, cfg, faultOf), cfg, faultOf)
    decreases |b|
  {
    if b == [] {
      assert a + b == a;
    } else {
      MoveAllAppend(a, b[..|b| - 1], start, cfg, faultOf);
      assert (a + b)[..|a + b| - 1] == a + b[..|b| - 1];
    }
  }

  lemma MoveAllSnoc(files: seq<string>, j: nat, start: Run, cfg: Config, faultOf: string -> Fault)
    requires j < |files|
    ensures MoveAll(files[..j + 1], start, cfg, faultOf) == Step(MoveAll(files[..j], start, cfg, faultOf), files[j], cfg, faultOf)
  {
    assert files[..j + 1][..j] == files[..j];
  }

  /** The start of a run: nothing counted yet. */
  function Fresh(lake: Lake): Run {
    Run(Tally(0, 0), lake)
  }

  /** One batch: every move of it is submitted, and each result counted. */
  method MoveBatch(batch: seq<string>, successful: nat, failed: nat, lake: Lake, cfg: Config, faultOf: string -> Fault)
    returns (successful': nat, failed': nat, lake': Lake)
    ensures Run(Tally(successful', failed'), lake') == MoveAll(batch, Run(Tally(successful, failed), lake), cfg, faultOf)
  {
    successful', failed', lake' := successful, failed, lake;
    var j := 0;
    while j < |batch|
      invariant 0 <= j <= |batch|
      invariant Run(Tally(successful', failed'), lake') == MoveAll(batch[..j], Run(Tally(successful, failed), lake), cfg, faultOf)
    {
      var filePath := batch[j];
      var m := Move(lake', filePath, cfg.sourcePath, cfg.targetPath, faultOf(filePath));
      if m.ok {
        successful' := successful' + 1;
      } else {
        failed' := failed' + 1;
      }
      lake' := m.lake;
      MoveAllSnoc(batch, j, Run(Tally(successful, failed), lake), cfg, faultOf);
      j := j + 1;
    }
    assert batch[..j] == batch;
  }

  /** The batch loop of `main`: `i` runs over `range(0, len(files), 50)`,
      each batch is `files[i:i + 50]`, and every move of a batch is counted
      before the next batch starts. */
  method RunMoveBatches(files: seq<string>, lake: Lake, cfg: Config, faultOf: string -> Fault)
    returns (successful: nat, failed: nat, lake': Lake, ghost batches: seq<seq<string>>)
    ensures Run(Tally(successful, failed), lake') == MoveAll(files, Fresh(lake), cfg, faultOf)
    ensures successful + failed == |files|
    ensures batches == Batches(files, BatchSize)
  {
    successful, failed, lake' := 0, 0, lake;
    batches := [];
    var i := 0;
    ghost var done := 0;
    while i < |files|
      invariant 0 <= done <= |files| && done == (if i <= |files| then i else |files|)
      invariant Run(Tally(successful, failed), lake') == MoveAll(files[..done], Fresh(lake), cfg, faultOf)
      invariant batches + Batches(files[done..], BatchSize) == Batches(files, BatchSize)
    {
      var hi := if i + BatchSize <= |files| then i + BatchSize else |files|;
      var batch := files[i..hi];
      BatchProgress(files, i, hi, BatchSize, batches);
      SliceJoin(files, i, hi);
      MoveAllAppend(files[..i], batch, Fresh(lake), cfg, faultOf);
      successful, failed, lake' := MoveBatch(batch, successful, failed, lake', cfg, faultOf);
      batches := batches + [batch];
      i := i + BatchSize;
      done := hi;
    }
    assert files[..|files|] == files;
  }

  /** The answer `response.lower() in ['yes', 'y']`. */
  predicate Confirmed(response: string) {
    Lower(response) == "yes" || Lower(response) == "y"
  }

  /** The answers that go ahead: "y" or "yes" in any mix of letter case. */
  lemma ConfirmedIff(response: string)
    ensures Confirmed(response) <==>
      (|response| == 1 && response[0] in "yY") ||
      (|response| == 3 && response[0] in "yY" && response[1] in "eE" && response[2] in "sS")
  {
    if |response| == 1 {
      assert Lower(response)[0] == (if 'A' <= response[0] <= 'Z' then (response[0] as int + 32) as char else response[0]);
    } else if |response| == 3 {
      var l := Lower(response);
      assert l[0] == (if 'A' <= response[0] <= 'Z' then (response[0] as int + 32) as char else response[0]);
      assert l[1..] == Lower(response[1..]);
      assert l[1] == (if 'A' <= response[1] <= 'Z' then (response[1] as int + 32) as char else response[1]);
      assert l[2..] == Lower(response[2..]);
      assert l[2] == (if 'A' <= response[2] <= 'Z' then (response[2] as int + 32) as char else response[2]);
    }
  }

  /** The files `main` works on: those listed, directories skipped. */
  function Listed(listing: Option<seq<PathItem>>): seq<FileInfo> {
    if listing.None? then [] else FileEntries(listing.value)
  }

  /** `main`. The store is read through `listing`, `propsOf` and `contentOf`
      and changed through `lake`; `response` is the operator's answer. */
  method RunMain(listing: Option<seq<PathItem>>, propsOf: string -> Option<Props>, contentOf: string -> Content,
                 fmt: Json -> string, cfg: Config, response: string, lake: Lake, faultOf: string -> Fault)
    returns (outcome: RunOutcome, lake': Lake)
    ensures var files := Listed(listing);
      var toMove := FilesToMove(files, propsOf, contentOf, cfg.criteria, fmt);
      && (outcome == NoFilesFound <==> files == [])
      && (outcome == NoFilesMatch <==> files != [] && toMove == [])
      && (outcome == Cancelled <==> files != [] && toMove != [] && !Confirmed(response))
      && (outcome.Completed? <==> files != [] && toMove != [] && Confirmed(response))
      && (outcome.Completed? ==>
            Run(outcome.tally, lake') == MoveAll(toMove, Fresh(lake), cfg, faultOf) &&
            outcome.tally.successful + outcome.tally.failed == |toMove|)
      && (!outcome.Completed? ==> lake' == lake)
  {
    lake' := lake;
    var files := ListFilesInPath(listing);
    if files == [] {
      return NoFilesFound, lake';
    }
    var toMove := SelectFilesToMove(files, propsOf, contentOf, cfg.criteria, fmt);
    if toMove == [] {
      return NoFilesMatch, lake';
    }
    if !(Lower(response) in ["yes", "y"]) {
      return Cancelled, lake';
    }
    var successful, failed, after, _ := RunMoveBatches(toMove, lake, cfg, faultOf);
    outcome, lake' := Completed(Tally(successful, failed)), after;
  }
}
