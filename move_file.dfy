/**
  `move_file` of the date-and-identifier mover (app/main.py): the
  destination path under the target prefix, the parent directory ensured
  before the upload, and the download-upload-delete sequence on the store.
 */
module MoveFile {
  import opened PyText
  import opened Store

  /** The Data Lake file system: file contents by path, and the directories
      that exist. */
  datatype Lake = Lake(files: map<string, Bytes>, dirs: set<string>)

  /** Which store call of one move raises, if any. */
  datatype Fault = NoFault | DirectoryFails | DownloadFails | UploadFails | DeleteFails

  /** What `move_file` returns, and the store afterwards. */
  datatype Moved = Moved(ok: bool, lake: Lake)

  /** The path below the target prefix: the source path with the source
      prefix removed if it starts with it, leading slashes stripped. */
  function RelativePath(filePath: string, sourcePath: string): (rel: string)
    ensures rel == [] || rel[0] != '/'
  {
    if StartsWith(filePath, sourcePath) then LStrip(filePath[|sourcePath|..], '/')
    else LStrip(filePath, '/')
  }

  /** `target_file_path`. */
  function TargetFilePath(filePath: string, sourcePath: string, targetPath: string): string {
    CollapseSlashes(RStrip(targetPath, '/') + "/" + RelativePath(filePath, sourcePath))
  }

  /** The `//` pass never acts across the end of a piece that does not end
      in a slash. */
  lemma {:induction false} CollapseAppend(a: string, x: string)
    requires a == [] || a[|a| - 1] != '/'
    ensures CollapseSlashes(a + x) == CollapseSlashes(a) + CollapseSlashes(x)
    decreases |a|
  {
    if a == [] {
      assert a + x == x;
    } else if |a| >= 2 && a[0] == '/' && a[1] == '/' {
      var t := a[2..];
      assert (a + x)[2..] == t + x;
      CollapseAppend(t, x);
      calc {
        CollapseSlashes(a + x);
        "/" + CollapseSlashes(t + x);
        "/" + (CollapseSlashes(t) + CollapseSlashes(x));
        ("/" + CollapseSlashes(t)) + CollapseSlashes(x);
        CollapseSlashes(a) + CollapseSlashes(x);
      }
    } else {
      var t := a[1..];
      assert (a + x)[1..] == t + x;
      assert |a| == 1 ==> a[0] != '/';
      assert !(|a + x| >= 2 && (a + x)[0] == '/' && (a + x)[1] == '/');
      CollapseAppend(t, x);
      calc {
        CollapseSlashes(a + x);
        [a[0]] + CollapseSlashes(t + x);
        [a[0]] + (CollapseSlashes(t) + CollapseSlashes(x));
        ([a[0]] + CollapseSlashes(t)) + CollapseSlashes(x);
        CollapseSlashes(a) + CollapseSlashes(x);
      }
    }
  }

  /** The destination is the target prefix without trailing slashes, one
      slash, and the relative path, each of the two pieces with its own
      doubled slashes collapsed; the junction is never touched. In
      particular, when neither piece holds `//`, the destination is exactly
      `TARGET_PATH.rstrip('/') + '/' + relative_path`. */
  lemma TargetFilePathShape(filePath: string, sourcePath: string, targetPath: string)
    ensures var prefix, rel := RStrip(targetPath, '/'), RelativePath(filePath, sourcePath);
      TargetFilePath(filePath, sourcePath, targetPath) ==
        CollapseSlashes(prefix) + "/" + CollapseSlashes(rel)
    ensures var prefix, rel := RStrip(targetPath, '/'), RelativePath(filePath, sourcePath);
      (forall i :: !DoubleSlashAt(prefix, i)) && (forall i :: !DoubleSlashAt(rel, i)) ==>
        TargetFilePath(filePath, sourcePath, targetPath) == prefix + "/" + rel
  {
    var prefix, rel := RStrip(targetPath, '/'), RelativePath(filePath, sourcePath);
    JunctionCollapse(prefix, rel);
    if (forall i :: !DoubleSlashAt(prefix, i)) && (forall i :: !DoubleSlashAt(rel, i)) {
      CollapseNoDouble(prefix);
      CollapseNoDouble(rel);
    }
  }

  lemma JunctionCollapse(prefix: string, rel: string)
    requires prefix == [] || prefix[|prefix| - 1] != '/'
    requires rel == [] || rel[0] != '/'
    ensures CollapseSlashes(prefix + "/" + rel) == CollapseSlashes(prefix) + "/" + CollapseSlashes(rel)
  {
    var tail := "/" + rel;
    calc {
      CollapseSlashes(prefix + "/" + rel);
      { assert prefix + "/" + rel == prefix + tail; }
      CollapseSlashes(prefix + tail);
      { CollapseAppend(prefix, tail); }
      CollapseSlashes(prefix) + CollapseSlashes(tail);
      { CollapseAfterSlash(rel); }
      CollapseSlashes(prefix) + ("/" + CollapseSlashes(rel));
      CollapseSlashes(prefix) + "/" + CollapseSlashes(rel);
    }
  }

  lemma CollapseAfterSlash(rel: string)
    requires rel == [] || rel[0] != '/'
    ensures CollapseSlashes("/" + rel) == "/" + CollapseSlashes(rel)
  {
    assert ("/" + rel)[1..] == rel;
  }

  /** The file name survives the move: the destination's last segment is
      the source's, unless the source prefix is a non-empty string that
      does not end in '/' and the path starts with it (then the prefix may
      cut into the file name). */
  lemma TargetKeepsFileName(filePath: string, sourcePath: string, targetPath: string)
    requires !StartsWith(filePath, sourcePath) || sourcePath == [] || sourcePath[|sourcePath| - 1] == '/'
    ensures LastSegment(TargetFilePath(filePath, sourcePath, targetPath)) == LastSegment(filePath)
  {
    var prefix, rel := RStrip(targetPath, '/'), RelativePath(filePath, sourcePath);
    LastSegmentCollapse(prefix + "/" + rel);
    LastSegmentAfterSlash(prefix, rel);
    RelativeKeepsFileName(filePath, sourcePath);
  }

  lemma RelativeKeepsFileName(filePath: string, sourcePath: string)
    requires !StartsWith(filePath, sourcePath) || sourcePath == [] || sourcePath[|sourcePath| - 1] == '/'
    ensures LastSegment(RelativePath(filePath, sourcePath)) == LastSegment(filePath)
  {
    if StartsWith(filePath, sourcePath) {
      var k := |sourcePath|;
      var rest := filePath[k..];
      LastSegmentLStrip(rest);
      if k > 0 {
        PrefixEnd(filePath, sourcePath);
        LastSegmentAfterCut(filePath, k);
      } else {
        assert rest == filePath;
      }
    } else {
      LastSegmentLStrip(filePath);
    }
  }

  lemma PrefixEnd(s: string, prefix: string)
    requires StartsWith(s, prefix) && prefix != []
    ensures s[|prefix| - 1] == prefix[|prefix| - 1]
  {
  }

  lemma LastSegmentAfterCut(s: string, k: nat)
    requires 0 < k <= |s| && s[k - 1] == '/'
    ensures LastSegment(s[k..]) == LastSegment(s)
  {
    assert s == s[..k - 1] + "/" + s[k..];
    LastSegmentAfterSlash(s[..k - 1], s[k..]);
  }

  /** `target_dir` (line 168): the destination always holds a slash, and
      `target_dir + '/' + last segment` gives the destination back. */
  lemma TargetDirRejoins(filePath: string, sourcePath: string, targetPath: string)
    ensures var dest := TargetFilePath(filePath, sourcePath, targetPath);
      '/' in dest && ParentDir(dest) + "/" + LastSegment(dest) == dest
  {
    var prefix, rel := RStrip(targetPath, '/'), RelativePath(filePath, sourcePath);
    var s := prefix + "/" + rel;
    assert s[|prefix|] == '/';
    CollapseKeepsSlash(s);
    ParentDirAndLastSegment(TargetFilePath(filePath, sourcePath, targetPath));
  }

  /** `move_file` on the store: ensure the target directory, download the
      source, upload it to the destination (overwriting), delete the source.
      The first call that raises ends the move with `False`, and the calls
      already made are not undone. */
  function Move(lake: Lake, filePath: string, sourcePath: string, targetPath: string, fault: Fault): Moved
  {
    var dest := TargetFilePath(filePath, sourcePath, targetPath);
    var dir := ParentDir(dest);
    if dir != "" && fault == DirectoryFails then Moved(false, lake)
    else
      var lake1 := if dir != "" && dir !in lake.dirs then lake.(dirs := lake.dirs + {dir}) else lake;
      if filePath !in lake.files || fault == DownloadFails then Moved(false, lake1)
      else
        var content := lake.files[filePath];
        if fault == UploadFails then Moved(false, lake1)
        else
          var lake2 := lake1.(files := lake1.files[dest := content]);
          if fault == DeleteFails then Moved(false, lake2)
          else Moved(true, lake2.(files := lake2.files - {filePath}))
  }

  /** What one move does to the store: it succeeds exactly when the file
      exists and no call raises (a failing `create_directory` is only
      reached for a non-empty parent); on success the content is at the
      destination and no longer at the source; no other file changes, no
      file appears except at the destination, and directories only grow; a
      failed move never loses the source, and one that fails before the
      upload changes no file. */
  lemma MoveEffect(lake: Lake, filePath: string, sourcePath: string, targetPath: string, fault: Fault)
    ensures var m, dest := Move(lake, filePath, sourcePath, targetPath, fault), TargetFilePath(filePath, sourcePath, targetPath);
      m.ok <==> filePath in lake.files && (fault == NoFault || (fault == DirectoryFails && ParentDir(dest) == ""))
    ensures var m, dest := Move(lake, filePath, sourcePath, targetPath, fault), TargetFilePath(filePath, sourcePath, targetPath);
      m.ok && dest != filePath ==>
        dest in m.lake.files && m.lake.files[dest] == lake.files[filePath] && filePath !in m.lake.files
    ensures var m, dest := Move(lake, filePath, sourcePath, targetPath, fault), TargetFilePath(filePath, sourcePath, targetPath);
      forall k :: k in lake.files && k != filePath && k != dest ==> k in m.lake.files && m.lake.files[k] == lake.files[k]
    ensures var m, dest := Move(lake, filePath, sourcePath, targetPath, fault), TargetFilePath(filePath, sourcePath, targetPath);
      forall k :: k in m.lake.files && k != dest ==> k in lake.files
    ensures var m, dir := Move(lake, filePath, sourcePath, targetPath, fault), ParentDir(TargetFilePath(filePath, sourcePath, targetPath));
      lake.dirs <= m.lake.dirs && (m.ok && dir != "" ==> dir in m.lake.dirs)
    ensures var m := Move(lake, filePath, sourcePath, targetPath, fault);
      filePath in lake.files && !m.ok ==> filePath in m.lake.files && m.lake.files[filePath] == lake.files[filePath]
    ensures var m := Move(lake, filePath, sourcePath, targetPath, fault);
      !m.ok && fault != DeleteFails ==> m.lake.files == lake.files
  {
  }

  /** No rollback: when only the delete fails, the file is now at both
      places and the move still reports failure. */
  lemma DeleteFailureLeavesTwoCopies(lake: Lake, filePath: string, sourcePath: string, targetPath: string)
    requires filePath in lake.files
    ensures var m := Move(lake, filePath, sourcePath, targetPath, DeleteFails);
      var dest := TargetFilePath(filePath, sourcePath, targetPath);
      !m.ok && filePath in m.lake.files && dest in m.lake.files &&
      m.lake.files[filePath] == lake.files[filePath] == m.lake.files[dest]
  {
  }

  /** A move whose destination is its own path uploads onto itself and then
      deletes it: the file is gone although the move reports success. */
  lemma MoveOntoItselfDeletes(lake: Lake, filePath: string, sourcePath: string, targetPath: string)
    requires TargetFilePath(filePath, sourcePath, targetPath) == filePath
    requires filePath in lake.files
    ensures var m := Move(lake, filePath, sourcePath, targetPath, NoFault);
      m.ok && filePath !in m.lake.files && m.lake.files == lake.files - {filePath}
  {
    var content := lake.files[filePath];
    assert lake.files[filePath := content] == lake.files;
  }

  /** That happens when the target prefix equals the source prefix. */
  lemma SamePrefixesMapToItself()
    ensures TargetFilePath("raw/x.json", "raw/", "raw/") == "raw/x.json"
  {
    ExampleRelative();
    ExampleStrip();
    assert "raw" + "/" + "x.json" == "raw/x.json";
    CollapseNoDouble("raw/x.json");
  }

  lemma ExampleRelative()
    ensures RelativePath("raw/x.json", "raw/") == "x.json"
  {
    assert StartsWith("raw/x.json", "raw/");
    assert "raw/x.json"[4..] == "x.json";
  }

  lemma ExampleStrip()
    ensures RStrip("raw/", '/') == "raw"
  {
    assert "raw/"[..3] == "raw";
  }
}
