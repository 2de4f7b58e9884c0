/**
  Which listed files the date-and-identifier mover selects (app/main.py):
  the listing of files under the source path (`list_files_in_path`), the
  per-file decision (`should_process_file`) and the loop of `main` that
  builds `files_to_move`.
 */
module FileFilter {
  import opened Wrappers
  import opened Seqs
  import opened ContentCheck

  /** A file's upload dates as integer timestamps; `None` is an absent or
      empty attribute. */
  datatype Props = Props(creationTime: Option<int>, lastModified: Option<int>)

  /** `FILTER_DATE_AFTER`, `FILTER_DATE_BEFORE`, `TARGET_SALES_COMPANY_ID`. */
  datatype Criteria = Criteria(dateAfter: Option<int>, dateBefore: Option<int>, salesCompanyId: Option<string>)

  /** The reason half of the pair `should_process_file` returns. */
  datatype Reason =
    | UploadedBefore(date: int)   // "File uploaded before filter date"
    | UploadedAfter(date: int)    // "File uploaded after filter date"
    | SalesCompanyIdMismatch      // "SalesCompanyId does not match"
    | MatchesAllCriteria          // "Matches all criteria"

  datatype Decision = Decision(process: bool, reason: Reason)

  /** The date that is checked: `creation_time`, else `last_modified`. */
  function FileDate(p: Props): Option<int> {
    if p.creationTime.Some? then p.creationTime else p.lastModified
  }

  /** The date lies inside the window; bounds are inclusive and an unknown
      date passes. */
  predicate InWindow(date: Option<int>, c: Criteria) {
    date.None? ||
    ((c.dateAfter.None? || date.value >= c.dateAfter.value) &&
     (c.dateBefore.None? || date.value <= c.dateBefore.value))
  }

  /** `should_process_file`. `content` is what `check_file_content` would
      read; it is only consulted when an identifier is set and the date
      checks passed. */
  function ShouldProcess(props: Props, c: Criteria, content: Content, fmt: Json -> string): (d: Decision)
    ensures d.process <==> d.reason == MatchesAllCriteria
    ensures d.process <==>
      InWindow(FileDate(props), c) && (c.salesCompanyId.None? || ContentAccepted(content, c.salesCompanyId, fmt))
    ensures d.reason.UploadedBefore? <==>
      FileDate(props).Some? && c.dateAfter.Some? && FileDate(props).value < c.dateAfter.value
    ensures d.reason.UploadedAfter? <==>
      FileDate(props).Some? && (c.dateAfter.None? || FileDate(props).value >= c.dateAfter.value) &&
      c.dateBefore.Some? && FileDate(props).value > c.dateBefore.value
    ensures d.reason.UploadedBefore? || d.reason.UploadedAfter? ==> d.reason.date == FileDate(props).value
  {
    var date := FileDate(props);
    if date.Some? && c.dateAfter.Some? && date.value < c.dateAfter.value then
      Decision(false, UploadedBefore(date.value))
    else if date.Some? && c.dateBefore.Some? && date.value > c.dateBefore.value then
      Decision(false, UploadedAfter(date.value))
    else if c.salesCompanyId.Some? && !ContentAccepted(content, c.salesCompanyId, fmt) then
      Decision(false, SalesCompanyIdMismatch)
    else
      Decision(true, MatchesAllCriteria)
  }

  /** A date rejection happens before the content is looked at, and without
      an identifier the content is never looked at: the decision is then the
      same whatever the content. */
  lemma ContentNotReadWhenNotNeeded(props: Props, c: Criteria, c1: Content, c2: Content, fmt: Json -> string)
    requires !InWindow(FileDate(props), c) || c.salesCompanyId.None?
    ensures ShouldProcess(props, c, c1, fmt) == ShouldProcess(props, c, c2, fmt)
  {
  }

  // ---------------------------------------------------------------------
  // Listing

  /** One entry of the recursive listing; `None` for an absent attribute. */
  datatype PathItem = PathItem(name: string, isDirectory: bool, contentLength: Option<int>, lastModified: Option<int>)

  /** The dict `list_files_in_path` appends for a file. */
  datatype FileInfo = FileInfo(name: string, size: int, lastModified: Option<int>)

  function Entry(item: PathItem): FileInfo {
    FileInfo(item.name, if item.contentLength.Some? then item.contentLength.value else 0, item.lastModified)
  }

  function IsFile(item: PathItem): bool {
    !item.isDirectory
  }

  /** The files of a listing, directories skipped, in listing order. */
  function FileEntries(items: seq<PathItem>): seq<FileInfo> {
    MapSeq(Filter(items, IsFile), Entry)
  }

  /** `list_files_in_path`: `listing` is what the recursive listing yields,
      `None` when it raised (the function then returns an empty list). */
  method ListFilesInPath(listing: Option<seq<PathItem>>) returns (files: seq<FileInfo>)
    ensures listing.None? ==> files == []
    ensures listing.Some? ==> files == FileEntries(listing.value)
  {
    files := [];
    if listing.None? {
      return;
    }
    var items := listing.value;
    var i := 0;
    while i < |items|
      invariant 0 <= i <= |items|
      invariant files == FileEntries(items[..i])
    {
      assert items[..i + 1][..i] == items[..i];
      if !items[i].isDirectory {
        files := files + [Entry(items[i])];
      }
      i := i + 1;
    }
    assert items[..i] == items;
  }

  /** A name is listed as a file exactly when the listing has a
      non-directory item of that name. */
  lemma FileEntriesNames(items: seq<PathItem>, n: string)
    ensures (exists k :: 0 <= k < |FileEntries(items)| && FileEntries(items)[k].name == n) <==>
      (exists it :: it in items && !it.isDirectory && it.name == n)
  {
    var kept := Filter(items, IsFile);
    if exists it :: it in items && !it.isDirectory && it.name == n {
      var it :| it in items && !it.isDirectory && it.name == n;
      FilterMembership(items, IsFile, it);
      var k :| 0 <= k < |kept| && kept[k] == it;
      assert FileEntries(items)[k].name == n;
    }
    if exists k :: 0 <= k < |FileEntries(items)| && FileEntries(items)[k].name == n {
      var k :| 0 <= k < |FileEntries(items)| && FileEntries(items)[k].name == n;
      FilterMembership(items, IsFile, kept[k]);
    }
  }

  // ---------------------------------------------------------------------
  // Selection

  /** A listed file is moved when its properties could be read and
      `should_process_file` accepts it. The store is read through the
      oracles `propsOf` (None: `get_file_properties` failed) and
      `contentOf`. */
  predicate Keep(name: string, propsOf: string -> Option<Props>, contentOf: string -> Content,
                 c: Criteria, fmt: Json -> string) {
    propsOf(name).Some? && ShouldProcess(propsOf(name).value, c, contentOf(name), fmt).process
  }

  function KeepTest(propsOf: string -> Option<Props>, contentOf: string -> Content,
                    c: Criteria, fmt: Json -> string): string -> bool {
    n => Keep(n, propsOf, contentOf, c, fmt)
  }

  function FileName(f: FileInfo): string {
    f.name
  }

  /** `files_to_move`: the names of the listed files that pass, in listing order. */
  function FilesToMove(files: seq<FileInfo>, propsOf: string -> Option<Props>, contentOf: string -> Content,
                       c: Criteria, fmt: Json -> string): seq<string> {
    Filter(MapSeq(files, FileName), KeepTest(propsOf, contentOf, c, fmt))
  }

  /** The loop of `main` that builds `files_to_move`. */
  method SelectFilesToMove(files: seq<FileInfo>, propsOf: string -> Option<Props>, contentOf: string -> Content,
                           c: Criteria, fmt: Json -> string) returns (toMove: seq<string>)
    ensures toMove == FilesToMove(files, propsOf, contentOf, c, fmt)
  {
    toMove := [];
    var i := 0;
    while i < |files|
      invariant 0 <= i <= |files|
      invariant toMove == FilesToMove(files[..i], propsOf, contentOf, c, fmt)
    {
      var filePath := files[i].name;
      var props := propsOf(filePath);
      if props.Some? {
        var decision := ShouldProcess(props.value, c, contentOf(filePath), fmt);
        if decision.process {
          toMove := toMove + [filePath];
        }
      }
      assert files[..i + 1][..i] == files[..i];
      assert MapSeq(files[..i + 1], FileName)[..i] == MapSeq(files[..i], FileName);
      i := i + 1;
    }
    assert files[..i] == files;
  }

  /** A name is selected exactly when it is listed and passes the test. */
  lemma FilesToMoveMembership(files: seq<FileInfo>, propsOf: string -> Option<Props>,
                              contentOf: string -> Content, c: Criteria, fmt: Json -> string, n: string)
    ensures n in FilesToMove(files, propsOf, contentOf, c, fmt) <==>
      (exists k :: 0 <= k < |files| && files[k].name == n) && Keep(n, propsOf, contentOf, c, fmt)
  {
    var names := MapSeq(files, FileName);
    FilterMembership(names, KeepTest(propsOf, contentOf, c, fmt), n);
    assert n in names <==> exists k :: 0 <= k < |files| && files[k].name == n by {
      if n in names {
        var k :| 0 <= k < |names| && names[k] == n;
        assert files[k].name == n;
      }
    }
  }

  /** Selection keeps listing order: selecting from two listings one after
      the other is selecting from their concatenation. */
  lemma FilesToMoveAppend(a: seq<FileInfo>, b: seq<FileInfo>, propsOf: string -> Option<Props>,
                          contentOf: string -> Content, c: Criteria, fmt: Json -> string)
    ensures FilesToMove(a + b, propsOf, contentOf, c, fmt) ==
      FilesToMove(a, propsOf, contentOf, c, fmt) + FilesToMove(b, propsOf, contentOf, c, fmt)
  {
    MapSeqAppend(a, b, FileName);
    FilterAppend(MapSeq(a, FileName), MapSeq(b, FileName), KeepTest(propsOf, contentOf, c, fmt));
  }
}
