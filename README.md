# Data-lake file mover, modelled in Dafny

The repository holds two batch scripts that relocate files in Azure
storage.

* `app/main.py` is the date-and-identifier mover. It lists every file under
  a source path of a Data Lake file system. It selects the files whose
  upload date lies in a window and whose JSON content carries a given
  `SalesCompanyId`. It asks the operator to confirm. Then it moves the
  selected files in batches of 50: ensure the target directory, download,
  upload to the target path, delete the source. It counts successes and
  failures.
* `app/app.py` is the manifest-driven copier. It turns the file names of a
  CSV manifest into blob paths under a source prefix and keeps those the
  store says exist. It then starts a server-side copy of each one under a
  target prefix, in batches of 50. The source blob is not deleted.

The model keeps each script's own structure. Python's string operations
live in `PyText`, and the Python list loops that the scripts share live in
`Seqs`. The store is a value: `MoveFile.Lake` (file contents by path, and
the set of directories) or `ManifestCopy.Container` (blob contents by
name). Everything the scripts learn from the network is a parameter.
`listing` is the recursive listing. `propsOf` is `get_file_properties`.
`contentOf` is the downloaded and parsed content. `existsOf` is
`blob_client.exists()`. `faultOf` and `raisesOf` say which store call of a
transfer raises. The loops of the scripts are methods with loop
invariants. Each is proved equal to a specification function, and the
properties are lemmas about those functions.

Properties proved include:

* Selection. A file is selected exactly when its properties could be read,
  its date (`creation_time`, else `last_modified`) lies in the inclusive
  window or is unknown, and, when an identifier is set, the content check
  accepts it. A date rejection never depends on the content. The
  selection keeps listing order.
* Content check. The top-level key wins. Otherwise the first field, in key
  order, whose dict value or first list element holds the key. Deeper
  nesting is never searched. With an identifier set, unreadable content,
  invalid JSON, a non-object top level, an absent key or a mismatch of
  `str(value)` all reject.
* Target path. The destination is the target prefix without trailing
  slashes, `/`, and the relative path, each with its own doubled slashes
  collapsed; the junction is never touched. The destination keeps the file
  name when the source prefix ends in `/`. Its parent directory, `/` and
  its last segment rejoin to it.
* Moving. A move succeeds exactly when the file exists and no store call
  raises. On success the content is at the destination and gone from the
  source, and no other file changes. A failed delete leaves two copies.
  When the target path equals the source path, a file moved onto its own
  path is deleted although the move reports success.
* Batches. Every selected file is processed exactly once. The counters add
  up to the number of files. The batches are the consecutive slices of 50,
  `ceil(n / 50)` of them, and a failure stops nothing.
* Manifest copier. Manifest names are normalised under the source prefix,
  and normalising is idempotent for a prefix with at most one trailing `/`.
  The existence check splits the paths exactly. Only the first occurrence
  of the source prefix is replaced. The fallback name (last segment under
  the target prefix) is used exactly when the replacement changes nothing.
  A copy never deletes anything and never changes its own source blob; a
  source blob can still be overwritten in a run when it is another copy's
  target (source prefix `raw/`, target prefix `raw/archive/`).

Three behaviours of the source worth noting:

* `should_process_file` gives one reason, "SalesCompanyId does not match",
  for every content rejection (`app/main.py:139-141`): invalid JSON, a
  missing key, a mismatch and an unreadable file alike.
* The manifest copier never deletes the source; the delete is commented out
  (`app/app.py:62-66`).
* Content that is not valid UTF-8 raises `UnicodeDecodeError`, which the
  inner `except json.JSONDecodeError` does not catch. The outer handler
  returns `False` even when no identifier is set. `check_file_content` is
  only called with an identifier, so this changes no decision.

## Model

| member | source | states |
|---|---|---|
| PyText.LStrip | app/main.py:155-157 | `lstrip('/')` drops exactly the leading run of the character: the result is a suffix, everything dropped is that character, and the result does not start with it |
| PyText.RStrip | app/main.py:159 | `rstrip('/')` drops exactly the trailing run: the result is a prefix, everything dropped is the character, and the result does not end with it |
| PyText.Find | app/app.py:45 | the index `replace(..., 1)` acts on is the leftmost occurrence; no occurrence means none at any index |
| PyText.ReplaceFirstUnchangedIff | app/app.py:45-49 | the single replacement leaves the name unchanged exactly when the prefix does not occur or the two prefixes are equal |
| PyText.ReplaceFirstAtStart | app/app.py:45 | a name starting with the pattern has that leading occurrence replaced |
| PyText.CollapseNoDouble | app/main.py:159 | `replace('//', '/')` changes nothing in a string without `//` |
| PyText.CollapseDoubleIffTriple | app/main.py:159 | after the single pass a `//` remains exactly when the input held `///` |
| PyText.CollapseKeepsText | app/main.py:159 | the pass removes only slashes: the non-slash characters are kept in order |
| PyText.CollapseKeepsSlash | app/main.py:159 | the result holds a slash exactly when the input does |
| PyText.SplitParts | app/main.py:168 | no part of `split('/')` holds a slash, and `'/'.join` of the parts gives the string back |
| PyText.SplitNoSlash | app/app.py:51 | a string splits into itself alone exactly when it holds no slash |
| PyText.ParentDirAndLastSegment | app/main.py:168 | the last segment holds no slash; with a slash, parent + `/` + last segment is the path; without one, the parent is empty and the last segment is the path |
| PyText.LastSegmentCollapse | app/main.py:159 | the `//` pass keeps the last segment |
| PyText.LastSegmentLStrip | app/main.py:155-157 | stripping leading slashes keeps the last segment |
| PyText.LastSegmentAfterSlash | app/main.py:168 | whatever stands before a slash does not affect the last segment |
| PyText.Digits | app/main.py:70 | `str()` of a non-negative int is a non-empty string of decimal digits that denotes the int, with no leading zero |
| PyText.IntStr | app/main.py:70 | `str()` of an int starts with `-` exactly when it is negative, followed by the digits of its magnitude without leading zeros |
| PyText.IntStrInjective | app/main.py:70 | different ints have different `str()` texts |
| PyText.ZeroPaddedIsNoIntStr | app/main.py:70 | a text of two or more characters beginning with `0` is the `str()` of no int |
| Seqs.FilterMembership | app/main.py:242-260 | an element is kept exactly when it is in the input and passes the test |
| Seqs.FilterAppend | app/main.py:242-260 | the append-when-it-passes loop keeps order: filtering a concatenation is concatenating the filters |
| Seqs.FilterPartition | app/app.py:119-131 | filtering by a test and by its negation splits the input, duplicates included |
| Seqs.BatchesShape | app/main.py:283-285 | the slices `xs[i:i + size]` rejoin to `xs`; there are `(len + size - 1) // size` of them, none empty, all but the last of full size |
| Seqs.BatchProgress | app/main.py:283-284 | taking the next slice keeps batches-so-far plus batches-of-the-rest equal to all batches |
| Seqs.MapSeq | app/app.py:105-111 | the loop appending one path per manifest name builds one result per input, in order |
| ContentCheck.Get | app/main.py:69-70 | `key in d` holds exactly when some field has the key, and `d[key]` is a value stored under it |
| ContentCheck.SearchSalesCompanyId | app/main.py:66-82 | the search loop with its `break` returns what the specification function `IdLookup` gives |
| ContentCheck.CheckFileContent | app/main.py:54-106 | the result is `ContentAccepted` of the content and the target |
| ContentCheck.NestedLookupIsFirstHolder | app/main.py:72-82 | the nested search finds nothing exactly when no field holds the key, and otherwise returns what the first holding field holds |
| ContentCheck.SearchOrder | app/main.py:68-82 | a top-level key wins; otherwise the first field in key order holding the key one level down; otherwise nothing |
| ContentCheck.AcceptedWithTargetIff | app/main.py:84-106 | with a target, a file is accepted exactly when it parsed to an object, the search found a value, and its `str` is the target |
| ContentCheck.AcceptedWithoutTarget | app/main.py:95-102 | without a target, anything readable is accepted, invalid JSON included |
| ContentCheck.IntIdMatchesItsDecimalText | app/main.py:70-89 | `{"SalesCompanyId": 42}` matches the target "42" |
| ContentCheck.PaddedTargetNeverMatchesInt | app/main.py:70-89 | an int identifier never matches a zero-padded target such as "042" |
| ContentCheck.NullIdIsFound | app/main.py:70-85 | a JSON null is found, and its `str` is "None" |
| ContentCheck.DeeperNestingIgnored | app/main.py:72-82 | a key two levels down, or in a list's second element, is not found |
| FileFilter.ShouldProcess | app/main.py:109-146 | process exactly when the date is in the inclusive window (or unknown) and, with an identifier set, the content is accepted; the reason is "before" / "after" exactly on the matching date test and carries the file date, and is "matches" exactly when processed |
| FileFilter.ContentNotReadWhenNotNeeded | app/main.py:126-141 | a date rejection, or a run without identifier, decides the same whatever the content |
| FileFilter.ListFilesInPath | app/main.py:195-216 | the listing loop returns the non-directory items in order, with size 0 when absent, and an empty list when the listing raised |
| FileFilter.FileEntriesNames | app/main.py:201-209 | a name is returned exactly when the listing has a non-directory item of that name |
| FileFilter.SelectFilesToMove | app/main.py:240-260 | the selection loop returns `FilesToMove` of the listing |
| FileFilter.FilesToMoveMembership | app/main.py:242-258 | a name is selected exactly when it is listed, its properties could be read and `should_process_file` accepts it |
| FileFilter.FilesToMoveAppend | app/main.py:242-258 | the selection keeps listing order |
| MoveFile.RelativePath | app/main.py:154-157 | the relative path never starts with a slash |
| MoveFile.CollapseAppend | app/main.py:159 | the `//` pass never acts across the end of a piece that does not end in a slash |
| MoveFile.TargetFilePathShape | app/main.py:154-159 | the destination is the collapsed target prefix without trailing slashes, `/`, and the collapsed relative path; without `//` in either piece it is exactly `TARGET_PATH.rstrip('/') + '/' + relative_path` |
| MoveFile.TargetKeepsFileName | app/main.py:154-159 | the destination keeps the file name unless a source prefix not ending in `/` cuts into it |
| MoveFile.TargetDirRejoins | app/main.py:159-168 | the destination always holds a slash, and `target_dir + '/' + last segment` is the destination |
| MoveFile.MoveEffect | app/main.py:149-192 | a move succeeds exactly when the file exists and no call raises; on success the content is at the destination and not at the source; other files are untouched, no file appears except the destination, directories only grow; a failed move keeps the source and its content, and one failing before the upload changes no file |
| MoveFile.DeleteFailureLeavesTwoCopies | app/main.py:176-192 | when only the delete raises, the file is at both places and the move reports failure |
| MoveFile.MoveOntoItselfDeletes | app/main.py:176-188 | a move whose destination is its own path deletes the file and reports success |
| MoveFile.SamePrefixesMapToItself | app/main.py:154-159 | with source and target path both "raw/", "raw/x.json" maps to itself |
| MoveMain.MoveAll | app/main.py:280-299 | every file is counted exactly once, as a success or a failure, and the counters only grow |
| MoveMain.MoveAllAppend | app/main.py:283-303 | moving a concatenation is moving the first part, then the second from where the first left off |
| MoveMain.MoveBatch | app/main.py:287-299 | one batch's loop leaves the counters and the store as `MoveAll` of the batch |
| MoveMain.RunMoveBatches | app/main.py:278-303 | the batch loop over `range(0, n, 50)` yields `MoveAll` of all files, its counters sum to the number of files, and its batches are the slices of 50 |
| MoveMain.ConfirmedIff | app/main.py:269-272 | the run goes ahead exactly on "y" or "yes" in any mix of letter case |
| MoveMain.RunMain | app/main.py:229-316 | the run ends with "no files" exactly when nothing is listed, "no match" exactly when nothing is selected, "cancelled" exactly when the answer is not a yes; otherwise it completes with `MoveAll` of the selection; the store is unchanged unless it completes |
| ManifestCopy.TargetReplacesFirstOccurrence | app/app.py:45 | with the prefix present and the prefixes different, the target name replaces the leftmost occurrence of the source prefix |
| ManifestCopy.TargetForPrefixedName | app/app.py:45 | a name starting with the source prefix has it swapped for the target prefix |
| ManifestCopy.FallbackIff | app/app.py:45-53 | the fallback is used exactly when the prefix is absent or the prefixes are equal, and it places the name's last segment directly under the target prefix |
| ManifestCopy.CopyBlobEffect | app/app.py:35-69 | a copy deletes nothing, keeps the source, gives the target the source's content unless the call raised or the blob is gone, and changes nothing else |
| ManifestCopy.CopyAllAppend | app/app.py:176-187 | copying a concatenation is copying the first part, then the second |
| ManifestCopy.CopyAllNonDestructive | app/app.py:57-66 | after any sequence of copies every blob still exists, and a blob that is no copy's target keeps its content |
| ManifestCopy.NormalizeName | app/app.py:106-111 | a normalised path starts with the source prefix without trailing slashes; a name already under the prefix is kept as it is |
| ManifestCopy.NormalizeIdempotent | app/app.py:106-111 | for a prefix with at most one trailing slash, every normalised path starts with the prefix, so normalising twice changes nothing |
| ManifestCopy.NormalizeCsvNames | app/app.py:105-111 | the loop builds the normalised path of each name, in order |
| ManifestCopy.PartitionByExistence | app/app.py:116-131 | the loop puts the paths that exist in `matching_blobs` and those that do not, or whose check raised, in `not_found_blobs`, both in order |
| ManifestCopy.PartitionIsExact | app/app.py:119-131 | every path lands in exactly one list, duplicates kept, and is matching exactly when the check answered True |
| ManifestCopy.FilterBlobsByCsvFilenames | app/app.py:100-154 | the result is `MatchingBlobs` of the manifest names |
| ManifestCopy.MatchingBlobsShape | app/app.py:104-131 | every matching blob is the normalised path of some manifest name, starts with the source prefix without trailing slashes, and was reported to exist |
| ManifestCopy.CopyBatch | app/app.py:180-183 | one batch's loop leaves the container as `CopyAll` of the batch |
| ManifestCopy.RunCopyBatches | app/app.py:176-187 | the batch loop yields `CopyAll` of all matching blobs, and its batches are the slices of 50 |
| ManifestCopy.RunManifestCopy | app/app.py:156-196 | an empty manifest and an empty match list end the run with the container unchanged; otherwise every matching blob is copied in order |
| ManifestCopy.ManifestExample | app/app.py:100-131 | with source "raw/" and target "archive/", the manifest ["a.json", "b.json"] where only "raw/a.json" exists matches ["raw/a.json"], whose target is "archive/a.json" |

## Left out

- Authentication, client construction and closing, configuration reads, `print`, `gc.collect()` and `input` are not modelled. The configuration and the operator's answer are parameters.
- Every store call is an outside service. Listing, properties, content and existence answers are parameters. Which call raises is given per file (`faultOf`, `raisesOf`). The store is assumed unchanged between selection and moving.
- Transfers within one batch run concurrently in the source. The model runs them one after the other in batch order. When two files of a batch share a destination, the final content depends on an order the source does not fix.
- The `except` around `future.result()` (`app/main.py:297-299`) is not modelled separately. `move_file` catches its own errors, so every future returns a boolean.
- `get_filenames_from_csv` (pandas `read_csv`, the `filename` column check, `dropna`) is not modelled. The manifest is a list of strings; non-string cells are not represented.
- Downloading bytes, UTF-8 decoding and `json.loads` are replaced by the `Content` value: parsed JSON, invalid JSON, or an unreadable file. JSON objects with duplicate keys are not represented.
- ContentCheck.PyStr: `str()` of floats, lists and dicts is left to an uninterpreted formatter. Only ints, strings, booleans and null are spelled out.
- Datetimes are integer timestamps. The `TypeError` from comparing naive and aware datetimes (`app/main.py:145-146`) is not modelled, and neither is any other exception inside `should_process_file`.
- ManifestCopy.CopyBlobEffect: the source URL (`app/app.py:38`) is built from the blob name without percent-encoding. A name containing `?`, `#` or `%` then addresses a different blob or none, so the copy reads another blob or fails. The model assumes the URL always addresses the named blob.
- `start_copy_from_url` is taken as completed once issued. The asynchronous copy and its copy id are not modelled.
- MoveMain.ConfirmedIff: `lower()` is modelled on ASCII letters only. No other character lowers to `y`, `e` or `s`, so the decision is unaffected.
- Sizes and `last_modified` of listed files are carried but never used by the selection, as in the source.
