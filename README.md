# jamp zip / unzip: a Dafny model

The repository is two plugin scripts for the `jamp` command dispatcher.

- `jamp zip [-p] <name>` packs the items of the current directory into a new zip archive. With `-p`, every entry is encrypted with AES-256.
- `jamp unzip [-p] [-d] <archive>` works out from the file name whether the archive is `.tar.gz`, `.gz`, `.zip` or `.tar.bz2`. It derives the target path and runs a fixed sequence of safety checks. It then extracts the archive and, with `-d`, may delete the source.

The compression libraries (PharData, ZipArchive, zlib, bzip2) do all the work on the bytes. This model covers the decision layer around them, exactly as written, including the defect of the `.gz` branch listed under Findings; the corrected `.gz` branch is modelled beside it and proved on its own. It also covers the two stream-copy loops and the creator's add/encrypt loop.

Modules:

- `Php` (`php.dfy`): the PHP 8 semantics the scripts rely on.
  - `substr_compare` with a negative offset, modelled after its C implementation and proved to be an ends-with test.
  - `substr($s, 0, -k)`.
  - String truthiness.
  - `rtrim(fgets(STDIN), PHP_EOL)` and the password expression.
- `UnzipPlan` (`unzip_plan.dfy`): the pure part of `scripts/unzip.php`.
  - Format detection and target derivation.
  - The ordered precondition checks over a snapshot of filesystem and runtime observations (`Env`).
  - The zip-warning rule and the per-format delete rule.
- `UnzipRun` (`unzip_run.dfy`): the extractor as imperative code.
  - A `Disk` class holds files and their bytes, plus directories with their `scandir` sizes.
  - A `Stream` class is the decompression handle.
  - The chunk-copy loop, the per-format extraction step and the whole script (`Unzip`).
  - Pure functions (`StreamBranch`, `GzBranchAsWritten`, `Step`, `Outcome`) specify these methods. The lemmas about the run are stated over those functions.
- `ZipCreate` (`zip_create.dfy`): `scripts/zip.php`.
  - Name normalisation and the listing filter.
  - An `Archive` class whose entry list and per-entry AES flags are updated by the add loop.
  - The whole script (`CreateZip`).

Behaviour of the scripts that a reader may not expect:

- The creator does not walk the tree recursively and writes no empty-directory markers. It adds the top-level listing entries under their own names, from `cwd . DIRECTORY_SEPARATOR . item`.
- The extractor tests suffixes in the order `.tar.gz`, `.gz`, `.zip`, `.tar.bz2`. Only `.tar.gz` and `.gz` can both match, and `.tar.gz` is tested first, so the longest matching suffix always wins (`UnzipPlan.DetectIsLongestMatch`).
- The `.tar.bz2` note is printed at detection time, before any check. So something is printed before the checks pass (`UnzipRun.NothingBeforeChecks`).
- A `.tar.bz2` source is deleted whenever `-d` is given and the copy finished. No success condition beyond that is tested.
- The zip warning is governed by PHP truthiness. A status of `"0"` is silent, like `""` and `"No error"`.
- Only the `.tar.bz2` branch removes a created target when its stream fails to open. The `.gz` branch leaves the empty target behind, and `UnzipRun.Step`, `UnzipRun.ExtractPlan` and `UnzipRun.Unzip` model it that way (see Findings).

## Model

| member | source | states |
|---|---|---|
| Php.SubstrCompareIsEndsWith | scripts/unzip.php:22-28 | `substr_compare($s, $suffix, -strlen($suffix)) === 0` (PHP 8: clamped offset, comparison over the longer length) holds exactly when `$s` ends with `$suffix`; a string shorter than the suffix never matches |
| Php.DropLast | scripts/unzip.php:38 | `substr($s, 0, -k)` is a prefix of `$s` with `max(0, len - k)` characters for `k > 0`, and `''` for `k = 0` |
| Php.TrimEol | scripts/zip.php:32 | `rtrim($line, PHP_EOL)` is a prefix of the line, does not end in a newline, and only newlines were removed |
| Php.ReadPassword | scripts/zip.php:29-32 | without the password flag the password is `''` and stdin is not consulted; with it, the password is a prefix of the read line, everything cut off is a newline and the password does not end in one; at end of input the password is `''` |
| UnzipPlan.Detect | scripts/unzip.php:21-35 | a detected format's suffix ends the name; no format is detected exactly when the name ends with none of the four suffixes (the "only works with ..." error); `.gz` is never chosen for a `.tar.gz` name |
| UnzipPlan.DetectByEndsWith | scripts/unzip.php:22-35 | detection is the cascade of plain ends-with tests `.tar.gz`, `.gz`, `.zip`, `.tar.bz2`, else the unsupported-format error |
| UnzipPlan.DetectIsLongestMatch | scripts/unzip.php:22-29 | detection yields `ft` if and only if the name ends with `ft`'s suffix and every other matching suffix is strictly shorter; exactly one format wins |
| UnzipPlan.TarGzNeverGz | scripts/unzip.php:22-25 | a name ending in `.tar.gz` is classified `.tar.gz`, because that test precedes the `.gz` test |
| UnzipPlan.Target | scripts/unzip.php:37-41 | for every format except `.tar.bz2` the target is a prefix of the resolved path |
| UnzipPlan.TargetStripsSuffix | scripts/unzip.php:37-41 | on a path bearing the suffix, the target plus the suffix gives back the path; for `.tar.bz2` the target plus `.bz2` does; the target is never the path itself |
| UnzipPlan.TargetExamples | scripts/unzip.php:37-41 | `/x/a.tar.bz2` gives `/x/a.tar`; `/x/a.zip`, `/x/a.tar.gz` and `/x/a.gz` give `/x/a` |
| UnzipPlan.Validate | scripts/unzip.php:33-64 | checks in order: unsupported format, unreadable source (`realpath` failure reads as `''`), non-empty directory (`scandir` count > 2, `.zip`/`.tar.gz` only), existing file (`.gz`/`.tar.bz2` only), missing zlib/bz2. Each error means all earlier checks passed; the go-ahead holds exactly when all pass and carries format, resolved source and derived target |
| UnzipPlan.UnreadableComesBeforeDestination | scripts/unzip.php:43-64 | an unreadable-source error does not depend on the directories or the loaded extensions |
| UnzipPlan.DestinationComesBeforeExtension | scripts/unzip.php:47-64 | a destination error does not depend on which extensions are loaded |
| UnzipPlan.PlanIsSafe | scripts/unzip.php:43-54 | after the go-ahead the source is an existing file; for `.gz`/`.tar.bz2` nothing exists at the target and the target differs from the source |
| UnzipPlan.ZipWarnsExactly | scripts/unzip.php:98-101 | the zip warning is printed exactly when the status is not `""`, not `"0"` (PHP falsy) and not `"No error"` |
| UnzipPlan.ShouldDelete | scripts/unzip.php:68-129 | the source is deleted only with `-d`, and never for `.gz`; `.tar.bz2` with `-d` always; `.tar.gz` exactly when `extractTo` returned true; `.zip` exactly when the result is true and the status is `"No error"`, so never after a warning |
| UnzipPlan.ZipWarningWithholdsDeletion | scripts/unzip.php:98-104 | a zip extraction that printed the warning never deletes its source |
| UnzipRun.Stream.Read | scripts/unzip.php:80 | a read returns the next `min(len, remaining)` bytes of the stream in order, non-empty before end of stream, and advances by that much |
| UnzipRun.Stream.Eof | scripts/unzip.php:79 | end of stream exactly when nothing remains |
| UnzipRun.Disk.Create | scripts/unzip.php:111 | `fopen(..., 'wb')` makes the target an empty file and changes nothing else |
| UnzipRun.Disk.Append | scripts/unzip.php:122 | `fwrite` appends the chunk to the target and changes nothing else |
| UnzipRun.Disk.Unlink | scripts/unzip.php:118 | `unlink` removes exactly that path |
| UnzipRun.CopyStream | scripts/unzip.php:121-123 | the loop reads until end of stream and leaves the target holding its old bytes followed by the stream's content in order; every chunk is non-empty and at most the read length; no other file or directory changes |
| UnzipRun.StreamBranch | scripts/unzip.php:110-125 | success exactly when the target opens and the stream opens, and then the target holds the stream content; on failure a previously absent target stays absent (closed and unlinked after a failed `bzopen`); every other path keeps its presence and its bytes |
| UnzipRun.ExtractStream | scripts/unzip.php:110-125 | the open/copy/cleanup method leaves the disk and the error exactly as `StreamBranch` says; on success the chunks read concatenate to the stream's content and each requests at most the read length (1024 for `bzread`) |
| UnzipRun.GzBranchAsWritten | scripts/unzip.php:75-84 | the `.gz` branch as written succeeds exactly when both the stream and the target open, and then the target holds the stream content; a failed stream open after the target opened is a TypeError leaving the target empty; a target that does not open is a TypeError with the files unchanged; every other path keeps its presence and its bytes |
| UnzipRun.ExtractGzAsWritten | scripts/unzip.php:75-84 | the `.gz` method (open the target, then test the stream, then copy in 4096-byte reads) leaves the disk and the error exactly as `GzBranchAsWritten` says; on success the chunks read concatenate to the stream's content and each is at most 4096 bytes |
| UnzipRun.GzOpenFailureLeavesTarget | scripts/unzip.php:76-83 | as written, a `.gz` source whose stream does not open fails and leaves a new empty target file, where the corrected branch leaves the files unchanged |
| UnzipRun.GzBranch | scripts/unzip.php:75-84 | corrected `.gz` branch: success exactly when both the stream and the target open, and then the target holds the stream content; on failure a previously absent target stays absent; a source other than the target keeps its presence and its bytes |
| UnzipRun.GzBranchesAgreeUnlessStreamFails | scripts/unzip.php:75-84 | the corrected and the as-written `.gz` branches leave the same files and agree on success unless the stream fails after the target opened |
| UnzipRun.Step | scripts/unzip.php:68-129 | the step fails exactly when `extractTo` throws (`.tar.gz`), the zip does not open (`.zip`), or the target or the stream does not open (`.gz`, `.tar.bz2`); a successful `.gz`/`.tar.bz2` step leaves the target holding the stream; with `-d` the source is removed after a true `.tar.gz` `extractTo`, a `.zip` result true with status `"No error"`, and a successful `.tar.bz2` copy; without `-d` a source other than the target keeps its bytes; no path other than the source and the target changes; whenever a step removes the source, `-d` was given and the format is not `.gz` |
| UnzipRun.ExtractPlan | scripts/unzip.php:68-129 | the per-format extraction method, `.gz` as written, leaves the disk, the error and the printed lines exactly as `Step` and `StepLog` say |
| UnzipRun.NothingBeforeChecks | scripts/unzip.php:30-66 | when a check fails, the run raises that error, leaves every file untouched and prints nothing but the `.tar.bz2` note |
| UnzipRun.SourceRemovedOnlyOnSuccess | scripts/unzip.php:68-129 | a run that removes the source had `-d` and succeeded, and was not `.gz`; for `.zip` the result was true with status `"No error"` and no warning was printed; for `.tar.gz`, `extractTo` returned true |
| UnzipRun.SourceRemovedWhenDue | scripts/unzip.php:68-129 | the converse over a whole run: with `-d`, a true `.tar.gz` `extractTo`, a `.zip` result true with status `"No error"` and a successful `.tar.bz2` copy each succeed and remove the source; a successful `.gz`/`.tar.bz2` run leaves the target holding the decompressed stream |
| UnzipRun.TargetIsNotSourceOfPlan | scripts/unzip.php:37-48 | for `.zip`/`.tar.gz` the planned target differs from the resolved source |
| UnzipRun.Unzip | scripts/unzip.php:15-131 | the whole extractor changes the files, prints and returns exactly what `Outcome` says (checks, `Extracting` line, per-format step, `Extraction completed.` only on success); directories untouched |
| ZipCreate.ArchiveName | scripts/zip.php:22-23 | the normalised name ends with `.zip`; a raw name already ending with `.zip` is unchanged; any other name gets exactly `.zip` appended |
| ZipCreate.ArchiveNameIdempotent | scripts/zip.php:22-23 | normalising twice is normalising once |
| ZipCreate.ArchiveNameExample | scripts/zip.php:22-23 | `output` becomes `output.zip`; `output.zip` is kept |
| ZipCreate.Items | scripts/zip.php:16 | an entry is an item exactly when it is in the listing and is neither `.` nor `..` |
| ZipCreate.ItemsAppend | scripts/zip.php:16 | filtering commutes with concatenation, so items keep listing order |
| ZipCreate.ItemsOfOne | scripts/zip.php:16 | a single entry goes exactly when it is `.` or `..`, and is otherwise kept |
| ZipCreate.ItemsDistinct | scripts/zip.php:16 | a listing without repeats gives items without repeats |
| ZipCreate.PutNewName | scripts/zip.php:45 | adding a file under a new name appends exactly one entry at the end |
| ZipCreate.Encrypt | scripts/zip.php:47 | marking a name for AES-256 sets the flag on the entries of that name and changes nothing else |
| ZipCreate.PlannedEntries | scripts/zip.php:43-49 | the planned entries are one per item, in order, named after the item, sourced from `cwd . sep . item`, AES-256 exactly when a password is used |
| ZipCreate.Archive.constructor | scripts/zip.php:34 | a new archive handle has no entries and no password |
| ZipCreate.Archive.SetPassword | scripts/zip.php:40-42 | sets the archive password, entries unchanged |
| ZipCreate.Archive.AddFile | scripts/zip.php:45 | the entry list becomes `Put` of the new unencrypted entry |
| ZipCreate.Archive.SetEncryptionName | scripts/zip.php:47 | the entry list becomes `Encrypt` of that name |
| ZipCreate.Archive.Close | scripts/zip.php:50 | the archive is closed, contents unchanged |
| ZipCreate.AddItems | scripts/zip.php:43-49 | on a fresh archive the loop leaves exactly the planned entries: each item once, under its own name, AES-256 on all or none according to password mode |
| ZipCreate.CreateZip | scripts/zip.php:16-51 | an existing normalised name fails before any prompt or archive; a failed open fails with the status string and adds nothing; otherwise the closed archive holds exactly the planned entries and the password read from stdin (`''` without `-p`) |

## Left out

- The compression libraries and container formats are abstract results. `PharData::extractTo` gives a boolean, or None when it throws. `ZipArchive` open and extract give booleans and status strings. `gzopen`/`bzopen` give a stream of decompressed bytes, or null when the open fails. None of gzip, bzip2, tar, zip or AES-256 is implemented in the repository.
- The files extracted by `.tar.gz` and `.zip` are not written to the `Disk`. Only the deletion of the source is modelled for those formats.
- `Stream.Read` always returns `min(len, remaining)` bytes. The real `gzread`/`bzread` may return fewer. Errors in the middle of decompression (`bzread` returning false) are not modelled. `Stream.Eof` holds as soon as nothing remains, whereas `gzeof`/`feof` become true only after a read has hit the end; the real loop may therefore end with one zero-byte read (always so for an empty stream), while the model's chunks are all non-empty. The bytes written are the same.
- `fclose`, `gzclose`, `bzclose` and `ZipArchive::close` on the extractor side are not modelled. They carry no state in the model.
- The return values of `addFile` and `setEncryptionName` are ignored by the script. The model treats both calls as succeeding. Whether the library accepts a directory item is not modelled.
- `realpath`, `is_file`, `is_dir`, `scandir`, `file_exists` and `extension_loaded` are observations in `Env`, a snapshot taken when the checks run. The creator's `file_exists` is the `existing` parameter.
- `getopt`, `$argv`, the `jampUse`/`jampEcho` framework hooks and the exact text of messages are not modelled. The flags are booleans; printed lines are `Msg` values.
- In the extractor, the `.zip` password read from stdin and passed to `setPassword` is not modelled beyond the prompt. The library's use of it is abstract.
- `DIRECTORY_SEPARATOR` and `getcwd()` are the parameters `sep` and `cwd`.
- PHP 8 semantics are assumed: TypeError on a false handle, and `substr` returning `''` when the string is too short. Under PHP 7, the failed-`gzopen` case loops forever instead of raising.
- Strings are sequences of characters, while PHP's `strlen`, `substr` and `substr_compare` count bytes. The two agree on ASCII paths only. For a symlink `a.gz` resolving to `/x/bé`, PHP cuts the target to `/x/` and `UnzipPlan.Target` to `/x`.
- `PHP_EOL` is taken to be `"\n"`. On Windows it is `"\r\n"`, and `rtrim` then strips any trailing `\r` and `\n` characters; `Php.TrimEol` strips only `\n`.
- `scandir` is assumed to succeed. When it returns false, `count(false)` in the extractor and `array_diff(false, ...)` in the creator raise a TypeError under PHP 8; that path is not modelled.
- `file_exists` is modelled as "is a file or a directory" of the `Disk`/`Env`. FIFOs, devices and sockets, which `file_exists` also reports, are not represented.
- `UnzipPlan.Target`: its own contract states only the prefix property. The suffix-stripping promise is stated in `UnzipPlan.TargetStripsSuffix`.

## Findings

| source | as written | input that shows it | evidently intended | confidence | as-written member | corrected member |
|---|---|---|---|---|---|---|
| scripts/unzip.php:76-83 | `gzopen` is called but not tested. `fopen` then creates the target, and `gzeof(false)` raises a TypeError. The empty target file stays behind. | A regular but unreadable `a.gz` (so `is_file` holds and `gzopen` fails), with zlib loaded and no `a` present: the run fails and leaves an empty `a`. | A failed stream open removes the target it created, as the `.tar.bz2` branch does at lines 115-119. | medium, not executed | UnzipRun.GzOpenFailureLeavesTarget | UnzipRun.GzBranch |
