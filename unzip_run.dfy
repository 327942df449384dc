/**
 * The extractor's run (scripts/unzip.php) over a modelled filesystem: the
 * checks of UnzipPlan, then the format's extraction step, the chunked
 * stream copies of `.gz` and `.tar.bz2`, and the deletion of the source.
 */
module UnzipRun {
  import opened Php
  import opened UnzipPlan

  /** Read length of `gzread($input, $bufferSize)`. */
  const GzBufferSize: nat := 4096
  /** Default read length of `bzread($bz)`. */
  const BzReadLength: nat := 1024

  /**
   * The part of the filesystem the script touches: regular files with
   * their bytes, and directories with the size of their `scandir` listing.
   */
  class Disk {
    var files: map<string, seq<byte>>
    var dirs: map<string, nat>

    constructor (files: map<string, seq<byte>>, dirs: map<string, nat>)
      ensures this.files == files && this.dirs == dirs
    {
      this.files := files;
      this.dirs := dirs;
    }

    /** `fopen($p, 'wb')` that succeeded: the file exists and is empty. */
    method Create(p: string)
      modifies this
      ensures files == old(files)[p := []] && dirs == old(dirs)
    {
      files := files[p := []];
    }

    /** `fwrite($handle, $bytes)` on the file opened for `p`. */
    method Append(p: string, bytes: seq<byte>)
      requires p in files
      modifies this
      ensures files == old(files)[p := old(files)[p] + bytes] && dirs == old(dirs)
    {
      files := files[p := files[p] + bytes];
    }

    /** `unlink($p)`. */
    method Unlink(p: string)
      modifies this
      ensures files == old(files) - {p} && dirs == old(dirs)
    {
      files := files - {p};
    }
  }

  /**
   * An open decompression stream (`gzopen`/`bzopen` handle): the
   * decompressed bytes it will deliver and how far reading has got.
   */
  class Stream {
    const data: seq<byte>
    var pos: nat

    ghost predicate Valid()
      reads this
    {
      pos <= |data|
    }

    /** What is still to be read. */
    function Remaining(): seq<byte>
      reads this
      requires Valid()
    {
      data[pos..]
    }

    constructor (data: seq<byte>)
      ensures Valid() && this.data == data && pos == 0
    {
      this.data := data;
      pos := 0;
    }

    /** `gzeof` / `feof`. */
    function Eof(): (r: bool)
      reads this
      requires Valid()
      ensures r <==> Remaining() == []
    {
      pos == |data|
    }

    /** `gzread($s, len)` / `bzread($s, len)`: the next at most `len` bytes, in order. */
    method Read(len: nat) returns (chunk: seq<byte>)
      requires Valid() && len > 0
      modifies this
      ensures Valid()
      ensures chunk == old(Remaining())[..Min(len, |old(Remaining())|)]
      ensures pos == old(pos) + |chunk|
      ensures old(Remaining()) != [] ==> 0 < |chunk| <= len
    {
      var n := Min(len, |data| - pos);
      chunk := data[pos..pos + n];
      pos := pos + n;
    }
  }

  /** The effect of one extraction step: the files afterwards and the error raised, if any. */
  datatype Effect = Effect(files: map<string, seq<byte>>, error: Option<Err>)

  /**
   * The stream branch of lines 110-125 (`.tar.bz2`) without its deletion:
   * open the target, then the compressed stream; if the stream does not
   * open, close and unlink the target before raising; otherwise copy the
   * stream into the target.  `input` is the decompressed content, None
   * when the stream does not open.
   */
  function StreamBranch(files: map<string, seq<byte>>, source: string, target: string,
                        input: Option<seq<byte>>, targetOpens: bool): (e: Effect)
    ensures e.error.None? <==> targetOpens && input.Some?
    ensures e.error.None? ==> target in e.files && e.files[target] == input.value
    ensures e.error.Some? ==> target !in files ==> e.files == files
    ensures forall p :: p != target ==> (p in e.files <==> p in files) && (p in files ==> e.files[p] == files[p])
  {
    if !targetOpens then Effect(files, Some(OpenFailed(target)))
    else match input
      case None => Effect(files[target := []] - {target}, Some(StreamUnreadable(source)))
      case Some(d) => Effect(files[target := d], None)
  }

  /**
   * The `.gz` branch of lines 75-84 as written.  `gzopen` comes first; if
   * it fails, `fopen` still creates the target and the first `gzeof(false)`
   * raises a TypeError, leaving the empty target behind.  A target that
   * does not open is a TypeError at the first `fwrite`/`fclose`.
   */
  function GzBranchAsWritten(files: map<string, seq<byte>>, target: string,
                             input: Option<seq<byte>>, targetOpens: bool): (e: Effect)
    ensures e.error.None? <==> targetOpens && input.Some?
    ensures e.error.None? ==> e.files == files[target := input.value]
    ensures targetOpens && input.None? ==> e.files == files[target := []] && e.error == Some(TypeFault)
    ensures !targetOpens ==> e.files == files && e.error == Some(TypeFault)
    ensures forall p :: p != target ==> (p in e.files <==> p in files) && (p in files ==> e.files[p] == files[p])
  {
    if !targetOpens then Effect(files, Some(TypeFault))
    else match input
      case None => Effect(files[target := []], Some(TypeFault))
      case Some(d) => Effect(files[target := d], None)
  }

  /**
   * The discrepancy: a `.gz` source that cannot be opened as a stream
   * makes the script fail and still leaves a new, empty target file.
   */
  lemma GzOpenFailureLeavesTarget(files: map<string, seq<byte>>, source: string, target: string)
    requires target !in files
    ensures GzBranchAsWritten(files, target, None, true).error.Some?
    ensures target in GzBranchAsWritten(files, target, None, true).files
    ensures GzBranchAsWritten(files, target, None, true).files[target] == []
    ensures StreamBranch(files, source, target, None, true).files == files
  {
  }

  /**
   * The corrected `.gz` branch: the cleanup the `.tar.bz2` branch has, so
   * a failed run leaves no new target behind; the source is never deleted.
   */
  function GzBranch(files: map<string, seq<byte>>, source: string, target: string,
                    input: Option<seq<byte>>, targetOpens: bool): (e: Effect)
    ensures e.error.None? <==> targetOpens && input.Some?
    ensures e.error.None? ==> target in e.files && e.files[target] == input.value
    ensures target !in files && e.error.Some? ==> e.files == files
    ensures source != target ==>
      (source in e.files <==> source in files) && (source in files ==> e.files[source] == files[source])
  {
    StreamBranch(files, source, target, input, targetOpens)
  }

  /**
   * The two `.gz` branches differ only when the stream fails to open
   * after the target did: otherwise they leave the same files and agree
   * on success.
   */
  lemma GzBranchesAgreeUnlessStreamFails(files: map<string, seq<byte>>, source: string, target: string,
                                         input: Option<seq<byte>>, targetOpens: bool)
    requires input.Some? || !targetOpens
    ensures GzBranch(files, source, target, input, targetOpens).files ==
            GzBranchAsWritten(files, target, input, targetOpens).files
    ensures GzBranch(files, source, target, input, targetOpens).error.None? <==>
            GzBranchAsWritten(files, target, input, targetOpens).error.None?
  {
  }

  /** The abstract results of the library calls of one run. */
  datatype Library = Library(
    extractTar: Option<bool>,  // `PharData::extractTo`: its result, None when it throws
    zipOpens: bool,            // `ZipArchive::open(...) === true`
    zipOpenStatus: string,     // status string after a failed open
    zipExtracted: bool,        // `ZipArchive::extractTo` result
    zipStatus: string,         // status string after extraction
    targetOpens: bool)         // `fopen($targetItem, 'wb')` succeeds

  /** A line the extractor prints. */
  datatype Msg =
    | TarBz2Note
    | Extracting(source: string, target: string)
    | PasswordPrompt
    | ZipWarning(status: string)
    | Completed

  /** The extraction step of a plan (lines 68-129). */
  function Step(p: Plan, lib: Library, deleteInput: bool, files: map<string, seq<byte>>,
                input: Option<seq<byte>>): (e: Effect)
    ensures !deleteInput && p.source != p.target ==>
      (p.source in e.files <==> p.source in files) &&
      (p.source in files ==> e.files[p.source] == files[p.source])
    ensures forall q :: q != p.source && q != p.target ==>
      (q in e.files <==> q in files) && (q in files ==> e.files[q] == files[q])
    ensures p.ft == TarGz ==> (e.error.None? <==> lib.extractTar.Some?)
    ensures p.ft == Zip ==> (e.error.None? <==> lib.zipOpens)
    ensures (p.ft == Gz || p.ft == TarBz2) ==> (e.error.None? <==> lib.targetOpens && input.Some?)
    ensures (p.ft == Gz || p.ft == TarBz2) && e.error.None? && p.source != p.target ==>
      p.target in e.files && e.files[p.target] == input.value
    ensures p.ft == TarGz && deleteInput && lib.extractTar == Some(true) ==> p.source !in e.files
    ensures p.ft == Zip && deleteInput && lib.zipOpens && lib.zipExtracted && lib.zipStatus == "No error" ==>
      p.source !in e.files
    ensures p.ft == TarBz2 && deleteInput && e.error.None? ==> p.source !in e.files
    ensures p.source in files && p.source !in e.files && p.source != p.target ==>
      deleteInput && p.ft != Gz
  {
    match p.ft
    case TarGz =>
      (match lib.extractTar
       case None => Effect(files, Some(TarFault))
       case Some(result) =>
         Effect(if ShouldDelete(TarGz, result, "", deleteInput) then files - {p.source} else files, None))
    case Zip =>
      if !lib.zipOpens then Effect(files, Some(ArchiveFault(lib.zipOpenStatus)))
      else Effect(if ShouldDelete(Zip, lib.zipExtracted, lib.zipStatus, deleteInput)
                  then files - {p.source} else files, None)
    case Gz => GzBranchAsWritten(files, p.target, input, lib.targetOpens)
    case TarBz2 =>
      var e := StreamBranch(files, p.source, p.target, input, lib.targetOpens);
      if e.error.None? && ShouldDelete(TarBz2, true, "", deleteInput)
      then e.(files := e.files - {p.source}) else e
  }

  /** What the extraction step prints between "Extracting" and "Extraction completed." */
  function StepLog(p: Plan, lib: Library, usePassword: bool): (log: seq<Msg>) {
    if p.ft != Zip then []
    else (if usePassword then [PasswordPrompt] else []) +
         (if lib.zipOpens && ZipWarns(lib.zipStatus) then [ZipWarning(lib.zipStatus)] else [])
  }

  /** The `.tar.bz2` note, printed as soon as the format is detected. */
  function Note(name: string): (log: seq<Msg>) {
    if Detect(name) == Some(TarBz2) then [TarBz2Note] else []
  }

  /** A whole run: its error (None for success), the files afterwards and what it printed. */
  datatype Run = Run(error: Option<Err>, files: map<string, seq<byte>>, log: seq<Msg>)

  function Outcome(name: string, env: Env, files: map<string, seq<byte>>, lib: Library,
                   usePassword: bool, deleteInput: bool, input: Option<seq<byte>>): (run: Run)
  {
    match Validate(name, env)
    case Err(e) => Run(Some(e), files, Note(name))
    case Ok(p) =>
      var s := Step(p, lib, deleteInput, files, input);
      Run(s.error, s.files,
          Note(name) + [Extracting(p.source, p.target)] + StepLog(p, lib, usePassword) +
          (if s.error.None? then [Completed] else []))
  }

  /**
   * Nothing is extracted, written or deleted and nothing but the
   * `.tar.bz2` note is printed until every check has passed.
   */
  lemma NothingBeforeChecks(name: string, env: Env, files: map<string, seq<byte>>, lib: Library,
                            usePassword: bool, deleteInput: bool, input: Option<seq<byte>>)
    requires Validate(name, env).Err?
    ensures var run := Outcome(name, env, files, lib, usePassword, deleteInput, input);
      run.error == Some(Validate(name, env).error) && run.files == files &&
      run.log == Note(name) && forall m :: m in run.log ==> m == TarBz2Note
  {
  }

  /**
   * The source is removed only when `--delete` was given and the format's
   * extraction step succeeded; a `.gz` source is never removed, and a zip
   * run that warned keeps its source.
   */
  lemma {:induction false} SourceRemovedOnlyOnSuccess(
      name: string, env: Env, files: map<string, seq<byte>>, lib: Library,
      usePassword: bool, deleteInput: bool, input: Option<seq<byte>>)
    requires Validate(name, env).Ok?
    requires files.Keys == env.files
    ensures var p := Validate(name, env).value;
      var run := Outcome(name, env, files, lib, usePassword, deleteInput, input);
      p.source !in run.files ==>
        deleteInput && run.error.None? && p.ft != Gz &&
        (p.ft == Zip ==> lib.zipExtracted && lib.zipStatus == "No error" && ZipWarning(lib.zipStatus) !in run.log) &&
        (p.ft == TarGz ==> lib.extractTar == Some(true))
  {
    var p := Validate(name, env).value;
    var s := Step(p, lib, deleteInput, files, input);
    assert Outcome(name, env, files, lib, usePassword, deleteInput, input).files == s.files;
    PlanIsSafe(name, env);
    if UnpacksToDirectory(p.ft) {
      TargetIsNotSourceOfPlan(name, env);
    }
  }

  /**
   * The converse: with `-d`, a successful `.tar.bz2` copy, a `.zip`
   * extraction that returned true with status "No error", and a `.tar.gz`
   * `extractTo` that returned true each remove the source; and a
   * successful `.gz` or `.tar.bz2` run leaves the target holding the
   * decompressed stream.
   */
  lemma SourceRemovedWhenDue(
      name: string, env: Env, files: map<string, seq<byte>>, lib: Library,
      usePassword: bool, deleteInput: bool, input: Option<seq<byte>>)
    requires Validate(name, env).Ok?
    requires files.Keys == env.files
    ensures var p := Validate(name, env).value;
      var run := Outcome(name, env, files, lib, usePassword, deleteInput, input);
      (p.ft == TarBz2 && deleteInput && lib.targetOpens && input.Some? ==>
         run.error.None? && p.source !in run.files) &&
      (p.ft == Zip && deleteInput && lib.zipOpens && lib.zipExtracted && lib.zipStatus == "No error" ==>
         run.error.None? && p.source !in run.files) &&
      (p.ft == TarGz && deleteInput && lib.extractTar == Some(true) ==>
         run.error.None? && p.source !in run.files) &&
      ((p.ft == Gz || p.ft == TarBz2) && run.error.None? ==>
         p.target in run.files && run.files[p.target] == input.value)
  {
    PlanIsSafe(name, env);
  }

  /** For directory formats the target is shorter than the (non-empty) resolved source. */
  lemma TargetIsNotSourceOfPlan(name: string, env: Env)
    requires Validate(name, env).Ok?
    requires UnpacksToDirectory(Validate(name, env).value.ft)
    ensures Validate(name, env).value.target != Validate(name, env).value.source
  {
    var p := Validate(name, env).value;
    assert |p.target| == Max(0, |p.source| - |Suffix(p.ft)|);
  }

  /**
   * The chunk copy of lines 79-81 and 121-123: read at most `readLen`
   * bytes at a time until end of stream and append each chunk to the
   * target, so the target ends up holding the stream's content in order.
   */
  method CopyStream(disk: Disk, target: string, input: Stream, readLen: nat)
      returns (ghost chunks: seq<seq<byte>>)
    requires input.Valid() && readLen > 0 && target in disk.files
    modifies disk, input
    ensures input.Valid() && input.Eof()
    ensures disk.files == old(disk.files)[target := old(disk.files[target]) + old(input.Remaining())]
    ensures disk.dirs == old(disk.dirs)
    ensures Concat(chunks) == old(input.Remaining())
    ensures forall i :: 0 <= i < |chunks| ==> 0 < |chunks[i]| <= readLen
  {
    ghost var start := input.pos;
    ghost var initial := disk.files[target];
    chunks := [];
    assert input.data[start..input.pos] == [] && initial + [] == initial;
    assert disk.files == old(disk.files)[target := initial];
    while !input.Eof()
      invariant input.Valid() && start <= input.pos
      invariant disk.files == old(disk.files)[target := initial + input.data[start..input.pos]]
      invariant disk.dirs == old(disk.dirs)
      invariant Concat(chunks) == input.data[start..input.pos]
      invariant forall i :: 0 <= i < |chunks| ==> 0 < |chunks[i]| <= readLen
      decreases |input.data| - input.pos
    {
      ghost var before := input.pos;
      var chunk := input.Read(readLen);
      assert chunk == input.data[before..input.pos];
      assert input.data[start..input.pos] == input.data[start..before] + chunk;
      assert initial + input.data[start..input.pos] == (initial + input.data[start..before]) + chunk;
      disk.Append(target, chunk);
      ConcatAppend(chunks, chunk);
      chunks := chunks + [chunk];
    }
    assert input.data[start..input.pos] == old(input.Remaining());
  }

  function Concat(chunks: seq<seq<byte>>): (bytes: seq<byte>) {
    if chunks == [] then [] else Concat(chunks[..|chunks| - 1]) + chunks[|chunks| - 1]
  }

  lemma ConcatAppend(chunks: seq<seq<byte>>, c: seq<byte>)
    ensures Concat(chunks + [c]) == Concat(chunks) + c
  {
    assert (chunks + [c])[..|chunks|] == chunks;
  }

  /**
   * The stream branch: open the target, then the stream (`input` is null
   * when `gzopen`/`bzopen` failed); on a failed stream close and unlink
   * the target; otherwise copy.
   */
  method ExtractStream(disk: Disk, source: string, target: string, input: Stream?,
                       targetOpens: bool, readLen: nat) returns (err: Option<Err>, ghost chunks: seq<seq<byte>>)
    requires input != null ==> input.Valid()
    requires readLen > 0
    modifies disk, input
    ensures var e := StreamBranch(old(disk.files), source, target,
                                  if input == null then None else Some(old(input.Remaining())), targetOpens);
      disk.files == e.files && err == e.error
    ensures disk.dirs == old(disk.dirs)
    ensures err.None? ==> input != null && Concat(chunks) == old(input.Remaining())
    ensures forall i :: 0 <= i < |chunks| ==> 0 < |chunks[i]| <= readLen
  {
    chunks := [];
    if !targetOpens {
      return Some(OpenFailed(target)), [];
    }
    disk.Create(target);
    if input == null {
      disk.Unlink(target);
      return Some(StreamUnreadable(source)), [];
    }
    ghost var content := input.Remaining();
    chunks := CopyStream(disk, target, input, readLen);
    assert [] + content == content;
    err := None;
  }

  /**
   * The `.gz` branch of lines 75-84 as written, on the disk: a target
   * that does not open is a TypeError; otherwise the target is created,
   * and a stream that did not open is a TypeError with the empty target
   * left in place; otherwise the stream is copied in 4096-byte reads.
   */
  method ExtractGzAsWritten(disk: Disk, target: string, input: Stream?, targetOpens: bool)
      returns (err: Option<Err>, ghost chunks: seq<seq<byte>>)
    requires input != null ==> input.Valid()
    modifies disk, input
    ensures var e := GzBranchAsWritten(old(disk.files), target,
                                       if input == null then None else Some(old(input.Remaining())), targetOpens);
      disk.files == e.files && err == e.error
    ensures disk.dirs == old(disk.dirs)
    ensures err.None? ==> input != null && Concat(chunks) == old(input.Remaining())
    ensures forall i :: 0 <= i < |chunks| ==> 0 < |chunks[i]| <= GzBufferSize
  {
    chunks := [];
    if !targetOpens {
      return Some(TypeFault), [];
    }
    disk.Create(target);
    if input == null {
      return Some(TypeFault), [];
    }
    ghost var content := input.Remaining();
    chunks := CopyStream(disk, target, input, GzBufferSize);
    assert [] + content == content;
    err := None;
  }

  /** The extraction step of a plan (lines 68-129) on the disk; returns the error raised, if any, and what it printed. */
  method ExtractPlan(disk: Disk, p: Plan, lib: Library, usePassword: bool, deleteInput: bool, stream: Stream?)
      returns (err: Option<Err>, log: seq<Msg>)
    requires stream != null ==> stream.Valid()
    modifies disk, stream
    ensures var e := Step(p, lib, deleteInput, old(disk.files),
                          if stream == null then None else Some(old(stream.Remaining())));
      disk.files == e.files && err == e.error
    ensures log == StepLog(p, lib, usePassword)
    ensures disk.dirs == old(disk.dirs)
  {
    log := [];
    match p.ft {
      case TarGz =>
        if lib.extractTar.None? {
          err := Some(TarFault);
        } else {
          err := None;
          if ShouldDelete(TarGz, lib.extractTar.value, "", deleteInput) {
            disk.Unlink(p.source);
          }
        }
      case Gz =>
        ghost var chunks;
        err, chunks := ExtractGzAsWritten(disk, p.target, stream, lib.targetOpens);
      case Zip =>
        if usePassword {
          log := log + [PasswordPrompt];
        }
        if !lib.zipOpens {
          err := Some(ArchiveFault(lib.zipOpenStatus));
        } else {
          err := None;
          if ZipWarns(lib.zipStatus) {
            log := log + [ZipWarning(lib.zipStatus)];
          }
          if ShouldDelete(Zip, lib.zipExtracted, lib.zipStatus, deleteInput) {
            disk.Unlink(p.source);
          }
        }
      case TarBz2 =>
        ghost var chunks;
        err, chunks := ExtractStream(disk, p.source, p.target, stream, lib.targetOpens, BzReadLength);
        if err.None? && ShouldDelete(TarBz2, true, "", deleteInput) {
          disk.Unlink(p.source);
        }
    }
  }

  /**
   * The whole extractor: classify, check, print, extract, delete.  `stream`
   * is the decompression stream `gzopen`/`bzopen` would give on the source
   * (null when that open fails); it is only read for `.gz` and `.tar.bz2`.
   */
  method Unzip(disk: Disk, name: string, resolve: map<string, string>, loaded: set<string>,
               usePassword: bool, deleteInput: bool, lib: Library, stream: Stream?)
      returns (r: Result<(), Err>, log: seq<Msg>)
    requires stream != null ==> stream.Valid()
    modifies disk, stream
    ensures var run := Outcome(name, Env(resolve, old(disk.files).Keys, old(disk.dirs), loaded),
                               old(disk.files), lib, usePassword, deleteInput,
                               if stream == null then None else Some(old(stream.Remaining())));
      disk.files == run.files && log == run.log &&
      r == (if run.error.None? then Ok(()) else Err(run.error.value))
    ensures disk.dirs == old(disk.dirs)
  {
    var env := Env(resolve, disk.files.Keys, disk.dirs, loaded);
    log := Note(name);
    var v := Validate(name, env);
    if v.Err? {
      return Err(v.error), log;
    }
    var p := v.value;
    log := log + [Extracting(p.source, p.target)];
    var err, stepLog := ExtractPlan(disk, p, lib, usePassword, deleteInput, stream);
    log := log + stepLog;
    if err.Some? {
      return Err(err.value), log;
    }
    log := log + [Completed];
    r := Ok(());
  }
}
