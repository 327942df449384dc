/**
 * The decision layer of the extractor (scripts/unzip.php): which format a
 * file name announces, where its contents go, which precondition stops the
 * run first, whether the zip status deserves a warning and when the source
 * archive is deleted afterwards.
 */
module UnzipPlan {
  import opened Php

  /** The four archive kinds the extractor recognises. */
  datatype FileType = TarGz | Gz | Zip | TarBz2

  function Suffix(ft: FileType): string {
    match ft
    case TarGz => ".tar.gz"
    case Gz => ".gz"
    case Zip => ".zip"
    case TarBz2 => ".tar.bz2"
  }

  /** The script's own suffix test, `substr_compare($name, $suffix, -n) === 0`. */
  predicate HasSuffix(name: string, suffix: string) {
    SubstrCompareFromEndIsZero(name, suffix, |suffix|)
  }

  /**
   * Format detection: the suffix tests in the script's order (.tar.gz, .gz,
   * .zip, .tar.bz2); None is the "only works with .tar.gz, .gz, .tar.bz2
   * and .zip files" error.
   */
  function Detect(name: string): (r: Option<FileType>)
    ensures r.Some? ==> EndsWith(name, Suffix(r.value))
    ensures r.None? <==> forall ft :: !EndsWith(name, Suffix(ft))
    ensures r == Some(Gz) ==> !EndsWith(name, ".tar.gz")
  {
    SubstrCompareIsEndsWith(name, ".tar.gz");
    SubstrCompareIsEndsWith(name, ".gz");
    SubstrCompareIsEndsWith(name, ".zip");
    SubstrCompareIsEndsWith(name, ".tar.bz2");
    if HasSuffix(name, ".tar.gz") then Some(TarGz)
    else if HasSuffix(name, ".gz") then Some(Gz)
    else if HasSuffix(name, ".zip") then Some(Zip)
    else if HasSuffix(name, ".tar.bz2") then Some(TarBz2)
    else AllSuffixes(name); None
  }

  /** A name that ends with none of the four tested suffixes ends with no suffix of any format. */
  lemma AllSuffixes(name: string)
    requires !EndsWith(name, ".tar.gz") && !EndsWith(name, ".gz")
    requires !EndsWith(name, ".zip") && !EndsWith(name, ".tar.bz2")
    ensures forall ft :: !EndsWith(name, Suffix(ft))
  {
    forall ft ensures !EndsWith(name, Suffix(ft)) {
      match ft
      case TarGz =>
      case Gz =>
      case Zip =>
      case TarBz2 =>
    }
  }

  /** Detection as plain ends-with tests in the script's order. */
  lemma DetectByEndsWith(name: string)
    ensures Detect(name) ==
      if EndsWith(name, ".tar.gz") then Some(TarGz)
      else if EndsWith(name, ".gz") then Some(Gz)
      else if EndsWith(name, ".zip") then Some(Zip)
      else if EndsWith(name, ".tar.bz2") then Some(TarBz2)
      else None
  {
    SubstrCompareIsEndsWith(name, ".tar.gz");
    SubstrCompareIsEndsWith(name, ".gz");
    SubstrCompareIsEndsWith(name, ".zip");
    SubstrCompareIsEndsWith(name, ".tar.bz2");
  }

  /** Which suffixes can hold together: only `.tar.gz` with `.gz`. */
  lemma SuffixesCompatible(name: string)
    ensures EndsWith(name, ".tar.gz") ==> EndsWith(name, ".gz")
    ensures EndsWith(name, ".gz") ==> !EndsWith(name, ".zip") && !EndsWith(name, ".tar.bz2")
    ensures EndsWith(name, ".zip") ==> !EndsWith(name, ".tar.bz2")
  {
    if EndsWith(name, ".tar.gz") {
      EndsWithTransitive(name, ".tar.gz", ".gz");
    }
    if EndsWith(name, ".gz") {
      EndsWithLastChar(name, ".gz");
    }
    if EndsWith(name, ".zip") {
      EndsWithLastChar(name, ".zip");
    }
    if EndsWith(name, ".tar.bz2") {
      EndsWithLastChar(name, ".tar.bz2");
    }
  }

  /**
   * Detection picks the longest supported suffix the name ends with: the
   * result ends with its suffix, and every other matching suffix is
   * strictly shorter.  No two formats tie, so exactly one is chosen.
   */
  lemma DetectIsLongestMatch(name: string, ft: FileType)
    ensures Detect(name) == Some(ft) <==>
      EndsWith(name, Suffix(ft)) &&
      forall g :: g != ft && EndsWith(name, Suffix(g)) ==> |Suffix(g)| < |Suffix(ft)|
  {
    DetectByEndsWith(name);
    SuffixesCompatible(name);
  }

  /** A `.tar.gz` name is always a tarball, never a plain `.gz` stream. */
  lemma TarGzNeverGz(name: string)
    requires EndsWith(name, ".tar.gz")
    ensures Detect(name) == Some(TarGz)
  {
    DetectByEndsWith(name);
  }

  /**
   * Target derivation, `substr($zipFilepath, 0, -strlen($filetype))`,
   * with `.tar` put back for `.tar.bz2`.
   */
  function Target(path: string, ft: FileType): (r: string)
    ensures ft != TarBz2 ==> r <= path
  {
    var stem := DropLast(path, |Suffix(ft)|);
    if ft == TarBz2 then stem + ".tar" else stem
  }

  /**
   * On a path with the format's suffix, the target is the path with the
   * suffix removed (for `.tar.bz2`: with `.bz2` removed), and never the
   * path itself.
   */
  lemma TargetStripsSuffix(path: string, ft: FileType)
    requires EndsWith(path, Suffix(ft))
    ensures ft != TarBz2 ==> Target(path, ft) + Suffix(ft) == path
    ensures ft == TarBz2 ==> Target(path, ft) + ".bz2" == path
    ensures Target(path, ft) != path
  {
    var n := |path| - |Suffix(ft)|;
    if ft == TarBz2 {
      assert path == path[..n] + ".tar.bz2";
      assert path[..n] + ".tar" + ".bz2" == path[..n] + ".tar.bz2";
    } else {
      assert path == path[..n] + Suffix(ft);
    }
  }

  lemma TargetExamples()
    ensures Target("/x/a.tar.bz2", TarBz2) == "/x/a.tar"
    ensures Target("/x/a.zip", Zip) == "/x/a"
    ensures Target("/x/a.tar.gz", TarGz) == "/x/a"
    ensures Target("/x/a.gz", Gz) == "/x/a"
  {
  }

  /**
   * What the script observes of the filesystem and the runtime:
   * `realpath` of names, the regular files, the directories with the size
   * of their `scandir` listing (which counts `.` and `..`), and the loaded
   * PHP extensions.
   */
  datatype Env = Env(
    resolve: map<string, string>,
    files: set<string>,
    dirs: map<string, nat>,
    loaded: set<string>)

  /** `realpath($zipFilename)`, with PHP's false read as the empty string. */
  function Source(name: string, env: Env): string {
    if name in env.resolve then env.resolve[name] else ""
  }

  /** `is_file(realpath($zipFilename))`; `is_file(false)` and `is_file("")` are false. */
  predicate SourceReadable(name: string, env: Env) {
    name in env.resolve && env.resolve[name] != "" && env.resolve[name] in env.files
  }

  /** Formats that unpack into a directory (`$isZippedDir`). */
  predicate UnpacksToDirectory(ft: FileType) {
    ft == Zip || ft == TarGz
  }

  /** `is_dir($t) && count(scandir($t)) > 2`. */
  predicate NonEmptyDir(env: Env, t: string) {
    t in env.dirs && env.dirs[t] > 2
  }

  /** `file_exists($t)`: a file or a directory. */
  predicate PathExists(env: Env, t: string) {
    t in env.files || t in env.dirs
  }

  /** The destination check of lines 47-54 for this format. */
  predicate DestinationBlocked(ft: FileType, env: Env, t: string) {
    if UnpacksToDirectory(ft) then NonEmptyDir(env, t) else PathExists(env, t)
  }

  /** The extension check of lines 56-64: zlib for `.gz`, bz2 for `.tar.bz2`. */
  predicate ExtensionAvailable(ft: FileType, env: Env) {
    (ft == Gz ==> "zlib" in env.loaded) && (ft == TarBz2 ==> "bz2" in env.loaded)
  }

  /** One error the extractor raises, with the path its message names. */
  datatype Err =
    | Unsupported
    | Unreadable(path: string)
    | DirNotEmpty(path: string)
    | FileExists(path: string)
    | MissingZlib
    | MissingBz2
    | OpenFailed(path: string)
    | StreamUnreadable(path: string)
    | TarFault
    | ArchiveFault(status: string)
    | TypeFault

  /** A go-ahead: the format, the resolved source and the extraction target. */
  datatype Plan = Plan(ft: FileType, source: string, target: string)

  /**
   * The ordered precondition checks: unsupported format, unreadable
   * source, blocked destination, missing extension.  Each error is raised
   * only when every earlier check passed; the go-ahead only when all pass.
   */
  function Validate(name: string, env: Env): (r: Result<Plan, Err>)
    ensures r == Err(Unsupported) <==> Detect(name).None?
    ensures r.Err? && r.error.Unreadable? ==>
      Detect(name).Some? && !SourceReadable(name, env) && r.error.path == Source(name, env)
    ensures r.Err? && r.error.DirNotEmpty? ==>
      Detect(name).Some? && SourceReadable(name, env) &&
      UnpacksToDirectory(Detect(name).value) &&
      r.error.path == Target(Source(name, env), Detect(name).value) &&
      NonEmptyDir(env, r.error.path)
    ensures r.Err? && r.error.FileExists? ==>
      Detect(name).Some? && SourceReadable(name, env) &&
      !UnpacksToDirectory(Detect(name).value) &&
      r.error.path == Target(Source(name, env), Detect(name).value) &&
      PathExists(env, r.error.path)
    ensures r.Err? && (r.error.MissingZlib? || r.error.MissingBz2?) ==>
      Detect(name).Some? && SourceReadable(name, env) &&
      !DestinationBlocked(Detect(name).value, env, Target(Source(name, env), Detect(name).value)) &&
      (if r.error.MissingZlib? then Detect(name) == Some(Gz) && "zlib" !in env.loaded
       else Detect(name) == Some(TarBz2) && "bz2" !in env.loaded)
    ensures r.Err? ==>
      r.error.Unsupported? || r.error.Unreadable? || r.error.DirNotEmpty? ||
      r.error.FileExists? || r.error.MissingZlib? || r.error.MissingBz2?
    ensures r.Ok? <==>
      Detect(name).Some? && SourceReadable(name, env) &&
      !DestinationBlocked(Detect(name).value, env, Target(Source(name, env), Detect(name).value)) &&
      ExtensionAvailable(Detect(name).value, env)
    ensures r.Ok? ==>
      r.value == Plan(Detect(name).value, Source(name, env), Target(Source(name, env), r.value.ft))
  {
    match Detect(name)
    case None => Err(Unsupported)
    case Some(ft) =>
      var source := Source(name, env);
      var target := Target(source, ft);
      if !SourceReadable(name, env) then Err(Unreadable(source))
      else if UnpacksToDirectory(ft) && NonEmptyDir(env, target) then Err(DirNotEmpty(target))
      else if (ft == Gz || ft == TarBz2) && PathExists(env, target) then Err(FileExists(target))
      else if ft == Gz && "zlib" !in env.loaded then Err(MissingZlib)
      else if ft == TarBz2 && "bz2" !in env.loaded then Err(MissingBz2)
      else Ok(Plan(ft, source, target))
  }

  /** An unreadable source is reported whatever the destination and the extensions look like. */
  lemma UnreadableComesBeforeDestination(name: string, env: Env, dirs: map<string, nat>, loaded: set<string>)
    ensures Validate(name, env).Err? && Validate(name, env).error.Unreadable? ==>
      Validate(name, env.(dirs := dirs, loaded := loaded)) == Validate(name, env)
  {
  }

  /** A blocked destination is reported whatever extensions are loaded. */
  lemma DestinationComesBeforeExtension(name: string, env: Env, loaded: set<string>)
    ensures (Validate(name, env).Err? &&
             (Validate(name, env).error.DirNotEmpty? || Validate(name, env).error.FileExists?)) ==>
      Validate(name, env.(loaded := loaded)) == Validate(name, env)
  {
  }

  /**
   * A go-ahead means the source is a file distinct from the target, and
   * for single-file formats nothing exists yet at the target.
   */
  lemma PlanIsSafe(name: string, env: Env)
    requires Validate(name, env).Ok?
    ensures var p := Validate(name, env).value;
      p.source in env.files && p.source != "" &&
      (!UnpacksToDirectory(p.ft) ==> p.target !in env.files && p.target !in env.dirs && p.target != p.source)
  {
  }

  /**
   * The zip warning of lines 98-101: `$status && $status !== 'No error'`
   * under PHP truthiness; the status string "0" is falsy and so stays
   * silent, like the empty string.
   */
  predicate ZipWarns(status: string) {
    Truthy(status) && status != "No error"
  }

  lemma ZipWarnsExactly(status: string)
    ensures ZipWarns(status) <==> status !in {"", "0", "No error"}
  {
  }

  /**
   * Whether the source archive is unlinked after the format's extraction
   * step.  `result` is what `extractTo` returned (.tar.gz, .zip), `status`
   * the zip status string, `flag` the `-d`/`--delete` option.
   */
  function ShouldDelete(ft: FileType, result: bool, status: string, flag: bool): (r: bool)
    ensures r ==> flag
    ensures ft == Gz ==> !r
    ensures ft == TarBz2 ==> r == flag
    ensures ft == TarGz ==> r == (flag && result)
    ensures ft == Zip && r ==> result && status == "No error" && !ZipWarns(status)
    ensures ft == Zip && flag && result && status == "No error" ==> r
  {
    match ft
    case TarGz => result && flag
    case Gz => false
    case Zip => result && status == "No error" && flag
    case TarBz2 => flag
  }

  /** A zip extraction that prints the warning never deletes its source. */
  lemma ZipWarningWithholdsDeletion(result: bool, status: string, flag: bool)
    requires ZipWarns(status)
    ensures !ShouldDelete(Zip, result, status, flag)
  {
  }
}
