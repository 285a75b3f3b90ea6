/**
 * What ProjectService reads from disk, over an abstract filesystem: the
 * three-way project layout test, the package.json candidate order of
 * `_read_package_json`, and the .env candidate order of `_get_redis_db_from_env`.
 */
module Layout {
  import opened Wrappers
  import opened Paths
  import opened Find
  import opened Extractor

  /**
   * The filesystem as ProjectService sees it: the existing directories and
   * files, the package.json files that read and parse as a JSON object, and the
   * lines of the .env files that can be read.
   */
  datatype FileSystem = FileSystem(
    dirs: set<Path>,
    files: set<Path>,
    packages: map<Path, PackageJson>,
    envFiles: map<Path, seq<string>>)

  /** `Path.exists()`: a file or a directory. */
  predicate Exists(fs: FileSystem, p: Path) { p in fs.dirs || p in fs.files }

  /** `Path.is_dir()` */
  predicate IsDir(fs: FileSystem, p: Path) { p in fs.dirs }

  /**
   * The layout test repeated in `_scan_projects_directory`, `_load_projects` and
   * `rescan_projects`: `<name>-app` and `<name>-api`, or `app` and `api`, or
   * `www` and `api`, each of them a file or a directory inside `dir`.
   */
  predicate HasLayout(fs: FileSystem, dir: Path, name: string) {
    || (Exists(fs, dir + [name + "-app"]) && Exists(fs, dir + [name + "-api"]))
    || (Exists(fs, dir + ["app"]) && Exists(fs, dir + ["api"]))
    || (Exists(fs, dir + ["www"]) && Exists(fs, dir + ["api"]))
  }

  // ---------------------------------------------------------------------------
  // package.json
  // ---------------------------------------------------------------------------

  /** The package.json files `_read_package_json` tries, frontend locations first. */
  function PackageCandidates(dir: Path): seq<Path> {
    var name := Leaf(dir);
    [dir + ["www", "package.json"],
     dir + ["app", "package.json"],
     dir + [name + "-app", "package.json"],
     dir + ["package.json"],
     dir + ["api", "package.json"],
     dir + [name + "-api", "package.json"]]
  }

  /** A candidate that exists and parses. */
  predicate PackageReadable(fs: FileSystem, p: Path) { Exists(fs, p) && p in fs.packages }

  /** What reading candidate k gives, if it can be read. */
  function PackageAt(fs: FileSystem, dir: Path, k: nat): Option<PackageJson> {
    var c := PackageCandidates(dir);
    if k < |c| && PackageReadable(fs, c[k]) then Some(fs.packages[c[k]]) else None
  }

  /**
   * `_read_package_json`: the first candidate, in order, that exists and parses;
   * `{}` when there is none.
   */
  function ReadPackageJson(fs: FileSystem, dir: Path): (r: PackageJson)
    ensures (forall k :: 0 <= k < |PackageCandidates(dir)| ==> !PackageReadable(fs, PackageCandidates(dir)[k]))
              ==> r == EmptyPackage
    ensures r != EmptyPackage ==>
              exists k :: 0 <= k < |PackageCandidates(dir)| && PackageReadable(fs, PackageCandidates(dir)[k])
                && r == fs.packages[PackageCandidates(dir)[k]]
                && forall k' :: 0 <= k' < k ==> !PackageReadable(fs, PackageCandidates(dir)[k'])
  {
    var f := (k: nat) => PackageAt(fs, dir, k);
    var c := PackageCandidates(dir);
    var r := FirstValue(f, |c|);
    assert forall k :: 0 <= k < |c| ==> (f(k).Some? <==> PackageReadable(fs, c[k]));
    r.GetOr(EmptyPackage)
  }

  /** A readable candidate with none readable before it is the one that is read. */
  lemma ReadPackageJsonPicks(fs: FileSystem, dir: Path, k: nat)
    requires k < |PackageCandidates(dir)| && PackageReadable(fs, PackageCandidates(dir)[k])
    requires forall k' :: 0 <= k' < k ==> !PackageReadable(fs, PackageCandidates(dir)[k'])
    ensures ReadPackageJson(fs, dir) == fs.packages[PackageCandidates(dir)[k]]
  {
    var f := (k: nat) => PackageAt(fs, dir, k);
    FirstSomeIsLeast(f, |PackageCandidates(dir)|, k);
  }

  /** `www/package.json`, when it parses, wins over every other location. */
  lemma FrontendPackageFirst(fs: FileSystem, dir: Path)
    requires PackageReadable(fs, dir + ["www", "package.json"])
    ensures ReadPackageJson(fs, dir) == fs.packages[dir + ["www", "package.json"]]
  {
    ReadPackageJsonPicks(fs, dir, 0);
  }

  /**
   * A package.json that exists but does not parse is passed over: with only
   * `api/package.json` readable, that one is read.
   */
  lemma BackendPackageFallback(fs: FileSystem, dir: Path)
    requires forall k :: 0 <= k < 4 ==> !PackageReadable(fs, PackageCandidates(dir)[k])
    requires PackageReadable(fs, dir + ["api", "package.json"])
    ensures ReadPackageJson(fs, dir) == fs.packages[dir + ["api", "package.json"]]
  {
    assert PackageCandidates(dir)[4] == dir + ["api", "package.json"];
    ReadPackageJsonPicks(fs, dir, 4);
  }

  /** The port `_get_port_from_package(_read_package_json(dir))` detects. */
  function DetectPort(fs: FileSystem, dir: Path): Option<int> {
    GetPortFromPackage(ReadPackageJson(fs, dir))
  }

  // ---------------------------------------------------------------------------
  // .env
  // ---------------------------------------------------------------------------

  /** The .env files `_get_redis_db_from_env` tries: `api/.env`, then `<name>-api/.env`. */
  function EnvCandidates(dir: Path): seq<Path> {
    [dir + ["api", ".env"], dir + [Leaf(dir) + "-api", ".env"]]
  }

  /** A candidate that exists and can be read. */
  predicate EnvReadable(fs: FileSystem, p: Path) { Exists(fs, p) && p in fs.envFiles }

  /** What scanning candidate k gives. */
  function EnvAt(fs: FileSystem, dir: Path, k: nat): Option<int> {
    var c := EnvCandidates(dir);
    if k < |c| && EnvReadable(fs, c[k]) then LinesRedisDb(fs.envFiles[c[k]]) else None
  }

  /**
   * `_get_redis_db_from_env`: the value of the first readable candidate, in order,
   * that holds a usable line; a file without one passes the scan on to the next.
   */
  function GetRedisDbFromEnv(fs: FileSystem, dir: Path): (r: Option<int>)
    ensures r.None? <==> forall k :: 0 <= k < |EnvCandidates(dir)| ==> EnvAt(fs, dir, k).None?
    ensures r.Some? ==> exists k :: 0 <= k < |EnvCandidates(dir)| && EnvReadable(fs, EnvCandidates(dir)[k])
                          && r == LinesRedisDb(fs.envFiles[EnvCandidates(dir)[k]])
                          && forall k' :: 0 <= k' < k ==> EnvAt(fs, dir, k').None?
  {
    var f := (k: nat) => EnvAt(fs, dir, k);
    var r := FirstValue(f, |EnvCandidates(dir)|);
    assert forall k :: 0 <= k < |EnvCandidates(dir)| ==> f(k) == EnvAt(fs, dir, k);
    r
  }

  /** `api/.env` with a usable line decides, whatever `<name>-api/.env` holds. */
  lemma ApiEnvFirst(fs: FileSystem, dir: Path)
    requires EnvReadable(fs, dir + ["api", ".env"])
    requires LinesRedisDb(fs.envFiles[dir + ["api", ".env"]]).Some?
    ensures GetRedisDbFromEnv(fs, dir) == LinesRedisDb(fs.envFiles[dir + ["api", ".env"]])
  {
    var f := (k: nat) => EnvAt(fs, dir, k);
    FirstSomeIsLeast(f, 2, 0);
  }

  /** An `api/.env` without a usable line passes the scan on to `<name>-api/.env`. */
  lemma NamedApiEnvFallback(fs: FileSystem, dir: Path)
    requires !EnvReadable(fs, dir + ["api", ".env"]) || LinesRedisDb(fs.envFiles[dir + ["api", ".env"]]).None?
    ensures GetRedisDbFromEnv(fs, dir) == EnvAt(fs, dir, 1)
  {
    var f := (k: nat) => EnvAt(fs, dir, k);
    assert f(0).None?;
    if f(1).Some? {
      FirstSomeIsLeast(f, 2, 1);
    }
  }

  /** The Redis DB `_get_redis_db_from_env(dir)` detects. */
  function DetectRedisDb(fs: FileSystem, dir: Path): Option<int> {
    GetRedisDbFromEnv(fs, dir)
  }
}
