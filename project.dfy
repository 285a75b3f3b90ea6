/** Filesystem paths as sequences of components, `Path(a) / b` being `a + [b]`. */
module Paths {
  type Path = seq<string>

  /** `Path.name`: the last component, "" for the root. */
  function Leaf(p: Path): string {
    if p == [] then "" else p[|p| - 1]
  }
}

/** The `Project` record of models/project.py. */
module ProjectModel {
  import opened Wrappers
  import opened Paths

  /**
   * One tracked project. `feUrl` and `beUrl` are optional because `update_project`
   * may later assign any value to them; `feProcessPid` is live runtime state.
   */
  datatype Project = Project(
    name: string,
    prettyName: string,
    port: int,
    redisDb: Option<int>,
    directory: Path,
    feUrl: Option<string>,
    beUrl: Option<string>,
    feProcessPid: Option<int>)

  function DefaultFeUrl(name: string): string { "https://app." + name + ".test" }

  function DefaultBeUrl(name: string): string { "https://api." + name + ".test" }

  /** Python truthiness of an optional string: neither `None` nor "". */
  predicate Given(url: Option<string>) { url.Some? && url.value != "" }

  /**
   * `Project(...)` followed by `__post_init__`: a URL that is `None` or empty is
   * replaced by the conventional one for `name`.
   */
  function MakeProject(name: string, prettyName: string, port: int, redisDb: Option<int>,
                       directory: Path, feUrl: Option<string> := None,
                       beUrl: Option<string> := None,
                       feProcessPid: Option<int> := None): (p: Project)
    ensures p.name == name && p.prettyName == prettyName && p.port == port
    ensures p.redisDb == redisDb && p.directory == directory && p.feProcessPid == feProcessPid
    ensures p.feUrl == if Given(feUrl) then feUrl else Some(DefaultFeUrl(name))
    ensures p.beUrl == if Given(beUrl) then beUrl else Some(DefaultBeUrl(name))
    ensures Given(p.feUrl) && Given(p.beUrl)
  {
    Project(name, prettyName, port, redisDb, directory,
            if Given(feUrl) then feUrl else Some(DefaultFeUrl(name)),
            if Given(beUrl) then beUrl else Some(DefaultBeUrl(name)),
            feProcessPid)
  }

  /** A project as `__post_init__` leaves it: both URLs set and non-empty. */
  predicate Initialised(p: Project) { Given(p.feUrl) && Given(p.beUrl) }

  /** Constructing again from an initialised project's own fields changes nothing. */
  lemma PostInitIdempotent(p: Project)
    requires Initialised(p)
    ensures MakeProject(p.name, p.prettyName, p.port, p.redisDb, p.directory,
                        p.feUrl, p.beUrl, p.feProcessPid) == p
  {
  }
}
