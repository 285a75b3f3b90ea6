/**
 * The operations of ProjectService on its project list: `get_project`'s lookup
 * by name and `update_project`'s port check and attribute updates.
 */
module Updates {
  import opened Wrappers
  import opened Paths
  import opened ProjectModel

  // ---------------------------------------------------------------------------
  // get_project
  // ---------------------------------------------------------------------------

  /** Index of the first project named `name`. */
  function FindIndex(ps: seq<Project>, name: string): (r: Option<nat>)
    ensures r.None? <==> forall j :: 0 <= j < |ps| ==> ps[j].name != name
    ensures r.Some? ==> r.value < |ps| && ps[r.value].name == name
    ensures r.Some? ==> forall j :: 0 <= j < r.value ==> ps[j].name != name
  {
    if ps == [] then None
    else if ps[0].name == name then Some(0)
    else
      match FindIndex(ps[1..], name)
      case Some(i) => Some(i + 1)
      case None => None
  }

  /** `get_project`: the first project with the name, if any. */
  function FindProject(ps: seq<Project>, name: string): Option<Project> {
    match FindIndex(ps, name)
    case Some(i) => Some(ps[i])
    case None => None
  }

  /** The project found is the first of the list with that name; nothing is found only when no project has it. */
  lemma FindProjectSpec(ps: seq<Project>, name: string)
    ensures FindProject(ps, name).None? <==> forall p :: p in ps ==> p.name != name
    ensures FindProject(ps, name).Some? ==>
              exists i :: 0 <= i < |ps| && FindProject(ps, name).value == ps[i] && ps[i].name == name
                && forall j :: 0 <= j < i ==> ps[j].name != name
  {
    match FindIndex(ps, name)
    case Some(i) =>
    case None =>
      forall p | p in ps ensures p.name != name {
        var j :| 0 <= j < |ps| && ps[j] == p;
      }
  }

  // ---------------------------------------------------------------------------
  // update_project
  // ---------------------------------------------------------------------------

  /** The attributes of a Project, the keys `hasattr` accepts. */
  datatype Attr = Name | PrettyName | Port | RedisDb | Directory | FeUrl | BeUrl | FeProcessPid

  /**
   * One `key: value` entry of the `updates` dictionary: an assignment to one of
   * the attributes, or a key that names none of them.
   */
  datatype FieldUpdate =
    | SetName(name: string)
    | SetPrettyName(prettyName: string)
    | SetPort(port: int)
    | SetRedisDb(redisDb: Option<int>)
    | SetDirectory(directory: Path)
    | SetFeUrl(feUrl: Option<string>)
    | SetBeUrl(beUrl: Option<string>)
    | SetFeProcessPid(feProcessPid: Option<int>)
    | Other(key: string)

  /** The attribute an update assigns; none for a key that `hasattr` rejects. */
  function AttrOf(u: FieldUpdate): Option<Attr> {
    match u
    case SetName(_) => Some(Name)
    case SetPrettyName(_) => Some(PrettyName)
    case SetPort(_) => Some(Port)
    case SetRedisDb(_) => Some(RedisDb)
    case SetDirectory(_) => Some(Directory)
    case SetFeUrl(_) => Some(FeUrl)
    case SetBeUrl(_) => Some(BeUrl)
    case SetFeProcessPid(_) => Some(FeProcessPid)
    case Other(_) => None
  }

  /** `p` and `q` agree on attribute `a`. */
  predicate SameAttr(p: Project, q: Project, a: Attr) {
    match a
    case Name => p.name == q.name
    case PrettyName => p.prettyName == q.prettyName
    case Port => p.port == q.port
    case RedisDb => p.redisDb == q.redisDb
    case Directory => p.directory == q.directory
    case FeUrl => p.feUrl == q.feUrl
    case BeUrl => p.beUrl == q.beUrl
    case FeProcessPid => p.feProcessPid == q.feProcessPid
  }

  /** `if hasattr(project, key): setattr(project, key, value)` */
  function ApplyField(p: Project, u: FieldUpdate): Project {
    match u
    case SetName(v) => p.(name := v)
    case SetPrettyName(v) => p.(prettyName := v)
    case SetPort(v) => p.(port := v)
    case SetRedisDb(v) => p.(redisDb := v)
    case SetDirectory(v) => p.(directory := v)
    case SetFeUrl(v) => p.(feUrl := v)
    case SetBeUrl(v) => p.(beUrl := v)
    case SetFeProcessPid(v) => p.(feProcessPid := v)
    case Other(_) => p
  }

  /** One update sets its own attribute and leaves every other one alone. */
  lemma ApplyFieldSpec(p: Project, u: FieldUpdate)
    ensures forall a :: AttrOf(u) != Some(a) ==> SameAttr(ApplyField(p, u), p, a)
    ensures AttrOf(u).None? ==> ApplyField(p, u) == p
    ensures forall q :: AttrOf(u).Some? ==> SameAttr(ApplyField(p, u), ApplyField(q, u), AttrOf(u).value)
  {
  }

  /** The loop over `updates.items()`, in order. */
  function ApplyUpdates(p: Project, us: seq<FieldUpdate>): Project
    decreases |us|
  {
    if us == [] then p else ApplyField(ApplyUpdates(p, us[..|us| - 1]), us[|us| - 1])
  }

  /** Agreeing on an attribute carries over from one project to the next. */
  lemma SameAttrTrans(p: Project, q: Project, r: Project, a: Attr)
    requires SameAttr(p, q, a) && SameAttr(q, r, a)
    ensures SameAttr(p, r, a)
  {
  }

  /** An attribute that no update names is as before. */
  lemma {:induction false} ApplyUpdatesUnnamed(p: Project, us: seq<FieldUpdate>, a: Attr)
    requires forall k :: 0 <= k < |us| ==> AttrOf(us[k]) != Some(a)
    ensures SameAttr(ApplyUpdates(p, us), p, a)
    decreases |us|
  {
    if us != [] {
      var init := us[..|us| - 1];
      assert forall k :: 0 <= k < |init| ==> init[k] == us[k];
      ApplyUpdatesUnnamed(p, init, a);
      ApplyFieldSpec(ApplyUpdates(p, init), us[|us| - 1]);
      SameAttrTrans(ApplyUpdates(p, us), ApplyUpdates(p, init), p, a);
    }
  }

  /** An attribute holds the value of the last update that names it. */
  lemma {:induction false} ApplyUpdatesLastWins(p: Project, us: seq<FieldUpdate>, k: nat, a: Attr)
    requires k < |us| && AttrOf(us[k]) == Some(a)
    requires forall k' :: k < k' < |us| ==> AttrOf(us[k']) != Some(a)
    ensures SameAttr(ApplyUpdates(p, us), ApplyField(p, us[k]), a)
    decreases |us|
  {
    var init := us[..|us| - 1];
    var q := ApplyUpdates(p, init);
    ApplyFieldSpec(q, us[|us| - 1]);
    if k < |us| - 1 {
      assert forall j :: 0 <= j < |init| ==> init[j] == us[j];
      ApplyUpdatesLastWins(p, init, k, a);
      SameAttrTrans(ApplyUpdates(p, us), q, ApplyField(p, us[k]), a);
    }
  }

  /**
   * After the updates, an attribute that no update names is as before, and an
   * attribute holds the value of the last update that names it.
   */
  lemma ApplyUpdatesSpec(p: Project, us: seq<FieldUpdate>)
    ensures forall a :: (forall k :: 0 <= k < |us| ==> AttrOf(us[k]) != Some(a)) ==> SameAttr(ApplyUpdates(p, us), p, a)
    ensures forall k, a :: (0 <= k < |us| && AttrOf(us[k]) == Some(a) &&
                           (forall k' :: k < k' < |us| ==> AttrOf(us[k']) != Some(a))) ==>
              SameAttr(ApplyUpdates(p, us), ApplyField(p, us[k]), a)
  {
    forall a | forall k :: 0 <= k < |us| ==> AttrOf(us[k]) != Some(a)
      ensures SameAttr(ApplyUpdates(p, us), p, a)
    {
      ApplyUpdatesUnnamed(p, us, a);
    }
    forall k, a | 0 <= k < |us| && AttrOf(us[k]) == Some(a) && (forall k' :: k < k' < |us| ==> AttrOf(us[k']) != Some(a))
      ensures SameAttr(ApplyUpdates(p, us), ApplyField(p, us[k]), a)
    {
      ApplyUpdatesLastWins(p, us, k, a);
    }
  }

  /** The updates whose key names an attribute, in order. */
  function KnownUpdates(us: seq<FieldUpdate>): (r: seq<FieldUpdate>)
    ensures forall u :: u in r <==> u in us && AttrOf(u).Some?
    ensures |r| <= |us|
    ensures (forall k :: 0 <= k < |us| ==> AttrOf(us[k]).Some?) ==> r == us
    decreases |us|
  {
    if us == [] then []
    else if AttrOf(us[|us| - 1]).None? then KnownUpdates(us[..|us| - 1])
    else KnownUpdates(us[..|us| - 1]) + [us[|us| - 1]]
  }

  /** The filter keeps order: the known updates of two runs of keys are those of the first, then those of the second. */
  lemma {:induction false} KnownUpdatesAppend(us: seq<FieldUpdate>, vs: seq<FieldUpdate>)
    ensures KnownUpdates(us + vs) == KnownUpdates(us) + KnownUpdates(vs)
    decreases |vs|
  {
    if vs == [] {
      assert us + vs == us;
    } else {
      var init := vs[..|vs| - 1];
      assert (us + vs)[..|us + vs| - 1] == us + init;
      assert (us + vs)[|us + vs| - 1] == vs[|vs| - 1];
      KnownUpdatesAppend(us, init);
      if AttrOf(vs[|vs| - 1]).Some? {
        assert KnownUpdates(us) + KnownUpdates(init) + [vs[|vs| - 1]] == KnownUpdates(us) + (KnownUpdates(init) + [vs[|vs| - 1]]);
      }
    }
  }

  /** Keys that name no attribute change nothing: dropping them gives the same project. */
  lemma {:induction false} ApplyIgnoresUnknown(p: Project, us: seq<FieldUpdate>)
    ensures ApplyUpdates(p, KnownUpdates(us)) == ApplyUpdates(p, us)
    decreases |us|
  {
    if us != [] {
      var init := us[..|us| - 1];
      ApplyIgnoresUnknown(p, init);
      if AttrOf(us[|us| - 1]).Some? {
        var r := KnownUpdates(init) + [us[|us| - 1]];
        assert r[..|r| - 1] == KnownUpdates(init);
      }
    }
  }

  /** Index of the last port update. */
  function LastPortIndex(us: seq<FieldUpdate>): (r: Option<nat>)
    ensures r.None? <==> forall k :: 0 <= k < |us| ==> !us[k].SetPort?
    ensures r.Some? ==> r.value < |us| && us[r.value].SetPort?
    ensures r.Some? ==> forall k :: r.value < k < |us| ==> !us[k].SetPort?
    decreases |us|
  {
    if us == [] then None
    else if us[|us| - 1].SetPort? then Some(|us| - 1)
    else LastPortIndex(us[..|us| - 1])
  }

  /** `updates['port']` when `'port' in updates`: the port the last port update assigns. */
  function RequestedPort(us: seq<FieldUpdate>): Option<int> {
    match LastPortIndex(us)
    case Some(k) => Some(us[k].port)
    case None => None
  }

  /** The updates leave the port at the requested one, or unchanged when none is requested. */
  lemma ApplyUpdatesPort(p: Project, us: seq<FieldUpdate>)
    ensures ApplyUpdates(p, us).port == RequestedPort(us).GetOr(p.port)
  {
    match LastPortIndex(us)
    case None =>
      assert forall k :: 0 <= k < |us| ==> AttrOf(us[k]) != Some(Port);
      ApplyUpdatesUnnamed(p, us, Port);
    case Some(k) =>
      assert forall k' :: k < k' < |us| ==> AttrOf(us[k']) != Some(Port);
      ApplyUpdatesLastWins(p, us, k, Port);
  }

  /** Some project not named `name` holds `port`. */
  predicate PortHeldByOther(ps: seq<Project>, name: string, port: int) {
    exists j :: 0 <= j < |ps| && ps[j].port == port && ps[j].name != name
  }

  /** What `update_project` ends in: `None`, the `ValueError` for a taken port, or the updated project. */
  datatype UpdateOutcome = NotFound | PortInUse(port: int) | Updated(project: Project)

  /** `update_project(name, updates)` on the list `ps`: the outcome and the list afterwards. */
  function Update(ps: seq<Project>, name: string, us: seq<FieldUpdate>): (UpdateOutcome, seq<Project>) {
    match FindIndex(ps, name)
    case None => (NotFound, ps)
    case Some(i) =>
      if RequestedPort(us).Some? && PortHeldByOther(ps, name, RequestedPort(us).value) then
        (PortInUse(RequestedPort(us).value), ps)
      else
        var p := ApplyUpdates(ps[i], us);
        (Updated(p), ps[i := p])
  }

  /**
   * An unknown name and a taken port leave the list alone; otherwise exactly the
   * first project with the name changes, into the value returned, and a requested
   * port is then held by no project of another name.
   */
  lemma UpdateSpec(ps: seq<Project>, name: string, us: seq<FieldUpdate>)
    ensures var (outcome, ps') := Update(ps, name, us);
            && (outcome.NotFound? <==> forall p :: p in ps ==> p.name != name)
            && (outcome.PortInUse? <==>
                  (exists p :: p in ps && p.name == name) && RequestedPort(us).Some? &&
                  PortHeldByOther(ps, name, RequestedPort(us).value))
            && (!outcome.Updated? ==> ps' == ps)
            && (outcome.PortInUse? ==> outcome.port == RequestedPort(us).value)
            && (outcome.Updated? ==>
                  exists i :: 0 <= i < |ps| && ps[i].name == name && (forall j :: 0 <= j < i ==> ps[j].name != name)
                    && ps' == ps[i := outcome.project] && outcome.project == ApplyUpdates(ps[i], us))
            && (outcome.Updated? && RequestedPort(us).Some? ==>
                  outcome.project.port == RequestedPort(us).value
                  && forall p :: p in ps && p.port == RequestedPort(us).value ==> p.name == name)
  {
    var (outcome, ps') := Update(ps, name, us);
    match FindIndex(ps, name)
    case None =>
      forall p | p in ps ensures p.name != name {
        var j :| 0 <= j < |ps| && ps[j] == p;
      }
    case Some(i) =>
      assert ps[i] in ps;
      ApplyUpdatesPort(ps[i], us);
      if RequestedPort(us).Some? && !PortHeldByOther(ps, name, RequestedPort(us).value) {
        forall p | p in ps && p.port == RequestedPort(us).value ensures p.name == name {
          var j :| 0 <= j < |ps| && ps[j] == p;
        }
      }
  }
}
