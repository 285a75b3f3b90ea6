/**
 * The reconciliation engine of ProjectService as functions over values: the
 * seven-field records of the data file, the ordered `project_data` dictionary,
 * the refresh of saved entries and the discovery of new project directories in
 * `_load_projects`, `rescan_projects` and `_scan_projects_directory`, and the
 * lookup and field updates of `get_project` and `update_project`.
 */
module Store {
  import opened Wrappers
  import opened Paths
  import opened Text
  import opened ProjectModel
  import opened Allocator
  import opened Extractor
  import opened Layout

  // ---------------------------------------------------------------------------
  // Records of the data file
  // ---------------------------------------------------------------------------

  /**
   * One entry of the data file, and one value of `project_data`: the seven keys
   * `save_projects` writes. The URLs are optional because a saved file may hold
   * `null` or "" there.
   */
  datatype SavedRecord = SavedRecord(
    name: string,
    prettyName: string,
    port: int,
    redisDb: Option<int>,
    directory: Path,
    feUrl: Option<string>,
    beUrl: Option<string>)

  /** The entry `save_projects` writes for a project: every field but `fe_process_pid`. */
  function ToRecord(p: Project): SavedRecord {
    SavedRecord(p.name, p.prettyName, p.port, p.redisDb, p.directory, p.feUrl, p.beUrl)
  }

  /** `Project(**data)` for a value of `project_data`. */
  function FromRecord(r: SavedRecord): Project {
    MakeProject(r.name, r.prettyName, r.port, r.redisDb, r.directory, r.feUrl, r.beUrl)
  }

  /** Saving a constructed project and loading the entry back loses only the process id. */
  lemma RecordRoundTrip(p: Project)
    requires Initialised(p)
    ensures FromRecord(ToRecord(p)) == p.(feProcessPid := None)
  {
  }

  /** The entry written for a project built from an entry builds the same project again. */
  lemma SavedRecordStable(r: SavedRecord)
    ensures FromRecord(ToRecord(FromRecord(r))) == FromRecord(r)
    ensures ToRecord(FromRecord(r)).name == r.name && ToRecord(FromRecord(r)).port == r.port
    ensures ToRecord(FromRecord(r)).redisDb == r.redisDb && ToRecord(FromRecord(r)).directory == r.directory
  {
    RecordRoundTrip(FromRecord(r));
  }

  /** The list `save_projects` writes, in the order of `projects`. */
  function Records(ps: seq<Project>): (rs: seq<SavedRecord>)
    ensures |rs| == |ps|
    ensures forall i :: 0 <= i < |ps| ==> rs[i] == ToRecord(ps[i])
  {
    if ps == [] then [] else Records(ps[..|ps| - 1]) + [ToRecord(ps[|ps| - 1])]
  }

  /** `[Project(**d) for d in project_data.values()]` */
  function ProjectsOf(d: seq<SavedRecord>): (ps: seq<Project>)
    ensures |ps| == |d|
    ensures forall i :: 0 <= i < |d| ==> ps[i] == FromRecord(d[i])
  {
    if d == [] then [] else ProjectsOf(d[..|d| - 1]) + [FromRecord(d[|d| - 1])]
  }

  // ---------------------------------------------------------------------------
  // project_data: a dictionary keyed by name that keeps insertion order
  // ---------------------------------------------------------------------------

  /** Key `n` is in `project_data`. */
  predicate Keyed(d: seq<SavedRecord>, n: string) {
    exists i :: 0 <= i < |d| && d[i].name == n
  }

  /** No key twice, as in a Python dictionary. */
  predicate DistinctNames(d: seq<SavedRecord>) {
    forall i, j :: 0 <= i < j < |d| ==> d[i].name != d[j].name
  }

  /** Where key `n` sits in `project_data`, if it is there. */
  function KeyIndex(d: seq<SavedRecord>, n: string): (r: Option<nat>)
    ensures r.None? <==> !Keyed(d, n)
    ensures r.Some? ==> r.value < |d| && d[r.value].name == n
    ensures r.Some? ==> forall j :: 0 <= j < r.value ==> d[j].name != n
  {
    if d == [] then None
    else
      match KeyIndex(d[..|d| - 1], n)
      case Some(i) => Some(i)
      case None => if d[|d| - 1].name == n then Some(|d| - 1) else None
  }

  /**
   * `project_data[r.name] = r`: an existing key keeps its position and takes the
   * new value; a new key goes at the end.
   */
  function Put(d: seq<SavedRecord>, r: SavedRecord): seq<SavedRecord> {
    match KeyIndex(d, r.name)
    case Some(i) => d[i := r]
    case None => d + [r]
  }

  /** A `Put` keeps the keys distinct, adds its own key and keeps every value but the one it replaces. */
  lemma PutSpec(d: seq<SavedRecord>, r: SavedRecord)
    requires DistinctNames(d)
    ensures DistinctNames(Put(d, r))
    ensures forall n :: Keyed(Put(d, r), n) <==> Keyed(d, n) || n == r.name
    ensures forall x :: x in Put(d, r) ==> x == r || x in d
  {
    match KeyIndex(d, r.name)
    case Some(i) => PutExisting(d, r, i);
    case None => PutNew(d, r);
  }

  /** A `Put` adds its key and its value, and keeps every value stored under another key. */
  lemma PutKeepsOthers(d: seq<SavedRecord>, r: SavedRecord)
    ensures r in Put(d, r)
    ensures forall n :: Keyed(d, n) ==> Keyed(Put(d, r), n)
    ensures Keyed(Put(d, r), r.name)
    ensures forall x :: x in d && x.name != r.name ==> x in Put(d, r)
  {
    match KeyIndex(d, r.name)
    case Some(i) =>
      assert Put(d, r)[i] == r;
      assert forall j :: 0 <= j < |d| ==> Put(d, r)[j].name == d[j].name;
      assert forall j :: 0 <= j < |d| && d[j].name != r.name ==> Put(d, r)[j] == d[j];
    case None =>
      assert Put(d, r)[|d|] == r;
      assert forall j :: 0 <= j < |d| ==> Put(d, r)[j] == d[j];
  }

  lemma PutExisting(d: seq<SavedRecord>, r: SavedRecord, i: nat)
    requires DistinctNames(d) && KeyIndex(d, r.name) == Some(i)
    ensures Put(d, r) == d[i := r]
    ensures DistinctNames(d[i := r])
    ensures forall n :: Keyed(d[i := r], n) <==> Keyed(d, n)
  {
    var d' := d[i := r];
    assert forall j :: 0 <= j < |d| ==> d'[j].name == d[j].name;
  }

  lemma PutNew(d: seq<SavedRecord>, r: SavedRecord)
    requires DistinctNames(d) && !Keyed(d, r.name)
    ensures Put(d, r) == d + [r]
    ensures DistinctNames(d + [r])
    ensures forall n :: Keyed(d + [r], n) <==> Keyed(d, n) || n == r.name
  {
    assert forall j :: 0 <= j < |d| ==> (d + [r])[j] == d[j];
    assert (d + [r])[|d|] == r;
  }

  // ---------------------------------------------------------------------------
  // Saved entries
  // ---------------------------------------------------------------------------

  /**
   * What `_load_projects` makes of a saved entry: nothing when its directory is
   * gone or holds none of the three layouts for the saved name; otherwise the
   * entry with the Redis DB found in .env, when one is found, and with the port
   * found in package.json, when that is truthy (non-zero) and differs.
   */
  function RefreshSaved(fs: FileSystem, r: SavedRecord): Option<SavedRecord> {
    if !Exists(fs, r.directory) || !HasLayout(fs, r.directory, r.name) then None
    else
      var db := DetectRedisDb(fs, r.directory);
      var r1 := if db.Some? then r.(redisDb := db) else r;
      var port := DetectPort(fs, r.directory);
      Some(if port.Some? && port.value != 0 && port.value != r1.port then r1.(port := port.value) else r1)
  }

  /**
   * A saved entry is kept exactly when its directory exists with a layout; the
   * kept entry has the detected Redis DB when there is one and the detected port
   * when it is truthy, and every other field as saved.
   */
  lemma RefreshSavedSpec(fs: FileSystem, r: SavedRecord)
    ensures RefreshSaved(fs, r).Some? <==> Exists(fs, r.directory) && HasLayout(fs, r.directory, r.name)
    ensures RefreshSaved(fs, r).Some? ==>
              var r' := RefreshSaved(fs, r).value;
              var db := DetectRedisDb(fs, r.directory);
              var port := DetectPort(fs, r.directory);
              && r'.redisDb == (if db.Some? then db else r.redisDb)
              && r'.port == (if port.Some? && port.value != 0 then port.value else r.port)
              && r' == r.(redisDb := r'.redisDb, port := r'.port)
  {
  }

  /** Refreshing a refreshed entry against the same filesystem changes nothing. */
  lemma RefreshIdempotent(fs: FileSystem, r: SavedRecord)
    requires RefreshSaved(fs, r).Some?
    ensures RefreshSaved(fs, RefreshSaved(fs, r).value) == RefreshSaved(fs, r)
  {
    RefreshSavedSpec(fs, r);
    RefreshSavedSpec(fs, RefreshSaved(fs, r).value);
  }

  /** The refresh neither reads nor writes the URLs. */
  lemma RefreshIgnoresUrls(fs: FileSystem, r: SavedRecord, fe: Option<string>, be: Option<string>)
    requires RefreshSaved(fs, r) == Some(r)
    ensures RefreshSaved(fs, r.(feUrl := fe, beUrl := be)) == Some(r.(feUrl := fe, beUrl := be))
  {
    RefreshSavedSpec(fs, r);
    RefreshSavedSpec(fs, r.(feUrl := fe, beUrl := be));
  }

  /** `RefreshSaved` against one filesystem, as a function of the entry. */
  function Refresher(fs: FileSystem): SavedRecord -> Option<SavedRecord> {
    r => RefreshSaved(fs, r)
  }

  /** A refresh that keeps the entry's name. */
  ghost predicate KeepsName(refresh: SavedRecord -> Option<SavedRecord>) {
    forall r :: refresh(r).Some? ==> refresh(r).value.name == r.name
  }

  /** A refresh whose results are its own fixed points. */
  ghost predicate Settles(refresh: SavedRecord -> Option<SavedRecord>) {
    forall r :: refresh(r).Some? ==> refresh(refresh(r).value) == refresh(r)
  }

  /** The refresh of `_load_projects` keeps names and settles at once. */
  lemma RefresherSettles(fs: FileSystem)
    ensures KeepsName(Refresher(fs)) && Settles(Refresher(fs))
  {
    forall r | Refresher(fs)(r).Some?
      ensures Refresher(fs)(r).value.name == r.name
      ensures Refresher(fs)(Refresher(fs)(r).value) == Refresher(fs)(r)
    {
      RefreshSavedSpec(fs, r);
      RefreshIdempotent(fs, r);
    }
  }

  /**
   * The saved-data loop of `_load_projects`, for a given refresh: every entry the
   * refresh keeps is stored under its saved name, a later one replacing an earlier.
   */
  function LoadSaved(saved: seq<SavedRecord>, refresh: SavedRecord -> Option<SavedRecord>): seq<SavedRecord>
    decreases |saved|
  {
    if saved == [] then []
    else
      var d := LoadSaved(saved[..|saved| - 1], refresh);
      match refresh(saved[|saved| - 1])
      case Some(r) => Put(d, r)
      case None => d
  }

  /** No saved entry after the k-th has its name and is kept. */
  predicate LastKept(saved: seq<SavedRecord>, refresh: SavedRecord -> Option<SavedRecord>, k: nat)
    requires k < |saved|
  {
    forall k' :: k < k' < |saved| && saved[k'].name == saved[k].name ==> refresh(saved[k']).None?
  }

  /**
   * The saved-data loop keeps each name once, and every entry it keeps is the
   * refresh of a saved entry that refreshing again leaves alone.
   */
  lemma {:induction false} LoadSavedSound(saved: seq<SavedRecord>, refresh: SavedRecord -> Option<SavedRecord>)
    requires Settles(refresh)
    ensures DistinctNames(LoadSaved(saved, refresh))
    ensures forall x :: x in LoadSaved(saved, refresh) ==> refresh(x) == Some(x)
    ensures forall x :: x in LoadSaved(saved, refresh) ==> exists k :: 0 <= k < |saved| && refresh(saved[k]) == Some(x)
    decreases |saved|
  {
    if saved != [] {
      var init := saved[..|saved| - 1];
      LoadSavedSound(init, refresh);
      var d := LoadSaved(init, refresh);
      assert forall k :: 0 <= k < |init| ==> init[k] == saved[k];
      match refresh(saved[|saved| - 1])
      case None =>
      case Some(r) =>
        PutSpec(d, r);
    }
  }

  /**
   * Every saved entry the refresh keeps has its name in the result, as the
   * refreshed entry itself when no kept entry of that name comes after it.
   */
  lemma {:induction false} LoadSavedComplete(saved: seq<SavedRecord>, refresh: SavedRecord -> Option<SavedRecord>)
    requires KeepsName(refresh)
    ensures forall k :: 0 <= k < |saved| && refresh(saved[k]).Some? ==> Keyed(LoadSaved(saved, refresh), saved[k].name)
    ensures forall k :: (0 <= k < |saved| && refresh(saved[k]).Some? && LastKept(saved, refresh, k)) ==>
               refresh(saved[k]).value in LoadSaved(saved, refresh)
    decreases |saved|
  {
    if saved != [] {
      var init := saved[..|saved| - 1];
      LoadSavedComplete(init, refresh);
      var d := LoadSaved(init, refresh);
      assert forall k :: 0 <= k < |init| ==> init[k] == saved[k];
      match refresh(saved[|saved| - 1])
      case None =>
      case Some(r) =>
        PutKeepsOthers(d, r);
    }
  }

  /** Every fixed point of the refresh, each name once: the saved-data loop keeps them all as they are. */
  lemma {:induction false} LoadSavedOfSettled(saved: seq<SavedRecord>, refresh: SavedRecord -> Option<SavedRecord>)
    requires DistinctNames(saved)
    requires forall x :: x in saved ==> refresh(x) == Some(x)
    ensures LoadSaved(saved, refresh) == saved
    decreases |saved|
  {
    if saved != [] {
      var init := saved[..|saved| - 1];
      var last := saved[|saved| - 1];
      assert forall k :: 0 <= k < |init| ==> init[k] == saved[k];
      LoadSavedOfSettled(init, refresh);
      assert refresh(last) == Some(last);
      assert !Keyed(init, last.name);
      PutNew(init, last);
      assert init + [last] == saved;
    }
  }

  // ---------------------------------------------------------------------------
  // Discovery of project directories
  // ---------------------------------------------------------------------------

  /** A listed entry that is a directory holding one of the three layouts for its own name. */
  predicate Qualifies(fs: FileSystem, projectsDir: Path, name: string) {
    IsDir(fs, projectsDir + [name]) && HasLayout(fs, projectsDir + [name], name)
  }

  /**
   * The entry discovery builds for directory `name`: the detected port when it is
   * truthy and a valid port, otherwise `_get_next_port()` over the project list
   * `prev` (the list as it was before the pass); the detected Redis DB; the name
   * with `-` turned into spaces and title-cased; and the conventional URLs.
   */
  function NewRecord(fs: FileSystem, projectsDir: Path, name: string, prev: seq<Project>): SavedRecord {
    var dir := projectsDir + [name];
    var detected := DetectPort(fs, dir);
    var port := if detected.Some? && detected.value != 0 && IsValidPort(detected.value) then detected.value
                else NextPort(prev);
    SavedRecord(name, Title(ReplaceChar(name, '-', ' ')), port, DetectRedisDb(fs, dir), dir,
                Some(DefaultFeUrl(name)), Some(DefaultBeUrl(name)))
  }

  /**
   * A new entry's port is the detected one when that is a valid port, and
   * otherwise the next free port of `prev`, which no project of `prev` holds.
   */
  lemma NewRecordPort(fs: FileSystem, projectsDir: Path, name: string, prev: seq<Project>)
    ensures var detected := DetectPort(fs, projectsDir + [name]);
            var r := NewRecord(fs, projectsDir, name, prev);
            && (detected.Some? && IsValidPort(detected.value) ==> r.port == detected.value)
            && (!(detected.Some? && IsValidPort(detected.value)) ==> r.port == NextPort(prev) && r.port !in UsedPorts(prev))
            && (IsValidPort(r.port) || r.port !in UsedPorts(prev))
  {
  }

  /**
   * A new entry is named after its directory, has the conventional URLs, and its
   * pretty name is the name with each `-` a space and each word capitalised.
   */
  lemma NewRecordNames(fs: FileSystem, projectsDir: Path, name: string, prev: seq<Project>)
    ensures var r := NewRecord(fs, projectsDir, name, prev);
            && r.name == name && r.directory == projectsDir + [name] && Leaf(r.directory) == name
            && r.feUrl == Some("https://app." + name + ".test") && r.beUrl == Some("https://api." + name + ".test")
            && |r.prettyName| == |name|
            && forall i :: 0 <= i < |name| ==> r.prettyName[i] == TitleChar(ReplaceChar(name, '-', ' '), i)
  {
    var r := NewRecord(fs, projectsDir, name, prev);
    var spaced := ReplaceChar(name, '-', ' ');
    if name != [] {
      TitleAt(spaced, 0);
    }
    forall i | 0 <= i < |name| ensures r.prettyName[i] == TitleChar(spaced, i) {
      TitleAt(spaced, i);
    }
  }

  /**
   * The pretty name of a new entry, read off its name: each `-` becomes a space,
   * the first letter and every letter right after a `-` are upper-cased, and a
   * letter right after another letter is lower-cased.
   */
  lemma NewRecordPrettyName(fs: FileSystem, projectsDir: Path, name: string, prev: seq<Project>)
    ensures var pretty := NewRecord(fs, projectsDir, name, prev).prettyName;
            && |pretty| == |name|
            && (forall i :: 0 <= i < |name| && name[i] == '-' ==> pretty[i] == ' ')
            && (forall i :: 0 < i < |name| && name[i - 1] == '-' && IsLetter(name[i]) ==> pretty[i] == Upper(name[i]))
            && (0 < |name| && IsLetter(name[0]) ==> pretty[0] == Upper(name[0]))
            && (forall i :: 0 < i < |name| && IsLetter(name[i - 1]) && IsLetter(name[i]) ==> pretty[i] == Lower(name[i]))
  {
    var pretty := NewRecord(fs, projectsDir, name, prev).prettyName;
    assert pretty == Title(ReplaceChar(name, '-', ' '));
    if name != [] {
      PrettyNameAt(name, 0);
    }
    forall i | 0 <= i < |name| ensures pretty[i] == PrettyNameChar(name, i) {
      PrettyNameAt(name, i);
    }
  }

  /**
   * What the pretty name `name.replace('-', ' ').title()` holds at position i, read
   * off the name itself: a space for each `-`; a letter upper-cased when no letter
   * precedes it and lower-cased when one does; any other character as it was.
   */
  function PrettyNameChar(name: string, i: nat): char
    requires i < |name|
  {
    if name[i] == '-' then ' '
    else if !IsLetter(name[i]) then name[i]
    else if i > 0 && IsLetter(name[i - 1]) then Lower(name[i])
    else Upper(name[i])
  }

  /** `title()` after `replace('-', ' ')` works on the name position by position as `PrettyNameChar` says. */
  lemma PrettyNameAt(name: string, i: nat)
    requires i < |name|
    ensures |Title(ReplaceChar(name, '-', ' '))| == |name|
    ensures Title(ReplaceChar(name, '-', ' '))[i] == PrettyNameChar(name, i)
  {
    var spaced := ReplaceChar(name, '-', ' ');
    TitleAt(spaced, i);
    assert IsLetter(spaced[i]) <==> IsLetter(name[i]);
    if i > 0 {
      assert IsLetter(spaced[i - 1]) <==> IsLetter(name[i - 1]);
    }
  }

  /** `Qualifies` for one directory of projects, as a function of the name. */
  function Qualifier(fs: FileSystem, projectsDir: Path): string -> bool {
    n => Qualifies(fs, projectsDir, n)
  }

  /** `NewRecord` for one directory of projects and one previous list, as a function of the name. */
  function Maker(fs: FileSystem, projectsDir: Path, prev: seq<Project>): string -> SavedRecord {
    n => NewRecord(fs, projectsDir, n, prev)
  }

  /** A maker that names each entry after its argument. */
  ghost predicate Named(make: string -> SavedRecord) {
    forall n :: make(n).name == n
  }

  lemma MakerNamed(fs: FileSystem, projectsDir: Path, prev: seq<Project>)
    ensures Named(Maker(fs, projectsDir, prev))
  {
  }

  /**
   * Which listed names a discovery pass passes over: `_load_projects` those
   * already in `project_data`, `_scan_projects_directory` those of a tracked
   * project, `rescan_projects` none.
   */
  datatype DiscoverMode = SkipKeyed | SkipTracked(tracked: set<string>) | Replace

  predicate Skips(mode: DiscoverMode, d: seq<SavedRecord>, n: string) {
    match mode
    case SkipKeyed => Keyed(d, n)
    case SkipTracked(tracked) => n in tracked
    case Replace => false
  }

  /**
   * The discovery loop over the directory listing, in listing order, starting
   * from `project_data` = `d`: a qualifying name that the mode does not skip is
   * stored with the entry `make` builds for it.
   */
  function Discover(listing: seq<string>, d: seq<SavedRecord>, mode: DiscoverMode,
                    qualifies: string -> bool, make: string -> SavedRecord): seq<SavedRecord>
    decreases |listing|
  {
    if listing == [] then d
    else
      var d' := Discover(listing[..|listing| - 1], d, mode, qualifies, make);
      var n := listing[|listing| - 1];
      if qualifies(n) && !Skips(mode, d', n) then Put(d', make(n)) else d'
  }

  /** One more listed name: the pass so far, then that name's step. */
  lemma DiscoverStep(listing: seq<string>, j: nat, d: seq<SavedRecord>, mode: DiscoverMode,
                     qualifies: string -> bool, make: string -> SavedRecord)
    requires j < |listing|
    ensures var d' := Discover(listing[..j], d, mode, qualifies, make);
            Discover(listing[..j + 1], d, mode, qualifies, make) ==
              if qualifies(listing[j]) && !Skips(mode, d', listing[j]) then Put(d', make(listing[j])) else d'
  {
    assert listing[..j + 1][..j] == listing[..j];
  }

  /** A mode that does not skip by key passes over the same names whatever `project_data` holds. */
  lemma SkipsIgnoresData(mode: DiscoverMode, d: seq<SavedRecord>, n: string)
    requires !mode.SkipKeyed?
    ensures Skips(mode, d, n) == Skips(mode, [], n)
  {
  }

  /**
   * A pass from an empty `project_data` that does not skip by key holds each name
   * once, and only qualifying listed names its mode does not skip, each with the
   * entry built for it.
   */
  lemma {:induction false} DiscoverFromEmptySound(listing: seq<string>, mode: DiscoverMode,
                                                 qualifies: string -> bool, make: string -> SavedRecord)
    requires !mode.SkipKeyed? && Named(make)
    ensures var d := Discover(listing, [], mode, qualifies, make);
            && DistinctNames(d)
            && forall x :: x in d ==> x == make(x.name) && x.name in listing && qualifies(x.name) && !Skips(mode, [], x.name)
    decreases |listing|
  {
    if listing != [] {
      var init := listing[..|listing| - 1];
      var n := listing[|listing| - 1];
      DiscoverFromEmptySound(init, mode, qualifies, make);
      var d' := Discover(init, [], mode, qualifies, make);
      assert forall m :: m in init ==> m in listing;
      SkipsIgnoresData(mode, d', n);
      if qualifies(n) && !Skips(mode, d', n) {
        var r := make(n);
        assert r.name == n;
        match KeyIndex(d', n)
        case Some(i) =>
          assert d'[i] in d';
          assert d'[i := r] == d';
        case None =>
          PutNew(d', r);
          assert forall x :: x in d' + [r] ==> x in d' || x == r;
      }
    }
  }

  /** A pass from an empty `project_data` that does not skip by key holds every qualifying listed name it does not skip. */
  lemma {:induction false} DiscoverFromEmptyCovers(listing: seq<string>, mode: DiscoverMode,
                                                  qualifies: string -> bool, make: string -> SavedRecord)
    requires !mode.SkipKeyed? && Named(make)
    ensures var d := Discover(listing, [], mode, qualifies, make);
            forall n :: n in listing && qualifies(n) && !Skips(mode, [], n) ==> Keyed(d, n)
    decreases |listing|
  {
    if listing != [] {
      var init := listing[..|listing| - 1];
      var n := listing[|listing| - 1];
      DiscoverFromEmptyCovers(init, mode, qualifies, make);
      var d' := Discover(init, [], mode, qualifies, make);
      assert forall m :: m in listing ==> m in init || m == n;
      SkipsIgnoresData(mode, d', n);
      if qualifies(n) && !Skips(mode, d', n) {
        PutKeepsOthers(d', make(n));
      }
    }
  }

  /**
   * A pass from an empty `project_data` that does not skip by key (`rescan_projects`,
   * `_scan_projects_directory`) holds each name once, holds exactly the qualifying
   * listed names its mode does not skip, and holds for each the entry built for it.
   */
  lemma DiscoverFromEmpty(listing: seq<string>, mode: DiscoverMode,
                          qualifies: string -> bool, make: string -> SavedRecord)
    requires !mode.SkipKeyed? && Named(make)
    ensures var d := Discover(listing, [], mode, qualifies, make);
            && DistinctNames(d)
            && (forall x :: x in d ==> x == make(x.name) && x.name in listing && qualifies(x.name) && !Skips(mode, [], x.name))
            && (forall n :: n in listing && qualifies(n) && !Skips(mode, [], n) ==> Keyed(d, n))
  {
    DiscoverFromEmptySound(listing, mode, qualifies, make);
    DiscoverFromEmptyCovers(listing, mode, qualifies, make);
  }

  /** A step of the pass of `_load_projects` that stores a name appends it. */
  lemma PutUnkeyed(d: seq<SavedRecord>, n: string, make: string -> SavedRecord)
    requires Named(make) && !Keyed(d, n)
    ensures Put(d, make(n)) == d + [make(n)]
  {
    assert make(n).name == n;
  }

  /** The pass of `_load_projects` keeps `project_data` as it was, in place, and only appends. */
  lemma {:induction false} DiscoverPrefix(listing: seq<string>, d: seq<SavedRecord>,
                                         qualifies: string -> bool, make: string -> SavedRecord)
    requires Named(make)
    ensures var r := Discover(listing, d, SkipKeyed, qualifies, make);
            |d| <= |r| && r[..|d|] == d
    decreases |listing|
  {
    if listing != [] {
      var init := listing[..|listing| - 1];
      var n := listing[|listing| - 1];
      DiscoverPrefix(init, d, qualifies, make);
      var d' := Discover(init, d, SkipKeyed, qualifies, make);
      if qualifies(n) && !Keyed(d', n) {
        PutUnkeyed(d', n, make);
        assert (d' + [make(n)])[..|d|] == d'[..|d|];
      }
    }
  }

  /**
   * The pass of `_load_projects` keeps `project_data` as it was and appends, each
   * once, qualifying listed names it did not hold, with the entries built for them.
   */
  lemma {:induction false} DiscoverExtends(listing: seq<string>, d: seq<SavedRecord>,
                                          qualifies: string -> bool, make: string -> SavedRecord)
    requires DistinctNames(d) && Named(make)
    ensures var r := Discover(listing, d, SkipKeyed, qualifies, make);
            && |d| <= |r| && r[..|d|] == d && DistinctNames(r)
            && (forall i :: |d| <= i < |r| ==>
                  r[i] == make(r[i].name) && r[i].name in listing && qualifies(r[i].name) && !Keyed(d, r[i].name))
    decreases |listing|
  {
    DiscoverPrefix(listing, d, qualifies, make);
    if listing != [] {
      var init := listing[..|listing| - 1];
      var n := listing[|listing| - 1];
      DiscoverExtends(init, d, qualifies, make);
      var d' := Discover(init, d, SkipKeyed, qualifies, make);
      assert forall m :: m in init ==> m in listing;
      if qualifies(n) && !Keyed(d', n) {
        PutUnkeyed(d', n, make);
        PutNew(d', make(n));
        assert forall i :: 0 <= i < |d'| ==> (d' + [make(n)])[i] == d'[i];
        assert !Keyed(d, n) by {
          forall i | 0 <= i < |d| ensures d[i].name != n {
            assert d'[..|d|][i] == d[i];
          }
        }
      }
    }
  }

  /** Where name `n` first appears in the listing; `|s|` when it does not appear. */
  function ListingPos(s: seq<string>, n: string): (r: nat)
    ensures r <= |s| && (r < |s| <==> n in s)
    ensures r < |s| ==> s[r] == n && forall k :: 0 <= k < r ==> s[k] != n
    decreases |s|
  {
    if s == [] then 0
    else if n in s[..|s| - 1] then ListingPos(s[..|s| - 1], n)
    else if s[|s| - 1] == n then |s| - 1
    else
      assert forall k :: 0 <= k < |s| - 1 ==> s[k] == s[..|s| - 1][k];
      |s|
  }

  /** The pass of `_load_projects` appends new names in the order they first appear in the listing. */
  lemma {:induction false} DiscoverOrdered(listing: seq<string>, d: seq<SavedRecord>,
                                          qualifies: string -> bool, make: string -> SavedRecord)
    requires DistinctNames(d) && Named(make)
    ensures var r := Discover(listing, d, SkipKeyed, qualifies, make);
            forall i, j :: |d| <= i < j < |r| ==> ListingPos(listing, r[i].name) < ListingPos(listing, r[j].name)
    decreases |listing|
  {
    if listing != [] {
      var init := listing[..|listing| - 1];
      var n := listing[|listing| - 1];
      DiscoverOrdered(init, d, qualifies, make);
      DiscoverExtends(init, d, qualifies, make);
      var d' := Discover(init, d, SkipKeyed, qualifies, make);
      var r := Discover(listing, d, SkipKeyed, qualifies, make);
      assert forall i :: |d| <= i < |d'| ==> ListingPos(listing, d'[i].name) == ListingPos(init, d'[i].name) < |init|;
      if qualifies(n) && !Keyed(d', n) {
        PutUnkeyed(d', n, make);
        DiscoverCovers(init, d, qualifies, make);
        assert n !in init;
        assert ListingPos(listing, r[|d'|].name) == |init|;
        forall i, j | |d| <= i < j < |r|
          ensures ListingPos(listing, r[i].name) < ListingPos(listing, r[j].name)
        {
          assert r[i] == d'[i];
          if j < |d'| {
            assert r[j] == d'[j];
          }
        }
      }
    }
  }

  /** After the pass of `_load_projects` every key it started with and every qualifying listed name is keyed. */
  lemma {:induction false} DiscoverCovers(listing: seq<string>, d: seq<SavedRecord>,
                                         qualifies: string -> bool, make: string -> SavedRecord)
    requires Named(make)
    ensures var r := Discover(listing, d, SkipKeyed, qualifies, make);
            && (forall n :: Keyed(d, n) ==> Keyed(r, n))
            && (forall n :: n in listing && qualifies(n) ==> Keyed(r, n))
    decreases |listing|
  {
    if listing != [] {
      var init := listing[..|listing| - 1];
      var n := listing[|listing| - 1];
      DiscoverCovers(init, d, qualifies, make);
      var d' := Discover(init, d, SkipKeyed, qualifies, make);
      assert forall m :: m in listing ==> m in init || m == n;
      if qualifies(n) && !Keyed(d', n) {
        PutKeepsOthers(d', make(n));
      }
    }
  }

  /** A pass of `_load_projects` over a listing whose qualifying names are all keyed adds nothing. */
  lemma {:induction false} DiscoverAllKeyed(listing: seq<string>, d: seq<SavedRecord>,
                                           qualifies: string -> bool, make: string -> SavedRecord)
    requires forall n :: n in listing && qualifies(n) ==> Keyed(d, n)
    ensures Discover(listing, d, SkipKeyed, qualifies, make) == d
    decreases |listing|
  {
    if listing != [] {
      var init := listing[..|listing| - 1];
      assert forall m :: m in init ==> m in listing;
      DiscoverAllKeyed(init, d, qualifies, make);
    }
  }

  // ---------------------------------------------------------------------------
  // The three passes
  // ---------------------------------------------------------------------------

  /**
   * `project_data` at the end of `_load_projects`: the saved entries refreshed
   * against the filesystem, then the qualifying listed directories not already
   * keyed, with ports allocated against `prev`.
   */
  function LoadData(fs: FileSystem, projectsDir: Path, listing: seq<string>, saved: seq<SavedRecord>,
                    prev: seq<Project>): seq<SavedRecord>
  {
    Discover(listing, LoadSaved(saved, Refresher(fs)), SkipKeyed, Qualifier(fs, projectsDir), Maker(fs, projectsDir, prev))
  }

  /** `project_data` at the end of `rescan_projects`: every qualifying listed directory, built afresh. */
  function RescanData(fs: FileSystem, projectsDir: Path, listing: seq<string>, prev: seq<Project>): seq<SavedRecord> {
    Discover(listing, [], Replace, Qualifier(fs, projectsDir), Maker(fs, projectsDir, prev))
  }

  /** The names of the tracked projects. */
  function TrackedNames(ps: seq<Project>): set<string> {
    set p | p in ps :: p.name
  }

  /** `project_data` at the end of `_scan_projects_directory`: the qualifying listed directories not yet tracked. */
  function ScanData(fs: FileSystem, projectsDir: Path, listing: seq<string>, prev: seq<Project>): seq<SavedRecord> {
    Discover(listing, [], SkipTracked(TrackedNames(prev)), Qualifier(fs, projectsDir), Maker(fs, projectsDir, prev))
  }

  /**
   * `_load_projects` keeps each name once. First come the saved entries that still
   * exist with a layout, refreshed, every saved entry that does being represented,
   * under its name; then, in listing order, a new entry for each qualifying listed
   * directory whose name no kept saved entry has; and every qualifying listed name
   * ends up keyed.
   */
  lemma LoadSpec(fs: FileSystem, projectsDir: Path, listing: seq<string>, saved: seq<SavedRecord>, prev: seq<Project>)
    ensures var d := LoadData(fs, projectsDir, listing, saved, prev);
            var kept := LoadSaved(saved, Refresher(fs));
            && DistinctNames(d) && |kept| <= |d| && d[..|kept|] == kept
            && (forall x :: x in kept ==>
                  && Exists(fs, x.directory) && HasLayout(fs, x.directory, x.name)
                  && RefreshSaved(fs, x) == Some(x)
                  && exists k :: 0 <= k < |saved| && RefreshSaved(fs, saved[k]) == Some(x))
            && (forall k :: 0 <= k < |saved| && RefreshSaved(fs, saved[k]).Some? ==> Keyed(kept, saved[k].name))
            && (forall i :: |kept| <= i < |d| ==>
                  && d[i] == NewRecord(fs, projectsDir, d[i].name, prev)
                  && d[i].name in listing && Qualifies(fs, projectsDir, d[i].name) && !Keyed(kept, d[i].name))
            && (forall i, j :: |kept| <= i < j < |d| ==> ListingPos(listing, d[i].name) < ListingPos(listing, d[j].name))
            && (forall n :: n in listing && Qualifies(fs, projectsDir, n) ==> Keyed(d, n))
  {
    var kept := LoadSaved(saved, Refresher(fs));
    RefresherSettles(fs);
    LoadSavedSound(saved, Refresher(fs));
    LoadSavedComplete(saved, Refresher(fs));
    MakerNamed(fs, projectsDir, prev);
    DiscoverExtends(listing, kept, Qualifier(fs, projectsDir), Maker(fs, projectsDir, prev));
    DiscoverCovers(listing, kept, Qualifier(fs, projectsDir), Maker(fs, projectsDir, prev));
    DiscoverOrdered(listing, kept, Qualifier(fs, projectsDir), Maker(fs, projectsDir, prev));
    forall x | x in kept ensures Exists(fs, x.directory) && HasLayout(fs, x.directory, x.name) {
      RefreshSavedSpec(fs, x);
    }
  }

  /**
   * `rescan_projects` ignores the saved data: it holds each name once, exactly the
   * qualifying listed directories, each with the entry built for it afresh.
   */
  lemma RescanSpec(fs: FileSystem, projectsDir: Path, listing: seq<string>, prev: seq<Project>)
    ensures var d := RescanData(fs, projectsDir, listing, prev);
            && DistinctNames(d)
            && (forall x :: x in d ==>
                  x == NewRecord(fs, projectsDir, x.name, prev) && x.name in listing && Qualifies(fs, projectsDir, x.name))
            && (forall n :: n in listing && Qualifies(fs, projectsDir, n) ==> Keyed(d, n))
  {
    MakerNamed(fs, projectsDir, prev);
    DiscoverFromEmpty(listing, Replace, Qualifier(fs, projectsDir), Maker(fs, projectsDir, prev));
  }

  /**
   * `_scan_projects_directory` holds each name once: exactly the qualifying listed
   * directories that no tracked project is named after.
   */
  lemma ScanSpec(fs: FileSystem, projectsDir: Path, listing: seq<string>, prev: seq<Project>)
    ensures var d := ScanData(fs, projectsDir, listing, prev);
            && DistinctNames(d)
            && (forall x :: x in d ==>
                  && x == NewRecord(fs, projectsDir, x.name, prev)
                  && x.name in listing && Qualifies(fs, projectsDir, x.name)
                  && forall p :: p in prev ==> p.name != x.name)
            && (forall n :: n in listing && Qualifies(fs, projectsDir, n) && (forall p :: p in prev ==> p.name != n) ==>
                  Keyed(d, n))
  {
    MakerNamed(fs, projectsDir, prev);
    DiscoverFromEmpty(listing, SkipTracked(TrackedNames(prev)), Qualifier(fs, projectsDir), Maker(fs, projectsDir, prev));
  }

  /** A port found in package.json that is truthy but not a valid port. */
  predicate StrayPort(detected: Option<int>) {
    detected.Some? && detected.value != 0 && !IsValidPort(detected.value)
  }

  /** A new entry already agrees with the filesystem, unless the port it found was stray. */
  lemma NewRecordSettled(fs: FileSystem, projectsDir: Path, name: string, prev: seq<Project>)
    requires Qualifies(fs, projectsDir, name) && !StrayPort(DetectPort(fs, projectsDir + [name]))
    ensures RefreshSaved(fs, NewRecord(fs, projectsDir, name, prev)) == Some(NewRecord(fs, projectsDir, name, prev))
  {
    RefreshSavedSpec(fs, NewRecord(fs, projectsDir, name, prev));
  }

  /**
   * A stray port is where a load and the next one part ways: the new entry gets
   * `_get_next_port()`, which the refresh of the next load then replaces with the
   * stray port.
   */
  lemma StrayPortUnsettled(fs: FileSystem, projectsDir: Path, name: string, prev: seq<Project>)
    requires Qualifies(fs, projectsDir, name) && StrayPort(DetectPort(fs, projectsDir + [name]))
    ensures var r := NewRecord(fs, projectsDir, name, prev);
            var stray := DetectPort(fs, projectsDir + [name]).value;
            && r.port == NextPort(prev)
            && RefreshSaved(fs, r) == Some(r.(port := stray))
  {
    RefreshSavedSpec(fs, NewRecord(fs, projectsDir, name, prev));
  }

  /** A refresh whose fixed points stay fixed whatever their URLs are. */
  ghost predicate IgnoresUrls(refresh: SavedRecord -> Option<SavedRecord>) {
    forall r: SavedRecord, fe: Option<string>, be: Option<string> ::
      refresh(r) == Some(r) ==> refresh(r.(feUrl := fe, beUrl := be)) == Some(r.(feUrl := fe, beUrl := be))
  }

  lemma RefresherIgnoresUrls(fs: FileSystem)
    ensures IgnoresUrls(Refresher(fs))
  {
    forall r: SavedRecord, fe: Option<string>, be: Option<string> | Refresher(fs)(r) == Some(r)
      ensures Refresher(fs)(r.(feUrl := fe, beUrl := be)) == Some(r.(feUrl := fe, beUrl := be))
    {
      RefreshIgnoresUrls(fs, r, fe, be);
    }
  }

  /**
   * Writing out the projects of a `project_data` whose entries are fixed points of
   * a refresh gives entries with the same keys, each once, that are fixed points
   * too, and that build the same projects.
   */
  lemma RecordsSettled(d: seq<SavedRecord>, refresh: SavedRecord -> Option<SavedRecord>)
    requires DistinctNames(d) && IgnoresUrls(refresh)
    requires forall x :: x in d ==> refresh(x) == Some(x)
    ensures var c := Records(ProjectsOf(d));
            && DistinctNames(c)
            && (forall x :: x in c ==> refresh(x) == Some(x))
            && (forall n :: Keyed(d, n) ==> Keyed(c, n))
            && ProjectsOf(c) == ProjectsOf(d)
  {
    var c := Records(ProjectsOf(d));
    forall i | 0 <= i < |d|
      ensures c[i] == d[i].(feUrl := c[i].feUrl, beUrl := c[i].beUrl)
      ensures refresh(c[i]) == Some(c[i])
      ensures FromRecord(c[i]) == FromRecord(d[i])
    {
      assert refresh(d[i]) == Some(d[i]);
      SavedRecordStable(d[i]);
    }
  }

  /** After `_load_projects` every entry agrees with the filesystem, unless a new directory's port was stray. */
  lemma LoadSettled(fs: FileSystem, projectsDir: Path, listing: seq<string>, saved: seq<SavedRecord>, prev: seq<Project>)
    requires forall n :: n in listing && Qualifies(fs, projectsDir, n) ==> !StrayPort(DetectPort(fs, projectsDir + [n]))
    ensures forall x :: x in LoadData(fs, projectsDir, listing, saved, prev) ==> Refresher(fs)(x) == Some(x)
  {
    var d := LoadData(fs, projectsDir, listing, saved, prev);
    var kept := LoadSaved(saved, Refresher(fs));
    LoadSpec(fs, projectsDir, listing, saved, prev);
    forall i | 0 <= i < |d| ensures RefreshSaved(fs, d[i]) == Some(d[i]) {
      if i < |kept| {
        assert d[i] == kept[i];
      } else {
        NewRecordSettled(fs, projectsDir, d[i].name, prev);
      }
    }
  }

  /**
   * Loading, saving and loading again against the same filesystem gives the same
   * projects, whatever project list the second load starts from, provided no
   * qualifying directory has a stray port in its package.json.
   */
  lemma LoadIdempotent(fs: FileSystem, projectsDir: Path, listing: seq<string>, saved: seq<SavedRecord>,
                       prev: seq<Project>, prev': seq<Project>)
    requires forall n :: n in listing && Qualifies(fs, projectsDir, n) ==> !StrayPort(DetectPort(fs, projectsDir + [n]))
    ensures var ps := ProjectsOf(LoadData(fs, projectsDir, listing, saved, prev));
            ProjectsOf(LoadData(fs, projectsDir, listing, Records(ps), prev')) == ps
  {
    var d := LoadData(fs, projectsDir, listing, saved, prev);
    var c := Records(ProjectsOf(d));
    LoadSpec(fs, projectsDir, listing, saved, prev);
    LoadSettled(fs, projectsDir, listing, saved, prev);
    RefresherIgnoresUrls(fs);
    RecordsSettled(d, Refresher(fs));
    LoadSavedOfSettled(c, Refresher(fs));
    DiscoverAllKeyed(listing, c, Qualifier(fs, projectsDir), Maker(fs, projectsDir, prev'));
  }

  /**
   * Ports are not kept apart: two directories found in one pass without a valid
   * port in their package.json both get `_get_next_port()` of the same previous
   * list, so on a first load (empty list) both get 3000.
   */
  lemma PortlessShareNextPort(fs: FileSystem, projectsDir: Path, listing: seq<string>, prev: seq<Project>)
    ensures forall x, y ::
              (x in RescanData(fs, projectsDir, listing, prev) && y in RescanData(fs, projectsDir, listing, prev)
               && !ValidDetected(fs, projectsDir, x.name) && !ValidDetected(fs, projectsDir, y.name)) ==>
              x.port == y.port == NextPort(prev)
    ensures prev == [] ==>
              forall x :: (x in RescanData(fs, projectsDir, listing, prev) && !ValidDetected(fs, projectsDir, x.name)) ==>
                x.port == DefaultPort
  {
    RescanSpec(fs, projectsDir, listing, prev);
    forall x | x in RescanData(fs, projectsDir, listing, prev)
      ensures !ValidDetected(fs, projectsDir, x.name) ==> x.port == NextPort(prev)
    {
      NewRecordPort(fs, projectsDir, x.name, prev);
    }
  }

  /**
   * The same on load: every directory `_load_projects` adds after the saved
   * entries without a valid port in its package.json gets `_get_next_port()` of
   * the list as it was, and so 3000 when the list was empty, as it is when the
   * service is constructed.
   */
  lemma PortlessShareNextPortLoad(fs: FileSystem, projectsDir: Path, listing: seq<string>, saved: seq<SavedRecord>,
                                  prev: seq<Project>)
    ensures var d := LoadData(fs, projectsDir, listing, saved, prev);
            var kept := LoadSaved(saved, Refresher(fs));
            forall i :: |kept| <= i < |d| && !ValidDetected(fs, projectsDir, d[i].name) ==>
              d[i].port == NextPort(prev) && (prev == [] ==> d[i].port == DefaultPort)
  {
    var d := LoadData(fs, projectsDir, listing, saved, prev);
    var kept := LoadSaved(saved, Refresher(fs));
    LoadSpec(fs, projectsDir, listing, saved, prev);
    forall i | |kept| <= i < |d| && !ValidDetected(fs, projectsDir, d[i].name)
      ensures d[i].port == NextPort(prev)
    {
      NewRecordPort(fs, projectsDir, d[i].name, prev);
    }
  }

  /**
   * The same for `_scan_projects_directory`: every directory it finds without a
   * valid port gets `_get_next_port()` of the tracked list, 3000 when it is empty.
   */
  lemma PortlessShareNextPortScan(fs: FileSystem, projectsDir: Path, listing: seq<string>, prev: seq<Project>)
    ensures forall x :: x in ScanData(fs, projectsDir, listing, prev) && !ValidDetected(fs, projectsDir, x.name) ==>
              x.port == NextPort(prev) && (prev == [] ==> x.port == DefaultPort)
  {
    ScanSpec(fs, projectsDir, listing, prev);
    forall x | x in ScanData(fs, projectsDir, listing, prev) && !ValidDetected(fs, projectsDir, x.name)
      ensures x.port == NextPort(prev)
    {
      NewRecordPort(fs, projectsDir, x.name, prev);
    }
  }

  /** The port found in the package.json of listed directory `name` is a valid one. */
  predicate ValidDetected(fs: FileSystem, projectsDir: Path, name: string) {
    var detected := DetectPort(fs, projectsDir + [name]);
    detected.Some? && IsValidPort(detected.value)
  }

  /**
   * A directory without `api` and `<name>-api`, one with only `app` for instance,
   * holds none of the three layouts, so neither `rescan_projects` nor `_scan_projects_directory`
   * takes it up.
   */
  lemma AppOnlyNotDiscovered(fs: FileSystem, projectsDir: Path, listing: seq<string>, prev: seq<Project>, name: string)
    requires !Exists(fs, projectsDir + [name] + ["api"]) && !Exists(fs, projectsDir + [name] + [name + "-api"])
    ensures !Qualifies(fs, projectsDir, name)
    ensures !Keyed(RescanData(fs, projectsDir, listing, prev), name)
    ensures !Keyed(ScanData(fs, projectsDir, listing, prev), name)
  {
    RescanSpec(fs, projectsDir, listing, prev);
    ScanSpec(fs, projectsDir, listing, prev);
    forall x | x in RescanData(fs, projectsDir, listing, prev) ensures x.name != name {
    }
    forall x | x in ScanData(fs, projectsDir, listing, prev) ensures x.name != name {
    }
  }

  /**
   * A `www` + `api` project whose `www/package.json` has the dev script
   * `next dev -p N`, N a valid port (4010, say), qualifies, and discovery gives
   * it port N.
   */
  lemma WwwNextDevPort(fs: FileSystem, projectsDir: Path, name: string, prev: seq<Project>, n: nat)
    requires var dir := projectsDir + [name];
             && IsDir(fs, dir) && Exists(fs, dir + ["www"]) && Exists(fs, dir + ["api"])
             && PackageReadable(fs, dir + ["www", "package.json"])
             && "dev" in fs.packages[dir + ["www", "package.json"]].scripts
             && fs.packages[dir + ["www", "package.json"]].scripts["dev"] == "next dev -p " + NatToString(n)
             && IsValidPort(n)
    ensures Qualifies(fs, projectsDir, name)
    ensures NewRecord(fs, projectsDir, name, prev).port == n
  {
    var dir := projectsDir + [name];
    FrontendPackageFirst(fs, dir);
    DevScriptDecides(fs.packages[dir + ["www", "package.json"]], n);
    NewRecordPort(fs, projectsDir, name, prev);
  }
}
