/**
 * ProjectService: the project list it keeps and the data file it writes, with
 * its methods written as the loops of the source and proved against the
 * functions of Store and Updates.
 */
module Service {
  import opened Wrappers
  import opened Paths
  import opened Text
  import opened ProjectModel
  import opened Allocator
  import opened Extractor
  import opened Layout
  import opened Store
  import opened Updates

  class ProjectService {
    /** PROJECTS_DIR */
    const projectsDir: Path

    /** `self.projects` */
    var projects: seq<Project>

    /** The entries of PROJECT_DATA_FILE; [] when the file is absent. */
    var dataFile: seq<SavedRecord>

    /**
     * `__init__`: an empty project list, then `_load_projects` against the
     * filesystem, the listing of `projectsDir` and the data file as found.
     */
    constructor(fs: FileSystem, projectsDir: Path, listing: seq<string>, dataFile: seq<SavedRecord>)
      ensures this.projectsDir == projectsDir
      ensures projects == ProjectsOf(LoadData(fs, projectsDir, listing, dataFile, []))
      ensures this.dataFile == Records(projects)
    {
      this.projectsDir := projectsDir;
      this.projects := [];
      this.dataFile := dataFile;
      new;
      LoadProjects(fs, listing);
    }

    /** `save_projects`: the data file becomes the records of the projects, in order. */
    method SaveProjects()
      modifies this
      ensures projects == old(projects)
      ensures dataFile == Records(projects)
    {
      var data: seq<SavedRecord> := [];
      var i := 0;
      while i < |projects|
        invariant 0 <= i <= |projects|
        invariant data == Records(projects[..i])
      {
        data := data + [ToRecord(projects[i])];
        assert projects[..i + 1][..i] == projects[..i];
        i := i + 1;
      }
      assert projects[..i] == projects;
      dataFile := data;
    }

    /** `[Project(**d) for d in project_data.values()]` */
    static method BuildProjects(data: seq<SavedRecord>) returns (ps: seq<Project>)
      ensures ps == ProjectsOf(data)
    {
      ps := [];
      var i := 0;
      while i < |data|
        invariant 0 <= i <= |data|
        invariant ps == ProjectsOf(data[..i])
      {
        ps := ps + [FromRecord(data[i])];
        assert data[..i + 1][..i] == data[..i];
        i := i + 1;
      }
      assert data[..i] == data;
    }

    /** The entry discovery builds for listed directory `name`, with ports allocated against `projects`. */
    method BuildRecord(fs: FileSystem, name: string) returns (r: SavedRecord)
      ensures r == NewRecord(fs, projectsDir, name, projects)
    {
      var path := projectsDir + [name];
      var detected := DetectPort(fs, path);
      var redisDb := DetectRedisDb(fs, path);
      var port: int;
      if detected.None? || detected.value == 0 || !IsValidPort(detected.value) {
        port := NextPort(projects);
      } else {
        port := detected.value;
      }
      r := SavedRecord(name, Title(ReplaceChar(name, '-', ' ')), port, redisDb, path,
                       Some(DefaultFeUrl(name)), Some(DefaultBeUrl(name)));
    }

    /** The saved-data loop of `_load_projects` over the data file. */
    method RefreshEntries(fs: FileSystem) returns (data: seq<SavedRecord>)
      ensures data == LoadSaved(dataFile, Refresher(fs))
    {
      var saved := dataFile;
      data := [];
      var i := 0;
      while i < |saved|
        invariant 0 <= i <= |saved|
        invariant data == LoadSaved(saved[..i], Refresher(fs))
      {
        var entry := saved[i];
        assert saved[..i + 1][..i] == saved[..i];
        if Exists(fs, entry.directory) && HasLayout(fs, entry.directory, entry.name) {
          var redisDb := DetectRedisDb(fs, entry.directory);
          if redisDb.Some? {
            entry := entry.(redisDb := redisDb);
          }
          var detected := DetectPort(fs, entry.directory);
          if detected.Some? && detected.value != 0 {
            if detected.value != entry.port {
              entry := entry.(port := detected.value);
            }
          }
          assert Refresher(fs)(saved[i]) == Some(entry);
          data := Put(data, entry);
        }
        i := i + 1;
      }
      assert saved[..i] == saved;
    }

    /**
     * One step of the directory loop: listed entry `name` is stored in `data` when
     * it is a directory, is not passed over, and holds a layout.
     */
    method DiscoverOne(fs: FileSystem, name: string, data: seq<SavedRecord>, mode: DiscoverMode)
      returns (data': seq<SavedRecord>)
      ensures data' == if Qualifier(fs, projectsDir)(name) && !Skips(mode, data, name)
                       then Put(data, Maker(fs, projectsDir, projects)(name)) else data
    {
      var path := projectsDir + [name];
      var skip: bool;
      match mode {
        case SkipKeyed => skip := Keyed(data, name);
        case SkipTracked(tracked) => skip := name in tracked;
        case Replace => skip := false;
      }
      if IsDir(fs, path) && !skip && HasLayout(fs, path, name) {
        var r := BuildRecord(fs, name);
        data' := Put(data, r);
      } else {
        data' := data;
      }
    }

    /**
     * The directory loop shared by `_load_projects`, `rescan_projects` and
     * `_scan_projects_directory`, from `project_data` = `start`: each listed entry
     * that is a directory, is not passed over, and holds a layout is stored.
     */
    method DiscoverEntries(fs: FileSystem, listing: seq<string>, start: seq<SavedRecord>, mode: DiscoverMode)
      returns (data: seq<SavedRecord>)
      ensures data == Discover(listing, start, mode, Qualifier(fs, projectsDir), Maker(fs, projectsDir, projects))
    {
      data := start;
      for j := 0 to |listing|
        invariant data == Discover(listing[..j], start, mode, Qualifier(fs, projectsDir), Maker(fs, projectsDir, projects))
      {
        DiscoverStep(listing, j, start, mode, Qualifier(fs, projectsDir), Maker(fs, projectsDir, projects));
        data := DiscoverOne(fs, listing[j], data, mode);
      }
      assert listing[..|listing|] == listing;
    }

    /**
     * `_load_projects`: the saved entries refreshed against the filesystem, then
     * the new directories of the listing, become the project list, which is saved.
     */
    method LoadProjects(fs: FileSystem, listing: seq<string>)
      modifies this
      ensures projects == ProjectsOf(LoadData(fs, projectsDir, listing, old(dataFile), old(projects)))
      ensures dataFile == Records(projects)
    {
      var kept := RefreshEntries(fs);
      var data := DiscoverEntries(fs, listing, kept, SkipKeyed);
      projects := BuildProjects(data);
      SaveProjects();
    }

    /**
     * `rescan_projects`: every qualifying directory of the listing, built afresh
     * whatever the data file holds, becomes the project list, which is saved.
     */
    method RescanProjects(fs: FileSystem, listing: seq<string>)
      modifies this
      ensures projects == ProjectsOf(RescanData(fs, projectsDir, listing, old(projects)))
      ensures dataFile == Records(projects)
    {
      var data := DiscoverEntries(fs, listing, [], Replace);
      projects := BuildProjects(data);
      SaveProjects();
    }

    /**
     * `_scan_projects_directory`: the qualifying directories of the listing that
     * no tracked project is named after are appended, and the list is saved when
     * there is at least one.
     */
    method ScanProjectsDirectory(fs: FileSystem, listing: seq<string>)
      modifies this
      ensures projects == old(projects) + ProjectsOf(ScanData(fs, projectsDir, listing, old(projects)))
      ensures dataFile == if ScanData(fs, projectsDir, listing, old(projects)) == [] then old(dataFile)
                          else Records(projects)
    {
      var data := DiscoverEntries(fs, listing, [], SkipTracked(TrackedNames(projects)));
      AppendProjects(data);
      if data != [] {
        SaveProjects();
      }
    }

    /** `self.projects.append(Project(**d))` for each entry of `data`, in order, without saving. */
    method AppendProjects(data: seq<SavedRecord>)
      modifies this
      ensures projects == old(projects) + ProjectsOf(data)
      ensures dataFile == old(dataFile)
    {
      for i := 0 to |data|
        invariant projects == old(projects) + ProjectsOf(data[..i])
        invariant dataFile == old(dataFile)
      {
        projects := projects + [FromRecord(data[i])];
        assert data[..i + 1][..i] == data[..i];
      }
      assert data[..|data|] == data;
    }

    /** Index of the first project named `name`, as the generator of `get_project` finds it. */
    method IndexOf(name: string) returns (r: Option<nat>)
      ensures r == FindIndex(projects, name)
    {
      var i := 0;
      while i < |projects|
        invariant 0 <= i <= |projects|
        invariant forall j :: 0 <= j < i ==> projects[j].name != name
      {
        if projects[i].name == name {
          return Some(i);
        }
        i := i + 1;
      }
      return None;
    }

    /** `get_project` */
    method GetProject(name: string) returns (r: Option<Project>)
      ensures r == FindProject(projects, name)
    {
      var i := IndexOf(name);
      match i
      case Some(k) => r := Some(projects[k]);
      case None => r := None;
    }

    /** `add_project`: the project is appended, without any check, and the list is saved. */
    method AddProject(p: Project)
      modifies this
      ensures projects == old(projects) + [p]
      ensures dataFile == Records(projects)
    {
      projects := projects + [p];
      SaveProjects();
    }

    /** `any(p.port == port and p.name != name for p in self.projects)` */
    method PortTaken(name: string, port: int) returns (taken: bool)
      ensures taken == PortHeldByOther(projects, name, port)
    {
      var i := 0;
      while i < |projects|
        invariant 0 <= i <= |projects|
        invariant forall j :: 0 <= j < i ==> !(projects[j].port == port && projects[j].name != name)
      {
        if projects[i].port == port && projects[i].name != name {
          return true;
        }
        i := i + 1;
      }
      return false;
    }

    /**
     * `update_project`: nothing for an unknown name; the port error, before any
     * change, when another project holds the requested port; otherwise the updates
     * applied in order to the project found, the list saved, and the project returned.
     */
    method UpdateProject(name: string, updates: seq<FieldUpdate>) returns (r: UpdateOutcome)
      modifies this
      ensures (r, projects) == Update(old(projects), name, updates)
      ensures dataFile == if r.Updated? then Records(projects) else old(dataFile)
    {
      var found := IndexOf(name);
      if found.None? {
        return NotFound;
      }
      var i := found.value;
      var requested := RequestedPort(updates);
      if requested.Some? {
        var taken := PortTaken(name, requested.value);
        if taken {
          return PortInUse(requested.value);
        }
      }
      var project := projects[i];
      var k := 0;
      while k < |updates|
        invariant 0 <= k <= |updates|
        invariant project == ApplyUpdates(projects[i], updates[..k])
      {
        project := ApplyField(project, updates[k]);
        assert updates[..k + 1][..k] == updates[..k];
        k := k + 1;
      }
      assert updates[..k] == updates;
      projects := projects[i := project];
      SaveProjects();
      r := Updated(project);
    }
  }
}
