# project-manager: the ProjectService reconciliation engine in Dafny

This project models the core of `ProjectService`, the service of the
project-manager tool that keeps the list of local development projects. It
covers:

- the scan of a projects directory for sub-directories that have one of three
  front-end/back-end layouts;
- the configuration it reads from each project: the port from package.json
  scripts and the Redis database number from `.env` files;
- how the saved data file is reconciled with the filesystem on load, and the
  two rescans (`rescan_projects`, `_scan_projects_directory`);
- the port and Redis database allocators;
- the store operations `get_project`, `add_project`, `update_project` and
  `save_projects`;
- the `Project` dataclass and the default URLs its `__post_init__` fills in.

Modules:

- `Wrappers` holds `Option` and `Result`.
- `Text` holds the parts of Python's `str.strip`, `str.title`, `str.replace`
  and `int(str)` that the service uses, on ASCII.
- `Find` holds the "first candidate that gives a value" searches behind every
  early-return loop.
- `Paths` and `ProjectModel` hold paths as component sequences and the
  `Project` record.
- `Allocator` holds `_get_next_port` and `_get_next_redis_db`.
- `Extractor` holds the five script patterns, written out as matchers (there is
  no general regex engine), plus `_get_port_from_package`, `_is_valid_port` and
  the `.env` line scan.
- `Layout` holds an abstract filesystem, the layout test, and the candidate
  orders of `_read_package_json` and `_get_redis_db_from_env`.
- `Store` holds the reconciliation as functions over values:
  - the seven-field records of the data file;
  - `project_data`, an insertion-ordered dictionary, as a sequence with keyed
    `Put`;
  - the refresh of saved entries;
  - one generic discovery pass that the three scans instantiate;
  - the lemmas about them.
- `Updates` holds `get_project`'s lookup and `update_project`'s port check and
  attribute updates.
- `Service` holds the class `ProjectService`. Its fields are `projects` and
  `dataFile`, the contents of the data file. Each method is the source's loop,
  proved against the functions of `Store` and `Updates`.

Three inputs are parameters:

- the filesystem (`Layout.FileSystem`);
- the listing of the projects directory, in `iterdir` order;
- the data file's parsed entries.

Where one might expect more than the code does, the model follows the code:

- **Port uniqueness.** The code does not keep ports unique across projects.
  Directories found in one pass without a valid port in their package.json
  all get `_get_next_port()` of the list as it was before the pass; see
  `Store.PortlessShareNextPortLoad`, `Store.PortlessShareNextPort` (for a
  rescan) and `Store.PortlessShareNextPortScan`. A detected valid port, and the
  port the refresh of a saved entry takes, are used without a collision check.
- **Idempotence.** Loading twice gives the same projects when no
  qualifying directory has a truthy port outside 1..65535 in its package.json.
  Discovery replaces such a port with `_get_next_port()`, and the next load's
  refresh brings it back (`Store.StrayPortUnsettled`). `Store.LoadIdempotent`
  proves idempotence under exactly that condition.

## Model

| member | source | states |
|---|---|---|
| ProjectModel.MakeProject | src/project_manager/models/project.py:22-36 | construction keeps name, pretty name, port, Redis DB, directory and pid; a URL that is None or "" becomes `https://app.<name>.test` / `https://api.<name>.test`, a given one is kept; both URLs are then set and non-empty |
| ProjectModel.PostInitIdempotent | src/project_manager/models/project.py:31-36 | rebuilding a constructed project from its own fields gives the same project: `__post_init__` changes nothing the second time |
| Text.StripLeft | src/project_manager/services/project_service.py:218 | the result is a suffix of the input; everything dropped is whitespace; the result does not start with whitespace |
| Text.StripRight | src/project_manager/services/project_service.py:218 | the result is a prefix of the input; everything dropped is whitespace; the result does not end with whitespace |
| Text.ParseInt | src/project_manager/services/project_service.py:223 | definition of `int(value)` on a string: surrounding whitespace dropped, an optional sign, then digits with single underscores between digits; `None` where Python raises `ValueError`; its contract says a value comes only from non-blank text |
| Text.ParseIntOfNatToString | src/project_manager/services/project_service.py:223 | `int(str(n)) == n` for every natural n |
| Text.ReplaceChar | src/project_manager/services/project_service.py:285 | `replace('-', ' ')` keeps the length and leaves no `-` when the two characters differ; the replacement character stands exactly where either character stood, and every other character is kept |
| Text.TitleAt | src/project_manager/services/project_service.py:285 | `title()` keeps the length; a letter that starts a run of letters is upper-cased, any other letter lower-cased, and every non-letter is kept |
| Allocator.UsedPorts | src/project_manager/services/project_service.py:156 | definition of `{p.port for p in self.projects}` |
| Allocator.UsedRedisDbs | src/project_manager/services/project_service.py:536 | definition of `{p.redis_db for p in self.projects if p.redis_db is not None}` |
| Allocator.MaxPort | src/project_manager/services/project_service.py:172 | `max(used_ports)` is a used port and no used port exceeds it |
| Allocator.FirstFree | src/project_manager/services/project_service.py:165-169 | the index found is the first candidate not in use; every earlier candidate is in use |
| Allocator.NextPort | src/project_manager/services/project_service.py:154-174 | the next port is never in use; it is 3000 when no port is in use; it is one of 3000..3005 exactly when one of them is free, and then every lower common port is taken; otherwise it is the highest used port plus one |
| Allocator.NextRedisDb | src/project_manager/services/project_service.py:527-552 | with no Redis DB in use the result is MIN_REDIS_DB (0); otherwise the least free value of the range with all below it taken; the error (ValueError) exactly when DBs are in use and the whole range is taken |
| Extractor.SpanSpaces | src/project_manager/services/project_service.py:32-35 | `\s*` consumes the longest run of whitespace: all consumed characters are whitespace and the next one is not |
| Extractor.SpanDigits | src/project_manager/services/project_service.py:32-36 | `\d+` consumes the longest run of digits, and the next character is not a digit |
| Extractor.NextDevEnd | src/project_manager/services/project_service.py:32-33 | a `next\s+dev` match spans at least the eight characters of `next dev` and stays inside the script |
| Extractor.MatchAt | src/project_manager/services/project_service.py:31-37 | definition of each of the five patterns anchored at one position, with `next\s+dev.*?` as a lazy scan that stops at a newline; properties in `Extractor.NoMatchWithoutLeadChar` and the recognition lemmas below |
| Extractor.Search | src/project_manager/services/project_service.py:42 | definition of `re.search`: the capture at the leftmost position that matches; properties in `Extractor.SearchSpec` and `Extractor.SearchFindsLeftmost` |
| Extractor.SearchSpec | src/project_manager/services/project_service.py:42 | `re.search` finds nothing exactly when the pattern matches at no position; otherwise it captures at the leftmost matching position |
| Extractor.SearchFindsLeftmost | src/project_manager/services/project_service.py:42 | a match at j with no match before j is the one `re.search` reports |
| Extractor.ExtractPortFromScript | src/project_manager/services/project_service.py:20-49 | definition of `_extract_port_from_script`: the patterns tried in order, the first that matches giving its capture; properties in `Extractor.ExtractByPattern`, `Extractor.ExtractNone` and `Extractor.ExtractFirst` |
| Extractor.ExtractByPattern | src/project_manager/services/project_service.py:40-46 | the port is the capture of a pattern when that pattern matches and no pattern earlier in the list does |
| Extractor.ExtractNone | src/project_manager/services/project_service.py:40-49 | no port exactly when none of the five patterns matches anywhere |
| Extractor.ExtractFirst | src/project_manager/services/project_service.py:40-46 | any port found is the capture of some pattern that matches, with every earlier pattern not matching |
| Extractor.NoMatchWithoutLeadChar | src/project_manager/services/project_service.py:31-37 | a pattern cannot match a script that lacks its first character in either case |
| Extractor.DashPRecognised | src/project_manager/services/project_service.py:34 | `-p3000` yields 3000, for every number |
| Extractor.PortAssignmentRecognised | src/project_manager/services/project_service.py:36 | `PORT=3000` and `port=3000` yield 3000 (the search ignores case) |
| Extractor.LongPortNoDashP | src/project_manager/services/project_service.py:34 | `-p\s*(\d+)` does not match inside `--port=N` |
| Extractor.LongPortNoDashDashPort | src/project_manager/services/project_service.py:35 | `--port\s*(\d+)` does not match `--port=N`, because it does not accept the `=` |
| Extractor.LongPortEquals | src/project_manager/services/project_service.py:36 | inside `--port=N` the `PORT=(\d+)` pattern matches and captures N |
| Extractor.LongPortWithEqualsRecognised | src/project_manager/services/project_service.py:35-36 | `--port=N` still yields N: the fourth pattern fails and the fifth pattern, which ignores case, captures N |
| Extractor.NextDevBeatsEarlierDashP | src/project_manager/services/project_service.py:32-34 | `next dev -p N` after any text without an `n` (such as `foo -p 1 && `) yields N, because the first pattern is tried before `-p` |
| Extractor.NextDevScriptPort | src/project_manager/services/project_service.py:32 | `next dev -p N` yields N |
| Extractor.IsValidPort | src/project_manager/services/project_service.py:142-152 | definition of `_is_valid_port` on integers: 1..65535 inclusive |
| Extractor.ScriptPort | src/project_manager/services/project_service.py:113-127 | a script gives a port only when it is present and non-empty and its extracted port is non-zero; a present script that gives nothing extracted no port, or port 0 |
| Extractor.Truthy | src/project_manager/services/project_service.py:133 | definition of the truthiness test of the walrus at line 133 on a JSON scalar: missing, null, false, 0 and "" are falsy |
| Extractor.IntOf | src/project_manager/services/project_service.py:135 | definition of `int(port)` on a JSON scalar: booleans as 0 and 1, integers as they are, strings as `Text.ParseInt` reads them, and `None` where Python raises |
| Extractor.ConfigPort | src/project_manager/services/project_service.py:129-137 | definition of the Next.js fallback: only for a package depending on `next`, a truthy `config.port` read with `int()`, `None` where that raises |
| Extractor.GetPortFromPackage | src/project_manager/services/project_service.py:104-140 | empty data gives None; the `dev` script's non-zero port wins, then `start`'s, then `serve`'s; with none of them, `config.port` of a `next` package as `int()` reads it; without `next`, any port is positive |
| Extractor.DevPortDecides | src/project_manager/services/project_service.py:113-117 | a `dev` script that yields a non-zero port decides the result, whatever the rest of the package says |
| Extractor.DevScriptDecides | src/project_manager/services/project_service.py:113-117 | a `dev` script `next dev -p N` with N non-zero gives N |
| Extractor.ZeroDevPortFallsThrough | src/project_manager/services/project_service.py:113-125 | a `dev` script yielding port 0 is passed over and the `start` script's port is used |
| Extractor.LineValue | src/project_manager/services/project_service.py:218-222 | definition of one `.env` line's value text: the stripped line starts with `REDIS_DB=` or `REDIS_CACHE_DB=`, and its second `=`-field, stripped, is non-empty; properties in `Extractor.LineValueOfKey` |
| Extractor.LineRedisDb | src/project_manager/services/project_service.py:218-225 | definition of one line's value: the stripped line starts with `REDIS_DB=` or `REDIS_CACHE_DB=`, the stripped text after the first `=` up to the next is non-empty and `int()` accepts it; properties in `Extractor.LineRedisDbOfAssignment` and `Extractor.LineRedisDbEmptyValue` |
| Extractor.LinesRedisDb | src/project_manager/services/project_service.py:217-228 | definition of the line loop: the value of the first line, top to bottom, that gives one; properties in `Extractor.LinesRedisDbSpec` and `Extractor.LinesRedisDbPicks` |
| Extractor.LinesRedisDbSpec | src/project_manager/services/project_service.py:217-228 | the scan finds nothing exactly when no line gives a usable value; otherwise it gives the value of the first line that does |
| Extractor.LinesRedisDbPicks | src/project_manager/services/project_service.py:217-225 | a usable line with no usable line before it decides the value |
| Extractor.LineValueOfKey | src/project_manager/services/project_service.py:218-222 | `REDIS_DB=` or `REDIS_CACHE_DB=` followed by an unpadded value without `=` gives that value |
| Extractor.LineRedisDbOfAssignment | src/project_manager/services/project_service.py:219-225 | `REDIS_DB=N` and `REDIS_CACHE_DB=N` give N |
| Extractor.LineRedisDbEmptyValue | src/project_manager/services/project_service.py:222 | a line with an empty value gives nothing, so the scan goes on |
| Layout.HasLayout | src/project_manager/services/project_service.py:264-268 | definition of the layout test, written the same way at lines 335-341, 378-382 and 577-581: `<name>-app` and `<name>-api`, or `app` and `api`, or `www` and `api`, each existing as file or directory |
| Layout.PackageCandidates | src/project_manager/services/project_service.py:62-73 | definition of the six package.json locations in the order they are tried: `www`, `app`, `<leaf>-app`, the directory itself, then `api` and `<leaf>-api` |
| Layout.ReadPackageJson | src/project_manager/services/project_service.py:51-92 | no readable candidate gives `{}`; otherwise the result is the first candidate, in order, that exists and parses, with none before it readable |
| Layout.ReadPackageJsonPicks | src/project_manager/services/project_service.py:76-85 | a readable candidate with no readable one before it is the one read |
| Layout.FrontendPackageFirst | src/project_manager/services/project_service.py:62-63 | a parsable `www/package.json` wins over every other location |
| Layout.BackendPackageFallback | src/project_manager/services/project_service.py:70-89 | when no front-end location can be read, for instance because a file does not parse, `api/package.json` is read |
| Layout.DetectPort | src/project_manager/services/project_service.py:270-271 | definition of `_get_port_from_package(_read_package_json(path))`, the same call at lines 352-353, 384-385 and 583-584 |
| Layout.EnvCandidates | src/project_manager/services/project_service.py:199-202 | definition of the two backend directories whose `.env` is read, `api` then `<leaf>-api` |
| Layout.GetRedisDbFromEnv | src/project_manager/services/project_service.py:188-235 | None exactly when no candidate `.env` gives a value; otherwise the value of the first readable candidate with a usable line, no earlier candidate giving one |
| Layout.ApiEnvFirst | src/project_manager/services/project_service.py:199-202 | `api/.env` with a usable line decides, whatever `<name>-api/.env` holds |
| Layout.NamedApiEnvFallback | src/project_manager/services/project_service.py:206-232 | an unreadable `api/.env`, or one without a usable line, passes the scan on to `<name>-api/.env` |
| Layout.DetectRedisDb | src/project_manager/services/project_service.py:274 | definition of `_get_redis_db_from_env(path)`, the same call at lines 346, 388 and 587 |
| Store.ToRecord | src/project_manager/services/project_service.py:426-434 | definition of one record `save_projects` writes: the seven fields, without `fe_process_pid`; properties in `Store.RecordRoundTrip` |
| Store.FromRecord | src/project_manager/services/project_service.py:410 | definition of `Project(**data)`, the same construction as at lines 295 and 609; properties in `Store.RecordRoundTrip` and `Store.SavedRecordStable` |
| Store.Records | src/project_manager/services/project_service.py:425-436 | the data written has one seven-field record per project, in list order |
| Store.ProjectsOf | src/project_manager/services/project_service.py:408-410 | one project per value of `project_data`, in order, each built by `Project(**d)` |
| Store.RecordRoundTrip | src/project_manager/services/project_service.py:425-436 | writing a constructed project and building it back loses only `fe_process_pid` |
| Store.SavedRecordStable | src/project_manager/services/project_service.py:409-436 | a project built from a record, written and built again, is the same project, with name, port, Redis DB and directory as in the record |
| Store.KeyIndex | src/project_manager/services/project_service.py:369 | a key is found exactly when it is in `project_data`, and at the first position holding it |
| Store.Put | src/project_manager/services/project_service.py:358 | definition of `project_data[name] = data` on an insertion-ordered dictionary: an existing key keeps its place and takes the new value, a new key goes last; properties in `Store.PutSpec`, `Store.PutKeepsOthers`, `Store.PutExisting` and `Store.PutNew` |
| Store.PutSpec | src/project_manager/services/project_service.py:358 | `project_data[name] = data` keeps keys distinct, adds its own key and no other, and brings in no value but its own |
| Store.PutKeepsOthers | src/project_manager/services/project_service.py:358 | a store keeps every key and every value under another key, and holds the value stored |
| Store.PutExisting | src/project_manager/services/project_service.py:358 | storing under an existing key replaces the value in place and keeps the keys |
| Store.PutNew | src/project_manager/services/project_service.py:358 | storing under a new key appends it at the end |
| Store.RefreshSaved | src/project_manager/services/project_service.py:322-358 | definition of the refresh of one saved entry; properties in `Store.RefreshSavedSpec`, `Store.RefreshIdempotent` and `Store.RefreshIgnoresUrls` |
| Store.RefreshSavedSpec | src/project_manager/services/project_service.py:317-358 | a saved entry is kept exactly when its directory exists and the layout holds for its saved name; the Redis DB is replaced only by a detected one; the port only by a truthy detected port, with no range check; everything else stays as saved |
| Store.RefreshIdempotent | src/project_manager/services/project_service.py:346-356 | refreshing a refreshed entry against the same filesystem changes nothing |
| Store.RefreshIgnoresUrls | src/project_manager/services/project_service.py:322-358 | the refresh neither reads nor writes the URLs |
| Store.RefresherSettles | src/project_manager/services/project_service.py:317-358 | the refresh keeps names, and its results are its own fixed points |
| Store.LoadSaved | src/project_manager/services/project_service.py:312-361 | definition of the saved-data loop: each saved entry the refresh keeps is stored under its saved name, later entries replacing earlier ones; properties in `Store.LoadSavedSound`, `Store.LoadSavedComplete` and `Store.LoadSavedOfSettled` |
| Store.LoadSavedSound | src/project_manager/services/project_service.py:317-358 | the saved-data loop keeps each name once, and each kept entry is the refresh of some saved entry and a fixed point of the refresh |
| Store.LoadSavedComplete | src/project_manager/services/project_service.py:317-358 | every saved entry the refresh keeps has its name in the result, as its refreshed value when no later kept entry has that name |
| Store.LoadSavedOfSettled | src/project_manager/services/project_service.py:317-358 | entries that are all fixed points, each name once, are kept as they are, in order |
| Store.Qualifies | src/project_manager/services/project_service.py:378-382 | definition of a listed entry discovery takes up: a directory (line 365) holding one of the three layouts for its own name |
| Store.NewRecord | src/project_manager/services/project_service.py:383-405 | definition of the entry built for a new directory; properties in `Store.NewRecordPort`, `Store.NewRecordNames` and `Store.NewRecordSettled` |
| Store.NewRecordPort | src/project_manager/services/project_service.py:384-394 | a new entry keeps a detected valid non-zero port; otherwise it gets `_get_next_port()` of the previous list, a port no project of that list holds |
| Store.NewRecordNames | src/project_manager/services/project_service.py:397-405 | a new entry is named after its directory, has the conventional URLs, and its pretty name is the name with `-` as space, title-cased character by character |
| Store.NewRecordPrettyName | src/project_manager/services/project_service.py:285 | the pretty name keeps the name's length; each `-` becomes a space; the first letter and every letter right after a `-` are upper-cased; a letter right after a letter is lower-cased |
| Store.PrettyNameAt | src/project_manager/services/project_service.py:285 | `name.replace('-', ' ').title()` holds at each position a space for `-`, a letter upper-cased when no letter precedes it and lower-cased when one does, and any other character unchanged |
| Store.Discover | src/project_manager/services/project_service.py:364-405 | definition of the directory loop shared by the three scans, in listing order, for a start `project_data`, a skip rule, the layout test and the entry builder; properties in the `Store.Discover…` lemmas |
| Store.DiscoverFromEmpty | src/project_manager/services/project_service.py:562-604 | a pass from an empty `project_data` that does not skip by key holds each name once: exactly the qualifying listed names its mode does not skip, each with the entry built for it |
| Store.DiscoverFromEmptySound | src/project_manager/services/project_service.py:562-604 | a pass from an empty `project_data` that does not skip by key holds each name once, and only qualifying listed names it does not skip, each with the entry built for it |
| Store.DiscoverFromEmptyCovers | src/project_manager/services/project_service.py:562-604 | such a pass holds every qualifying listed name it does not skip |
| Store.DiscoverPrefix | src/project_manager/services/project_service.py:364-405 | the pass of `_load_projects` keeps the saved entries it starts with in place and only appends |
| Store.DiscoverExtends | src/project_manager/services/project_service.py:364-405 | the pass of `_load_projects` keeps what it started with, in place, and appends qualifying listed names it did not hold, each once, with the entries built for them |
| Store.DiscoverCovers | src/project_manager/services/project_service.py:364-405 | after that pass every starting key and every qualifying listed name is keyed |
| Store.DiscoverOrdered | src/project_manager/services/project_service.py:364-405 | the entries that pass appends come in the order their names first appear in the listing |
| Store.DiscoverAllKeyed | src/project_manager/services/project_service.py:369 | a pass whose qualifying names are all keyed already adds nothing |
| Store.LoadData | src/project_manager/services/project_service.py:304-405 | definition of `project_data` at the end of `_load_projects`: the saved-data loop, then discovery skipping keys already present; properties in `Store.LoadSpec` |
| Store.RescanData | src/project_manager/services/project_service.py:554-604 | definition of `project_data` at the end of `rescan_projects`: discovery from empty, skipping nothing; properties in `Store.RescanSpec` |
| Store.ScanData | src/project_manager/services/project_service.py:237-291 | definition of `project_data` at the end of `_scan_projects_directory`: discovery from empty, skipping tracked names; properties in `Store.ScanSpec` |
| Store.LoadSpec | src/project_manager/services/project_service.py:304-416 | `_load_projects` keeps each name once; first the refreshed saved entries that survive, each coming from the data file, with every surviving saved name present; then a new entry for each qualifying directory not saved, in the order the names first appear in the listing; every qualifying directory is present |
| Store.RescanSpec | src/project_manager/services/project_service.py:554-614 | `rescan_projects` ignores the data file: each name once, exactly the qualifying listed directories, each built afresh |
| Store.ScanSpec | src/project_manager/services/project_service.py:237-302 | `_scan_projects_directory` finds each name once: exactly the qualifying listed directories that no tracked project is named after, each built afresh |
| Store.NewRecordSettled | src/project_manager/services/project_service.py:346-356 | a new entry already agrees with the filesystem, unless its detected port is truthy but outside 1..65535 |
| Store.StrayPortUnsettled | src/project_manager/services/project_service.py:353-356 | a truthy detected port outside 1..65535 is replaced by `_get_next_port()` on discovery, and the next load's refresh puts it back |
| Store.RefresherIgnoresUrls | src/project_manager/services/project_service.py:322-358 | a fixed point of the refresh stays one whatever its URLs |
| Store.RecordsSettled | src/project_manager/services/project_service.py:408-436 | writing out the projects of fixed-point entries gives fixed-point entries with the same keys, each once, that build the same projects |
| Store.LoadSettled | src/project_manager/services/project_service.py:304-416 | after `_load_projects` every entry agrees with the filesystem, unless a new directory's detected port was stray |
| Store.LoadIdempotent | src/project_manager/services/project_service.py:304-416 | loading, saving and loading again against the same filesystem gives the same projects, when no qualifying directory has a stray port |
| Store.PortlessShareNextPort | src/project_manager/services/project_service.py:591-592 | every directory of a rescan without a valid detected port gets the same `_get_next_port()` of the previous list; from an empty list, all of them get 3000 |
| Store.PortlessShareNextPortLoad | src/project_manager/services/project_service.py:392-393 | every directory `_load_projects` adds without a valid detected port gets `_get_next_port()` of the list as it was; from an empty list, as at construction, all of them get 3000 |
| Store.PortlessShareNextPortScan | src/project_manager/services/project_service.py:278-279 | every directory `_scan_projects_directory` finds without a valid detected port gets `_get_next_port()` of the tracked list; from an empty list, all of them get 3000 |
| Store.AppOnlyNotDiscovered | src/project_manager/services/project_service.py:264-268 | a directory with neither `api` nor `<name>-api`, such as one with only `app`, does not qualify, and neither `rescan_projects` nor `_scan_projects_directory` takes it up |
| Store.WwwNextDevPort | src/project_manager/services/project_service.py:62-63 | a directory with `www` and `api` whose `www/package.json` has the dev script `next dev -p N`, N a valid port, qualifies and is given port N |
| Updates.FindIndex | src/project_manager/services/project_service.py:472 | nothing exactly when no project has the name; otherwise the first index whose project has it |
| Updates.FindProject | src/project_manager/services/project_service.py:472 | definition of `next((p for p in self.projects if p.name == name), None)`; properties in `Updates.FindProjectSpec` |
| Updates.FindProjectSpec | src/project_manager/services/project_service.py:462-472 | `get_project` gives None exactly when no project has the name; otherwise the first project with it |
| Updates.ApplyField | src/project_manager/services/project_service.py:512-514 | definition of one `setattr` when `hasattr` holds; properties in `Updates.ApplyFieldSpec` |
| Updates.ApplyFieldSpec | src/project_manager/services/project_service.py:511-515 | one `setattr` changes its own attribute and no other; a key that names no attribute changes nothing |
| Updates.ApplyUpdates | src/project_manager/services/project_service.py:511-515 | definition of the loop over `updates.items()`, in order; properties in `Updates.ApplyUpdatesSpec` and `Updates.ApplyUpdatesPort` |
| Updates.ApplyUpdatesSpec | src/project_manager/services/project_service.py:511-515 | after the loop, an attribute no key names is unchanged, and each named attribute has the value of the last key naming it |
| Updates.ApplyUpdatesUnnamed | src/project_manager/services/project_service.py:511-515 | an attribute that no key of the updates names keeps its value |
| Updates.ApplyUpdatesLastWins | src/project_manager/services/project_service.py:511-515 | an attribute named by a key, and by no later key, ends with that key's value |
| Updates.KnownUpdates | src/project_manager/services/project_service.py:512 | an update is kept exactly when it is one of the updates and its key names an attribute; nothing is added, and updates that all name attributes are kept as they are |
| Updates.KnownUpdatesAppend | src/project_manager/services/project_service.py:511-512 | the filter keeps the order of `updates.items()`: filtering two runs of keys one after the other is filtering each in turn |
| Updates.ApplyIgnoresUnknown | src/project_manager/services/project_service.py:511-515 | dropping the keys `hasattr` rejects gives the same project |
| Updates.LastPortIndex | src/project_manager/services/project_service.py:503-504 | no index exactly when no update sets the port; otherwise the last update that does |
| Updates.RequestedPort | src/project_manager/services/project_service.py:503-504 | definition of `updates['port']` when `'port' in updates`: the value of the last port update |
| Updates.PortHeldByOther | src/project_manager/services/project_service.py:506 | definition of `any(p.port == new_port and p.name != name for p in self.projects)` |
| Updates.ApplyUpdatesPort | src/project_manager/services/project_service.py:503-514 | after the updates the port is the requested one, or unchanged when none is requested |
| Updates.Update | src/project_manager/services/project_service.py:484-525 | definition of `update_project` on a list: the lookup, the port check and the attribute loop; properties in `Updates.UpdateSpec` |
| Updates.UpdateSpec | src/project_manager/services/project_service.py:484-525 | an unknown name gives None and changes nothing; the port error is raised exactly when the name is known and another project holds the requested port, and nothing changes; otherwise exactly the first project with the name becomes the updated value returned, and the requested port is then held by no project of another name |
| Service.ProjectService.constructor | src/project_manager/services/project_service.py:15-18 | a new service holds the projects `_load_projects` makes from an empty list, and the data file holds their records |
| Service.ProjectService.SaveProjects | src/project_manager/services/project_service.py:418-436 | the data file becomes the records of the projects, in order; the list is unchanged |
| Service.ProjectService.BuildProjects | src/project_manager/services/project_service.py:407-410 | the loop builds the projects of the `project_data` values, in order |
| Service.ProjectService.BuildRecord | src/project_manager/services/project_service.py:383-405 | the entry built for a new directory is the one `Store.NewRecord` specifies, with ports allocated against the current list |
| Service.ProjectService.RefreshEntries | src/project_manager/services/project_service.py:312-361 | the saved-data loop gives the ordered `project_data` `Store.LoadSaved` specifies |
| Service.ProjectService.DiscoverOne | src/project_manager/services/project_service.py:364-405 | one directory of the listing is stored exactly when it qualifies and is not passed over, with the entry built for it |
| Service.ProjectService.DiscoverEntries | src/project_manager/services/project_service.py:364-405 | the directory loop gives the `project_data` `Store.Discover` specifies for the given start and mode |
| Service.ProjectService.LoadProjects | src/project_manager/services/project_service.py:304-416 | the project list becomes the projects of `Store.LoadData` for the data file, with ports allocated against the list as it was; the list is saved |
| Service.ProjectService.RescanProjects | src/project_manager/services/project_service.py:554-614 | the project list becomes the projects of `Store.RescanData`, and it is saved |
| Service.ProjectService.ScanProjectsDirectory | src/project_manager/services/project_service.py:237-302 | the projects of `Store.ScanData` are appended to the list, which is saved only when there is at least one; otherwise the data file is untouched |
| Service.ProjectService.AppendProjects | src/project_manager/services/project_service.py:293-297 | the projects built from the values are appended in order, and nothing is saved |
| Service.ProjectService.IndexOf | src/project_manager/services/project_service.py:472 | the loop finds the index `Updates.FindIndex` specifies |
| Service.ProjectService.GetProject | src/project_manager/services/project_service.py:462-472 | `get_project` returns the project `Updates.FindProject` specifies |
| Service.ProjectService.AddProject | src/project_manager/services/project_service.py:474-482 | the project is appended without any check, and the list is saved |
| Service.ProjectService.PortTaken | src/project_manager/services/project_service.py:506 | the loop answers whether a project of another name holds the port |
| Service.ProjectService.UpdateProject | src/project_manager/services/project_service.py:484-525 | the outcome and the new list are those of `Updates.Update`; the list is saved exactly when the project was updated |

## Left out

- Filesystem access, JSON decoding and `iterdir` ordering are inputs, not modelled. The filesystem is a value; parsed package.json files and the lines of readable `.env` files are maps in it; the listing is a sequence in `iterdir` order.
- The data file is its parsed list of seven-field entries, `[]` when it is absent. A file that fails to parse, or an entry without `name` or `directory`, would stop the saved-data loop at the `try`/`except` (lines 314-361); that path is not modelled.
- The temporary-file write, the rename, the re-read that checks the save, the creation of the parent directory and the re-raise of write errors (lines 423-460) are not modelled. `save_projects` is the list of records it writes.
- Logging is not modelled.
- Character handling is ASCII only. Case folding, `\s`, `\d`, `isspace` and `title()` on non-ASCII text are not modelled.
- A package.json is a JSON object. A top-level number, boolean or null makes `'scripts' in data` raise `TypeError` (line 83), which is caught (lines 88-89) so the next candidate is tried, as in the model; so does an array or string containing `scripts`, at `data['scripts']` on line 84. Any other top-level array or string is returned at line 85 and ends the search: an empty one gives no port (lines 104-106), a non-empty one raises `AttributeError` at `.get` (line 109). The model treats every such file as unreadable and goes on to the next candidate.
- `config.port` is a JSON scalar. A float, list or object there, and scripts or `dependencies` that are not strings or objects, are not modelled.
- Extractor.ExtractPortFromScript: CPython's `int()` raises `ValueError` for a digit string longer than its default limit of 4300 digits. Line 44 then moves on to the next pattern, and the `int()` calls at lines 135 and 223 swallow the error the same way. That limit is not modelled: `Text.ParseInt` and the pattern captures give the number however long it is. Below the limit the `ValueError` branch never fires, because the captured `\d+` is ASCII digits only.
- Updates.FieldUpdate: update values have the attribute's type. A key `hasattr` accepts that is not a dataclass field (a method name, `__class__`) is treated like an unknown key.
- Service.ProjectService.UpdateProject: the returned project is a value. The aliasing between it and the element of `self.projects` that Python mutates in place is not modelled, and neither are other references to that object.
- `_get_next_redis_db` has no caller in the service. It is modelled (`Allocator.NextRedisDb`) but not connected to discovery, which takes the detected Redis DB as it is.
- `_is_laravel_project` (lines 176-186) is not part of this model. Nothing in the core calls it.
- `PROJECTS_DIR` not existing (where `iterdir` raises) is not modelled.
- `fe_process_pid`, the live process id, is kept on projects but never written to the data file, as in the source.
