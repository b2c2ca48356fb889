/**
 * `fileUtils` (src/fileUtils.js): the log store. A log file is a partition
 * `logs/<router>/<file>`; the file system is a map from (router, file name)
 * to the file's text, and the directory tree `getLogFiles` walks is handed
 * in as the listing and stat results it would read.
 */
module FileUtils {
  import opened Wrappers
  import opened Text
  import opened RouterState

  /** `CONFIG.LOG_BASE_DIR`. */
  const LogBaseDir := "logs"

  /** `path.join(a, b)` for a relative `a` and a plain name `b`. */
  function JoinPath(a: string, b: string): string
  {
    a + "/" + b
  }

  /** `{ router, file, path }` as `getLogFiles` lists it. */
  datatype LogFile = LogFile(router: string, file: string, path: string)

  /** `{ router, file, content }`: one line of a log file. */
  datatype LogLine = LogLine(router: string, file: string, content: string)

  /** What `fs.stat` on a directory entry reports: a failure, a non-directory, or a directory with the result of listing it. */
  datatype StatResult = StatFailed | NotDirectory | Directory(listing: Option<seq<string>>)

  datatype DirEntry = DirEntry(name: string, stat: StatResult)

  /** The `.log` names of one router directory, in listing order, as records. */
  function LogFilesIn(directory: string, router: string, names: seq<string>): (files: seq<LogFile>)
    ensures forall f :: f in files <==>
      (f.router == router && f.file in names && EndsWith(f.file, ".log")
       && f.path == JoinPath(JoinPath(directory, router), f.file))
    decreases |names|
  {
    if names == [] then []
    else
      var n := names[0];
      var rest := LogFilesIn(directory, router, names[1..]);
      assert forall x :: x in names <==> x == n || x in names[1..];
      if EndsWith(n, ".log") then [LogFile(router, n, JoinPath(JoinPath(directory, router), n))] + rest else rest
  }

  /** The records of a walk over `entries`, or `None` when a stat or a listing fails. */
  function Scan(directory: string, entries: seq<DirEntry>): Option<seq<LogFile>>
  {
    if entries == [] then Some([])
    else
      match Scan(directory, entries[..|entries| - 1])
      case None => None
      case Some(before) =>
        var e := entries[|entries| - 1];
        match e.stat
        case StatFailed => None
        case NotDirectory => Some(before)
        case Directory(None) => None
        case Directory(Some(names)) => Some(before + LogFilesIn(directory, e.name, names))
  }

  /** An entry whose stat or listing fails. */
  predicate Broken(e: DirEntry)
  {
    e.stat == StatFailed || e.stat == Directory(None)
  }

  /** The walk fails exactly when some entry is broken. */
  lemma {:induction false} ScanFailsIff(directory: string, entries: seq<DirEntry>)
    ensures Scan(directory, entries).None? <==> exists i :: 0 <= i < |entries| && Broken(entries[i])
    decreases |entries|
  {
    if entries != [] {
      var init := entries[..|entries| - 1];
      ScanFailsIff(directory, init);
      if exists i :: 0 <= i < |init| && Broken(init[i]) {
        var i :| 0 <= i < |init| && Broken(init[i]);
        assert Broken(entries[i]);
      }
      if exists i :: 0 <= i < |entries| && Broken(entries[i]) {
        var i :| 0 <= i < |entries| && Broken(entries[i]);
        if i < |entries| - 1 {
          assert Broken(init[i]);
        }
      }
    }
  }

  /**
   * A successful walk lists exactly the `.log` files of the directory
   * entries, each tagged with its directory's name as the router.
   */
  lemma {:induction false} ScanMembers(directory: string, entries: seq<DirEntry>, f: LogFile)
    requires Scan(directory, entries).Some?
    ensures f in Scan(directory, entries).value
            <==> exists i :: 0 <= i < |entries| && entries[i].stat.Directory? && entries[i].stat.listing.Some?
                             && f in LogFilesIn(directory, entries[i].name, entries[i].stat.listing.value)
    decreases |entries|
  {
    if entries != [] {
      var init := entries[..|entries| - 1];
      var last := entries[|entries| - 1];
      ScanMembers(directory, init, f);
      if exists i :: 0 <= i < |init| && init[i].stat.Directory? && init[i].stat.listing.Some?
                     && f in LogFilesIn(directory, init[i].name, init[i].stat.listing.value) {
        var i :| 0 <= i < |init| && init[i].stat.Directory? && init[i].stat.listing.Some?
                 && f in LogFilesIn(directory, init[i].name, init[i].stat.listing.value);
        assert entries[i] == init[i];
      }
      if exists i :: 0 <= i < |entries| && entries[i].stat.Directory? && entries[i].stat.listing.Some?
                     && f in LogFilesIn(directory, entries[i].name, entries[i].stat.listing.value) {
        var i :| 0 <= i < |entries| && entries[i].stat.Directory? && entries[i].stat.listing.Some?
                 && f in LogFilesIn(directory, entries[i].name, entries[i].stat.listing.value);
        if i < |entries| - 1 {
          assert init[i] == entries[i];
        }
      }
    }
  }

  /** Once a prefix of the walk has failed, the whole walk fails. */
  lemma {:induction false} ScanFailurePersists(directory: string, entries: seq<DirEntry>, k: nat)
    requires k <= |entries| && Scan(directory, entries[..k]).None?
    ensures Scan(directory, entries).None?
    decreases |entries| - k
  {
    if k < |entries| {
      assert entries[..k + 1][..k] == entries[..k];
      ScanFailurePersists(directory, entries, k + 1);
    } else {
      assert entries[..k] == entries;
    }
  }

  /** What `getLogFiles(directory)` resolves to: the walk's records, or `[]` when anything failed. */
  function LogFilesOrEmpty(directory: string, top: Option<seq<DirEntry>>): seq<LogFile>
  {
    match top
    case None => []
    case Some(entries) => match Scan(directory, entries) case None => [] case Some(files) => files
  }

  /**
   * `getLogFiles(directory)`: walks the entries of `directory` (`top` is the
   * result of listing it, `None` when that fails), keeping each directory's
   * `.log` files; any failure makes the result `[]`.
   */
  method GetLogFiles(directory: string, top: Option<seq<DirEntry>>) returns (allFiles: seq<LogFile>)
    ensures allFiles == LogFilesOrEmpty(directory, top)
  {
    if top.None? {
      return [];
    }
    var entries := top.value;
    allFiles := [];
    var i := 0;
    while i < |entries|
      invariant 0 <= i <= |entries|
      invariant Scan(directory, entries[..i]) == Some(allFiles)
    {
      var e := entries[i];
      assert entries[..i + 1][..i] == entries[..i];
      assert entries[..i + 1][i] == e;
      match e.stat {
        case StatFailed =>
          ScanFailurePersists(directory, entries, i + 1);
          return [];
        case NotDirectory =>
        case Directory(listing) =>
          if listing.None? {
            ScanFailurePersists(directory, entries, i + 1);
            return [];
          }
          allFiles := allFiles + LogFilesIn(directory, e.name, listing.value);
      }
      i := i + 1;
    }
    assert entries[..i] == entries;
  }

  /** `data.split('\n')`. */
  function Lines(content: string): seq<string>
  {
    Split(content, "\n")
  }

  /** `line.trim()` is truthy. */
  predicate NonBlank(line: string)
  {
    Trim(line) != ""
  }

  /** The non-blank lines of a text, in order. */
  function NonBlankLines(content: string): seq<string>
  {
    Filter(Lines(content), NonBlank)
  }

  /** `lines.map(line => ({ router, file, content: line }))`. */
  function Tagged(f: LogFile, lines: seq<string>): (r: seq<LogLine>)
    ensures |r| == |lines|
    ensures forall k :: 0 <= k < |r| ==> r[k] == LogLine(f.router, f.file, lines[k])
  {
    seq(|lines|, k requires 0 <= k < |lines| => LogLine(f.router, f.file, lines[k]))
  }

  /** The stored text of a partition, `None` when reading it fails. */
  function Content(f: LogFile, contents: map<(string, string), string>): Option<string>
  {
    if (f.router, f.file) in contents then Some(contents[(f.router, f.file)]) else None
  }

  /** `readLogFile(fileInfo)`: the non-blank lines of the file, tagged; `[]` when the read fails. */
  function ReadLogFile(f: LogFile, contents: map<(string, string), string>): seq<LogLine>
  {
    match Content(f, contents)
    case None => []
    case Some(text) => Tagged(f, NonBlankLines(text))
  }

  /** `searchInFile(fileInfo, query)`: the non-blank lines that contain `query`, tagged; `[]` when the read fails. */
  function SearchInFile(f: LogFile, query: string, contents: map<(string, string), string>): seq<LogLine>
  {
    match Content(f, contents)
    case None => []
    case Some(text) => Tagged(f, Filter(Lines(text), (line: string) => NonBlank(line) && Contains(line, query)))
  }

  /** Tagging commutes with a filter on the line text. */
  lemma {:induction false} TaggedFilter(f: LogFile, lines: seq<string>, p: string -> bool, q: LogLine -> bool)
    requires forall l :: q(l) <==> p(l.content)
    ensures Filter(Tagged(f, lines), q) == Tagged(f, Filter(lines, p))
    decreases |lines|
  {
    if lines != [] {
      TaggedFilter(f, lines[1..], p, q);
      assert Tagged(f, lines)[1..] == Tagged(f, lines[1..]);
      var head := if p(lines[0]) then [lines[0]] else [];
      assert Tagged(f, head + Filter(lines[1..], p)) == Tagged(f, head) + Tagged(f, Filter(lines[1..], p));
    }
  }

  /**
   * Every line `readLogFile` returns is a non-blank line of the file, with no
   * newline in it, tagged with the file's router and name; and every
   * non-blank line of the file is returned.
   */
  lemma ReadLogFileLines(f: LogFile, contents: map<(string, string), string>, l: LogLine)
    requires Content(f, contents).Some?
    ensures var text := Content(f, contents).value;
            l in ReadLogFile(f, contents)
            <==> l.router == f.router && l.file == f.file && l.content in Lines(text) && NonBlank(l.content)
    ensures l in ReadLogFile(f, contents) ==> !Contains(l.content, "\n")
  {
    var text := Content(f, contents).value;
    FilterMember(Lines(text), NonBlank, l.content);
    var r := ReadLogFile(f, contents);
    if l in r {
      var k :| 0 <= k < |r| && r[k] == l;
      assert l.content in NonBlankLines(text);
      var j :| 0 <= j < |Lines(text)| && Lines(text)[j] == l.content;
      SplitPiecesAvoidSeparator(text, "\n", j);
    }
    if l.router == f.router && l.file == f.file && l.content in NonBlankLines(text) {
      var k :| 0 <= k < |NonBlankLines(text)| && NonBlankLines(text)[k] == l.content;
      assert r[k] == l;
    }
  }

  /** `searchInFile` keeps exactly the `readLogFile` lines that contain the query, in order. */
  lemma SearchIsFilteredRead(f: LogFile, query: string, contents: map<(string, string), string>)
    ensures SearchInFile(f, query, contents) == Filter(ReadLogFile(f, contents), (l: LogLine) => Contains(l.content, query))
  {
    if Content(f, contents).Some? {
      var text := Content(f, contents).value;
      var matches := (line: string) => Contains(line, query);
      FilterFilter(Lines(text), NonBlank, matches, (line: string) => NonBlank(line) && Contains(line, query));
      TaggedFilter(f, NonBlankLines(text), matches, (l: LogLine) => Contains(l.content, query));
    }
  }

  /** With an empty query `searchInFile` returns every line `readLogFile` does. */
  lemma SearchEmptyQuery(f: LogFile, contents: map<(string, string), string>)
    ensures SearchInFile(f, "", contents) == ReadLogFile(f, contents)
  {
    SearchIsFilteredRead(f, "", contents);
    var r := ReadLogFile(f, contents);
    forall k | 0 <= k < |r| ensures Contains(r[k].content, "") {
      assert OccursAt(r[k].content, "", 0);
      ContainsIff(r[k].content, "");
    }
    FilterKeepsAll(r, (l: LogLine) => Contains(l.content, ""));
  }

  /**
   * Appending to a text that is empty or ends in a newline adds the
   * appended text's non-blank lines after the old ones.
   */
  lemma AppendedLines(existing: string, data: string)
    requires existing == "" || EndsWith(existing, "\n")
    ensures NonBlankLines(existing + data) == NonBlankLines(existing) + NonBlankLines(data)
  {
    if existing == "" {
      assert existing + data == data;
      assert Lines(existing) == [""];
    } else {
      var front := existing[..|existing| - 1];
      assert existing == front + "\n";
      AppendAfterNewline(front, data);
    }
  }

  lemma AppendAfterNewline(front: string, data: string)
    ensures NonBlankLines(front + "\n" + data) == NonBlankLines(front + "\n") + NonBlankLines(data)
  {
    LinesAppend(front, data);
    LinesAppend(front, "");
    assert front + "\n" + "" == front + "\n";
    assert NonBlankLines("") == [];
  }

  /** Joining two texts with a newline joins their non-blank lines. */
  lemma LinesAppend(front: string, data: string)
    ensures NonBlankLines(front + "\n" + data) == NonBlankLines(front) + NonBlankLines(data)
  {
    SplitAppend(front, data, "\n");
    FilterAppend(Lines(front), Lines(data), NonBlank);
  }

  /** What `fs.access`, `fs.mkdir` and `fs.writeFile` will do in one call of `writeToFile`. */
  datatype WriteFaults = WriteFaults(mkdirFails: set<string>, appendFails: bool)

  /** How `writeToFile` ends: appended, append failed and was logged, or a directory could not be created and the call rejects. */
  datatype WriteOutcome = Written | AppendFailed | DirectoryFailed

  /** The text of a partition before an append; a missing file is created empty. */
  function Existing(files: map<(string, string), string>, router: string, file: string): string
  {
    if (router, file) in files then files[(router, file)] else ""
  }

  /** The directory of a router's partitions. */
  function RouterDir(router: string): string
  {
    JoinPath(LogBaseDir, router)
  }

  /** Making sure `dir` exists succeeds: it is already there, or creating it does not fail. */
  predicate Creatable(dirs: set<string>, dir: string, mkdirFails: set<string>)
  {
    dir in dirs || dir !in mkdirFails
  }

  /**
   * The directories after `writeToFile` for `router`: `logs` once it can be
   * made, and `logs/<router>` only once both can.
   */
  function DirsAfterWrite(dirs: set<string>, router: string, mkdirFails: set<string>): (after: set<string>)
    ensures dirs <= after <= dirs + {LogBaseDir, RouterDir(router)}
    ensures LogBaseDir in after <==> Creatable(dirs, LogBaseDir, mkdirFails)
    ensures RouterDir(router) in after
            <==> RouterDir(router) in dirs
                 || (Creatable(dirs, LogBaseDir, mkdirFails) && Creatable(dirs, RouterDir(router), mkdirFails))
  {
    if !Creatable(dirs, LogBaseDir, mkdirFails) then dirs
    else if !Creatable(dirs, RouterDir(router), mkdirFails) then dirs + {LogBaseDir}
    else dirs + {LogBaseDir, RouterDir(router)}
  }

  /**
   * Once a write for `router` got past both directories, they exist, so no
   * later write for that router can fail on them, whatever creations fail then.
   */
  lemma DirectoriesStay(dirs: set<string>, router: string, mkdirFails: set<string>, laterFails: set<string>)
    requires Creatable(dirs, LogBaseDir, mkdirFails) && Creatable(dirs, RouterDir(router), mkdirFails)
    ensures var after := DirsAfterWrite(dirs, router, mkdirFails);
            Creatable(after, LogBaseDir, laterFails) && Creatable(after, RouterDir(router), laterFails)
            && DirsAfterWrite(after, router, laterFails) == after
  {
  }

  class LogStore {
    /** The text of every partition. */
    var files: map<(string, string), string>
    /** The directories that exist. */
    var dirs: set<string>

    constructor()
      ensures files == map[] && dirs == {}
    {
      files := map[];
      dirs := {};
    }

    /** `ensureDirectoryExists(dirPath)`: creates the directory when it is missing; rejects when that creation fails. */
    method EnsureDirectoryExists(dir: string, mkdirFails: set<string>) returns (ok: bool)
      modifies this
      ensures ok <==> dir in old(dirs) || dir !in mkdirFails
      ensures dirs == if ok then old(dirs) + {dir} else old(dirs)
      ensures files == old(files)
    {
      if dir in dirs {
        return true;
      }
      if dir in mkdirFails {
        return false;
      }
      dirs := dirs + {dir};
      return true;
    }

    /**
     * `writeToFile(routerAddress, filename, newData)`: makes sure `logs` and
     * `logs/<router>` exist (a failure there is not caught and rejects the
     * call), then appends `newData` to the partition and bumps the router's
     * `saveCount`. A failed append is only logged: the files and the counts
     * stay as they were, though the directories may have been created.
     */
    method WriteToFile(router: string, filename: string, data: string, stats: State, faults: WriteFaults, now: int)
      returns (outcome: WriteOutcome)
      requires stats.Valid()
      modifies this, stats
      ensures stats.Valid()
      ensures var baseOk := LogBaseDir in old(dirs) || LogBaseDir !in faults.mkdirFails;
              var routerOk := RouterDir(router) in old(dirs) || RouterDir(router) !in faults.mkdirFails;
              && (outcome == DirectoryFailed <==> !(baseOk && routerOk))
              && (outcome == AppendFailed <==> baseOk && routerOk && faults.appendFails)
      ensures dirs == DirsAfterWrite(old(dirs), router, faults.mkdirFails)
      ensures outcome == Written ==>
                && files == old(files)[(router, filename) := Existing(old(files), router, filename) + data]
                && stats.routers == old(stats.routers)[router := Bump(
                     if router in old(stats.routers) then old(stats.routers)[router] else Fresh(now), false, true, now)]
                && stats.order == if router in old(stats.routers) then old(stats.order) else old(stats.order) + [router]
      ensures outcome != Written ==>
                files == old(files) && stats.routers == old(stats.routers) && stats.order == old(stats.order)
      ensures stats.startTime == old(stats.startTime)
    {
      var baseOk := EnsureDirectoryExists(LogBaseDir, faults.mkdirFails);
      if !baseOk {
        return DirectoryFailed;
      }
      var routerOk := EnsureDirectoryExists(RouterDir(router), faults.mkdirFails);
      if !routerOk {
        return DirectoryFailed;
      }
      if faults.appendFails {
        return AppendFailed;
      }
      files := files[(router, filename) := Existing(files, router, filename) + data];
      stats.UpdateRouterStats(router, false, true, now);
      return Written;
    }
  }

  /**
   * Reading a partition after an append to it returns the lines it had, then
   * the appended text's non-blank lines, as long as the partition was empty
   * or ended in a newline.
   */
  lemma ReadAfterAppend(f: LogFile, contents: map<(string, string), string>, data: string)
    requires var before := Existing(contents, f.router, f.file); before == "" || EndsWith(before, "\n")
    ensures var key := (f.router, f.file);
            ReadLogFile(f, contents[key := Existing(contents, f.router, f.file) + data])
            == ReadLogFile(f, contents) + Tagged(f, NonBlankLines(data))
  {
    var existing := Existing(contents, f.router, f.file);
    AppendedLines(existing, data);
    var a, b := NonBlankLines(existing), NonBlankLines(data);
    assert Tagged(f, a + b) == Tagged(f, a) + Tagged(f, b);
    if (f.router, f.file) !in contents {
      assert Lines("") == [""];
      assert a == [];
    }
  }
}
