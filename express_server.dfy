/**
 * The query side of the HTTP API (src/expressServer.js), as functions from
 * the partition list `getLogFiles` produced and the stored texts to the
 * reply. A reply is its body or the status it answers with.
 */
module ExpressServer {
  import opened Wrappers
  import opened Text
  import opened FileUtils

  /** The reply of a route: a 200 body, a 400 or a 404 with its error message. */
  datatype Reply<T> = Sent(body: T) | BadRequest(error: string) | NotFound(error: string)

  const QueryRequired := "Query parameter is required"
  const RouterMissing := "Router not found or has no logs"

  /** `!query` for `req.query.query`: absent or empty. */
  predicate MissingQuery(query: Option<string>)
  {
    query.None? || query.value == ""
  }

  /** `[...new Set(xs)]`: the distinct elements, in order of first appearance. */
  function Distinct(xs: seq<string>): (d: seq<string>)
    ensures forall x :: x in d <==> x in xs
    ensures forall i, j :: 0 <= i < j < |d| ==> d[i] != d[j]
  {
    if xs == [] then []
    else
      var before := Distinct(xs[..|xs| - 1]);
      var last := xs[|xs| - 1];
      assert forall x :: x in xs <==> x in xs[..|xs| - 1] || x == last;
      if last in before then before else before + [last]
  }

  /** The index of the first occurrence of `x` in `xs`. */
  function FirstIndex(xs: seq<string>, x: string): (r: nat)
    requires x in xs
    ensures r < |xs| && xs[r] == x && x !in xs[..r]
  {
    if xs[0] == x then 0
    else
      var r := FirstIndex(xs[1..], x);
      assert xs[..r + 1] == [xs[0]] + xs[1..][..r];
      r + 1
  }

  /** Extending a sequence does not move the first occurrence of an element it already had. */
  lemma FirstIndexExtend(xs: seq<string>, y: string, x: string)
    requires x in xs
    ensures FirstIndex(xs + [y], x) == FirstIndex(xs, x)
  {
    var r1, r2 := FirstIndex(xs + [y], x), FirstIndex(xs, x);
    assert (xs + [y])[r2] == x;
  }

  /** The elements of `d`, all taken from `xs`, are listed in the order in which they first appear in `xs`. */
  ghost predicate InFirstAppearanceOrder(d: seq<string>, xs: seq<string>)
  {
    && (forall x :: x in d ==> x in xs)
    && (forall i, j :: 0 <= i < j < |d| ==> FirstIndex(xs, d[i]) < FirstIndex(xs, d[j]))
  }

  /** `[...new Set(xs)]` lists the elements in the order in which they first appear. */
  lemma {:induction false} DistinctInFirstAppearanceOrder(xs: seq<string>)
    ensures InFirstAppearanceOrder(Distinct(xs), xs)
    decreases |xs|
  {
    if xs != [] {
      var init, last := xs[..|xs| - 1], xs[|xs| - 1];
      assert xs == init + [last];
      DistinctInFirstAppearanceOrder(init);
      var before, d := Distinct(init), Distinct(xs);
      forall x | x in before ensures FirstIndex(xs, x) == FirstIndex(init, x) {
        FirstIndexExtend(init, last, x);
      }
      if last !in before {
        assert FirstIndex(xs, last) == |init| by {
          assert xs[..|init|] == init;
        }
        forall i, j | 0 <= i < j < |d| ensures FirstIndex(xs, d[i]) < FirstIndex(xs, d[j]) {
          assert d == before + [last];
          assert d[i] == before[i] && before[i] in before;
          FirstIndexExtend(init, last, before[i]);
          if j < |before| {
            assert d[j] == before[j] && before[j] in before;
            FirstIndexExtend(init, last, before[j]);
          } else {
            assert d[j] == last;
            assert FirstIndex(init, before[i]) < |init|;
          }
        }
      }
    }
  }

  /** A sequence without repetitions has as many elements as its set. */
  lemma {:induction false} DistinctCardinality(xs: seq<string>)
    requires forall i, j :: 0 <= i < j < |xs| ==> xs[i] != xs[j]
    ensures |set x | x in xs| == |xs|
    decreases |xs|
  {
    if xs != [] {
      var init, last := xs[..|xs| - 1], xs[|xs| - 1];
      DistinctCardinality(init);
      assert last !in init by {
        forall i | 0 <= i < |init| ensures init[i] != last {
          assert xs[i] != xs[|xs| - 1];
        }
      }
      assert (set x | x in xs) == (set x | x in init) + {last} by {
        assert xs == init + [last];
      }
    }
  }

  /** `logFiles.map(file => file.router)`. */
  function RouterNames(files: seq<LogFile>): (names: seq<string>)
    ensures |names| == |files| && forall k :: 0 <= k < |files| ==> names[k] == files[k].router
  {
    seq(|files|, k requires 0 <= k < |files| => files[k].router)
  }

  /** `GET /routers`: the distinct router names of the partitions. */
  function Routers(files: seq<LogFile>): seq<string>
  {
    Distinct(RouterNames(files))
  }

  /**
   * `GET /routers` names each router that has a partition exactly once, in
   * order of its first partition.
   */
  lemma RoutersListed(files: seq<LogFile>)
    ensures var r := Routers(files);
            && (forall name :: name in r <==> exists f :: f in files && f.router == name)
            && (forall i, j :: 0 <= i < j < |r| ==> r[i] != r[j])
            && InFirstAppearanceOrder(r, RouterNames(files))
  {
    var names := RouterNames(files);
    DistinctInFirstAppearanceOrder(names);
    assert Routers(files) == Distinct(names);
    forall name ensures name in names <==> exists f :: f in files && f.router == name {
      if name in names {
        var k :| 0 <= k < |names| && names[k] == name;
        assert files[k] in files;
      }
    }
  }

  /** The counts `GET /summary` reports next to the disk figures. */
  datatype SummaryCounts = SummaryCounts(routers: nat, totalLogs: nat, uptime: int)

  /** `GET /summary` without the disk: distinct routers, partition files, and whole seconds since start. */
  function Summary(files: seq<LogFile>, startTime: int, now: int): SummaryCounts
  {
    SummaryCounts(|Routers(files)|, |files|, (now - startTime) / 1000)
  }

  /**
   * `routers` is the number of distinct router names, `totalLogs` the number
   * of partition files (not lines), and `uptime` the elapsed seconds
   * rounded down.
   */
  lemma SummaryMeaning(files: seq<LogFile>, startTime: int, now: int)
    ensures var s := Summary(files, startTime, now);
            && s.routers == |set f | f in files :: f.router|
            && s.totalLogs == |files|
            && 1000 * s.uptime <= now - startTime < 1000 * (s.uptime + 1)
  {
    var names := RouterNames(files);
    DistinctCardinality(Distinct(names));
    assert (set x | x in Distinct(names)) == set f | f in files :: f.router by {
      forall x | x in Distinct(names) ensures x in set f | f in files :: f.router {
        var k :| 0 <= k < |names| && names[k] == x;
        assert files[k] in files;
      }
    }
  }

  /** `Promise.all(files.map(f => searchInFile(f, query))).flat()`. */
  function SearchAcross(files: seq<LogFile>, query: string, contents: map<(string, string), string>): seq<LogLine>
  {
    if files == [] then [] else SearchInFile(files[0], query, contents) + SearchAcross(files[1..], query, contents)
  }

  /** `Promise.all(files.map(readLogFile)).flat()`. */
  function ReadAcross(files: seq<LogFile>, contents: map<(string, string), string>): seq<LogLine>
  {
    if files == [] then [] else ReadLogFile(files[0], contents) + ReadAcross(files[1..], contents)
  }

  /** Searching several partitions keeps exactly the lines of reading them that contain the query, in order. */
  lemma {:induction false} SearchAcrossIsFilteredRead(files: seq<LogFile>, query: string, contents: map<(string, string), string>)
    ensures SearchAcross(files, query, contents)
            == Filter(ReadAcross(files, contents), (l: LogLine) => Contains(l.content, query))
    decreases |files|
  {
    if files != [] {
      SearchAcrossIsFilteredRead(files[1..], query, contents);
      SearchIsFilteredRead(files[0], query, contents);
      FilterAppend(ReadLogFile(files[0], contents), ReadAcross(files[1..], contents),
                   (l: LogLine) => Contains(l.content, query));
    }
  }

  /** A line read from several partitions is a line read from one of them. */
  lemma {:induction false} ReadAcrossMember(files: seq<LogFile>, contents: map<(string, string), string>, l: LogLine)
    ensures l in ReadAcross(files, contents) <==> exists f :: f in files && l in ReadLogFile(f, contents)
    decreases |files|
  {
    if files != [] {
      ReadAcrossMember(files[1..], contents, l);
      if exists f :: f in files[1..] && l in ReadLogFile(f, contents) {
        var f :| f in files[1..] && l in ReadLogFile(f, contents);
        assert f in files;
      }
      if exists f :: f in files && l in ReadLogFile(f, contents) {
        var f :| f in files && l in ReadLogFile(f, contents);
        if f != files[0] {
          assert f in files[1..];
        }
      }
    }
  }

  /** `GET /search?query=…`: 400 without a query, otherwise every matching line of every partition. */
  function SearchAll(query: Option<string>, files: seq<LogFile>, contents: map<(string, string), string>): Reply<seq<LogLine>>
  {
    if MissingQuery(query) then BadRequest(QueryRequired) else Sent(SearchAcross(files, query.value, contents))
  }

  /**
   * `GET /search` answers 400 exactly when the query is absent or empty;
   * otherwise its lines are those of all partitions, in partition order,
   * that contain the query.
   */
  lemma SearchAllMeaning(query: Option<string>, files: seq<LogFile>, contents: map<(string, string), string>)
    ensures SearchAll(query, files, contents).BadRequest? <==> MissingQuery(query)
    ensures !MissingQuery(query) ==>
              SearchAll(query, files, contents)
              == Sent(Filter(ReadAcross(files, contents), (l: LogLine) => Contains(l.content, query.value)))
  {
    if !MissingQuery(query) {
      SearchAcrossIsFilteredRead(files, query.value, contents);
    }
  }

  /** `logFiles.filter(f => f.router === routerId)`. */
  function FilesOf(routerId: string, files: seq<LogFile>): (mine: seq<LogFile>)
    ensures forall f :: f in mine <==> f in files && f.router == routerId
  {
    var mine := Filter(files, (f: LogFile) => f.router == routerId);
    forall f ensures f in mine <==> f in files && f.router == routerId {
      FilterMember(files, (f: LogFile) => f.router == routerId, f);
    }
    mine
  }

  /** `GET /router/:routerId/search?query=…`: 400 without a query, 404 without partitions, otherwise the matching lines. */
  function RouterSearch(routerId: string, query: Option<string>, files: seq<LogFile>, contents: map<(string, string), string>)
    : Reply<seq<LogLine>>
  {
    if MissingQuery(query) then BadRequest(QueryRequired)
    else
      var mine := FilesOf(routerId, files);
      if |mine| == 0 then NotFound(RouterMissing) else Sent(SearchAcross(mine, query.value, contents))
  }

  /** `GET /router/:routerId`: 404 without partitions, otherwise every line of every partition of the router. */
  function RouterLogs(routerId: string, files: seq<LogFile>, contents: map<(string, string), string>): Reply<seq<LogLine>>
  {
    var mine := FilesOf(routerId, files);
    if |mine| == 0 then NotFound(RouterMissing) else Sent(ReadAcross(mine, contents))
  }

  /** Lines read from a router's partitions carry that router's name. */
  lemma OnlyRoutersLines(routerId: string, files: seq<LogFile>, contents: map<(string, string), string>, l: LogLine)
    requires l in ReadAcross(FilesOf(routerId, files), contents)
    ensures l.router == routerId
  {
    ReadAcrossMember(FilesOf(routerId, files), contents, l);
    var f :| f in FilesOf(routerId, files) && l in ReadLogFile(f, contents);
    var r := ReadLogFile(f, contents);
    var k :| 0 <= k < |r| && r[k] == l;
  }

  /**
   * `GET /router/:routerId` answers 404 exactly when the router has no
   * partition; otherwise its lines are exactly the lines of the router's
   * partitions, all carrying the router's name.
   */
  lemma RouterLogsMeaning(routerId: string, files: seq<LogFile>, contents: map<(string, string), string>)
    ensures RouterLogs(routerId, files, contents).NotFound? <==> forall f :: f in files ==> f.router != routerId
    ensures RouterLogs(routerId, files, contents).Sent? ==>
              forall l :: l in RouterLogs(routerId, files, contents).body
                          <==> l.router == routerId && exists f :: f in files && f.router == routerId && l in ReadLogFile(f, contents)
  {
    var mine := FilesOf(routerId, files);
    if exists f :: f in files && f.router == routerId {
      var f :| f in files && f.router == routerId;
      assert f in mine;
    }
    forall l ensures l in ReadAcross(mine, contents)
                     <==> l.router == routerId && exists f :: f in files && f.router == routerId && l in ReadLogFile(f, contents) {
      ReadAcrossMember(mine, contents, l);
      if l in ReadAcross(mine, contents) {
        OnlyRoutersLines(routerId, files, contents, l);
      }
    }
  }

  /**
   * `GET /router/:routerId/search` answers 400 for a missing query before
   * anything else, then 404 exactly when `GET /router/:routerId` does;
   * otherwise it returns that route's lines that contain the query, which
   * may be none.
   */
  lemma RouterSearchMeaning(routerId: string, query: Option<string>, files: seq<LogFile>, contents: map<(string, string), string>)
    ensures RouterSearch(routerId, query, files, contents).BadRequest? <==> MissingQuery(query)
    ensures !MissingQuery(query) ==>
              (RouterSearch(routerId, query, files, contents).NotFound? <==> RouterLogs(routerId, files, contents).NotFound?)
    ensures !MissingQuery(query) && RouterLogs(routerId, files, contents).Sent? ==>
              RouterSearch(routerId, query, files, contents)
              == Sent(Filter(RouterLogs(routerId, files, contents).body, (l: LogLine) => Contains(l.content, query.value)))
  {
    if !MissingQuery(query) {
      SearchAcrossIsFilteredRead(FilesOf(routerId, files), query.value, contents);
    }
  }
}
