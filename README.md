# Nodejs-SysLog, modelled in Dafny

Nodejs-SysLog collects connection-tracking syslog lines from MikroTik routers.
It keeps the `prerouting` ones that name a PPPoE subscriber (`in:<user>`).
Each kept line becomes one comma-separated record, appended to an hourly
log file per router (`logs/<router>/<DD-MM-YY H-00 AM|PM>.log`). An HTTP
API lists and searches those files, and a browser page loads, filters,
pages and exports the records.

The model follows the program file by file, one Dafny module per source file:

| module | file | source |
|---|---|---|
| `Wrappers` | wrappers.dfy | `Option` and `Result` |
| `Text` | text.dfy | the JavaScript string and array built-ins the program relies on: `split` (including an empty first or last piece), `join`, `indexOf`/`includes`, `trim` (the JavaScript whitespace set), `toLowerCase` (ASCII), `String(n)`, `padStart(2, '0')`, `slice(-2)` and `filter` |
| `StringUtils` | string_utils.dfy | `cut` (src/stringUtils.js; index.js:162-171 is the same text and uses the same function) |
| `SyslogProcessor` | syslog_processor.dfy | `processMessage`, `formatLogLine` and `ip_port_to_ip_and_port` (src/syslogProcessor.js) |
| `Legacy` | legacy.dfy | the older processor and the latest-file route of index.js |
| `TimeUtils` | time_utils.dfy | `formatDate`, the UTC fields of an instant, `getFormattedFilename` and `formatUptime` (src/timeUtils.js) |
| `RouterState` | router_state.dfy | class `State` (src/state.js) |
| `FileUtils` | file_utils.dfy | `getLogFiles` (a loop over a directory listing), `readLogFile`, `searchInFile`, and class `LogStore` for `ensureDirectoryExists` and `writeToFile` (src/fileUtils.js) |
| `SyslogServer` | syslog_server.dfy | `handleSyslogMessage` (src/syslogServer.js) |
| `ExpressServer` | express_server.dfy | `/summary` counts, `/routers`, `/search`, `/router/:routerId/search` and `/router/:routerId` as functions from the file list to a reply |
| `IpLookup` | ip_lookup.dfy | the session map, `lookupUsernameByIP`, and class `RequestRegistry` for `ongoingRequests` and `hasOngoingRequest` (src/ipLookup.js) |
| `ClientCsv` | client_csv.dfy | `parseCSVLine` (a loop), the record built from its fields, and `convertToCSV` (public/script.js) |
| `ClientTable` | client_table.dfy | the search box, page slices, `updatePagination` (a loop), `updateRangeInfo`, and class `LogView` for the page-level variables and their handlers (public/script.js) |
| `Summary` | summary.dfy | the dashboard's `formatUptime` (public/summary.js) |
| `UserAccounts` | user_manager.dfy | class `UserManager` (src/userManager.js) |

Inputs the program reads from the environment are parameters:
- the current instant, in epoch milliseconds;
- the local calendar fields used for the file name;
- the directory listing and `stat` results;
- file contents, as a map from (router, file name) to text;
- which directory creations and appends fail;
- the RouterOS session list or its failure;
- the password hash function and the salt;
- the locale time rendering;
- the order `Array.sort` produces.

JavaScript `undefined` is modelled as a value of its own (`JsValue.Undefined`).
A template string renders it as `undefined`. A `TypeError` is an outcome
(`Thrown`, `Err`, `Rejected`), so the error paths are modelled rather than
excluded by preconditions.

Several behaviours follow from the code as written, and the model keeps them:
- **The NAT fields are always `undefined`.** `processMessage` destructures
  `{ nat_ip, nat_port }` from an object whose keys are `ip` and `port`.
  `SyslogProcessor.EventFields` states this.
- **Admitted messages can throw.** An admitted message whose connection or
  `NAT (…)` text lacks `->` makes `ip_port_to_ip_and_port` call `split` on
  `undefined`, and the call throws; it does not return `null`. Such messages
  are counted as heard but not stored (`SyslogProcessor.ThrowsIff`,
  `SyslogServer.HandleSyslogMessage`). The handler's promise is then
  rejected, and so is it when creating a directory fails. Nothing handles
  that rejection: src/syslogServer.js:18 has no `catch`, and the program
  installs no process-level handler.
- **The client reads the columns shifted by one.** A stored line has 8
  columns (`time,user_id,"protocol",mac,local_ip,local_port,remote_ip,remote_port`),
  but the page reads 11 and takes the second column as `router_ip`. Every
  field after `time` therefore lands one place off, and the last three are
  `undefined` (`ClientCsv.ItemOfLogLine`).
- **CSV export fails on loaded records.** `convertToCSV` calls
  `cell.includes` on every cell, so an `undefined` cell throws
  (`ClientCsv.ExportFailsIff`). A record loaded from a stored line that reads
  back cleanly has one: such a line has eight values, and the record reads
  eleven (`ClientCsv.StoredRecordsCannotExport`). A line reads back cleanly
  when no value holds a `"` or surrounding whitespace and only the protocol
  holds commas (`ClientCsv.ReadableLine`). The user id and the MAC are cut
  from the message up to `>` and `, ` (src/syslogProcessor.js:6 and 23), so
  either can hold a comma. The line then splits into more values, and a
  record with eleven or more of them can be exported. The export's rows also
  put `user_id` before `router_ip`, while the header has them the other way
  round (`ClientCsv.ExportSwapsUserAndRouter`).
- **The search box is all-or-nothing on such records.** It calls
  `value.toString()` on every value until one matches. On records loaded
  from cleanly readable lines it throws, leaving the table unchanged, unless
  every record matches in one of its line's eight values; then it keeps every
  record (`ClientTable.SearchOfStoredRecords`).
- **The range line with no records.** It reads "1 to 0 of 0".

## Model

| member | source | states |
|---|---|---|
| Text.IndexOf | src/stringUtils.js:5 | the result is the first position where the pattern occurs, or none when it occurs nowhere |
| Text.ContainsIff | src/fileUtils.js:64 | `includes` holds exactly when the pattern occurs at some position |
| Text.JoinSplit | src/stringUtils.js:5 | joining the pieces of a `split` with the same separator gives back the original text |
| Text.SplitJoin | src/syslogProcessor.js:11 | splitting a join of pieces that avoid the separator's character gives back the pieces |
| Text.SplitHasSecondPiece | src/stringUtils.js:6 | `split` yields at least two pieces exactly when the separator occurs |
| Text.SplitPiecesAvoidSeparator | src/stringUtils.js:8 | no piece of a `split` contains the separator |
| Text.FirstPiece | src/stringUtils.js:8-9 | the first piece is a prefix that avoids the separator and stops at its first occurrence or at the end |
| Text.FirstPieceFirst | src/stringUtils.js:8-9 | no occurrence of the separator starts inside the first piece, and the piece is the whole text or is followed by the separator |
| Text.TrimStart | src/fileUtils.js:64 | drops exactly the leading whitespace, and the result starts with a non-blank character |
| Text.TrimEnd | src/fileUtils.js:64 | drops exactly the trailing whitespace, and the result ends with a non-blank character |
| Text.TrimEmptyIff | src/fileUtils.js:82 | `trim()` is empty exactly when every character is whitespace |
| Text.ToLower | public/script.js:389 | same length, each character lower-cased |
| Text.DigitsValueOfNatToString | src/timeUtils.js:4 | reading back the decimal rendering of a number gives the number |
| Text.NatToStringInjective | src/timeUtils.js:4 | different numbers render differently |
| Text.PadStart2 | src/timeUtils.js:4 | `padStart(2, '0')`: at least two characters, the text kept at the end, zeros before it |
| Text.Pad2 | src/timeUtils.js:4 | a number below 100 renders as two digits whose value is the number |
| Text.LastTwo | src/timeUtils.js:12 | `slice(-2)`: the last two characters, or the whole text when shorter |
| Text.FilterMember | src/fileUtils.js:64 | an element survives `filter` exactly when it was present and satisfies the predicate |
| Text.FilterAppend | src/expressServer.js:78 | filtering a concatenation is the concatenation of the filtered parts |
| Text.FilterFilter | src/fileUtils.js:64 | two filters in a row are one filter by the conjunction |
| Text.FilterKeepsAll | src/fileUtils.js:64 | a filter that every element passes keeps the sequence unchanged |
| StringUtils.Cut | src/stringUtils.js:2-10 | `cut`, specified by `CutEmpty`, `CutLocates`, `CutPreserve` and `CutWithoutEnd` |
| StringUtils.AfterFirst | src/stringUtils.js:5 | the text after the first occurrence of `start`: there is no earlier occurrence, and it is a suffix of `content` |
| StringUtils.CutEmpty | src/stringUtils.js:3-6 | the result is `''` when `content`, `start` or `end` is empty, or when `start` does not occur |
| StringUtils.SecondPiece | src/stringUtils.js:5-8 | `parts[1]` exists when `start` occurs, and runs from just after the first `start` to the next `start` |
| StringUtils.CutLocates | src/stringUtils.js:5-9 | without `preserve`, the result begins right after the first `start` and contains neither `start` nor `end`; within the text up to the next `start` it stops at the first `end`, or runs to that next `start` or the end of `content` |
| StringUtils.NestedFirstPiece | src/stringUtils.js:8-9 | the first piece of the first piece is a prefix that avoids both separators and stops at one of them or at the end |
| StringUtils.CutPreserve | src/stringUtils.js:9 | with `preserve`, the result is `start + inner + end`, even when `end` does not occur |
| StringUtils.CutWithoutEnd | src/stringUtils.js:8-9 | with no `end` after `start`, the result is the rest up to any second `start`, not `''` |
| SyslogProcessor.Element | src/syslogProcessor.js:38 | array destructuring: an index past the end gives `undefined`, otherwise the element |
| SyslogProcessor.IpPortToIpAndPort | src/syslogProcessor.js:37-40 | throws exactly on `undefined`, and otherwise yields a defined `ip` |
| SyslogProcessor.EndpointOfPair | src/syslogProcessor.js:37-40 | `ip:port` splits into that ip and that port |
| SyslogProcessor.EndpointWithoutPort | src/syslogProcessor.js:38-39 | text without `:` is the ip, and the port is `undefined` |
| SyslogProcessor.ProcessMessage | src/syslogProcessor.js:5-31 | `processMessage`, specified by `NullIff`, `ThrowsIff`, `EventFields`, `EventEndpoints` and `EventTime` |
| SyslogProcessor.NullIff | src/syslogProcessor.js:6-7 | the result is `null` exactly when the `in:<…>` cut is empty or the tag is not `prerouting` |
| SyslogProcessor.ThrowsIff | src/syslogProcessor.js:11-15 | an admitted message throws exactly when its connection or its `NAT (…)` text has no `->`, with the `split`-of-undefined message; a message without `NAT (` always throws |
| SyslogProcessor.EventFields | src/syslogProcessor.js:18-30 | a record carries the sender address, the non-empty user id, the protocol and the MAC cut from the message, defined local and remote ips, and `undefined` NAT fields |
| SyslogProcessor.EventEndpoints | src/syslogProcessor.js:9-12 | for a connection `li:lp->ri:rp` the record's endpoints are exactly those four texts |
| SyslogProcessor.ConnectionHalves | src/syslogProcessor.js:11-12 | splitting `li:lp->ri:rp` on `->` gives the two halves |
| SyslogProcessor.EventTime | src/syslogProcessor.js:17-19 | the record time reads back as the UTC fields of now plus six hours: the hour advanced by 6 modulo 24, the minutes and seconds unchanged |
| SyslogProcessor.LineFields | src/syslogProcessor.js:34 | a stored line has eight fields |
| SyslogProcessor.FormatLogLine | src/syslogProcessor.js:33-35 | every line ends with a newline |
| SyslogProcessor.LineIsJoin | src/syslogProcessor.js:34 | the line is the eight fields joined by commas, plus a newline |
| SyslogProcessor.LineColumns | src/syslogProcessor.js:34 | when no field holds a comma, splitting the line on commas gives back the eight fields |
| SyslogProcessor.LineIgnoresRouterAndNat | src/syslogProcessor.js:33-35 | records differing only in router address or NAT fields give the same line |
| Legacy.LegacyProcessMessage | index.js:175-192 | the older processor, specified by `LegacyOutcomeIff` and `LegacyAgreesWithCurrent` |
| Legacy.LegacyOutcomeIff | index.js:175-192 | the legacy processor drops exactly the messages the current one drops; otherwise it never throws, the local side is defined and free of `->`, and the remote side is `undefined` exactly when the connection has no `->` |
| Legacy.LegacyAgreesWithCurrent | index.js:175-192 | where the current processor yields a record, the legacy one six hours later yields the same time, user, protocol and MAC, and unsplit halves that split into the current endpoints |
| Legacy.LegacyLineFields | index.js:196 | a legacy line has six fields |
| Legacy.LegacyFormatLogLine | index.js:194-197 | every legacy line ends with a newline |
| Legacy.LegacyLineColumns | index.js:196 | when no field holds a comma, splitting the legacy line on commas gives back its six fields |
| Legacy.Latest | index.js:317-320 | the chosen partition has the greatest modification time, and it is the first such in list order, as the stable descending sort puts it first |
| Legacy.LegacyServesLatestOnly | index.js:305-330 | 404 exactly when the current route answers 404; otherwise the lines of one of the router's latest partitions, a part of what the current route returns |
| TimeUtils.CivilFromDays | src/timeUtils.js:6 | a day count gives a month in 1..12 and a day within that month's length in that year, in 1970 or later for non-negative counts |
| TimeUtils.CivilRoundTrip | src/timeUtils.js:6 | the date a day count gives counts back to that day count |
| TimeUtils.CivilOfDays | src/timeUtils.js:6 | every real date (day within its month's length) is the date of its own day count, so dates and day counts correspond one to one |
| TimeUtils.MonthsFillYear | src/timeUtils.js:6 | the month lengths add up to the year length |
| TimeUtils.TimeOfDay | src/timeUtils.js:7 | the UTC hour is in 0..23, minutes and seconds in 0..59 |
| TimeUtils.UtcFields | src/timeUtils.js:3-7 | the UTC fields of an instant are a real date, the day within its month's length (29 February only in leap years), and a valid time |
| TimeUtils.ClockRebuild | src/timeUtils.js:7 | hours, minutes, seconds and leftover milliseconds of a time of day add back up to it |
| TimeUtils.UtcFieldsRebuild | src/timeUtils.js:6-7 | the UTC date counts back to the instant's day, and date and clock add back up to the instant without its milliseconds |
| TimeUtils.SixHoursLater | src/syslogProcessor.js:17 | six hours later the hour is advanced by 6 modulo 24, minutes and seconds are unchanged, and the day moves on exactly when the hour was 18 or more |
| TimeUtils.UtcSixHoursLater | src/syslogProcessor.js:17 | the same for the UTC fields |
| TimeUtils.NumberOfPadded | src/timeUtils.js:4 | a padded two-digit field reads back as its number |
| TimeUtils.FormatDate | src/timeUtils.js:2-8 | `formatDate`, specified by `FormatDateRoundTrip` |
| TimeUtils.FormatDateRoundTrip | src/timeUtils.js:2-8 | `YYYY-MM-DD HH:MM:SS` reads back as the fields it was made from, with the month shifted by one; it is 19 characters for four-digit years |
| TimeUtils.ClockHourRange | src/timeUtils.js:13-14 | the file-name hour is in 1..12, 12 for hours 0 and 12 and the hour mod 12 otherwise; the period is `PM` exactly from hour 12 |
| TimeUtils.ClockHourInjective | src/timeUtils.js:13-14 | hour and period together determine the 24-hour hour |
| TimeUtils.FormattedFilename | src/timeUtils.js:16 | every file name ends in `.log` |
| TimeUtils.DatePartLength | src/timeUtils.js:12 | the date part `DD-MM-YY` is eight characters |
| TimeUtils.DatePartIff | src/timeUtils.js:12 | two date parts are equal exactly when day, month and the last two digits of the year agree |
| TimeUtils.Pad2Injective | src/timeUtils.js:12 | different two-digit numbers pad differently |
| TimeUtils.FilenameStemIff | src/timeUtils.js:12-16 | two file names are equal exactly when their date parts and their hours agree |
| TimeUtils.SameFilenameIff | src/timeUtils.js:10-16 | two instants share a file exactly when they share day, month, two-digit year and hour; the router argument plays no part |
| TimeUtils.UptimeHms | src/timeUtils.js:19-24 | hours, minutes below 60 and seconds below 60 that add back to the input |
| TimeUtils.FormatUptime | src/timeUtils.js:19-24 | `formatUptime`, specified by `UptimeHms` and `FormatUptimeInjective` |
| TimeUtils.FormatUptimeInjective | src/timeUtils.js:23 | different uptimes give different texts: the text determines the number of seconds |
| RouterState.Bump | src/state.js:18-23 | an update never decreases a counter |
| RouterState.BumpTwice | src/state.js:18-23 | a syslog update followed, at the same instant, by a save update is one update of both counters |
| RouterState.TotalOverIgnores | src/state.js:25-31 | an entry outside the summed keys does not change the totals |
| RouterState.TotalOverReplace | src/state.js:25-31 | replacing one entry changes the totals by the difference between the new and the old entry |
| RouterState.State.constructor | src/state.js:2-5 | the table starts empty, with the start time recorded |
| RouterState.State.InitRouter | src/state.js:7-16 | inserts zero counters at `now` only for a new router; an existing entry is returned unchanged |
| RouterState.State.UpdateRouterStats | src/state.js:18-23 | only the named router's entry changes: +1 syslog if asked, +1 save if asked, last seen set to now; the router is present afterwards |
| RouterState.State.GetTotalStats | src/state.js:25-31 | the totals are the sums of both counters over all routers, in insertion order |
| RouterState.TotalsAfterUpdate | src/state.js:18-31 | an update raises each total by exactly the counter it bumps |
| SyslogServer.HeardKeepsBound | src/syslogServer.js:10 | counting a heard message keeps saves at most syslogs for every router, and strictly below for the sender |
| SyslogServer.SavedKeepsBound | src/fileUtils.js:26-27 | counting a save after a heard message keeps saves at most syslogs |
| SyslogServer.HandleSyslogMessage | src/syslogServer.js:9-19 | the new router table is the old one with only the sender's record replaced: syslog count +1, save count +1 exactly when the append succeeds, `lastSeen` now; the sender joins the insertion order if new, and the start time stays; nothing is written when the message is dropped or throws; otherwise exactly one append of the formatted line to (sender, hour file); the directories change as `DirsAfterWrite` says when the line goes to the write, and not otherwise; saves never exceed syslogs |
| FileUtils.LogFilesIn | src/fileUtils.js:43-49 | the listed files of a router directory are exactly its `.log` names, tagged with the router and joined path |
| FileUtils.ScanFailsIff | src/fileUtils.js:33-56 | the scan fails exactly when some entry cannot be stat-ed or some directory cannot be listed |
| FileUtils.ScanMembers | src/fileUtils.js:38-51 | a successful scan lists exactly the `.log` files of the directory entries |
| FileUtils.ScanFailurePersists | src/fileUtils.js:53-56 | a failure part way through fails the whole scan |
| FileUtils.GetLogFiles | src/fileUtils.js:33-57 | the loop returns the scan's files, or `[]` if the top listing or any step fails |
| FileUtils.Tagged | src/fileUtils.js:83-87 | each line becomes a record with the file's router and name and the line unchanged, in order |
| FileUtils.TaggedFilter | src/fileUtils.js:62-69 | filtering tagged lines by content equals tagging the filtered lines |
| FileUtils.ReadLogFile | src/fileUtils.js:77-92 | `readLogFile`, specified by `ReadLogFileLines` and `ReadAfterAppend` |
| FileUtils.ReadLogFileLines | src/fileUtils.js:77-92 | `readLogFile` returns exactly the file's non-blank lines, tagged, none holding a newline |
| FileUtils.SearchInFile | src/fileUtils.js:59-75 | `searchInFile`, specified by `SearchIsFilteredRead` and `SearchEmptyQuery` |
| FileUtils.SearchIsFilteredRead | src/fileUtils.js:59-75 | `searchInFile` is `readLogFile` filtered by case-sensitive `includes(query)`, in order |
| FileUtils.SearchEmptyQuery | src/fileUtils.js:64 | the empty query finds every line `readLogFile` returns |
| FileUtils.AppendedLines | src/fileUtils.js:26 | appending to newline-terminated text adds exactly the new text's non-blank lines after the old ones |
| FileUtils.LinesAppend | src/fileUtils.js:80-82 | the non-blank lines of `a + "\n" + b` are those of `a` followed by those of `b` |
| FileUtils.DirsAfterWrite | src/fileUtils.js:16-22 | after a write, `logs` exists exactly when it existed or could be created, `logs/<router>` exactly when it existed or both could be created, and no other directory appears |
| FileUtils.DirectoriesStay | src/fileUtils.js:7-22 | once a write got past both directories, later writes for that router find them and leave the directories unchanged, whatever creations would fail then |
| FileUtils.LogStore.EnsureDirectoryExists | src/fileUtils.js:7-14 | succeeds when the directory exists or can be created, and then it exists; files untouched |
| FileUtils.LogStore.WriteToFile | src/fileUtils.js:16-31 | a directory failure propagates; the directories become `DirsAfterWrite` of the old ones; a failed append leaves the files and the counts unchanged; a successful one appends to (router, file name) and raises that router's save count |
| FileUtils.ReadAfterAppend | src/fileUtils.js:26 | after an append, reading the file gives the old lines followed by the new data's non-blank lines |
| ExpressServer.Distinct | src/expressServer.js:30 | `[...new Set(xs)]` holds each element of `xs` exactly once |
| ExpressServer.DistinctInFirstAppearanceOrder | src/expressServer.js:58 | the distinct elements come in order of first appearance |
| ExpressServer.DistinctCardinality | src/expressServer.js:30 | a repetition-free list has as many elements as its set |
| ExpressServer.Routers | src/expressServer.js:57-59 | `/routers`, specified by `RoutersListed` |
| ExpressServer.RoutersListed | src/expressServer.js:57-59 | `/routers` lists each router that has a file, once, in order of first appearance |
| ExpressServer.Summary | src/expressServer.js:29-44 | `/summary` counts, specified by `SummaryMeaning` |
| ExpressServer.SummaryMeaning | src/expressServer.js:29-44 | `routers` is the number of distinct routers, `totalLogs` the number of files, not lines, and `uptime` the whole seconds since start |
| ExpressServer.SearchAcrossIsFilteredRead | src/expressServer.js:75-78 | searching every file and flattening equals reading every file and filtering by the query |
| ExpressServer.ReadAcrossMember | src/expressServer.js:126-127 | a line is in the flattened read exactly when some listed file yields it |
| ExpressServer.SearchAll | src/expressServer.js:67-85 | `/search`, specified by `SearchAllMeaning` |
| ExpressServer.SearchAllMeaning | src/expressServer.js:67-85 | `/search` answers 400 exactly for a missing or empty query, and otherwise sends every line containing it, in file order |
| ExpressServer.FilesOf | src/expressServer.js:98 | the router's files are exactly the listed files with that router |
| ExpressServer.OnlyRoutersLines | src/expressServer.js:119-127 | every line returned for a router comes from that router |
| ExpressServer.RouterLogs | src/expressServer.js:116-134 | `/router/:routerId`, specified by `RouterLogsMeaning` and `OnlyRoutersLines` |
| ExpressServer.RouterLogsMeaning | src/expressServer.js:116-134 | 404 exactly when the router has no files; otherwise exactly the non-blank lines of its files |
| ExpressServer.RouterSearch | src/expressServer.js:88-113 | `/router/:routerId/search`, specified by `RouterSearchMeaning` |
| ExpressServer.RouterSearchMeaning | src/expressServer.js:88-113 | 400 exactly for a missing query; then 404 exactly when the router has no files; otherwise the router's lines filtered by the query, possibly empty |
| IpLookup.SessionMapDomain | src/ipLookup.js:28-30 | an address is in the map exactly when some session has it |
| IpLookup.SessionMapValue | src/ipLookup.js:28-30 | the stored name is that of the last session with the address |
| IpLookup.SessionMapLookup | src/ipLookup.js:28-30 | both of the above: a later session with the same address overwrites an earlier one |
| IpLookup.BuildSessionMap | src/ipLookup.js:20-30 | the `forEach` loop builds, from an empty map, exactly the session map |
| IpLookup.LookupUsernameByIP | src/ipLookup.js:57-72 | `lookupUsernameByIP`, specified by `LookupIff` and `LookupAfterBuild` |
| IpLookup.LookupIff | src/ipLookup.js:57-72 | the lookup succeeds with the stored name exactly when the map exists, the address is non-empty and its entry is non-empty; otherwise it fails with the message of the first failing check |
| IpLookup.LookupAfterBuild | src/ipLookup.js:66-71 | looking up the last session's address in a freshly built map returns its name |
| IpLookup.RouterKeyInjective | src/ipLookup.js:12 | `host:port` keys of hosts without `:` determine host and port |
| IpLookup.RequestRegistry.constructor | src/ipLookup.js:4 | the registry starts empty |
| IpLookup.RequestRegistry.Start | src/ipLookup.js:12-46 | a registered key reuses its pending request and opens no new one; otherwise a new request is registered under `host:port`; either way `hasOngoingRequest` then holds |
| IpLookup.RequestRegistry.Finish | src/ipLookup.js:19-42 | the key is removed on success and on failure unless `api.close()` rejects, which skips the `delete` and leaves `hasOngoingRequest` as it was; success yields the session map, failure a message prefixed `Failed to get PPPoE data: ` |
| ClientCsv.CsvFields | public/script.js:46-69 | `parseCSVLine`, specified by `ParseCsvLine`, `ReadWrittenCells`, `LogLineRoundTrip` and `FieldsQuoteFree` |
| ClientCsv.ScanFromAppend | public/script.js:51-62 | scanning a concatenation is scanning the second part from the state after the first |
| ClientCsv.ParseCsvLine | public/script.js:46-69 | the loop computes the tokenizer's fields |
| ClientCsv.FieldsQuoteFree | public/script.js:54-55 | no field ever contains `"` |
| ClientCsv.TrailingComma | public/script.js:56-58 | a comma outside quotes pushes the trimmed current field |
| ClientCsv.EmptyTail | public/script.js:64-66 | `''` parses to `[]` and `v,` to `[v]`: an empty final segment is not emitted |
| ClientCsv.ReadWrittenCells | public/script.js:46-69 | cells joined by commas, each bare or quoted without commas, quotes or padding inside, parse back to their values when the last is non-empty |
| ClientCsv.LineCells | src/syslogProcessor.js:34 | the stored line's fields are eight cells, the protocol quoted |
| ClientCsv.LogLineRoundTrip | public/script.js:46-69 | a stored line without its newline parses back to its eight values, the protocol's quotes stripped |
| ClientCsv.ItemValues | public/script.js:391 | `Object.values` of a record lists its eleven fields |
| ClientCsv.ItemOfLogLine | public/script.js:185-199 | the record built from a stored line has every field after `time` shifted by one column, and `undefined` in the last three |
| ClientCsv.DoubleQuotesRoundTrip | public/script.js:90 | doubling quotes can be undone |
| ClientCsv.DoubleQuotesAvoid | public/script.js:90 | doubling quotes adds no other character |
| ClientCsv.EscapeCells | public/script.js:89-92 | escaping keeps one cell per value |
| ClientCsv.RowCells | public/script.js:73-85 | a row has eleven cells |
| ClientCsv.ExportRows | public/script.js:89-92 | one escaped row per record |
| ClientCsv.EscapeCellsFailIff | public/script.js:89-91 | escaping fails exactly when a cell is `undefined`, with the `includes`-of-undefined message |
| ClientCsv.RowFailsIff | public/script.js:73-91 | a row fails exactly when one of the record's fields is `undefined` |
| ClientCsv.RowCellsSwap | public/script.js:73-85 | the row is the locale time followed by the record's fields with the user id and router ip exchanged |
| ClientCsv.RowsFailIff | public/script.js:89-92 | the rows fail exactly when some record has an `undefined` field |
| ClientCsv.ConvertToCsv | public/script.js:71-96 | `convertToCSV`, specified by `ExportFailsIff`, `ExportLines` and `ExportSwapsUserAndRouter` |
| ClientCsv.ExportFailsIff | public/script.js:71-96 | `convertToCSV` throws exactly when some record has an `undefined` field |
| ClientCsv.ShortRecordsCannotExport | public/script.js:71-96 | records made from at most ten parsed fields lack `nat_port`, so exporting a non-empty list of them fails |
| ClientCsv.StoredFields | public/script.js:46-69 | a cleanly readable stored line, without its newline, parses into exactly the eight values it was written with |
| ClientCsv.StoredRecordsCannotExport | public/script.js:71-96 | records loaded from cleanly readable stored lines can never be exported |
| ClientCsv.EscapedCellSingleLine | public/script.js:90-91 | escaping adds no newline |
| ClientCsv.EscapedCellsSingleLine | public/script.js:89-92 | escaped cells of newline-free values are newline-free |
| ClientCsv.RowSingleLine | public/script.js:89-92 | a row of newline-free values is one line |
| ClientCsv.RowsSingleLine | public/script.js:89-92 | every exported row is one line |
| ClientCsv.ExportLines | public/script.js:87-93 | the CSV text has one header line plus one line per record |
| ClientCsv.ExportSwapsUserAndRouter | public/script.js:72-76 | the header names `Router IP` before `User ID`, the rows put the user id before the router ip |
| ClientCsv.HeaderColumns | public/script.js:72 | the header line splits back into its eleven names |
| ClientCsv.HeaderNamesPlain | public/script.js:72 | no header name holds a comma or newline |
| ClientTable.SomeHitDefined | public/script.js:391-393 | on defined values, `some` answers whether one lower-cased value contains the term |
| ClientTable.SomeHitFailsIff | public/script.js:391-393 | `some` throws exactly when an `undefined` value comes before any match |
| ClientTable.SomeHitBeforeUndefined | public/script.js:391-393 | before the first `undefined` value, a match answers true, otherwise the call throws |
| ClientTable.FilterLogs | public/script.js:388-394 | the search filter, specified by `FilterLogsOkIff`, `FilterLogsDefined` and `AllHitsKeepAll` |
| ClientTable.FilterLogsOkIff | public/script.js:390-394 | the search filter succeeds exactly when no record's `some` throws |
| ClientTable.FilterLogsDefined | public/script.js:388-394 | on records without `undefined` fields the filter keeps exactly the matching records, in order |
| ClientTable.EmptyTermKeepsAll | public/script.js:388-394 | an empty term keeps every record whose time is defined |
| ClientTable.AllHitsKeepAll | public/script.js:390-394 | when every record matches, the filter keeps them all |
| ClientTable.ShortRecordScan | public/script.js:391-393 | a record from at most ten fields matches when one of its fields contains the term, and throws otherwise |
| ClientTable.SearchOfShortRecords | public/script.js:388-394 | on records made from at most ten parsed fields the search succeeds exactly when every record has a field containing the term, and then keeps them all |
| ClientTable.SearchOfStoredRecords | public/script.js:388-394 | on records loaded from cleanly readable stored lines the search succeeds exactly when every record holds the term in one of its line's eight values, and then keeps them all |
| ClientTable.TotalPages | public/script.js:297 | `Math.ceil(count / perPage)`: the fewest pages that hold every record |
| ClientTable.SliceWithin | public/script.js:265 | `slice` with in-range bounds is the clamped sub-sequence |
| ClientTable.PageOfRecord | public/script.js:256-265 | record `i` is shown on page `i div n + 1`, at position `i mod n` |
| ClientTable.PagesPrefix | public/script.js:256-265 | the first `k` pages together are the first `k·n` records |
| ClientTable.PagesCoverAll | public/script.js:256-265 | all pages together are exactly the records, in order |
| ClientTable.RangeDescribesPage | public/script.js:351-358 | for a valid page the range line `first to last of total` describes exactly the records shown |
| ClientTable.Buttons | public/script.js:302-304 | the loop's buttons are `from..to`, the current page active |
| ClientTable.AddButtons | public/script.js:322-324 | the loop appends exactly those buttons to the bar |
| ClientTable.UpdatePagination | public/script.js:296-349 | the bar is the layout for the current page; previous is disabled exactly on page 1, next exactly on the last page |
| ClientTable.Layout | public/script.js:296-331 | the page buttons, specified by `ButtonsInRange`, `FewPages`, `LongBarShape` and `LongBarIncreasing` |
| ClientTable.ButtonsInRange | public/script.js:296-331 | every button names a page in 1..total, and it is active exactly for the current page |
| ClientTable.FewPages | public/script.js:301-304 | with at most five pages, the buttons are exactly 1..total |
| ClientTable.WindowBounds | public/script.js:312-320 | the middle window lies within 2..total-1 and covers the current page when it is not at an end |
| ClientTable.LongBarShape | public/script.js:305-331 | with more than five pages, the first and last buttons are pages 1 and total, the middle lies within 2..total-1, and the current page is shown active |
| ClientTable.LongBarIncreasing | public/script.js:305-331 | page numbers increase left to right |
| ClientTable.ManyPages | public/script.js:305-331 | both of the above |
| ClientTable.LogView.constructor | public/script.js:3-8 | page 1, 25 per page, no records |
| ClientTable.LogView.Reset | public/script.js:18-26 | clears both lists and returns to page 1 |
| ClientTable.LogView.LoadLogs | public/script.js:185-204 | both lists become the parsed records, page 1 |
| ClientTable.LogView.GoToPage | public/script.js:361-364 | moves to a page the bar offers; lists untouched |
| ClientTable.LogView.PrevPage | public/script.js:367-372 | moves back one page unless on page 1 |
| ClientTable.LogView.NextPage | public/script.js:374-380 | moves on one page unless on the last |
| ClientTable.LogView.SetPerPage | public/script.js:382-386 | sets the page size and returns to page 1 |
| ClientTable.LogView.Search | public/script.js:388-397 | on success the filtered list is the search result and the page is 1; when the filter throws nothing changes and the error is reported |
| ClientTable.LogView.Render | public/script.js:255-285 | the filtered list takes the sorted order; the page shown, the bar, the button states and the range all follow from it; the page keeps a valid number |
| Summary.Components | public/summary.js:10-13 | hours below 24, minutes and seconds below 60, and `86400·d + 3600·h + 60·m + s` is the input |
| Summary.FormatUptime | public/summary.js:9-22 | the four conditional pushes add the non-zero parts in order, and they are joined with single spaces |
| Summary.PartRoundTrip | public/summary.js:16-19 | a part reads back as its seconds and holds no space |
| Summary.OptionalPartSum | public/summary.js:16-19 | a zero component contributes nothing, a non-zero one its seconds |
| Summary.PartsOfSum | public/summary.js:15-19 | the parts of any components add up to their weighted sum |
| Summary.SumOfParts | public/summary.js:10-19 | the parts add up to the input |
| Summary.PartsAvoidSpace | public/summary.js:16-19 | no part holds a space |
| Summary.EmptyIffZero | public/summary.js:15-21 | the text is empty exactly for zero seconds |
| Summary.ParseFormatUptime | public/summary.js:15-21 | reading the text back, part by part, gives the input |
| UserAccounts.UserManager.constructor | src/userManager.js:4-10 | exactly one user, `admin`, who validates with `admin123` |
| UserAccounts.UserManager.AddUser | src/userManager.js:12-16 | replaces only the entry for the user; afterwards a session hash validates exactly when it is the new password's hash, and a password exactly when its hash equals the new password's |
| UserAccounts.UserManager.ValidateUser | src/userManager.js:22-28 | false for an unknown user; true exactly when the password's hash with the stored salt is the stored hash |
| UserAccounts.UserManager.ValidateSession | src/userManager.js:30-33 | true exactly for a known user whose stored hash is the given one |

## Left out

- The UDP listener and the Express wiring (`listen`, `res.status`, `app.get`): replies are values.
- The 500 branches around queries are not modelled. Once the file system is a map, nothing in those handlers throws.
- The real clock and time zone. Instants and local calendar fields are parameters, and the UTC calendar is the proleptic Gregorian one.
- The real file system: `fs.access`, `fs.mkdir`, `fs.readdir`, `fs.stat`, `fs.readFile`, `fs.writeFile`. Paths are joined with `/` without normalisation.
- `new Date(item.time).toLocaleString()` is a parameter (`localeTime`).
- The RouterOS session (`api.connect`, `write`, `close`) is an outcome parameter.
- Promise-level concurrency in src/ipLookup.js: the registry is modelled as sequential start and finish steps.
- `crypto.pbkdf2Sync` and `randomBytes`: the hash is a function field and the salt a parameter.
- `formatBytes` and `usedPercentage`: floating point and the disk library.
- DOM rendering, XLSX and PDF export, the dropdown handlers, and the page's server-search URL building (`performServerSearch`).
- public/advanced-search.js, src/consoleManager.js, src/index.js, src/license.js and src/config.js are not part of this model.
- The duplicated state, file and time helpers in index.js are modelled once, from src/.
- The `TypeError` texts for `undefined` (`ClientCsv.IncludesOfUndefined`, `ClientTable.ToStringOfUndefined`) use Chromium's V8 wording. Other browsers word them differently.
- Text.ToLower: lower-cases ASCII letters only, not the full Unicode case mapping of `toLowerCase`.
- ClientTable.LogView.Render: `Array.sort` with a comparator that never returns 0 is not a well-defined order, so the sorted sequence is a parameter (any permutation of the filtered records).
- ClientTable.LogView.GoToPage: requires a page the bar offers. The handler is only reached from a bar button, so arbitrary numbers are not modelled.
- ClientTable.LogView.SetPerPage: requires a positive page size. The select only offers positive values, so `parseInt` of arbitrary text is not modelled.
- Summary.FormatUptime and TimeUtils.UptimeHms: take a whole non-negative number of seconds. Fractional or negative inputs are not modelled.
- TimeUtils.FormatDateRoundTrip: proved for non-negative years. The extended `±YYYYYY` form that `toISOString` uses outside 0..9999 is not modelled.
- TimeUtils.DatePartIff and TimeUtils.SameFilenameIff: stated for years of at least two digits.
- TimeUtils.FormatUptimeInjective: stated for whole non-negative seconds, as `UptimeHms` is.
- Object identity: the router entry returned by `initRouter` is a value, not a shared object, and callers only read it.
