# MT_watchfolder processor, modelled in Dafny

MT_watchfolder watches delivery folders for returned translation work. When a
file is created there, the processor (`scripts/processor.py`) does the following:

- **Delivery-directory filter.** It checks the path against the filter and
  stops if the path does not qualify.
- **Reading.** A `.sdlxliff` working file is read on its own. Any other file
  is opened as a zip return package, with up to ten attempts while it is
  locked. The result is a report
  `providers[file][origin][system] = count`: every
  `origin="…" origin-system="…"` attribute pair is found with a regular
  expression and counted.
- **Blacklist check.** The report's systems are compared with the blacklist
  of machine-translation providers. The files that match are the ones
  handed to the warning writer.
- **Audit.** Every counted system is logged, except those under the
  `auto-propagated` origin.

The model has one module per concern:

- `Text`: bytes, substring search, `endswith` and `basename`.
- `Scanner`: the regular expression `origin="([^"]+)" origin-system="([^"]+)"`
  and `findall`, as a left-to-right matcher over bytes.
- `Dicts`: Python's insertion-ordered `dict`, as an order of keys plus a map.
- `Providers`: `get_providers`, both the corrected version and the version as
  written.
- `Reader`: `read_working_file` and `read_return_package`. This covers the
  zip archive as a list of members and the retry loop, which is driven by
  the outcome of each open attempt.
- `Blacklist`: `check_against_blacklist`.
- `Audit`: `log_providers`, whose log lines are a sequence of records.
- `Processor`: `on_created`, as a class `EventHandler` whose `path` field
  the handler sets, and a specification function `Handle` for the whole
  event.

Each method that loops in the source is a Dafny method with the same
loops. It is proved equal to a specification function (`CountsOf`,
`Retry`/`ReportOf`, `WarningsOf`, `AuditOf`), and the lemmas state what
those functions mean.

Four points of the code's behaviour shape the model:

- **Blacklist matching is equality.** The test
  `mt_provider in providers[file][origin]` asks whether the entry is a key
  of a dict. So an entry matches only a system of exactly that name, never
  a longer name that contains it (`Blacklist.PartOfNameDoesNotMatch`).
- **A missing package is final.** `FileNotFoundError` ends the read with
  `None` at once. No other path is tried (`Reader.NotFoundNoRetry`).
- **The audit filter is fixed.** The origin `auto-propagated` is skipped by
  a literal comparison (`Audit.AUTO_PROPAGATED`).
- **The counter is shared.** There is one running counter per system name,
  shared by all origins. Each pair stores the counter's current value
  (`Providers.SharedCounter`, `Providers.CountBounds`).

## Model

| member | source | states |
|---|---|---|
| Text.ContainsIffOccurs | scripts/processor.py:24 | `needle in haystack` is true exactly when the needle occurs at some index of the haystack |
| Text.Basename | scripts/processor.py:100 | `os.path.basename` gives a suffix of the path with no separator in it, preceded by a separator whenever it is shorter than the path |
| Scanner.MatchAtSound | scripts/processor.py:168 | a match of the pattern captures two values (non-empty, no quote) and spans exactly the text of the pattern with those values |
| Scanner.MatchAtComplete | scripts/processor.py:168 | wherever the text of a pair of values stands, the pattern matches there and captures exactly that pair |
| Scanner.FindAllSpans | scripts/processor.py:170 | `findall` reports matches inside the input, each capturing a pair of values, in left-to-right order without overlap |
| Scanner.FindAllReportsMatches | scripts/processor.py:170 | each match `findall` reports is the match the pattern finds at its start |
| Scanner.FindAllOrdered | scripts/processor.py:170 | any two reported matches come in order and do not overlap |
| Scanner.FindAllCoversEveryMatch | scripts/processor.py:170 | every position where the pattern could match lies inside a reported match: `findall` skips only positions covered by an earlier match |
| Scanner.ScannedPairsAreValues | scripts/processor.py:168-170 | every captured origin and system is non-empty and holds no quote |
| Scanner.ScanRenderAll | scripts/processor.py:168-170 | round trip: scanning the concatenated texts of pairs of values gives back exactly those pairs, in order |
| Scanner.ScanProviders | scripts/processor.py:168-170 | the same round trip for the processor's own pattern |
| Scanner.MatchesInsideLongerName | scripts/processor.py:168 | the pattern has no word boundary: `xorigin="…"` is matched as well |
| Scanner.RunLength | scripts/processor.py:168 | the greedy run `[^"]+` stays inside the input |
| Scanner.RunLengthStops | scripts/processor.py:168 | the run holds no quote and stops at a quote or the end of the input |
| Dicts.Empty | scripts/processor.py:57 | `dict()` is well formed, with no keys |
| Dicts.PutFrame | scripts/processor.py:179 | `d[k] = v` stores v under k and changes nothing else: every other key keeps its value and its place in the order, and at most one key is added, at the end |
| Dicts.PutValid | scripts/processor.py:179 | assignment keeps a dict well formed: its order lists each stored key exactly once |
| Dicts.KeysListed | scripts/processor.py:127 | a key is stored exactly when it is listed in the iteration order |
| Dicts.ListsDistinct | scripts/processor.py:127 | iteration over a dict yields no key twice |
| Dicts.SizeIsKeyCount | scripts/processor.py:40 | `len(d)` equals the number of keys iterated |
| Providers.StepStores | scripts/processor.py:178-179 | one run of the loop body stores, under its own (origin, system), the system's counter plus one |
| Providers.StepKeeps | scripts/processor.py:178-179 | one run of the loop body leaves every other (origin, system) entry, present or absent, as it was |
| Providers.TallyValid | scripts/processor.py:172-179 | both levels of the nested result stay well formed |
| Providers.GetProviders | scripts/processor.py:158-181 | the loop computes `CountsOf` of the file's bytes (the corrected version), well formed at both levels |
| Providers.TallyCounters | scripts/processor.py:173-178 | after the loop, the counter of a system equals the number of pairs naming that system, whatever their origin |
| Providers.TallyOrigins | scripts/processor.py:172-179 | the origins of the result are exactly the origins of the pairs found |
| Providers.TallySystems | scripts/processor.py:172-179 | (origin, system) is stored exactly when that pair was found |
| Providers.TallyValue | scripts/processor.py:178-179 | the stored count is the number of pairs with that system up to the last occurrence of that (origin, system) |
| Providers.CountBounds | scripts/processor.py:166-179 | every pair found is stored, with a count between 1 and the number of pairs naming its system |
| Providers.SharedCounter | scripts/processor.py:173-179 | the counter is shared across origins: the same system under two origins is stored as 1 and 2 |
| Providers.RepeatedPair | scripts/processor.py:178-179 | two equal pairs are stored once, with count 2 |
| Providers.NoPairsNoProviders | scripts/processor.py:172-181 | a file with no pair gives an empty result (corrected version) |
| Providers.SinglePairCounted | scripts/processor.py:172-181 | a file with one pair gives that pair with count 1 (corrected version) |
| Providers.GetProvidersAsWritten | scripts/processor.py:172-181 | as written: returns None exactly when the file has no pair, and otherwise raises KeyError on the first pair's system |
| Reader.ReadWorkingFile | scripts/processor.py:96-102 | a working file gives a report with one file, the base name of the path, holding the providers of the file's bytes |
| Reader.NameList | scripts/processor.py:66 | `namelist()` lists every member's name in archive order |
| Reader.MemberDataIsLast | scripts/processor.py:69-70 | `open(name)` reads the last member with that name |
| Reader.PackageReportEntries | scripts/processor.py:66-70 | the package report holds exactly the `.sdlxliff` names of the archive, each with the providers of the bytes read for it, well formed at every level |
| Reader.ReportOfMembers | scripts/processor.py:66-70 | every working-file member is reported with the providers of its bytes, unless a later member has the same name |
| Reader.Retry | scripts/processor.py:59-84 | the retry loop makes between 1 and 10 attempts from attempt 0; it makes none only when no attempt is left |
| Reader.RetryDecides | scripts/processor.py:60-84 | every attempt but the last met a PermissionError; the loop stops before ten only at a success or FileNotFoundError; a report comes back exactly when the last attempt opened the archive, and it is that archive's report |
| Reader.ReadReturnPackage | scripts/processor.py:55-84 | the method's result and number of attempts equal those of `Retry`, at most ten attempts |
| Reader.RetrySkipsDenied | scripts/processor.py:78-84 | a PermissionError only moves the loop on to the next attempt |
| Reader.NotFoundNoRetry | scripts/processor.py:74-75 | FileNotFoundError ends the read with None, without a retry |
| Reader.OpenedAfterDenials | scripts/processor.py:64-72 | an archive that opens after t PermissionErrors gives its report after t + 1 attempts |
| Reader.TenDenials | scripts/processor.py:60-84 | ten PermissionErrors in a row end the read with None after ten attempts |
| Reader.RetrySucceedsIff | scripts/processor.py:60-84 | a report comes back exactly when one of the first ten attempts opens the archive and every earlier attempt met a PermissionError |
| Reader.RetryReportValid | scripts/processor.py:66-72 | a report that comes back is well formed at every level |
| Blacklist.CheckAgainstBlacklist | scripts/processor.py:115-140 | the three nested loops compute `WarningsOf` of the report and the blacklist |
| Blacklist.EmptyBlacklist | scripts/processor.py:130-140 | an empty blacklist flags no file |
| Blacklist.WarningsOverEntries | scripts/processor.py:127-138 | over any list of files, the result is well formed, and it flags exactly the files with matches, each with its matches |
| Blacklist.WarningsOfEntries | scripts/processor.py:127-140 | a file is flagged exactly when it is in the report and has at least one match, and it is flagged with exactly its match list |
| Blacklist.OriginHitsIff | scripts/processor.py:132-135 | what the inner loop appends is the entry, and it appends it exactly when some origin has the entry as a system |
| Blacklist.HitCount | scripts/processor.py:132-135 | the number of origins holding the entry is at most the number of origins |
| Blacklist.OriginHitsCount | scripts/processor.py:132-135 | the inner loop appends the entry once for every origin that holds it, and nothing else |
| Blacklist.MatchesOfIff | scripts/processor.py:130-135 | a file's matches are exactly the blacklist entries equal to a system counted under one of its origins |
| Blacklist.MatchesInBlacklistOrder | scripts/processor.py:130-135 | matches come in blacklist order: those of a longer blacklist extend those of its first part |
| Blacklist.RepeatsPerOrigin | scripts/processor.py:132-135 | a system seen under two origins is listed twice |
| Blacklist.PartOfNameDoesNotMatch | scripts/processor.py:134 | an entry that differs from the system name (even as a part of it) does not match |
| Audit.LogProviders | scripts/processor.py:142-155 | the log is `AuditOf` the path and the report: the header, then the records of each file in turn |
| Audit.LogFile | scripts/processor.py:150-155 | the two inner loops log each origin other than `auto-propagated`, system by system |
| Audit.SystemRecordsIff | scripts/processor.py:154-155 | a record of one origin names one of its systems with that system's count, one record per system |
| Audit.OriginRecordsIff | scripts/processor.py:150-155 | a record of a file comes from one of its origins |
| Audit.AuditOverIff | scripts/processor.py:146-155 | a record of the log is the header or comes from one of the files |
| Audit.RecordsOfOriginIff | scripts/processor.py:152-155 | an origin logs (system, count) exactly when it is not `auto-propagated` and counts that system with that count |
| Audit.RecordsOfFileIff | scripts/processor.py:150-155 | a file logs (system, count) exactly when some origin other than `auto-propagated` counts that system with that count |
| Audit.AuditRecordIff | scripts/processor.py:142-155 | the log holds (file, system, count) exactly when the report counts that system with that count under an origin of the file other than `auto-propagated` |
| Audit.OriginRecordsCount | scripts/processor.py:150-155 | a file logs one record per system counted under its origins other than `auto-propagated` |
| Audit.AuditOverCount | scripts/processor.py:146-155 | the log has one header plus one record per counted system, per file |
| Audit.AuditLength | scripts/processor.py:142-155 | the log of a report has the header plus one record per system counted outside `auto-propagated` |
| Processor.Misses | scripts/processor.py:24 | the comprehension has at most one element per folder of the filter |
| Processor.MissesAll | scripts/processor.py:24 | every folder is missed exactly when the path contains none of them |
| Processor.GateStopsIff | scripts/processor.py:24-26 | the handler stops at the filter exactly when the filter is not empty and the path contains none of its folders |
| Processor.EmptyFolderPasses | scripts/processor.py:24-26 | an empty folder in the filter lets every path through, since the empty string is in every path |
| Processor.FolderInPathPasses | scripts/processor.py:24-26 | a path that contains one of the folders passes the filter |
| Processor.EventHandler.constructor | scripts/processor.py:13 | the source's handler has no `path` until line 20 sets it; the empty string stands for "no event yet" |
| Processor.EventHandler.OnCreated | scripts/processor.py:19-45 | the handler records the event's path, and the outcome is `Handle` of the event: skipped, aborted, or the report with its warnings and its log |
| Processor.SkippedIff | scripts/processor.py:24-26 | the event is skipped exactly when its path does not qualify |
| Processor.EmptyFilterPasses | scripts/processor.py:24-26 | an empty filter lets every path through |
| Processor.WorkingFileDispatch | scripts/processor.py:30-31 | a qualifying `.sdlxliff` path gives a report with exactly its base name, holding the providers of its bytes |
| Processor.AbortedIff | scripts/processor.py:33-36 | the handler aborts exactly when a qualifying non-working file cannot be opened, and then it reaches neither the blacklist nor the log |
| Processor.PackageDispatch | scripts/processor.py:33-45 | a package that opens after PermissionErrors gives the archive's report, its warnings and its log |
| Processor.RepeatedPairInWorkingFile | scripts/processor.py:30-31 | a qualifying working file holding the same pair twice is reported under its base name with that pair once, with count 2 |
| Processor.NoWorkingFiles | scripts/processor.py:64-72 | an archive without working files gives an empty report, no warning, and a log holding only the header |

## Left out

- The watchfolder thread, the observer and its patterns (`watchfolder.py`) are not part of this model: the handler is called with one event.
- `load_config`: reading `data/config.ini` is I/O. The filter and the blacklist are parameters of `OnCreated`.
- `time.sleep` and the console prints, including the dots of the retry loop, have no effect on the result.
- The file system:
  - a working file is given by its bytes;
  - a package is given by the outcome of each attempt to open it;
  - the exception `open` may raise in `read_working_file` is not modelled;
  - `BadZipFile` and the other zip errors the code does not catch are not modelled;
  - a PermissionError is modelled only when the archive is opened, not while its members are read.
- `print_warning`: appending to `MT WARNING.txt` is I/O. The outcome carries the `mt_providers` it would be given.
- Logging format and handlers: the log is a sequence of records, not formatted lines.
- `.decode('utf8')` on origins and systems: names stay as their bytes. Decoding is injective on valid UTF-8, so equality and dict keys behave the same. Blacklist entries and the `auto-propagated` literal are compared as their UTF-8 bytes. Invalid UTF-8, which would raise, is not modelled.
- `Text.Basename`: splits on both `/` and `\`, as `os.path` does on Windows. Drive letters are not modelled.
- Providers.GetProviders: models the corrected function (see Findings). The handler uses it, so the model does not capture the KeyError that the code as written raises on every file with a pair.
- The tests in `tests/test_watchfolder.py` call an older interface of the processor and are not part of this model.

## Findings

| source | as written | input that shows it | evidently intended | confidence | as-written member | corrected member |
|---|---|---|---|---|---|---|
| scripts/processor.py:173-178 | `count = defaultdict()` has no default factory, so the first `count[j] += 1` raises KeyError | any working file holding one pair, e.g. the bytes of `origin="mt" origin-system="Acme MT"` | `defaultdict(int)`: each system's counter starts at 0 and the pair is stored with count 1 | high; not executed | Providers.GetProvidersAsWritten | Providers.SinglePairCounted |
| scripts/processor.py:181 | `return providers` is inside the `for` loop, so at most one pair is counted, and a file without any pair falls off the end and returns None; the None then makes `check_against_blacklist` or `log_providers` raise AttributeError | a working file with no `origin=` attribute | return after the loop: every pair is counted, and a file without pairs gives an empty dict | high; not executed | Providers.GetProvidersAsWritten | Providers.NoPairsNoProviders |
