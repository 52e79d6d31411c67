/** The event handler: what happens when a file is created in a watched
    folder. The delivery-directory filter decides whether the file is
    looked at; a working file is read directly, any other file is opened as
    a return package; the report is checked against the blacklist, and
    logged.

    The configuration (the two lists `load_config` reads) is passed in; so
    are the bytes of a working file and the outcome of each attempt to open
    a package. The warning file that `print_warning` appends to is not
    modelled: the outcome carries the `mt_providers` it would be given. */
module Processor {
  import opened Text
  import opened Dicts
  import opened Scanner
  import opened Providers
  import opened Reader
  import opened Blacklist
  import opened Audit

  /** How many folders of the filter the path does not contain: the length
      of `[True for folder in delivery_dir if folder not in path]`. */
  function Misses(path: string, deliveryDir: seq<string>): (n: nat)
    ensures n <= |deliveryDir|
    decreases |deliveryDir|
  {
    if deliveryDir == [] then 0
    else
      Misses(path, deliveryDir[..|deliveryDir| - 1])
        + (if !Contains(path, deliveryDir[|deliveryDir| - 1]) then 1 else 0)
  }

  /** The test of `on_created`: every folder missed, and the filter not empty. */
  predicate GateStops(path: string, deliveryDir: seq<string>) {
    Misses(path, deliveryDir) == |deliveryDir| && |deliveryDir| != 0
  }

  /** The filter as it is meant: an empty filter lets every path through,
      otherwise the path must contain one of its folders. */
  predicate Qualifies(path: string, deliveryDir: seq<string>) {
    deliveryDir == [] || exists i :: 0 <= i < |deliveryDir| && Contains(path, deliveryDir[i])
  }

  /** Every folder is missed exactly when the path contains none of them. */
  lemma {:induction false} MissesAll(path: string, deliveryDir: seq<string>)
    ensures Misses(path, deliveryDir) == |deliveryDir| <==>
      forall i :: 0 <= i < |deliveryDir| ==> !Contains(path, deliveryDir[i])
    decreases |deliveryDir|
  {
    if deliveryDir != [] {
      var init := deliveryDir[..|deliveryDir| - 1];
      MissesAll(path, init);
      if forall i :: 0 <= i < |init| ==> !Contains(path, init[i]) {
        forall i | 0 <= i < |deliveryDir| - 1 ensures !Contains(path, deliveryDir[i]) {
          assert deliveryDir[i] == init[i];
        }
      }
      if forall i :: 0 <= i < |deliveryDir| ==> !Contains(path, deliveryDir[i]) {
        forall i | 0 <= i < |init| ensures !Contains(path, init[i]) {
          assert init[i] == deliveryDir[i];
        }
      }
    }
  }

  /** The handler stops at the filter exactly when the path does not qualify. */
  lemma GateStopsIff(path: string, deliveryDir: seq<string>)
    ensures GateStops(path, deliveryDir) <==> !Qualifies(path, deliveryDir)
  {
    MissesAll(path, deliveryDir);
  }

  /** An empty folder in the filter lets every path through: `"" in path`
      always holds. */
  lemma EmptyFolderPasses(path: string, deliveryDir: seq<string>)
    requires [] in deliveryDir
    ensures !GateStops(path, deliveryDir)
  {
    EmptyIsContained(path);
    GateStopsIff(path, deliveryDir);
  }

  /** A path that contains one of the folders passes the filter. */
  lemma FolderInPathPasses(path: string, deliveryDir: seq<string>, i: nat, at: nat)
    requires i < |deliveryDir| && OccursAt(path, deliveryDir[i], at)
    ensures !GateStops(path, deliveryDir)
  {
    ContainsIffOccurs(path, deliveryDir[i]);
    GateStopsIff(path, deliveryDir);
  }

  /** How one event ends. */
  datatype Outcome =
    | Skipped
      /** the path did not pass the delivery-directory filter */
    | Aborted
      /** the package could not be opened: "Unable to access file" */
    | Checked(providers: Report, mtProviders: Warnings, log: seq<Record>)
      /** the report, what `print_warning` is given when it is not empty,
          and the audit trail */

  /** What the handler does with one event. */
  function Handle(path: string, deliveryDir: seq<string>, blacklisted: seq<Name>,
                  content: seq<byte>, env: nat -> OpenOutcome): (outcome: Outcome)
  {
    if GateStops(path, deliveryDir) then Skipped
    else if IsWorkingFile(path) then
      var providers := WorkingFileReport(path, content);
      Checked(providers, WarningsOf(providers, blacklisted), AuditOf(path, providers))
    else
      match Retry(env, 0).result
      case None => Aborted
      case Some(providers) => Checked(providers, WarningsOf(providers, blacklisted), AuditOf(path, providers))
  }

  /** The watchdog handler; `path` is the path of the last event. */
  class EventHandler {
    var path: string

    /** The source's handler has no `path` until its first event; the empty
        string stands for "no event yet". */
    constructor ()
      ensures path == []
    {
      path := [];
    }

    /** `on_created`, with the configuration, the bytes of a working file
        and the outcome of each attempt to open a package as parameters. */
    method OnCreated(srcPath: string, deliveryDir: seq<string>, blacklisted: seq<Name>,
                     content: seq<byte>, env: nat -> OpenOutcome) returns (outcome: Outcome)
      modifies this
      ensures path == srcPath
      ensures outcome == Handle(srcPath, deliveryDir, blacklisted, content, env)
    {
      path := srcPath;
      if Misses(path, deliveryDir) == |deliveryDir| && |deliveryDir| != 0 {
        return Skipped;
      }
      var providers: Report;
      if EndsWith(path, WORKING_FILE_EXT) {
        providers := ReadWorkingFile(path, content);
      } else {
        var read, attempts := ReadReturnPackage(env);
        if read.None? {
          return Aborted;
        }
        providers := read.value;
        RetryReportValid(env, 0);
      }
      var mtProviders := CheckAgainstBlacklist(providers, blacklisted);
      var log := LogProviders(path, providers);
      outcome := Checked(providers, mtProviders, log);
    }
  }

  /** A path that does not qualify ends the handler at once, and one that
      qualifies never does. */
  lemma SkippedIff(path: string, deliveryDir: seq<string>, blacklisted: seq<Name>,
                   content: seq<byte>, env: nat -> OpenOutcome)
    ensures Handle(path, deliveryDir, blacklisted, content, env) == Skipped <==> !Qualifies(path, deliveryDir)
  {
    GateStopsIff(path, deliveryDir);
  }

  /** An empty filter lets every path through. */
  lemma EmptyFilterPasses(path: string, blacklisted: seq<Name>, content: seq<byte>, env: nat -> OpenOutcome)
    ensures Handle(path, [], blacklisted, content, env) != Skipped
  {
  }

  /** A working file that passes the filter gives a report with exactly one
      file, its base name, holding the providers of its bytes. */
  lemma WorkingFileDispatch(path: string, deliveryDir: seq<string>, blacklisted: seq<Name>,
                            content: seq<byte>, env: nat -> OpenOutcome)
    requires Qualifies(path, deliveryDir) && IsWorkingFile(path)
    ensures Handle(path, deliveryDir, blacklisted, content, env).Checked?
    ensures Handle(path, deliveryDir, blacklisted, content, env).providers.keys == [Basename(path)]
    ensures Handle(path, deliveryDir, blacklisted, content, env).providers.entries == map[Basename(path) := CountsOf(content)]
  {
    GateStopsIff(path, deliveryDir);
  }

  /** The handler aborts exactly when a qualifying path that is not a working
      file cannot be opened; it then never reaches the blacklist check. */
  lemma AbortedIff(path: string, deliveryDir: seq<string>, blacklisted: seq<Name>,
                   content: seq<byte>, env: nat -> OpenOutcome)
    ensures Handle(path, deliveryDir, blacklisted, content, env) == Aborted <==>
      Qualifies(path, deliveryDir) && !IsWorkingFile(path) && Retry(env, 0).result == None
  {
    GateStopsIff(path, deliveryDir);
  }

  /** A package that opens gives the report of the archive, checked and logged. */
  lemma PackageDispatch(path: string, deliveryDir: seq<string>, blacklisted: seq<Name>,
                        content: seq<byte>, env: nat -> OpenOutcome, t: nat)
    requires Qualifies(path, deliveryDir) && !IsWorkingFile(path)
    requires t < MAX_ATTEMPTS && env(t).Opened? && forall u: nat :: u < t ==> env(u) == PermissionDenied
    ensures Handle(path, deliveryDir, blacklisted, content, env) ==
      Checked(ReportOf(env(t).archive), WarningsOf(ReportOf(env(t).archive), blacklisted), AuditOf(path, ReportOf(env(t).archive)))
  {
    GateStopsIff(path, deliveryDir);
    OpenedAfterDenials(env, t);
  }

  /** A working file whose only pairs are two equal ones is reported under
      its base name with the count 2 under that origin and system: the
      counter is not reset. */
  lemma RepeatedPairInWorkingFile(path: string, deliveryDir: seq<string>, blacklisted: seq<Name>,
                                  env: nat -> OpenOutcome, p: Pair)
    requires Qualifies(path, deliveryDir) && IsWorkingFile(path) && IsPairOfValues(p)
    ensures Handle(path, deliveryDir, blacklisted, RenderAll(PROVIDERS, [p, p]), env).Checked?
    ensures Handle(path, deliveryDir, blacklisted, RenderAll(PROVIDERS, [p, p]), env).providers.entries
      == map[Basename(path) := CountsOf(RenderAll(PROVIDERS, [p, p]))]
    ensures CountsOf(RenderAll(PROVIDERS, [p, p])).keys == [p.origin]
    ensures Has(CountsOf(RenderAll(PROVIDERS, [p, p])), p.origin, p.system)
    ensures CountsOf(RenderAll(PROVIDERS, [p, p])).entries[p.origin].keys == [p.system]
    ensures Stored(CountsOf(RenderAll(PROVIDERS, [p, p])), p.origin, p.system) == 2
  {
    WorkingFileDispatch(path, deliveryDir, blacklisted, RenderAll(PROVIDERS, [p, p]), env);
    ScanProviders([p, p]);
    RepeatedPair(p.origin, p.system);
  }

  /** An archive without any working file gives an empty report, no warning
      and an audit trail with only its header. */
  lemma NoWorkingFiles(path: string, a: Archive, blacklisted: seq<Name>)
    requires forall i :: 0 <= i < |a.members| ==> !IsWorkingFile(a.members[i].name)
    ensures ReportOf(a).keys == []
    ensures WarningsOf(ReportOf(a), blacklisted).keys == []
    ensures AuditOf(path, ReportOf(a)) == [Deliverable(path)]
  {
    PackageReportEntries(a, NameList(a));
    var r := ReportOf(a);
    forall f ensures f !in r.entries {
      if f in NameList(a) {
        var i :| 0 <= i < |NameList(a)| && NameList(a)[i] == f;
        assert !IsWorkingFile(a.members[i].name);
      }
    }
    assert r.entries == map[];
    SizeIsKeyCount(r);
  }
}
