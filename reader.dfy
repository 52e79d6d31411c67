/** `read_working_file` and `read_return_package`: turn the delivered file
    into a report, `providers[file][origin][system] = count`.

    The file system is not part of the model. A working file is given by its
    bytes; a return package by the outcome of each attempt to open it, which
    is either the archive (its members in order, each a name and the bytes
    it holds) or one of the two errors the processor catches. */
module Reader {
  import opened Text
  import opened Dicts
  import opened Scanner
  import opened Providers

  /** `providers[file] = get_providers(...)`, keyed by working-file name. */
  type Report = Dict<string, Counts>

  /** Every level of the report is a well formed dict. */
  ghost predicate ReportValid(r: Report) {
    Valid(r) && forall f :: f in r.entries ==> CountsValid(r.entries[f])
  }

  /** The extension of a working file. */
  const WORKING_FILE_EXT: string := ".sdlxliff"

  /** The bound of `while timeout < 10`. */
  const MAX_ATTEMPTS: nat := 10

  predicate IsWorkingFile(name: string) {
    EndsWith(name, WORKING_FILE_EXT)
  }

  /** The report of a single working file. */
  function WorkingFileReport(path: string, content: seq<byte>): (r: Report) {
    Dict([Basename(path)], map[Basename(path) := CountsOf(content)])
  }

  /** `read_working_file`: one entry, under the base name of the path, for
      the providers of the file's bytes. */
  method ReadWorkingFile(path: string, content: seq<byte>) returns (providers: Report)
    ensures providers.keys == [Basename(path)]
    ensures Basename(path) in providers.entries && providers.entries[Basename(path)] == CountsOf(content)
    ensures ReportValid(providers)
    ensures providers == WorkingFileReport(path, content)
  {
    providers := Empty();
    var counts := GetProviders(content);
    PutValid(providers, Basename(path), counts);
    providers := Put(providers, Basename(path), counts);
    TallyValid(Scan(content));
  }

  /** One member of a zip archive. */
  datatype Member = Member(name: string, data: seq<byte>)

  /** A zip archive: its members in the order of its central directory. */
  datatype Archive = Archive(members: seq<Member>)

  /** `namelist()`: the names of all members in order, repeated names included. */
  function NameList(a: Archive): (names: seq<string>)
    ensures |names| == |a.members|
    ensures forall i :: 0 <= i < |names| ==> names[i] == a.members[i].name
    decreases |a.members|
  {
    if a.members == [] then []
    else NameList(Archive(a.members[..|a.members| - 1])) + [a.members[|a.members| - 1].name]
  }

  /** `open(name).read()`: zipfile looks a name up in a table that a later
      member of the same name overwrites, so the bytes read are those of the
      LAST member with that name (no bytes for a name not in the archive). */
  function MemberData(a: Archive, name: string): (data: seq<byte>)
    decreases |a.members|
  {
    if a.members == [] then []
    else if a.members[|a.members| - 1].name == name then a.members[|a.members| - 1].data
    else MemberData(Archive(a.members[..|a.members| - 1]), name)
  }

  /** The bytes read for a name are those of the last member with that name. */
  lemma {:induction false} MemberDataIsLast(a: Archive, i: nat)
    requires i < |a.members|
    requires forall j :: i < j < |a.members| ==> a.members[j].name != a.members[i].name
    ensures MemberData(a, a.members[i].name) == a.members[i].data
    decreases |a.members|
  {
    if i < |a.members| - 1 {
      var init := Archive(a.members[..|a.members| - 1]);
      assert init.members[i] == a.members[i];
      forall j | i < j < |init.members| ensures init.members[j].name != init.members[i].name {
        assert init.members[j] == a.members[j];
      }
      MemberDataIsLast(init, i);
    }
  }

  /** The loop over the given names: every working-file name gets the
      providers of the bytes read for it. */
  function PackageReport(a: Archive, names: seq<string>): (r: Report)
    decreases |names|
  {
    if names == [] then Empty()
    else
      var prev := PackageReport(a, names[..|names| - 1]);
      var fp := names[|names| - 1];
      if IsWorkingFile(fp) then Put(prev, fp, CountsOf(MemberData(a, fp))) else prev
  }

  /** The report of a whole archive. */
  function ReportOf(a: Archive): (r: Report) {
    PackageReport(a, NameList(a))
  }

  /** The report's files are exactly the working-file names among the given
      ones, each with the providers of the bytes read for it, and every
      level of the report is well formed. */
  lemma {:induction false} PackageReportEntries(a: Archive, names: seq<string>)
    ensures ReportValid(PackageReport(a, names))
    ensures forall f :: f in PackageReport(a, names).entries <==> f in names && IsWorkingFile(f)
    ensures forall f :: f in PackageReport(a, names).entries ==>
      PackageReport(a, names).entries[f] == CountsOf(MemberData(a, f))
    decreases |names|
  {
    if names != [] {
      var init := names[..|names| - 1];
      var fp := names[|names| - 1];
      PackageReportEntries(a, init);
      assert names == init + [fp];
      if IsWorkingFile(fp) {
        var prev := PackageReport(a, init);
        PutValid(prev, fp, CountsOf(MemberData(a, fp)));
        TallyValid(Scan(MemberData(a, fp)));
      }
    }
  }

  /** The files of an archive's report are exactly its working-file members,
      and each holds the providers of the bytes of the last member with that
      name: a later member of the same name overwrites an earlier one. */
  lemma ReportOfMembers(a: Archive, i: nat)
    requires i < |a.members| && IsWorkingFile(a.members[i].name)
    requires forall j :: i < j < |a.members| ==> a.members[j].name != a.members[i].name
    ensures a.members[i].name in ReportOf(a).entries
    ensures ReportOf(a).entries[a.members[i].name] == CountsOf(a.members[i].data)
  {
    PackageReportEntries(a, NameList(a));
    assert NameList(a)[i] == a.members[i].name;
    MemberDataIsLast(a, i);
  }

  /** What one attempt to open the package gives. */
  datatype OpenOutcome = Opened(archive: Archive) | FileNotFound | PermissionDenied

  /** The result of the retry loop and the number of attempts it made. */
  datatype Attempts = Attempts(result: Option<Report>, tries: nat)

  /** The retry loop from the attempt numbered `timeout`: a success returns
      the report, FileNotFoundError ends with None at once, PermissionError
      goes on to the next attempt, and running out of attempts ends with None. */
  function Retry(env: nat -> OpenOutcome, timeout: nat): (r: Attempts)
    requires timeout <= MAX_ATTEMPTS
    ensures timeout <= r.tries <= MAX_ATTEMPTS
    ensures r.tries == timeout <==> timeout == MAX_ATTEMPTS
    decreases MAX_ATTEMPTS - timeout
  {
    if timeout == MAX_ATTEMPTS then Attempts(None, MAX_ATTEMPTS)
    else
      match env(timeout)
      case Opened(a) => Attempts(Some(ReportOf(a)), timeout + 1)
      case FileNotFound => Attempts(None, timeout + 1)
      case PermissionDenied => Retry(env, timeout + 1)
  }

  /** Every attempt but the last met a PermissionError; the loop stopped
      early only at a success or a FileNotFoundError; and a report comes back
      exactly when the last attempt opened the archive, and it is that
      archive's report. */
  lemma {:induction false} RetryDecides(env: nat -> OpenOutcome, timeout: nat)
    requires timeout <= MAX_ATTEMPTS
    ensures timeout < Retry(env, timeout).tries ==>
      forall u: nat :: timeout <= u < Retry(env, timeout).tries - 1 ==> env(u) == PermissionDenied
    ensures timeout < Retry(env, timeout).tries < MAX_ATTEMPTS ==> !env(Retry(env, timeout).tries - 1).PermissionDenied?
    ensures Retry(env, timeout).result.Some? <==>
      timeout < Retry(env, timeout).tries && env(Retry(env, timeout).tries - 1).Opened?
    ensures Retry(env, timeout).result.Some? ==>
      Retry(env, timeout).result == Some(ReportOf(env(Retry(env, timeout).tries - 1).archive))
    decreases MAX_ATTEMPTS - timeout
  {
    if timeout < MAX_ATTEMPTS && env(timeout).PermissionDenied? {
      RetryDecides(env, timeout + 1);
    }
  }

  /** `read_return_package`: the retry loop around opening the package, with
      the member loop inside it. `attempts` counts the calls to open. */
  method ReadReturnPackage(env: nat -> OpenOutcome) returns (providers: Option<Report>, attempts: nat)
    ensures Attempts(providers, attempts) == Retry(env, 0)
    ensures 1 <= attempts <= MAX_ATTEMPTS
  {
    var report: Report := Empty();
    var timeout: nat := 0;
    attempts := 0;
    while timeout < MAX_ATTEMPTS
      invariant timeout <= MAX_ATTEMPTS && attempts == timeout
      invariant Retry(env, timeout) == Retry(env, 0)
      invariant report == Empty()
      decreases MAX_ATTEMPTS - timeout
    {
      attempts := attempts + 1;
      match env(timeout) {
        case Opened(a) =>
          var names := NameList(a);
          for n := 0 to |names|
            invariant report == PackageReport(a, names[..n])
          {
            var fp := names[n];
            if IsWorkingFile(fp) {
              var counts := GetProviders(MemberData(a, fp));
              report := Put(report, fp, counts);
            }
            assert names[..n + 1][..n] == names[..n];
          }
          assert names[..|names|] == names;
          providers := Some(report);
          return;
        case FileNotFound =>
          providers := None;
          return;
        case PermissionDenied =>
          // The source's `if timeout == 10: return None` here never fires: the loop guard keeps timeout below 10.
          assert timeout < MAX_ATTEMPTS;
      }
      timeout := timeout + 1;
    }
    providers := None;
  }

  /** Consecutive PermissionErrors from attempt t to attempt k only move the loop on. */
  lemma {:induction false} RetrySkipsDenied(env: nat -> OpenOutcome, t: nat, k: nat)
    requires t <= k <= MAX_ATTEMPTS
    requires forall u :: t <= u < k ==> env(u) == PermissionDenied
    ensures Retry(env, t) == Retry(env, k)
    decreases k - t
  {
    if t < k {
      RetrySkipsDenied(env, t + 1, k);
    }
  }

  /** FileNotFoundError ends the loop with None at once, without a retry. */
  lemma NotFoundNoRetry(env: nat -> OpenOutcome, t: nat)
    requires t < MAX_ATTEMPTS && env(t) == FileNotFound
    requires forall u: nat :: u < t ==> env(u) == PermissionDenied
    ensures Retry(env, 0) == Attempts(None, t + 1)
  {
    RetrySkipsDenied(env, 0, t);
  }

  /** An archive that opens after t PermissionErrors gives its report after t + 1 attempts. */
  lemma OpenedAfterDenials(env: nat -> OpenOutcome, t: nat)
    requires t < MAX_ATTEMPTS && env(t).Opened?
    requires forall u: nat :: u < t ==> env(u) == PermissionDenied
    ensures Retry(env, 0) == Attempts(Some(ReportOf(env(t).archive)), t + 1)
  {
    RetrySkipsDenied(env, 0, t);
  }

  /** Ten PermissionErrors in a row end the loop with None after ten attempts. */
  lemma TenDenials(env: nat -> OpenOutcome)
    requires forall u: nat :: u < MAX_ATTEMPTS ==> env(u) == PermissionDenied
    ensures Retry(env, 0) == Attempts(None, MAX_ATTEMPTS)
  {
    RetrySkipsDenied(env, 0, MAX_ATTEMPTS);
  }

  /** The loop gives a report exactly when one of the first ten attempts
      opens the archive and every attempt before it met a PermissionError. */
  lemma {:induction false} RetrySucceedsIff(env: nat -> OpenOutcome, t: nat)
    requires t <= MAX_ATTEMPTS
    ensures Retry(env, t).result.Some? <==>
      exists k :: t <= k < MAX_ATTEMPTS && env(k).Opened? && forall u :: t <= u < k ==> env(u) == PermissionDenied
    decreases MAX_ATTEMPTS - t
  {
    if t < MAX_ATTEMPTS {
      RetrySucceedsIff(env, t + 1);
      if env(t).PermissionDenied? {
        if exists k :: t <= k < MAX_ATTEMPTS && env(k).Opened? && forall u :: t <= u < k ==> env(u) == PermissionDenied {
          var k :| t <= k < MAX_ATTEMPTS && env(k).Opened? && forall u :: t <= u < k ==> env(u) == PermissionDenied;
          assert k != t;
        }
      } else if env(t).FileNotFound? {
        forall k | t <= k < MAX_ATTEMPTS && env(k).Opened?
          ensures !(forall u :: t <= u < k ==> env(u) == PermissionDenied)
        {
          assert t < k && env(t) != PermissionDenied;
        }
      } else {
        assert t <= t < MAX_ATTEMPTS && env(t).Opened?;
      }
    }
  }

  /** A report the loop returns is well formed at every level. */
  lemma RetryReportValid(env: nat -> OpenOutcome, t: nat)
    requires t <= MAX_ATTEMPTS && Retry(env, t).result.Some?
    ensures ReportValid(Retry(env, t).result.value)
    decreases MAX_ATTEMPTS - t
  {
    if env(t).Opened? {
      PackageReportEntries(env(t).archive, NameList(env(t).archive));
    } else {
      RetryReportValid(env, t + 1);
    }
  }
}
