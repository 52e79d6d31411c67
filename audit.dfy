/** `log_providers`: the audit trail of one deliverable, as the sequence of
    records it hands to the logger. Formatting, levels and timestamps belong
    to the logger and are not modelled. Origin `auto-propagated` (matches
    pre-filled from translation memory) is left out of the trail. */
module Audit {
  import opened Text
  import opened Dicts
  import opened Providers
  import opened Reader

  /** `Deliverable: <path>`, then one `<file>\t<system>\t<count>` per counted system. */
  datatype Record = Deliverable(path: string) | Provider(file: string, system: Name, count: nat)

  /** The bytes of "auto-propagated". */
  const AUTO_PROPAGATED: Name := [97, 117, 116, 111, 45, 112, 114, 111, 112, 97, 103, 97, 116, 101, 100]

  /** The innermost loop over the given systems of one origin. */
  function SystemRecords(fp: string, systems: Dict<Name, nat>, names: seq<Name>): (rs: seq<Record>)
    decreases |names|
  {
    if names == [] then []
    else
      var system := names[|names| - 1];
      SystemRecords(fp, systems, names[..|names| - 1]) + [Provider(fp, system, GetOr(systems, system, 0))]
  }

  /** The records of one origin of a file: none for `auto-propagated`. */
  function RecordsOfOrigin(fp: string, details: Counts, k: Name): (rs: seq<Record>) {
    var v := GetOr(details, k, Empty());
    if k != AUTO_PROPAGATED then SystemRecords(fp, v, v.keys) else []
  }

  /** The middle loop over the given origins of one file. */
  function OriginRecords(fp: string, details: Counts, origins: seq<Name>): (rs: seq<Record>)
    decreases |origins|
  {
    if origins == [] then []
    else OriginRecords(fp, details, origins[..|origins| - 1]) + RecordsOfOrigin(fp, details, origins[|origins| - 1])
  }

  /** The records of one file of the report. */
  function RecordsOfFile(report: Report, fp: string): (rs: seq<Record>) {
    var details := GetOr(report, fp, Empty());
    OriginRecords(fp, details, details.keys)
  }

  /** The header, then the outer loop over the given files of the report. */
  function AuditOver(path: string, report: Report, files: seq<string>): (rs: seq<Record>)
    decreases |files|
  {
    if files == [] then [Deliverable(path)]
    else AuditOver(path, report, files[..|files| - 1]) + RecordsOfFile(report, files[|files| - 1])
  }

  /** What `log_providers` logs for a deliverable and its report. */
  function AuditOf(path: string, report: Report): (rs: seq<Record>) {
    AuditOver(path, report, report.keys)
  }

  /** `log_providers`: the header, then the records of each file in turn. */
  method LogProviders(path: string, providers: Report) returns (records: seq<Record>)
    requires ReportValid(providers)
    ensures records == AuditOf(path, providers)
  {
    records := [Deliverable(path)];
    var files := providers.keys;
    for n := 0 to |files|
      invariant records == AuditOver(path, providers, files[..n])
    {
      var fp := files[n];
      KeyStored(providers, n);
      var lines := LogFile(fp, providers.entries[fp]);
      records := records + lines;
      AuditOverSnoc(path, providers, files, n);
    }
    assert files[..|files|] == files;
  }

  /** The two inner loops of `log_providers`, for one file: each origin other
      than `auto-propagated`, and in it each system with its count. */
  method LogFile(fp: string, details: Counts) returns (records: seq<Record>)
    requires CountsValid(details)
    ensures records == OriginRecords(fp, details, details.keys)
  {
    records := [];
    var origins := details.keys;
    for m := 0 to |origins|
      invariant records == OriginRecords(fp, details, origins[..m])
    {
      var k := origins[m];
      KeyStored(details, m);
      var v := details.entries[k];
      ghost var before := records;
      if k != AUTO_PROPAGATED {
        var systems := v.keys;
        for i := 0 to |systems|
          invariant records == before + SystemRecords(fp, v, systems[..i])
        {
          var system := systems[i];
          KeyStored(v, i);
          records := records + [Provider(fp, system, v.entries[system])];
          SystemRecordsSnoc(fp, v, systems, i);
        }
        assert systems[..|systems|] == systems;
      }
      OriginRecordsSnoc(fp, details, origins, m);
    }
    assert origins[..|origins|] == origins;
  }

  /** One more system appends its record. */
  lemma SystemRecordsSnoc(fp: string, systems: Dict<Name, nat>, names: seq<Name>, i: nat)
    requires i < |names|
    ensures SystemRecords(fp, systems, names[..i + 1]) ==
      SystemRecords(fp, systems, names[..i]) + [Provider(fp, names[i], GetOr(systems, names[i], 0))]
  {
    assert names[..i + 1][..i] == names[..i];
  }

  /** One more origin appends its records. */
  lemma OriginRecordsSnoc(fp: string, details: Counts, origins: seq<Name>, m: nat)
    requires m < |origins|
    ensures OriginRecords(fp, details, origins[..m + 1]) ==
      OriginRecords(fp, details, origins[..m]) + RecordsOfOrigin(fp, details, origins[m])
  {
    assert origins[..m + 1][..m] == origins[..m];
  }

  /** One more file appends its records. */
  lemma AuditOverSnoc(path: string, report: Report, files: seq<string>, n: nat)
    requires n < |files|
    ensures AuditOver(path, report, files[..n + 1]) == AuditOver(path, report, files[..n]) + RecordsOfFile(report, files[n])
  {
    assert files[..n + 1][..n] == files[..n];
  }

  /** A system record of one origin names a system of that origin with its count. */
  lemma {:induction false} SystemRecordsIff(fp: string, systems: Dict<Name, nat>, names: seq<Name>, r: Record)
    ensures r in SystemRecords(fp, systems, names) <==>
      r.Provider? && r.file == fp && r.system in names && r.count == GetOr(systems, r.system, 0)
    ensures |SystemRecords(fp, systems, names)| == |names|
    decreases |names|
  {
    if names != [] {
      var init := names[..|names| - 1];
      SystemRecordsIff(fp, systems, init, r);
      assert names == init + [names[|names| - 1]];
    }
  }

  /** A record of one file comes from one of its origins. */
  lemma {:induction false} OriginRecordsIff(fp: string, details: Counts, origins: seq<Name>, r: Record)
    ensures r in OriginRecords(fp, details, origins) <==>
      exists i :: 0 <= i < |origins| && r in RecordsOfOrigin(fp, details, origins[i])
    decreases |origins|
  {
    if origins != [] {
      var init := origins[..|origins| - 1];
      OriginRecordsIff(fp, details, init, r);
      if exists i :: 0 <= i < |origins| && r in RecordsOfOrigin(fp, details, origins[i]) {
        var i :| 0 <= i < |origins| && r in RecordsOfOrigin(fp, details, origins[i]);
        if i < |init| {
          assert init[i] == origins[i];
        }
      }
      if exists i :: 0 <= i < |init| && r in RecordsOfOrigin(fp, details, init[i]) {
        var i :| 0 <= i < |init| && r in RecordsOfOrigin(fp, details, init[i]);
        assert origins[i] == init[i];
      }
    }
  }

  /** A record of the trail is the header or comes from one of the given files. */
  lemma {:induction false} AuditOverIff(path: string, report: Report, files: seq<string>, r: Record)
    ensures r in AuditOver(path, report, files) <==>
      r == Deliverable(path) || exists i :: 0 <= i < |files| && r in RecordsOfFile(report, files[i])
    decreases |files|
  {
    if files != [] {
      var init := files[..|files| - 1];
      AuditOverIff(path, report, init, r);
      if exists i :: 0 <= i < |files| && r in RecordsOfFile(report, files[i]) {
        var i :| 0 <= i < |files| && r in RecordsOfFile(report, files[i]);
        if i < |init| {
          assert init[i] == files[i];
        }
      }
      if exists i :: 0 <= i < |init| && r in RecordsOfFile(report, init[i]) {
        var i :| 0 <= i < |init| && r in RecordsOfFile(report, init[i]);
        assert files[i] == init[i];
      }
    }
  }

  /** A record of one origin names a system counted under it, with its count,
      and the origin is not `auto-propagated`. */
  lemma RecordsOfOriginIff(file: string, details: Counts, o: Name, system: Name, count: nat)
    requires CountsValid(details) && o in details.entries
    ensures Provider(file, system, count) in RecordsOfOrigin(file, details, o) <==>
      o != AUTO_PROPAGATED && system in details.entries[o].entries && details.entries[o].entries[system] == count
  {
    SystemRecordsIff(file, details.entries[o], details.entries[o].keys, Provider(file, system, count));
    KeysListed(details.entries[o], system);
  }

  /** The records of one file are those of its origins other than `auto-propagated`. */
  lemma RecordsOfFileIff(report: Report, file: string, system: Name, count: nat)
    requires ReportValid(report) && file in report.entries
    ensures Provider(file, system, count) in RecordsOfFile(report, file) <==>
      exists o :: o in report.entries[file].entries && o != AUTO_PROPAGATED &&
        system in report.entries[file].entries[o].entries && report.entries[file].entries[o].entries[system] == count
  {
    var r := Provider(file, system, count);
    var details := report.entries[file];
    OriginRecordsIff(file, details, details.keys, r);
    if r in RecordsOfFile(report, file) {
      var i :| 0 <= i < |details.keys| && r in RecordsOfOrigin(file, details, details.keys[i]);
      KeyStored(details, i);
      RecordsOfOriginIff(file, details, details.keys[i], system, count);
    }
    if exists o :: o in details.entries && o != AUTO_PROPAGATED &&
        system in details.entries[o].entries && details.entries[o].entries[system] == count {
      var o :| o in details.entries && o != AUTO_PROPAGATED &&
        system in details.entries[o].entries && details.entries[o].entries[system] == count;
      KeysListed(details, o);
      var j :| 0 <= j < |details.keys| && details.keys[j] == o;
      RecordsOfOriginIff(file, details, o, system, count);
    }
  }

  /** The trail holds a record (file, system, count) exactly when the report
      counts that system with that count under some origin of the file other
      than `auto-propagated`: nothing is logged from that origin, and
      everything else is. */
  lemma AuditRecordIff(path: string, report: Report, file: string, system: Name, count: nat)
    requires ReportValid(report)
    ensures Provider(file, system, count) in AuditOf(path, report) <==>
      file in report.entries &&
      exists o :: o in report.entries[file].entries && o != AUTO_PROPAGATED &&
        system in report.entries[file].entries[o].entries && report.entries[file].entries[o].entries[system] == count
  {
    var r := Provider(file, system, count);
    AuditOverIff(path, report, report.keys, r);
    if r in AuditOf(path, report) {
      var i :| 0 <= i < |report.keys| && r in RecordsOfFile(report, report.keys[i]);
      KeyStored(report, i);
      var details := report.entries[report.keys[i]];
      OriginRecordsIff(report.keys[i], details, details.keys, r);
      var j :| 0 <= j < |details.keys| && r in RecordsOfOrigin(report.keys[i], details, details.keys[j]);
      var v := GetOr(details, details.keys[j], Empty());
      SystemRecordsIff(report.keys[i], v, v.keys, r);
      RecordsOfFileIff(report, file, system, count);
    }
    if file in report.entries {
      RecordsOfFileIff(report, file, system, count);
      KeysListed(report, file);
      var i :| 0 <= i < |report.keys| && report.keys[i] == file;
    }
  }

  /** The number of systems counted under the given origins, `auto-propagated` left out. */
  ghost function OriginTotal(details: Counts, origins: seq<Name>): (n: nat)
    decreases |origins|
  {
    if origins == [] then 0
    else
      var k := origins[|origins| - 1];
      OriginTotal(details, origins[..|origins| - 1]) + (if k != AUTO_PROPAGATED then |GetOr(details, k, Empty()).entries| else 0)
  }

  /** The same number summed over the given files. */
  ghost function FileTotal(report: Report, files: seq<string>): (n: nat)
    decreases |files|
  {
    if files == [] then 0
    else
      var details := GetOr(report, files[|files| - 1], Empty());
      FileTotal(report, files[..|files| - 1]) + OriginTotal(details, details.keys)
  }

  lemma {:induction false} OriginRecordsCount(fp: string, details: Counts, origins: seq<Name>)
    requires CountsValid(details)
    ensures |OriginRecords(fp, details, origins)| == OriginTotal(details, origins)
    decreases |origins|
  {
    if origins != [] {
      var k := origins[|origins| - 1];
      var v := GetOr(details, k, Empty());
      OriginRecordsCount(fp, details, origins[..|origins| - 1]);
      SystemRecordsIff(fp, v, v.keys, Deliverable(fp));
      SizeIsKeyCount(v);
    }
  }

  lemma {:induction false} AuditOverCount(path: string, report: Report, files: seq<string>)
    requires ReportValid(report)
    ensures |AuditOver(path, report, files)| == 1 + FileTotal(report, files)
    decreases |files|
  {
    if files != [] {
      var details := GetOr(report, files[|files| - 1], Empty());
      AuditOverCount(path, report, files[..|files| - 1]);
      OriginRecordsCount(files[|files| - 1], details, details.keys);
    }
  }

  /** Besides the header, the trail has one record per system counted under
      an origin other than `auto-propagated`, summed over all files. */
  lemma AuditLength(path: string, report: Report)
    requires ReportValid(report)
    ensures |AuditOf(path, report)| == 1 + FileTotal(report, report.keys)
  {
    AuditOverCount(path, report, report.keys);
  }
}
