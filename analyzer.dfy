/**
 * The vulnerability correlator of deps/analyzer.go: map a batch of dependencies to
 * package-URL strings, look them all up in one OSS Index request, and turn every
 * report that has vulnerabilities and matches a dependency of the batch into one
 * VulnerableDependency record sent downstream.
 *
 * `Purl.ToString` is not part of this model: every member that needs it takes it as
 * the parameter `purlString`, about which nothing is assumed.
 */
module Deps {
  import opened Wrappers
  import opened Hungryfox
  import OssTypes

  /** The `Source` every converted vulnerability is tagged with. */
  const OssIndexSource: string := "Sonatype OSS Index"

  // ---------------------------------------------------------------------------
  // Conversions (plain struct construction in the source)
  // ---------------------------------------------------------------------------

  /** toVulnerability: the external descriptor with the OSS Index source tag added. */
  function ToVulnerability(vuln: OssTypes.Vulnerability): (r: Vulnerability)
    ensures r.source == OssIndexSource
    ensures r.id == vuln.id && r.title == vuln.title && r.description == vuln.description
    ensures r.cvssScore == vuln.cvssScore && r.cvssVector == vuln.cvssVector
    ensures r.cwe == vuln.cwe && r.cve == vuln.cve && r.reference == vuln.reference
    ensures r.versionRanges == vuln.versionRanges
  {
    Vulnerability(
      source := OssIndexSource,
      id := vuln.id,
      title := vuln.title,
      description := vuln.description,
      cvssScore := vuln.cvssScore,
      cvssVector := vuln.cvssVector,
      cwe := vuln.cwe,
      cve := vuln.cve,
      reference := vuln.reference,
      versionRanges := vuln.versionRanges)
  }

  /** The conversion keeps every field of the descriptor, so no two descriptors collapse. */
  lemma ToVulnerabilityInjective(a: OssTypes.Vulnerability, b: OssTypes.Vulnerability)
    ensures ToVulnerability(a) == ToVulnerability(b) <==> a == b
  {
  }

  /** Every descriptor of a list converted in place; the reference for getVulnerabilities. */
  function ToVulnerabilities(vulns: seq<OssTypes.Vulnerability>): seq<Vulnerability>
  {
    seq(|vulns|, i requires 0 <= i < |vulns| => ToVulnerability(vulns[i]))
  }

  /** The record fields a dependency occurrence contributes to its VulnerableDependency. */
  ghost predicate DescribesDependency(rec: VulnerableDependency, dep: Dependency)
  {
    && rec.dependencyName == dep.purl.name
    && rec.version == dep.purl.version
    && rec.filePath == dep.diff.filePath
    && rec.repoPath == dep.diff.repoPath
    && rec.repoURL == dep.diff.repoURL
    && rec.commitHash == dep.diff.commitHash
    && rec.timeStamp == dep.diff.timeStamp
    && rec.commitAuthor == dep.diff.author
    && rec.commitEmail == dep.diff.authorEmail
  }

  /** toVulnerableDep: name and version from the purl, provenance from the diff, vulnerabilities as given. */
  function ToVulnerableDep(dep: Dependency, vulns: seq<Vulnerability>): (r: VulnerableDependency)
    ensures DescribesDependency(r, dep)
    ensures r.vulnerabilities == vulns
  {
    VulnerableDependency(
      vulnerabilities := vulns,
      dependencyName := dep.purl.name,
      version := dep.purl.version,
      filePath := dep.diff.filePath,
      repoPath := dep.diff.repoPath,
      repoURL := dep.diff.repoURL,
      commitHash := dep.diff.commitHash,
      timeStamp := dep.diff.timeStamp,
      commitAuthor := dep.diff.author,
      commitEmail := dep.diff.authorEmail)
  }

  /** getVulnerabilities: converts a report's descriptors one by one, appending to the result. */
  method GetVulnerabilities(report: OssTypes.ComponentReport) returns (vulns: seq<Vulnerability>)
    ensures |vulns| == |report.vulnerabilities|
    ensures forall i :: 0 <= i < |vulns| ==> vulns[i] == ToVulnerability(report.vulnerabilities[i])
    ensures vulns == ToVulnerabilities(report.vulnerabilities)
  {
    vulns := [];
    for i := 0 to |report.vulnerabilities|
      invariant |vulns| == i
      invariant forall j :: 0 <= j < i ==> vulns[j] == ToVulnerability(report.vulnerabilities[j])
    {
      vulns := vulns + [ToVulnerability(report.vulnerabilities[i])];
    }
  }

  // ---------------------------------------------------------------------------
  // mapPurls: the coordinate list and the coordinate index
  // ---------------------------------------------------------------------------

  /** The coordinate list of mapPurls: the batch's purl strings, appended in batch order. */
  function Purls(deps: seq<Dependency>, purlString: Purl -> string): (purls: seq<string>)
    ensures |purls| == |deps|
    decreases |deps|
  {
    if deps == [] then []
    else Purls(deps[..|deps| - 1], purlString) + [purlString(deps[|deps| - 1].purl)]
  }

  /** The coordinate list has one entry per dependency, at the dependency's own position. */
  lemma {:induction false} PurlsPositions(deps: seq<Dependency>, purlString: Purl -> string)
    ensures forall i :: 0 <= i < |deps| ==> Purls(deps, purlString)[i] == purlString(deps[i].purl)
    decreases |deps|
  {
    if deps != [] {
      var n := |deps| - 1;
      PurlsPositions(deps[..n], purlString);
      assert forall i :: 0 <= i < n ==> deps[..n][i] == deps[i];
    }
  }

  /**
   * The index built by mapPurls: the dependencies are written into the map in batch
   * order, so a later dependency with the same purl string overwrites an earlier one.
   *
   * The source stores `&dep`, the address of the range variable. This index follows
   * per-iteration loop variables (a module declaring Go 1.22 or later), where every entry
   * keeps its own dependency; AliasedIndex below is what a module declaring an earlier Go
   * version builds instead.
   */
  function Index(deps: seq<Dependency>, purlString: Purl -> string): map<string, Dependency>
    decreases |deps|
  {
    if deps == [] then map[]
    else
      var last := deps[|deps| - 1];
      Index(deps[..|deps| - 1], purlString)[purlString(last.purl) := last]
  }

  /** Position `i` holds the last occurrence of its key in `keys`. */
  ghost predicate LastOccurrence(keys: seq<string>, i: int)
  {
    && 0 <= i < |keys|
    && forall j :: i < j < |keys| ==> keys[j] != keys[i]
  }

  /** The index has exactly the batch's purl strings as keys. */
  lemma {:induction false} IndexKeys(deps: seq<Dependency>, purlString: Purl -> string)
    ensures forall k :: k in Index(deps, purlString) <==> k in Purls(deps, purlString)
    decreases |deps|
  {
    if deps != [] {
      IndexKeys(deps[..|deps| - 1], purlString);
    }
  }

  /**
   * Last write wins: the key of the dependency at position `i`, when no later dependency
   * has the same key, maps to that dependency.
   */
  lemma {:induction false} IndexLastWriteWins(deps: seq<Dependency>, purlString: Purl -> string, i: nat)
    requires LastOccurrence(Purls(deps, purlString), i)
    ensures Purls(deps, purlString)[i] in Index(deps, purlString)
    ensures Index(deps, purlString)[Purls(deps, purlString)[i]] == deps[i]
    decreases |deps|
  {
    var n := |deps| - 1;
    var init := deps[..n];
    var keys, initKeys := Purls(deps, purlString), Purls(init, purlString);
    assert keys == initKeys + [purlString(deps[n].purl)];
    if i < n {
      forall j | i < j < n ensures initKeys[j] != initKeys[i] {
        assert initKeys[j] == keys[j];
      }
      IndexLastWriteWins(init, purlString, i);
      assert keys[i] == initKeys[i] && keys[i] != keys[n];
    }
  }

  /** Every key of a sequence has a last occurrence. */
  lemma {:induction false} LastOccurrenceExists(keys: seq<string>, key: string)
    requires key in keys
    ensures exists j :: LastOccurrence(keys, j) && keys[j] == key
    decreases |keys|
  {
    var n := |keys| - 1;
    if keys[n] == key {
      assert LastOccurrence(keys, n);
    } else {
      var init := keys[..n];
      assert keys == init + [keys[n]];
      LastOccurrenceExists(init, key);
      var j :| LastOccurrence(init, j) && init[j] == key;
      assert LastOccurrence(keys, j);
    }
  }

  /**
   * mapPurls: fills a slice preallocated to the batch size with the purl strings, and
   * the index from purl string to dependency, in one pass over the batch.
   */
  method MapPurls(deps: seq<Dependency>, purlString: Purl -> string)
    returns (purls: seq<string>, depsMap: map<string, Dependency>)
    ensures |purls| == |deps|
    ensures purls == Purls(deps, purlString) && depsMap == Index(deps, purlString)
  {
    var slots := new string[|deps|];
    depsMap := map[];
    for i := 0 to |deps|
      invariant forall j :: 0 <= j < i ==> slots[j] == purlString(deps[j].purl)
      invariant depsMap == Index(deps[..i], purlString)
    {
      var purl := purlString(deps[i].purl);
      slots[i] := purl;
      assert deps[..i + 1][..i] == deps[..i];
      depsMap := depsMap[purl := deps[i]];
    }
    purls := slots[..];
    PurlsPositions(deps, purlString);
    assert deps[..|deps|] == deps;
  }

  // ---------------------------------------------------------------------------
  // Search: correlation of the returned reports with the batch
  // ---------------------------------------------------------------------------

  /** What the logger receives from Search. */
  datatype LogEvent =
    | LookupFailed(err: OssTypes.LookupError)          // warning: the batched request failed
    | NoMatchingDependency(coordinates: string)        // warning: a report matches no dependency
    | VulnerabilitiesFound(file: string, count: nat)   // debug: a record is about to be sent

  /** A report is correlated when it has vulnerabilities and its coordinates are a key of the index. */
  predicate Matched(report: OssTypes.ComponentReport, index: map<string, Dependency>)
  {
    |report.vulnerabilities| > 0 && report.coordinates in index
  }

  /** The record Search sends for a correlated report. */
  function RecordFor(report: OssTypes.ComponentReport, index: map<string, Dependency>): VulnerableDependency
    requires report.coordinates in index
  {
    ToVulnerableDep(index[report.coordinates], ToVulnerabilities(report.vulnerabilities))
  }

  /** What Search sends for one report: one record if it is correlated, nothing otherwise. */
  function Emission(report: OssTypes.ComponentReport, index: map<string, Dependency>): seq<VulnerableDependency>
  {
    if Matched(report, index) then [RecordFor(report, index)] else []
  }

  /** What Search logs for one report after a successful lookup. */
  function ReportDiagnostics(report: OssTypes.ComponentReport, index: map<string, Dependency>): seq<LogEvent>
  {
    if |report.vulnerabilities| == 0 then []
    else if report.coordinates !in index then [NoMatchingDependency(report.coordinates)]
    else [VulnerabilitiesFound(index[report.coordinates].diff.filePath, |report.vulnerabilities|)]
  }

  /** Everything Search sends for a list of reports, in report order. */
  function Correlate(reports: seq<OssTypes.ComponentReport>, index: map<string, Dependency>): seq<VulnerableDependency>
    decreases |reports|
  {
    if reports == [] then []
    else Correlate(reports[..|reports| - 1], index) + Emission(reports[|reports| - 1], index)
  }

  /** Everything Search logs for a list of reports, in report order. */
  function Diagnostics(reports: seq<OssTypes.ComponentReport>, index: map<string, Dependency>): seq<LogEvent>
    decreases |reports|
  {
    if reports == [] then []
    else Diagnostics(reports[..|reports| - 1], index) + ReportDiagnostics(reports[|reports| - 1], index)
  }

  /** Correlation is compositional: the output for a split list is the two outputs in order. */
  lemma {:induction false} CorrelateAppend(a: seq<OssTypes.ComponentReport>, b: seq<OssTypes.ComponentReport>, index: map<string, Dependency>)
    ensures Correlate(a + b, index) == Correlate(a, index) + Correlate(b, index)
    decreases |b|
  {
    if b == [] {
      assert a + b == a;
    } else {
      var n := |b| - 1;
      assert (a + b)[..|a + b| - 1] == a + b[..n];
      CorrelateAppend(a, b[..n], index);
    }
  }

  /** Processing one more report appends its emission and its diagnostics. */
  lemma CorrelateSnoc(reports: seq<OssTypes.ComponentReport>, report: OssTypes.ComponentReport, index: map<string, Dependency>)
    ensures Correlate(reports + [report], index) == Correlate(reports, index) + Emission(report, index)
    ensures Diagnostics(reports + [report], index) == Diagnostics(reports, index) + ReportDiagnostics(report, index)
  {
    assert (reports + [report])[..|reports|] == reports;
  }

  /**
   * Sequence concatenation regroups. Dafny proves this unaided, but the loop of
   * ProcessReports is several times cheaper for the solver when it is handed the regrouping.
   */
  lemma AppendAssoc<T>(a: seq<T>, b: seq<T>, c: seq<T>)
    ensures a + (b + c) == (a + b) + c
  {
  }

  /** Output position of the record for report `i`: the number of records sent before it. */
  function Position(reports: seq<OssTypes.ComponentReport>, index: map<string, Dependency>, i: nat): nat
    requires i <= |reports|
  {
    |Correlate(reports[..i], index)|
  }

  /** Each correlated report gets its record, at its position in the output. */
  lemma CorrelateCovers(reports: seq<OssTypes.ComponentReport>, index: map<string, Dependency>, i: nat)
    requires i < |reports| && Matched(reports[i], index)
    ensures Position(reports, index, i) < |Correlate(reports, index)|
    ensures Correlate(reports, index)[Position(reports, index, i)] == RecordFor(reports[i], index)
    ensures Position(reports, index, i + 1) == Position(reports, index, i) + 1
  {
    assert reports[..i + 1][..i] == reports[..i];
    assert reports == reports[..i + 1] + reports[i + 1..];
    CorrelateAppend(reports[..i + 1], reports[i + 1..], index);
  }

  /** A report that is not correlated takes no place in the output. */
  lemma UnmatchedReportSendsNothing(reports: seq<OssTypes.ComponentReport>, index: map<string, Dependency>, i: nat)
    requires i < |reports| && !Matched(reports[i], index)
    ensures Position(reports, index, i + 1) == Position(reports, index, i)
  {
    assert reports[..i + 1][..i] == reports[..i];
  }

  /**
   * The trace of the report at position `i`, among any others: an empty report sends and
   * logs nothing; one with vulnerabilities and unknown coordinates sends nothing and logs
   * exactly one warning naming them; a correlated one sends its record and logs exactly
   * one event with the dependency's file and the vulnerability count.
   */
  lemma ReportTrace(reports: seq<OssTypes.ComponentReport>, index: map<string, Dependency>, i: nat)
    requires i < |reports|
    ensures reports[i].vulnerabilities == [] ==>
      && Correlate(reports[..i + 1], index) == Correlate(reports[..i], index)
      && Diagnostics(reports[..i + 1], index) == Diagnostics(reports[..i], index)
    ensures |reports[i].vulnerabilities| > 0 && reports[i].coordinates !in index ==>
      && Correlate(reports[..i + 1], index) == Correlate(reports[..i], index)
      && Diagnostics(reports[..i + 1], index)
           == Diagnostics(reports[..i], index) + [NoMatchingDependency(reports[i].coordinates)]
    ensures Matched(reports[i], index) ==>
      && Correlate(reports[..i + 1], index)
           == Correlate(reports[..i], index) + [RecordFor(reports[i], index)]
      && Diagnostics(reports[..i + 1], index) == Diagnostics(reports[..i], index)
           + [VulnerabilitiesFound(index[reports[i].coordinates].diff.filePath, |reports[i].vulnerabilities|)]
  {
    assert reports[..i + 1][..i] == reports[..i];
  }

  /** Positions never decrease along the report list. */
  lemma PositionMonotone(reports: seq<OssTypes.ComponentReport>, index: map<string, Dependency>, i: nat, j: nat)
    requires i <= j <= |reports|
    ensures Position(reports, index, i) <= Position(reports, index, j)
  {
    assert reports[..j] == reports[..i] + reports[i..j];
    CorrelateAppend(reports[..i], reports[i..j], index);
  }

  /** The records of two correlated reports are sent in the order of the reports. */
  lemma CorrelateKeepsReportOrder(reports: seq<OssTypes.ComponentReport>, index: map<string, Dependency>, i: nat, j: nat)
    requires i < j < |reports|
    requires Matched(reports[i], index) && Matched(reports[j], index)
    ensures Position(reports, index, i) < Position(reports, index, j)
  {
    CorrelateCovers(reports, index, i);
    PositionMonotone(reports, index, i + 1, j);
  }

  /**
   * Every record sent comes from exactly the correlated report at its position: the
   * record's vulnerabilities are that report's, converted, so their count is the report's.
   */
  lemma {:induction false} CorrelateOrigin(reports: seq<OssTypes.ComponentReport>, index: map<string, Dependency>, k: nat)
    requires k < |Correlate(reports, index)|
    ensures exists i :: (0 <= i < |reports| && Matched(reports[i], index) && Position(reports, index, i) == k
      && Correlate(reports, index)[k] == RecordFor(reports[i], index))
    decreases |reports|
  {
    var n := |reports| - 1;
    var init := reports[..n];
    if k < |Correlate(init, index)| {
      CorrelateOrigin(init, index, k);
      var i :| 0 <= i < |init| && Matched(init[i], index) && Position(init, index, i) == k
        && Correlate(init, index)[k] == RecordFor(init[i], index);
      assert init[..i] == reports[..i];
    } else {
      assert reports[..n] == init;
      assert Matched(reports[n], index) && Position(reports, index, n) == k;
    }
  }

  /** Every record sent has as many vulnerabilities as the report it came from. */
  lemma CorrelatedVulnerabilityCount(reports: seq<OssTypes.ComponentReport>, index: map<string, Dependency>, k: nat)
    requires k < |Correlate(reports, index)|
    ensures exists i :: (0 <= i < |reports| && Matched(reports[i], index)
      && |Correlate(reports, index)[k].vulnerabilities| == |reports[i].vulnerabilities|
      && Correlate(reports, index)[k].vulnerabilities == ToVulnerabilities(reports[i].vulnerabilities))
  {
    CorrelateOrigin(reports, index, k);
  }

  /** Reports without vulnerabilities leave no trace: nothing is sent and nothing is logged. */
  lemma {:induction false} EmptyReportsLeaveNoTrace(reports: seq<OssTypes.ComponentReport>, index: map<string, Dependency>)
    requires forall i :: 0 <= i < |reports| ==> reports[i].vulnerabilities == []
    ensures Correlate(reports, index) == [] && Diagnostics(reports, index) == []
    decreases |reports|
  {
    if reports != [] {
      EmptyReportsLeaveNoTrace(reports[..|reports| - 1], index);
    }
  }

  /**
   * An empty batch yields an empty coordinate list and an empty index, so a successful
   * lookup sends nothing, whatever reports the client returns.
   */
  lemma {:induction false} EmptyBatchSendsNothing(
    purlString: Purl -> string, reports: seq<OssTypes.ComponentReport>)
    ensures Purls([], purlString) == [] && Index([], purlString) == map[]
    ensures Correlate(reports, Index([], purlString)) == []
    decreases |reports|
  {
    if reports != [] {
      EmptyBatchSendsNothing(purlString, reports[..|reports| - 1]);
    }
  }

  /**
   * A "no matching dependency" warning names coordinates exactly when some report with
   * vulnerabilities carries those coordinates and they are not in the index.
   */
  lemma {:induction false} DiagnosticsWarnings(reports: seq<OssTypes.ComponentReport>, index: map<string, Dependency>, c: string)
    ensures NoMatchingDependency(c) in Diagnostics(reports, index) <==>
      c !in index && exists i :: 0 <= i < |reports| && reports[i].coordinates == c && |reports[i].vulnerabilities| > 0
    decreases |reports|
  {
    if reports != [] {
      var n := |reports| - 1;
      var init := reports[..n];
      DiagnosticsWarnings(init, index, c);
      if c !in index && exists i :: 0 <= i < |reports| && reports[i].coordinates == c && |reports[i].vulnerabilities| > 0 {
        var i :| 0 <= i < |reports| && reports[i].coordinates == c && |reports[i].vulnerabilities| > 0;
        if i < n {
          assert init[i] == reports[i];
        }
      }
    }
  }

  /**
   * The dependency every entry of the aliased index reads: the last dependency of the batch
   * for each key of Index. MapPurlsAliased derives it from the loop as written.
   */
  function AliasedIndex(deps: seq<Dependency>, purlString: Purl -> string): map<string, Dependency>
  {
    map k | k in Index(deps, purlString) :: deps[|deps| - 1]
  }

  /**
   * The loop variable `dep` of mapPurls in a module declaring a Go version before 1.22:
   * one variable for the whole loop, overwritten on every pass.
   */
  class RangeVar {
    var dep: Dependency

    constructor (d: Dependency)
      ensures dep == d
    {
      dep := d;
    }
  }

  /**
   * mapPurls as written, under one shared loop variable: every pass overwrites `v.dep`
   * and stores `v` itself, the target of `&dep`. After the loop the map has the keys of
   * Index, but every key reaches the same variable, which holds the last dependency.
   */
  method MapPurlsAliased(deps: seq<Dependency>, purlString: Purl -> string)
    returns (purls: seq<string>, depsMap: map<string, RangeVar>)
    ensures purls == Purls(deps, purlString)
    ensures forall k :: k in depsMap <==> k in Index(deps, purlString)
    ensures forall k | k in depsMap :: depsMap[k].dep == deps[|deps| - 1]
    ensures forall k | k in depsMap ::
      k in AliasedIndex(deps, purlString) && depsMap[k].dep == AliasedIndex(deps, purlString)[k]
  {
    var slots := new string[|deps|];
    depsMap := map[];
    if deps == [] {
      purls := slots[..];
      return;
    }
    var v := new RangeVar(deps[0]);
    for i := 0 to |deps|
      invariant forall j :: 0 <= j < i ==> slots[j] == purlString(deps[j].purl)
      invariant forall k :: k in depsMap <==> k in Index(deps[..i], purlString)
      invariant forall k | k in depsMap :: depsMap[k] == v
      invariant i > 0 ==> v.dep == deps[i - 1]
    {
      v.dep := deps[i];
      var purl := purlString(v.dep.purl);
      slots[i] := purl;
      assert deps[..i + 1][..i] == deps[..i];
      depsMap := depsMap[purl := v];
    }
    purls := slots[..];
    PurlsPositions(deps, purlString);
    assert deps[..|deps|] == deps;
    forall k | k in depsMap
      ensures k in AliasedIndex(deps, purlString) && depsMap[k].dep == AliasedIndex(deps, purlString)[k]
    {
      AliasedIndexShares(deps, purlString, k);
    }
  }

  /** The aliased index has the keys of Index, and each of them yields the last dependency. */
  lemma AliasedIndexShares(deps: seq<Dependency>, purlString: Purl -> string, key: string)
    requires key in Index(deps, purlString)
    ensures deps != []
    ensures key in AliasedIndex(deps, purlString)
    ensures AliasedIndex(deps, purlString)[key] == deps[|deps| - 1]
  {
  }

  /**
   * Under the aliased index, a dependency whose purl string occurs nowhere later in the
   * batch, and which differs from the last dependency, is never reported with its own
   * provenance: its key returns the last dependency instead of itself.
   */
  lemma AliasedIndexLosesProvenance(deps: seq<Dependency>, purlString: Purl -> string, i: nat)
    requires LastOccurrence(Purls(deps, purlString), i)
    requires deps[i] != deps[|deps| - 1]
    ensures Purls(deps, purlString)[i] in Index(deps, purlString)
    ensures Purls(deps, purlString)[i] in AliasedIndex(deps, purlString)
    ensures Index(deps, purlString)[Purls(deps, purlString)[i]] == deps[i]
    ensures AliasedIndex(deps, purlString)[Purls(deps, purlString)[i]] != deps[i]
  {
    IndexLastWriteWins(deps, purlString, i);
    AliasedIndexShares(deps, purlString, Purls(deps, purlString)[i]);
  }

  /**
   * Every record Search sends for a batch describes the last dependency of the batch whose
   * purl string equals the coordinates of the correlated report it came from, and carries
   * that report's vulnerabilities.
   */
  lemma RecordDescribesLastDependency(
    deps: seq<Dependency>, purlString: Purl -> string, reports: seq<OssTypes.ComponentReport>, k: nat)
    requires k < |Correlate(reports, Index(deps, purlString))|
    ensures exists i, j ::
      && 0 <= i < |reports| && |reports[i].vulnerabilities| > 0
      && LastOccurrence(Purls(deps, purlString), j) && Purls(deps, purlString)[j] == reports[i].coordinates
      && DescribesDependency(Correlate(reports, Index(deps, purlString))[k], deps[j])
      && Correlate(reports, Index(deps, purlString))[k].vulnerabilities == ToVulnerabilities(reports[i].vulnerabilities)
  {
    var index, keys := Index(deps, purlString), Purls(deps, purlString);
    CorrelateOrigin(reports, index, k);
    var i :| 0 <= i < |reports| && Matched(reports[i], index) && Position(reports, index, i) == k
      && Correlate(reports, index)[k] == RecordFor(reports[i], index);
    IndexKeys(deps, purlString);
    LastOccurrenceExists(keys, reports[i].coordinates);
    var j :| LastOccurrence(keys, j) && keys[j] == reports[i].coordinates;
    IndexLastWriteWins(deps, purlString, j);
  }

  // ---------------------------------------------------------------------------
  // The searcher
  // ---------------------------------------------------------------------------

  /**
   * VulnerabilitySearcher. The OSS Index client is the function from the requested
   * purl strings to the lookup outcome; the channel and the logger are the sequences of
   * everything sent to them so far.
   */
  class VulnerabilitySearcher {
    const ossIndexClient: seq<string> -> Result<seq<OssTypes.ComponentReport>, OssTypes.LookupError>
    var vulnerabilitiesChannel: seq<VulnerableDependency>
    var log: seq<LogEvent>

    /** NewSearcher, with the credentials folded into the client. */
    constructor (client: seq<string> -> Result<seq<OssTypes.ComponentReport>, OssTypes.LookupError>)
      ensures ossIndexClient == client
      ensures vulnerabilitiesChannel == [] && log == []
    {
      ossIndexClient := client;
      vulnerabilitiesChannel := [];
      log := [];
    }

    /**
     * The loop of Search over the reports of a successful lookup: skip a report without
     * vulnerabilities, warn about one whose coordinates match no dependency, otherwise log
     * the count and send the report's record on the channel.
     */
    method ProcessReports(reports: seq<OssTypes.ComponentReport>, depsMap: map<string, Dependency>)
      modifies this
      ensures vulnerabilitiesChannel == old(vulnerabilitiesChannel) + Correlate(reports, depsMap)
      ensures log == old(log) + Diagnostics(reports, depsMap)
    {
      for i := 0 to |reports|
        invariant vulnerabilitiesChannel == old(vulnerabilitiesChannel) + Correlate(reports[..i], depsMap)
        invariant log == old(log) + Diagnostics(reports[..i], depsMap)
      {
        var report := reports[i];
        assert reports[..i + 1] == reports[..i] + [report];
        CorrelateSnoc(reports[..i], report, depsMap);
        var vulns := GetVulnerabilities(report);
        var found := |vulns|;
        if found == 0 {
          continue;
        }
        if report.coordinates !in depsMap {
          AppendAssoc(old(log), Diagnostics(reports[..i], depsMap), [NoMatchingDependency(report.coordinates)]);
          log := log + [NoMatchingDependency(report.coordinates)];
          continue;
        }
        var dep := depsMap[report.coordinates];
        AppendAssoc(old(log), Diagnostics(reports[..i], depsMap), [VulnerabilitiesFound(dep.diff.filePath, found)]);
        AppendAssoc(old(vulnerabilitiesChannel), Correlate(reports[..i], depsMap), [ToVulnerableDep(dep, vulns)]);
        log := log + [VulnerabilitiesFound(dep.diff.filePath, found)];
        vulnerabilitiesChannel := vulnerabilitiesChannel + [ToVulnerableDep(dep, vulns)];
      }
      assert reports[..|reports|] == reports;
    }

    /**
     * Search: one batched lookup of all purl strings of the batch (also for an empty
     * batch). A failed lookup is logged and returned, and nothing is sent. Otherwise every
     * correlated report, in report order, sends one record and nil is returned.
     */
    method Search(deps: seq<Dependency>, purlString: Purl -> string) returns (err: Option<OssTypes.LookupError>)
      modifies this
      ensures ossIndexClient(Purls(deps, purlString)).Failure? ==>
        && err == Some(ossIndexClient(Purls(deps, purlString)).error)
        && vulnerabilitiesChannel == old(vulnerabilitiesChannel)
        && log == old(log) + [LookupFailed(ossIndexClient(Purls(deps, purlString)).error)]
      ensures ossIndexClient(Purls(deps, purlString)).Success? ==>
        && err == None
        && vulnerabilitiesChannel == old(vulnerabilitiesChannel)
             + Correlate(ossIndexClient(Purls(deps, purlString)).value, Index(deps, purlString))
        && log == old(log) + Diagnostics(ossIndexClient(Purls(deps, purlString)).value, Index(deps, purlString))
    {
      var purls, depsMap := MapPurls(deps, purlString);
      var response := ossIndexClient(purls);
      if response.Failure? {
        log := log + [LookupFailed(response.error)];
        return Some(response.error);
      }
      ProcessReports(response.value, depsMap);
      return None;
    }
  }
}
