# hungryfox dependency vulnerability correlator, in Dafny

hungryfox scans repositories for leaks and for vulnerable dependencies. This project models
the part that finds vulnerable dependencies, `deps/analyzer.go`. Its input is a batch of
dependencies found in diffs. Each dependency is a package URL (purl) plus the diff that
introduced it. The correlator works in four steps:

1. It turns every purl into its canonical string and indexes the batch by that string
   (`mapPurls`).
2. It asks Sonatype OSS Index for all the strings in one request.
3. It converts the vulnerabilities of every returned component report into hungryfox's own
   `Vulnerability` type, tagging each with the source `"Sonatype OSS Index"`.
4. It sends one `VulnerableDependency` record downstream for every report that has
   vulnerabilities and whose coordinates match a dependency of the batch.

Files:

- `wrappers.dfy`: `Option` and `Result`.
- `hungryfox.dfy`: hungryfox's own records (`Purl`, `Diff`, `Dependency`, `Vulnerability`,
  `VulnerableDependency`).
- `osstypes.dfy`: the records of the OSS Index client (`Vulnerability`, `ComponentReport`) and
  its lookup error.
- `analyzer.dfy`: module `Deps`, the correlator.

How the model maps onto the source:

- The conversions are functions. The loops of `getVulnerabilities` and `mapPurls` are methods
  with loop invariants. `mapPurls` writes into an array preallocated to the batch size, as the
  source does with its slice.
- The two loops are proved against specification functions:
  - `Purls`, the coordinate list.
  - `Index`, the coordinate index, written in batch order so the last write wins.
- `VulnerabilitySearcher` is a class.
  - The OSS Index client is a function from the requested purl strings to a lookup outcome.
  - The output channel is a sequence field that holds every record sent so far.
  - The logger is a sequence field that holds every log event so far.
- `Search` is proved against two functions of the reports and the index:
  - `Correlate`, the records it sends.
  - `Diagnostics`, the events it logs.
- The lemmas state the source's guarantees about these functions:
  - which reports produce a record, and that order is kept;
  - where each record comes from;
  - last write wins for duplicate purls;
  - what is logged and when.

Two details of the source that the model keeps:

- Debug events: the source logs one debug event per record sent, naming the file and the
  vulnerability count. It logs no start or completion counts for the lookup.
- Empty batch: the source does not special-case an empty batch. It calls the client with an
  empty list, and a failure of that call is returned like any other failure. Whether the
  client then sends a request is up to the client library.

## Model

| member | source | states |
|---|---|---|
| Deps.ToVulnerability | deps/analyzer.go:91-104 | the result's source is "Sonatype OSS Index"; id, title, description, CVSS score and vector, CWE, CVE, reference and version ranges are copied unchanged |
| Deps.ToVulnerabilityInjective | deps/analyzer.go:91-104 | two descriptors convert to the same vulnerability exactly when they are equal: the conversion loses no field |
| Deps.ToVulnerableDep | deps/analyzer.go:69-82 | the record takes its name and version from the purl, its file, repository, URL, commit, timestamp, author and e-mail from the diff, and the vulnerabilities as given |
| Deps.GetVulnerabilities | deps/analyzer.go:84-89 | the result has one entry per descriptor of the report, in order, each the descriptor converted by toVulnerability |
| Deps.MapPurls | deps/analyzer.go:58-67 | the purl list has one entry per dependency and is the coordinate list; the map is the coordinate index built in batch order |
| Deps.PurlsPositions | deps/analyzer.go:61-63 | entry i of the purl list is the purl string of dependency i |
| Deps.IndexKeys | deps/analyzer.go:61-65 | a string is a key of the index exactly when it is one of the batch's purl strings |
| Deps.IndexLastWriteWins | deps/analyzer.go:61-65 | when no later dependency has the same purl string, that string maps to the dependency at position i: the last write wins |
| Deps.LastOccurrenceExists | deps/analyzer.go:61-65 | every purl string of the batch has a last position, so every key of the index is covered by IndexLastWriteWins |
| Deps.VulnerabilitySearcher.constructor | deps/analyzer.go:22-31 | the searcher holds the given client, and nothing has been sent or logged |
| Deps.VulnerabilitySearcher.Search | deps/analyzer.go:33-56 | lookup failure: returns the error, sends nothing and logs one failure event. Lookup success: returns no error; the channel and the log grow by Correlate and Diagnostics of the reports against the batch's index |
| Deps.VulnerabilitySearcher.ProcessReports | deps/analyzer.go:40-53 | after the loop over the reports, the channel grows by exactly Correlate and the log by exactly Diagnostics of the reports |
| Deps.CorrelateAppend | deps/analyzer.go:40-53 | the output for two report lists in sequence is the output of the first followed by that of the second |
| Deps.CorrelateSnoc | deps/analyzer.go:40-53 | one more report adds exactly its own record and its own log events at the end |
| Deps.CorrelateCovers | deps/analyzer.go:41-52 | a report with vulnerabilities whose coordinates are a key gets exactly one record, at its position in the output, built from its key's dependency and its converted vulnerabilities |
| Deps.UnmatchedReportSendsNothing | deps/analyzer.go:43-50 | a report with no vulnerabilities, or with coordinates that are not a key, adds no record |
| Deps.ReportTrace | deps/analyzer.go:40-52 | for the report at any position: without vulnerabilities it adds no record and no log event; with vulnerabilities and coordinates that are not a key it adds no record and exactly one warning naming the coordinates; otherwise it adds exactly its record and exactly one event with the dependency's file and the vulnerability count |
| Deps.CorrelateKeepsReportOrder | deps/analyzer.go:40-53 | the records of two correlated reports are sent in the order of the reports |
| Deps.CorrelateOrigin | deps/analyzer.go:40-53 | every record sent is the record of some report with vulnerabilities whose coordinates are a key, at that report's position |
| Deps.CorrelatedVulnerabilityCount | deps/analyzer.go:41-52 | every record sent carries as many vulnerabilities as the report it came from, namely those vulnerabilities converted |
| Deps.EmptyReportsLeaveNoTrace | deps/analyzer.go:43-45 | reports without vulnerabilities cause no record and no log event |
| Deps.EmptyBatchSendsNothing | deps/analyzer.go:33-34 | an empty batch calls the client with an empty coordinate list and has an empty index, so a successful lookup sends nothing |
| Deps.DiagnosticsWarnings | deps/analyzer.go:46-49 | a "no matching dependency" warning names coordinates exactly when they are not a key and some report with vulnerabilities carries them |
| Deps.RecordDescribesLastDependency | deps/analyzer.go:46-52 | every record describes the last dependency of the batch whose purl string equals its report's coordinates, and carries that report's converted vulnerabilities |
| Deps.MapPurlsAliased | deps/analyzer.go:58-67 | mapPurls as written, with one loop variable shared by all passes (a module declaring Go before 1.22): the purl list is the coordinate list, the map has exactly the keys of the per-iteration index, and every key reaches the shared variable, which holds the last dependency of the batch, so the map realises AliasedIndex |
| Deps.AliasedIndexLosesProvenance | deps/analyzer.go:64 | in the aliased index that MapPurlsAliased builds, a key whose last dependency differs from the batch's last dependency yields the wrong dependency, while Index yields the right one |

## Left out

- Credentials and the HTTP client of `NewSearcher` (deps/analyzer.go:22-31) are not modelled. The client is the function `ossIndexClient` passed to the constructor, because the go-oss-index library is not part of this model.
- `Purl.ToString` is not part of this model. Every member that needs it takes the parameter `purlString`, and nothing is assumed about that function. `Purl` keeps all six components of a package URL (type, namespace, name, version, qualifiers, subpath), so purls that differ only in qualifiers or subpath are distinct values and may get distinct keys. Qualifiers are a list of key/value pairs; their order and normalisation belong to `ToString`.
- scanmanager/gitlab.go is network plumbing around the correlator and is not modelled.
- The channel is a sequence of everything sent. Blocking, backpressure and concurrent readers are not modelled.
- The commit timestamp, a Go `time.Time`, is the integer `Instant`. It is only copied into the record, so no time arithmetic or time zones are modelled.
- `CvssScore` is a `real` that is only copied. Floating-point arithmetic does not arise.
- The logger is a sequence of events carrying only the fields the source attaches. Levels, messages and zerolog formatting are not modelled.
- Pointers are modelled as values. `toVulnerableDep` and `toVulnerability` return records rather than pointers, and the index stores dependencies rather than pointers to them. Go's nil-versus-empty slice distinction is not modelled.
- Deps.VulnerabilitySearcher.ProcessReports: the loop of `Search` over the reports is written as a separate method that `Search` calls. This keeps each proof small; the behaviour is the same.
- Deps.MapPurls: its contract ties the results to `Purls` and `Index`. The position, key-set and last-write-wins properties are stated once, as the lemmas PurlsPositions, IndexKeys and IndexLastWriteWins, rather than repeated in the method's ensures.

## Findings

| source | as written | input that shows it | evidently intended | confidence | as-written member | corrected member |
|---|---|---|---|---|---|---|
| deps/analyzer.go:64 | the index stores `&dep`, the address of the range variable; under the loop semantics before Go 1.22 that is one variable for the whole loop, so after the loop every key points at the last dependency of the batch (MapPurlsAliased runs that loop with one shared variable) | a batch of two dependencies with different purl strings and different diffs: the first one's key yields the second dependency, so its record names the wrong file and commit | every key points at the last dependency of the batch that has that purl string (the behaviour when the module declares Go 1.22 or later) | not executed; applies when the module's go.mod declares a Go version before 1.22 (the declared version, not the toolchain that builds it, selects the loop semantics), and go.mod is not part of this model | Deps.AliasedIndexLosesProvenance | Deps.IndexLastWriteWins |
