/**
 * The internal records of the scanner that the vulnerability correlator reads and
 * produces. Diff and the records built here keep only the fields deps/analyzer.go
 * touches; Purl keeps every component of a package URL, since all of them reach the
 * correlation key through the purl's string form.
 */
module Hungryfox {

  /** An opaque point in time; copied, never inspected. */
  type Instant = int

  /** A CVSS base score; copied, never computed with. */
  type CvssScore = real

  /**
   * A package URL. `name` and `version` are read directly; every component reaches
   * the correlation key only through the purl's string form.
   */
  datatype Purl = Purl(
    pkgType: string,
    namespace: string,
    name: string,
    version: string,
    qualifiers: seq<(string, string)>,
    subpath: string)

  /** Where and in which commit a dependency was declared. */
  datatype Diff = Diff(
    filePath: string,
    repoPath: string,
    repoURL: string,
    commitHash: string,
    timeStamp: Instant,
    author: string,
    authorEmail: string)

  /** One dependency occurrence found by the upstream discovery step. */
  datatype Dependency = Dependency(purl: Purl, diff: Diff)

  /** A vulnerability in the scanner's own representation. */
  datatype Vulnerability = Vulnerability(
    source: string,
    id: string,
    title: string,
    description: string,
    cvssScore: CvssScore,
    cvssVector: string,
    cwe: string,
    cve: string,
    reference: string,
    versionRanges: seq<string>)

  /** A dependency occurrence together with the vulnerabilities reported for it. */
  datatype VulnerableDependency = VulnerableDependency(
    vulnerabilities: seq<Vulnerability>,
    dependencyName: string,
    version: string,
    filePath: string,
    repoPath: string,
    repoURL: string,
    commitHash: string,
    timeStamp: Instant,
    commitAuthor: string,
    commitEmail: string)
}
