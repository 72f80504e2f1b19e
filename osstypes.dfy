/** The shapes returned by the Sonatype OSS Index client. */
module OssTypes {
  import Hungryfox

  /** A vulnerability descriptor as OSS Index reports it. */
  datatype Vulnerability = Vulnerability(
    id: string,
    title: string,
    description: string,
    cvssScore: Hungryfox.CvssScore,
    cvssVector: string,
    cwe: string,
    cve: string,
    reference: string,
    versionRanges: seq<string>)

  /** The report for one requested package coordinate. */
  datatype ComponentReport = ComponentReport(coordinates: string, vulnerabilities: seq<Vulnerability>)

  /** Why a batched lookup failed (network error, bad status, undecodable body). */
  datatype LookupError = LookupError(message: string)
}
