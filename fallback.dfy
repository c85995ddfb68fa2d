/** The version fallback shared by both catalog lookups: try the exact target
    version, and when nothing matches and the version has at least three
    dot-separated parts, try once more with its major.minor truncation. */
module Fallback {
  import opened Base
  import opened Text

  /** What one lookup at one version string gives: a download URL, no
      matching entry, or an error thrown while reading the matched entry. */
  datatype Probe = Hit(url: string) | Miss | Fail(error: ModError)

  /** The recursion of both lookup functions, with the catalog search at a
      given version abstracted as `probe`. A URL found, or an error thrown,
      comes from the probe at the exact version or, after a miss there, from
      the probe at its major.minor truncation; otherwise the search fails with
      "unknown mod". */
  function Search(probe: string -> Probe, version: string): (r: Result<string>)
    ensures r.Ok? ==>
      probe(version) == Hit(r.value) ||
      (probe(version).Miss? && |Split(version, '.')| >= 3 && probe(MajorMinor(version)) == Hit(r.value))
    ensures r.Err? ==>
      r.error == UnknownMod || probe(version) == Fail(r.error) ||
      (probe(version).Miss? && |Split(version, '.')| >= 3 && probe(MajorMinor(version)) == Fail(r.error))
    decreases |Split(version, '.')|
  {
    match probe(version)
    case Hit(url) => Ok(url)
    case Fail(e) => Err(e)
    case Miss =>
      if |Split(version, '.')| < 3 then Err(UnknownMod)
      else Search(probe, MajorMinor(version))
  }

  /** The search asks at most two versions, the exact one and then its
      major.minor truncation, and fails with "unknown mod" when both miss;
      an exact hit ends the search, and a version of fewer than three parts is
      never truncated. */
  lemma SearchAtMostTwoProbes(probe: string -> Probe, version: string)
    ensures Search(probe, version) ==
      match probe(version)
      case Hit(url) => Ok(url)
      case Fail(e) => Err(e)
      case Miss =>
        if |Split(version, '.')| < 3 then Err(UnknownMod)
        else
          match probe(MajorMinor(version))
          case Hit(url) => Ok(url)
          case Fail(e) => Err(e)
          case Miss => Err(UnknownMod)
  {
  }

  /** Only the exact version and its truncation are ever asked: two catalogs
      that agree on those give the same result. */
  lemma SearchReadsOnlyTwoVersions(p1: string -> Probe, p2: string -> Probe, version: string)
    requires p1(version) == p2(version)
    requires p1(version).Miss? && |Split(version, '.')| >= 3 ==> p1(MajorMinor(version)) == p2(MajorMinor(version))
    ensures Search(p1, version) == Search(p2, version)
  {
  }
}
