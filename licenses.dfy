/**
 * The license policy: the four license statuses, a policy entry (`LicenseInfo`)
 * with its exact name-or-url matching, and the policy table (`LicenseInfoFile`)
 * with its first-match lookup.
 */
module Licenses {
  import opened Wrappers
  import opened Maven

  /** The statuses a license can have. `Unknown` is the status of a license the policy does not list. */
  datatype Status = Valid | Warning | Forbidden | Unknown

  /** The name of the status constant, as Java's `Enum.toString` prints it. */
  function StatusName(s: Status): (r: string)
    ensures r in ["VALID", "WARNING", "FORBIDDEN", "UNKNOWN"]
  {
    match s
    case Valid => "VALID"
    case Warning => "WARNING"
    case Forbidden => "FORBIDDEN"
    case Unknown => "UNKNOWN"
  }

  /** Different statuses print differently. */
  lemma StatusNameInjective(s: Status, t: Status)
    requires StatusName(s) == StatusName(t)
    ensures s == t
  {
  }

  /** An entry of the license policy: its display name, the names and urls it accepts, and its status. */
  datatype LicenseInfo = LicenseInfo(
    name: Option<string>,
    configuredNames: seq<Option<string>>,
    configuredUrls: seq<Option<string>>,
    status: Status)

  /**
   * One of the two search loops of `hasLicenceInfo`: scans the configured values in order,
   * skips `null` entries and stops at the first one equal to the query.
   */
  function MatchesConfigured(configured: seq<Option<string>>, query: Option<string>): (r: bool)
    ensures r <==> query.Some? && query in configured
  {
    if configured == [] then false
    else if configured[0].None? then MatchesConfigured(configured[1..], query)
    else if query.Some? && configured[0].value == query.value then true
    else MatchesConfigured(configured[1..], query)
  }

  /**
   * `hasLicenceInfo`: the entry matches when one of its configured names equals `name`, or,
   * failing that, one of its configured urls equals `url`. A `null` entry or query never matches.
   */
  function HasLicenceInfo(info: LicenseInfo, name: Option<string>, url: Option<string>): (r: bool)
    ensures r <==> (name.Some? && name in info.configuredNames) || (url.Some? && url in info.configuredUrls)
  {
    MatchesConfigured(info.configuredNames, name) || MatchesConfigured(info.configuredUrls, url)
  }

  /** The position of the first entry of `infos` that matches (name, url), if any. */
  function FirstMatch(infos: seq<LicenseInfo>, name: Option<string>, url: Option<string>): (r: Option<nat>)
    ensures r.Some? ==> r.value < |infos| && HasLicenceInfo(infos[r.value], name, url)
    ensures r.Some? ==> forall k :: 0 <= k < r.value ==> !HasLicenceInfo(infos[k], name, url)
    ensures r.None? ==> forall k :: 0 <= k < |infos| ==> !HasLicenceInfo(infos[k], name, url)
  {
    if infos == [] then None
    else if HasLicenceInfo(infos[0], name, url) then Some(0)
    else
      match FirstMatch(infos[1..], name, url)
      case None => None
      case Some(k) => Some(k + 1)
  }

  /** Looking up in a longer table finds the same entry when the shorter one already had a match. */
  lemma {:induction false} FirstMatchExtend(infos: seq<LicenseInfo>, more: seq<LicenseInfo>, name: Option<string>, url: Option<string>)
    requires FirstMatch(infos, name, url).Some?
    ensures FirstMatch(infos + more, name, url) == FirstMatch(infos, name, url)
  {
    if !HasLicenceInfo(infos[0], name, url) {
      assert (infos + more)[1..] == infos[1..] + more;
      FirstMatchExtend(infos[1..], more, name, url);
    }
  }

  /** Looking up past a table without a match finds the appended entries' first match. */
  lemma {:induction false} FirstMatchSkip(infos: seq<LicenseInfo>, more: seq<LicenseInfo>, name: Option<string>, url: Option<string>)
    requires FirstMatch(infos, name, url).None?
    ensures FirstMatch(infos + more, name, url) ==
      match FirstMatch(more, name, url)
      case None => None
      case Some(k) => Some(|infos| + k)
  {
    if infos != [] {
      assert (infos + more)[1..] == infos[1..] + more;
      FirstMatchSkip(infos[1..], more, name, url);
    } else {
      assert infos + more == more;
    }
  }

  /** The policy table. Entries are looked up in table order; the verifier appends UNKNOWN entries to it. */
  class LicenseInfoFile {
    var licenseInfos: seq<LicenseInfo>

    /** A table with no entries. */
    constructor Empty()
      ensures licenseInfos == []
    {
      licenseInfos := [];
    }

    /**
     * The constructor: a `null` path is an IllegalArgumentException, a path naming no file is a
     * FileNotFoundException; otherwise the table starts empty.
     */
    static method Open(path: Option<string>, fileExists: string -> bool) returns (r: Result<LicenseInfoFile, Exception>)
      ensures path.None? ==> r == Failure(IllegalArgument("The path cannot be null"))
      ensures path.Some? && !fileExists(path.value) ==> r == Failure(FileNotFound(path.value))
      ensures path.Some? && fileExists(path.value) ==> r.Success? && fresh(r.value) && r.value.licenseInfos == []
    {
      if path.None? {
        return Failure(IllegalArgument("The path cannot be null"));
      }
      if !fileExists(path.value) {
        return Failure(FileNotFound(path.value));
      }
      var file := new LicenseInfoFile.Empty();
      return Success(file);
    }

    /**
     * `getLicenseInfo`: the first entry, in table order, that matches (name, url), or `null` when
     * none does. The table is only read.
     */
    function GetLicenseInfo(name: Option<string>, url: Option<string>): (r: Option<LicenseInfo>)
      reads this
      ensures r.None? <==> forall k :: 0 <= k < |licenseInfos| ==> !HasLicenceInfo(licenseInfos[k], name, url)
      ensures r.Some? ==>
        exists k :: 0 <= k < |licenseInfos| && licenseInfos[k] == r.value
          && HasLicenceInfo(r.value, name, url)
          && (forall j :: 0 <= j < k ==> !HasLicenceInfo(licenseInfos[j], name, url))
    {
      match FirstMatch(licenseInfos, name, url)
      case None => None
      case Some(k) => Some(licenseInfos[k])
    }

    /** `addLicenseInfo`: appends an entry at the end of the table. */
    method AddLicenseInfo(info: LicenseInfo)
      modifies this
      ensures licenseInfos == old(licenseInfos) + [info]
    {
      licenseInfos := licenseInfos + [info];
    }
  }
}
