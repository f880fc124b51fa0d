/**
 * The plugin's model classes: an artifact with the licenses declared for it and the
 * classification results attached to it, and the overall status of a run.
 */
module Model {
  import opened Wrappers
  import opened Maven
  import opened Licenses

  /**
   * A found artifact with its license information. The artifact is fixed at construction;
   * the declared licenses and their classifications only ever grow at the end.
   */
  class AyoyArtifact {
    const artifact: Artifact
    var licenses: seq<License>
    var licenseInfos: seq<LicenseInfo>

    /** A new artifact has no licenses and no classifications. */
    constructor (artifact: Artifact)
      ensures this.artifact == artifact && licenses == [] && licenseInfos == []
    {
      this.artifact := artifact;
      licenses := [];
      licenseInfos := [];
    }

    /** `addLicenses`: a `null` list changes nothing; otherwise its licenses are appended in order. */
    method AddLicenses(toAdd: Option<seq<License>>)
      modifies this`licenses
      ensures toAdd.None? ==> licenses == old(licenses)
      ensures toAdd.Some? ==> licenses == old(licenses) + toAdd.value
    {
      if toAdd.None? {
        return;
      }
      licenses := licenses + toAdd.value;
    }

    /** `addLicenseInfo`: appends one classification result. */
    method AddLicenseInfo(info: LicenseInfo)
      modifies this`licenseInfos
      ensures licenseInfos == old(licenseInfos) + [info]
    {
      licenseInfos := licenseInfos + [info];
    }

    /**
     * `getLicenses`: a copy of the declared licenses. A Dafny sequence is a value, so what the
     * caller receives cannot be used to change the artifact.
     */
    function GetLicenses(): seq<License>
      reads this
    {
      licenses
    }

    /**
     * `toString`: "artifact " and the artifact's own text, then, only when licenses exist,
     * " with licenses: " and the quoted license names separated by ", ".
     * `show` is Maven's `Artifact.toString`.
     */
    function Describe(show: Artifact -> string): (r: string)
      reads this
      ensures |licenses| == 0 ==> r == "artifact " + show(artifact)
      ensures |licenses| > 0 ==> r == "artifact " + show(artifact) + " with licenses: " + QuotedNames(licenses)
    {
      "artifact " + show(artifact) + if |licenses| > 0 then " with licenses: " + QuotedNames(licenses) else ""
    }
  }

  /** How `StringBuilder.append` prints a possibly-null string. */
  function NullableText(s: Option<string>): string
  {
    if s.None? then "null" else s.value
  }

  /** A license name between double quotes. */
  function Quoted(l: License): string
  {
    "\"" + NullableText(l.name) + "\""
  }

  /**
   * The loop of `toString` with its `firstLic` flag: each name after the first is preceded by ", ".
   */
  function QuotedNames(ls: seq<License>): string
  {
    if |ls| == 0 then ""
    else if |ls| == 1 then Quoted(ls[0])
    else QuotedNames(ls[..|ls| - 1]) + ", " + Quoted(ls[|ls| - 1])
  }

  /** The same text read from the front: the first quoted name, then ", " and the rest. */
  lemma {:induction false} QuotedNamesFront(l: License, ls: seq<License>)
    ensures QuotedNames([l] + ls) == if ls == [] then Quoted(l) else Quoted(l) + ", " + QuotedNames(ls)
  {
    if |ls| == 0 {
      assert [l] + ls == [l];
    } else if |ls| == 1 {
      assert ([l] + ls)[..1] == [l];
      assert ([l] + ls)[1] == ls[0];
    } else {
      var init := ls[..|ls| - 1];
      QuotedNamesFront(l, init);
      QuotedNamesFrontStep(l, init, ls[|ls| - 1]);
      assert init + [ls[|ls| - 1]] == ls;
    }
  }

  /** The step of `QuotedNamesFront` from `init` to `init + [last]`. */
  lemma QuotedNamesFrontStep(l: License, init: seq<License>, last: License)
    requires init != [] && QuotedNames([l] + init) == Quoted(l) + ", " + QuotedNames(init)
    ensures QuotedNames([l] + (init + [last])) == Quoted(l) + ", " + QuotedNames(init + [last])
  {
    var ls := init + [last];
    assert ([l] + ls)[..|ls|] == [l] + init;
    assert ls[..|ls| - 1] == init;
    calc {
      QuotedNames([l] + ls);
      QuotedNames([l] + init) + ", " + Quoted(last);
      (Quoted(l) + ", " + QuotedNames(init)) + ", " + Quoted(last);
      { Regroup(Quoted(l), ", ", QuotedNames(init), ", ", Quoted(last)); }
      Quoted(l) + ", " + (QuotedNames(init) + ", " + Quoted(last));
      Quoted(l) + ", " + QuotedNames(ls);
    }
  }

  lemma Regroup(a: string, b: string, c: string, d: string, e: string)
    ensures (a + b + c) + d + e == a + b + (c + d + e)
  {
  }

  /** The four independent violation flags of a run. */
  datatype Flags = Flags(noLicense: bool, forbidden: bool, warning: bool, unknown: bool)
  {
    /** Flag-wise disjunction. */
    function Or(other: Flags): Flags
    {
      Flags(noLicense || other.noLicense, forbidden || other.forbidden,
            warning || other.warning, unknown || other.unknown)
    }
  }

  const NoFlags := Flags(false, false, false, false)

  /** The overall status of all artifacts: four booleans with a setter and a getter each. */
  class OverallStatus {
    var hasNoLicense: bool
    var hasForbiddenLicense: bool
    var hasWarningLicense: bool
    var hasUnknownLicense: bool

    /** The four flags as one value. */
    function Value(): Flags
      reads this
    {
      Flags(hasNoLicense, hasForbiddenLicense, hasWarningLicense, hasUnknownLicense)
    }

    /** All flags start false. */
    constructor ()
      ensures Value() == NoFlags
    {
      hasNoLicense, hasForbiddenLicense, hasWarningLicense, hasUnknownLicense := false, false, false, false;
    }

    method SetHasNoLicense(value: bool)
      modifies this
      ensures Value() == old(Value()).(noLicense := value)
    {
      hasNoLicense := value;
    }

    method SetHasForbiddenLicense(value: bool)
      modifies this
      ensures Value() == old(Value()).(forbidden := value)
    {
      hasForbiddenLicense := value;
    }

    method SetHasWarningLicense(value: bool)
      modifies this
      ensures Value() == old(Value()).(warning := value)
    {
      hasWarningLicense := value;
    }

    method SetHasUnknownLicense(value: bool)
      modifies this
      ensures Value() == old(Value()).(unknown := value)
    {
      hasUnknownLicense := value;
    }

    /** The getters read back the flags of `Value()`, so each returns what its setter last stored. */
    function GetHasNoLicense(): (r: bool)
      reads this
      ensures r == Value().noLicense
    {
      hasNoLicense
    }
    function GetHasForbiddenLicense(): (r: bool)
      reads this
      ensures r == Value().forbidden
    {
      hasForbiddenLicense
    }
    function GetHasWarningLicense(): (r: bool)
      reads this
      ensures r == Value().warning
    {
      hasWarningLicense
    }
    function GetHasUnknownLicense(): (r: bool)
      reads this
      ensures r == Value().unknown
    {
      hasUnknownLicense
    }
  }
}
