/** The deduplicating artifact list and the log-text helpers. */
module Util {
  import opened Wrappers
  import opened Maven
  import opened Model

  /** A list of artifacts that refuses a second entry for an artifact it already holds. */
  class AyoyArtifactList {
    var elements: seq<AyoyArtifact>

    /** No two elements refer to equal artifacts. */
    ghost predicate NoDuplicates()
      reads this
    {
      forall i, j :: 0 <= i < j < |elements| ==> elements[i].artifact != elements[j].artifact
    }

    constructor ()
      ensures elements == [] && NoDuplicates()
    {
      elements := [];
    }

    /** `containsArtifact`: whether some element refers to an artifact equal to `artifact`. */
    method ContainsArtifact(artifact: Artifact) returns (r: bool)
      ensures r <==> exists k :: 0 <= k < |elements| && elements[k].artifact == artifact
    {
      var i := 0;
      while i < |elements|
        invariant 0 <= i <= |elements|
        invariant forall k :: 0 <= k < i ==> elements[k].artifact != artifact
      {
        if elements[i].artifact == artifact {
          return true;
        }
        i := i + 1;
      }
      return false;
    }

    /**
     * `add`: an element whose artifact is already present is refused (false, list unchanged);
     * any other element is appended at the end (true).
     */
    method Add(element: AyoyArtifact) returns (added: bool)
      modifies this
      ensures added <==> forall k :: 0 <= k < |old(elements)| ==> old(elements)[k].artifact != element.artifact
      ensures elements == if added then old(elements) + [element] else old(elements)
      ensures old(NoDuplicates()) ==> NoDuplicates()
    {
      var present := ContainsArtifact(element.artifact);
      if present {
        return false;
      }
      elements := elements + [element];
      return true;
    }
  }

  /**
   * The two cases of `AyoyArtifactListTest`: after one add the list contains the artifact,
   * and adding the same element again keeps its size at one.
   */
  method AddTwiceKeepsOne(artifact: Artifact) returns (contained: bool, sizeAfterFirst: nat, sizeAfterSecond: nat)
    ensures contained && sizeAfterFirst == 1 && sizeAfterSecond == 1
  {
    var list := new AyoyArtifactList();
    var element := new AyoyArtifact(artifact);
    var first := list.Add(element);
    assert first && list.elements == [element];
    contained := list.ContainsArtifact(artifact);
    sizeAfterFirst := |list.elements|;
    assert list.elements[0].artifact == element.artifact;
    var second := list.Add(element);
    assert !second;
    sizeAfterSecond := |list.elements|;
  }

  /** `logNullableString`: "(null)" for `null`, otherwise the string between double quotes. */
  function LogNullableString(s: Option<string>): (r: string)
    ensures s.None? ==> r == "(null)"
    ensures s.Some? ==> |r| == |s.value| + 2 && r[0] == '"' && r[|r| - 1] == '"' && r[1..|r| - 1] == s.value
  {
    if s.None? then "(null)" else "\"" + s.value + "\""
  }

  /** Different strings, and `null`, are always logged differently. */
  lemma LogNullableStringInjective(s: Option<string>, t: Option<string>)
    requires LogNullableString(s) == LogNullableString(t)
    ensures s == t
  {
    var r := LogNullableString(s);
    assert r[0] == (if s.None? then '(' else '"');
    assert r[0] == (if t.None? then '(' else '"');
    if s.Some? && t.Some? {
      assert s.value == r[1..|r| - 1] == t.value;
    }
  }

  /**
   * `logLicense`: "(null)" for a `null` license; otherwise "Name: ", the name, ", " and the url,
   * each written as `logNullableString` writes it.
   */
  function LogLicense(license: Option<License>): (r: string)
    ensures license.None? ==> r == "(null)"
    ensures license.Some? ==>
      r == "Name: " + LogNullableString(license.value.name) + ", " + LogNullableString(license.value.url)
  {
    if license.None? then "(null)"
    else
      var name := if license.value.name.None? then "(null)" else "\"" + license.value.name.value + "\"";
      var url := if license.value.url.None? then "(null)" else "\"" + license.value.url.value + "\"";
      "Name: " + name + ", " + url
  }
}
