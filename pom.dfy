/** Extraction of dependency coordinates from the `dependency` elements of a
    Maven POM (the loop of `parse_pom`, 1.py:17-27).

    The XML document itself is not modelled: the input is the sequence of
    `dependency` elements that the descendant search `.//mvn:dependency`
    yields, in document order, each given by its direct children. */
module Pom {

  datatype Option<+T> = None | Some(value: T)

  /** The Maven POM 4.0.0 namespace that the `mvn:` prefix stands for. */
  const MavenNamespace := "http://maven.apache.org/POM/4.0.0"

  /** ElementTree names an element `{namespace}local`; `find('mvn:local', namespaces)`
      expands the prefix to that form and compares tags for equality. */
  function Qualified(local: string): (tag: string)
    ensures |tag| == |MavenNamespace| + 2 + |local|
    ensures tag[|MavenNamespace| + 2..] == local
  {
    "{" + MavenNamespace + "}" + local
  }

  const GroupIdTag := Qualified("groupId")
  const ArtifactIdTag := Qualified("artifactId")
  const VersionTag := Qualified("version")

  /** The version used when a dependency declares none. */
  const DefaultVersion := "latest"

  /** A direct child of a `dependency` element: its expanded tag and its text,
      which ElementTree gives as None when the element has no text before its
      first child (for a leaf element: when it is empty). */
  datatype Child = Child(tag: string, text: Option<string>)

  /** A `dependency` element, given by its direct children in document order. */
  datatype Dependency = Dependency(children: seq<Child>)

  /** The triple `(group_id, artifact_id, version)` that `parse_pom` appends.
      Each part is what the Python value holds: a string, or None. */
  datatype Coordinate = Coordinate(groupId: Option<string>, artifactId: Option<string>, version: Option<string>)

  /** `find(...)` returned None and `.text` raised: the dependency at `position`
      (0-based, document order) has no child called `name`. */
  datatype ExtractError = MissingChild(position: nat, name: string)

  datatype Result<+T> = Ok(value: T) | Err(error: ExtractError)

  predicate HasChild(children: seq<Child>, tag: string) {
    exists k :: 0 <= k < |children| && children[k].tag == tag
  }

  /** `text` is the text of the first child tagged `tag`. */
  predicate IsFirstText(children: seq<Child>, tag: string, text: Option<string>) {
    exists k :: 0 <= k < |children| && children[k].tag == tag && children[k].text == text &&
      forall m :: 0 <= m < k ==> children[m].tag != tag
  }

  /** ElementTree's `find` for a plain tag path: the first direct child with that tag. */
  function Find(children: seq<Child>, tag: string): Option<Child>
    decreases |children|
  {
    if |children| == 0 then None
    else if children[0].tag == tag then Some(children[0])
    else Find(children[1..], tag)
  }

  /** Find answers None exactly when no child has the tag, and otherwise the
      child at the first position that has it. */
  lemma {:induction false} FindFirst(children: seq<Child>, tag: string)
    ensures Find(children, tag).Some? <==> HasChild(children, tag)
    ensures Find(children, tag).Some? ==>
      exists k :: 0 <= k < |children| && children[k] == Find(children, tag).value &&
        children[k].tag == tag && forall m :: 0 <= m < k ==> children[m].tag != tag
    decreases |children|
  {
    if |children| > 0 && children[0].tag != tag {
      var rest := children[1..];
      FindFirst(rest, tag);
      if HasChild(children, tag) {
        var k :| 0 <= k < |children| && children[k].tag == tag;
        assert rest[k - 1].tag == tag;
      }
      if Find(rest, tag).Some? {
        var k :| 0 <= k < |rest| && rest[k] == Find(rest, tag).value &&
          rest[k].tag == tag && forall m :: 0 <= m < k ==> rest[m].tag != tag;
        assert children[k + 1] == rest[k];
        assert forall m :: 0 < m < k + 1 ==> children[m] == rest[m - 1];
      }
    }
  }

  /** The coordinate of one `dependency` element (1.py:21-25), or the error
      raised when its `groupId` or `artifactId` child is missing. */
  function Extract(d: Dependency, position: nat): Result<Coordinate> {
    match Find(d.children, GroupIdTag)
    case None => Err(MissingChild(position, "groupId"))
    case Some(groupId) =>
      match Find(d.children, ArtifactIdTag)
      case None => Err(MissingChild(position, "artifactId"))
      case Some(artifactId) =>
        var version := Find(d.children, VersionTag);
        Ok(Coordinate(groupId.text, artifactId.text, if version.Some? then version.value.text else Some(DefaultVersion)))
  }

  /** Extraction succeeds exactly when both required children are present; a
      missing `groupId` is reported before a missing `artifactId`; each field is
      the text of the first child with its tag, and a missing `version` becomes
      `latest`. */
  lemma ExtractSpec(d: Dependency, position: nat)
    ensures var r := Extract(d, position);
      && (r.Ok? <==> HasChild(d.children, GroupIdTag) && HasChild(d.children, ArtifactIdTag))
      && (!HasChild(d.children, GroupIdTag) ==> r == Err(MissingChild(position, "groupId")))
      && (HasChild(d.children, GroupIdTag) && !HasChild(d.children, ArtifactIdTag) ==>
            r == Err(MissingChild(position, "artifactId")))
      && (r.Ok? ==> IsFirstText(d.children, GroupIdTag, r.value.groupId))
      && (r.Ok? ==> IsFirstText(d.children, ArtifactIdTag, r.value.artifactId))
      && (r.Ok? && HasChild(d.children, VersionTag) ==> IsFirstText(d.children, VersionTag, r.value.version))
      && (r.Ok? && !HasChild(d.children, VersionTag) ==> r.value.version == Some(DefaultVersion))
  {
    FindFirst(d.children, GroupIdTag);
    FindFirst(d.children, ArtifactIdTag);
    FindFirst(d.children, VersionTag);
  }

  /** The three tags extraction looks for are different names. */
  lemma TagsDistinct()
    ensures GroupIdTag != ArtifactIdTag && GroupIdTag != VersionTag && ArtifactIdTag != VersionTag
  {
    var n := |MavenNamespace| + 2;
    assert GroupIdTag[n..] == "groupId" && VersionTag[n..] == "version";
    assert GroupIdTag[n] == 'g' && VersionTag[n] == 'v';
  }

  /** A dependency written as `groupId`, `artifactId`, `version` children yields
      exactly their three texts. */
  lemma ExtractInOrder(g: Option<string>, a: Option<string>, v: Option<string>, position: nat)
    ensures Extract(Dependency([Child(GroupIdTag, g), Child(ArtifactIdTag, a), Child(VersionTag, v)]), position) ==
      Ok(Coordinate(g, a, v))
  {
    TagsDistinct();
    var cs := [Child(GroupIdTag, g), Child(ArtifactIdTag, a), Child(VersionTag, v)];
    assert cs[1..][1..] == [Child(VersionTag, v)];
    assert Find(cs[1..][1..], VersionTag) == Some(cs[2]);
    assert Find(cs[1..], ArtifactIdTag) == Some(cs[1]);
    assert Find(cs[1..], VersionTag) == Some(cs[2]);
  }

  /** What `parse_pom` returns for the dependency elements `ds`: the list of
      their coordinates, or the error of the first one that lacks a field. */
  function ExtractAll(ds: seq<Dependency>): Result<seq<Coordinate>>
    decreases |ds|
  {
    if ds == [] then Ok([])
    else
      match ExtractAll(ds[..|ds| - 1])
      case Err(e) => Err(e)
      case Ok(cs) =>
        match Extract(ds[|ds| - 1], |ds| - 1)
        case Err(e) => Err(e)
        case Ok(c) => Ok(cs + [c])
  }

  /** Extraction succeeds exactly when every element has both required children. */
  lemma {:induction false} ExtractAllOk(ds: seq<Dependency>)
    ensures ExtractAll(ds).Ok? <==> forall k :: 0 <= k < |ds| ==> Extract(ds[k], k).Ok?
    decreases |ds|
  {
    if ds != [] {
      var init := ds[..|ds| - 1];
      ExtractAllOk(init);
      assert forall k :: 0 <= k < |init| ==> init[k] == ds[k];
    }
  }

  /** A successful extraction yields one coordinate per element, in document order. */
  lemma {:induction false} ExtractAllValues(ds: seq<Dependency>)
    ensures ExtractAll(ds).Ok? ==>
      |ExtractAll(ds).value| == |ds| &&
      forall k :: 0 <= k < |ds| ==> Extract(ds[k], k) == Ok(ExtractAll(ds).value[k])
    decreases |ds|
  {
    if ds != [] {
      var init := ds[..|ds| - 1];
      ExtractAllValues(init);
      assert forall k :: 0 <= k < |init| ==> init[k] == ds[k];
    }
  }

  /** A failed extraction names the first element that lacks a required child. */
  lemma {:induction false} ExtractAllErr(ds: seq<Dependency>)
    ensures ExtractAll(ds).Err? ==>
      var p := ExtractAll(ds).error.position;
      p < |ds| && Extract(ds[p], p) == Err(ExtractAll(ds).error) &&
      forall k :: 0 <= k < p ==> Extract(ds[k], k).Ok?
    decreases |ds|
  {
    if ds != [] {
      var init := ds[..|ds| - 1];
      ExtractAllErr(init);
      ExtractAllOk(init);
      assert forall k :: 0 <= k < |init| ==> init[k] == ds[k];
    }
  }

  /** Once a prefix fails, the whole extraction fails with the same error: the
      exception ends the loop. */
  lemma {:induction false} ExtractPrefixErr(ds: seq<Dependency>, n: nat)
    requires n <= |ds|
    requires ExtractAll(ds[..n]).Err?
    ensures ExtractAll(ds) == ExtractAll(ds[..n])
    decreases |ds| - n
  {
    if n < |ds| {
      assert ds[..n + 1][..n] == ds[..n];
      ExtractPrefixErr(ds, n + 1);
    } else {
      assert ds[..n] == ds;
    }
  }

  /** The loop of `parse_pom` (1.py:17-27) over the dependency elements, in
      document order; a missing `groupId` or `artifactId` ends it with an error. */
  method ParsePom(ds: seq<Dependency>) returns (r: Result<seq<Coordinate>>)
    ensures r == ExtractAll(ds)
  {
    var dependencies: seq<Coordinate> := [];
    for k := 0 to |ds|
      invariant ExtractAll(ds[..k]) == Ok(dependencies)
    {
      var dependency := ds[k];
      assert ds[..k + 1][..k] == ds[..k];
      var groupId := Find(dependency.children, GroupIdTag);
      if groupId.None? {
        r := Err(MissingChild(k, "groupId"));
        assert Extract(dependency, k) == Err(r.error);
        ExtractPrefixErr(ds, k + 1);
        return;
      }
      var artifactId := Find(dependency.children, ArtifactIdTag);
      if artifactId.None? {
        r := Err(MissingChild(k, "artifactId"));
        assert Extract(dependency, k) == Err(r.error);
        ExtractPrefixErr(ds, k + 1);
        return;
      }
      var version := if Find(dependency.children, VersionTag).Some? then Find(dependency.children, VersionTag).value.text else Some(DefaultVersion);
      assert Extract(dependency, k) == Ok(Coordinate(groupId.value.text, artifactId.value.text, version));
      dependencies := dependencies + [Coordinate(groupId.value.text, artifactId.value.text, version)];
    }
    assert ds[..|ds|] == ds;
    r := Ok(dependencies);
  }
}
