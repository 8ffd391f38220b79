/** What `main` (1.py:73-77) hands to the output file: the coordinates that
    `parse_pom` extracts, rendered by `generate_graph`; nothing is written when
    extraction raises. */
module Pipeline {
  import opened Pom
  import opened Dot

  /** Both children that extraction requires are present. */
  predicate Complete(d: Dependency) {
    HasChild(d.children, GroupIdTag) && HasChild(d.children, ArtifactIdTag)
  }

  /** The graph text for the dependency elements `ds`, or the extraction error. */
  function GraphText(ds: seq<Dependency>): Result<string> {
    match ExtractAll(ds)
    case Err(e) => Err(e)
    case Ok(cs) => Ok(Graph(cs))
  }

  /** `parse_pom` followed by `generate_graph`, as `main` runs them. */
  method Run(ds: seq<Dependency>) returns (r: Result<string>)
    ensures r == GraphText(ds)
  {
    var parsed := ParsePom(ds);
    if parsed.Err? {
      return Err(parsed.error);
    }
    var graph := GenerateGraph(parsed.value);
    r := Ok(graph);
  }

  /** A graph is produced exactly when every dependency element has a `groupId`
      and an `artifactId` child. */
  lemma GraphTextOk(ds: seq<Dependency>)
    ensures GraphText(ds).Ok? <==> forall k :: 0 <= k < |ds| ==> Complete(ds[k])
  {
    ExtractAllOk(ds);
    forall k | 0 <= k < |ds|
      ensures Extract(ds[k], k).Ok? <==> Complete(ds[k])
    {
      ExtractSpec(ds[k], k);
    }
  }

  /** When no graph is produced, the error names the first incomplete element
      and the child it lacks, `groupId` being checked before `artifactId`. */
  lemma GraphTextErr(ds: seq<Dependency>)
    ensures GraphText(ds).Err? ==>
      var e := GraphText(ds).error;
      e.position < |ds| && !Complete(ds[e.position]) &&
      (forall k :: 0 <= k < e.position ==> Complete(ds[k])) &&
      e.name == (if HasChild(ds[e.position].children, GroupIdTag) then "artifactId" else "groupId")
  {
    ExtractAllErr(ds);
    if GraphText(ds).Err? {
      var p := GraphText(ds).error.position;
      ExtractSpec(ds[p], p);
      forall k | 0 <= k < p
        ensures Complete(ds[k])
      {
        ExtractSpec(ds[k], k);
      }
    }
  }

  /** A produced graph is the graph of one coordinate per dependency element,
      in document order, each the one extraction gives for that element; the
      shape of that text is `Dot.StatementsShape`. */
  lemma GraphTextCoordinates(ds: seq<Dependency>)
    ensures GraphText(ds).Ok? ==>
      var cs := ExtractAll(ds).value;
      GraphText(ds).value == Graph(cs) && |cs| == |ds| &&
      forall k :: 0 <= k < |ds| ==> Extract(ds[k], k) == Ok(cs[k])
  {
    ExtractAllValues(ds);
  }

  /** A dependency without a `version` child is named with the version `latest`. */
  lemma MissingVersionIsLatest(d: Dependency, position: nat)
    requires Complete(d) && !HasChild(d.children, VersionTag)
    ensures Extract(d, position).Ok?
    ensures var c := Extract(d, position).value;
      Key(c) == Show(c.groupId) + ":" + Show(c.artifactId) + ":latest"
  {
    ExtractSpec(d, position);
  }

  /** A `dependency` element with `groupId`, `artifactId` and `version`
      children holding the given texts, in that order. */
  function Declared(g: string, a: string, v: string): Dependency {
    Dependency([Child(GroupIdTag, Some(g)), Child(ArtifactIdTag, Some(a)), Child(VersionTag, Some(v))])
  }

  /** Two such elements extract to their two coordinates, in order. */
  lemma ExtractTwo(g0: string, a0: string, v0: string, g1: string, a1: string, v1: string)
    ensures ExtractAll([Declared(g0, a0, v0), Declared(g1, a1, v1)]) ==
      Ok([Coordinate(Some(g0), Some(a0), Some(v0)), Coordinate(Some(g1), Some(a1), Some(v1))])
  {
    var first, second := Declared(g0, a0, v0), Declared(g1, a1, v1);
    ExtractInOrder(Some(g0), Some(a0), Some(v0), 0);
    ExtractInOrder(Some(g1), Some(a1), Some(v1), 1);
    var c0, c1 := Coordinate(Some(g0), Some(a0), Some(v0)), Coordinate(Some(g1), Some(a1), Some(v1));
    assert Extract(first, 0) == Ok(c0);
    assert [first][..0] == [];
    assert ExtractAll([]) == Ok([]);
    assert [] + [c0] == [c0];
    assert ExtractAll([first]) == Ok([c0]);
    assert [first, second][..1] == [first];
    assert Extract(second, 1) == Ok(c1);
    assert [first, second][1] == second;
    assert [c0] + [c1] == [c0, c1];
  }

  /** Two complete dependencies, equal or not, give a graph with two node
      statements and one edge statement, from the first to the second. */
  lemma TwoDependencies(g0: string, a0: string, v0: string, g1: string, a1: string, v1: string)
    ensures var c0, c1 := Coordinate(Some(g0), Some(a0), Some(v0)), Coordinate(Some(g1), Some(a1), Some(v1));
      GraphText([Declared(g0, a0, v0), Declared(g1, a1, v1)]) ==
        Ok(Header + (Render(NodeStatement(c0)) + Render(NodeStatement(c1)) + Render(EdgeStatement(c0, c1))) + Footer)
  {
    ExtractTwo(g0, a0, v0, g1, a1, v1);
    TwoCoordinates(Coordinate(Some(g0), Some(a0), Some(v0)), Coordinate(Some(g1), Some(a1), Some(v1)));
  }
}
