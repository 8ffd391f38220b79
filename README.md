# Maven dependency graph: extraction and Graphviz text

This project models the core of a small command-line tool, `1.py`. The tool
reads the `dependency` elements of a Maven `pom.xml`, turns each one into a
coordinate `(groupId, artifactId, version)`, and writes a Graphviz `digraph`.
The graph has a node for each coordinate and an edge from every coordinate to
every coordinate that comes after it.

- `pom.dfy` (module `Pom`) models the extraction loop of `parse_pom`. Each
  `dependency` element is given by its direct children, each child by its
  expanded tag `{http://maven.apache.org/POM/4.0.0}local` and its text. The
  text is `None` when the element has no text before its first child (for a
  leaf element: when it is empty). `groupId` and
  `artifactId` are required. When either is missing, the Python code raises.
  The model returns an error naming the element's position and the missing
  child. A missing `version` becomes `latest`.
- `dot.dfy` (module `Dot`) models `generate_graph`. Four imperative methods
  model it, each proved against a specification function:
  - `AppendNodeStatements`, the node loop, appends one node line per coordinate;
  - `AppendEdgeStatements`, the outer edge loop, calls `AppendRow` for each i;
  - `AppendRow`, the inner loop, appends an edge line from i to every j > i;
  - `GenerateGraph` frames the two loops with the header and the closing brace.

  The lemmas state:
  - the layout of the text;
  - the number of node and edge lines;
  - the lexicographic order of the edges, with no self-loops and no backward
    edges;
  - the pairs are exactly the forward pairs;
  - each edge line quotes the same key that the node lines of its endpoints
    declare.
- `pipeline.dfy` (module `Pipeline`) composes the two parts as `main` does:
  the graph text, or the extraction error. Its lemmas say when a graph is
  produced and what the error says when it is not.

Coordinate parts are not always strings. An element that is present but has
no text gives `None` (1.py:21-23), and the f-strings print it as `None`
(1.py:37-42). The model keeps this with `Option<string>` and `Dot.Show`. A
`version` element that is present but empty gives `None`, not `latest`
(1.py:23-24): only an absent `version` element becomes `latest`.

## Model

| member | source | states |
|---|---|---|
| Pom.Qualified | 1.py:13-15 | the expanded tag is the namespace in braces followed by the local name, which can be read back from its end |
| Pom.FindFirst | 1.py:21-23 | `find` yields nothing exactly when no direct child has the tag, and otherwise the first child that has it |
| Pom.ExtractSpec | 1.py:21-25 | a coordinate is extracted exactly when `groupId` and `artifactId` are present. A missing `groupId` is reported before a missing `artifactId`. Each field is the text of the first child with its tag, and an absent `version` becomes `latest` |
| Pom.TagsDistinct | 1.py:21-23 | the three tags looked up are different names |
| Pom.ExtractInOrder | 1.py:21-25 | an element with `groupId`, `artifactId` and `version` children yields exactly their three texts |
| Pom.ExtractAllOk | 1.py:17-27 | `parse_pom` returns a list exactly when every element extracts |
| Pom.ExtractAllValues | 1.py:17-27 | the list holds one coordinate per element, in document order, each the one its element extracts to |
| Pom.ExtractAllErr | 1.py:20-24 | a failure names the first element that lacks a required child; every earlier element extracts |
| Pom.ExtractPrefixErr | 1.py:20-24 | once an element fails, the later elements do not change the outcome: the exception ends the loop |
| Pom.ParsePom | 1.py:17-27 | the loop over the elements returns what `ExtractAll` specifies, the error included |
| Dot.Rows | 1.py:40-41 | every pair visited before the outer index reaches i starts below i and goes forward |
| Dot.NodeStatements | 1.py:36-38 | one node statement per coordinate, in input order |
| Dot.Edges | 1.py:41-42 | one edge statement from the source to each target, in order |
| Dot.RowStatements | 1.py:41-42 | the edge statements of row i go from coordinate i to each later coordinate, in order |
| Dot.EdgeStatements | 1.py:40-42 | the nested loops emit as many edge statements as pairs they visit |
| Dot.EdgesOfAppend | 1.py:40-42 | the edges of two runs of pairs are the edges of the first run, then those of the second |
| Dot.RowEdges | 1.py:41-42 | the edge statements of row i are those of its pairs |
| Dot.EdgeStatementsArePairs | 1.py:40-42 | the edge statements emitted before the outer index reaches i are those of the visited pairs, in the same order |
| Dot.TextAppend | 1.py:38 | appending statements one after another concatenates their texts |
| Dot.GraphLayout | 1.py:34-44 | the text is the header, the node lines, the edge lines and the footer, in that order |
| Dot.GraphFrame | 1.py:34-44 | the text starts with `digraph G {` and a newline, and ends with `}` and a newline |
| Dot.EmptyGraph | 1.py:34-45 | no dependencies give exactly `digraph G {\n}\n` |
| Dot.RowsCount | 1.py:40-41 | i rows among n positions hold i(2n-i-1)/2 pairs |
| Dot.PairsCount | 1.py:40-42 | n coordinates give n(n-1)/2 edges |
| Dot.RowsComplete | 1.py:40-41 | every forward pair with a first position below i is visited before the outer index reaches i |
| Dot.PairsExact | 1.py:40-42 | a pair is visited exactly when i < j < n: no self-loop, no backward edge, every forward edge |
| Dot.RowsSorted | 1.py:40-41 | the pairs of the first i rows are in strictly increasing lexicographic order |
| Dot.PairsSorted | 1.py:40-42 | edges are emitted in strictly increasing lexicographic (i, j) order, so none is repeated |
| Dot.StatementsShape | 1.py:36-42 | n node statements, the k-th for the k-th coordinate, followed by exactly n(n-1)/2 edge statements, each from an earlier position to a later one. Equal coordinates are not merged |
| Dot.TwoStatements | 1.py:36-42 | two coordinates, equal or not, give two node statements and one edge from the first to the second |
| Dot.TwoCoordinates | 1.py:30-45 | the text for two coordinates is the header, their two node lines, one edge line and the footer |
| Dot.EdgeKeysAreNodeKeys | 1.py:37-42 | an edge line begins with the source's quoted key as its node line does, and ends with the target's quoted key, which its node line declares |
| Dot.AppendNodeStatements | 1.py:36-38 | the node loop appends exactly the node statements of the coordinates, in order |
| Dot.AppendRow | 1.py:41-42 | the inner loop appends exactly the edge statements of row i |
| Dot.AppendEdgeStatements | 1.py:40-42 | the nested loops append exactly the edge statements of all pairs, in (i, j) order |
| Dot.GenerateGraph | 1.py:30-45 | `generate_graph` returns the specified graph text |
| Pipeline.Run | 1.py:74-77 | parsing and then generating gives the graph text of the extracted coordinates, or the extraction error |
| Pipeline.GraphTextOk | 1.py:20-25 | a graph is produced exactly when every element has a `groupId` and an `artifactId` |
| Pipeline.GraphTextErr | 1.py:20-24 | otherwise the error names the first incomplete element and the child it lacks, `groupId` first |
| Pipeline.GraphTextCoordinates | 1.py:74-77 | a produced graph is the graph of one coordinate per element, in document order |
| Pipeline.MissingVersionIsLatest | 1.py:23-24 | a complete element without `version` has a key ending in `:latest` |
| Pipeline.ExtractTwo | 1.py:17-27 | two fully declared elements extract to their two coordinates, in order |
| Pipeline.TwoDependencies | 1.py:17-45 | two fully declared elements give a graph with their two node lines and one edge from the first to the second |

## Left out

- Reading and parsing the XML file with ElementTree (1.py:10-11). The model starts from the parsed `dependency` elements. A malformed document's parse error is not modelled.
- The descendant search `.//mvn:dependency` (1.py:20). The model takes the elements it yields, in document order, as its input sequence.
- The lookup of prefixes through the `namespaces` map (1.py:13-15). Only the fixed `mvn` prefix is expanded, by `Pom.Qualified`. Tags are compared as expanded `{namespace}local` strings, so a child in another namespace is not found.
- `generate_png` (1.py:48-56). It only runs the external `dot` program and prints its outcome.
- `main`'s argument parsing, the file-existence check, the file write and its printed messages (1.py:59-89). These are I/O. Only the composition of `parse_pom` with `generate_graph` (1.py:74-77) is modelled, as `Pipeline.Run`.
- The raised exception of `parse_pom` becomes the `Err` value of a `Result`, and the process's traceback is not modelled. Python's `AttributeError` carries neither the element's position nor the child's name. `MissingChild(position, name)` records where the loop raised: the name corresponds to line 21 or line 22 in the traceback.
- Dot.AppendRow: the inner loop walks the coordinates after position i, with an index k, instead of the source's j from i + 1. Turn k is turn j = i + 1 + k, and the lines appended are the same.
