# Dependency graph from a `mvn dependency:tree` report, in Dafny

This project models `MavenDependencyGraphFromOutput`. The class rebuilds a
dependency graph from the text of a Maven dependency-tree report, which has
one dependency per line, with nesting written as leading spaces. For each line:

1. The builder counts and strips the leading spaces; the count is the level.
2. It trims the line and skips noise: blank lines, `[INFO]` banners and `---` separators.
3. It looks for a `group:artifact:version:scope` coordinate anywhere in the
   line and keeps the first three parts.
4. It interns the node in a registry keyed by `group:artifact:version`.
5. The first level-0 coordinate becomes the root. Every later coordinate goes
   under a node that a breadth-first search from the root finds one level up.
   If there is none, the line is dropped.

The model has these modules:

- `DependencyNodes`: the node.
- `CoordinatePattern`: the regular expression and `Matcher.find`, written as a
  character matcher.
- `LineClassifier`: indentation, `trim`, the noise test and classification.
- `Walks`: walks of a given length through the adjacency map.
- `ParentSearch`: `findParentAtLevel`, as a method over a queue.
- `GraphBuilder`: the main loop, as methods over the three locals `graph`,
  `nodes` and `root`, plus a ghost trace of the states between lines.
- `GraphPrinter`: the root choice in `printDependencyGraph`.

Modelling choices:

- **Set and map order.** The order in which a `HashSet` returns its elements
  is not visible in the source. Where it matters, the model takes that order
  as a parameter or as an arbitrary choice. The results are then stated for
  every possible order:
  - the parent search returns *some* node at the end of a walk of exactly
    `level - 1` edges;
  - the printer's root depends on the key order it is given.
- **Indentation.** The code counts one level per leading space. Some
  descriptions of the report say one level per two spaces; the model uses one
  space per level. One consequence is proved: in a report indented by two
  spaces per level, a child written right after the root gets level 2, finds
  no parent, and is dropped (`TwoSpaceIndentedChildIsDropped`).
- **Root.** The code makes the first *level-0* coordinate the root, not the
  first coordinate. The model does the same.
- **Drop count.** The code keeps no count of dropped lines, so the model keeps
  none either.

## Model

| member | source | states |
|---|---|---|
| DependencyNodes.Id | src/chatProgram/MavenDependencyGraphFromOutput.java:21-23 | the id is as long as the three fields plus two separators, with a ':' right after the group and right after the artifact |
| DependencyNodes.Equals | src/chatProgram/MavenDependencyGraphFromOutput.java:26-31 | two nodes are equal exactly when their three fields are equal |
| DependencyNodes.IdInjective | src/chatProgram/MavenDependencyGraphFromOutput.java:21-23 | for nodes whose parts are regex segments, equal ids mean equal nodes and the reverse, so keying the registry by `getId` agrees with `equals` |
| CoordinatePattern.RunEnd | src/chatProgram/MavenDependencyGraphFromOutput.java:50 | a greedy `[\w.-]+` ends at the end of the longest run of segment characters |
| CoordinatePattern.SegmentColon | src/chatProgram/MavenDependencyGraphFromOutput.java:50 | a `([\w.-]+):` group matches a non-empty segment followed by the colon it returns |
| CoordinatePattern.MatchAt | src/chatProgram/MavenDependencyGraphFromOutput.java:50 | the pattern tried at one position; a match there yields a node whose three parts are regex segments |
| CoordinatePattern.MatchAtIff | src/chatProgram/MavenDependencyGraphFromOutput.java:50 | the pattern matches at a position with groups 1-3 giving node `n` exactly when the text there is `n`'s id, a colon and at least one segment character |
| CoordinatePattern.FindFrom | src/chatProgram/MavenDependencyGraphFromOutput.java:63-67 | `find` returns the leftmost match position and its groups, or nothing when no position matches |
| CoordinatePattern.FindRenderedCoordinate | src/chatProgram/MavenDependencyGraphFromOutput.java:63-67 | a full `group:artifact:version:scope` coordinate is found at position 0 and yields its own node; the scope takes no part |
| LineClassifier.Indentation | src/chatProgram/MavenDependencyGraphFromOutput.java:53-57 | the level is the number of leading spaces, and the rest of the line does not start with a space |
| LineClassifier.StripIndentation | src/chatProgram/MavenDependencyGraphFromOutput.java:53-57 | the loop that strips one space at a time returns the indentation count and the line without it |
| LineClassifier.TrimStart | src/chatProgram/MavenDependencyGraphFromOutput.java:58 | `trim` removes exactly the leading characters at or below U+0020 |
| LineClassifier.TrimEnd | src/chatProgram/MavenDependencyGraphFromOutput.java:58 | `trim` removes exactly the trailing characters at or below U+0020 |
| LineClassifier.Trim | src/chatProgram/MavenDependencyGraphFromOutput.java:58 | a trimmed line is empty or begins and ends with a character above U+0020 |
| LineClassifier.Classify | src/chatProgram/MavenDependencyGraphFromOutput.java:53-67 | a kept line gives a node made of regex segments, at a level equal to its indentation |
| LineClassifier.ClassifySkipsIff | src/chatProgram/MavenDependencyGraphFromOutput.java:58-64 | a line is skipped exactly when its trimmed text is empty, starts with `[INFO]` or `---`, or has no coordinate at any position |
| LineClassifier.ClassifyFindsLeftmost | src/chatProgram/MavenDependencyGraphFromOutput.java:63-67 | a kept line names the coordinate at the leftmost position where one starts |
| LineClassifier.ClassifyReportLine | src/chatProgram/MavenDependencyGraphFromOutput.java:52-67 | `k` spaces, blanks that are not spaces, a full coordinate and any tail classify as level `k` and that coordinate's node |
| Walks.WalkIffPath | src/chatProgram/MavenDependencyGraphFromOutput.java:100-116 | the searched-for relation (a walk of `k` edges from `s` to `t`) holds exactly when there is a path of `k + 1` nodes from `s` to `t` along edges |
| ParentSearch.OfferChildren | src/chatProgram/MavenDependencyGraphFromOutput.java:110-115 | the loop over the child set appends every child exactly once, one level further, in some order of the set |
| ParentSearch.FindParentAtLevel | src/chatProgram/MavenDependencyGraphFromOutput.java:88-118 | nothing for a negative target; otherwise any result ends a walk of exactly `targetLevel` edges from the start, and the result is nothing exactly when no such walk exists; the loop ends on cyclic graphs too |
| ParentSearch.ExpandStep | src/chatProgram/MavenDependencyGraphFromOutput.java:100-116 | expanding a dequeued entry below the target keeps every queued entry at the end of a walk of its length, keeps a continuable entry in the queue, and lowers the termination measure |
| GraphBuilder.Intern | src/chatProgram/MavenDependencyGraphFromOutput.java:69-70 | registering a node adds its id if absent and keeps every existing entry; afterwards the node registered under the id is equal to the new node |
| GraphBuilder.Attach | src/chatProgram/MavenDependencyGraphFromOutput.java:79-80 | attaching adds exactly the edge parent to child and gives both ends a key |
| GraphBuilder.AttachChanges | src/chatProgram/MavenDependencyGraphFromOutput.java:79-80 | attaching removes no key and no edge, and adds no edge other than parent to child |
| GraphBuilder.ClassifyLine | src/chatProgram/MavenDependencyGraphFromOutput.java:53-67 | the loop's own computation of level, trim, noise test and match gives the line's classification |
| GraphBuilder.ApplyEntry | src/chatProgram/MavenDependencyGraphFromOutput.java:68-82 | handling a matched line interns its node, sets the root on the first level-0 line, attaches the node under a node found one level up or drops it, and keeps the invariant |
| GraphBuilder.EntryStepPreservesInv | src/chatProgram/MavenDependencyGraphFromOutput.java:68-82 | handling a matched line keeps the invariant: one node per id, no dangling child, every key reachable from the root, and an empty graph before the root |
| GraphBuilder.AttachPreservesInv | src/chatProgram/MavenDependencyGraphFromOutput.java:77-81 | attaching under a node reached from the root keeps every key reachable and leaves no child without a key |
| GraphBuilder.StepPreservesInv | src/chatProgram/MavenDependencyGraphFromOutput.java:52-84 | every line, skipped or not, keeps the invariant |
| GraphBuilder.StepChanges | src/chatProgram/MavenDependencyGraphFromOutput.java:52-84 | one line only grows the graph: the only new key is the line's node, and there is at most one new edge, from a node at walk length `level - 1` from the root to the line's node |
| GraphBuilder.UnresolvedEntryIsDropped | src/chatProgram/MavenDependencyGraphFromOutput.java:75-81 | a matched line whose parent lookup finds nothing leaves graph and root unchanged but is still interned |
| GraphBuilder.TwoSpaceIndentedChildIsDropped | src/chatProgram/MavenDependencyGraphFromOutput.java:53-81 | since a level is one space, a coordinate indented by two spaces right after the root is level 2, finds no parent, and leaves the graph and root unchanged |
| GraphBuilder.FirstRootSnoc | src/chatProgram/MavenDependencyGraphFromOutput.java:72-75 | the first level-0 match of a longer input is the earlier one if there was one, otherwise the new line's node if it is level 0 |
| GraphBuilder.BuildDependencyGraphFromOutput | src/chatProgram/MavenDependencyGraphFromOutput.java:44-86 | the returned graph ends a run of the loop over the lines; no child lacks a key; the graph is empty exactly when no line is a level-0 match; otherwise the first level-0 match is a key and every key is reachable from it |
| GraphBuilder.RunInv | src/chatProgram/MavenDependencyGraphFromOutput.java:52-84 | every state between two lines of a run satisfies the invariant |
| GraphBuilder.RunGrows | src/chatProgram/MavenDependencyGraphFromOutput.java:52-84 | along a run no key and no edge is ever removed |
| GraphBuilder.RunRoot | src/chatProgram/MavenDependencyGraphFromOutput.java:72-75 | after any prefix the root is that prefix's first level-0 match: earlier nested lines are ignored and a later level-0 line never replaces it |
| GraphBuilder.EitherSiblingMayBeParent | src/chatProgram/MavenDependencyGraphFromOutput.java:88-91 | the search is a heuristic: below a root with two children, a level-2 line may go under either child |
| GraphPrinter.FirstSource | src/chatProgram/MavenDependencyGraphFromOutput.java:132-134 | `filter(...).findFirst()` returns the first key in order without an incoming edge, or nothing when every key has one |
| GraphPrinter.SelectRoot | src/chatProgram/MavenDependencyGraphFromOutput.java:125-135 | nothing for an empty graph; otherwise a key, which is the first key without an incoming edge when one exists and the first key when none does |
| GraphPrinter.OnlyRootIsSource | src/chatProgram/MavenDependencyGraphFromOutput.java:72-81 | in a graph the builder made, every key except the root has an incoming edge |
| GraphPrinter.PrinterFindsBuilderRoot | src/chatProgram/MavenDependencyGraphFromOutput.java:131-135 | when no edge points to the builder's root, the printer picks exactly that root whatever the key order |
| GraphPrinter.PrinterFallsBack | src/chatProgram/MavenDependencyGraphFromOutput.java:135 | when an edge points back to the builder's root, the printer picks whichever key comes first |

## Left out

- Reading the report is not modelled (`readDependencyTreeOutput`, lines
  120-123, and `src/chatProgram/MavenDependencyTreeReader.java`). It runs a
  `mvn` process and reads its output, which is process I/O. The lines are a
  parameter, and the `IOException` and `InterruptedException` it can throw
  are left out with it.
- `src/chatProgram/MavenEmbedderDependencyTree.java` and
  `src/chatProgram/ClientTicTac.java` are not part of this model. They are
  calls into Maven libraries whose code is not shown, and a socket and console
  game.
- `printGraphRecursive` and all `System.out` output of `printDependencyGraph`
  and `main` are not modelled. They are console output. Only the root choice
  is modelled.
- `hashCode` is not modelled. It is library hashing, and node maps and sets
  use Dafny's value equality instead.
- `toString` is the same as `getId` and is not modelled separately.
- `null` becomes `Option`. A missing `graph.get` becomes a key-membership test.
- `Pair` becomes a tuple.
- `java.util.regex` is replaced by the character matcher for this one
  pattern. `\w` is the ASCII class `[a-zA-Z_0-9]`, which is Java's default.
  Strings are sequences of characters, with no UTF-16 surrogate handling.
- ParentSearch.FindParentAtLevel: it does not say which node at the target
  length is returned. That depends on the iteration order of each `HashSet`,
  which is not visible in the source. The model promises only that the
  result ends a walk of exactly the target length.
- GraphBuilder.BuildDependencyGraphFromOutput: the graph is fixed only up
  to the order in which each child set is walked, because the parent at each
  line is any node the lookup may return. In Java that order is the same on
  every run over the same lines, so parsing one report twice gives one graph.
  The model does not state that repeatability.
- GraphPrinter.SelectRoot: the key order is a parameter (any order listing
  exactly the keys), because `HashMap` key order is not visible in the source.
