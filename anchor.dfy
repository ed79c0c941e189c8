/** Locating the point in a chunk's code where import statements may be inserted
    (src/index.ts, the `excludeTokens` set and the lookup at the start of the per-chunk
    work in generateBundle).

    The source parses the chunk with a native JavaScript parser and walks the direct
    children of the root. The parser is not part of this model: its result is given as
    the sequence of top-level nodes, each with its syntactic kind and the index where it
    starts in the code. */
module Anchor {
  import opened Wrappers

  /** One direct child of the syntax tree's root. */
  datatype TopLevelNode = TopLevelNode(kind: string, start: nat)

  /** Statement kinds that must stay ahead of the injected statements. */
  const ExcludeTokens: set<string> := {"expression_statement", "import_statement"}

  predicate Excluded(node: TopLevelNode) {
    node.kind in ExcludeTokens
  }

  /** What a parser of `code` delivers: nodes in source order, each starting inside
      the code. */
  predicate WellFormed(nodes: seq<TopLevelNode>, codeLength: nat) {
    && (forall i, j :: 0 <= i < j < |nodes| ==> nodes[i].start <= nodes[j].start)
    && (forall i :: 0 <= i < |nodes| ==> nodes[i].start <= codeLength)
  }

  /** `children().find(node => !excludeTokens.has(node.kind()))`, as an index. */
  function FirstIncluded(nodes: seq<TopLevelNode>): (r: Option<nat>)
    ensures r.Some? ==> r.value < |nodes| && !Excluded(nodes[r.value])
    ensures r.Some? ==> forall j :: 0 <= j < r.value ==> Excluded(nodes[j])
    ensures r.None? <==> forall j :: 0 <= j < |nodes| ==> Excluded(nodes[j])
  {
    if nodes == [] then None
    else if !Excluded(nodes[0]) then Some(0)
    else
      match FirstIncluded(nodes[1..])
      case None => None
      case Some(i) => Some(i + 1)
  }

  /** `node?.range().start.index ?? 0`: the start of the first node that is neither an
      import nor an expression statement, and 0 when there is no such node. */
  function InjectionPoint(nodes: seq<TopLevelNode>): (position: nat)
    ensures (forall j :: 0 <= j < |nodes| ==> Excluded(nodes[j])) ==> position == 0
    ensures forall i :: 0 <= i < |nodes| && !Excluded(nodes[i])
                        && (forall j :: 0 <= j < i ==> Excluded(nodes[j]))
                        ==> position == nodes[i].start
  {
    match FirstIncluded(nodes)
    case Some(i) => nodes[i].start
    case None => 0
  }

  /** With well-formed parser output, the anchor lies inside the code, every node that
      starts before it is an import or expression statement, and no other statement
      starts before it: injected code lands after the leading imports and before the
      first executable statement. */
  lemma InjectionPointSeparates(nodes: seq<TopLevelNode>, codeLength: nat)
    requires WellFormed(nodes, codeLength)
    ensures InjectionPoint(nodes) <= codeLength
    ensures forall j :: 0 <= j < |nodes| && nodes[j].start < InjectionPoint(nodes) ==> Excluded(nodes[j])
    ensures forall j :: 0 <= j < |nodes| && !Excluded(nodes[j]) ==> InjectionPoint(nodes) <= nodes[j].start
  {
    match FirstIncluded(nodes)
    case None =>
    case Some(i) =>
      forall j | 0 <= j < |nodes| && nodes[j].start < nodes[i].start
        ensures Excluded(nodes[j])
      {
        assert j < i;
      }
  }

  /** The anchor depends only on the kinds and starts of the nodes up to and including
      the first statement that is not excluded: appending nodes after it changes
      nothing. */
  lemma {:induction false} InjectionPointIgnoresLaterNodes(nodes: seq<TopLevelNode>, later: seq<TopLevelNode>)
    requires FirstIncluded(nodes).Some?
    ensures FirstIncluded(nodes + later) == FirstIncluded(nodes)
    ensures InjectionPoint(nodes + later) == InjectionPoint(nodes)
  {
    if !Excluded(nodes[0]) {
      assert (nodes + later)[0] == nodes[0];
    } else {
      assert (nodes + later)[1..] == nodes[1..] + later;
      InjectionPointIgnoresLaterNodes(nodes[1..], later);
    }
  }
}
