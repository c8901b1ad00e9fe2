/*
 * The graph an automaton is drawn as: nodes carrying the initial/accepting
 * flags and transition lines between them (src/utils/node.h,
 * src/utils/tline.h). A node is identified by its index in the node
 * sequence, which stands for the C code's pointer identity (&nodes[i]).
 */
module Graph {

  datatype Option<+T> = None | Some(value: T)

  /** A state of the automaton; only the two flags the engine reads. */
  datatype Node = Node(initial: bool, accepting: bool)

  /** A transition line: from node `start` to node `end`, labelled by the
      characters of `inputs` (each one a symbol that triggers the line). */
  datatype Line = Line(start: nat, end: nat, inputs: seq<char>)

  /** The contents of a NUL-terminated C string whose characters index the
      engine's 128-slot counter tables: no NUL inside, every char below 128. */
  predicate CString(s: seq<char>) {
    forall i :: 0 <= i < |s| ==> 0 < s[i] as int < 128
  }

  /** Every line's label is such a string. */
  predicate LabelsAreCStrings(lines: seq<Line>) {
    forall j :: 0 <= j < |lines| ==> CString(lines[j].inputs)
  }

  /** Every line joins two nodes of the graph. */
  predicate WellFormed(nodes: seq<Node>, lines: seq<Line>) {
    forall j :: 0 <= j < |lines| ==> lines[j].start < |nodes| && lines[j].end < |nodes|
  }

  predicate HasInitial(nodes: seq<Node>) {
    exists i :: 0 <= i < |nodes| && nodes[i].initial
  }

  predicate HasAccepting(nodes: seq<Node>) {
    exists i :: 0 <= i < |nodes| && nodes[i].accepting
  }

  /** The node a forward scan that overwrites `initial_state` at every
      flagged node ends with: the last node flagged initial. */
  function LastInitial(nodes: seq<Node>): (r: Option<nat>)
    ensures r.None? <==> !HasInitial(nodes)
    ensures r.Some? ==> r.value < |nodes| && nodes[r.value].initial
    ensures r.Some? ==> forall i :: r.value < i < |nodes| ==> !nodes[i].initial
  {
    if |nodes| == 0 then None
    else if nodes[|nodes| - 1].initial then Some(|nodes| - 1)
    else
      var r := LastInitial(nodes[..|nodes| - 1]);
      assert forall i :: 0 <= i < |nodes| - 1 ==> nodes[..|nodes| - 1][i] == nodes[i];
      r
  }

  /** One more step of a forward scan over the nodes: the last initial node
      and the presence of an accepting node, updated by node i. */
  lemma ScanStep(nodes: seq<Node>, i: nat)
    requires i < |nodes|
    ensures LastInitial(nodes[..i + 1]) == if nodes[i].initial then Some(i) else LastInitial(nodes[..i])
    ensures HasInitial(nodes[..i + 1]) == (HasInitial(nodes[..i]) || nodes[i].initial)
    ensures HasAccepting(nodes[..i + 1]) == (HasAccepting(nodes[..i]) || nodes[i].accepting)
  {
    assert nodes[..i + 1][..i] == nodes[..i];
    assert nodes[..i + 1][i] == nodes[i];
  }
}
