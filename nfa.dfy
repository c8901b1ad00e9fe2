/*
 * The NFA engine of src/utils/nfa.c: the transition that appends every
 * target node to a dynamic array, the depth-first search over those
 * targets, and the validator with its NfaState codes (src/utils/nfa.h).
 */
module Nfa {
  import opened Graph
  import opened StrOps
  import opened Transitions
  import opened Reachability
  import opened DArrays
  import Dfa

  /** The result codes of is_nfa_valid, in the order nfa.h declares them. */
  datatype NfaState =
    | Ok
    | EmptyAlphabet
    | NoInitialState
    | NoAcceptingState
    | InputInvalid
    | AcceptingStateNotReachable

  /** The stride of a darray of node pointers. */
  const PointerSize: nat := 8

  /** One iteration of nfa_transition's loop: push the line's end when the
      line leaves `current` and carries `input`. */
  method AppendIfMatches(current: nat, states: DArray<nat>, line: Line, input: char)
    requires states.Valid() && CString(line.inputs) && input as int < 128
    modifies states, states.data
    ensures states.Valid() && (states.data == old(states.data) || fresh(states.data))
    ensures states.Elements() == old(states.Elements()) + if LineMatches(line, current, input) then [line.end] else []
  {
    if line.start == current {
      var carries := AllCharsPresent(line.inputs, InputStr(input));
      AllPresentMeansMatch(line.inputs, input);
      if carries {
        var pushed := states.Push(line.end, true);
      }
    }
  }

  /** nfa_transition: append to `states`, in line order, the end of every
      line that leaves `current` and carries `input`. The duplicate scan in
      the source only continues its own loop, so nothing is skipped. */
  method NfaTransition(current: nat, states: DArray<nat>, lines: seq<Line>, input: char)
    requires states.Valid() && LabelsAreCStrings(lines) && input as int < 128
    modifies states, states.data
    ensures states.Valid() && (states.data == old(states.data) || fresh(states.data))
    ensures states.Elements() == old(states.Elements()) + Targets(lines, current, input)
  {
    ghost var before := states.Elements();
    var j := 0;
    while j < |lines|
      invariant 0 <= j <= |lines|
      invariant states.Valid() && (states.data == old(states.data) || fresh(states.data))
      invariant states.Elements() == before + Targets(lines[..j], current, input)
    {
      TargetsSnoc(lines, current, input, j);
      AppendIfMatches(current, states, lines[j], input);
      j := j + 1;
    }
    assert lines[..j] == lines;
  }

  /** path_exists_to_accepting_state (static in nfa.c): true at an accepting
      node, false at a visited one; otherwise mark the node visited and, for
      each alphabet symbol in turn, collect the targets with nfa_transition
      into a fresh darray and search from each of them (SearchTargets). */
  method PathExistsToAcceptingState(nodes: seq<Node>, lines: seq<Line>, alphabet: seq<char>,
                                    current: nat, visited: set<nat>)
    returns (found: bool, visitedAfter: set<nat>)
    requires WellFormed(nodes, lines) && LabelsAreCStrings(lines) && CString(alphabet)
    requires current < |nodes|
    ensures found ==> AcceptingReachable(Nondeterministic, nodes, lines, alphabet, current)
    ensures !found ==> Explored(Nondeterministic, nodes, lines, alphabet, visited, visitedAfter, current)
    decreases |NodeIds(|nodes|) - visited|, 1
  {
    if nodes[current].accepting {
      AcceptingIsReachable(Nondeterministic, nodes, lines, alphabet, current);
      return true, visited;
    }
    if current in visited {
      return false, visited;
    }
    visitedAfter := visited + {current};
    var k := 0;
    while k < |alphabet|
      invariant 0 <= k <= |alphabet|
      invariant Frontier(Nondeterministic, nodes, lines, alphabet, visited, current, visitedAfter)
      invariant Covered(Nondeterministic, lines, alphabet, current, k, visitedAfter)
    {
      var states := new DArray<nat>(DefaultCapacity, PointerSize, 0);
      NfaTransition(current, states, lines, alphabet[k]);
      var f, grown := SearchTargets(nodes, lines, alphabet, visited, current, k, states, visitedAfter);
      if f {
        return true, grown;
      }
      CoveredStep(Nondeterministic, lines, alphabet, current, k, visitedAfter, grown);
      visitedAfter := grown;
      k := k + 1;
    }
    FrontierCloses(Nondeterministic, nodes, lines, alphabet, visited, current, visitedAfter);
    return false, visitedAfter;
  }

  /** The inner loop of the search (nfa.c:21-28): search from each node
      nfa_transition collected for symbol k, in order, until one reaches an
      accepting node. Answering false, it has visited every one of them. */
  method SearchTargets(nodes: seq<Node>, lines: seq<Line>, alphabet: seq<char>,
                       visited: set<nat>, current: nat, k: nat, states: DArray<nat>, within: set<nat>)
    returns (found: bool, grown: set<nat>)
    requires WellFormed(nodes, lines) && LabelsAreCStrings(lines) && CString(alphabet)
    requires current < |nodes| && current !in visited && k < |alphabet|
    requires states.Valid() && states.Elements() == Targets(lines, current, alphabet[k])
    requires Frontier(Nondeterministic, nodes, lines, alphabet, visited, current, within)
    ensures found ==> AcceptingReachable(Nondeterministic, nodes, lines, alphabet, current)
    ensures !found ==> Frontier(Nondeterministic, nodes, lines, alphabet, visited, current, grown)
    ensures !found ==> within <= grown && forall w :: w in Step(Nondeterministic, lines, current, alphabet[k]) ==> w in grown
    decreases |NodeIds(|nodes|) - visited|, 0
  {
    ghost var targets := states.Elements();
    TargetsMembers(lines, current, alphabet[k]);
    grown := within;
    var length := states.GetHeaderField(SizeField);
    var i := 0;
    while i < length
      invariant 0 <= i <= length && length == |targets|
      invariant Frontier(Nondeterministic, nodes, lines, alphabet, visited, current, grown) && within <= grown
      invariant forall t :: 0 <= t < i ==> targets[t] in grown
    {
      var w := states.data[i];
      assert w == targets[i] && w in targets;
      UnvisitedShrinks(|nodes|, visited, grown, current);
      var f, after := PathExistsToAcceptingState(nodes, lines, alphabet, w, grown);
      if f {
        ReachableByStep(Nondeterministic, nodes, lines, alphabet, current, k, w);
        return true, after;
      }
      FrontierGrows(Nondeterministic, nodes, lines, alphabet, visited, current, grown, after, w);
      forall t | 0 <= t < i + 1 ensures targets[t] in after {
        if t == i {
          assert targets[t] == w;
        }
      }
      grown := after;
      i := i + 1;
    }
    forall w | w in targets ensures w in grown {
      var t :| 0 <= t < |targets| && targets[t] == w;
    }
    return false, grown;
  }

  /** How far is_nfa_valid's node scan runs from position `i`: to the first
      prefix longer than `i` that holds both an initial and an accepting
      node (where the scan breaks), or to the end. */
  function ScanLength(nodes: seq<Node>, i: nat): (m: nat)
    requires i <= |nodes|
    ensures i <= m <= |nodes|
    ensures m == |nodes| || (HasInitial(nodes[..m]) && HasAccepting(nodes[..m]))
    ensures forall n :: i < n < m ==> !(HasInitial(nodes[..n]) && HasAccepting(nodes[..n]))
    decreases |nodes| - i
  {
    if i == |nodes| then |nodes|
    else if HasInitial(nodes[..i + 1]) && HasAccepting(nodes[..i + 1]) then i + 1
    else ScanLength(nodes, i + 1)
  }

  /** A flag found in a prefix is found in the whole sequence. */
  lemma PrefixFlags(nodes: seq<Node>, m: nat)
    requires m <= |nodes|
    ensures HasInitial(nodes[..m]) ==> HasInitial(nodes)
    ensures HasAccepting(nodes[..m]) ==> HasAccepting(nodes)
  {
    if HasInitial(nodes[..m]) {
      var i :| 0 <= i < m && nodes[..m][i].initial;
      assert nodes[i].initial;
    }
    if HasAccepting(nodes[..m]) {
      var i :| 0 <= i < m && nodes[..m][i].accepting;
      assert nodes[i].accepting;
    }
  }

  /** The node is_nfa_valid searches from: the last node flagged initial
      within the scanned prefix. */
  function NfaInitial(nodes: seq<Node>): (r: nat)
    requires HasInitial(nodes)
    ensures r < ScanLength(nodes, 0) && nodes[r].initial
    ensures forall i :: r < i < ScanLength(nodes, 0) ==> !nodes[i].initial
  {
    var m := ScanLength(nodes, 0);
    assert m == |nodes| ==> nodes[..m] == nodes;
    LastInitial(nodes[..m]).value
  }

  /** What is_nfa_valid answers, check by check in the source's order: an
      absent alphabet; a label character outside the alphabet; no initial
      node; no accepting node; no accepting node reachable from NfaInitial. */
  ghost function NfaVerdict(nodes: seq<Node>, lines: seq<Line>, alphabet: Option<seq<char>>): NfaState {
    if alphabet.None? then EmptyAlphabet
    else if exists j :: 0 <= j < |lines| && !AllPresent(alphabet.value, lines[j].inputs) then InputInvalid
    else if !HasInitial(nodes) then NoInitialState
    else if !HasAccepting(nodes) then NoAcceptingState
    else if !AcceptingReachable(Nondeterministic, nodes, lines, alphabet.value, NfaInitial(nodes)) then AcceptingStateNotReachable
    else Ok
  }

  /** is_nfa_valid: the checks in the source's order; the node scan stops
      once it has seen both an initial and an accepting node. */
  method IsNfaValid(nodes: seq<Node>, lines: seq<Line>, alphabet: Option<seq<char>>) returns (r: NfaState)
    requires WellFormed(nodes, lines) && LabelsAreCStrings(lines)
    requires alphabet.Some? ==> CString(alphabet.value)
    ensures r == NfaVerdict(nodes, lines, alphabet)
  {
    if alphabet.None? {
      return EmptyAlphabet;
    }
    var a := alphabet.value;
    var initial: Option<nat> := None;
    var acceptingExists := false;

    var valid := AllLabelsPresent(a, lines);
    if !valid {
      return InputInvalid;
    }

    var i := 0;
    while i < |nodes|
      invariant 0 <= i <= |nodes|
      invariant initial == LastInitial(nodes[..i])
      invariant acceptingExists == HasAccepting(nodes[..i])
      invariant ScanLength(nodes, 0) == ScanLength(nodes, i)
    {
      ScanStep(nodes, i);
      if nodes[i].initial {
        initial := Some(i);
      }
      if nodes[i].accepting {
        acceptingExists := true;
      }
      if initial.Some? && acceptingExists {
        i := i + 1;
        break;
      }
      i := i + 1;
    }
    // Here i is where the scan stopped.
    assert i == ScanLength(nodes, 0);
    PrefixFlags(nodes, i);
    if i == |nodes| {
      assert nodes[..i] == nodes;
    }

    if initial.None? {
      return NoInitialState;
    }
    if !acceptingExists {
      return NoAcceptingState;
    }
    assert initial.value == NfaInitial(nodes);
    var found, visited := PathExistsToAcceptingState(nodes, lines, a, initial.value, {});
    if !found {
      ExploredUnreachable(Nondeterministic, nodes, lines, a, visited, initial.value);
      return AcceptingStateNotReachable;
    }
    return Ok;
  }

  /** Exactly one node is flagged initial. */
  predicate UniqueInitial(nodes: seq<Node>) {
    forall i, j :: 0 <= i < |nodes| && 0 <= j < |nodes| && nodes[i].initial && nodes[j].initial ==> i == j
  }

  /** With a single initial node both validators search from it. */
  lemma SameStartWhenUnique(nodes: seq<Node>)
    requires HasInitial(nodes) && UniqueInitial(nodes)
    ensures NfaInitial(nodes) == LastInitial(nodes).value
  {
  }

  /** A graph the DFA validator accepts, with a single initial node, is
      accepted by the NFA validator too. */
  lemma DfaOkImpliesNfaOk(nodes: seq<Node>, lines: seq<Line>, alphabet: Option<seq<char>>)
    requires alphabet.Some? ==> CString(alphabet.value)
    requires UniqueInitial(nodes)
    requires Dfa.DfaVerdict(nodes, lines, alphabet) == Dfa.Ok
    ensures NfaVerdict(nodes, lines, alphabet) == Ok
  {
    var a := alphabet.value;
    assert !exists j :: 0 <= j < |lines| && !AllPresent(a, lines[j].inputs);
    assert HasInitial(nodes) && HasAccepting(nodes);
    var start := LastInitial(nodes).value;
    assert AcceptingReachable(Deterministic, nodes, lines, a, start);
    SameStartWhenUnique(nodes);
    DeterministicReachImpliesNondeterministic(nodes, lines, a, start);
  }

  /** With several initial nodes the two validators can start from
      different nodes: the NFA scan stops once it has seen an initial and an
      accepting node, the DFA scan runs on to the last initial one. They part
      when an initial node follows the point where the NFA scan stops, as
      here, where accepting node 1 comes before initial node 2. */
  lemma ValidatorsStartApart()
    ensures var nodes := [Node(true, false), Node(false, true), Node(true, false)];
            HasInitial(nodes) && NfaInitial(nodes) == 0 && LastInitial(nodes).value == 2
  {
    var nodes := [Node(true, false), Node(false, true), Node(true, false)];
    assert nodes[0].initial;
    assert nodes[..1][0].initial && !HasAccepting(nodes[..1]);
    assert nodes[..2][0].initial && nodes[..2][1].accepting;
    assert ScanLength(nodes, 1) == 2;
    assert ScanLength(nodes, 0) == 2;
  }

  /** Two lines from the initial (and accepting) node 0 on the same symbol
      'a', none on 'b'. */
  function TwinLines(): (lines: seq<Line>)
    ensures |lines| == 2 && forall j :: 0 <= j < 2 ==> lines[j] == Line(0, 1, ['a'])
  {
    [Line(0, 1, ['a']), Line(0, 1, ['a'])]
  }

  /** The DFA validator rejects TwinLines for its repeated symbol. */
  lemma DfaRejectsTwinLines()
    ensures Dfa.DfaVerdict([Node(true, true), Node(false, false)], TwinLines(), Some(['a', 'b']))
            == Dfa.MultipleTransitionsDefined
  {
    var lines := TwinLines();
    forall j | 0 <= j < |lines| ensures AllPresent(['a', 'b'], lines[j].inputs) {
      assert lines[j].inputs == ['a'];
    }
    Dfa.SharedSymbolRepeats(lines, 0, 0, 1, 'a');
    var faults := Dfa.NodeFaults(lines, ['a', 'b'], 2);
    assert faults[0] == Some(Dfa.MultipleTransitionsDefined);
  }

  /** The NFA validator has no determinism or totality check: it accepts
      TwinLines, which the DFA validator rejects. */
  lemma NfaAcceptsTwinLines()
    ensures NfaVerdict([Node(true, true), Node(false, false)], TwinLines(), Some(['a', 'b'])) == Ok
  {
    var nodes := [Node(true, true), Node(false, false)];
    var lines := TwinLines();
    forall j | 0 <= j < |lines| ensures AllPresent(['a', 'b'], lines[j].inputs) {
      assert lines[j].inputs == ['a'];
    }
    assert nodes[..1][0] == Node(true, true);
    assert ScanLength(nodes, 0) == 1;
    AcceptingIsReachable(Nondeterministic, nodes, lines, ['a', 'b'], 0);
  }
}
