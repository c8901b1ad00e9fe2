/*
 * The DFA engine of src/utils/dfa.c: the one-step transition, the
 * depth-first search for a reachable accepting node, and the validator
 * that reports the first failed check as a DfaState code (src/utils/dfa.h).
 */
module Dfa {
  import opened Graph
  import opened StrOps
  import opened Transitions
  import opened Reachability

  /** The result codes of is_dfa_valid, in the order dfa.h declares them. */
  datatype DfaState =
    | Ok
    | EmptyAlphabet
    | NoInitialState
    | NoAcceptingState
    | InputInvalid
    | MultipleTransitionsDefined
    | RequireAllInputTransitions
    | AcceptingStateNotReachable

  /** dfa_transition: scan the lines in order and answer with the end of the
      first one that leaves `current` and carries `input`. */
  method DfaTransition(current: nat, lines: seq<Line>, input: char) returns (r: Option<nat>)
    requires LabelsAreCStrings(lines) && input as int < 128
    ensures r == DfaStep(lines, current, input)
  {
    var j := 0;
    while j < |lines|
      invariant 0 <= j <= |lines|
      invariant forall i :: 0 <= i < j ==> !LineMatches(lines[i], current, input)
    {
      if lines[j].start == current {
        var carries := AllCharsPresent(lines[j].inputs, InputStr(input));
        AllPresentMeansMatch(lines[j].inputs, input);
        if carries {
          return Some(lines[j].end);
        }
      }
      j := j + 1;
    }
    return None;
  }

  /** Every node has a transition on every alphabet symbol. */
  predicate Total(nodes: seq<Node>, lines: seq<Line>, alphabet: seq<char>) {
    forall u, k :: 0 <= u < |nodes| && 0 <= k < |alphabet| ==> DfaStep(lines, u, alphabet[k]).Some?
  }

  /** path_exists_to_accepting_state: true at an accepting node, false at a
      visited one; otherwise mark the node visited and search from its
      successor on each alphabet symbol in turn. The visited set is threaded
      through the calls. The successor must exist: the source dereferences it
      (Total, which the validator has established before it searches). */
  method PathExistsToAcceptingState(nodes: seq<Node>, lines: seq<Line>, alphabet: seq<char>,
                                    current: nat, visited: set<nat>)
    returns (found: bool, visitedAfter: set<nat>)
    requires WellFormed(nodes, lines) && LabelsAreCStrings(lines) && CString(alphabet)
    requires Total(nodes, lines, alphabet) && current < |nodes|
    ensures found ==> AcceptingReachable(Deterministic, nodes, lines, alphabet, current)
    ensures !found ==> Explored(Deterministic, nodes, lines, alphabet, visited, visitedAfter, current)
    decreases |NodeIds(|nodes|) - visited|
  {
    if nodes[current].accepting {
      AcceptingIsReachable(Deterministic, nodes, lines, alphabet, current);
      return true, visited;
    }
    if current in visited {
      return false, visited;
    }
    visitedAfter := visited + {current};
    var k := 0;
    while k < |alphabet|
      invariant 0 <= k <= |alphabet|
      invariant Frontier(Deterministic, nodes, lines, alphabet, visited, current, visitedAfter)
      invariant Covered(Deterministic, lines, alphabet, current, k, visitedAfter)
    {
      var next := DfaTransition(current, lines, alphabet[k]);
      var w := next.value;
      assert Step(Deterministic, lines, current, alphabet[k]) == [w];
      UnvisitedShrinks(|nodes|, visited, visitedAfter, current);
      var f, grown := PathExistsToAcceptingState(nodes, lines, alphabet, w, visitedAfter);
      if f {
        ReachableByStep(Deterministic, nodes, lines, alphabet, current, k, w);
        return true, grown;
      }
      FrontierGrows(Deterministic, nodes, lines, alphabet, visited, current, visitedAfter, grown, w);
      CoveredStep(Deterministic, lines, alphabet, current, k, visitedAfter, grown);
      visitedAfter := grown;
      k := k + 1;
    }
    FrontierCloses(Deterministic, nodes, lines, alphabet, visited, current, visitedAfter);
    return false, visitedAfter;
  }

  /** The labels of the lines leaving `v`, concatenated in line order: the
      characters is_dfa_valid tallies for node `v`. */
  function OutLabels(lines: seq<Line>, v: nat): (s: seq<char>)
    ensures forall c :: c in s <==> exists j :: 0 <= j < |lines| && lines[j].start == v && c in lines[j].inputs
  {
    if |lines| == 0 then []
    else
      var init, last := lines[..|lines| - 1], lines[|lines| - 1];
      assert forall j :: 0 <= j < |init| ==> init[j] == lines[j];
      OutLabels(init, v) + (if last.start == v then last.inputs else [])
  }

  predicate Distinct(s: seq<char>) {
    forall p, q :: 0 <= p < q < |s| ==> s[p] != s[q]
  }

  /** The per-node verdict: some character tallied twice, else some alphabet
      symbol tallied never, else none. */
  function NodeFault(lines: seq<Line>, alphabet: seq<char>, v: nat): Option<DfaState> {
    if !Distinct(OutLabels(lines, v)) then Some(MultipleTransitionsDefined)
    else if exists k :: 0 <= k < |alphabet| && alphabet[k] !in OutLabels(lines, v) then Some(RequireAllInputTransitions)
    else None
  }

  /** The per-node verdicts of nodes 0..n-1, in node order. */
  function NodeFaults(lines: seq<Line>, alphabet: seq<char>, n: nat): (fs: seq<Option<DfaState>>)
    ensures |fs| == n && forall v :: 0 <= v < n ==> fs[v] == NodeFault(lines, alphabet, v)
  {
    seq(n, v requires 0 <= v => NodeFault(lines, alphabet, v))
  }

  /** The verdict of the first faulty node from position `from` on: none
      exactly when every such node passes, and otherwise the fault of a node
      all of whose predecessors (from `from` on) pass. */
  function FirstFault(faults: seq<Option<DfaState>>, from: nat): (r: Option<DfaState>)
    ensures r.None? <==> forall v :: from <= v < |faults| ==> faults[v].None?
    ensures r.Some? ==> exists v :: from <= v < |faults| && faults[v] == r &&
                                    forall u :: from <= u < v ==> faults[u].None?
    decreases |faults| - from
  {
    if from >= |faults| then None
    else if faults[from].Some? then faults[from]
    else FirstFault(faults, from + 1)
  }

  /** What is_dfa_valid answers, check by check in the source's order: an
      absent alphabet; a label character outside the alphabet; the first
      node (in node order) with a symbol defined twice or an alphabet symbol
      missing; no initial node; no accepting node; no accepting node
      reachable from the last node flagged initial. */
  ghost function DfaVerdict(nodes: seq<Node>, lines: seq<Line>, alphabet: Option<seq<char>>): DfaState {
    if alphabet.None? then EmptyAlphabet
    else if exists j :: 0 <= j < |lines| && !AllPresent(alphabet.value, lines[j].inputs) then InputInvalid
    else if FirstFault(NodeFaults(lines, alphabet.value, |nodes|), 0).Some? then
      FirstFault(NodeFaults(lines, alphabet.value, |nodes|), 0).value
    else if !HasInitial(nodes) then NoInitialState
    else if !HasAccepting(nodes) then NoAcceptingState
    else if !AcceptingReachable(Deterministic, nodes, lines, alphabet.value, LastInitial(nodes).value) then AcceptingStateNotReachable
    else Ok
  }

  lemma DistinctSnoc(s: seq<char>, x: char)
    requires Distinct(s) && x !in s
    ensures Distinct(s + [x])
  {
  }

  /** A repeat in a prefix is a repeat in the whole sequence. */
  lemma RepeatInPrefix(s: seq<char>, t: seq<char>)
    requires s <= t && !Distinct(s)
    ensures !Distinct(t)
  {
    var p, q :| 0 <= p < q < |s| && s[p] == s[q];
    assert t[p] == s[p] && t[q] == s[q];
  }

  /** The labels tallied up to line j come first among all of them. */
  lemma {:induction false} OutLabelsPrefix(lines: seq<Line>, v: nat, j: nat)
    requires j <= |lines|
    ensures OutLabels(lines[..j], v) <= OutLabels(lines, v)
    decreases |lines| - j
  {
    if j < |lines| {
      OutLabelsPrefix(lines, v, j + 1);
      assert lines[..j + 1][..j] == lines[..j];
    } else {
      assert lines[..j] == lines;
    }
  }

  /** Tallying line j appends its label when it leaves `v`. */
  lemma OutLabelsSnoc(lines: seq<Line>, v: nat, j: nat)
    requires j < |lines|
    ensures OutLabels(lines[..j + 1], v) == OutLabels(lines[..j], v) + (if lines[j].start == v then lines[j].inputs else [])
  {
    assert lines[..j + 1][..j] == lines[..j];
  }

  /** A character already tallied makes the tally repeat. */
  lemma TallyRepeats(done: seq<char>, x: char)
    requires x in done
    ensures !Distinct(done + [x])
  {
    var p :| 0 <= p < |done| && done[p] == x;
    assert (done + [x])[p] == (done + [x])[|done|];
  }

  /** The table holds the count of every character of `s`. */
  ghost predicate Counts(buf: array<nat>, s: seq<char>)
    reads buf
  {
    buf.Length == 128 && forall c :: 0 <= c < 128 ==> buf[c] == multiset(s)[c as char]
  }

  /** The innermost loop of is_dfa_valid (dfa.c:47-51): add one label's
      characters to the table, stopping at the first count above one. */
  method TallyLabel(buf: array<nat>, ghost done: seq<char>, inputs: seq<char>) returns (repeat: bool)
    requires Counts(buf, done) && Distinct(done) && CString(inputs)
    modifies buf
    ensures repeat <==> !Distinct(done + inputs)
    ensures !repeat ==> Counts(buf, done + inputs)
  {
    var k := 0;
    while k < |inputs|
      invariant 0 <= k <= |inputs|
      invariant Counts(buf, done + inputs[..k]) && Distinct(done + inputs[..k])
    {
      var x := inputs[k] as int;
      ghost var tallied := done + inputs[..k];
      assert done + inputs[..k + 1] == tallied + [inputs[k]];
      assert (x as char) == inputs[k];
      buf[x] := buf[x] + 1;
      if buf[x] > 1 {
        TallyRepeats(tallied, inputs[k]);
        assert done + inputs == tallied + [inputs[k]] + inputs[k + 1..];
        RepeatInPrefix(tallied + [inputs[k]], done + inputs);
        return true;
      }
      DistinctSnoc(tallied, inputs[k]);
      k := k + 1;
    }
    assert inputs[..k] == inputs;
    return false;
  }

  /** One turn of the line loop of is_dfa_valid (dfa.c:45-52): a line
      leaving `v` adds its label to the table. */
  method TallyLine(buf: array<nat>, lines: seq<Line>, v: nat, j: nat) returns (repeat: bool)
    requires j < |lines| && CString(lines[j].inputs)
    requires Counts(buf, OutLabels(lines[..j], v)) && Distinct(OutLabels(lines[..j], v))
    modifies buf
    ensures repeat <==> !Distinct(OutLabels(lines[..j + 1], v))
    ensures !repeat ==> Counts(buf, OutLabels(lines[..j + 1], v))
  {
    OutLabelsSnoc(lines, v, j);
    if lines[j].start == v {
      repeat := TallyLabel(buf, OutLabels(lines[..j], v), lines[j].inputs);
    } else {
      repeat := false;
    }
  }

  /** The tally loop of is_dfa_valid for node `v` (dfa.c:44-53): count
      each label character of each line leaving `v` in a fresh 128-slot
      table, stopping as soon as a count exceeds one. */
  method TallyNode(lines: seq<Line>, v: nat) returns (buf: array<nat>, repeat: bool)
    requires LabelsAreCStrings(lines)
    ensures fresh(buf)
    ensures repeat <==> !Distinct(OutLabels(lines, v))
    ensures !repeat ==> Counts(buf, OutLabels(lines, v))
  {
    buf := new nat[128](_ => 0);
    var j := 0;
    while j < |lines|
      invariant 0 <= j <= |lines|
      invariant Counts(buf, OutLabels(lines[..j], v)) && Distinct(OutLabels(lines[..j], v))
    {
      repeat := TallyLine(buf, lines, v, j);
      if repeat {
        OutLabelsPrefix(lines, v, j + 1);
        RepeatInPrefix(OutLabels(lines[..j + 1], v), OutLabels(lines, v));
        return;
      }
      j := j + 1;
    }
    assert lines[..j] == lines;
    repeat := false;
  }

  /** The per-node checks of is_dfa_valid for node `v` (dfa.c:44-60): a
      count above one fails with MULTIPLE_TRANSITIONS_DEFINED; then the
      first alphabet symbol with a zero count fails with
      REQUIRE_ALL_INPUT_TRANSITIONS. */
  method CheckNode(lines: seq<Line>, alphabet: seq<char>, v: nat) returns (r: Option<DfaState>)
    requires LabelsAreCStrings(lines) && CString(alphabet)
    ensures r == NodeFault(lines, alphabet, v)
  {
    var buf, repeat := TallyNode(lines, v);
    if repeat {
      return Some(MultipleTransitionsDefined);
    }
    var k := 0;
    while k < |alphabet|
      invariant 0 <= k <= |alphabet|
      invariant forall i :: 0 <= i < k ==> alphabet[i] in OutLabels(lines, v)
    {
      if buf[alphabet[k] as int] == 0 {
        assert (alphabet[k] as int) as char == alphabet[k];
        return Some(RequireAllInputTransitions);
      }
      k := k + 1;
    }
    return None;
  }

  /** Two lines leaving `v` that carry the same character put a repeat into
      the tallied labels. */
  lemma {:induction false} SharedSymbolRepeats(lines: seq<Line>, v: nat, j1: nat, j2: nat, c: char)
    requires j1 < j2 < |lines| && lines[j1].start == v && lines[j2].start == v
    requires c in lines[j1].inputs && c in lines[j2].inputs
    ensures !Distinct(OutLabels(lines, v))
  {
    var init, last := lines[..|lines| - 1], lines[|lines| - 1];
    assert forall j :: 0 <= j < |init| ==> init[j] == lines[j];
    if j2 < |lines| - 1 {
      SharedSymbolRepeats(init, v, j1, j2, c);
      OutLabelsPrefix(lines, v, |lines| - 1);
      RepeatInPrefix(OutLabels(init, v), OutLabels(lines, v));
    } else {
      var s := OutLabels(init, v);
      assert c in s;
      var p :| 0 <= p < |s| && s[p] == c;
      var q :| 0 <= q < |last.inputs| && last.inputs[q] == c;
      assert OutLabels(lines, v) == s + last.inputs;
      assert OutLabels(lines, v)[p] == OutLabels(lines, v)[|s| + q];
    }
  }

  /** A node that passes the per-node checks has, for every alphabet symbol,
      a transition, and exactly one line carrying it. */
  lemma NoFaultMeansTotalAndDeterministic(lines: seq<Line>, alphabet: seq<char>, v: nat, k: nat)
    requires CString(alphabet) && k < |alphabet|
    requires NodeFault(lines, alphabet, v).None?
    ensures DfaStep(lines, v, alphabet[k]).Some?
    ensures AtMostOneMatch(lines, v, alphabet[k])
  {
    var c := alphabet[k];
    assert c in OutLabels(lines, v);
    var j :| 0 <= j < |lines| && lines[j].start == v && c in lines[j].inputs;
    assert LineMatches(lines[j], v, c);
    forall j1, j2 | 0 <= j1 < |lines| && 0 <= j2 < |lines| && LineMatches(lines[j1], v, c) && LineMatches(lines[j2], v, c)
      ensures j1 == j2
    {
      if j1 < j2 {
        SharedSymbolRepeats(lines, v, j1, j2, c);
      } else if j2 < j1 {
        SharedSymbolRepeats(lines, v, j2, j1, c);
      }
    }
  }

  /** Once every node passes the per-node checks the search's totality
      precondition holds. */
  lemma NoFaultsMeansTotal(nodes: seq<Node>, lines: seq<Line>, alphabet: seq<char>)
    requires CString(alphabet) && FirstFault(NodeFaults(lines, alphabet, |nodes|), 0).None?
    ensures Total(nodes, lines, alphabet)
  {
    forall u, k | 0 <= u < |nodes| && 0 <= k < |alphabet| ensures DfaStep(lines, u, alphabet[k]).Some? {
      NoFaultMeansTotalAndDeterministic(lines, alphabet, u, k);
    }
  }

  /** A validated DFA is total and deterministic: dfa_transition is defined
      on every node and alphabet symbol, and exactly one line carries it. */
  lemma OkIsTotalAndDeterministic(nodes: seq<Node>, lines: seq<Line>, alphabet: Option<seq<char>>)
    requires alphabet.Some? ==> CString(alphabet.value)
    requires DfaVerdict(nodes, lines, alphabet) == Ok
    ensures alphabet.Some?
    ensures forall u, k :: 0 <= u < |nodes| && 0 <= k < |alphabet.value| ==>
              DfaStep(lines, u, alphabet.value[k]).Some? && AtMostOneMatch(lines, u, alphabet.value[k])
  {
    var a := alphabet.value;
    var faults := NodeFaults(lines, a, |nodes|);
    assert FirstFault(faults, 0).None?;
    forall u, k | 0 <= u < |nodes| && 0 <= k < |a|
      ensures DfaStep(lines, u, a[k]).Some? && AtMostOneMatch(lines, u, a[k])
    {
      assert faults[u].None?;
      NoFaultMeansTotalAndDeterministic(lines, a, u, k);
    }
  }

  /** is_dfa_valid: the checks in the source's order, each returning its
      code at the first violation. */
  method IsDfaValid(nodes: seq<Node>, lines: seq<Line>, alphabet: Option<seq<char>>) returns (r: DfaState)
    requires WellFormed(nodes, lines) && LabelsAreCStrings(lines)
    requires alphabet.Some? ==> CString(alphabet.value)
    ensures r == DfaVerdict(nodes, lines, alphabet)
  {
    if alphabet.None? {
      return EmptyAlphabet;
    }
    var a := alphabet.value;
    var initial: Option<nat> := None;
    var acceptingExists := false;

    var valid := AllLabelsPresent(a, lines);
    if !valid {
      return InputInvalid;
    }

    ghost var faults := NodeFaults(lines, a, |nodes|);
    var i := 0;
    while i < |nodes|
      invariant 0 <= i <= |nodes|
      invariant initial == LastInitial(nodes[..i])
      invariant acceptingExists == HasAccepting(nodes[..i])
      invariant FirstFault(faults, 0) == FirstFault(faults, i)
    {
      ScanStep(nodes, i);
      if nodes[i].initial {
        initial := Some(i);
      }
      if nodes[i].accepting {
        acceptingExists := true;
      }
      var fault := CheckNode(lines, a, i);
      if fault.Some? {
        return fault.value;
      }
      i := i + 1;
    }
    assert nodes[..i] == nodes;

    if initial.None? {
      return NoInitialState;
    }
    if !acceptingExists {
      return NoAcceptingState;
    }
    NoFaultsMeansTotal(nodes, lines, a);
    var found, visited := PathExistsToAcceptingState(nodes, lines, a, initial.value, {});
    if !found {
      ExploredUnreachable(Deterministic, nodes, lines, a, visited, initial.value);
      return AcceptingStateNotReachable;
    }
    return Ok;
  }
}
