/*
 * What one transition step means: the line search dfa_transition performs
 * (src/utils/dfa.c:78-88) and the list nfa_transition appends
 * (src/utils/nfa.c:68-82), stated as functions of the line sequence.
 */
module Transitions {
  import opened Graph
  import opened StrOps

  /** The two-character buffer {input, 0} both transition routines build:
      as a C string it is empty when the input itself is NUL. */
  function InputStr(c: char): seq<char> {
    if c == 0 as char then [] else [c]
  }

  /** A line carries symbol `c`: its label contains `c`, or `c` is NUL,
      whose input string is empty and so lies in every label. */
  predicate LabelMatches(inputs: seq<char>, c: char) {
    c == 0 as char || c in inputs
  }

  /** The question both transition routines ask,
      all_chars_present(label, input_str), is whether the label carries the
      symbol: a label "ab" carries 'a' and 'b' and nothing else, and every
      label carries NUL. */
  lemma AllPresentMeansMatch(inputs: seq<char>, c: char)
    ensures AllPresent(inputs, InputStr(c)) <==> LabelMatches(inputs, c)
  {
    if c != 0 as char {
      assert InputStr(c) == [c];
      assert AllPresent(inputs, [c]) <==> [c][0] in inputs;
    }
  }

  /** A line leaves `v` and carries `c`. */
  predicate LineMatches(line: Line, v: nat, c: char) {
    line.start == v && LabelMatches(line.inputs, c)
  }

  /** Index of the first line, in line order, that leaves `v` carrying `c`. */
  function FirstMatch(lines: seq<Line>, v: nat, c: char): (r: Option<nat>)
    ensures r.Some? ==> r.value < |lines| && LineMatches(lines[r.value], v, c)
    ensures r.Some? ==> forall j :: 0 <= j < r.value ==> !LineMatches(lines[j], v, c)
    ensures r.None? <==> forall j :: 0 <= j < |lines| ==> !LineMatches(lines[j], v, c)
  {
    if |lines| == 0 then None
    else if LineMatches(lines[0], v, c) then Some(0)
    else
      match FirstMatch(lines[1..], v, c)
      case None =>
        assert forall j :: 1 <= j < |lines| ==> lines[j] == lines[1..][j - 1];
        None
      case Some(j) =>
        assert forall i :: 1 <= i < |lines| ==> lines[i] == lines[1..][i - 1];
        Some(j + 1)
  }

  /** The node dfa_transition returns: the end of the first line leaving `v`
      that carries `c`, or nothing (NULL) when no line does. */
  function DfaStep(lines: seq<Line>, v: nat, c: char): (r: Option<nat>)
    ensures r.None? <==> forall j :: 0 <= j < |lines| ==> !LineMatches(lines[j], v, c)
    ensures r.Some? ==> exists j :: 0 <= j < |lines| && LineMatches(lines[j], v, c) && lines[j].end == r.value
                                   && forall i :: 0 <= i < j ==> !LineMatches(lines[i], v, c)
  {
    match FirstMatch(lines, v, c)
    case None => None
    case Some(j) => Some(lines[j].end)
  }

  /** The nodes nfa_transition appends, in line order: the end of every
      line that leaves `v` carrying `c`, repeats included. */
  function Targets(lines: seq<Line>, v: nat, c: char): (r: seq<nat>)
    ensures |r| <= |lines|
  {
    if |lines| == 0 then []
    else
      var init, last := lines[..|lines| - 1], lines[|lines| - 1];
      assert forall j :: 0 <= j < |lines| - 1 ==> init[j] == lines[j];
      Targets(init, v, c) + (if LineMatches(last, v, c) then [last.end] else [])
  }

  /** The nodes nfa_transition appends are exactly the ends of the lines
      that leave `v` carrying `c`. */
  lemma {:induction false} TargetsMembers(lines: seq<Line>, v: nat, c: char)
    ensures forall w :: w in Targets(lines, v, c) <==> exists j :: 0 <= j < |lines| && LineMatches(lines[j], v, c) && lines[j].end == w
  {
    if |lines| > 0 {
      var init, last := lines[..|lines| - 1], lines[|lines| - 1];
      TargetsMembers(init, v, c);
      assert forall j :: 0 <= j < |init| ==> init[j] == lines[j];
    }
  }

  /** Scanning line j appends its end when it matches. */
  lemma TargetsSnoc(lines: seq<Line>, v: nat, c: char, j: nat)
    requires j < |lines|
    ensures Targets(lines[..j + 1], v, c)
            == Targets(lines[..j], v, c) + (if LineMatches(lines[j], v, c) then [lines[j].end] else [])
  {
    assert lines[..j + 1][..j] == lines[..j];
  }

  /** Scanning line j adds one target exactly when it matches. */
  lemma TargetsLengthSnoc(lines: seq<Line>, v: nat, c: char, j: nat)
    requires j < |lines|
    ensures |Targets(lines[..j + 1], v, c)| == |Targets(lines[..j], v, c)| + if LineMatches(lines[j], v, c) then 1 else 0
  {
    TargetsSnoc(lines, v, c, j);
  }

  /** The positions below `m` where `flags` is set. */
  ghost function SetPositions(flags: seq<bool>, m: nat): set<nat>
    requires m <= |flags|
  {
    set j: nat | j < m && flags[j]
  }

  /** Looking at one more flag adds its position exactly when it is set. */
  lemma SetPositionsSnoc(flags: seq<bool>, m: nat)
    requires m < |flags|
    ensures |SetPositions(flags, m + 1)| == |SetPositions(flags, m)| + if flags[m] then 1 else 0
  {
    var before := SetPositions(flags, m);
    assert m !in before;
    if flags[m] {
      assert SetPositions(flags, m + 1) == before + {m};
    } else {
      assert SetPositions(flags, m + 1) == before;
    }
  }

  /** For each line, whether it leaves `v` carrying `c`. */
  function MatchFlags(lines: seq<Line>, v: nat, c: char): (flags: seq<bool>)
    ensures |flags| == |lines| && forall j :: 0 <= j < |lines| ==> flags[j] == LineMatches(lines[j], v, c)
  {
    seq(|lines|, j requires 0 <= j < |lines| => LineMatches(lines[j], v, c))
  }

  /** The indices of the lines that leave `v` carrying `c`. */
  ghost function MatchingLines(lines: seq<Line>, v: nat, c: char): (r: set<nat>)
    ensures forall j: nat :: j in r <==> j < |lines| && LineMatches(lines[j], v, c)
  {
    SetPositions(MatchFlags(lines, v, c), |lines|)
  }

  /** The first m lines yield one target per matching line among them. */
  lemma {:induction false} TargetsCountPrefix(lines: seq<Line>, v: nat, c: char, m: nat)
    requires m <= |lines|
    ensures |Targets(lines[..m], v, c)| == |SetPositions(MatchFlags(lines, v, c), m)|
  {
    if m > 0 {
      var flags := MatchFlags(lines, v, c);
      TargetsCountPrefix(lines, v, c, m - 1);
      TargetsLengthSnoc(lines, v, c, m - 1);
      SetPositionsSnoc(flags, m - 1);
      assert flags[m - 1] == LineMatches(lines[m - 1], v, c);
    }
  }

  /** nfa_transition appends one node per matching line: as many nodes as
      there are matching lines, nothing merged. */
  lemma TargetsCountMatches(lines: seq<Line>, v: nat, c: char)
    ensures |Targets(lines, v, c)| == |MatchingLines(lines, v, c)|
  {
    TargetsCountPrefix(lines, v, c, |lines|);
    assert lines[..|lines|] == lines;
  }

  /** Lines after the first match never influence dfa_transition. */
  lemma {:induction false} DfaStepIgnoresLaterLines(lines: seq<Line>, more: seq<Line>, v: nat, c: char)
    requires DfaStep(lines, v, c).Some?
    ensures DfaStep(lines + more, v, c) == DfaStep(lines, v, c)
  {
    var j := FirstMatch(lines, v, c).value;
    var k := FirstMatch(lines + more, v, c);
    assert (lines + more)[j] == lines[j];
    assert forall i :: 0 <= i < j ==> (lines + more)[i] == lines[i];
    assert k.Some?;
    assert k.value == j;
  }

  /** dfa_transition answers with the first node nfa_transition would append
      for the same node and symbol, and with nothing exactly when that list
      is empty. */
  lemma {:induction false} DfaStepIsFirstTarget(lines: seq<Line>, v: nat, c: char)
    ensures DfaStep(lines, v, c) == if Targets(lines, v, c) == [] then None else Some(Targets(lines, v, c)[0])
  {
    if |lines| > 0 {
      var init, last := lines[..|lines| - 1], lines[|lines| - 1];
      assert lines == init + [last];
      DfaStepIsFirstTarget(init, v, c);
      if DfaStep(init, v, c).Some? {
        DfaStepIgnoresLaterLines(init, [last], v, c);
      } else {
        assert Targets(init, v, c) == [];
        assert forall j :: 0 <= j < |init| ==> lines[j] == init[j];
      }
    }
  }

  /** At most one line leaves `v` carrying `c`. */
  predicate AtMostOneMatch(lines: seq<Line>, v: nat, c: char) {
    forall j1, j2 :: 0 <= j1 < |lines| && 0 <= j2 < |lines| && LineMatches(lines[j1], v, c) && LineMatches(lines[j2], v, c) ==> j1 == j2
  }

  /** Where at most one line matches, nfa_transition appends exactly what
      dfa_transition returns. */
  lemma {:induction false} DeterministicTargets(lines: seq<Line>, v: nat, c: char)
    requires AtMostOneMatch(lines, v, c)
    ensures Targets(lines, v, c) == match DfaStep(lines, v, c) case None => [] case Some(w) => [w]
  {
    DfaStepIsFirstTarget(lines, v, c);
    if |lines| > 0 {
      var init, last := lines[..|lines| - 1], lines[|lines| - 1];
      assert forall j :: 0 <= j < |init| ==> lines[j] == init[j];
      assert AtMostOneMatch(init, v, c);
      DeterministicTargets(init, v, c);
      DfaStepIsFirstTarget(init, v, c);
      if LineMatches(last, v, c) {
        assert forall j :: 0 <= j < |init| ==> !LineMatches(init[j], v, c);
        assert Targets(init, v, c) == [];
      }
    }
  }

  /** nfa_transition keeps repeats: two parallel lines yield the same node twice. */
  lemma TargetsKeepRepeats()
    ensures Targets([Line(0, 1, ['a']), Line(0, 1, ['a'])], 0, 'a') == [1, 1]
  {
    var lines := [Line(0, 1, ['a']), Line(0, 1, ['a'])];
    assert lines[..1] == [Line(0, 1, ['a'])];
    assert lines[..1][..0] == [];
  }
}
