/*
 * all_chars_present (src/utils/strops.c): the subset test both automaton
 * engines use, once as "the label lies inside the alphabet" and once as
 * "the label contains the input symbol".
 */
module StrOps {
  import opened Graph

  /** Every character of `inputs` occurs somewhere in `alphabets`. */
  predicate AllPresent(alphabets: seq<char>, inputs: seq<char>) {
    forall i :: 0 <= i < |inputs| ==> inputs[i] in alphabets
  }

  /** The characters a string is made of, order and repetition forgotten. */
  function Chars(s: seq<char>): set<char> {
    set i | 0 <= i < |s| :: s[i]
  }

  /** The C routine: a 128-slot counter table filled from `alphabets`, then
      one scan of `inputs` that fails at the first character whose slot is
      still zero. */
  method AllCharsPresent(alphabets: seq<char>, inputs: seq<char>) returns (b: bool)
    requires CString(alphabets) && CString(inputs)
    ensures b == AllPresent(alphabets, inputs)
  {
    var buf := new nat[128](_ => 0);
    var i := 0;
    while i < |alphabets|
      invariant 0 <= i <= |alphabets|
      invariant forall c :: 0 <= c < 128 ==> buf[c] == multiset(alphabets[..i])[c as char]
    {
      var x := alphabets[i] as int;
      assert alphabets[..i + 1] == alphabets[..i] + [alphabets[i]];
      buf[x] := buf[x] + 1;
      i := i + 1;
    }
    assert alphabets[..i] == alphabets;
    i := 0;
    while i < |inputs|
      invariant 0 <= i <= |inputs|
      invariant forall k :: 0 <= k < i ==> inputs[k] in alphabets
    {
      if buf[inputs[i] as int] == 0 {
        assert (inputs[i] as int) as char == inputs[i];
        return false;
      }
      i := i + 1;
    }
    return true;
  }

  /** The first loop of both validators (src/utils/dfa.c:37-39,
      src/utils/nfa.c:44-46): every line's label must lie inside the
      alphabet; the answer is false at the first line whose label does not. */
  method AllLabelsPresent(alphabet: seq<char>, lines: seq<Line>) returns (b: bool)
    requires CString(alphabet) && LabelsAreCStrings(lines)
    ensures b <==> forall j :: 0 <= j < |lines| ==> AllPresent(alphabet, lines[j].inputs)
  {
    var j := 0;
    while j < |lines|
      invariant 0 <= j <= |lines|
      invariant forall i :: 0 <= i < j ==> AllPresent(alphabet, lines[i].inputs)
    {
      var valid := AllCharsPresent(alphabet, lines[j].inputs);
      if !valid {
        return false;
      }
      j := j + 1;
    }
    return true;
  }

  /** The result is exactly the subset relation between the two strings'
      character sets. */
  lemma AllPresentIsSubset(alphabets: seq<char>, inputs: seq<char>)
    ensures AllPresent(alphabets, inputs) <==> Chars(inputs) <= Chars(alphabets)
  {
    if AllPresent(alphabets, inputs) {
      forall c | c in Chars(inputs) ensures c in Chars(alphabets) {
        var i :| 0 <= i < |inputs| && inputs[i] == c;
        var j :| 0 <= j < |alphabets| && alphabets[j] == c;
      }
    }
    if Chars(inputs) <= Chars(alphabets) {
      forall i | 0 <= i < |inputs| ensures inputs[i] in alphabets {
        assert inputs[i] in Chars(inputs);
      }
    }
  }

  /** The empty input string is present in any alphabet, even the empty one;
      a non-empty one is never present in the empty alphabet. */
  lemma EmptyCases(alphabets: seq<char>, inputs: seq<char>)
    ensures AllPresent(alphabets, [])
    ensures |inputs| > 0 ==> !AllPresent([], inputs)
  {
    if |inputs| > 0 {
      assert inputs[0] !in [];
    }
  }

  /** Only which characters occur matters, not their order or repetition. */
  lemma OnlyPresenceMatters(a1: seq<char>, a2: seq<char>, s1: seq<char>, s2: seq<char>)
    requires Chars(a1) == Chars(a2) && Chars(s1) == Chars(s2)
    ensures AllPresent(a1, s1) == AllPresent(a2, s2)
  {
    AllPresentIsSubset(a1, s1);
    AllPresentIsSubset(a2, s2);
  }

  /** Adding characters to the alphabet never turns a true result false. */
  lemma Monotone(a1: seq<char>, a2: seq<char>, inputs: seq<char>)
    requires Chars(a1) <= Chars(a2) && AllPresent(a1, inputs)
    ensures AllPresent(a2, inputs)
  {
    AllPresentIsSubset(a1, inputs);
    AllPresentIsSubset(a2, inputs);
  }
}
