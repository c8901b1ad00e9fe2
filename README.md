# StateFlow automaton engine in Dafny

StateFlow is an editor and simulator for finite automata. This project
models the engine under its user interface:

- `all_chars_present`, the character-subset test;
- the DFA engine: the one-step transition `dfa_transition`, the depth-first
  search `path_exists_to_accepting_state`, and the validator `is_dfa_valid`;
- the NFA engine: `nfa_transition`, its own search, and `is_nfa_valid`;
- the dynamic array (`darray`) that both engines use for visited sets and
  successor lists.

Model conventions:

- A node is identified by its index in the node sequence; the C code uses a
  pointer into the node array. A node carries only the `initial_state` and
  `accepting_state` flags.
- A transition line is `Line(start, end, inputs)`. Its label `inputs` is a
  C string (no NUL, every character below 128, because both engines index
  128-slot tables with it).
- The alphabet is `Option<seq<char>>`: only a NULL alphabet is
  `EMPTY_ALPHABET`.
- The result codes are the enums of `src/utils/dfa.h:7-16` (`Dfa.DfaState`)
  and `src/utils/nfa.h:7-14` (`Nfa.NfaState`).

Files:

- `graph.dfy` (`Graph`): nodes, lines, the C-string predicate, and the
  "last node flagged initial" scan.
- `strops.dfy` (`StrOps`): `all_chars_present` as a method over a 128-slot
  counter table, against the predicate `AllPresent`.
- `transitions.dfy` (`Transitions`): what one step means. `DfaStep` is the
  first matching line's end; `Targets` is the list of every matching line's
  end.
- `reachability.dfy` (`Reachability`): paths, "an accepting node is
  reachable", and the invariants that connect a search answering false to
  unreachability.
- `darray.dfy` (`DArrays`): the dynamic array as a class. The header
  (capacity, size, stride) is its fields, the buffer is an `array<T>`, and
  allocator success is a `grant` parameter.
- `dfa.dfy` (`Dfa`) and `nfa.dfy` (`Nfa`): the engines as methods that mirror
  the C loops. Each validator is proved equal to a specification function
  (`DfaVerdict`, `NfaVerdict`) that lists the checks in the source's order.

In these places the code behaves in ways a reader might not expect; the
model follows the code:

- An alphabet that is present but empty is not `EMPTY_ALPHABET`; only NULL
  is.
- `nfa_transition` does not deduplicate. Its duplicate scan only
  `continue`s its own inner loop, so every matching line's end is appended.
- A NUL input character yields an empty input string. Every label contains
  the empty string, so NUL matches every line leaving the node.
- With several initial nodes the two validators can search from different
  nodes. `is_dfa_valid` uses the last initial node overall; `is_nfa_valid`
  uses the last initial node before its scan stops, which is once it has
  seen both an initial and an accepting node. They differ when an initial
  node follows that point, for instance when an accepting node comes before
  the last initial node (`Nfa.ValidatorsStartApart`).

## Model

| member | source | states |
|---|---|---|
| Graph.LastInitial | src/utils/dfa.c:41-43 | the node the scan ends with is flagged initial and no later node is; none exactly when no node is initial |
| Graph.ScanStep | src/utils/nfa.c:48-50 | one node of the scan updates the last initial node and the initial/accepting flags as the loop body does |
| StrOps.AllCharsPresent | src/utils/strops.c:3-9 | the counter-table routine returns true iff every character of `inputs` occurs in `alphabets` |
| StrOps.AllLabelsPresent | src/utils/dfa.c:37-39 | the label loop answers true iff every line's label lies inside the alphabet |
| StrOps.AllPresentIsSubset | src/utils/strops.c:3-9 | the test is exactly inclusion of the character sets |
| StrOps.EmptyCases | src/utils/strops.c:5-8 | an empty `inputs` passes against any alphabet; a non-empty one fails against the empty alphabet |
| StrOps.OnlyPresenceMatters | src/utils/strops.c:5-7 | order and repetition in either string do not change the result |
| StrOps.Monotone | src/utils/strops.c:5-7 | adding characters to the alphabet never turns true into false |
| Transitions.AllPresentMeansMatch | src/utils/dfa.c:80-83 | `all_chars_present(label, {c, 0})` holds iff the label contains `c`, and always for NUL |
| Transitions.FirstMatch | src/utils/dfa.c:81-85 | the index found is the lowest one of a line leaving the node and carrying the symbol; none iff no line does |
| Transitions.DfaStep | src/utils/dfa.c:78-88 | the answer is the end of the first matching line, with no earlier line matching; none iff no line matches |
| Transitions.Targets | src/utils/nfa.c:71-78 | at most one node is appended per line |
| Transitions.TargetsMembers | src/utils/nfa.c:71-78 | a node is appended iff it is the end of some line leaving the node and carrying the symbol |
| Transitions.TargetsSnoc | src/utils/nfa.c:71-78 | scanning one more line appends its end exactly when it matches |
| Transitions.TargetsCountMatches | src/utils/nfa.c:74-77 | the list has exactly as many entries as there are matching lines, so nothing is merged |
| Transitions.TargetsKeepRepeats | src/utils/nfa.c:74-77 | two parallel lines yield the same node twice |
| Transitions.DfaStepIgnoresLaterLines | src/utils/dfa.c:81-85 | once a line matches, lines after it never change the answer |
| Transitions.DfaStepIsFirstTarget | src/utils/dfa.c:81-87 | `dfa_transition` answers the first node `nfa_transition` would append, and NULL iff that list is empty |
| Transitions.DeterministicTargets | src/utils/nfa.c:71-78 | with at most one matching line, `nfa_transition` appends exactly what `dfa_transition` returns |
| Reachability.AcceptingIsReachable | src/utils/dfa.c:9 | an accepting node reaches an accepting node |
| Reachability.ReachableByStep | src/utils/dfa.c:16-22 | a node whose successor on some alphabet symbol reaches an accepting node reaches one too |
| Reachability.ExploredUnreachable | src/utils/dfa.c:67-72 | a search from an empty visited set that answers false proves that no accepting node is reachable |
| Reachability.UnvisitedShrinks | src/utils/nfa.c:12-15 | marking an unvisited node strictly shrinks the unvisited nodes, which bounds the recursion |
| Reachability.DeterministicReachImpliesNondeterministic | src/utils/nfa.c:17-28 | whatever the DFA search can reach, the NFA search can reach |
| Reachability.DeterministicReachCoincides | src/utils/dfa.c:16-22 | where at most one line matches each node and symbol, the two reachability notions agree |
| DArrays.PushAtGrowTo | src/utils/darray.c:185-186 | the corrected growth target holds the element at `index` and every kept element |
| DArrays.PushAtAsWrittenOverflows | src/utils/darray.c:185-197 | on a full array, inserting before the end asks for fewer slots than the insertion needs |
| DArrays.PopAtUndoesPushAt | src/utils/darray.c:217-235 | on a darray, a granted push_at at an index inside the array followed by pop_at at that index returns the inserted element and leaves the elements as they were |
| DArrays.PopUndoesPush | src/utils/darray.c:127-142 | on a darray, a granted push followed by pop returns the pushed element and leaves the elements as they were |
| DArrays.DArray.constructor | src/utils/darray.c:16-31 | a new array is empty, with the given capacity and stride and every slot zeroed |
| DArrays.DArray.GetHeaderField | src/utils/darray.c:81-85 | the size field is the number of elements; the capacity field is the buffer length and at least the size; the stride field is the stride |
| DArrays.DArray.Resize | src/utils/darray.c:54-71 | on success the capacity is the new one and size, elements and retained slots are unchanged; on failure nothing changes |
| DArrays.DArray.Push | src/utils/darray.c:97-117 | a full array first grows by 3 slots; the element is appended after the old ones; a refused growth changes nothing |
| DArrays.DArray.Pop | src/utils/darray.c:127-142 | empty gives none and no change; otherwise the old last element, with the rest kept |
| DArrays.DArray.PushAt | src/utils/darray.c:155-206 | past the end: zero-fill up to `index`, then the element; otherwise the element is inserted at `index` with the tail shifted; growth uses the corrected target |
| DArrays.DArray.PlacePastEnd | src/utils/darray.c:171-180 | the elements become the old ones, `index - size` zeros, then the element |
| DArrays.DArray.InsertBefore | src/utils/darray.c:193-203 | the elements become the old prefix before `index`, the element, then the old suffix |
| DArrays.DArray.PopAt | src/utils/darray.c:217-235 | returns the element at `index` and keeps every other element in order |
| DArrays.DArray.Clear | src/utils/darray.c:245-251 | the array becomes empty while buffer and capacity stay |
| Dfa.DfaTransition | src/utils/dfa.c:78-88 | the loop returns the first matching line's end, or NULL when none matches |
| Dfa.PathExistsToAcceptingState | src/utils/dfa.c:6-26 | true means an accepting node is reachable; false means every node the call added to the visited set is finished inside the final set |
| Dfa.OutLabels | src/utils/dfa.c:45-48 | a character is tallied for node `v` iff some line leaving `v` carries it |
| Dfa.FirstFault | src/utils/dfa.c:41-61 | no fault iff every node passes; otherwise the fault of a node all of whose predecessors pass |
| Dfa.TallyLabel | src/utils/dfa.c:47-51 | reports a repeat iff the characters tallied so far plus this label repeat one; otherwise the table holds their counts |
| Dfa.TallyLine | src/utils/dfa.c:45-52 | one line updates the repeat verdict and the table as tallying its label would |
| Dfa.TallyNode | src/utils/dfa.c:44-53 | reports a repeat iff the labels leaving `v` repeat a character; otherwise the table counts them |
| Dfa.CheckNode | src/utils/dfa.c:44-60 | MULTIPLE_TRANSITIONS_DEFINED on a repeated character, else REQUIRE_ALL_INPUT_TRANSITIONS on a missing alphabet symbol, else no fault |
| Dfa.SharedSymbolRepeats | src/utils/dfa.c:45-51 | two lines leaving one node that share a character make the tally fail |
| Dfa.NoFaultMeansTotalAndDeterministic | src/utils/dfa.c:44-60 | a node that passes has, for every alphabet symbol, a transition and exactly one line carrying it |
| Dfa.NoFaultsMeansTotal | src/utils/dfa.c:17-20 | once every node passes, every successor the search asks for exists |
| Dfa.OkIsTotalAndDeterministic | src/utils/dfa.c:41-75 | OK implies an alphabet, and for every node and symbol a transition carried by exactly one line |
| Dfa.IsDfaValid | src/utils/dfa.c:28-76 | the answer is the first failed check in source order: EMPTY_ALPHABET, INPUT_INVALID, first faulty node, NO_INITIAL_STATE, NO_ACCEPTING_STATE, ACCEPTING_STATE_NOT_REACHABLE from the last initial node, else OK |
| Nfa.AppendIfMatches | src/utils/nfa.c:72-78 | the line's end is appended iff the line leaves the node carrying the input |
| Nfa.NfaTransition | src/utils/nfa.c:68-82 | the old contents stay as a prefix, followed by the ends of all matching lines in line order |
| Nfa.PathExistsToAcceptingState | src/utils/nfa.c:6-33 | true means an accepting node is reachable; false means every node the call added to the visited set is finished inside the final set |
| Nfa.SearchTargets | src/utils/nfa.c:21-28 | true means the current node reaches an accepting node; false means every collected target is visited and the explored frontier is kept |
| Nfa.ScanLength | src/utils/nfa.c:48-52 | the scan stops at the first prefix holding both an initial and an accepting node, or at the end |
| Nfa.NfaInitial | src/utils/nfa.c:48-52 | the start is an initial node inside the scanned prefix, with no later initial node in it |
| Nfa.IsNfaValid | src/utils/nfa.c:35-66 | the answer is the first failed check in source order: EMPTY_ALPHABET, INPUT_INVALID, NO_INITIAL_STATE, NO_ACCEPTING_STATE, ACCEPTING_STATE_NOT_REACHABLE, else OK |
| Nfa.SameStartWhenUnique | src/utils/nfa.c:48-52 | with one initial node both validators search from it |
| Nfa.DfaOkImpliesNfaOk | src/utils/nfa.c:35-66 | a graph with one initial node that the DFA validator accepts is accepted by the NFA validator |
| Nfa.ValidatorsStartApart | src/utils/nfa.c:48-52 | with initial nodes 0 and 2 and an accepting node 1, the NFA search starts at 0 and the DFA search at 2 |
| Nfa.DfaRejectsTwinLines | src/utils/dfa.c:45-51 | two lines on the same symbol from one node fail the DFA validator with MULTIPLE_TRANSITIONS_DEFINED |
| Nfa.NfaAcceptsTwinLines | src/utils/nfa.c:48-52 | the NFA validator, which has no determinism or totality check, accepts the same graph |

## Left out

- Dfa.IsDfaValid, Nfa.IsNfaValid and both searches: require `Graph.WellFormed`, that every line starts and ends at a node of the graph. The C code follows the line's node pointers whatever they point to. The editor can leave lines whose pointers are stale or point into shifted slots after a node is deleted (src/editor.c:505-511). The model does not say what the engines do with such lines.
- Dfa.PathExistsToAcceptingState: requires that every node has a transition on every alphabet symbol. The source would dereference the NULL that `dfa_transition` returns otherwise (src/utils/dfa.c:9 via 17-20). `is_dfa_valid` only searches after its per-node checks have established this (`Dfa.NoFaultsMeansTotal`).
- DArrays.DArray.Resize: requires the new capacity to hold the current size. realloc would also shrink below the size, leaving a header whose size exceeds its capacity. The only call that asks for that is the push_at defect under "## Findings", and the model uses the corrected size there.
- DArrays.DArray.Resize: new slots hold the zero element. In C their contents are unspecified; nothing reads them before writing.
- DArrays.DArray.constructor: a failing malloc (create returns NULL) is not modelled; creation always succeeds.
- Nfa.NfaTransition: every push is modelled as granted. The source ignores `darray_push`'s result, so an allocation failure would silently drop a target.
- Visited set: the C searches push onto `visited` through a by-value pointer (src/utils/dfa.c:14, src/utils/nfa.c:15), so a reallocating push leaves the caller's copy dangling. The model threads a `set<nat>` through the calls, which is the behaviour when no reallocation moves the buffer. The per-symbol `states` arrays of the NFA search are modelled as fresh `DArray`s.
- Integer widths: `u32` counters and `u64` sizes and indices are unbounded here; no input the engines see comes near their limits.
- Bytes and strides: elements are typed array slots, and the stride is kept only as the header value. memcpy, memmove and memset of `stride` bytes become slot copies.
- `impl_darray_destroy` and the `darray_destroy` calls: freeing memory has no counterpart in Dafny.
- The simulation driver in src/animation.c, the editor, menu and splash screens, and the widget files under src/utils are raylib rendering and input handling; they are not part of this model.
- `tline_append_input` (src/utils/tline.c) is not part of this model; it writes to a stale buffer and is declared under a different name in its header.
- The declaration of `nfa_transition` in src/utils/nfa.h does not match its definition; the model follows nfa.c.

## Findings

| source | as written | input that shows it | evidently intended | confidence | as-written member | corrected member |
|---|---|---|---|---|---|---|
| src/utils/darray.c:185-197 | on a full array, an insertion at `index <= size` resizes to `index + 1` slots and then moves `size - index` elements to `index + 1` | capacity 3, size 3, push_at index 0: realloc to 1 slot, then the memmove writes slots 1..3 | grow to `size + 1` (or more) slots before moving the tail | high (not executed) | DArrays.PushAtAsWrittenOverflows | DArrays.PushAtGrowTo |
