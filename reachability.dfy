/*
 * The reachability question both validators ask: is some accepting node
 * reachable from the initial one along transitions on alphabet symbols?
 * The successor relation is dfa_transition's for a DFA and nfa_transition's
 * for an NFA (src/utils/dfa.c:6-26, src/utils/nfa.c:6-33).
 */
module Reachability {
  import opened Graph
  import opened Transitions

  datatype Kind = Deterministic | Nondeterministic

  /** The nodes one symbol leads to from `u`: the single node dfa_transition
      returns (none for NULL), or the list nfa_transition appends. */
  function Step(kind: Kind, lines: seq<Line>, u: nat, c: char): seq<nat> {
    match kind
    case Deterministic => (match DfaStep(lines, u, c) case None => [] case Some(w) => [w])
    case Nondeterministic => Targets(lines, u, c)
  }

  /** Some alphabet symbol leads from `u` to `w`. */
  ghost predicate Edge(kind: Kind, lines: seq<Line>, alphabet: seq<char>, u: nat, w: nat) {
    exists k :: 0 <= k < |alphabet| && w in Step(kind, lines, u, alphabet[k])
  }

  ghost predicate IsPath(kind: Kind, lines: seq<Line>, alphabet: seq<char>, p: seq<nat>) {
    |p| > 0 && forall i :: 0 <= i < |p| - 1 ==> Edge(kind, lines, alphabet, p[i], p[i + 1])
  }

  /** Some path from `from` ends at an accepting node. */
  ghost predicate AcceptingReachable(kind: Kind, nodes: seq<Node>, lines: seq<Line>, alphabet: seq<char>, from: nat) {
    exists p :: IsPath(kind, lines, alphabet, p) && p[0] == from && p[|p| - 1] < |nodes| && nodes[p[|p| - 1]].accepting
  }

  /** The node identities of a graph with `n` nodes. */
  function NodeIds(n: nat): (ids: set<nat>)
    ensures forall i: int :: i in ids <==> 0 <= i < n
  {
    if n == 0 then {} else NodeIds(n - 1) + {n - 1}
  }

  /** `u` is a non-accepting node all of whose successors lie in `within`. */
  ghost predicate Finished(kind: Kind, nodes: seq<Node>, lines: seq<Line>, alphabet: seq<char>, within: set<nat>, u: nat) {
    && u < |nodes| && !nodes[u].accepting
    && forall k, w :: 0 <= k < |alphabet| && w in Step(kind, lines, u, alphabet[k]) ==> w in within
  }

  /** A node finished within a set stays finished within any larger one. */
  lemma FinishedGrows(kind: Kind, nodes: seq<Node>, lines: seq<Line>, alphabet: seq<char>,
                      small: set<nat>, large: set<nat>, u: nat)
    requires Finished(kind, nodes, lines, alphabet, small, u) && small <= large
    ensures Finished(kind, nodes, lines, alphabet, large, u)
  {
  }

  /** What a search from `from` that answered false leaves in the visited
      set: it grew from `before` to `after`, `from` is in it, and every node
      it added is finished within `after`. */
  ghost predicate Explored(kind: Kind, nodes: seq<Node>, lines: seq<Line>, alphabet: seq<char>,
                           before: set<nat>, after: set<nat>, from: nat) {
    && before <= after && from in after
    && forall u {:trigger Finished(kind, nodes, lines, alphabet, after, u)} :: u in after && u !in before ==> Finished(kind, nodes, lines, alphabet, after, u)
  }

  /** An accepting node reaches itself by the one-node path. */
  lemma AcceptingIsReachable(kind: Kind, nodes: seq<Node>, lines: seq<Line>, alphabet: seq<char>, u: nat)
    requires u < |nodes| && nodes[u].accepting
    ensures AcceptingReachable(kind, nodes, lines, alphabet, u)
  {
    assert IsPath(kind, lines, alphabet, [u]);
  }

  /** If a successor of `u` reaches an accepting node, so does `u`. */
  lemma ReachableByStep(kind: Kind, nodes: seq<Node>, lines: seq<Line>, alphabet: seq<char>, u: nat, k: nat, w: nat)
    requires k < |alphabet| && w in Step(kind, lines, u, alphabet[k])
    requires AcceptingReachable(kind, nodes, lines, alphabet, w)
    ensures AcceptingReachable(kind, nodes, lines, alphabet, u)
  {
    var p :| IsPath(kind, lines, alphabet, p) && p[0] == w && p[|p| - 1] < |nodes| && nodes[p[|p| - 1]].accepting;
    var q := [u] + p;
    forall i | 0 <= i < |q| - 1 ensures Edge(kind, lines, alphabet, q[i], q[i + 1]) {
      if i == 0 {
        assert q[1] == w;
      } else {
        assert q[i] == p[i - 1] && q[i + 1] == p[i];
        assert Edge(kind, lines, alphabet, p[i - 1], p[i]);
      }
    }
    assert IsPath(kind, lines, alphabet, q);
  }

  /** Every successor of a finished node lies in the set it is finished within. */
  lemma FinishedStep(kind: Kind, nodes: seq<Node>, lines: seq<Line>, alphabet: seq<char>,
                     within: set<nat>, u: nat, w: nat)
    requires Finished(kind, nodes, lines, alphabet, within, u) && Edge(kind, lines, alphabet, u, w)
    ensures w in within
  {
    var k :| 0 <= k < |alphabet| && w in Step(kind, lines, u, alphabet[k]);
  }

  /** A path that starts in a set of finished nodes never leaves it. */
  lemma {:induction false} PathStaysInside(kind: Kind, nodes: seq<Node>, lines: seq<Line>, alphabet: seq<char>,
                                           closed: set<nat>, p: seq<nat>, i: nat)
    requires IsPath(kind, lines, alphabet, p) && p[0] in closed && i < |p|
    requires forall u {:trigger Finished(kind, nodes, lines, alphabet, closed, u)} :: u in closed ==> Finished(kind, nodes, lines, alphabet, closed, u)
    ensures p[i] in closed
  {
    if i > 0 {
      PathStaysInside(kind, nodes, lines, alphabet, closed, p, i - 1);
      FinishedStep(kind, nodes, lines, alphabet, closed, p[i - 1], p[i]);
    }
  }

  /** A search started with an empty visited set that answered false has
      proved that no accepting node is reachable. */
  lemma ExploredUnreachable(kind: Kind, nodes: seq<Node>, lines: seq<Line>, alphabet: seq<char>, after: set<nat>, from: nat)
    requires Explored(kind, nodes, lines, alphabet, {}, after, from)
    ensures !AcceptingReachable(kind, nodes, lines, alphabet, from)
  {
    forall p | IsPath(kind, lines, alphabet, p) && p[0] == from
      ensures !(p[|p| - 1] < |nodes| && nodes[p[|p| - 1]].accepting)
    {
      PathStaysInside(kind, nodes, lines, alphabet, after, p, |p| - 1);
      assert Finished(kind, nodes, lines, alphabet, after, p[|p| - 1]);
    }
  }

  /** Growing the visited set past a node not yet in it shrinks the set of
      unvisited nodes; this is what bounds the recursion of both searches. */
  lemma UnvisitedShrinks(n: nat, before: set<nat>, after: set<nat>, u: nat)
    requires u < n && u !in before && before + {u} <= after
    ensures |NodeIds(n) - after| < |NodeIds(n) - before|
  {
    var left, right := NodeIds(n) - after, NodeIds(n) - before;
    assert left <= right;
    assert right == left + (right - left);
    assert left * (right - left) == {};
    assert u in right - left;
  }

  /** The state of a search at `current` part-way through its successors:
      the visited set has grown from `visited` to `within` by `current` and
      by nodes that are finished within it. */
  ghost predicate Frontier(kind: Kind, nodes: seq<Node>, lines: seq<Line>, alphabet: seq<char>,
                           visited: set<nat>, current: nat, within: set<nat>) {
    && visited + {current} <= within
    && forall u {:trigger Finished(kind, nodes, lines, alphabet, within, u)} :: u in within && u !in visited && u != current ==> Finished(kind, nodes, lines, alphabet, within, u)
  }

  /** A recursive call from `within` that answered false keeps the frontier
      and leaves the node it started at visited. */
  lemma FrontierGrows(kind: Kind, nodes: seq<Node>, lines: seq<Line>, alphabet: seq<char>,
                      visited: set<nat>, current: nat, within: set<nat>, grown: set<nat>, w: nat)
    requires Frontier(kind, nodes, lines, alphabet, visited, current, within)
    requires Explored(kind, nodes, lines, alphabet, within, grown, w)
    ensures Frontier(kind, nodes, lines, alphabet, visited, current, grown)
    ensures within <= grown && w in grown
  {
    forall u | u in grown && u !in visited && u != current
      ensures Finished(kind, nodes, lines, alphabet, grown, u)
    {
      if u in within {
        FinishedGrows(kind, nodes, lines, alphabet, within, grown, u);
      }
    }
  }

  /** Every successor of `u` on the first `k` alphabet symbols lies in
      `within`: how far the search's loop over the alphabet has got. */
  ghost predicate Covered(kind: Kind, lines: seq<Line>, alphabet: seq<char>, u: nat, k: nat, within: set<nat>) {
    && k <= |alphabet|
    && forall i, w :: 0 <= i < k && w in Step(kind, lines, u, alphabet[i]) ==> w in within
  }

  /** Searching the successors on symbol k covers one more symbol. */
  lemma CoveredStep(kind: Kind, lines: seq<Line>, alphabet: seq<char>, u: nat, k: nat, small: set<nat>, large: set<nat>)
    requires k < |alphabet| && Covered(kind, lines, alphabet, u, k, small) && small <= large
    requires forall w :: w in Step(kind, lines, u, alphabet[k]) ==> w in large
    ensures Covered(kind, lines, alphabet, u, k + 1, large)
  {
  }

  /** Once every successor of a non-accepting `current` is visited, the
      search from `current` has explored what it added. */
  lemma FrontierCloses(kind: Kind, nodes: seq<Node>, lines: seq<Line>, alphabet: seq<char>,
                       visited: set<nat>, current: nat, within: set<nat>)
    requires Frontier(kind, nodes, lines, alphabet, visited, current, within)
    requires current < |nodes| && !nodes[current].accepting
    requires Covered(kind, lines, alphabet, current, |alphabet|, within)
    ensures Explored(kind, nodes, lines, alphabet, visited, within, current)
  {
    assert Finished(kind, nodes, lines, alphabet, within, current);
  }

  /** Every DFA path is an NFA path: dfa_transition's target is always one of
      the nodes nfa_transition appends. */
  lemma DeterministicReachImpliesNondeterministic(nodes: seq<Node>, lines: seq<Line>, alphabet: seq<char>, from: nat)
    requires AcceptingReachable(Deterministic, nodes, lines, alphabet, from)
    ensures AcceptingReachable(Nondeterministic, nodes, lines, alphabet, from)
  {
    var p :| IsPath(Deterministic, lines, alphabet, p) && p[0] == from && p[|p| - 1] < |nodes| && nodes[p[|p| - 1]].accepting;
    forall i | 0 <= i < |p| - 1 ensures Edge(Nondeterministic, lines, alphabet, p[i], p[i + 1]) {
      assert Edge(Deterministic, lines, alphabet, p[i], p[i + 1]);
      var k :| 0 <= k < |alphabet| && p[i + 1] in Step(Deterministic, lines, p[i], alphabet[k]);
      DfaStepIsFirstTarget(lines, p[i], alphabet[k]);
      assert p[i + 1] in Step(Nondeterministic, lines, p[i], alphabet[k]);
    }
    assert IsPath(Nondeterministic, lines, alphabet, p);
  }

  /** Where every node and symbol has at most one matching line the two
      reachability notions coincide. */
  lemma DeterministicReachCoincides(nodes: seq<Node>, lines: seq<Line>, alphabet: seq<char>, from: nat)
    requires forall u, k :: 0 <= k < |alphabet| ==> AtMostOneMatch(lines, u, alphabet[k])
    ensures AcceptingReachable(Deterministic, nodes, lines, alphabet, from)
        <==> AcceptingReachable(Nondeterministic, nodes, lines, alphabet, from)
  {
    if AcceptingReachable(Deterministic, nodes, lines, alphabet, from) {
      DeterministicReachImpliesNondeterministic(nodes, lines, alphabet, from);
    }
    if AcceptingReachable(Nondeterministic, nodes, lines, alphabet, from) {
      var p :| IsPath(Nondeterministic, lines, alphabet, p) && p[0] == from && p[|p| - 1] < |nodes| && nodes[p[|p| - 1]].accepting;
      forall i | 0 <= i < |p| - 1 ensures Edge(Deterministic, lines, alphabet, p[i], p[i + 1]) {
        assert Edge(Nondeterministic, lines, alphabet, p[i], p[i + 1]);
        var k :| 0 <= k < |alphabet| && p[i + 1] in Step(Nondeterministic, lines, p[i], alphabet[k]);
        DeterministicTargets(lines, p[i], alphabet[k]);
        assert p[i + 1] in Step(Deterministic, lines, p[i], alphabet[k]);
      }
      assert IsPath(Deterministic, lines, alphabet, p);
    }
  }
}
