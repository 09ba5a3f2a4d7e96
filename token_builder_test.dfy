/** The end-to-end scenario of the source's tests: `make_states` on the
    pattern `(ab)*ac`, then `nfa2dfa` on the NFA it builds. */
module TokenBuilderTest {
  import opened Automaton
  import Tokenize
  import Dfa

  /** The NFA of `(ab)*ac`. State 0 is the root and the group's start, `a`
      and `b` lead to the group's end 2, `*` joins 0 and 2 by epsilon arcs both
      ways, and `a` and `c` lead on to the final state 4. */
  const AbStarAcNfa: Graph := [
    NState([(Chr('a'), 1), (Eps, 2)], false, None),
    NState([(Chr('b'), 2)], false, None),
    NState([(Eps, 0), (Chr('a'), 3)], false, None),
    NState([(Chr('c'), 4)], false, None),
    NState([], true, None)
  ]

  /** The arena of `(ab)` once `)*` has joined its start and end. */
  const StarredGroup: Graph := [
    NState([(Chr('a'), 1), (Eps, 2)], false, None),
    NState([(Chr('b'), 2)], false, None),
    NState([(Eps, 0)], false, None)
  ]

  lemma {:induction false} GroupStarred()
    ensures Tokenize.AnyTimes(Tokenize.Chain([], "ab", 2), 0, 2) == StarredGroup
  {
    Tokenize.AbChain();
    assert [(Chr('a'), 1)] + [(Eps, 2)] == [(Chr('a'), 1), (Eps, 2)];
    assert [] + [(Eps, 0)] == [(Eps, 0)];
  }

  /** `a` and `c` after the starred group: two more states, chained from the
      group's end. */
  lemma {:induction false} AcExtends(g1: Graph)
    requires g1 == StarredGroup
    ensures Tokenize.Extend(g1, 2, "ac").1 == 4
    ensures var G := Tokenize.Extend(g1, 2, "ac").0; G[4 := G[4].(isFinal := true)] == AbStarAcNfa
  {
    var g2 := Tokenize.ArcNew(g1, 2, Chr('a'));
    assert [(Eps, 0)] + [(Chr('a'), 3)] == [(Eps, 0), (Chr('a'), 3)];
    assert g2 == [g1[0], g1[1], NState([(Eps, 0), (Chr('a'), 3)], false, None), Blank];
    var g3 := Tokenize.ArcNew(g2, 3, Chr('c'));
    assert [] + [(Chr('c'), 4)] == [(Chr('c'), 4)];
    assert g3 == [g2[0], g2[1], g2[2], NState([(Chr('c'), 4)], false, None), Blank];
    assert "ac"[1..] == "c" && "c"[1..] == "";
    assert Tokenize.Extend(g1, 2, "ac") == Tokenize.Extend(g2, 3, "c") == Tokenize.Extend(g3, 4, "") == (g3, 4);
  }

  /** `make_states` on `(ab)*ac` builds `AbStarAcNfa`, rooted at state 0 and
      final at state 4. */
  lemma {:induction false} BuildAbStarAc()
    ensures Tokenize.BuildNfa([], "(ab)*ac") == Ok(Tokenize.Built(AbStarAcNfa, 0, 4))
  {
    var s5 := Tokenize.Scan(StarredGroup, 2, [], [], 5);
    StarredScan(s5);
    AcScan(s5);
    AcExtends(StarredGroup);
    var ex := Tokenize.Extend(StarredGroup, 2, "ac");
    Tokenize.BuildFromRun([], "(ab)*ac", ex.0, 4);
  }

  /** The scan of `(ab)*` reaches the starred group, with `cur` at its end. */
  lemma {:induction false} StarredScan(s5: Tokenize.Scan)
    requires s5 == Tokenize.Scan(StarredGroup, 2, [], [], 5)
    ensures Tokenize.ScanOk(s5) && Tokenize.Run("(ab)*ac", Tokenize.Start([])) == Tokenize.Run("(ab)*ac", s5)
  {
    var q := "(ab)*ac";
    assert q == "(" + "ab" + ")*ac";
    var e := Tokenize.Scan(Tokenize.Chain([], "ab", 2), 2, [0], [None], 3);
    Tokenize.ParenOpen([], "ab", ")*ac", e);
    GroupStarred();
    assert q[3] == ')' && q[4] == '*';
    assert Tokenize.Suffix(e.g, '*', 0, 2) == Ok(s5.g);
    assert Tokenize.Step(q, e) == Tokenize.CloseGroup(q, e) == Ok(s5);
    Tokenize.RunStep(q, e, s5);
  }

  /** The scan of the trailing `ac` chains two more states from the group's end. */
  lemma {:induction false} AcScan(s5: Tokenize.Scan)
    requires s5 == Tokenize.Scan(StarredGroup, 2, [], [], 5) && Tokenize.ScanOk(s5)
    ensures Tokenize.Run("(ab)*ac", s5) == Ok(Tokenize.Extend(s5.g, 2, "ac"))
  {
    var q := "(ab)*ac";
    assert q[5..7] == "ac";
    Tokenize.PlainAt(q, s5, "ac");
    var ex := Tokenize.Extend(s5.g, 2, "ac");
    Tokenize.RunDone(q, s5.(g := ex.0, cur := ex.1, i := 7));
  }

  /** The labels and finality of an epsilon-closed set of `AbStarAcNfa`'s
      states show which states it holds: 0 and 2 go together and carry `a`,
      1 alone carries `b`, 3 alone `c`, and 4 alone is final. */
  lemma {:induction false} SetsOfAbStarAc(a: set<nat>)
    requires EpsClosed(AbStarAcNfa, a)
    ensures 0 in a <==> 2 in a
    ensures Chr('a') in NonEpsLabels(AbStarAcNfa, a) <==> 0 in a
    ensures Chr('b') in NonEpsLabels(AbStarAcNfa, a) <==> 1 in a
    ensures Chr('c') in NonEpsLabels(AbStarAcNfa, a) <==> 3 in a
    ensures AnyFinal(AbStarAcNfa, a) <==> 4 in a
  {
    var g := AbStarAcNfa;
    if 0 in a {
      assert (Eps, 2) in g[0].edges;
      assert (Chr('a'), 1) in g[0].edges;
    }
    if 2 in a {
      assert (Eps, 0) in g[2].edges;
    }
    if 1 in a {
      assert (Chr('b'), 2) in g[1].edges;
    }
    if 3 in a {
      assert (Chr('c'), 4) in g[3].edges;
    }
    if 4 in a {
      assert g[4].isFinal;
    }
  }

  /** The epsilon-closed set of `AbStarAcNfa`'s states with finality `f` and
      labels `l`. */
  function Recover(f: bool, l: set<Label>): set<nat> {
    (if Chr('a') in l then {0, 2} else {}) + (if Chr('b') in l then {1} else {})
    + (if Chr('c') in l then {3} else {}) + (if f then {4} else {})
  }

  /** An epsilon-closed set of `AbStarAcNfa`'s states is determined by its
      finality and labels. */
  lemma {:induction false} Recovered(a: set<nat>)
    requires EpsClosed(AbStarAcNfa, a) && forall x | x in a :: x < |AbStarAcNfa|
    ensures a == Recover(AnyFinal(AbStarAcNfa, a), NonEpsLabels(AbStarAcNfa, a))
  {
    SetsOfAbStarAc(a);
    var r := Recover(AnyFinal(AbStarAcNfa, a), NonEpsLabels(AbStarAcNfa, a));
    forall x | x in a ensures x in r {
      assert x < 5;
    }
  }

  /** Any two different epsilon-closed sets of `AbStarAcNfa`'s states differ in
      finality or labels, so `simplify_dfa` finds nothing to merge. */
  lemma {:induction false} AbStarAcSeparating()
    ensures Dfa.Separating(AbStarAcNfa)
  {
    var g := AbStarAcNfa;
    forall a: set<nat>, b: set<nat>
      | EpsClosed(g, a) && EpsClosed(g, b) && a != b
        && (forall x | x in a :: x < |g|) && (forall x | x in b :: x < |g|)
      ensures Dfa.SetsApart(g, a, b)
    {
      Recovered(a);
      Recovered(b);
    }
  }

  /** The closure of the start state: the root and the group's end. */
  lemma {:induction false} StartClosure()
    ensures Closure(AbStarAcNfa, {0}) == {0, 2} && Closure(AbStarAcNfa, {2}) == {0, 2}
  {
    var g := AbStarAcNfa;
    assert EpsClosed(g, {0, 2}) by {
      assert g[0].edges == [(Chr('a'), 1), (Eps, 2)] && g[2].edges == [(Eps, 0), (Chr('a'), 3)];
    }
    ClosureWithin(g, {0}, {0, 2});
    ClosureWithin(g, {2}, {0, 2});
    ReachesRefl(g, 0);
    ReachesRefl(g, 2);
    assert (Eps, 2) in g[0].edges && (Eps, 0) in g[2].edges;
    ReachesStep(g, 0, (Eps, 2), 2);
    ReachesStep(g, 2, (Eps, 0), 0);
    ClosureMember(g, {0}, 0, 0);
    ClosureMember(g, {0}, 0, 2);
    ClosureMember(g, {2}, 2, 0);
    ClosureMember(g, {2}, 2, 2);
  }

  /** A set of states without epsilon arcs is its own closure. */
  lemma {:induction false} NoEpsClosure(s: set<nat>)
    requires forall x | x in s :: x < 5 && forall e | e in AbStarAcNfa[x].edges :: e.0 != Eps
    ensures Closure(AbStarAcNfa, s) == s
  {
    var g := AbStarAcNfa;
    assert EpsClosed(g, s);
    ClosureWithin(g, s, s);
    forall x | x in s ensures x in Closure(g, s) {
      ReachesRefl(g, x);
      ClosureMember(g, s, x, x);
    }
  }

  /** The `a`-arcs of the start state's NFA states. */
  lemma {:induction false} MoveA()
    ensures Move(AbStarAcNfa, {0, 2}, Chr('a')) == {1, 3}
  {
    var g := AbStarAcNfa;
    assert (Chr('a'), 1) in g[0].edges && (Chr('a'), 3) in g[2].edges;
    forall y | y in Move(g, {0, 2}, Chr('a')) ensures y == 1 || y == 3 {
      var x, e :| x in {0, 2} && 0 <= x < |g| && e in g[x].edges && e.0 == Chr('a') && e.1 == y;
      assert x == 0 || x == 2;
    }
  }

  /** The `b`- and `c`-arcs of the NFA states after `a`. */
  lemma {:induction false} MoveBC()
    ensures Move(AbStarAcNfa, {1, 3}, Chr('b')) == {2}
    ensures Move(AbStarAcNfa, {1, 3}, Chr('c')) == {4}
  {
    var g := AbStarAcNfa;
    assert g[1].edges == [(Chr('b'), 2)] && g[3].edges == [(Chr('c'), 4)];
    assert (Chr('b'), 2) in g[1].edges && (Chr('c'), 4) in g[3].edges;
    forall y | y in Move(g, {1, 3}, Chr('b')) ensures y == 2 {
      var x, e :| x in {1, 3} && 0 <= x < |g| && e in g[x].edges && e.0 == Chr('b') && e.1 == y;
      assert x == 1 || x == 3;
    }
    forall y | y in Move(g, {1, 3}, Chr('c')) ensures y == 4 {
      var x, e :| x in {1, 3} && 0 <= x < |g| && e in g[x].edges && e.0 == Chr('c') && e.1 == y;
      assert x == 1 || x == 3;
    }
  }

  /** The closures the subset construction meets after the start state. */
  lemma {:induction false} AbStarAcClosures()
    ensures Move(AbStarAcNfa, {0, 2}, Chr('a')) == {1, 3} && Closure(AbStarAcNfa, {1, 3}) == {1, 3}
    ensures Move(AbStarAcNfa, {1, 3}, Chr('b')) == {2}
    ensures Move(AbStarAcNfa, {1, 3}, Chr('c')) == {4} && Closure(AbStarAcNfa, {4}) == {4}
  {
    var g := AbStarAcNfa;
    assert g[1].edges == [(Chr('b'), 2)] && g[3].edges == [(Chr('c'), 4)] && g[4].edges == [];
    NoEpsClosure({1, 3});
    NoEpsClosure({4});
    MoveA();
    MoveBC();
  }

  /** `test_dfa`: the DFA of `(ab)*ac` has one arc, `a`, from its start state;
      from there `b` leads back to the start state and `c` to a final state
      with no arcs. */
  method TestDfa() returns (s1: Dfa.DState, states: seq<Dfa.DState>)
    ensures |s1.arcs| == 1 && Chr('a') in s1.arcs && !s1.isFinal
    ensures var s2 := s1.arcs[Chr('a')];
            |s2.arcs| == 2 && Chr('b') in s2.arcs && Chr('c') in s2.arcs && s2.arcs[Chr('b')] == s1
            && !s2.isFinal
    ensures var s3 := s1.arcs[Chr('a')].arcs[Chr('c')];
            |s3.arcs| == 0 && s3.isFinal
  {
    var arena := new Tokenize.StateGraph([]);
    BuildAbStarAc();
    var r := Tokenize.MakeStates(arena, "(ab)*ac");
    assert r == Ok((0, 4)) && arena.states == AbStarAcNfa;
    AbStarAcWellFormed();
    AbStarAcSeparating();
    s1, states := Dfa.Nfa2Dfa(arena.states, r.value.0);
    AbStarAcResult(s1, states);
  }

  lemma {:induction false} AbStarAcWellFormed()
    ensures WellFormed(AbStarAcNfa)
  {
    var g := AbStarAcNfa;
    forall x, e | 0 <= x < |g| && e in g[x].edges ensures e.1 < |g| {
      assert x < 5;
    }
  }

  /** The labels and finality of the three closures. */
  lemma {:induction false} AbStarAcLabels()
    ensures NonEpsLabels(AbStarAcNfa, {0, 2}) == {Chr('a')} && !AnyFinal(AbStarAcNfa, {0, 2})
    ensures NonEpsLabels(AbStarAcNfa, {1, 3}) == {Chr('b'), Chr('c')} && !AnyFinal(AbStarAcNfa, {1, 3})
    ensures NonEpsLabels(AbStarAcNfa, {4}) == {} && AnyFinal(AbStarAcNfa, {4})
  {
    StartLabels();
    MiddleLabels();
    assert 4 in {4} && AbStarAcNfa[4].isFinal;
  }

  lemma {:induction false} StartLabels()
    ensures NonEpsLabels(AbStarAcNfa, {0, 2}) == {Chr('a')} && !AnyFinal(AbStarAcNfa, {0, 2})
  {
    var g := AbStarAcNfa;
    assert (Chr('a'), 1) in g[0].edges;
    forall l | l in NonEpsLabels(g, {0, 2}) ensures l == Chr('a') {
      var x, e :| x in {0, 2} && 0 <= x < |g| && e in g[x].edges && e.0 != Eps && e.0 == l;
      assert x == 0 || x == 2;
    }
  }

  lemma {:induction false} MiddleLabels()
    ensures NonEpsLabels(AbStarAcNfa, {1, 3}) == {Chr('b'), Chr('c')} && !AnyFinal(AbStarAcNfa, {1, 3})
  {
    var g := AbStarAcNfa;
    assert (Chr('b'), 2) in g[1].edges && (Chr('c'), 4) in g[3].edges;
    forall l | l in NonEpsLabels(g, {1, 3}) ensures l == Chr('b') || l == Chr('c') {
      var x, e :| x in {1, 3} && 0 <= x < |g| && e in g[x].edges && e.0 != Eps && e.0 == l;
      assert x == 1 || x == 3;
    }
  }

  /** A state of a finished subset construction: its labels and finality are
      those of its NFA states, and each arc leads to the listed state for the
      closure of its label's targets. */
  lemma {:induction false} ListedState(g: Graph, states: seq<Dfa.DState>, d: Dfa.DState)
    requires Dfa.Deterministic(g, states) && d in states
    ensures d.arcs.Keys == NonEpsLabels(g, d.ids) && d.isFinal == AnyFinal(g, d.ids)
    ensures forall l | l in d.arcs :: d.arcs[l] in states && d.arcs[l].ids == Closure(g, Move(g, d.ids, l))
  {
    var k :| 0 <= k < |states| && states[k] == d;
    assert Dfa.DfaState(g, states[k]);
    forall l | l in d.arcs ensures d.arcs[l] in states && d.arcs[l].ids == Closure(g, Move(g, d.ids, l)) {
      assert Dfa.ArcResolved(g, states, states[k], l);
    }
  }

  /** A listed state with the first state's NFA states is the first state. */
  lemma {:induction false} SameIdsFirst(g: Graph, states: seq<Dfa.DState>, d: Dfa.DState)
    requires Dfa.Deterministic(g, states) && |states| > 0 && d in states && d.ids == states[0].ids
    ensures d == states[0]
  {
    var k :| 0 <= k < |states| && states[k] == d;
  }

  /** The start state: non-final, with one arc `a`, to the state for {1, 3}. */
  lemma {:induction false} StartArcs(states: seq<Dfa.DState>, s1: Dfa.DState)
    requires Dfa.Deterministic(AbStarAcNfa, states) && s1 in states && s1.ids == Closure(AbStarAcNfa, {0})
    ensures s1.arcs.Keys == {Chr('a')} && !s1.isFinal
    ensures s1.arcs[Chr('a')] in states && s1.arcs[Chr('a')].ids == {1, 3}
  {
    StartClosure();
    AbStarAcClosures();
    AbStarAcLabels();
    ListedState(AbStarAcNfa, states, s1);
  }

  /** The state for {1, 3}: non-final, with arcs `b` to the state for {0, 2}
      and `c` to the state for {4}. */
  lemma {:induction false} MiddleArcs(states: seq<Dfa.DState>, s2: Dfa.DState)
    requires Dfa.Deterministic(AbStarAcNfa, states) && s2 in states && s2.ids == {1, 3}
    ensures s2.arcs.Keys == {Chr('b'), Chr('c')} && !s2.isFinal
    ensures s2.arcs[Chr('b')] in states && s2.arcs[Chr('b')].ids == Closure(AbStarAcNfa, {0})
    ensures s2.arcs[Chr('c')] in states && s2.arcs[Chr('c')].ids == {4}
  {
    StartClosure();
    AbStarAcClosures();
    AbStarAcLabels();
    ListedState(AbStarAcNfa, states, s2);
  }

  /** The state for {4}: final, without arcs. */
  lemma {:induction false} EndArcs(states: seq<Dfa.DState>, s3: Dfa.DState)
    requires Dfa.Deterministic(AbStarAcNfa, states) && s3 in states && s3.ids == {4}
    ensures s3.arcs.Keys == {} && s3.isFinal
  {
    AbStarAcLabels();
    ListedState(AbStarAcNfa, states, s3);
  }

  /** What `Dfa.Nfa2Dfa` promises over `AbStarAcNfa`, worked out for its three
      reachable states. */
  lemma {:induction false} AbStarAcResult(s1: Dfa.DState, states: seq<Dfa.DState>)
    requires |states| > 0 && s1 == states[0] && s1.ids == Closure(AbStarAcNfa, {0})
    requires Dfa.Deterministic(AbStarAcNfa, states)
    ensures |s1.arcs| == 1 && Chr('a') in s1.arcs && !s1.isFinal
    ensures var s2 := s1.arcs[Chr('a')];
            |s2.arcs| == 2 && Chr('b') in s2.arcs && Chr('c') in s2.arcs && s2.arcs[Chr('b')] == s1
            && !s2.isFinal
    ensures var s3 := s1.arcs[Chr('a')].arcs[Chr('c')];
            |s3.arcs| == 0 && s3.isFinal
  {
    StartArcs(states, s1);
    var s2 := s1.arcs[Chr('a')];
    MiddleArcs(states, s2);
    SameIdsFirst(AbStarAcNfa, states, s2.arcs[Chr('b')]);
    EndArcs(states, s2.arcs[Chr('c')]);
    assert |s1.arcs.Keys| == 1 && |s2.arcs.Keys| == 2;
  }
}
