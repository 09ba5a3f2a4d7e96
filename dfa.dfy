/** Subset construction and minimisation (pyparser/dfa.py), together with the
    epsilon closure that `TokenState.epsilon_closure` (pyparser/tokenize.py)
    computes into a `DFAState`. DFA states are objects: the minimiser compares
    and redirects arcs by object identity. */
module Dfa {
  import opened Automaton

  datatype DfaError = StateFrozen
  datatype Outcome = Pass | Fail(error: DfaError)

  /** `map` with every value `fr` replaced by `to`. */
  function Redirected(m: map<Label, DState>, fr: DState, to: DState): (r: map<Label, DState>)
    ensures r.Keys == m.Keys
    ensures forall l | l in r :: r[l] != fr || (fr == to && m[l] == fr)
  {
    map l | l in m :: if m[l] == fr then to else m[l]
  }

  /** Redirecting twice is redirecting once. */
  lemma RedirectedTwice(m: map<Label, DState>, fr: DState, to: DState)
    ensures Redirected(Redirected(m, fr, to), fr, to) == Redirected(m, fr, to)
  {
  }

  /** A set of states of the subset construction (a `DFAState`). */
  class DState {
    /** `states`: the NFA states added, in the order of their first `add`. */
    var members: seq<nat>
    var ids: set<nat>
    var arcLabels: set<Label>
    var arcs: map<Label, DState>
    var isFinal: bool
    var frozen: bool

    constructor ()
      ensures members == [] && ids == {} && arcLabels == {} && arcs == map[]
      ensures !isFinal && !frozen
    {
      members, ids, arcLabels, arcs := [], {}, {}, map[];
      isFinal, frozen := false, false;
    }

    /** What `add` has collected describes the NFA states added: `ids` are the
        members, `arcLabels` their labels other than epsilon, and the state is
        final when one of them is. */
    ghost predicate Summarises(g: Graph)
      reads this`members, this`ids, this`arcLabels, this`isFinal
    {
      ids == Elems(members)
      && (forall i, j | 0 <= i < j < |members| :: members[i] != members[j])
      && Describes(g)
    }

    /** The part of `Summarises` that outlives `freeze`: the ids are NFA states,
        `arcLabels` are their labels other than epsilon, and the state is final
        when one of them is. */
    ghost predicate Describes(g: Graph)
      reads this`ids, this`arcLabels, this`isFinal
    {
      (forall x | x in ids :: x < |g|)
      && arcLabels == NonEpsLabels(g, ids)
      && isFinal == AnyFinal(g, ids)
    }

    /** A state as `get_arcs` yields it for label `l` of the NFA states `src`:
        not frozen, without arcs, holding the closure of `src`'s `l`-targets. */
    ghost predicate IsSuccessor(g: Graph, src: set<nat>, l: Label)
      reads this
    {
      !frozen && arcs == map[] && Summarises(g) && ids == Closure(g, Move(g, src, l))
    }

    /** `nfa in dfa_state` (before the state is frozen): whether the NFA state
        with id `x` is one of those added. */
    predicate Contains(x: nat): (r: bool)
      reads this
      ensures ids == Elems(members) ==> (r <==> x in members)
    {
      x in ids
    }

    /** `add`: refuses a frozen state; otherwise adds an NFA state whose id is new
        and ignores one already present. */
    method Add(g: Graph, x: nat) returns (r: Outcome)
      requires x < |g|
      modifies this
      ensures old(frozen) ==> r == Fail(StateFrozen) && unchanged(this)
      ensures !old(frozen) ==> r == Pass && !frozen && arcs == old(arcs)
      ensures !old(frozen) ==> ids == old(ids) + {x}
      ensures !old(frozen) && x in old(ids) ==> unchanged(this)
      ensures !old(frozen) && x !in old(ids) ==>
                members == old(members) + [x]
                && isFinal == (old(isFinal) || g[x].isFinal)
                && arcLabels == old(arcLabels) + (Keys(g[x].edges) - {Eps})
      ensures old(Summarises(g)) ==> Summarises(g)
    {
      if frozen {
        return Fail(StateFrozen);
      }
      if x !in ids {
        NonEpsAdd(g, ids, x);
        AnyFinalAdd(g, ids, x);
        members := members + [x];
        ids := ids + {x};
        AddLabels(KeyOrder(g[x].edges));
        if g[x].isFinal {
          isFinal := true;
        }
      }
      return Pass;
    }

    /** The loop of `add` over the labels of the state added: every label
        other than epsilon joins `arc_labels`. */
    method AddLabels(labels: seq<Label>)
      modifies this`arcLabels
      ensures arcLabels == old(arcLabels) + (set l | l in labels && l != Eps)
    {
      var k := 0;
      while k < |labels|
        invariant 0 <= k <= |labels|
        invariant arcLabels == old(arcLabels) + (set l | l in labels[..k] && l != Eps)
      {
        if labels[k] != Eps {
          arcLabels := arcLabels + {labels[k]};
        }
        assert labels[..k + 1] == labels[..k] + [labels[k]];
        k := k + 1;
      }
      assert labels[..k] == labels;
    }

    /** `out_equals`: same number of arcs, same finality, and each label leads to
        the very same state in both. Two states with the same finality and the
        same arc map are `out_equals`; `OutEqualsIff` gives the converse. */
    predicate OutEquals(other: DState): (r: bool)
      reads this, other
      ensures isFinal == other.isFinal && arcs == other.arcs ==> r
    {
      |arcs| == |other.arcs|
      && isFinal == other.isFinal
      && forall l | l in arcs :: l in other.arcs && other.arcs[l] == arcs[l]
    }

    /** `replace(fr, to)`: redirects the arcs that lead to `fr`, and only those. */
    method Replace(fr: DState, to: DState)
      modifies this`arcs
      ensures arcs == Redirected(old(arcs), fr, to)
    {
      var todo := arcs.Keys;
      while todo != {}
        invariant todo <= arcs.Keys == old(arcs).Keys
        invariant forall l | l in arcs && l !in todo :: arcs[l] == Redirected(old(arcs), fr, to)[l]
        invariant forall l | l in todo :: arcs[l] == old(arcs)[l]
        decreases todo
      {
        var l :| l in todo;
        if arcs[l] == fr {
          arcs := arcs[l := to];
        }
        todo := todo - {l};
      }
    }

    /** One value yielded by `get_arcs`: the closure of everything the members
        reach by `l`, collected into a new state. */
    method ArcTarget(g: Graph, l: Label) returns (t: DState)
      requires WellFormed(g) && Summarises(g)
      ensures fresh(t) && t.IsSuccessor(g, ids, l) && EpsClosed(g, t.ids)
    {
      t := new DState();
      assert Closure(g, {}) == {};
      assert Elems(members[..0]) == {};
      var k := 0;
      while k < |members|
        invariant 0 <= k <= |members|
        invariant fresh(t) && !t.frozen && t.arcs == map[] && t.Summarises(g)
        invariant EpsClosed(g, t.ids)
        invariant t.ids == Closure(g, Move(g, Elems(members[..k]), l))
      {
        var x := members[k];
        assert x in ids;
        MovePrefix(g, members, k, l);
        if l in Keys(g[x].edges) {
          CloseTargets(g, Targets(g[x].edges, l), t);
        } else {
          assert Elems(Targets(g[x].edges, l)) == {};
          assert Closure(g, {}) == {};
        }
        k := k + 1;
      }
      assert members[..k] == members;
    }

    /** `get_arcs`: for every label of `arc_labels`, a new state holding the
        epsilon closure of the members' targets for that label; the states made
        for two labels are distinct objects. */
    method GetArcs(g: Graph) returns (m: map<Label, DState>)
      requires WellFormed(g) && Summarises(g)
      ensures m.Keys == arcLabels
      ensures forall l | l in m :: fresh(m[l]) && m[l].IsSuccessor(g, ids, l)
      ensures forall l1, l2 | l1 in m && l2 in m && l1 != l2 :: m[l1] != m[l2]
    {
      m := map[];
      var todo := arcLabels;
      while todo != {}
        invariant todo <= arcLabels && m.Keys == arcLabels - todo
        invariant forall l | l in m :: fresh(m[l]) && m[l].IsSuccessor(g, ids, l)
        invariant forall l1, l2 | l1 in m && l2 in m && l1 != l2 :: m[l1] != m[l2]
        decreases todo
      {
        var l :| l in todo;
        var t := ArcTarget(g, l);
        m := m[l := t];
        todo := todo - {l};
      }
    }

    /** `freeze`: records the successor of every label and forbids further
        `add`s. `states` becomes empty (the source drops the list). */
    method Freeze(g: Graph)
      requires WellFormed(g) && Summarises(g) && !frozen
      modifies this
      ensures frozen && members == [] && ids == old(ids) && Describes(g)
      ensures isFinal == old(isFinal) && arcLabels == old(arcLabels)
      ensures arcs.Keys == old(arcs).Keys + arcLabels
      ensures forall l | l in arcs && l !in arcLabels :: arcs[l] == old(arcs)[l]
      ensures forall l | l in arcLabels :: fresh(arcs[l]) && arcs[l].IsSuccessor(g, ids, l)
      ensures forall l1, l2 | l1 in arcLabels && l2 in arcLabels && l1 != l2 :: arcs[l1] != arcs[l2]
    {
      var m := GetArcs(g);
      arcs := arcs + m;
      members := [];
      frozen := true;
    }
  }

  lemma NonEpsAdd(g: Graph, ids: set<nat>, x: nat)
    requires x < |g|
    ensures NonEpsLabels(g, ids + {x}) == NonEpsLabels(g, ids) + (Keys(g[x].edges) - {Eps})
  {
  }

  lemma AnyFinalAdd(g: Graph, ids: set<nat>, x: nat)
    requires x < |g|
    ensures AnyFinal(g, ids + {x}) == (AnyFinal(g, ids) || g[x].isFinal)
  {
  }

  lemma MoveAdd(g: Graph, ids: set<nat>, x: nat, l: Label)
    requires x < |g|
    ensures Move(g, ids + {x}, l) == Move(g, ids, l) + Elems(Targets(g[x].edges, l))
  {
  }

  /** `out_equals` holds exactly when both states agree on finality and map every
      label to the same state. */
  lemma OutEqualsIff(a: DState, b: DState)
    ensures a.OutEquals(b) <==> a.isFinal == b.isFinal && a.arcs == b.arcs
  {
    if a.OutEquals(b) {
      assert a.arcs.Keys <= b.arcs.Keys;
      SubsetSameSize(a.arcs.Keys, b.arcs.Keys);
    }
  }

  lemma SubsetSameSize<T>(a: set<T>, b: set<T>)
    requires a <= b && |a| == |b|
    ensures a == b
  {
    if a != b {
      assert exists y :: y in b && y !in a;
      var x :| x in b && x !in a;
      assert a <= b - {x};
      SubsetSize(a, b - {x});
    }
  }

  lemma {:induction false} SubsetSize<T>(a: set<T>, b: set<T>)
    requires a <= b
    ensures |a| <= |b|
    decreases a
  {
    if a != {} {
      var x :| x in a;
      SubsetSize(a - {x}, b - {x});
    }
  }

  /** `epsilon_closure(self, tstate)`: adds `s` to `tstate` (a new state when none
      is given) and recurses into each epsilon target not yet present. Every state
      it adds is reached from `s`, and every state it adds has its epsilon targets
      in the result. */
  method EpsilonClosure(g: Graph, s: nat, tstate: DState?) returns (ret: DState)
    requires WellFormed(g) && s < |g|
    requires tstate != null ==> !tstate.frozen && tstate.Summarises(g)
    modifies if tstate == null then {} else {tstate}
    ensures tstate != null ==> ret == tstate && ret.arcs == old(tstate.arcs)
    ensures tstate == null ==> fresh(ret) && ret.arcs == map[]
    ensures !ret.frozen && ret.Summarises(g)
    ensures var a := if tstate == null then {} else old(tstate.ids);
            a <= ret.ids && s in ret.ids
            && (forall x | x in ret.ids - a :: Reaches(g, s, x))
            && (forall x, e | x in ret.ids - a && e in g[x].edges && e.0 == Eps :: e.1 in ret.ids)
  {
    if tstate == null {
      ret := new DState();
    } else {
      ret := tstate;
    }
    CloseInto(g, s, ret);
  }

  /** The body of `epsilon_closure` once the target state is known. */
  method CloseInto(g: Graph, s: nat, t: DState)
    requires WellFormed(g) && s < |g| && !t.frozen && t.Summarises(g)
    modifies t
    ensures !t.frozen && t.Summarises(g) && t.arcs == old(t.arcs)
    ensures old(t.ids) <= t.ids && s in t.ids
    ensures forall x | x in t.ids - old(t.ids) :: Reaches(g, s, x)
    ensures forall x, e | x in t.ids - old(t.ids) && e in g[x].edges && e.0 == Eps :: e.1 in t.ids
    decreases Range(|g|) - t.ids, if s in t.ids then 1 else 0, 1
  {
    ghost var a := t.ids;
    var _ := t.Add(g, s);
    ReachesRefl(g, s);
    if Eps in Keys(g[s].edges) {
      CloseEpsTargets(g, s, a, t);
      ClosingDone(g, s, a, t.ids);
    } else {
      assert forall e | e in g[s].edges :: e.0 != Eps;
    }
  }

  /** The loop of `epsilon_closure` over the epsilon targets of `s`, once `s`
      is added to the states `a` it started from: each target not yet present
      is closed over in turn. */
  method CloseEpsTargets(g: Graph, s: nat, ghost a: set<nat>, t: DState)
    requires WellFormed(g) && s < |g| && !t.frozen && t.Summarises(g) && Closing(g, s, a, t.ids)
    modifies t
    ensures !t.frozen && t.Summarises(g) && t.arcs == old(t.arcs)
    ensures old(t.ids) <= t.ids && Closing(g, s, a, t.ids)
    ensures forall e | e in g[s].edges && e.0 == Eps :: e.1 in t.ids
    decreases Range(|g|) - a, if s in a then 1 else 0, 0
  {
    var eps := Targets(g[s].edges, Eps);
    var k := 0;
    while k < |eps|
      invariant 0 <= k <= |eps| && old(t.ids) <= t.ids
      invariant !t.frozen && t.Summarises(g) && t.arcs == old(t.arcs)
      invariant Closing(g, s, a, t.ids)
      invariant forall j | 0 <= j < k :: eps[j] in t.ids
    {
      if !t.Contains(eps[k]) {
        assert (Eps, eps[k]) in g[s].edges;
        ghost var before := t.ids;
        RangeShrinks(|g|, a, before, s);
        CloseInto(g, eps[k], t);
        ClosingStep(g, s, a, before, t.ids, eps[k]);
      }
      k := k + 1;
    }
    forall e | e in g[s].edges && e.0 == Eps
      ensures e.1 in t.ids
    {
      assert e.1 in eps;
    }
  }

  /** `epsilon_closure` part way through the epsilon targets of `s`, starting
      from the states `a`: `s` is in, everything added is reached from `s`,
      and everything added other than `s` has its epsilon targets in. */
  ghost predicate Closing(g: Graph, s: nat, a: set<nat>, ids: set<nat>) {
    a + {s} <= ids
    && (forall x | x in ids - a :: Reaches(g, s, x))
    && (forall x, e | x in ids - a && x < |g| && x != s && e in g[x].edges && e.0 == Eps :: e.1 in ids)
  }

  /** Closing over an epsilon target `y` of `s` keeps `Closing`. */
  lemma ClosingStep(g: Graph, s: nat, a: set<nat>, before: set<nat>, after: set<nat>, y: nat)
    requires s < |g| && (Eps, y) in g[s].edges && Closing(g, s, a, before) && before <= after
    requires forall x | x in after - before :: Reaches(g, y, x)
    requires forall x, e | x in after - before && x < |g| && e in g[x].edges && e.0 == Eps :: e.1 in after
    ensures Closing(g, s, a, after)
  {
    ReachesAll(g, s, y, after - before);
  }

  /** Once every epsilon target of `s` is in, so is the closure condition for `s`. */
  lemma ClosingDone(g: Graph, s: nat, a: set<nat>, ids: set<nat>)
    requires Closing(g, s, a, ids)
    ensures a + {s} <= ids && forall x | x in ids - a :: Reaches(g, s, x)
    ensures forall x, e | x in ids - a && x < |g| && x != s && e in g[x].edges && e.0 == Eps :: e.1 in ids
  {
  }

  /** What an epsilon successor of `s` reaches, `s` reaches too. */
  lemma ReachesAll(g: Graph, s: nat, y: nat, xs: set<nat>)
    requires s < |g| && (Eps, y) in g[s].edges
    requires forall x | x in xs :: Reaches(g, y, x)
    ensures forall x | x in xs :: Reaches(g, s, x)
  {
    forall x | x in xs ensures Reaches(g, s, x) {
      ReachesStep(g, s, (Eps, y), x);
    }
  }

  /** The measure of `CloseInto` falls at its recursive calls. */
  lemma RangeShrinks(n: nat, a: set<nat>, before: set<nat>, s: nat)
    requires a + {s} <= before <= Range(n)
    ensures Range(n) - before < Range(n) - a || (s in a && before == a)
  {
    if s !in a {
      assert s in (Range(n) - a) - (Range(n) - before);
    } else if before != a {
      assert exists z :: z in before && z !in a;
      var y :| y in before && y !in a;
      assert y in (Range(n) - a) - (Range(n) - before);
    }
  }

  /** The inner loop of `get_arcs`: `s.epsilon_closure(tstate)` for each target `s`. */
  method CloseTargets(g: Graph, ts: seq<nat>, t: DState)
    requires WellFormed(g) && !t.frozen && t.Summarises(g) && EpsClosed(g, t.ids)
    requires forall y | y in ts :: y < |g|
    modifies t
    ensures !t.frozen && t.Summarises(g) && t.arcs == old(t.arcs) && EpsClosed(g, t.ids)
    ensures t.ids == old(t.ids) + Closure(g, Elems(ts))
  {
    assert Closure(g, {}) == {};
    assert Elems(ts[..0]) == {};
    var j := 0;
    while j < |ts|
      invariant 0 <= j <= |ts|
      invariant !t.frozen && t.Summarises(g) && t.arcs == old(t.arcs) && EpsClosed(g, t.ids)
      invariant t.ids == old(t.ids) + Closure(g, Elems(ts[..j]))
    {
      assert Elems(ts[..j + 1]) == Elems(ts[..j]) + {ts[j]} by {
        assert ts[..j + 1] == ts[..j] + [ts[j]];
      }
      ClosureAdd(g, Elems(ts[..j]), ts[j]);
      ghost var prev := t.ids;
      assert ts[j] in ts;
      var _ := EpsilonClosure(g, ts[j], t);
      ClosureInto(g, prev, t.ids, ts[j]);
      j := j + 1;
    }
    assert ts[..j] == ts;
  }

  /** Taking one more member into account adds the closure of its `l`-targets. */
  lemma MovePrefix(g: Graph, ms: seq<nat>, k: nat, l: Label)
    requires k < |ms| && ms[k] < |g|
    ensures Closure(g, Move(g, Elems(ms[..k + 1]), l))
            == Closure(g, Move(g, Elems(ms[..k]), l)) + Closure(g, Elems(Targets(g[ms[k]].edges, l)))
  {
    MoveAdd(g, Elems(ms[..k]), ms[k], l);
    assert Elems(ms[..k + 1]) == Elems(ms[..k]) + {ms[k]} by {
      assert ms[..k + 1] == ms[..k] + [ms[k]];
    }
    ClosureUnion(g, Move(g, Elems(ms[..k]), l), Elems(Targets(g[ms[k]].edges, l)));
  }

  lemma ClosureUnion(g: Graph, a: set<nat>, b: set<nat>)
    ensures Closure(g, a + b) == Closure(g, a) + Closure(g, b)
  {
  }

  /** After `EpsilonClosure` into an epsilon-closed set `a`, the result is `a`
      together with the closure of `s`, and is again epsilon-closed. */
  lemma ClosureInto(g: Graph, a: set<nat>, b: set<nat>, s: nat)
    requires WellFormed(g) && EpsClosed(g, a) && a <= b && s in b && b <= Range(|g|)
    requires forall x | x in b - a :: Reaches(g, s, x)
    requires forall x, e | x in b - a && 0 <= x < |g| && e in g[x].edges && e.0 == Eps :: e.1 in b
    ensures EpsClosed(g, b)
    ensures b == a + Closure(g, {s})
  {
    ClosedExtend(g, a, b);
    forall x | x in Closure(g, {s}) ensures x in b {
      ClosedHoldsReach(g, b, s, x);
    }
    forall x | x in b - a ensures x in Closure(g, {s}) {
      assert s in {s} && x < |g| && Reaches(g, s, x);
    }
  }

  /** A closed set stays closed when the states added have their epsilon
      targets in the result. */
  lemma ClosedExtend(g: Graph, a: set<nat>, b: set<nat>)
    requires EpsClosed(g, a) && a <= b
    requires forall x, e | x in b - a && 0 <= x < |g| && e in g[x].edges && e.0 == Eps :: e.1 in b
    ensures EpsClosed(g, b)
  {
  }

  /** The state objects of a list. */
  function Objs(ss: seq<DState>): (r: set<DState>)
    ensures forall s | s in ss :: s in r
  {
    set s | s in ss
  }

  /** No object occurs twice in the list. */
  predicate Distinct(ss: seq<DState>) {
    forall i, j | 0 <= i < j < |ss| :: ss[i] != ss[j]
  }

  /** Every arc of a listed state leads to a listed state. */
  ghost predicate ArcsClosed(ss: seq<DState>)
    reads Objs(ss)
  {
    forall s, l | s in ss && l in s.arcs :: s.arcs[l] in ss
  }

  /** No two listed states are `out_equals`, in list order. */
  ghost predicate NoEquivalentPair(ss: seq<DState>)
    reads Objs(ss)
  {
    forall i, j | 0 <= i < j < |ss| :: !ss[i].OutEquals(ss[j])
  }

  /** The arcs of each listed state, as a value. */
  ghost function ArcsOf(ss: seq<DState>): (r: map<DState, map<Label, DState>>)
    reads Objs(ss)`arcs
  {
    map s | s in ss :: s.arcs
  }

  /** The listed states that are final. */
  ghost function Finals(ss: seq<DState>): (r: set<DState>)
    reads Objs(ss)`isFinal
  {
    set s | s in ss && s.isFinal
  }

  /** The arcs recorded for a listed state are its arcs. */
  lemma ArcsOfAt(ss: seq<DState>, s: DState)
    requires s in ss
    ensures s in ArcsOf(ss) && ArcsOf(ss)[s] == s.arcs
  {
  }

  /** The arcs recorded for a sublist are those recorded for the list. */
  lemma ArcsOfSub(ss: seq<DState>, sub: seq<DState>)
    requires forall s | s in sub :: s in ss
    ensures forall s | s in sub :: s in ArcsOf(ss) && s in ArcsOf(sub) && ArcsOf(sub)[s] == ArcsOf(ss)[s]
  {
  }

  /** A listed state is final exactly when it is in `finals`. */
  lemma FinalityAt(ss: seq<DState>, finals: set<DState>, s: DState)
    requires Finality(ss, finals) && s in ss
    ensures s.isFinal <==> s in finals
  {
  }

  /** A list drawn from a list with final states `finals` has them too. */
  lemma FinalitySub(ss: seq<DState>, sub: seq<DState>, finals: set<DState>)
    requires Finality(ss, finals) && forall s | s in sub :: s in ss
    ensures Finality(sub, finals)
  {
  }

  /** The listed states that are final are those in `finals`. */
  ghost predicate Finality(ss: seq<DState>, finals: set<DState>)
    reads Objs(ss)`isFinal
  {
    forall s | s in ss :: s.isFinal <==> s in finals
  }

  /** The arcs `m` with each target replaced by the state standing for it. */
  function Renamed(m: map<Label, DState>, rep: map<DState, DState>): (r: map<Label, DState>)
    requires forall l | l in m :: m[l] in rep
  {
    map l | l in m :: rep[m[l]]
  }

  /** Every listed state stands for itself. */
  function Identity(ss: seq<DState>): (r: map<DState, DState>) {
    map s | s in ss :: s
  }

  /** After `b` is merged into `a`, whatever `b` stood for is stood for by `a`. */
  function Remap(rep: map<DState, DState>, b: DState, a: DState): (r: map<DState, DState>) {
    map s | s in rep :: if rep[s] == b then a else rep[s]
  }

  /** A list of states as it stood: its states, their arcs and the final ones. */
  datatype Snapshot = Snapshot(states: seq<DState>, arcs: map<DState, map<Label, DState>>, finals: set<DState>)

  /** The list `ss` as it stands now. */
  ghost function Snap(ss: seq<DState>): (r: Snapshot)
    reads Objs(ss)`arcs, Objs(ss)`isFinal
  {
    Snapshot(ss, ArcsOf(ss), Finals(ss))
  }

  /** `states` with arcs `arcs` is a quotient of the list `d0`: each state `s`
      of `d0` is stood for by the listed state `rep[s]`, which is final exactly
      when `s` is and whose arcs are those of `s` with every target replaced by
      the state standing for it; a listed state stands for itself. */
  ghost predicate Quotient(d0: Snapshot, rep: map<DState, DState>, states: seq<DState>,
                           arcs: map<DState, map<Label, DState>>)
  {
    && (forall s {:trigger s in rep} | s in states :: s in rep)
    && (forall s {:trigger rep[s]} | s in states :: rep[s] == s)
    && (forall s {:trigger s in arcs} | s in states :: s in arcs)
    && (forall s {:trigger s in rep} | s in d0.states :: s in rep)
    && (forall s {:trigger s in d0.arcs} | s in d0.states :: s in d0.arcs)
    && (forall s, l | s in d0.states && l in d0.arcs[s] :: d0.arcs[s][l] in d0.states)
    && (forall s {:trigger rep[s]} | s in d0.states :: rep[s] in states)
    && (forall s {:trigger rep[s]} | s in d0.states :: rep[s] in d0.finals <==> s in d0.finals)
    && (forall s {:trigger rep[s]} | s in d0.states :: arcs[rep[s]] == Renamed(d0.arcs[s], rep))
  }

  /** The word `w` leads from `s` along `arcs` to a state in `finals`. */
  ghost predicate Accepts(arcs: map<DState, map<Label, DState>>, finals: set<DState>, s: DState, w: seq<Label>)
    decreases |w|
  {
    if w == [] then s in finals
    else s in arcs && w[0] in arcs[s] && Accepts(arcs, finals, arcs[s][w[0]], w[1..])
  }

  /** A quotient accepts from the state standing for `s` exactly the words the
      original accepts from `s`. */
  lemma {:induction false} QuotientLanguage(d0: Snapshot, rep: map<DState, DState>, states: seq<DState>,
                                            arcs: map<DState, map<Label, DState>>, s: DState, w: seq<Label>)
    requires Quotient(d0, rep, states, arcs) && s in d0.states
    ensures Accepts(d0.arcs, d0.finals, s, w) <==> Accepts(arcs, d0.finals, rep[s], w)
    decreases |w|
  {
    if w != [] && w[0] in d0.arcs[s] {
      var t := d0.arcs[s][w[0]];
      QuotientLanguage(d0, rep, states, arcs, t, w[1..]);
      assert arcs[rep[s]][w[0]] == rep[t];
    }
  }

  /** A list whose arcs stay inside it is a quotient of itself. */
  lemma IdentityQuotient(d0: Snapshot)
    requires forall s | s in d0.states :: s in d0.arcs
    requires forall s, l | s in d0.states && l in d0.arcs[s] :: d0.arcs[s][l] in d0.states
    ensures Quotient(d0, Identity(d0.states), d0.states, d0.arcs)
  {
    forall s | s in d0.states
      ensures d0.arcs[s] == Renamed(d0.arcs[s], Identity(d0.states))
    {
    }
  }

  /** Renaming targets and then redirecting `b` to `a` is renaming by the
      remapped representatives. */
  lemma RenamedRedirect(m: map<Label, DState>, rep: map<DState, DState>, b: DState, a: DState)
    requires forall l | l in m :: m[l] in rep
    ensures Redirected(Renamed(m, rep), b, a) == Renamed(m, Remap(rep, b, a))
  {
  }

  /** Merging `states[j]` into `states[i]`, which has the same finality and the
      same arcs, keeps a quotient a quotient: what `states[j]` stood for is
      now stood for by `states[i]`. */
  lemma MergeQuotient(d0: Snapshot, rep: map<DState, DState>, states: seq<DState>,
                      arcs: map<DState, map<Label, DState>>, i: nat, j: nat,
                      res: seq<DState>, arcs': map<DState, map<Label, DState>>)
    requires Quotient(d0, rep, states, arcs) && Distinct(states)
    requires i < j < |states| && res == states[..j] + states[j + 1..]
    requires (states[i] in d0.finals <==> states[j] in d0.finals) && arcs[states[i]] == arcs[states[j]]
    requires forall s | s in res :: s in arcs' && arcs'[s] == Redirected(arcs[s], states[j], states[i])
    ensures Quotient(d0, Remap(rep, states[j], states[i]), res, arcs')
  {
    var a, b := states[i], states[j];
    var rep' := Remap(rep, b, a);
    assert res[i] == a;
    forall s | s in states && s != b
      ensures s in res
    {
      var k :| 0 <= k < |states| && states[k] == s;
      if k < j {
        assert res[k] == s;
      } else {
        assert res[k - 1] == s;
      }
    }
    forall s | s in res
      ensures s in states && s != b
    {
      var k :| 0 <= k < |res| && res[k] == s;
      if k < j {
        assert s == states[k];
      } else {
        assert s == states[k + 1];
      }
    }
    forall s | s in d0.states
      ensures arcs'[rep'[s]] == Renamed(d0.arcs[s], rep')
    {
      RenamedRedirect(d0.arcs[s], rep, b, a);
    }
  }

  /** Every state's arcs redirected from `fr` to `to`. */
  function RedirectAll(arcs: map<DState, map<Label, DState>>, fr: DState, to: DState): (r: map<DState, map<Label, DState>>)
    ensures r.Keys == arcs.Keys
  {
    map s | s in arcs :: Redirected(arcs[s], fr, to)
  }

  /** `for sub_state in states: sub_state.replace(fr, to)`. A state listed twice
      is redirected twice, which is the same as once. */
  method ReplaceAll(ss: seq<DState>, fr: DState, to: DState)
    modifies Objs(ss)`arcs
    ensures forall s | s in ss :: s.arcs == Redirected(old(s.arcs), fr, to)
    ensures ArcsOf(ss) == RedirectAll(old(ArcsOf(ss)), fr, to)
  {
    ghost var a0 := ArcsOf(ss);
    var k := 0;
    while k < |ss|
      invariant 0 <= k <= |ss|
      invariant forall s | s in ss[..k] :: s.arcs == Redirected(old(s.arcs), fr, to)
      invariant forall s | s in ss && s !in ss[..k] :: s.arcs == old(s.arcs)
    {
      RedirectedTwice(old(ss[k].arcs), fr, to);
      ss[k].Replace(fr, to);
      assert ss[..k + 1] == ss[..k] + [ss[k]];
      k := k + 1;
    }
    assert ss[..k] == ss;
    forall s | s in ss
      ensures ArcsOf(ss)[s] == RedirectAll(a0, fr, to)[s]
    {
      ArcsOfAt(ss, s);
    }
  }

  /** The search of the inner `for j` loop of `simplify_dfa`: the first index
      after `i` whose state is `out_equals` to the state at `i`, or the length
      of the list when there is none. */
  method FindLater(states: seq<DState>, i: nat) returns (j: nat)
    requires i < |states|
    ensures i < j <= |states|
    ensures j < |states| ==> states[i].OutEquals(states[j])
    ensures forall b | i < b < j :: !states[i].OutEquals(states[b])
  {
    j := i + 1;
    while j < |states| && !states[i].OutEquals(states[j])
      invariant i < j <= |states|
      invariant forall b | i < b < j :: !states[i].OutEquals(states[b])
    {
      j := j + 1;
    }
  }

  /** Deleting the element at `j` leaves the others, in order; it keeps a list
      free of repetitions, and the deleted element is then gone. */
  lemma Deleted(ss: seq<DState>, j: nat, r: seq<DState>)
    requires j < |ss| && r == ss[..j] + ss[j + 1..]
    ensures |r| + 1 == |ss| && (0 < j ==> r[0] == ss[0])
    ensures forall s | s in r :: s in ss
    ensures forall s | s in ss :: s in r || s == ss[j]
    ensures Distinct(ss) ==> Distinct(r) && ss[j] !in r
  {
    assert forall a | 0 <= a < |r| :: r[a] == if a < j then ss[a] else ss[a + 1];
    forall s | s in ss
      ensures s in r || s == ss[j]
    {
      var k :| 0 <= k < |ss| && ss[k] == s;
      if k < j {
        assert r[k] == s;
      } else if k > j {
        assert r[k - 1] == s;
      }
    }
  }

  /** `del states[j]` followed by `sub_state.replace(other_state, state)` for
      every state left in the list. */
  method MergeAt(states: seq<DState>, i: nat, j: nat, ghost d0: Snapshot, ghost rep: map<DState, DState>) returns (res: seq<DState>)
    requires i < j < |states|
    modifies Objs(states)`arcs
    ensures res == states[..j] + states[j + 1..]
    ensures |res| + 1 == |states| && res[0] == states[0] && forall s | s in res :: s in states
    ensures forall s | s in res :: s.arcs == Redirected(old(s.arcs), states[j], states[i])
    ensures Distinct(states) ==> Distinct(res) && states[j].arcs == old(states[j].arcs)
    ensures forall s | s in states :: s.arcs.Keys == old(s.arcs).Keys
    ensures old(ArcsClosed(states)) ==> ArcsClosed(res)
    ensures old(Distinct(states) && states[i].OutEquals(states[j]) && Finality(states, d0.finals) &&
                Quotient(d0, rep, states, ArcsOf(states))) ==>
            Quotient(d0, Remap(rep, states[j], states[i]), res, ArcsOf(res))
  {
    OutEqualsIff(states[i], states[j]);
    var other := states[j];
    res := states[..j] + states[j + 1..];
    Deleted(states, j, res);
    if Distinct(states) {
      assert other !in Objs(res);
    }
    ghost var before := ArcsOf(states);
    ghost var merge := Distinct(states) && states[i].OutEquals(states[j]) && Finality(states, d0.finals) &&
                       Quotient(d0, rep, states, before);
    ghost var kept := ArcsOf(res);
    if merge {
      ArcsOfAt(states, states[i]);
      ArcsOfAt(states, other);
      FinalityAt(states, d0.finals, states[i]);
      FinalityAt(states, d0.finals, other);
      ArcsOfSub(states, res);
    }
    ReplaceAll(res, other, states[i]);
    if merge {
      MergeQuotient(d0, rep, states, before, i, j, res, RedirectAll(kept, other, states[i]));
    }
  }

  /** One pass of the `while run` loop of `simplify_dfa`: for each index of
      the list as it shrinks, merges the first later state `out_equals` to the
      state there; reports whether anything was merged. */
  method SimplifyPass(states: seq<DState>, ghost d0: Snapshot, ghost rep: map<DState, DState>)
    returns (res: seq<DState>, run: bool, ghost rep': map<DState, DState>)
    modifies Objs(states)`arcs
    ensures !run ==> res == states && NoEquivalentPair(res) && unchanged(Objs(states))
    ensures run ==> |res| < |states|
    ensures old(NoEquivalentPair(states)) ==> !run
    ensures |res| <= |states| && forall s | s in res :: s in states
    ensures |states| > 0 ==> |res| > 0 && res[0] == states[0]
    ensures Distinct(states) ==> Distinct(res)
    ensures forall s | s in res :: s.arcs.Keys == old(s.arcs).Keys
    ensures old(ArcsClosed(states)) ==> ArcsClosed(res)
    ensures old(Distinct(states) && Finality(states, d0.finals) && Quotient(d0, rep, states, ArcsOf(states))) ==>
            Finality(res, d0.finals) && Quotient(d0, rep', res, ArcsOf(res))
  {
    var i, j := FindPair(states);
    if j < |states| {
      res, rep' := MergeRest(states, i, j, d0, rep);
      run := true;
    } else {
      res, run, rep' := states, false, rep;
    }
  }

  /** The scan of a pass up to its first merge: the first index `i` with a
      later state `j` that `out_equals` it, or `j == |states|` when there is
      none. */
  method FindPair(states: seq<DState>) returns (i: nat, j: nat)
    ensures j <= |states|
    ensures j < |states| ==> i < j && states[i].OutEquals(states[j])
    ensures j == |states| ==> NoEquivalentPair(states)
  {
    i := 0;
    while i < |states|
      invariant 0 <= i <= |states|
      invariant forall a, b | 0 <= a < i && a < b < |states| :: !states[a].OutEquals(states[b])
    {
      j := FindLater(states, i);
      if j < |states| {
        return;
      }
      i := i + 1;
    }
    j := |states|;
  }

  /** The first merge of a pass, at `i` and `j`, followed by the rest of the
      pass. */
  method MergeRest(states: seq<DState>, i: nat, j: nat, ghost d0: Snapshot, ghost rep: map<DState, DState>)
    returns (res: seq<DState>, ghost rep': map<DState, DState>)
    requires i < j < |states| && states[i].OutEquals(states[j])
    modifies Objs(states)`arcs
    ensures !old(NoEquivalentPair(states))
    ensures |res| < |states| && forall s | s in res :: s in states
    ensures 0 < |res| && res[0] == states[0]
    ensures Distinct(states) ==> Distinct(res)
    ensures forall s | s in res :: s.arcs.Keys == old(s.arcs).Keys
    ensures old(ArcsClosed(states)) ==> ArcsClosed(res)
    ensures old(Distinct(states) && Finality(states, d0.finals) && Quotient(d0, rep, states, ArcsOf(states))) ==>
            Finality(res, d0.finals) && Quotient(d0, rep', res, ArcsOf(res))
  {
    ghost var quotient := Distinct(states) && Finality(states, d0.finals) && Quotient(d0, rep, states, ArcsOf(states));
    ghost var rep1 := Remap(rep, states[j], states[i]);
    var mid := MergeAt(states, i, j, d0, rep);
    ghost var q1 := Distinct(mid) && Finality(mid, d0.finals) && Quotient(d0, rep1, mid, ArcsOf(mid));
    if quotient {
      FinalitySub(states, mid, d0.finals);
      assert q1;
    }
    res, rep' := FinishPass(mid, i + 1, d0, rep1);
    assert q1 ==> Quotient(d0, rep', res, ArcsOf(res));
  }

  /** The rest of a pass once a merge has happened: the remaining positions
      are still visited, each merging as in `PassStep`. */
  method FinishPass(states: seq<DState>, i0: nat, ghost d0: Snapshot, ghost rep: map<DState, DState>)
    returns (res: seq<DState>, ghost rep': map<DState, DState>)
    requires i0 <= |states|
    modifies Objs(states)`arcs
    ensures |res| <= |states| && forall s | s in res :: s in states
    ensures |states| > 0 ==> |res| > 0 && res[0] == states[0]
    ensures Distinct(states) ==> Distinct(res)
    ensures forall s | s in res :: s.arcs.Keys == old(s.arcs).Keys
    ensures old(ArcsClosed(states)) ==> ArcsClosed(res)
    ensures old(Distinct(states) && Finality(states, d0.finals) && Quotient(d0, rep, states, ArcsOf(states))) ==>
            Finality(res, d0.finals) && Quotient(d0, rep', res, ArcsOf(res))
  {
    ghost var closed := ArcsClosed(states);
    ghost var quotient := Distinct(states) && Finality(states, d0.finals) && Quotient(d0, rep, states, ArcsOf(states));
    res, rep' := states, rep;
    var i := i0;
    while i < |res|
      invariant i0 <= i && i <= |res| + (i - i0)
      invariant |res| <= |states| && forall s | s in res :: s in states
      invariant |states| > 0 ==> |res| > 0 && res[0] == states[0]
      invariant Distinct(states) ==> Distinct(res)
      invariant forall s | s in res :: s.arcs.Keys == old(s.arcs).Keys
      invariant closed ==> ArcsClosed(res)
      invariant quotient ==> Finality(res, d0.finals) && Quotient(d0, rep', res, ArcsOf(res))
      decreases |res| - i
    {
      var merged, j;
      res, merged, j, rep' := PassStep(res, i, d0, rep');
      i := i + 1;
    }
  }

  /** The body of `for i, state in enumerate(states)` in `simplify_dfa`: merges
      the first later state `out_equals` to the state at `i`, if any, and says
      whether it did. */
  method PassStep(states: seq<DState>, i: nat, ghost d0: Snapshot, ghost rep: map<DState, DState>)
    returns (res: seq<DState>, merged: bool, j: nat, ghost rep': map<DState, DState>)
    requires i < |states|
    modifies Objs(states)`arcs
    ensures i < j <= |states| && (merged <==> j < |states|)
    ensures forall b | i < b < j :: !old(states[i].OutEquals(states[b]))
    ensures !merged ==> res == states && unchanged(Objs(states))
    ensures merged ==> old(states[i].OutEquals(states[j]))
    ensures merged ==> res == states[..j] + states[j + 1..]
    ensures merged ==> forall s | s in res :: s.arcs == Redirected(old(s.arcs), states[j], states[i])
    ensures i < |res| && res[0] == states[0] && forall s | s in res :: s in states
    ensures Distinct(states) ==> Distinct(res)
    ensures forall s | s in res :: s.arcs.Keys == old(s.arcs.Keys)
    ensures old(ArcsClosed(states)) ==> ArcsClosed(res)
    ensures merged && Distinct(states) ==> states[j].arcs == old(states[j].arcs)
    ensures rep' == if merged then Remap(rep, states[j], states[i]) else rep
    ensures old(Distinct(states) && Finality(states, d0.finals) && Quotient(d0, rep, states, ArcsOf(states))) ==>
            Quotient(d0, rep', res, ArcsOf(res))
  {
    ghost var quotient := Distinct(states) && Finality(states, d0.finals) && Quotient(d0, rep, states, ArcsOf(states));
    j := FindLater(states, i);
    merged := j < |states|;
    if merged {
      rep' := Remap(rep, states[j], states[i]);
      res := MergeAt(states, i, j, d0, rep);
      assert quotient ==> Quotient(d0, rep', res, ArcsOf(res));
    } else {
      res, rep' := states, rep;
    }
  }

  /** `simplify_dfa`: repeats passes until one merges nothing. The list never
      grows, keeps its first state, keeps only states it had, ends with no two
      states `out_equals`, keeps every arc inside the list when all arcs were,
      and changes nothing when no two states were `out_equals` to begin with.
      For a list without repeats whose arcs stay inside it, the result is a
      quotient of the list as it was given, so it accepts the same words
      (`QuotientLanguage`). */
  method SimplifyDfa(states0: seq<DState>) returns (states: seq<DState>, ghost rep: map<DState, DState>)
    modifies Objs(states0)`arcs
    ensures |states| <= |states0| && forall s | s in states :: s in states0
    ensures |states0| > 0 ==> |states| > 0 && states[0] == states0[0]
    ensures Distinct(states0) ==> Distinct(states)
    ensures NoEquivalentPair(states)
    ensures forall s | s in states :: s.arcs.Keys == old(s.arcs).Keys
    ensures old(ArcsClosed(states0)) ==> ArcsClosed(states)
    ensures old(NoEquivalentPair(states0)) ==>
              states == states0 && unchanged(Objs(states0))
    ensures Distinct(states0) && old(ArcsClosed(states0)) ==> Quotient(old(Snap(states0)), rep, states, ArcsOf(states))
  {
    ghost var closed := ArcsClosed(states0);
    ghost var d0 := Snap(states0);
    ghost var quotient := Distinct(states0) && closed;
    if closed {
      IdentityQuotient(d0);
    }
    assert Finality(states0, d0.finals);
    var run;
    states, run, rep := SimplifyPass(states0, d0, Identity(states0));
    while run
      invariant |states| <= |states0| && forall s | s in states :: s in states0
      invariant |states0| > 0 ==> |states| > 0 && states[0] == states0[0]
      invariant Distinct(states0) ==> Distinct(states)
      invariant forall s | s in states :: s.arcs.Keys == old(s.arcs).Keys
      invariant closed ==> ArcsClosed(states)
      invariant !run ==> NoEquivalentPair(states)
      invariant old(NoEquivalentPair(states0)) ==> !run && states == states0 && unchanged(Objs(states0))
      invariant quotient ==> Finality(states, d0.finals) && Quotient(d0, rep, states, ArcsOf(states))
      decreases |states| + (if run then 1 else 0)
    {
      states, run, rep := SimplifyPass(states, d0, rep);
    }
  }

  /** `simplify_dfa` as `nfa2dfa` calls it, on described states with one arc
      per label: the states that remain are still described and still have
      one arc per label. */
  method SimplifySubset(ghost g: Graph, states0: seq<DState>) returns (states: seq<DState>)
    requires Described(g, states0) && Labelled(states0)
    modifies Objs(states0)`arcs
    ensures |states| <= |states0| && forall s | s in states :: s in states0
    ensures |states0| > 0 ==> |states| > 0 && states[0] == states0[0]
    ensures Distinct(states0) ==> Distinct(states)
    ensures NoEquivalentPair(states)
    ensures Described(g, states) && Labelled(states)
    ensures old(ArcsClosed(states0)) ==> ArcsClosed(states)
    ensures old(NoEquivalentPair(states0)) ==>
              states == states0 && unchanged(Objs(states0))
  {
    ghost var rep;
    states, rep := SimplifyDfa(states0);
    DescribedSubset(g, states0, states);
  }

  /** A state of the subset construction once frozen: it describes an
      epsilon-closed set of NFA states. */
  ghost predicate DfaState(g: Graph, d: DState)
    reads d`frozen, d`ids, d`arcLabels, d`isFinal
  {
    d.frozen && d.Describes(g) && EpsClosed(g, d.ids)
  }

  /** Each listed state has one arc per label of its NFA states. */
  ghost predicate Labelled(ss: seq<DState>)
    reads Objs(ss)`arcs, Objs(ss)`arcLabels
  {
    forall d | d in ss :: d.arcs.Keys == d.arcLabels
  }

  /** The states queued by `nfa2dfa` have pairwise different sets of NFA
      states, each registered under its set, and the registry holds nothing else. */
  ghost predicate Registered(g: Graph, pending: seq<DState>, registry: map<set<nat>, DState>)
    reads Objs(pending)`frozen, Objs(pending)`ids, Objs(pending)`arcLabels, Objs(pending)`isFinal
  {
    (forall d {:trigger DfaState(g, d)} | d in pending :: DfaState(g, d))
    && (forall a, b | 0 <= a < b < |pending| :: pending[a].ids != pending[b].ids)
    && (forall a | 0 <= a < |pending| :: pending[a].ids in registry && registry[pending[a].ids] == pending[a])
    && |registry| == |pending|
  }

  /** Every registered set of NFA states is that of a queued state: the
      registry holds as many entries as the queue, each queued state's under a
      different key. */
  lemma RegistryHit(g: Graph, pending: seq<DState>, registry: map<set<nat>, DState>, key: set<nat>)
    requires Registered(g, pending, registry) && key in registry
    ensures registry[key] in pending && registry[key].ids == key
  {
    if forall a | 0 <= a < |pending| :: pending[a].ids != key {
      IdsCount(pending, registry.Keys - {key}, |pending|);
      assert false;
    }
    var a :| 0 <= a < |pending| && pending[a].ids == key;
  }

  /** `n` queued states with pairwise different sets of NFA states, all in
      `keys`, need at least `n` keys. */
  lemma {:induction false} IdsCount(pending: seq<DState>, keys: set<set<nat>>, n: nat)
    requires n <= |pending|
    requires forall a, b | 0 <= a < b < |pending| :: pending[a].ids != pending[b].ids
    requires forall a | 0 <= a < n :: pending[a].ids in keys
    ensures n <= |keys|
  {
    if n > 0 {
      var x := pending[n - 1].ids;
      forall a | 0 <= a < n - 1
        ensures pending[a].ids in keys - {x}
      {
        assert pending[a].ids != pending[n - 1].ids;
      }
      IdsCount(pending, keys - {x}, n - 1);
    }
  }

  /** The arc of `d` labelled `l` leads to the queued state for the closure of
      that label's targets. */
  ghost predicate ArcResolved(g: Graph, pending: seq<DState>, d: DState, l: Label)
    reads d`arcs, d`ids, Objs(pending)`ids
  {
    l in d.arcs && d.arcs[l] in pending && d.arcs[l].ids == Closure(g, Move(g, d.ids, l))
  }

  /** The arc of `d` labelled `l` still leads to the new state `freeze` made for
      it, which `owner` attributes to the state at index `a` and to `l` alone. */
  ghost predicate ArcPending(g: Graph, owner: map<DState, (nat, Label)>, d: DState, a: nat, l: Label)
    reads d`arcs, d`ids, owner.Keys
  {
    l in d.arcs && d.arcs[l] in owner && owner[d.arcs[l]] == (a, l) && d.arcs[l].IsSuccessor(g, d.ids, l)
  }

  /** The arcs of the queued states before `k`, and those of the state at `k`
      labelled in `done`, are resolved. */
  ghost predicate ResolvedBefore(g: Graph, pending: seq<DState>, k: nat, done: set<Label>)
    reads Objs(pending)`arcs, Objs(pending)`ids
  {
    (forall a, l {:trigger ArcResolved(g, pending, pending[a], l)} | 0 <= a < k && a < |pending| && l in pending[a].arcs :: ArcResolved(g, pending, pending[a], l))
    && (k < |pending| ==> forall l {:trigger ArcResolved(g, pending, pending[k], l)} | l in pending[k].arcs && l in done :: ArcResolved(g, pending, pending[k], l))
  }

  /** Every other arc of a queued state is still pending, and no queued state is
      attributed to an arc. */
  ghost predicate UnresolvedAfter(g: Graph, pending: seq<DState>, owner: map<DState, (nat, Label)>,
                                  k: nat, done: set<Label>)
    reads Objs(pending)`arcs, Objs(pending)`ids, owner.Keys
  {
    (forall d | d in pending :: d !in owner)
    && (forall a, l {:trigger ArcPending(g, owner, pending[a], a, l)} | k < a < |pending| && l in pending[a].arcs :: ArcPending(g, owner, pending[a], a, l))
    && (k < |pending| ==> forall l {:trigger ArcPending(g, owner, pending[k], k, l)} | l in pending[k].arcs && l !in done :: ArcPending(g, owner, pending[k], k, l))
  }

  /** The worklist of `nfa2dfa` part way through the state at `k`, with the
      arcs labelled in `rdone` resolved and those outside `udone` pending. */
  ghost predicate Worklist(g: Graph, pending: seq<DState>, registry: map<set<nat>, DState>,
                           owner: map<DState, (nat, Label)>, k: nat, rdone: set<Label>, udone: set<Label>)
    reads Objs(pending), owner.Keys
  {
    k < |pending| && Registered(g, pending, registry) && Labelled(pending)
    && ResolvedBefore(g, pending, k, rdone) && UnresolvedAfter(g, pending, owner, k, udone)
  }

  /** The worklist of `nfa2dfa` part way through the state at `k`. */
  ghost predicate Construction(g: Graph, pending: seq<DState>, registry: map<set<nat>, DState>,
                               owner: map<DState, (nat, Label)>, k: nat, done: set<Label>)
    reads Objs(pending), owner.Keys
  {
    Worklist(g, pending, registry, owner, k, done, done)
  }

  /** Dropping the successor of the arc of the state at `k` labelled `l` from
      `owner` leaves every other pending arc attributed. */
  lemma Disown(g: Graph, pending: seq<DState>, registry: map<set<nat>, DState>,
               owner: map<DState, (nat, Label)>, k: nat, done: set<Label>, l: Label)
    requires Construction(g, pending, registry, owner, k, done)
    requires l in pending[k].arcs && l !in done
    ensures Worklist(g, pending, registry, owner - {pending[k].arcs[l]}, k, done, done + {l})
    ensures pending[k].arcs[l] in owner && pending[k].arcs[l] !in Objs(pending)
    ensures pending[k].arcs[l].IsSuccessor(g, pending[k].ids, l)
  {
    var x := pending[k].arcs[l];
    var o := owner - {x};
    assert ArcPending(g, owner, pending[k], k, l);
    forall a, l' | k < a < |pending| && l' in pending[a].arcs
      ensures ArcPending(g, o, pending[a], a, l')
    {
      assert ArcPending(g, owner, pending[a], a, l');
    }
    forall l' | l' in pending[k].arcs && l' !in done + {l}
      ensures ArcPending(g, o, pending[k], k, l')
    {
      assert ArcPending(g, owner, pending[k], k, l');
    }
  }

  /** `tstate.freeze()` in `nfa2dfa` for the arc of the state at `k` labelled
      `l`: the successor becomes a frozen state whose own arcs lead to new states,
      and nothing queued changes. */
  method FreezeSuccessor(g: Graph, pending: seq<DState>, registry: map<set<nat>, DState>,
                         ghost owner: map<DState, (nat, Label)>, k: nat, ghost done: set<Label>, l: Label)
      returns (tstate: DState)
    requires WellFormed(g) && Construction(g, pending, registry, owner, k, done)
    requires l in pending[k].arcs && l !in done
    modifies pending[k].arcs[l]
    ensures tstate == old(pending[k].arcs[l]) && tstate !in pending && tstate in owner
    ensures Worklist(g, pending, registry, owner - {tstate}, k, done, done + {l})
    ensures DfaState(g, tstate) && tstate.arcs.Keys == tstate.arcLabels
    ensures tstate.ids == Closure(g, Move(g, pending[k].ids, l))
    ensures forall l' | l' in tstate.arcs :: fresh(tstate.arcs[l']) && tstate.arcs[l'].IsSuccessor(g, tstate.ids, l')
    ensures forall l' | l' in tstate.arcs :: tstate.arcs[l'] !in owner && tstate.arcs[l'] !in pending
    ensures forall l1, l2 | l1 in tstate.arcs && l2 in tstate.arcs && l1 != l2 :: tstate.arcs[l1] != tstate.arcs[l2]
  {
    tstate := pending[k].arcs[l];
    Disown(g, pending, registry, owner, k, done, l);
    ClosureClosed(g, Move(g, pending[k].ids, l));
    tstate.Freeze(g);
    forall l' | l' in tstate.arcs
      ensures tstate.arcs[l'] !in owner && tstate.arcs[l'] !in pending
    {
      var v := tstate.arcs[l'];
      assert fresh(v);
    }
  }

  /** `cur.arcs[label] = tstate` in `nfa2dfa`: the arc of the state at `k`
      labelled `l` now leads to the queued state `t` for its label's closure. */
  method SetArc(g: Graph, pending: seq<DState>, ghost registry: map<set<nat>, DState>,
                ghost owner: map<DState, (nat, Label)>, k: nat, ghost done: set<Label>, l: Label, t: DState)
    requires Worklist(g, pending, registry, owner, k, done, done + {l})
    requires forall a | 0 <= a < |pending| && a != k :: pending[a] != pending[k]
    requires l in pending[k].arcs && t in pending && t.ids == Closure(g, Move(g, pending[k].ids, l))
    modifies {pending[k]}`arcs
    ensures pending[k].arcs == old(pending[k].arcs)[l := t]
    ensures Construction(g, pending, registry, owner, k, done + {l})
  {
    PointArc(g, pending, owner, k, done, l, t);
  }

  /** The assignment `cur.arcs[label] = t` of `SetArc`, with what it keeps of
      the worklist invariant. */
  method PointArc(g: Graph, pending: seq<DState>, ghost owner: map<DState, (nat, Label)>, k: nat,
                  ghost done: set<Label>, l: Label, t: DState)
    requires k < |pending| && ResolvedBefore(g, pending, k, done)
    requires UnresolvedAfter(g, pending, owner, k, done + {l})
    requires forall a | 0 <= a < |pending| && a != k :: pending[a] != pending[k]
    requires l in pending[k].arcs && t in pending && t.ids == Closure(g, Move(g, pending[k].ids, l))
    requires Labelled(pending)
    modifies {pending[k]}`arcs
    ensures pending[k].arcs == old(pending[k].arcs)[l := t]
    ensures ResolvedBefore(g, pending, k, done + {l}) && UnresolvedAfter(g, pending, owner, k, done + {l})
    ensures Labelled(pending)
  {
    var cur := pending[k];
    assert cur in Objs(pending) && cur !in owner;
    cur.arcs := cur.arcs[l := t];
    assert cur.arcs.Keys == old(cur.arcs.Keys);
    forall a, l' | 0 <= a < k && l' in pending[a].arcs
      ensures ArcResolved(g, pending, pending[a], l')
    {
      assert old(ArcResolved(g, pending, pending[a], l'));
    }
    forall l' | l' in cur.arcs && l' in done && l' != l
      ensures ArcResolved(g, pending, cur, l')
    {
      assert old(ArcResolved(g, pending, cur, l'));
      var x := old(cur.arcs[l']);
      assert cur.arcs[l'] == x && x.ids == old(x.ids);
    }
    assert ArcResolved(g, pending, cur, l);
    forall a, l' | k < a < |pending| && l' in pending[a].arcs
      ensures ArcPending(g, owner, pending[a], a, l')
    {
      assert old(ArcPending(g, owner, pending[a], a, l'));
    }
    forall l' | l' in cur.arcs && l' !in done + {l}
      ensures ArcPending(g, owner, cur, k, l')
    {
      assert old(ArcPending(g, owner, cur, k, l'));
    }
  }

  /** The first half of the body of `for label, tstate in cur.arcs.items()` in
      `nfa2dfa`: freezes the successor `tstate` of the state at `k` for its label
      `l`, and registers it. `t` is the state the arc is then to lead to. */
  method Enqueue(g: Graph, pending: seq<DState>, registry: map<set<nat>, DState>,
                 ghost owner: map<DState, (nat, Label)>, k: nat, ghost done: set<Label>, l: Label)
      returns (pending': seq<DState>, registry': map<set<nat>, DState>, ghost owner': map<DState, (nat, Label)>,
               t: DState)
    requires WellFormed(g) && Construction(g, pending, registry, owner, k, done)
    requires l in pending[k].arcs && l !in done
    modifies pending[k].arcs[l]
    ensures Worklist(g, pending', registry', owner', k, done, done + {l})
    ensures t in pending' && t.ids == Closure(g, Move(g, pending[k].ids, l))
    ensures pending <= pending' && registry.Keys <= registry'.Keys
    ensures registry'.Keys == registry.Keys ==> pending' == pending
    ensures pending' == pending || pending' == pending + [old(pending[k].arcs[l])]
    ensures forall o | o in owner' :: o in owner || fresh(o)
  {
    var tstate := FreezeSuccessor(g, pending, registry, owner, k, done, l);
    pending', registry', owner', t := Register(g, pending, registry, owner - {tstate}, k, done, l, tstate);
  }

  /** `states.get(tstate.ids, None)` in `nfa2dfa` and what follows it: a frozen
      successor whose NFA states are new is registered and queued; otherwise the
      state registered under them takes its place. */
  method Register(g: Graph, pending: seq<DState>, registry: map<set<nat>, DState>,
                  ghost owner: map<DState, (nat, Label)>, k: nat, ghost done: set<Label>, l: Label, tstate: DState)
      returns (pending': seq<DState>, registry': map<set<nat>, DState>, ghost owner': map<DState, (nat, Label)>,
               t: DState)
    requires Worklist(g, pending, registry, owner, k, done, done + {l}) && tstate !in pending && tstate !in owner
    requires DfaState(g, tstate) && tstate.arcs.Keys == tstate.arcLabels
    requires forall l' | l' in tstate.arcs :: tstate.arcs[l'] !in owner && tstate.arcs[l'] !in pending
                                              && tstate.arcs[l'] != tstate && tstate.arcs[l'].IsSuccessor(g, tstate.ids, l')
    requires forall l1, l2 | l1 in tstate.arcs && l2 in tstate.arcs && l1 != l2 :: tstate.arcs[l1] != tstate.arcs[l2]
    ensures Worklist(g, pending', registry', owner', k, done, done + {l})
    ensures t in pending' && t.ids == tstate.ids
    ensures registry'.Keys == registry.Keys + {tstate.ids}
    ensures if tstate.ids in registry then pending' == pending else pending' == pending + [tstate]
    ensures forall o | o in owner' :: o in owner || o in tstate.arcs.Values
  {
    t := tstate;
    if tstate.ids in registry {
      RegistryHit(g, pending, registry, tstate.ids);
      t := registry[tstate.ids];
      pending', registry', owner' := pending, registry, owner;
    } else {
      pending', registry', owner' := pending + [tstate], registry[tstate.ids := tstate],
        owner + Owned(tstate.arcs, |pending|);
      QueueWorklist(g, pending, registry, owner, k, done, l, tstate);
    }
  }

  /** Registering and queuing a frozen state whose NFA states are not
      registered, and whose arcs all lead to new, not yet frozen states, keeps
      the worklist invariant. */
  lemma QueueWorklist(g: Graph, pending: seq<DState>, registry: map<set<nat>, DState>,
                      owner: map<DState, (nat, Label)>, k: nat, done: set<Label>, l: Label, t: DState)
    requires Worklist(g, pending, registry, owner, k, done, done + {l})
    requires DfaState(g, t) && t.arcs.Keys == t.arcLabels && t.ids !in registry && t !in owner
    requires forall l1, l2 | l1 in t.arcs && l2 in t.arcs && l1 != l2 :: t.arcs[l1] != t.arcs[l2]
    requires forall l' | l' in t.arcs :: t.arcs[l'] !in owner && t.arcs[l'] != t && t.arcs[l'] !in pending
                                         && t.arcs[l'].IsSuccessor(g, t.ids, l')
    ensures Worklist(g, pending + [t], registry[t.ids := t], owner + Owned(t.arcs, |pending|), k, done, done + {l})
  {
    NewRegistered(g, pending, registry, t);
    QueueKeeps(g, pending, owner, k, done, done + {l}, t);
  }

  /** One pass of the body of `for label, tstate in cur.arcs.items()` in
      `nfa2dfa`, for the state at `k` and its label `l`: freezes `tstate`, then
      either registers and queues it or, when a state with the same NFA states
      is registered already, points the arc at that one instead. */
  method ResolveArc(g: Graph, pending: seq<DState>, registry: map<set<nat>, DState>,
                    ghost owner: map<DState, (nat, Label)>, k: nat, ghost done: set<Label>, l: Label)
      returns (pending': seq<DState>, registry': map<set<nat>, DState>, ghost owner': map<DState, (nat, Label)>)
    requires WellFormed(g) && Construction(g, pending, registry, owner, k, done)
    requires l in pending[k].arcs && l !in done
    modifies {pending[k]}`arcs, pending[k].arcs[l]
    ensures Construction(g, pending', registry', owner', k, done + {l})
    ensures l in pending[k].arcs && pending[k].arcs == old(pending[k].arcs)[l := pending[k].arcs[l]]
    ensures pending <= pending' && registry.Keys <= registry'.Keys
    ensures registry'.Keys == registry.Keys ==> pending' == pending
    ensures pending' == pending || pending' == pending + [old(pending[k].arcs[l])]
    ensures forall o | o in owner' :: o in owner || fresh(o)
  {
    var t;
    assert ArcPending(g, owner, pending[k], k, l);
    assert pending[k].arcs[l] != pending[k];
    pending', registry', owner', t := Enqueue(g, pending, registry, owner, k, done, l);
    assert forall a | 0 <= a < |pending'| && a != k :: pending'[a] != pending'[k];
    SetArc(g, pending', registry', owner', k, done, l, t);
  }

  /** Queuing a frozen state whose arcs all lead to new, not yet frozen states
      keeps every resolved arc resolved and every other arc attributed. */
  lemma QueueKeeps(g: Graph, pending: seq<DState>, owner: map<DState, (nat, Label)>,
                   k: nat, rdone: set<Label>, done: set<Label>, t: DState)
    requires k < |pending| && ResolvedBefore(g, pending, k, rdone) && UnresolvedAfter(g, pending, owner, k, done)
    requires t !in owner
    requires forall l1, l2 | l1 in t.arcs && l2 in t.arcs && l1 != l2 :: t.arcs[l1] != t.arcs[l2]
    requires forall l | l in t.arcs :: t.arcs[l] !in owner && t.arcs[l] != t && t.arcs[l] !in pending
                                       && t.arcs[l].IsSuccessor(g, t.ids, l)
    ensures ResolvedBefore(g, pending + [t], k, rdone)
    ensures UnresolvedAfter(g, pending + [t], owner + Owned(t.arcs, |pending|), k, done)
  {
    var p := pending + [t];
    var m := Owned(t.arcs, |pending|);
    var o := owner + m;
    forall a, l | 0 <= a < k && a < |p| && l in p[a].arcs
      ensures ArcResolved(g, p, p[a], l)
    {
      assert p[a] == pending[a];
      assert ArcResolved(g, pending, pending[a], l);
    }
    forall l | l in p[k].arcs && l in rdone
      ensures ArcResolved(g, p, p[k], l)
    {
      assert p[k] == pending[k];
      assert ArcResolved(g, pending, pending[k], l);
    }
    forall d | d in p
      ensures d !in o
    {
      if d != t {
        assert d in pending;
        assert forall l' | l' in t.arcs :: t.arcs[l'] != d;
      }
    }
    forall a, l | k < a < |p| && l in p[a].arcs
      ensures ArcPending(g, o, p[a], a, l)
    {
      if a < |pending| {
        assert p[a] == pending[a];
        assert ArcPending(g, owner, pending[a], a, l);
        var x := pending[a].arcs[l];
        assert x !in m by {
          assert forall l' | l' in t.arcs :: t.arcs[l'] != x;
        }
      } else {
        assert p[a] == t;
      }
    }
    forall l | l in p[k].arcs && l !in done
      ensures ArcPending(g, o, p[k], k, l)
    {
      assert p[k] == pending[k];
      assert ArcPending(g, owner, pending[k], k, l);
      var x := pending[k].arcs[l];
      assert x !in m by {
        assert forall l' | l' in t.arcs :: t.arcs[l'] != x;
      }
    }
  }

  /** Attributes each successor in `arcs` to the state at index `a` and its label. */
  ghost function Owned(arcs: map<Label, DState>, a: nat): (r: map<DState, (nat, Label)>)
    requires forall l1, l2 | l1 in arcs && l2 in arcs && l1 != l2 :: arcs[l1] != arcs[l2]
    ensures forall l | l in arcs :: arcs[l] in r && r[arcs[l]] == (a, l)
    ensures forall o | o in r :: exists l :: l in arcs && arcs[l] == o
  {
    map l | l in arcs :: arcs[l] := (a, l)
  }

  /** Queuing and registering a frozen state whose NFA states are not registered
      keeps the registry faithful to the queue. */
  lemma NewRegistered(g: Graph, pending: seq<DState>, registry: map<set<nat>, DState>, t: DState)
    requires Registered(g, pending, registry) && DfaState(g, t) && t.ids !in registry
    ensures Registered(g, pending + [t], registry[t.ids := t])
  {
  }

  /** The body of `for label, tstate in cur.arcs.items()` in `nfa2dfa` for the
      state at `k`, over all of its labels. */
  method ResolveState(g: Graph, pending: seq<DState>, registry: map<set<nat>, DState>,
                      ghost owner: map<DState, (nat, Label)>, k: nat)
      returns (pending': seq<DState>, registry': map<set<nat>, DState>, ghost owner': map<DState, (nat, Label)>)
    requires WellFormed(g) && Construction(g, pending, registry, owner, k, {})
    modifies {pending[k]}`arcs, pending[k].arcs.Values
    ensures Construction(g, pending', registry', owner', k, pending[k].arcs.Keys)
    ensures pending <= pending' && registry.Keys <= registry'.Keys
    ensures registry'.Keys == registry.Keys ==> pending' == pending
    ensures forall d | d in pending' :: d in pending || d in old(pending[k].arcs.Values)
    ensures forall o | o in owner' :: o in owner || fresh(o)
  {
    var cur := pending[k];
    ghost var arcs0 := cur.arcs;
    var todo := cur.arcs.Keys;
    ghost var done: set<Label> := {};
    pending', registry', owner' := pending, registry, owner;
    while todo != {}
      invariant k < |pending'| && cur == pending'[k] && cur.arcs.Keys == arcs0.Keys
      invariant todo + done == arcs0.Keys && todo !! done
      invariant Construction(g, pending', registry', owner', k, done)
      invariant forall l | l in todo :: cur.arcs[l] == arcs0[l]
      invariant pending <= pending' && registry.Keys <= registry'.Keys
      invariant registry'.Keys == registry.Keys ==> pending' == pending
      invariant forall d | d in pending' :: d in pending || d in arcs0.Values
      invariant forall o | o in owner' :: o in owner || fresh(o)
      decreases todo
    {
      var l :| l in todo;
      ghost var before := cur.arcs;
      pending', registry', owner' := ResolveArc(g, pending', registry', owner', k, done, l);
      assert cur.arcs == before[l := cur.arcs[l]];
      todo, done := todo - {l}, done + {l};
    }
  }

  /** Finishing the state at `k` moves the worklist on to the next one. */
  lemma Advance(g: Graph, pending: seq<DState>, owner: map<DState, (nat, Label)>, k: nat)
    requires k < |pending| && ResolvedBefore(g, pending, k, pending[k].arcs.Keys)
    requires UnresolvedAfter(g, pending, owner, k, pending[k].arcs.Keys)
    ensures ResolvedBefore(g, pending, k + 1, {}) && UnresolvedAfter(g, pending, owner, k + 1, {})
  {
    forall a, l | 0 <= a < k + 1 && a < |pending| && l in pending[a].arcs
      ensures ArcResolved(g, pending, pending[a], l)
    {
      if a == k {
        assert ArcResolved(g, pending, pending[k], l);
      } else {
        assert ArcResolved(g, pending, pending[a], l);
      }
    }
    var j := k + 1;
    if j < |pending| {
      forall l | l in pending[j].arcs
        ensures ArcPending(g, owner, pending[j], j, l)
      {
        assert ArcPending(g, owner, pending[j], j, l);
      }
    }
  }

  /** Every registered set of NFA states is a set of ids of the arena. */
  lemma KeysBounded(g: Graph, pending: seq<DState>, registry: map<set<nat>, DState>)
    requires Registered(g, pending, registry)
    ensures registry.Keys <= PowerSet(Range(|g|))
  {
    forall key | key in registry
      ensures key in PowerSet(Range(|g|))
    {
      RegistryHit(g, pending, registry, key);
      assert DfaState(g, registry[key]);
    }
  }

  /** The listed states are frozen and describe pairwise different
      epsilon-closed sets of NFA states. */
  ghost predicate Described(g: Graph, states: seq<DState>)
    reads Objs(states)`frozen, Objs(states)`ids, Objs(states)`arcLabels, Objs(states)`isFinal
  {
    (forall a {:trigger DfaState(g, states[a])} | 0 <= a < |states| :: DfaState(g, states[a]))
    && (forall a, b | 0 <= a < b < |states| :: states[a].ids != states[b].ids)
  }

  /** Distinct states picked from described ones are described. */
  lemma DescribedSubset(g: Graph, states0: seq<DState>, states: seq<DState>)
    requires Described(g, states0) && Distinct(states) && forall d | d in states :: d in states0
    ensures Described(g, states)
  {
    forall a | 0 <= a < |states|
      ensures DfaState(g, states[a])
    {
      assert states[a] in states0;
      var i :| 0 <= i < |states0| && states0[i] == states[a];
      assert DfaState(g, states0[i]);
    }
    forall a, b | 0 <= a < b < |states|
      ensures states[a].ids != states[b].ids
    {
      assert states[a] in states0 && states[b] in states0;
      var i :| 0 <= i < |states0| && states0[i] == states[a];
      var j :| 0 <= j < |states0| && states0[j] == states[b];
      assert i != j;
    }
  }

  /** The states of a finished subset construction: frozen, each describing a
      different epsilon-closed set of NFA states, with one arc per label of
      those states, leading to the listed state for the closure of that label's
      targets. */
  ghost predicate Deterministic(g: Graph, states: seq<DState>)
    reads Objs(states)
  {
    Described(g, states)
    && (forall a | 0 <= a < |states| :: states[a].arcs.Keys == states[a].arcLabels)
    && (forall a, l {:trigger ArcResolved(g, states, states[a], l)} | 0 <= a < |states| && l in states[a].arcs
          :: ArcResolved(g, states, states[a], l))
  }

  /** A worklist with every state done is a finished subset construction. */
  lemma Finished(g: Graph, pending: seq<DState>, registry: map<set<nat>, DState>)
    requires Registered(g, pending, registry) && Labelled(pending)
    requires ResolvedBefore(g, pending, |pending|, {})
    ensures Deterministic(g, pending) && Distinct(pending) && ArcsClosed(pending)
  {
    forall a | 0 <= a < |pending|
      ensures DfaState(g, pending[a]) && pending[a].arcs.Keys == pending[a].arcLabels
    {
      assert pending[a] in pending;
      assert DfaState(g, pending[a]);
    }
    forall a, l | 0 <= a < |pending| && l in pending[a].arcs
      ensures ArcResolved(g, pending, pending[a], l)
    {
      assert ArcResolved(g, pending, pending[a], l);
    }
    forall d, l | d in pending && l in d.arcs
      ensures d.arcs[l] in pending
    {
      var a :| 0 <= a < |pending| && pending[a] == d;
      assert ArcResolved(g, pending, pending[a], l);
    }
  }

  /** `start.epsilon_closure()` and `start.freeze()` in `nfa2dfa`. */
  method StartState(g: Graph, s: nat) returns (start: DState)
    requires WellFormed(g) && s < |g|
    ensures fresh(start) && DfaState(g, start) && start.arcs.Keys == start.arcLabels
    ensures start.ids == Closure(g, {s})
    ensures forall l | l in start.arcs :: fresh(start.arcs[l]) && start.arcs[l].IsSuccessor(g, start.ids, l)
    ensures forall l | l in start.arcs :: start.arcs[l] != start
    ensures forall l1, l2 | l1 in start.arcs && l2 in start.arcs && l1 != l2 :: start.arcs[l1] != start.arcs[l2]
  {
    start := EpsilonClosure(g, s, null);
    ClosureInto(g, {}, start.ids, s);
    start.Freeze(g);
    forall l | l in start.arcs
      ensures start.arcs[l] != start
    {
      assert !start.arcs[l].frozen;
    }
  }

  /** The start of `nfa2dfa`: the epsilon closure of the NFA start state `s`,
      frozen, registered and queued. */
  method Begin(g: Graph, s: nat)
      returns (pending: seq<DState>, registry: map<set<nat>, DState>, ghost owner: map<DState, (nat, Label)>)
    requires WellFormed(g) && s < |g|
    ensures |pending| == 1 && pending[0].ids == Closure(g, {s}) && fresh(pending[0])
    ensures Registered(g, pending, registry) && Labelled(pending)
    ensures ResolvedBefore(g, pending, 0, {}) && UnresolvedAfter(g, pending, owner, 0, {})
    ensures forall o | o in owner :: fresh(o)
  {
    var start := StartState(g, s);
    registry := map[start.ids := start];
    pending := [start];
    owner := Owned(start.arcs, 0);
    assert pending[0] == start;
    assert Objs(pending) == {start};
    assert Registered(g, pending, registry) by {
      assert registry.Keys == {start.ids};
    }
    StartPending(g, start);
  }

  /** Queued alone, a frozen start state has no arc resolved and every arc
      pending, owned by it. */
  lemma StartPending(g: Graph, start: DState)
    requires forall l | l in start.arcs :: start.arcs[l] != start && start.arcs[l].IsSuccessor(g, start.ids, l)
    requires forall l1, l2 | l1 in start.arcs && l2 in start.arcs && l1 != l2 :: start.arcs[l1] != start.arcs[l2]
    ensures ResolvedBefore(g, [start], 0, {}) && UnresolvedAfter(g, [start], Owned(start.arcs, 0), 0, {})
  {
    var owner := Owned(start.arcs, 0);
    forall l | l in start.arcs
      ensures ArcPending(g, owner, start, 0, l)
    {
    }
    OwnedAvoids(start.arcs, 0, start);
    assert [start][0] == start;
    assert forall d | d in [start] :: d == start;
  }

  /** A state no arc leads to has no owner. */
  lemma OwnedAvoids(arcs: map<Label, DState>, a: nat, d: DState)
    requires forall l1, l2 | l1 in arcs && l2 in arcs && l1 != l2 :: arcs[l1] != arcs[l2]
    requires forall l | l in arcs :: arcs[l] != d
    ensures d !in Owned(arcs, a)
  {
  }

  /** One round of the loop of `nfa2dfa` over `pending`: the state at `k` gets
      all its arcs resolved. */
  method Step(g: Graph, pending: seq<DState>, registry: map<set<nat>, DState>,
              ghost owner: map<DState, (nat, Label)>, k: nat)
      returns (pending': seq<DState>, registry': map<set<nat>, DState>, ghost owner': map<DState, (nat, Label)>)
    requires WellFormed(g) && k < |pending| && Registered(g, pending, registry) && Labelled(pending)
    requires ResolvedBefore(g, pending, k, {}) && UnresolvedAfter(g, pending, owner, k, {})
    modifies {pending[k]}`arcs, pending[k].arcs.Values
    ensures Registered(g, pending', registry') && Labelled(pending')
    ensures ResolvedBefore(g, pending', k + 1, {}) && UnresolvedAfter(g, pending', owner', k + 1, {})
    ensures pending <= pending' && pending'[0].ids == old(pending[0].ids)
    ensures registry.Keys <= registry'.Keys <= PowerSet(Range(|g|))
    ensures registry'.Keys == registry.Keys ==> pending' == pending
    ensures registry'.Keys != registry.Keys ==> PowerSet(Range(|g|)) - registry'.Keys < PowerSet(Range(|g|)) - registry.Keys
    ensures forall d | d in pending' :: d in pending || d in old(pending[k].arcs.Values)
    ensures forall o | o in owner' :: o in owner || fresh(o)
  {
    ValuesOwned(g, pending, owner, k);
    assert pending[0] in pending;
    pending', registry', owner' := ResolveState(g, pending, registry, owner, k);
    KeysBounded(g, pending', registry');
    Advance(g, pending', owner', k);
    if registry'.Keys != registry.Keys {
      Shrinks(PowerSet(Range(|g|)), registry.Keys, registry'.Keys);
    }
  }

  /** The successors of the state at `k` are all still pending: attributed,
      and not queued. */
  lemma ValuesOwned(g: Graph, pending: seq<DState>, owner: map<DState, (nat, Label)>, k: nat)
    requires k < |pending| && UnresolvedAfter(g, pending, owner, k, {})
    ensures forall v | v in pending[k].arcs.Values :: v in owner && v !in pending
  {
    forall v | v in pending[k].arcs.Values
      ensures v in owner
    {
      var l :| l in pending[k].arcs && pending[k].arcs[l] == v;
      assert ArcPending(g, owner, pending[k], k, l);
    }
  }

  /** Registering new sets of NFA states leaves fewer to register. */
  lemma Shrinks(u: set<set<nat>>, a: set<set<nat>>, b: set<set<nat>>)
    requires a <= b <= u && a != b
    ensures u - b < u - a
  {
    assert b - a != {} by {
      if b - a == {} {
        forall x | x in b ensures x in a {
          assert x !in b - a;
        }
        assert false;
      }
    }
    var x :| x in b - a;
    assert x in u - a && x !in u - b;
  }

  /** The worklist of `nfa2dfa` between two rounds of its loop: the states
      before `k` are done, those from `k` on are untouched. */
  ghost predicate Settled(g: Graph, pending: seq<DState>, registry: map<set<nat>, DState>,
                          owner: map<DState, (nat, Label)>, k: nat)
    reads Objs(pending), owner.Keys
  {
    Registered(g, pending, registry) && Labelled(pending) && registry.Keys <= PowerSet(Range(|g|))
    && ResolvedBefore(g, pending, k, {}) && UnresolvedAfter(g, pending, owner, k, {})
  }

  /** The loop of `nfa2dfa` over `pending`, from the epsilon closure of the NFA
      start state `s`, before `simplify_dfa`. */
  method SubsetConstruction(g: Graph, s: nat) returns (pending: seq<DState>)
    requires WellFormed(g) && s < |g|
    ensures |pending| > 0 && pending[0].ids == Closure(g, {s})
    ensures Deterministic(g, pending) && Distinct(pending) && ArcsClosed(pending)
    ensures forall d | d in pending :: fresh(d)
  {
    var registry;
    ghost var owner;
    pending, registry, owner := Begin(g, s);
    KeysBounded(g, pending, registry);
    var k := 0;
    while k < |pending|
      invariant 0 < |pending| && k <= |pending| && pending[0].ids == Closure(g, {s})
      invariant Settled(g, pending, registry, owner, k)
      invariant forall d | d in pending :: fresh(d)
      invariant forall o | o in owner :: fresh(o)
      decreases PowerSet(Range(|g|)) - registry.Keys, |pending| - k
    {
      ValuesOwned(g, pending, owner, k);
      assert pending[k] in pending;
      pending, registry, owner := Step(g, pending, registry, owner, k);
      k := k + 1;
    }
    Finished(g, pending, registry);
  }

  /** No two listed states agree both on finality and on the labels they
      have arcs for. */
  ghost predicate Apart(ss: seq<DState>)
    reads Objs(ss)
  {
    forall a, b | 0 <= a < b < |ss| :: ss[a].isFinal != ss[b].isFinal || ss[a].arcs.Keys != ss[b].arcs.Keys
  }

  /** States that are apart are never `out_equals`. */
  lemma ApartNoPair(ss: seq<DState>)
    requires Apart(ss)
    ensures NoEquivalentPair(ss)
  {
    forall a, b | 0 <= a < b < |ss|
      ensures !ss[a].OutEquals(ss[b])
    {
      OutEqualsIff(ss[a], ss[b]);
    }
  }

  /** The NFA tells any two different epsilon-closed sets of its states apart by
      finality or by their labels other than epsilon. */
  ghost predicate Separating(g: Graph) {
    forall a: set<nat>, b: set<nat> {:trigger SetsApart(g, a, b)}
      | EpsClosed(g, a) && EpsClosed(g, b) && a != b
        && (forall x | x in a :: x < |g|) && (forall x | x in b :: x < |g|)
      :: SetsApart(g, a, b)
  }

  /** Two sets of NFA states differ in finality or in their labels other than
      epsilon. */
  ghost predicate SetsApart(g: Graph, a: set<nat>, b: set<nat>) {
    AnyFinal(g, a) != AnyFinal(g, b) || NonEpsLabels(g, a) != NonEpsLabels(g, b)
  }

  /** Over a separating NFA, the states of a subset construction are apart. */
  lemma SeparatedApart(g: Graph, ss: seq<DState>)
    requires Separating(g) && Described(g, ss) && Labelled(ss)
    ensures Apart(ss)
  {
    forall a, b | 0 <= a < b < |ss|
      ensures ss[a].isFinal != ss[b].isFinal || ss[a].arcs.Keys != ss[b].arcs.Keys
    {
      assert DfaState(g, ss[a]) && DfaState(g, ss[b]);
      assert ss[a] in ss && ss[b] in ss;
      assert SetsApart(g, ss[a].ids, ss[b].ids);
    }
  }

  /** The subset construction as `simplify_dfa` receives it: described
      states with one arc per label, and, over a separating NFA, no two of
      them `out_equals`. */
  method SubsetStates(g: Graph, s: nat) returns (pending: seq<DState>)
    requires WellFormed(g) && s < |g|
    ensures |pending| > 0 && pending[0].ids == Closure(g, {s})
    ensures Described(g, pending) && Labelled(pending) && forall d | d in pending :: fresh(d)
    ensures Distinct(pending) && ArcsClosed(pending)
    ensures Separating(g) ==> Deterministic(g, pending) && NoEquivalentPair(pending)
  {
    pending := SubsetConstruction(g, s);
    assert Described(g, pending);
    assert Labelled(pending);
    if Separating(g) {
      SeparatedApart(g, pending);
      ApartNoPair(pending);
    }
  }

  /** `nfa2dfa`: the subset construction from the NFA start state `s`, then
      `simplify_dfa` on the states it made. `start` is the DFA's start state
      and `states` the states that remain reachable by the list. Over a
      separating NFA `simplify_dfa` merges nothing, and every arc goes to the
      state for the closure of its label's targets. */
  method Nfa2Dfa(g: Graph, s: nat) returns (start: DState, states: seq<DState>)
    requires WellFormed(g) && s < |g|
    ensures |states| > 0 && start == states[0] && start.ids == Closure(g, {s})
    ensures Described(g, states) && forall d | d in states :: fresh(d) && d.arcs.Keys == d.arcLabels
    ensures Distinct(states) && ArcsClosed(states) && NoEquivalentPair(states)
    ensures Separating(g) ==> Deterministic(g, states)
  {
    var pending := SubsetStates(g, s);
    ghost var separating := Separating(g);
    states := SimplifySubset(g, pending);
    start := states[0];
    if separating {
      assert states == pending;
    }
  }
}
