/** The regular-expression builder of pyparser/tokenize.py: `TokenState`s live in
    an arena whose next free index is the class counter `_auto_id`, and
    `Token.make_states` scans a pattern once, left to right, adding arcs. */
module Tokenize {
  import opened Automaton

  /** The exceptions `make_states` can end in. `CopyHasNoEnd` is the call of
      `arc` on the `None` that `copy_from` returns when no copied arc reached the
      end state; `CopyDiverges` stands for a `copy_from` that never returns. */
  datatype BuildError =
    | UnmatchedParen
    | UnmatchedBracket
    | EscapeAtEnd
    | InvalidEscape
    | CopyHasNoEnd
    | CopyDiverges

  /** The characters that may follow a backslash. */
  const Escapable: string := "\\?+*()[]"

  /** All `TokenState`s created so far: the state with id `x` is `states[x]`. */
  class StateGraph {
    var states: Graph

    constructor (g: Graph)
      ensures states == g
    {
      states := g;
    }

    /** `TokenState()`: a new state without arcs, whose id is the counter's value
        before the call; the counter then moves past it. */
    method NewState() returns (id: nat)
      modifies this
      ensures states == old(states) + [Blank] && id == |old(states)|
    {
      id := |states|;
      states := states + [Blank];
    }

    /** `x.is_final = True`. */
    method MarkFinal(x: nat)
      requires x < |states|
      modifies this
      ensures states == old(states)[x := old(states)[x].(isFinal := true)]
    {
      states := states[x := states[x].(isFinal := true)];
    }

    /** `x.is_final = True` and `x.data = data`, on an `NFAState`, the
        `TokenState` with a payload that the grammar compiler uses. */
    method Accept(x: nat, data: string)
      requires x < |states|
      modifies this
      ensures states == old(states)[x := old(states)[x].(isFinal := true, data := Some(data))]
    {
      states := states[x := states[x].(isFinal := true, data := Some(data))];
    }

    /** `from.arc(l, to)`: appends `to` to `from.arcs[l]` and returns `to`. */
    method Arc(from: nat, l: Label, to: nat) returns (r: nat)
      requires from < |states| && to < |states|
      modifies this
      ensures states == ArcG(old(states), from, l, to) && r == to
    {
      states := states[from := states[from].(edges := states[from].edges + [(l, to)])];
      r := to;
    }

    /** `self.copy_from(start, end)`: copies every path leaving `start` onto
        `self`, one new state per arc, stopping at arcs into `end`; returns the
        copy made for the last arc into `end` met directly under `start`. */
    method CopyFrom(self: nat, start: nat, end: nat, fuel: nat) returns (r: Result<Option<nat>, BuildError>)
      requires WellFormed(states) && self < |states| && start < |states| && end < |states|
      modifies this
      ensures CopySpec(old(states), self, start, end, fuel) == if r.Err? then Err(r.error) else Ok((states, r.value))
      decreases fuel, 1
    {
      if self == start && states[start].edges != [] {
        return Err(CopyDiverges);
      }
      if fuel == 0 {
        return Err(CopyDiverges);
      }
      r := CopyLoop(self, start, end, fuel);
    }

    /** The loop of `copy_from`, over a snapshot of `start`'s arcs. */
    method CopyLoop(self: nat, start: nat, end: nat, fuel: nat) returns (r: Result<Option<nat>, BuildError>)
      requires WellFormed(states) && self < |states| && start < |states| && end < |states| && fuel > 0
      modifies this
      ensures CopyItems(old(states), self, DictItems(old(states)[start].edges), end, fuel, None)
              == if r.Err? then Err(r.error) else Ok((states, r.value))
      decreases fuel, 0
    {
      var items: seq<(Label, nat)> := DictItems(states[start].edges);
      ghost var g0 := states;
      var ret: Option<nat> := None;
      var k := 0;
      while k < |items|
        invariant 0 <= k <= |items| && |g0| <= |states|
        invariant WellFormed(states) && self < |states| && end < |states|
        invariant ret.Some? ==> ret.value < |states|
        invariant CopyItems(states, self, items[k..], end, fuel, ret) == CopyItems(g0, self, items, end, fuel, None)
      {
        ghost var gk := states;
        assert items[k] in items;
        var step := CopyArc(self, items[k].0, items[k].1, end, fuel, ret);
        if step.Err? {
          CopyItemsFail(gk, self, items, k, end, fuel, ret, step.error);
          return Err(step.error);
        }
        CopyItemsNext(gk, self, items, k, end, fuel, ret, states, step.value);
        ret := step.value;
        k := k + 1;
      }
      assert items[k..] == [];
      r := Ok(ret);
    }

    /** One turn of the loop of `copy_from`, for the arc `(c, node)` of `start`. */
    method CopyArc(self: nat, c: Label, node: nat, end: nat, fuel: nat, ret: Option<nat>)
      returns (r: Result<Option<nat>, BuildError>)
      requires WellFormed(states) && self < |states| && end < |states| && node < |states| && fuel > 0
      requires ret.Some? ==> ret.value < |states|
      modifies this
      ensures CopyStep(old(states), self, c, node, end, fuel, ret) == if r.Err? then Err(r.error) else Ok((states, r.value))
      decreases fuel - 1, 2
    {
      ghost var g0 := states;
      var n := NewState();
      var _ := Arc(self, c, n);
      assert states == ArcNew(g0, self, c);
      if node == end {
        r := Ok(Some(n));
      } else {
        var sub := CopyFrom(n, node, end, fuel - 1);
        r := if sub.Err? then Err(sub.error) else Ok(ret);
      }
    }
  }

  lemma {:induction false} SplitHead<T>(s: seq<T>, k: nat)
    requires k < |s|
    ensures s[k..] == [s[k]] + s[k + 1..]
  {
  }

  /** `TokenState()` followed by `from.arc(l, new)`: the new state's id is `|g|`. */
  function ArcNew(g: Graph, from: nat, l: Label): (r: Graph)
    requires from < |g|
    ensures |r| == |g| + 1 && r[|g|] == Blank
  {
    ArcG(g + [Blank], from, l, |g|)
  }

  /** Adding an arc between states of a well-formed arena keeps it well formed
      and only grows it. */
  lemma {:induction false} ArcGrows(g: Graph, from: nat, l: Label, to: nat)
    requires WellFormed(g) && from < |g| && to < |g|
    ensures WellFormed(ArcG(g, from, l, to)) && Grows(g, ArcG(g, from, l, to))
  {
    var g' := ArcG(g, from, l, to);
    forall x, e | 0 <= x < |g'| && e in g'[x].edges ensures e.1 < |g'| {
      if x == from {
        assert e in g[x].edges || e == (l, to);
      }
    }
  }

  lemma {:induction false} NewGrows(g: Graph)
    requires WellFormed(g)
    ensures WellFormed(g + [Blank]) && Grows(g, g + [Blank])
  {
    var g' := g + [Blank];
    forall x, e | 0 <= x < |g'| && e in g'[x].edges ensures e.1 < |g'| {
      assert x < |g|;
    }
  }

  lemma {:induction false} ArcNewGrows(g: Graph, from: nat, l: Label)
    requires WellFormed(g) && from < |g|
    ensures WellFormed(ArcNew(g, from, l)) && Grows(g, ArcNew(g, from, l))
  {
    NewGrows(g);
    ArcGrows(g + [Blank], from, l, |g|);
    GrowsTrans(g, g + [Blank], ArcNew(g, from, l));
  }

  /** What `self.copy_from(start, end)` computes. A call with `fuel` left may
      nest `fuel` calls deep; `CopyDiverges` when that does not suffice, or when
      `self` is `start` and has arcs (the loop then appends to the very list it
      walks). */
  function CopySpec(g: Graph, self: nat, start: nat, end: nat, fuel: nat): (r: Result<(Graph, Option<nat>), BuildError>)
    requires WellFormed(g) && self < |g| && start < |g| && end < |g|
    ensures r.Ok? ==> WellFormed(r.value.0) && |g| <= |r.value.0|
    ensures r.Ok? && r.value.1.Some? ==> |g| <= r.value.1.value < |r.value.0|
    ensures r.Err? ==> r.error == CopyDiverges
    decreases fuel, 1
  {
    if self == start && g[start].edges != [] then Err(CopyDiverges)
    else if fuel == 0 then Err(CopyDiverges)
    else CopyItems(g, self, DictItems(g[start].edges), end, fuel, None)
  }

  /** The loop of `copy_from` over the remaining `(char, node)` pairs, with `ret`
      the copy last made for an arc into `end`. */
  function CopyItems(g: Graph, self: nat, items: seq<(Label, nat)>, end: nat, fuel: nat, ret: Option<nat>)
    : (r: Result<(Graph, Option<nat>), BuildError>)
    requires WellFormed(g) && self < |g| && end < |g| && fuel > 0
    requires forall p | p in items :: p.1 < |g|
    requires ret.Some? ==> ret.value < |g|
    ensures r.Ok? ==> WellFormed(r.value.0) && |g| <= |r.value.0|
    ensures r.Ok? && r.value.1.Some? ==> (r.value.1 == ret || |g| <= r.value.1.value) && r.value.1.value < |r.value.0|
    ensures r.Err? ==> r.error == CopyDiverges
    decreases fuel, 0, |items|
  {
    if items == [] then Ok((g, ret))
    else
      var n := |g|;
      var g1 := ArcNew(g, self, items[0].0);
      ArcNewGrows(g, self, items[0].0);
      if items[0].1 == end then
        CopyItems(g1, self, items[1..], end, fuel, Some(n))
      else
        match CopySpec(g1, n, items[0].1, end, fuel - 1)
        case Err(e) => Err(e)
        case Ok(res) => CopyItems(res.0, self, items[1..], end, fuel, ret)
  }

  /** One turn of the loop of `copy_from`: the arc `(c, node)` is copied onto
      a new state, and `ret` becomes that state when `node` is `end`. */
  function CopyStep(g: Graph, self: nat, c: Label, node: nat, end: nat, fuel: nat, ret: Option<nat>)
    : (r: Result<(Graph, Option<nat>), BuildError>)
    requires WellFormed(g) && self < |g| && end < |g| && node < |g| && fuel > 0
    requires ret.Some? ==> ret.value < |g|
    ensures r.Ok? ==> WellFormed(r.value.0) && |g| < |r.value.0|
    ensures r.Ok? && r.value.1.Some? ==> r.value.1.value < |r.value.0|
    ensures r.Ok? && node == end ==> r.value.1 == Some(|g|)
    ensures r.Ok? && node != end ==> r.value.1 == ret
    ensures r.Err? ==> r.error == CopyDiverges
    decreases fuel, 0, 0
  {
    var g1 := ArcNew(g, self, c);
    ArcNewGrows(g, self, c);
    if node == end then Ok((g1, Some(|g|)))
    else
      match CopySpec(g1, |g|, node, end, fuel - 1)
      case Err(e) => Err(e)
      case Ok(res) => Ok((res.0, ret))
  }

  /** `CopyItems` takes one `CopyStep` per item. */
  lemma {:induction false} CopyItemsStep(g: Graph, self: nat, items: seq<(Label, nat)>, end: nat, fuel: nat, ret: Option<nat>)
    requires WellFormed(g) && self < |g| && end < |g| && fuel > 0 && items != []
    requires forall p | p in items :: p.1 < |g|
    requires ret.Some? ==> ret.value < |g|
    ensures var st := CopyStep(g, self, items[0].0, items[0].1, end, fuel, ret);
            CopyItems(g, self, items, end, fuel, ret)
            == if st.Err? then Err(st.error) else CopyItems(st.value.0, self, items[1..], end, fuel, st.value.1)
  {
    ArcNewGrows(g, self, items[0].0);
  }

  /** A turn of the loop at position `k` that succeeds leaves the rest of the
      loop to run from its result. */
  lemma {:induction false} CopyItemsNext(g: Graph, self: nat, items: seq<(Label, nat)>, k: nat, end: nat, fuel: nat,
                      ret: Option<nat>, g': Graph, ret': Option<nat>)
    requires WellFormed(g) && self < |g| && end < |g| && fuel > 0 && k < |items|
    requires forall p | p in items :: p.1 < |g|
    requires ret.Some? ==> ret.value < |g|
    requires CopyStep(g, self, items[k].0, items[k].1, end, fuel, ret) == Ok((g', ret'))
    ensures WellFormed(g') && |g| < |g'| && (ret'.Some? ==> ret'.value < |g'|)
    ensures CopyItems(g, self, items[k..], end, fuel, ret) == CopyItems(g', self, items[k + 1..], end, fuel, ret')
  {
    CopyItemsStep(g, self, items[k..], end, fuel, ret);
    assert items[k..][1..] == items[k + 1..];
  }

  /** A turn of the loop at position `k` that fails ends the loop with its error. */
  lemma {:induction false} CopyItemsFail(g: Graph, self: nat, items: seq<(Label, nat)>, k: nat, end: nat, fuel: nat,
                      ret: Option<nat>, e: BuildError)
    requires WellFormed(g) && self < |g| && end < |g| && fuel > 0 && k < |items|
    requires forall p | p in items :: p.1 < |g|
    requires ret.Some? ==> ret.value < |g|
    requires CopyStep(g, self, items[k].0, items[k].1, end, fuel, ret) == Err(e)
    ensures CopyItems(g, self, items[k..], end, fuel, ret) == Err(e)
  {
    CopyItemsStep(g, self, items[k..], end, fuel, ret);
  }

  /** One turn of the loop of `copy_from`, for an arc into `end`. */
  lemma {:induction false} CopyItemsUnfoldEnd(g: Graph, self: nat, c: Label, tail: seq<(Label, nat)>, end: nat, fuel: nat,
                           ret: Option<nat>)
    requires WellFormed(g) && self < |g| && end < |g| && fuel > 0
    requires forall p | p in tail :: p.1 < |g|
    requires ret.Some? ==> ret.value < |g|
    ensures WellFormed(ArcNew(g, self, c))
    ensures CopyItems(g, self, [(c, end)] + tail, end, fuel, ret)
            == CopyItems(ArcNew(g, self, c), self, tail, end, fuel, Some(|g|))
  {
    ArcNewGrows(g, self, c);
    assert ([(c, end)] + tail)[1..] == tail;
  }

  /** One turn of the loop of `copy_from`, for an arc into any other state. */
  lemma {:induction false} CopyItemsUnfoldInner(g: Graph, self: nat, c: Label, node: nat, tail: seq<(Label, nat)>, end: nat, fuel: nat,
                             ret: Option<nat>)
    requires WellFormed(g) && self < |g| && end < |g| && fuel > 0 && node < |g| && node != end
    requires forall p | p in tail :: p.1 < |g|
    requires ret.Some? ==> ret.value < |g|
    ensures WellFormed(ArcNew(g, self, c))
    ensures var sub := CopySpec(ArcNew(g, self, c), |g|, node, end, fuel - 1);
            CopyItems(g, self, [(c, node)] + tail, end, fuel, ret)
            == if sub.Err? then Err(sub.error) else CopyItems(sub.value.0, self, tail, end, fuel, ret)
  {
    ArcNewGrows(g, self, c);
    assert ([(c, node)] + tail)[1..] == tail;
  }

  /** `g'` differs from `g` only in the arcs of `self` and in states appended
      after it, none of them final or carrying data. */
  ghost predicate Kept(g: Graph, g': Graph, self: nat) {
    && self < |g| <= |g'|
    && (forall x | 0 <= x < |g| && x != self :: g'[x] == g[x])
    && g'[self].isFinal == g[self].isFinal && g'[self].data == g[self].data
    && (forall x | |g| <= x < |g'| :: !g'[x].isFinal && g'[x].data == None)
  }

  lemma {:induction false} KeptTrans(g1: Graph, g2: Graph, g3: Graph, a: nat, b: nat)
    requires Kept(g1, g2, a) && Kept(g2, g3, b) && (b == a || |g1| <= b)
    ensures Kept(g1, g3, a)
  {
  }

  lemma {:induction false} ArcNewKept(g: Graph, from: nat, l: Label)
    requires from < |g|
    ensures Kept(g, ArcNew(g, from, l), from)
  {
  }

  /** `copy_from` on `self` changes no state but `self`, and only its arcs; the
      states it creates are neither final nor carry data. */
  lemma {:induction false} CopySpecKept(g: Graph, self: nat, start: nat, end: nat, fuel: nat)
    requires WellFormed(g) && self < |g| && start < |g| && end < |g|
    ensures CopySpec(g, self, start, end, fuel).Ok? ==> Kept(g, CopySpec(g, self, start, end, fuel).value.0, self)
    decreases fuel, 1
  {
    if !(self == start && g[start].edges != []) && fuel != 0 {
      CopyItemsKept(g, self, DictItems(g[start].edges), end, fuel, None);
    }
  }

  lemma {:induction false} CopyItemsKept(g: Graph, self: nat, items: seq<(Label, nat)>, end: nat, fuel: nat,
                                         ret: Option<nat>)
    requires WellFormed(g) && self < |g| && end < |g| && fuel > 0
    requires forall p | p in items :: p.1 < |g|
    requires ret.Some? ==> ret.value < |g|
    ensures CopyItems(g, self, items, end, fuel, ret).Ok? ==> Kept(g, CopyItems(g, self, items, end, fuel, ret).value.0, self)
    decreases fuel, 0, |items|
  {
    if items != [] {
      var n := |g|;
      var g1 := ArcNew(g, self, items[0].0);
      ArcNewGrows(g, self, items[0].0);
      ArcNewKept(g, self, items[0].0);
      var rest := items[1..];
      assert forall p | p in rest :: p.1 < |g| by {
        forall p | p in rest ensures p.1 < |g| { assert p in items; }
      }
      if items[0].1 == end {
        var r := CopyItems(g1, self, rest, end, fuel, Some(n));
        assert CopyItems(g, self, items, end, fuel, ret) == r;
        CopyItemsKept(g1, self, rest, end, fuel, Some(n));
        if r.Ok? {
          KeptTrans(g, g1, r.value.0, self, self);
        }
      } else {
        var sub := CopySpec(g1, n, items[0].1, end, fuel - 1);
        CopySpecKept(g1, n, items[0].1, end, fuel - 1);
        if sub.Ok? {
          var g2 := sub.value.0;
          KeptTrans(g, g1, g2, self, n);
          var r := CopyItems(g2, self, rest, end, fuel, ret);
          assert CopyItems(g, self, items, end, fuel, ret) == r;
          CopyItemsKept(g2, self, rest, end, fuel, ret);
          if r.Ok? {
            KeptTrans(g, g2, r.value.0, self, self);
          }
        }
      }
    }
  }

  /** The state the loop of `copy_from` returns differs from `ret` exactly when
      one of the remaining arcs leads into `end`; it is then one of the new
      states. */
  lemma {:induction false} CopyItemsEnds(g: Graph, self: nat, items: seq<(Label, nat)>, end: nat, fuel: nat,
                                         ret: Option<nat>)
    requires WellFormed(g) && self < |g| && end < |g| && fuel > 0
    requires forall p | p in items :: p.1 < |g|
    requires ret.Some? ==> ret.value < |g|
    ensures var r := CopyItems(g, self, items, end, fuel, ret);
            r.Ok? ==> ((exists p | p in items :: p.1 == end) <==> r.value.1 != ret)
                      && (ret.Some? ==> r.value.1.Some?)
    decreases |items|
  {
    if items != [] {
      var st := CopyStep(g, self, items[0].0, items[0].1, end, fuel, ret);
      CopyItemsStep(g, self, items, end, fuel, ret);
      assert items[0] in items;
      assert forall p | p in items :: p == items[0] || p in items[1..];
      assert forall p | p in items[1..] :: p in items;
      if st.Ok? {
        var r := CopyItems(st.value.0, self, items[1..], end, fuel, st.value.1);
        CopyItemsEnds(st.value.0, self, items[1..], end, fuel, st.value.1);
        if r.Ok? {
          if items[0].1 == end {
            assert st.value.1 == Some(|g|);
          } else {
            assert (exists p | p in items :: p.1 == end) <==> exists p | p in items[1..] :: p.1 == end;
          }
        }
      }
    }
  }

  /** `copy_from(start, end)` returns a copy exactly when `start` has an arc
      into `end`. */
  lemma {:induction false} CopySpecEnds(g: Graph, self: nat, start: nat, end: nat, fuel: nat)
    requires WellFormed(g) && self < |g| && start < |g| && end < |g|
    ensures var r := CopySpec(g, self, start, end, fuel);
            r.Ok? ==> (r.value.1.Some? <==> exists e | e in g[start].edges :: e.1 == end)
  {
    if !(self == start && g[start].edges != []) && fuel != 0 {
      var items := DictItems(g[start].edges);
      CopyItemsEnds(g, self, items, end, fuel, None);
    }
  }

  /** `e` is `e0` followed by one arc per item, each with the item's label. */
  ghost predicate CopiedOnto(e0: seq<(Label, nat)>, items: seq<(Label, nat)>, e: seq<(Label, nat)>) {
    && |e| == |e0| + |items| && e[..|e0|] == e0
    && forall j | 0 <= j < |items| :: e[|e0| + j].0 == items[j].0
  }

  /** `t` is the target of the arc copied for the last item leading into `end`,
      the copied arcs starting at position `m` of `e`. */
  ghost predicate LastEndCopy(items: seq<(Label, nat)>, end: nat, e: seq<(Label, nat)>, m: nat, t: nat) {
    exists k | 0 <= k < |items| ::
      && items[k].1 == end && m + k < |e| && e[m + k].1 == t
      && forall j | k < j < |items| :: items[j].1 != end
  }

  /** The loop of `copy_from` appends one arc per item onto `self`, in order and
      with the item's label; a copy it returns in place of `ret` is the target
      of the arc copied for the last item that leads into `end`. */
  lemma {:induction false} CopyItemsLast(g: Graph, self: nat, items: seq<(Label, nat)>, end: nat, fuel: nat,
                                         ret: Option<nat>)
    requires WellFormed(g) && self < |g| && end < |g| && fuel > 0
    requires forall p | p in items :: p.1 < |g|
    requires ret.Some? ==> ret.value < |g|
    ensures var r := CopyItems(g, self, items, end, fuel, ret);
            r.Ok? ==> LastCopied(g, self, items, end, ret, r.value.0, r.value.1)
    decreases |items|, 1
  {
    if items != [] {
      CopyItemsStep(g, self, items, end, fuel, ret);
      if items[0].1 == end {
        CopyItemsLastEnd(g, self, items, end, fuel, ret);
      } else {
        CopyItemsLastInner(g, self, items, end, fuel, ret);
      }
    }
  }

  /** `CopyItemsLast` when the first item leads into `end`. */
  lemma {:induction false} CopyItemsLastEnd(g: Graph, self: nat, items: seq<(Label, nat)>, end: nat, fuel: nat,
                                            ret: Option<nat>)
    requires WellFormed(g) && self < |g| && end < |g| && fuel > 0 && items != [] && items[0].1 == end
    requires forall p | p in items :: p.1 < |g|
    requires ret.Some? ==> ret.value < |g|
    ensures var r := CopyItems(g, self, items, end, fuel, ret);
            r.Ok? ==> LastCopied(g, self, items, end, ret, r.value.0, r.value.1)
    decreases |items|, 0
  {
    var c := items[0].0;
    var g1 := ArcNew(g, self, c);
    ArcNewGrows(g, self, c);
    assert forall p | p in items[1..] :: p in items;
    CopyItemsStep(g, self, items, end, fuel, ret);
    assert CopyStep(g, self, c, items[0].1, end, fuel, ret) == Ok((g1, Some(|g|)));
    var r1 := CopyItems(g1, self, items[1..], end, fuel, Some(|g|));
    assert CopyItems(g, self, items, end, fuel, ret) == r1;
    CopyItemsLast(g1, self, items[1..], end, fuel, Some(|g|));
    CopyItemsEnds(g1, self, items[1..], end, fuel, Some(|g|));
    if r1.Ok? {
      LastCopiedEnd(g, self, items, end, ret, r1.value.0, r1.value.1);
    }
  }

  /** `CopyItemsLast` when the first item leads elsewhere. */
  lemma {:induction false} CopyItemsLastInner(g: Graph, self: nat, items: seq<(Label, nat)>, end: nat, fuel: nat,
                                              ret: Option<nat>)
    requires WellFormed(g) && self < |g| && end < |g| && fuel > 0 && items != [] && items[0].1 != end
    requires forall p | p in items :: p.1 < |g|
    requires ret.Some? ==> ret.value < |g|
    ensures var r := CopyItems(g, self, items, end, fuel, ret);
            r.Ok? ==> LastCopied(g, self, items, end, ret, r.value.0, r.value.1)
    decreases |items|, 0
  {
    var c := items[0].0;
    var g1 := ArcNew(g, self, c);
    ArcNewGrows(g, self, c);
    assert items[0] in items;
    assert forall p | p in items[1..] :: p in items;
    CopyItemsStep(g, self, items, end, fuel, ret);
    var sub := CopySpec(g1, |g|, items[0].1, end, fuel - 1);
    if sub.Ok? {
      var g2 := sub.value.0;
      CopyStepInner(g, self, c, items[0].1, end, fuel, ret, g2);
      var r1 := CopyItems(g2, self, items[1..], end, fuel, ret);
      assert CopyItems(g, self, items, end, fuel, ret) == r1;
      CopyItemsLast(g2, self, items[1..], end, fuel, ret);
      if r1.Ok? {
        LastCopiedInner(g, self, items, end, ret, g2, r1.value.0, r1.value.1);
      }
    }
  }

  /** A turn for an arc into a state other than `end`, whose nested copy
      finished with `g2`: the turn leaves `ret` as it was, and `self` with just
      the arc to the new state. */
  lemma {:induction false} CopyStepInner(g: Graph, self: nat, c: Label, node: nat, end: nat, fuel: nat, ret: Option<nat>, g2: Graph)
    requires WellFormed(g) && self < |g| && end < |g| && node < |g| && node != end && fuel > 0
    requires ret.Some? ==> ret.value < |g|
    requires WellFormed(ArcNew(g, self, c))
    requires var sub := CopySpec(ArcNew(g, self, c), |g|, node, end, fuel - 1); sub.Ok? && sub.value.0 == g2
    ensures CopyStep(g, self, c, node, end, fuel, ret) == Ok((g2, ret))
    ensures self < |g2| && g2[self].edges == g[self].edges + [(c, |g|)]
  {
    var g1 := ArcNew(g, self, c);
    CopySpecKept(g1, |g|, node, end, fuel - 1);
    assert g2[self] == g1[self];
  }

  /** What `CopyItemsLast` states of a finished loop ending in `(g', ret')`. */
  ghost predicate LastCopied(g: Graph, self: nat, items: seq<(Label, nat)>, end: nat, ret: Option<nat>,
                             g': Graph, ret': Option<nat>) {
    && self < |g| && self < |g'|
    && CopiedOnto(g[self].edges, items, g'[self].edges)
    && (ret' != ret ==> ret'.Some? && LastEndCopy(items, end, g'[self].edges, |g[self].edges|, ret'.value))
  }

  /** The loop's first item leads into `end`. */
  lemma {:induction false} LastCopiedEnd(g: Graph, self: nat, items: seq<(Label, nat)>, end: nat, ret: Option<nat>,
                      g': Graph, ret': Option<nat>)
    requires self < |g| && items != [] && items[0].1 == end
    requires LastCopied(ArcNew(g, self, items[0].0), self, items[1..], end, Some(|g|), g', ret')
    requires (exists p | p in items[1..] :: p.1 == end) <==> ret' != Some(|g|)
    ensures LastCopied(g, self, items, end, ret, g', ret')
  {
    var m := |g[self].edges|;
    var e := g'[self].edges;
    assert ArcNew(g, self, items[0].0)[self].edges == g[self].edges + [(items[0].0, |g|)];
    CopiedOntoCons(g[self].edges, (items[0].0, |g|), items, e);
    if ret' != ret {
      if ret' == Some(|g|) {
        LastIsFirst(items, end, e, m, |g|);
      } else {
        LastEndCopyCons(items, end, e, m, ret'.value);
      }
    }
  }

  /** The loop's first item leads elsewhere; its copy recursed into `g1`,
      leaving `self` with just the arc to the new state. */
  lemma {:induction false} LastCopiedInner(g: Graph, self: nat, items: seq<(Label, nat)>, end: nat, ret: Option<nat>,
                        g1: Graph, g': Graph, ret': Option<nat>)
    requires self < |g| && self < |g1| && items != [] && items[0].1 != end
    requires g1[self].edges == g[self].edges + [(items[0].0, |g|)]
    requires LastCopied(g1, self, items[1..], end, ret, g', ret')
    ensures LastCopied(g, self, items, end, ret, g', ret')
  {
    var m := |g[self].edges|;
    var e := g'[self].edges;
    CopiedOntoCons(g[self].edges, (items[0].0, |g|), items, e);
    if ret' != ret {
      LastEndCopyCons(items, end, e, m, ret'.value);
    }
  }

  lemma {:induction false} CopiedOntoCons(e0: seq<(Label, nat)>, a: (Label, nat), items: seq<(Label, nat)>, e: seq<(Label, nat)>)
    requires items != [] && a.0 == items[0].0 && CopiedOnto(e0 + [a], items[1..], e)
    ensures CopiedOnto(e0, items, e) && e[|e0|] == a
  {
    assert e[..|e0|] == e[..|e0| + 1][..|e0|];
    forall j | 0 <= j < |items| ensures e[|e0| + j].0 == items[j].0 {
      if j > 0 {
        assert e[|e0 + [a]| + (j - 1)].0 == items[1..][j - 1].0;
      } else {
        assert e[..|e0| + 1][|e0|] == a;
      }
    }
    assert e[..|e0| + 1][|e0|] == a;
  }

  lemma {:induction false} LastEndCopyCons(items: seq<(Label, nat)>, end: nat, e: seq<(Label, nat)>, m: nat, t: nat)
    requires items != [] && LastEndCopy(items[1..], end, e, m + 1, t)
    ensures LastEndCopy(items, end, e, m, t)
  {
    var k :| 0 <= k < |items[1..]| && items[1..][k].1 == end && m + 1 + k < |e| && e[m + 1 + k].1 == t
             && forall j | k < j < |items[1..]| :: items[1..][j].1 != end;
    assert items[k + 1].1 == end && e[m + (k + 1)].1 == t;
    forall j | k + 1 < j < |items| ensures items[j].1 != end {
      assert items[j] == items[1..][j - 1];
    }
  }

  lemma {:induction false} LastIsFirst(items: seq<(Label, nat)>, end: nat, e: seq<(Label, nat)>, m: nat, t: nat)
    requires items != [] && items[0].1 == end && m < |e| && e[m].1 == t
    requires !exists p | p in items[1..] :: p.1 == end
    ensures LastEndCopy(items, end, e, m, t)
  {
    forall j | 0 < j < |items| ensures items[j].1 != end {
      assert items[j] in items[1..];
    }
  }

  /** `copy_from(start, end)` copies each arc of `start` onto `self`, in
      dictionary order; what it returns is the copy made for the last of those
      arcs that leads into `end`. */
  lemma {:induction false} CopySpecLast(g: Graph, self: nat, start: nat, end: nat, fuel: nat)
    requires WellFormed(g) && self < |g| && start < |g| && end < |g|
    ensures var r := CopySpec(g, self, start, end, fuel);
            var items := DictItems(g[start].edges);
            r.Ok? ==> && CopiedOnto(g[self].edges, items, r.value.0[self].edges)
                      && (r.value.1.Some? ==> LastEndCopy(items, end, r.value.0[self].edges, |g[self].edges|, r.value.1.value))
  {
    if !(self == start && g[start].edges != []) && fuel != 0 {
      var items := DictItems(g[start].edges);
      CopyItemsLast(g, self, items, end, fuel, None);
    }
  }

  /** `sub_one_or_more` fails for want of an end copy exactly when the copy
      succeeds and no arc of `start` leads to `cur`, and fails with the copy's
      error exactly when the copy does not finish. */
  lemma {:induction false} OneOrMoreFails(g: Graph, start: nat, cur: nat)
    requires WellFormed(g) && start < |g| && cur < |g|
    ensures OneOrMore(g, start, cur) == Err(CopyHasNoEnd)
            <==> CopySpec(g, cur, start, cur, |g|).Ok? && forall e | e in g[start].edges :: e.1 != cur
    ensures OneOrMore(g, start, cur) == Err(CopyDiverges) <==> CopySpec(g, cur, start, cur, |g|).Err?
  {
    CopySpecEnds(g, cur, start, cur, |g|);
  }

  /** `sub_may_one(start, cur)`: the group may be skipped. */
  function MayOne(g: Graph, start: nat, cur: nat): (r: Graph)
    requires start < |g|
  {
    ArcG(g, start, Eps, cur)
  }

  /** `sub_any(start, cur)`: the group may be skipped or repeated. */
  function AnyTimes(g: Graph, start: nat, cur: nat): (r: Graph)
    requires start < |g| && cur < |g|
  {
    ArcG(MayOne(g, start, cur), cur, Eps, start)
  }

  /** `sub_one_or_more(start, cur)`: `cur` receives a copy of what leaves
      `start`, and the copy's end state gets an epsilon arc back to `cur`; with no
      such end state the call fails. The copy may nest as deep as the arena is
      large. */
  function OneOrMore(g: Graph, start: nat, cur: nat): (r: Result<Graph, BuildError>)
    requires WellFormed(g) && start < |g| && cur < |g|
  {
    match CopySpec(g, cur, start, cur, |g|)
    case Err(e) => Err(e)
    case Ok((g1, ret)) =>
      if ret.None? then Err(CopyHasNoEnd)
      else Ok(ArcG(g1, ret.value, Eps, cur))
  }

  /** The suffix `op` applied to the span from `start` to `cur`; any other
      character leaves the arena as it is. */
  function Suffix(g: Graph, op: char, start: nat, cur: nat): (r: Result<Graph, BuildError>)
    requires WellFormed(g) && start < |g| && cur < |g|
  {
    if op == '?' then Ok(MayOne(g, start, cur))
    else if op == '+' then OneOrMore(g, start, cur)
    else if op == '*' then Ok(AnyTimes(g, start, cur))
    else Ok(g)
  }

  /** The suffixes keep the arena well formed and only add states. */
  lemma {:induction false} SuffixOk(g: Graph, op: char, start: nat, cur: nat)
    requires WellFormed(g) && start < |g| && cur < |g|
    ensures Suffix(g, op, start, cur).Ok? ==>
              WellFormed(Suffix(g, op, start, cur).value) && |g| <= |Suffix(g, op, start, cur).value|
  {
    ArcGrows(g, start, Eps, cur);
    if op == '*' {
      ArcGrows(MayOne(g, start, cur), cur, Eps, start);
    } else if op == '+' {
      var c := CopySpec(g, cur, start, cur, |g|);
      if c.Ok? && c.value.1.Some? {
        ArcGrows(c.value.0, c.value.1.value, Eps, cur);
      }
    }
  }

  /** The variables of the loop of `make_states`: the arena, `cur`, `par_stack`,
      `in_bra_stack` (`None` for an open `(`, the end state of an open `[`) and
      the index `i`. */
  datatype Scan = Scan(g: Graph, cur: nat, pars: seq<nat>, bras: seq<Option<nat>>, i: nat)

  /** The number of open groups in the bracket stack. */
  function Opens(bras: seq<Option<nat>>): nat {
    if bras == [] then 0
    else Opens(bras[..|bras| - 1]) + (if bras[|bras| - 1].None? then 1 else 0)
  }

  /** Every state the scan refers to exists, and every open group on the bracket
      stack has its start state on the group stack. */
  ghost predicate ScanOk(s: Scan) {
    && WellFormed(s.g) && s.cur < |s.g|
    && (forall k | 0 <= k < |s.pars| :: s.pars[k] < |s.g|)
    && (forall k | 0 <= k < |s.bras| && s.bras[k].Some? :: s.bras[k].value < |s.g|)
    && Opens(s.bras) == |s.pars|
  }

  /** An ordinary character `c` (or an escaped one): inside a `[`, an arc from
      `cur` to the bracket's end state; otherwise an arc to a new state, which
      becomes `cur`. */
  function Literal(s: Scan, c: char, next: nat): (r: Scan)
    requires s.cur < |s.g|
  {
    if s.bras != [] && s.bras[|s.bras| - 1].Some? then
      s.(g := ArcG(s.g, s.cur, Chr(c), s.bras[|s.bras| - 1].value), i := next)
    else
      s.(g := ArcNew(s.g, s.cur, Chr(c)), cur := |s.g|, i := next)
  }

  /** `(`: push `cur` and an open-group marker. */
  function OpenGroup(s: Scan): (r: Scan) {
    s.(pars := s.pars + [s.cur], bras := s.bras + [None], i := s.i + 1)
  }

  /** `)`: close the innermost group, applying the character after it when that
      is a suffix; that character is skipped either way. */
  function CloseGroup(p: string, s: Scan): (r: Result<Scan, BuildError>)
    requires ScanOk(s) && s.i < |p|
  {
    if s.bras == [] || s.bras[|s.bras| - 1].Some? then Err(UnmatchedParen)
    else
      var start := s.pars[|s.pars| - 1];
      var g := if s.i + 1 < |p| then Suffix(s.g, p[s.i + 1], start, s.cur) else Ok(s.g);
      if g.Err? then Err(g.error)
      else Ok(Scan(g.value, s.cur, s.pars[..|s.pars| - 1], s.bras[..|s.bras| - 1], s.i + 2))
  }

  /** `[`: a new state, the end state of the bracket, is pushed. */
  function OpenBracket(s: Scan): (r: Scan) {
    s.(g := s.g + [Blank], bras := s.bras + [Some(|s.g|)], i := s.i + 1)
  }

  /** `]`: pop the bracket's end state; only when a suffix follows is it joined
      to `cur` and made the new `cur`. The character after `]` is skipped. */
  function CloseBracket(p: string, s: Scan): (r: Result<Scan, BuildError>)
    requires ScanOk(s) && s.i < |p|
  {
    if s.bras == [] || s.bras[|s.bras| - 1].None? then Err(UnmatchedBracket)
    else
      var end := s.bras[|s.bras| - 1].value;
      var bras := s.bras[..|s.bras| - 1];
      if s.i + 1 < |p| && p[s.i + 1] in "?+*" then
        var g := Suffix(s.g, p[s.i + 1], s.cur, end);
        if g.Err? then Err(g.error)
        else Ok(Scan(g.value, end, s.pars, bras, s.i + 2))
      else Ok(s.(bras := bras, i := s.i + 2))
  }

  /** `\\`: the next character must exist and be one of `Escapable`; it is then
      an ordinary character. */
  function Escape(p: string, s: Scan): (r: Result<Scan, BuildError>)
    requires s.cur < |s.g| && s.i < |p|
  {
    if s.i + 1 == |p| then Err(EscapeAtEnd)
    else if p[s.i + 1] !in Escapable then Err(InvalidEscape)
    else Ok(Literal(s, p[s.i + 1], s.i + 2))
  }

  /** One turn of the loop of `make_states`, at the character `p[s.i]`. */
  function Step(p: string, s: Scan): (r: Result<Scan, BuildError>)
    requires ScanOk(s) && s.i < |p|
  {
    var c := p[s.i];
    if c == '(' then Ok(OpenGroup(s))
    else if c == ')' then CloseGroup(p, s)
    else if c == '[' then Ok(OpenBracket(s))
    else if c == ']' then CloseBracket(p, s)
    else if c == '\\' then Escape(p, s)
    else Ok(Literal(s, c, s.i + 1))
  }

  lemma {:induction false} LiteralOk(s: Scan, c: char, next: nat)
    requires ScanOk(s)
    ensures ScanOk(Literal(s, c, next)) && |s.g| <= |Literal(s, c, next).g|
  {
    if s.bras != [] && s.bras[|s.bras| - 1].Some? {
      ArcGrows(s.g, s.cur, Chr(c), s.bras[|s.bras| - 1].value);
    } else {
      ArcNewGrows(s.g, s.cur, Chr(c));
    }
  }

  lemma {:induction false} OpenOk(s: Scan)
    requires ScanOk(s)
    ensures ScanOk(OpenGroup(s)) && ScanOk(OpenBracket(s))
  {
    NewGrows(s.g);
    assert (s.bras + [None])[..|s.bras|] == s.bras;
    assert (s.bras + [Some(|s.g|)])[..|s.bras|] == s.bras;
  }

  lemma {:induction false} CloseGroupOk(p: string, s: Scan)
    requires ScanOk(s) && s.i < |p|
    ensures CloseGroup(p, s).Ok? ==> ScanOk(CloseGroup(p, s).value) && |s.g| <= |CloseGroup(p, s).value.g|
  {
    if s.bras != [] && s.bras[|s.bras| - 1].None? && s.i + 1 < |p| {
      SuffixOk(s.g, p[s.i + 1], s.pars[|s.pars| - 1], s.cur);
    }
  }

  /** Popping a bracket's end state keeps a scan well formed. */
  lemma {:induction false} PopBracketOk(s: Scan, g: Graph, cur: nat, i: nat)
    requires ScanOk(s) && s.bras != [] && s.bras[|s.bras| - 1].Some?
    requires WellFormed(g) && |s.g| <= |g| && cur < |g|
    ensures ScanOk(Scan(g, cur, s.pars, s.bras[..|s.bras| - 1], i))
  {
    var bras := s.bras[..|s.bras| - 1];
    assert Opens(s.bras) == Opens(bras);
    assert forall k | 0 <= k < |bras| :: bras[k] == s.bras[k];
  }

  lemma {:induction false} CloseBracketOk(p: string, s: Scan)
    requires ScanOk(s) && s.i < |p|
    ensures CloseBracket(p, s).Ok? ==> ScanOk(CloseBracket(p, s).value) && |s.g| <= |CloseBracket(p, s).value.g|
  {
    if s.bras != [] && s.bras[|s.bras| - 1].Some? {
      if s.i + 1 < |p| && p[s.i + 1] in "?+*" {
        CloseBracketSuffixOk(p, s);
        BracketSuffixed(p, s, Suffix(s.g, p[s.i + 1], s.cur, s.bras[|s.bras| - 1].value));
      } else {
        PopBracketOk(s, s.g, s.cur, s.i + 2);
        assert CloseBracket(p, s) == Ok(Scan(s.g, s.cur, s.pars, s.bras[..|s.bras| - 1], s.i + 2));
      }
    }
  }

  lemma {:induction false} CloseBracketSuffixOk(p: string, s: Scan)
    requires ScanOk(s) && s.i + 1 < |p| && p[s.i + 1] in "?+*"
    requires s.bras != [] && s.bras[|s.bras| - 1].Some?
    ensures var end := s.bras[|s.bras| - 1].value;
            var g := Suffix(s.g, p[s.i + 1], s.cur, end);
            g.Ok? ==> ScanOk(Scan(g.value, end, s.pars, s.bras[..|s.bras| - 1], s.i + 2)) && |s.g| <= |g.value|
  {
    var end := s.bras[|s.bras| - 1].value;
    SuffixOk(s.g, p[s.i + 1], s.cur, end);
    var g := Suffix(s.g, p[s.i + 1], s.cur, end);
    if g.Ok? {
      PopBracketOk(s, g.value, end, s.i + 2);
    }
  }

  /** Every turn of the loop keeps the scan's states in the arena, only adds
      states, and moves `i` forward. */
  lemma {:induction false} StepOk(p: string, s: Scan)
    requires ScanOk(s) && s.i < |p|
    ensures Step(p, s).Ok? ==> ScanOk(Step(p, s).value) && |s.g| <= |Step(p, s).value.g| && s.i < Step(p, s).value.i
  {
    var c := p[s.i];
    if c == '(' || c == '[' {
      OpenOk(s);
    } else if c == ')' {
      CloseGroupOk(p, s);
    } else if c == ']' {
      CloseBracketOk(p, s);
    } else if c == '\\' {
      if s.i + 1 < |p| {
        LiteralOk(s, p[s.i + 1], s.i + 2);
      }
    } else {
      LiteralOk(s, c, s.i + 1);
    }
  }

  /** The rest of the loop of `make_states` from `s`: the arena and `cur` at the
      end, or the exception raised on the way. Groups and brackets left open at
      the end are not an error. */
  function Run(p: string, s: Scan): (r: Result<(Graph, nat), BuildError>)
    requires ScanOk(s)
    decreases |p| - s.i
  {
    if s.i >= |p| then Ok((s.g, s.cur))
    else
      match Step(p, s)
      case Err(e) => Err(e)
      case Ok(s') => StepOk(p, s); Run(p, s')
  }

  lemma {:induction false} RunOk(p: string, s: Scan)
    requires ScanOk(s)
    ensures Run(p, s).Ok? ==> WellFormed(Run(p, s).value.0) && |s.g| <= |Run(p, s).value.0|
                              && Run(p, s).value.1 < |Run(p, s).value.0|
    decreases |p| - s.i
  {
    if s.i < |p| {
      StepOk(p, s);
      if Step(p, s).Ok? {
        RunOk(p, Step(p, s).value);
      }
    }
  }

  /** What `Token(name, p)` leaves behind: the arena, the `root` of the pattern
      and the state marked final. */
  datatype Built = Built(g: Graph, root: nat, last: nat)

  /** The initial loop state for a pattern built on top of the arena `g0`: the
      new state `root` is `cur` and both stacks are empty. */
  function Start(g0: Graph): (s: Scan) {
    Scan(g0 + [Blank], |g0|, [], [], 0)
  }

  lemma {:induction false} StartOk(g0: Graph)
    requires WellFormed(g0)
    ensures ScanOk(Start(g0))
  {
    NewGrows(g0);
  }

  /** `make_states` on pattern `p`, with `g0` the states created before it. */
  function BuildNfa(g0: Graph, p: string): (r: Result<Built, BuildError>)
    requires WellFormed(g0)
  {
    StartOk(g0);
    match Run(p, Start(g0))
    case Err(e) => Err(e)
    case Ok((g, cur)) =>
      RunOk(p, Start(g0));
      Ok(Built(g[cur := g[cur].(isFinal := true)], |g0|, cur))
  }

  /** The pattern's states form a well-formed arena on top of `g0`, with the new
      `root` and a final state. */
  lemma {:induction false} BuildNfaOk(g0: Graph, p: string)
    requires WellFormed(g0)
    ensures var r := BuildNfa(g0, p);
            r.Ok? ==> WellFormed(r.value.g) && r.value.root == |g0| < |r.value.g|
                      && r.value.last < |r.value.g| && r.value.g[r.value.last].isFinal
  {
    StartOk(g0);
    RunOk(p, Start(g0));
    var r := Run(p, Start(g0));
    if r.Ok? {
      var g := r.value.0;
      var g' := g[r.value.1 := g[r.value.1].(isFinal := true)];
      assert forall x | 0 <= x < |g'| :: g'[x].edges == g[x].edges;
    }
  }

  /** `Token.sub_may_one(start, cur)`. */
  method SubMayOne(arena: StateGraph, start: nat, cur: nat)
    requires WellFormed(arena.states) && start < |arena.states| && cur < |arena.states|
    modifies arena
    ensures arena.states == MayOne(old(arena.states), start, cur)
  {
    var _ := arena.Arc(start, Eps, cur);
  }

  /** `Token.sub_any(start, cur)`. */
  method SubAny(arena: StateGraph, start: nat, cur: nat)
    requires WellFormed(arena.states) && start < |arena.states| && cur < |arena.states|
    modifies arena
    ensures arena.states == AnyTimes(old(arena.states), start, cur)
  {
    var _ := arena.Arc(start, Eps, cur);
    var _ := arena.Arc(cur, Eps, start);
  }

  /** `Token.sub_one_or_more(start, cur)`; `Some` error when it raises. */
  method SubOneOrMore(arena: StateGraph, start: nat, cur: nat) returns (err: Option<BuildError>)
    requires WellFormed(arena.states) && start < |arena.states| && cur < |arena.states|
    modifies arena
    ensures OneOrMore(old(arena.states), start, cur) == if err.Some? then Err(err.value) else Ok(arena.states)
  {
    var newEnd := arena.CopyFrom(cur, start, cur, |arena.states|);
    if newEnd.Err? {
      return Some(newEnd.error);
    }
    if newEnd.value.None? {
      return Some(CopyHasNoEnd);
    }
    var _ := arena.Arc(newEnd.value.value, Eps, cur);
    err := None;
  }

  /** The suffix character after `)` or `]`. */
  method ApplySuffix(arena: StateGraph, op: char, start: nat, cur: nat) returns (err: Option<BuildError>)
    requires WellFormed(arena.states) && start < |arena.states| && cur < |arena.states|
    modifies arena
    ensures Suffix(old(arena.states), op, start, cur) == if err.Some? then Err(err.value) else Ok(arena.states)
  {
    err := None;
    if op == '?' {
      SubMayOne(arena, start, cur);
    } else if op == '+' {
      err := SubOneOrMore(arena, start, cur);
    } else if op == '*' {
      SubAny(arena, start, cur);
    }
  }

  /** The loop variables after a turn, or the exception raised. */
  function Resume(g: Graph, r: Result<(nat, seq<nat>, seq<Option<nat>>, nat), BuildError>): Result<Scan, BuildError> {
    if r.Err? then Err(r.error) else Ok(Scan(g, r.value.0, r.value.1, r.value.2, r.value.3))
  }

  /** An ordinary character `c`; returns the new `cur`. */
  method LiteralAt(arena: StateGraph, c: char, cur: nat, ghost pars: seq<nat>, bras: seq<Option<nat>>,
                   ghost i: nat, ghost next: nat) returns (cur': nat)
    requires ScanOk(Scan(arena.states, cur, pars, bras, i))
    modifies arena
    ensures Literal(Scan(old(arena.states), cur, pars, bras, i), c, next) == Scan(arena.states, cur', pars, bras, next)
  {
    if |bras| > 0 && bras[|bras| - 1].Some? {
      var _ := arena.Arc(cur, Chr(c), bras[|bras| - 1].value);
      cur' := cur;
    } else {
      var n := arena.NewState();
      cur' := arena.Arc(cur, Chr(c), n);
    }
  }

  /** The branch of the loop for `)`. */
  method CloseGroupAt(arena: StateGraph, p: string, cur: nat, pars: seq<nat>, bras: seq<Option<nat>>, i: nat)
    returns (r: Result<(nat, seq<nat>, seq<Option<nat>>, nat), BuildError>)
    requires ScanOk(Scan(arena.states, cur, pars, bras, i)) && i < |p|
    modifies arena
    ensures CloseGroup(p, Scan(old(arena.states), cur, pars, bras, i)) == Resume(arena.states, r)
  {
    ghost var g0 := arena.states;
    if |bras| == 0 || bras[|bras| - 1].Some? {
      return Err(UnmatchedParen);
    }
    assert |pars| > 0 by {
      assert Opens(bras) == Opens(bras[..|bras| - 1]) + 1;
    }
    var start := pars[|pars| - 1];
    if i + 1 < |p| {
      var err := ApplySuffix(arena, p[i + 1], start, cur);
      if err.Some? {
        return Err(err.value);
      }
      assert Suffix(g0, p[i + 1], start, cur) == Ok(arena.states);
    }
    var next: nat := i + 2;
    r := Ok((cur, pars[..|pars| - 1], bras[..|bras| - 1], next));
  }

  /** The branch of the loop for `]`. */
  method CloseBracketAt(arena: StateGraph, p: string, cur: nat, pars: seq<nat>, bras: seq<Option<nat>>, i: nat)
    returns (r: Result<(nat, seq<nat>, seq<Option<nat>>, nat), BuildError>)
    requires ScanOk(Scan(arena.states, cur, pars, bras, i)) && i < |p|
    modifies arena
    ensures CloseBracket(p, Scan(old(arena.states), cur, pars, bras, i)) == Resume(arena.states, r)
  {
    ghost var s := Scan(arena.states, cur, pars, bras, i);
    if |bras| == 0 || bras[|bras| - 1].None? {
      return Err(UnmatchedBracket);
    }
    var end := bras[|bras| - 1].value;
    var rest: seq<Option<nat>> := bras[..|bras| - 1];
    var next: nat := i + 2;
    if i + 1 < |p| && p[i + 1] in "?+*" {
      assert end < |s.g|;
      var err := ApplySuffix(arena, p[i + 1], cur, end);
      BracketSuffixed(p, s, Suffix(s.g, p[i + 1], cur, end));
      if err.Some? {
        return Err(err.value);
      }
      r := Ok((end, pars, rest, next));
    } else {
      r := Ok((cur, pars, rest, next));
    }
  }

  lemma {:induction false} BracketSuffixed(p: string, s: Scan, g: Result<Graph, BuildError>)
    requires ScanOk(s) && s.i + 1 < |p| && p[s.i + 1] in "?+*"
    requires s.bras != [] && s.bras[|s.bras| - 1].Some?
    requires g == Suffix(s.g, p[s.i + 1], s.cur, s.bras[|s.bras| - 1].value)
    ensures CloseBracket(p, s) == if g.Err? then Err(g.error)
              else Ok(Scan(g.value, s.bras[|s.bras| - 1].value, s.pars, s.bras[..|s.bras| - 1], s.i + 2))
  {
  }

  /** One turn of the loop of `make_states`. */
  method ScanStep(arena: StateGraph, p: string, cur: nat, pars: seq<nat>, bras: seq<Option<nat>>, i: nat)
    returns (r: Result<(nat, seq<nat>, seq<Option<nat>>, nat), BuildError>)
    requires ScanOk(Scan(arena.states, cur, pars, bras, i)) && i < |p|
    modifies arena
    ensures Step(p, Scan(old(arena.states), cur, pars, bras, i)) == Resume(arena.states, r)
  {
    var c := p[i];
    if c == '(' {
      r := Ok((cur, pars + [cur], bras + [None], i + 1));
    } else if c == ')' {
      r := CloseGroupAt(arena, p, cur, pars, bras, i);
    } else if c == '[' {
      var n := arena.NewState();
      r := Ok((cur, pars, bras + [Some(n)], i + 1));
    } else if c == ']' {
      r := CloseBracketAt(arena, p, cur, pars, bras, i);
    } else if c == '\\' {
      if i + 1 == |p| {
        r := Err(EscapeAtEnd);
      } else if p[i + 1] !in Escapable {
        r := Err(InvalidEscape);
      } else {
        var cur' := LiteralAt(arena, p[i + 1], cur, pars, bras, i, i + 2);
        r := Ok((cur', pars, bras, i + 2));
      }
    } else {
      var cur' := LiteralAt(arena, c, cur, pars, bras, i, i + 1);
      r := Ok((cur', pars, bras, i + 1));
    }
  }

  /** `Token(name, p)`: runs `make_states` on the arena and returns the pattern's
      `root` and the state it marked final. */
  method MakeStates(arena: StateGraph, p: string) returns (r: Result<(nat, nat), BuildError>)
    requires WellFormed(arena.states)
    modifies arena
    ensures BuildNfa(old(arena.states), p) == if r.Err? then Err(r.error) else Ok(Built(arena.states, r.value.0, r.value.1))
  {
    ghost var s0 := Start(arena.states);
    StartOk(arena.states);
    var root := arena.NewState();
    var cur, pars, bras, i := root, [], [], 0;
    while i < |p|
      invariant ScanOk(Scan(arena.states, cur, pars, bras, i))
      invariant Run(p, Scan(arena.states, cur, pars, bras, i)) == Run(p, s0)
      decreases |p| - i
    {
      StepOk(p, Scan(arena.states, cur, pars, bras, i));
      var step := ScanStep(arena, p, cur, pars, bras, i);
      if step.Err? {
        return Err(step.error);
      }
      cur, pars, bras, i := step.value.0, step.value.1, step.value.2, step.value.3;
    }
    arena.MarkFinal(cur);
    r := Ok((root, cur));
  }

  /** Every state the scan refers to was created for the pattern: its id is at
      least `base`. */
  ghost predicate Above(base: nat, s: Scan) {
    && base <= s.cur
    && (forall k | 0 <= k < |s.pars| :: base <= s.pars[k])
    && (forall k | 0 <= k < |s.bras| && s.bras[k].Some? :: base <= s.bras[k].value)
  }

  /** `g` has the states of `g0` as they were, followed by states that are
      neither final nor carry data. */
  ghost predicate Extends(g0: Graph, g: Graph) {
    && |g0| <= |g|
    && (forall x | 0 <= x < |g0| :: g[x] == g0[x])
    && (forall x | |g0| <= x < |g| :: !g[x].isFinal && g[x].data == None)
  }

  lemma {:induction false} KeptExtends(g0: Graph, g: Graph, g': Graph, self: nat)
    requires Extends(g0, g) && Kept(g, g', self) && |g0| <= self
    ensures Extends(g0, g')
  {
  }

  lemma {:induction false} ArcKept(g: Graph, from: nat, l: Label, to: nat)
    requires from < |g|
    ensures Kept(g, ArcG(g, from, l, to), from)
  {
  }

  lemma {:induction false} SuffixExtends(g0: Graph, g: Graph, op: char, start: nat, cur: nat)
    requires WellFormed(g) && start < |g| && cur < |g| && |g0| <= start && |g0| <= cur && Extends(g0, g)
    ensures Suffix(g, op, start, cur).Ok? ==> Extends(g0, Suffix(g, op, start, cur).value)
  {
    ArcKept(g, start, Eps, cur);
    if op == '?' {
      KeptExtends(g0, g, MayOne(g, start, cur), start);
    } else if op == '*' {
      var g1 := MayOne(g, start, cur);
      KeptExtends(g0, g, g1, start);
      ArcKept(g1, cur, Eps, start);
      KeptExtends(g0, g1, AnyTimes(g, start, cur), cur);
    } else if op == '+' {
      CopySpecKept(g, cur, start, cur, |g|);
      var c := CopySpec(g, cur, start, cur, |g|);
      if c.Ok? && c.value.1.Some? {
        KeptExtends(g0, g, c.value.0, cur);
        ArcKept(c.value.0, c.value.1.value, Eps, cur);
        KeptExtends(g0, c.value.0, ArcG(c.value.0, c.value.1.value, Eps, cur), c.value.1.value);
      }
    }
  }

  /** The scan `s` only refers to and only changed states made since `g0`. */
  ghost predicate Grown(g0: Graph, s: Scan) {
    Extends(g0, s.g) && Above(|g0|, s)
  }

  lemma {:induction false} LiteralGrown(g0: Graph, s: Scan, c: char, next: nat)
    requires ScanOk(s) && Grown(g0, s)
    ensures Grown(g0, Literal(s, c, next))
  {
    if s.bras != [] && s.bras[|s.bras| - 1].Some? {
      ArcKept(s.g, s.cur, Chr(c), s.bras[|s.bras| - 1].value);
    } else {
      ArcNewKept(s.g, s.cur, Chr(c));
    }
  }

  lemma {:induction false} CloseGroupGrown(g0: Graph, p: string, s: Scan)
    requires ScanOk(s) && s.i < |p| && Grown(g0, s)
    ensures CloseGroup(p, s).Ok? ==> Grown(g0, CloseGroup(p, s).value)
  {
    if s.bras != [] && s.bras[|s.bras| - 1].None? {
      var start := s.pars[|s.pars| - 1];
      var g := if s.i + 1 < |p| then Suffix(s.g, p[s.i + 1], start, s.cur) else Ok(s.g);
      if s.i + 1 < |p| {
        SuffixExtends(g0, s.g, p[s.i + 1], start, s.cur);
      }
      if g.Ok? {
        PopGroupGrown(g0, s, g.value, s.i + 2);
      }
    }
  }

  /** Leaving a group keeps every open group and bracket above `g0`. */
  lemma {:induction false} PopGroupGrown(g0: Graph, s: Scan, g: Graph, i: nat)
    requires Grown(g0, s) && s.pars != [] && s.bras != [] && Extends(g0, g)
    ensures Grown(g0, Scan(g, s.cur, s.pars[..|s.pars| - 1], s.bras[..|s.bras| - 1], i))
  {
    var pars := s.pars[..|s.pars| - 1];
    assert forall k | 0 <= k < |pars| :: pars[k] == s.pars[k];
    var bras := s.bras[..|s.bras| - 1];
    assert forall k | 0 <= k < |bras| :: bras[k] == s.bras[k];
  }

  lemma {:induction false} CloseBracketGrown(g0: Graph, p: string, s: Scan)
    requires ScanOk(s) && s.i < |p| && Grown(g0, s)
    ensures CloseBracket(p, s).Ok? ==> Grown(g0, CloseBracket(p, s).value)
  {
    if s.bras != [] && s.bras[|s.bras| - 1].Some? {
      var end := s.bras[|s.bras| - 1].value;
      var bras := s.bras[..|s.bras| - 1];
      assert Above(|g0|, s.(bras := bras)) by {
        assert forall k | 0 <= k < |bras| :: bras[k] == s.bras[k];
      }
      if s.i + 1 < |p| && p[s.i + 1] in "?+*" {
        var g := Suffix(s.g, p[s.i + 1], s.cur, end);
        SuffixExtends(g0, s.g, p[s.i + 1], s.cur, end);
        BracketSuffixed(p, s, g);
        if g.Ok? {
          assert Grown(g0, Scan(g.value, end, s.pars, bras, s.i + 2));
        }
      } else {
        assert CloseBracket(p, s) == Ok(s.(bras := bras, i := s.i + 2));
      }
    }
  }

  lemma {:induction false} OpenGrown(g0: Graph, p: string, s: Scan)
    requires ScanOk(s) && s.i < |p| && Grown(g0, s) && (p[s.i] == '(' || p[s.i] == '[')
    ensures Step(p, s).Ok? && Grown(g0, Step(p, s).value)
  {
    if p[s.i] == '(' {
      assert Step(p, s) == Ok(OpenGroup(s));
    } else {
      var r := OpenBracket(s);
      assert Step(p, s) == Ok(r);
      assert forall x | |g0| <= x < |r.g| :: x < |s.g| || r.g[x] == Blank;
    }
  }

  lemma {:induction false} CharGrown(g0: Graph, p: string, s: Scan)
    requires ScanOk(s) && s.i < |p| && Grown(g0, s) && p[s.i] !in "()[]"
    ensures Step(p, s).Ok? ==> Grown(g0, Step(p, s).value)
  {
    var c := p[s.i];
    if c == '\\' {
      if s.i + 1 < |p| {
        LiteralGrown(g0, s, p[s.i + 1], s.i + 2);
      }
    } else {
      LiteralGrown(g0, s, c, s.i + 1);
    }
  }

  lemma {:induction false} StepGrown(g0: Graph, p: string, s: Scan)
    requires ScanOk(s) && s.i < |p| && Grown(g0, s)
    ensures Step(p, s).Ok? ==> Grown(g0, Step(p, s).value)
  {
    if p[s.i] == ')' {
      CloseGroupGrown(g0, p, s);
      assert Step(p, s) == CloseGroup(p, s);
    } else if p[s.i] == ']' {
      CloseBracketGrown(g0, p, s);
      assert Step(p, s) == CloseBracket(p, s);
    } else if p[s.i] == '(' || p[s.i] == '[' {
      OpenGrown(g0, p, s);
    } else {
      CharGrown(g0, p, s);
    }
  }

  lemma {:induction false} RunGrown(g0: Graph, p: string, s: Scan)
    requires ScanOk(s) && Grown(g0, s)
    ensures Run(p, s).Ok? ==> Extends(g0, Run(p, s).value.0) && |g0| <= Run(p, s).value.1
    decreases |p| - s.i
  {
    if s.i < |p| {
      StepOk(p, s);
      StepGrown(g0, p, s);
      if Step(p, s).Ok? {
        RunGrown(g0, p, Step(p, s).value);
      }
    }
  }

  /** `make_states` leaves the states made before it as they were, and of the
      states it makes only the last `cur` is final; none carries data. */
  lemma {:induction false} OnlyLastFinal(g0: Graph, p: string)
    requires WellFormed(g0)
    ensures var r := BuildNfa(g0, p);
            r.Ok? ==> && |g0| <= r.value.last < |r.value.g|
                      && (forall x | 0 <= x < |g0| :: r.value.g[x] == g0[x])
                      && (forall x | |g0| <= x < |r.value.g| :: (r.value.g[x].isFinal <==> x == r.value.last)
                                                               && r.value.g[x].data == None)
  {
    StartOk(g0);
    RunOk(p, Start(g0));
    RunGrown(g0, p, Start(g0));
  }

  /** No character of `p` opens or closes a group or bracket or escapes: each one
      is an ordinary character. */
  predicate Plain(p: string) {
    forall k | 0 <= k < |p| :: Ordinary(p[k])
  }

  predicate Ordinary(c: char) {
    c != '(' && c != ')' && c != '[' && c != ']' && c != '\\'
  }

  lemma {:induction false} RunStep(q: string, s: Scan, s': Scan)
    requires ScanOk(s) && s.i < |q| && Step(q, s) == Ok(s')
    ensures ScanOk(s') && Run(q, s) == Run(q, s')
  {
    StepOk(q, s);
  }

  lemma {:induction false} RunDone(q: string, s: Scan)
    requires ScanOk(s) && |q| <= s.i
    ensures Run(q, s) == Ok((s.g, s.cur))
  {
  }

  /** An ordinary character is scanned by `Literal`. */
  lemma {:induction false} OrdinaryStep(q: string, s: Scan)
    requires ScanOk(s) && s.i < |q| && Ordinary(q[s.i])
    ensures Step(q, s) == Ok(Literal(s, q[s.i], s.i + 1))
  {
  }

  /** The arena `k` characters into a plain pattern `p`: after `g0`, a chain of
      `k` single-character arcs from the root `|g0|`, none of its states final. */
  function Chain(g0: Graph, p: string, k: nat): (r: Graph)
    requires k <= |p|
    ensures |r| == |g0| + k + 1
  {
    g0 + seq(k + 1, j requires 0 <= j <= k => NState(if j < k then [(Chr(p[j]), |g0| + j + 1)] else [], false, None))
  }

  lemma {:induction false} ChainZero(g0: Graph, p: string)
    ensures Chain(g0, p, 0) == g0 + [Blank]
  {
    var c := Chain(g0, p, 0);
    assert c[|g0|] == Blank;
    assert forall x | 0 <= x < |c| :: c[x] == (g0 + [Blank])[x];
  }

  lemma {:induction false} ChainStep(g0: Graph, p: string, k: nat)
    requires k < |p|
    ensures ArcNew(Chain(g0, p, k), |g0| + k, Chr(p[k])) == Chain(g0, p, k + 1)
  {
    var a := ArcNew(Chain(g0, p, k), |g0| + k, Chr(p[k]));
    var b := Chain(g0, p, k + 1);
    forall x | 0 <= x < |b| ensures a[x] == b[x] {
      if x == |g0| + k {
        assert a[x].edges == [] + [(Chr(p[k]), |g0| + k + 1)];
      }
    }
  }

  /** Scanning the plain part `p` of the pattern `q`, which starts at `off`,
      outside any bracket, extends the chain one arc per character; `s` is the
      scan `k` characters in. */
  lemma {:induction false} ChainRun(q: string, off: nat, p: string, g0: Graph, pars: seq<nat>, bras: seq<Option<nat>>,
                                    k: nat, s: Scan, e: Scan)
    requires off + |p| <= |q| && q[off..off + |p|] == p && Plain(p) && k <= |p|
    requires bras == [] || bras[|bras| - 1].None?
    requires s == Scan(Chain(g0, p, k), |g0| + k, pars, bras, off + k) && ScanOk(s)
    requires e == Scan(Chain(g0, p, |p|), |g0| + |p|, pars, bras, off + |p|)
    ensures ScanOk(e) && Run(q, s) == Run(q, e)
    decreases |p| - k
  {
    if k == |p| {
      assert s == e;
    } else {
      assert q[off + k] == p[k];
      OrdinaryStep(q, s);
      ChainStep(g0, p, k);
      var s' := Scan(Chain(g0, p, k + 1), |g0| + (k + 1), pars, bras, off + (k + 1));
      assert Literal(s, p[k], off + k + 1) == s';
      RunStep(q, s, s');
      ChainRun(q, off, p, g0, pars, bras, k + 1, s', e);
    }
  }

  /** A pattern starting with the plain part `p` has scanned it into a chain. */
  lemma {:induction false} PlainPrefix(g0: Graph, p: string, t: string)
    requires WellFormed(g0) && Plain(p)
    ensures ScanOk(Scan(Chain(g0, p, |p|), |g0| + |p|, [], [], |p|))
    ensures Run(p + t, Start(g0)) == Run(p + t, Scan(Chain(g0, p, |p|), |g0| + |p|, [], [], |p|))
  {
    ChainZero(g0, p);
    assert (p + t)[0..|p|] == p;
    ChainRun(p + t, 0, p, g0, [], [], 0, Start(g0), Scan(Chain(g0, p, |p|), |g0| + |p|, [], [], |p|));
  }

  /** A pattern without metacharacters builds a chain: one arc per character from
      the root, each to the next new state, and only the last state, which has no
      arcs, is final. */
  lemma {:induction false} LinearChain(g0: Graph, p: string)
    requires WellFormed(g0) && Plain(p)
    ensures var r := BuildNfa(g0, p);
            && r.Ok? && r.value.root == |g0| && r.value.last == |g0| + |p|
            && |r.value.g| == |g0| + |p| + 1 && r.value.g[..|g0|] == g0
            && (forall k | 0 <= k < |p| :: r.value.g[|g0| + k] == NState([(Chr(p[k]), |g0| + k + 1)], false, None))
            && r.value.g[|g0| + |p|] == NState([], true, None)
  {
    var c := PlainBuild(g0, p);
    var g := c[|g0| + |p| := c[|g0| + |p|].(isFinal := true)];
    forall k | 0 <= k < |p|
      ensures g[|g0| + k] == NState([(Chr(p[k]), |g0| + k + 1)], false, None)
    {
      assert g[|g0| + k] == c[|g0| + k];
    }
    assert g[..|g0|] == c[..|g0|];
  }

  /** A pattern without metacharacters leaves the scan at the end of its chain. */
  lemma {:induction false} PlainBuild(g0: Graph, p: string) returns (c: Graph)
    requires WellFormed(g0) && Plain(p)
    ensures c == Chain(g0, p, |p|)
    ensures BuildNfa(g0, p) == Ok(Built(c[|g0| + |p| := c[|g0| + |p|].(isFinal := true)], |g0|, |g0| + |p|))
  {
    PlainPrefix(g0, p, "");
    assert p + "" == p;
    RunDone(p, Scan(Chain(g0, p, |p|), |g0| + |p|, [], [], |p|));
    c := Chain(g0, p, |p|);
  }

  /** Two patterns whose scans end alike build the same NFA. */
  lemma {:induction false} SameRun(g0: Graph, p: string, q: string)
    requires WellFormed(g0) && Run(p, Start(g0)) == Run(q, Start(g0))
    ensures BuildNfa(g0, p) == BuildNfa(g0, q)
  {
  }

  /** `(` opens a group. */
  lemma {:induction false} OpenStep(q: string, s: Scan)
    requires ScanOk(s) && s.i < |q| && q[s.i] == '('
    ensures Step(q, s) == Ok(OpenGroup(s))
  {
  }

  /** What may follow a plain pattern in a group that ends the pattern: the
      `)` alone, or `)` and one character that is not a suffix. */
  predicate Closer(t: string) {
    t == ")" || (|t| == 2 && t[0] == ')' && t[1] != '?' && t[1] != '+' && t[1] != '*')
  }

  /** `)` with no suffix after it, one of the last two characters of the
      pattern, closes the group and changes no state. */
  lemma {:induction false} CloseNoSuffix(q: string, s: Scan)
    requires ScanOk(s) && s.i < |q| <= s.i + 2 && Closer(q[s.i..])
    requires s.bras != [] && s.bras[|s.bras| - 1].None?
    ensures Step(q, s) == Ok(s.(pars := s.pars[..|s.pars| - 1], bras := s.bras[..|s.bras| - 1], i := s.i + 2))
  {
    assert q[s.i] == q[s.i..][0];
    if s.i + 1 < |q| {
      assert q[s.i + 1] == q[s.i..][1];
    }
  }

  /** A plain pattern scans to its chain. */
  lemma {:induction false} PlainRun(g0: Graph, p: string)
    requires WellFormed(g0) && Plain(p)
    ensures Run(p, Start(g0)) == Run(p, Scan(Chain(g0, p, |p|), |g0| + |p|, [], [], |p|))
  {
    PlainPrefix(g0, p, "");
    assert p + "" == p;
  }

  /** Scanning `(` and then the plain pattern inside the parentheses. */
  lemma {:induction false} ParenOpen(g0: Graph, p: string, t: string, e: Scan)
    requires WellFormed(g0) && Plain(p)
    requires e == Scan(Chain(g0, p, |p|), |g0| + |p|, [|g0|], [None], 1 + |p|)
    ensures ScanOk(e) && Run("(" + p + t, Start(g0)) == Run("(" + p + t, e)
  {
    var q := "(" + p + t;
    var s1 := ParenFirst(g0, p, q);
    assert q[1..1 + |p|] == p;
    ChainRun(q, 1, p, g0, [|g0|], [None], 0, s1, e);
  }

  /** The `(` opening the pattern. */
  lemma {:induction false} ParenFirst(g0: Graph, p: string, q: string) returns (s1: Scan)
    requires WellFormed(g0) && q != [] && q[0] == '('
    ensures s1 == Scan(Chain(g0, p, 0), |g0| + 0, [|g0|], [None], 1 + 0)
    ensures ScanOk(s1) && Run(q, Start(g0)) == Run(q, s1)
  {
    var s0 := Start(g0);
    StartOk(g0);
    s1 := OpenGroup(s0);
    OpenStep(q, s0);
    RunStep(q, s0, s1);
    ChainZero(g0, p);
    assert s1 == Scan(g0 + [Blank], |g0|, [|g0|], [None], 1);
  }

  /** Scanning the closing `)` and what follows it, which ends the pattern. */
  lemma {:induction false} ParenClose(g0: Graph, p: string, t: string, e: Scan)
    requires WellFormed(g0) && Plain(p) && Closer(t)
    requires e == Scan(Chain(g0, p, |p|), |g0| + |p|, [|g0|], [None], 1 + |p|) && ScanOk(e)
    ensures Run("(" + p + t, e) == Run(p, Scan(Chain(g0, p, |p|), |g0| + |p|, [], [], |p|))
  {
    var q := "(" + p + t;
    var f := e.(pars := e.pars[..|e.pars| - 1], bras := e.bras[..|e.bras| - 1], i := e.i + 2);
    assert q[1 + |p|..] == t;
    CloseNoSuffix(q, e);
    RunStep(q, e, f);
    RunDone(q, f);
    var d := Scan(Chain(g0, p, |p|), |g0| + |p|, [], [], |p|);
    PlainPrefix(g0, p, "");
    RunDone(p, d);
    assert f.g == d.g;
    assert f.cur == d.cur;
    assert Run(q, f) == Ok((d.g, d.cur));
  }

  /** A plain pattern in parentheses scans to the same chain. */
  lemma {:induction false} ParenRun(g0: Graph, p: string, t: string)
    requires WellFormed(g0) && Plain(p) && Closer(t)
    ensures Run("(" + p + t, Start(g0)) == Run(p, Scan(Chain(g0, p, |p|), |g0| + |p|, [], [], |p|))
  {
    var e := Scan(Chain(g0, p, |p|), |g0| + |p|, [|g0|], [None], 1 + |p|);
    ParenOpen(g0, p, t, e);
    ParenClose(g0, p, t, e);
  }

  /** Parentheses around a plain pattern, with no suffix, change nothing. */
  lemma {:induction false} ParenWrap(g0: Graph, p: string)
    requires WellFormed(g0) && Plain(p)
    ensures BuildNfa(g0, "(" + p + ")") == BuildNfa(g0, p)
  {
    PlainRun(g0, p);
    ParenRun(g0, p, ")");
    SameRun(g0, "(" + p + ")", p);
  }

  /** The character after `)` is consumed even when it is not a suffix: it
      is dropped from the pattern. */
  lemma {:induction false} ParenSkip(g0: Graph, p: string, c: char)
    requires WellFormed(g0) && Plain(p) && c != '?' && c != '+' && c != '*'
    ensures BuildNfa(g0, "(" + p + ")" + [c]) == BuildNfa(g0, p)
  {
    assert "(" + p + ")" + [c] == "(" + p + (")" + [c]);
    PlainRun(g0, p);
    ParenRun(g0, p, ")" + [c]);
    SameRun(g0, "(" + p + (")" + [c]), p);
  }

  /** Where the scan of a plain pattern ends: the chain, with empty stacks. */
  function PlainEnd(g0: Graph, p: string): (r: Scan)
    ensures r.i == |p| && r.pars == [] && r.bras == [] && |r.g| == |g0| + |p| + 1
  {
    Scan(Chain(g0, p, |p|), |g0| + |p|, [], [], |p|)
  }

  /** A failing step after a plain prefix fails the whole build. */
  lemma {:induction false} FailAfterPlain(g0: Graph, p: string, t: string, s: Scan, err: BuildError)
    requires WellFormed(g0) && Plain(p) && |t| > 0 && s == PlainEnd(g0, p)
    requires ScanOk(s) ==> Step(p + t, s) == Err(err)
    ensures BuildNfa(g0, p + t) == Err(err)
  {
    PlainPrefix(g0, p, t);
    assert Run(p + t, s) == Err(err);
  }

  /** A `)` with no open group is rejected. */
  lemma {:induction false} StrayParen(g0: Graph, p: string, r: string)
    requires WellFormed(g0) && Plain(p)
    ensures BuildNfa(g0, p + ")" + r) == Err(UnmatchedParen)
  {
    assert p + ")" + r == p + (")" + r);
    assert (p + (")" + r))[|p|] == ')';
    FailAfterPlain(g0, p, ")" + r, PlainEnd(g0, p), UnmatchedParen);
  }

  /** A `]` with no open bracket is rejected. */
  lemma {:induction false} StrayBracket(g0: Graph, p: string, r: string)
    requires WellFormed(g0) && Plain(p)
    ensures BuildNfa(g0, p + "]" + r) == Err(UnmatchedBracket)
  {
    assert p + "]" + r == p + ("]" + r);
    assert (p + ("]" + r))[|p|] == ']';
    FailAfterPlain(g0, p, "]" + r, PlainEnd(g0, p), UnmatchedBracket);
  }

  /** A backslash that ends the pattern is rejected. */
  lemma {:induction false} EscapeLast(g0: Graph, p: string)
    requires WellFormed(g0) && Plain(p)
    ensures BuildNfa(g0, p + "\\") == Err(EscapeAtEnd)
  {
    assert (p + "\\")[|p|] == '\\';
    FailAfterPlain(g0, p, "\\", PlainEnd(g0, p), EscapeAtEnd);
  }

  /** A backslash may only escape one of the characters in `Escapable`. */
  lemma {:induction false} EscapeUnknown(g0: Graph, p: string, c: char, r: string)
    requires WellFormed(g0) && Plain(p) && c !in Escapable
    ensures BuildNfa(g0, p + ['\\', c] + r) == Err(InvalidEscape)
  {
    var t := ['\\', c] + r;
    assert p + ['\\', c] + r == p + t;
    assert (p + t)[|p|] == '\\' && (p + t)[|p| + 1] == c;
    FailAfterPlain(g0, p, t, PlainEnd(g0, p), InvalidEscape);
  }

  /** A `)` directly inside a bracket is rejected, as the group and bracket
      stacks must pair up. */
  lemma {:induction false} ParenInBracket(g0: Graph, p: string, r: string)
    requires WellFormed(g0) && Plain(p)
    ensures BuildNfa(g0, p + "[)" + r) == Err(UnmatchedParen)
  {
    var q := p + ("[)" + r);
    assert p + "[)" + r == q;
    assert q[|p|] == '[' && q[|p| + 1] == ')';
    var d := PlainEnd(g0, p);
    PlainPrefix(g0, p, "[)" + r);
    var b := OpenBracket(d);
    RunStep(q, d, b);
    assert Run(q, b) == Err(UnmatchedParen);
  }

  /** `t` is reached from `s` by turns of the loop of `make_states` on `p`, none
      of which fails. */
  ghost predicate ScansTo(p: string, s: Scan, t: Scan): (r: bool)
    ensures r ==> ScanOk(s) && ScanOk(t)
    decreases |p| - s.i
  {
    ScanOk(s) && (s == t || (s.i < |p| && Step(p, s).Ok? && (StepOk(p, s); ScansTo(p, Step(p, s).value, t))))
  }

  lemma {:induction false} ScansStep(p: string, s: Scan, s': Scan)
    requires ScanOk(s) && s.i < |p| && Step(p, s) == Ok(s')
    ensures ScansTo(p, s, s')
  {
    StepOk(p, s);
    assert ScansTo(p, s', s');
  }

  lemma {:induction false} ScansTrans(p: string, s: Scan, m: Scan, t: Scan)
    requires ScansTo(p, s, m) && ScansTo(p, m, t)
    ensures ScansTo(p, s, t)
    decreases |p| - s.i
  {
    if s != m {
      StepOk(p, s);
      ScansTrans(p, Step(p, s).value, m, t);
    }
  }

  /** The rest of the loop from `s` is the rest of the loop from any scan it
      reaches. */
  lemma {:induction false} ScansToRun(p: string, s: Scan, t: Scan)
    requires ScansTo(p, s, t)
    ensures ScanOk(t) && Run(p, s) == Run(p, t)
    decreases |p| - s.i
  {
    if s != t {
      StepOk(p, s);
      ScansToRun(p, Step(p, s).value, t);
    }
  }

  /** A loop that raises raises at a turn it reaches. */
  lemma {:induction false} RunFailsAt(p: string, s: Scan) returns (t: Scan)
    requires ScanOk(s) && Run(p, s).Err?
    ensures ScansTo(p, s, t) && t.i < |p| && Step(p, t) == Err(Run(p, s).error)
    decreases |p| - s.i
  {
    if Step(p, s).Err? {
      t := s;
    } else {
      StepOk(p, s);
      t := RunFailsAt(p, Step(p, s).value);
    }
  }

  /** A turn of the loop that raises, at any scan the build reaches, fails the
      build with its exception. */
  lemma {:induction false} FailAt(g0: Graph, p: string, s: Scan)
    requires WellFormed(g0) && ScansTo(p, Start(g0), s) && s.i < |p| && Step(p, s).Err?
    ensures BuildNfa(g0, p) == Err(Step(p, s).error)
  {
    ScansToRun(p, Start(g0), s);
  }

  /** Every failed build failed at a turn of the loop it reached. */
  lemma {:induction false} BuildFails(g0: Graph, p: string) returns (s: Scan)
    requires WellFormed(g0) && BuildNfa(g0, p).Err?
    ensures ScansTo(p, Start(g0), s) && s.i < |p| && Step(p, s) == Err(BuildNfa(g0, p).error)
  {
    StartOk(g0);
    s := RunFailsAt(p, Start(g0));
  }

  /** When a turn of the loop raises which exception: `)` when the innermost
      open group or bracket is not a group, `]` when it is not a bracket, `\\`
      last or before a character that cannot be escaped; the copy's exceptions
      come only from a `+` after `)` or `]`. */
  lemma {:induction false} StepErrors(p: string, s: Scan)
    requires ScanOk(s) && s.i < |p|
    ensures Step(p, s) == Err(UnmatchedParen) <==> p[s.i] == ')' && (s.bras == [] || s.bras[|s.bras| - 1].Some?)
    ensures Step(p, s) == Err(UnmatchedBracket) <==> p[s.i] == ']' && (s.bras == [] || s.bras[|s.bras| - 1].None?)
    ensures Step(p, s) == Err(EscapeAtEnd) <==> p[s.i] == '\\' && s.i + 1 == |p|
    ensures Step(p, s) == Err(InvalidEscape) <==> p[s.i] == '\\' && s.i + 1 < |p| && p[s.i + 1] !in Escapable
    ensures Step(p, s) == Err(CopyHasNoEnd) || Step(p, s) == Err(CopyDiverges)
            ==> (p[s.i] == ')' || p[s.i] == ']') && s.i + 1 < |p| && p[s.i + 1] == '+'
  {
  }

  /** What scanning `u`, with no metacharacter in it, adds outside a bracket: a
      new state per character, each the target of an arc from the one before. */
  function Extend(g: Graph, cur: nat, u: string): (r: (Graph, nat))
    requires cur < |g|
    ensures |r.0| == |g| + |u| && r.1 == (if u == [] then cur else |g| + |u| - 1)
    decreases |u|
  {
    if u == [] then (g, cur) else Extend(ArcNew(g, cur, Chr(u[0])), |g|, u[1..])
  }

  /** Outside a bracket, a run of ordinary characters at any scan extends the
      arena by `Extend`: the rest of the loop is as from the scan after them. */
  lemma {:induction false} PlainAt(q: string, s: Scan, u: string)
    requires ScanOk(s) && (s.bras == [] || s.bras[|s.bras| - 1].None?) && Plain(u)
    requires s.i + |u| <= |q| && q[s.i..s.i + |u|] == u
    ensures var e := Extend(s.g, s.cur, u);
            ScanOk(s.(g := e.0, cur := e.1, i := s.i + |u|))
            && Run(q, s) == Run(q, s.(g := e.0, cur := e.1, i := s.i + |u|))
    decreases |u|
  {
    if u != [] {
      assert q[s.i] == u[0];
      OrdinaryStep(q, s);
      var s1 := Literal(s, u[0], s.i + 1);
      RunStep(q, s, s1);
      assert q[s1.i..s1.i + |u[1..]|] == u[1..];
      PlainAt(q, s1, u[1..]);
    }
  }

  /** At any scan, a group around ordinary characters with no suffix after it
      leaves the rest of the loop as the characters alone would; the character
      after the `)`, if any, is skipped. */
  lemma {:induction false} ParenAt(q: string, s: Scan, u: string)
    requires ScanOk(s) && Plain(u)
    requires s.i + |u| + 2 <= |q| && q[s.i] == '(' && q[s.i + 1..s.i + 1 + |u|] == u && q[s.i + 1 + |u|] == ')'
    requires s.i + |u| + 2 == |q| || (q[s.i + |u| + 2] != '?' && q[s.i + |u| + 2] != '+' && q[s.i + |u| + 2] != '*')
    ensures var e := Extend(s.g, s.cur, u);
            ScanOk(s.(g := e.0, cur := e.1, i := s.i + |u| + 3))
            && Run(q, s) == Run(q, s.(g := e.0, cur := e.1, i := s.i + |u| + 3))
  {
    var m := GroupBody(q, s, u);
    var e := Extend(s.g, s.cur, u);
    assert m.pars[..|m.pars| - 1] == s.pars && m.bras[..|m.bras| - 1] == s.bras;
    var t := s.(g := e.0, cur := e.1, i := s.i + |u| + 3);
    assert t == m.(pars := m.pars[..|m.pars| - 1], bras := m.bras[..|m.bras| - 1], i := m.i + 2);
    CloseAt(q, m, t);
  }

  /** `)` closing a group, with no suffix after it, only pops the stacks. */
  lemma {:induction false} CloseAt(q: string, m: Scan, t: Scan)
    requires ScanOk(m) && m.i < |q| && q[m.i] == ')' && m.bras != [] && m.bras[|m.bras| - 1].None?
    requires m.i + 1 == |q| || (q[m.i + 1] != '?' && q[m.i + 1] != '+' && q[m.i + 1] != '*')
    requires t == m.(pars := m.pars[..|m.pars| - 1], bras := m.bras[..|m.bras| - 1], i := m.i + 2)
    ensures ScanOk(t) && Run(q, m) == Run(q, t)
  {
    if m.i + 1 < |q| {
      assert Suffix(m.g, q[m.i + 1], m.pars[|m.pars| - 1], m.cur) == Ok(m.g);
    }
    RunStep(q, m, t);
  }

  /** One arc per character of `p`, in order, all into `e`. */
  function FanEdges(p: string, e: nat): (r: seq<(Label, nat)>)
    ensures |r| == |p| && forall j | 0 <= j < |p| :: r[j] == (Chr(p[j]), e)
  {
    seq(|p|, j requires 0 <= j < |p| => (Chr(p[j]), e))
  }

  /** The arena `k` characters into the plain body `p` of a bracket: the root
      `|g0|` has an arc per character so far into the bracket's end state
      `|g0| + 1`. */
  function Fan(g0: Graph, p: string, k: nat): (r: Graph)
    requires k <= |p|
  {
    g0 + [NState(FanEdges(p[..k], |g0| + 1), false, None), Blank]
  }

  lemma {:induction false} FanZero(g0: Graph, p: string)
    ensures Fan(g0, p, 0) == g0 + [Blank] + [Blank]
  {
    assert FanEdges(p[..0], |g0| + 1) == [];
  }

  lemma {:induction false} FanStep(g0: Graph, p: string, k: nat)
    requires k < |p|
    ensures ArcG(Fan(g0, p, k), |g0|, Chr(p[k]), |g0| + 1) == Fan(g0, p, k + 1)
  {
    assert FanEdges(p[..k], |g0| + 1) + [(Chr(p[k]), |g0| + 1)] == FanEdges(p[..k + 1], |g0| + 1);
  }

  /** Scanning the plain body `p` of a bracket opened at the root, which starts
      at `off` in `q`; `s` is the scan `k` characters in. */
  lemma {:induction false} FanRun(q: string, off: nat, p: string, g0: Graph, k: nat, s: Scan, e: Scan)
    requires off + |p| <= |q| && q[off..off + |p|] == p && Plain(p) && k <= |p|
    requires s == Scan(Fan(g0, p, k), |g0|, [], [Some(|g0| + 1)], off + k) && ScanOk(s)
    requires e == Scan(Fan(g0, p, |p|), |g0|, [], [Some(|g0| + 1)], off + |p|)
    ensures ScanOk(e) && Run(q, s) == Run(q, e)
    decreases |p| - k
  {
    if k == |p| {
      assert s == e;
    } else {
      assert q[off + k] == p[k];
      OrdinaryStep(q, s);
      FanStep(g0, p, k);
      var s' := Scan(Fan(g0, p, k + 1), |g0|, [], [Some(|g0| + 1)], off + (k + 1));
      assert Literal(s, p[k], off + k + 1) == s';
      RunStep(q, s, s');
      FanRun(q, off, p, g0, k + 1, s', e);
    }
  }

  /** Scanning `[` and then the plain body of the bracket. */
  lemma {:induction false} BracketOpen(g0: Graph, p: string, t: string, e: Scan)
    requires WellFormed(g0) && Plain(p)
    requires e == Scan(Fan(g0, p, |p|), |g0|, [], [Some(|g0| + 1)], 1 + |p|)
    ensures ScanOk(e) && Run("[" + p + t, Start(g0)) == Run("[" + p + t, e)
  {
    var q := "[" + p + t;
    var s1 := BracketFirst(g0, p, q);
    assert q[1..1 + |p|] == p;
    FanRun(q, 1, p, g0, 0, s1, e);
  }

  /** The `[` opening the pattern. */
  lemma {:induction false} BracketFirst(g0: Graph, p: string, q: string) returns (s1: Scan)
    requires WellFormed(g0) && q != [] && q[0] == '['
    ensures s1 == Scan(Fan(g0, p, 0), |g0|, [], [Some(|g0| + 1)], 1 + 0)
    ensures ScanOk(s1) && Run(q, Start(g0)) == Run(q, s1)
  {
    var s0 := Start(g0);
    StartOk(g0);
    s1 := OpenBracket(s0);
    assert Step(q, s0) == Ok(s1);
    RunStep(q, s0, s1);
    FanZero(g0, p);
  }

  /** What the scan yields when a suffix `op` is applied from `start` to
      `end`, which becomes `cur`, at the end of the pattern. */
  function SuffixEnd(g: Graph, op: char, start: nat, end: nat): (r: Result<(Graph, nat), BuildError>)
    requires WellFormed(g) && start < |g| && end < |g|
  {
    match Suffix(g, op, start, end)
    case Err(e) => Err(e)
    case Ok(g') => Ok((g', end))
  }

  /** `]` and a suffix, the last two characters of the pattern: the suffix is
      applied from `cur` to the bracket's end state, which becomes `cur`. */
  lemma {:induction false} CloseBracketLast(q: string, s: Scan, op: char, end: nat)
    requires ScanOk(s) && s.i + 2 == |q| && q[s.i] == ']' && q[s.i + 1] == op && op in "?+*"
    requires s.bras != [] && s.bras[|s.bras| - 1] == Some(end)
    ensures end < |s.g| && Run(q, s) == SuffixEnd(s.g, op, s.cur, end)
  {
    var g := Suffix(s.g, op, s.cur, end);
    if g.Ok? {
      var f := Scan(g.value, end, s.pars, s.bras[..|s.bras| - 1], s.i + 2);
      assert Step(q, s) == Ok(f);
      RunStep(q, s, f);
      RunDone(q, f);
    }
  }

  /** The `]` and suffix that end `[p]` and a suffix `op`. */
  lemma {:induction false} BracketTail(g0: Graph, p: string, op: char, q: string, e: Scan)
    requires WellFormed(g0) && op in "?+*" && q == "[" + p + ("]" + [op])
    requires e == Scan(Fan(g0, p, |p|), |g0|, [], [Some(|g0| + 1)], 1 + |p|) && ScanOk(e)
    ensures Run(q, e) == SuffixEnd(e.g, op, |g0|, |g0| + 1)
  {
    assert q[1 + |p|] == ']' && q[2 + |p|] == op;
    CloseBracketLast(q, e, op, |g0| + 1);
  }

  /** The scan of `[p]` and a suffix `op`. */
  lemma {:induction false} BracketRun(g0: Graph, p: string, op: char)
    requires WellFormed(g0) && Plain(p) && op in "?+*"
    ensures WellFormed(Fan(g0, p, |p|))
    ensures Run("[" + p + [']', op], Start(g0)) == SuffixEnd(Fan(g0, p, |p|), op, |g0|, |g0| + 1)
  {
    StartOk(g0);
    var e := Scan(Fan(g0, p, |p|), |g0|, [], [Some(|g0| + 1)], 1 + |p|);
    var q := "[" + p + ("]" + [op]);
    assert "[" + p + [']', op] == q;
    BracketOpen(g0, p, "]" + [op], e);
    BracketTail(g0, p, op, q, e);
  }

  /** The root of a full bracket body with an epsilon arc to the end state. */
  function FanRoot(g0: Graph, p: string): NState {
    NState(FanEdges(p, |g0| + 1) + [(Eps, |g0| + 1)], false, None)
  }

  lemma {:induction false} FanMayOne(g0: Graph, p: string)
    ensures ArcG(Fan(g0, p, |p|), |g0|, Eps, |g0| + 1) == g0 + [FanRoot(g0, p), Blank]
  {
    assert p[..|p|] == p;
    var a := ArcG(Fan(g0, p, |p|), |g0|, Eps, |g0| + 1);
    var b := g0 + [FanRoot(g0, p), Blank];
    assert |a| == |b|;
    forall x | 0 <= x < |a| ensures a[x] == b[x] {
    }
  }

  lemma {:induction false} FanAny(g0: Graph, p: string)
    ensures ArcG(g0 + [FanRoot(g0, p), Blank], |g0| + 1, Eps, |g0|) == g0 + [FanRoot(g0, p), NState([(Eps, |g0|)], false, None)]
  {
    var a := ArcG(g0 + [FanRoot(g0, p), Blank], |g0| + 1, Eps, |g0|);
    var b := g0 + [FanRoot(g0, p), NState([(Eps, |g0|)], false, None)];
    assert |a| == |b|;
    forall x | 0 <= x < |a| ensures a[x] == b[x] {
    }
  }

  lemma {:induction false} MarkLast(g0: Graph, a: NState, b: NState)
    ensures (g0 + [a, b])[|g0| + 1 := b.(isFinal := true)] == g0 + [a, b.(isFinal := true)]
  {
    var x := (g0 + [a, b])[|g0| + 1 := b.(isFinal := true)];
    var y := g0 + [a, b.(isFinal := true)];
    assert |x| == |y|;
    forall k | 0 <= k < |x| ensures x[k] == y[k] {
    }
  }

  /** `[p]?`: the root has an arc per character of `p` and an epsilon arc, all
      into one final state without arcs. */
  lemma {:induction false} BracketMayOne(g0: Graph, p: string)
    requires WellFormed(g0) && Plain(p)
    ensures BuildNfa(g0, "[" + p + "]?") == Ok(Built(g0 + [FanRoot(g0, p), NState([], true, None)], |g0|, |g0| + 1))
  {
    BracketRun(g0, p, '?');
    FanMayOne(g0, p);
    MarkLast(g0, FanRoot(g0, p), Blank);
  }

  /** `[p]*`: as `[p]?`, and the end state has an epsilon arc back to the root. */
  lemma {:induction false} BracketAny(g0: Graph, p: string)
    requires WellFormed(g0) && Plain(p)
    ensures BuildNfa(g0, "[" + p + "]*")
         == Ok(Built(g0 + [FanRoot(g0, p), NState([(Eps, |g0|)], true, None)], |g0|, |g0| + 1))
  {
    BracketRun(g0, p, '*');
    FanMayOne(g0, p);
    FanAny(g0, p);
    MarkLast(g0, FanRoot(g0, p), NState([(Eps, |g0|)], false, None));
  }

  /** The arcs `copy_from` puts on the state copied onto for `items` that all
      lead into `end`: one per item, with its label, to the new states from
      `base` on. */
  function CopiedArcs(items: seq<(Label, nat)>, base: nat): (r: seq<(Label, nat)>)
    ensures |r| == |items|
  {
    if items == [] then [] else [(items[0].0, base)] + CopiedArcs(items[1..], base + 1)
  }

  /** `n` new states without arcs. */
  function Blanks(n: nat): (r: Graph)
    ensures |r| == n
  {
    if n == 0 then [] else [Blank] + Blanks(n - 1)
  }

  /** Every state of `Blanks(n)` has no arcs. */
  lemma {:induction false} BlanksAt(n: nat, j: nat)
    requires j < n
    ensures Blanks(n)[j] == Blank
  {
    if j > 0 {
      BlanksAt(n - 1, j - 1);
    }
  }

  /** The arena after copying `items`, all into `end`, onto `self`. */
  function AllEndCopy(g: Graph, self: nat, items: seq<(Label, nat)>): (r: Graph)
    requires self < |g|
    ensures |r| == |g| + |items|
  {
    (g + Blanks(|items|))[self := g[self].(edges := g[self].edges + CopiedArcs(items, |g|))]
  }

  /** One more copied arc at the front. */
  lemma {:induction false} AllEndCopyStep(g: Graph, self: nat, items: seq<(Label, nat)>)
    requires self < |g| && items != []
    ensures AllEndCopy(ArcNew(g, self, items[0].0), self, items[1..]) == AllEndCopy(g, self, items)
  {
    var n := |items|;
    var g1 := ArcNew(g, self, items[0].0);
    var e1 := g[self].edges + [(items[0].0, |g|)];
    var s1 := g[self].(edges := e1);
    ArcNewAt(g, self, items[0].0);
    assert g1 == (g + [Blank])[self := s1];
    var e := e1 + CopiedArcs(items[1..], |g| + 1);
    CopiedCons(g[self].edges, items, |g|);
    var s2 := g[self].(edges := e);
    assert g1[self].(edges := g1[self].edges + CopiedArcs(items[1..], |g1|)) == s2;
    BlanksUpdate(g + [Blank], Blanks(n - 1), self, s1, s2);
    BlanksCons(g, n);
  }

  lemma {:induction false} ArcNewAt(g: Graph, self: nat, l: Label)
    requires self < |g|
    ensures ArcNew(g, self, l) == (g + [Blank])[self := g[self].(edges := g[self].edges + [(l, |g|)])]
  {
  }

  lemma {:induction false} CopiedCons(x: seq<(Label, nat)>, items: seq<(Label, nat)>, base: nat)
    requires items != []
    ensures x + [(items[0].0, base)] + CopiedArcs(items[1..], base + 1) == x + CopiedArcs(items, base)
  {
  }

  lemma {:induction false} BlanksCons(g: Graph, n: nat)
    requires n > 0
    ensures g + [Blank] + Blanks(n - 1) == g + Blanks(n)
  {
  }

  /** Updating a state of `a` in `a + b` twice keeps the second update. */
  lemma {:induction false} BlanksUpdate(a: Graph, b: Graph, x: nat, s1: NState, s2: NState)
    requires x < |a|
    ensures (a[x := s1] + b)[x := s2] == (a + b)[x := s2]
  {
  }

  /** Copying arcs that all lead into `end` makes one new state per arc, in
      order, each the target of an arc with the copied label, and returns the
      last of them. */
  lemma {:induction false} CopyItemsAllEnd(g: Graph, self: nat, items: seq<(Label, nat)>, end: nat, fuel: nat,
                                           ret: Option<nat>)
    requires WellFormed(g) && self < |g| && end < |g| && fuel > 0
    requires forall p | p in items :: p.1 == end
    requires ret.Some? ==> ret.value < |g|
    ensures var r := CopyItems(g, self, items, end, fuel, ret);
            && r.Ok? && r.value.0 == AllEndCopy(g, self, items)
            && r.value.1 == if items == [] then ret else Some(|g| + |items| - 1)
    decreases |items|
  {
    if items == [] {
      assert g + Blanks(0) == g;
      assert g[self].edges + CopiedArcs(items, |g|) == g[self].edges;
    } else {
      var c := items[0].0;
      assert items[0] in items;
      assert items == [(c, end)] + items[1..];
      assert forall p | p in items[1..] :: p in items;
      CopyItemsUnfoldEnd(g, self, c, items[1..], end, fuel, ret);
      ArcNewGrows(g, self, c);
      CopyItemsAllEnd(ArcNew(g, self, c), self, items[1..], end, fuel, Some(|g|));
      AllEndCopyStep(g, self, items);
    }
  }

  /** The root after `[p]`: its arcs are those of `p`'s characters, all into the
      end state. */
  lemma {:induction false} FanRootArcs(g0: Graph, p: string, f: Graph)
    requires |p| > 0 && f == Fan(g0, p, |p|)
    ensures |g0| + 1 < |f| && f[|g0|].edges == FanEdges(p, |g0| + 1)
    ensures DictItems(f[|g0|].edges) != [] && forall x | x in f[|g0|].edges :: x.1 == |g0| + 1
  {
    var e := FanEdges(p, |g0| + 1);
    assert p[..|p|] == p;
    assert e[0] in DictItems(e);
  }

  /** Copying from a state all of whose arcs lead into the state copied onto. */
  lemma {:induction false} CopySpecAllEnd(g: Graph, self: nat, start: nat, fuel: nat)
    requires WellFormed(g) && self < |g| && start < |g| && self != start && fuel > 0
    requires forall x | x in g[start].edges :: x.1 == self
    ensures var items := DictItems(g[start].edges);
            CopySpec(g, self, start, self, fuel)
            == Ok((AllEndCopy(g, self, items), if items == [] then None else Some(|g| + |items| - 1)))
  {
    CopyItemsAllEnd(g, self, DictItems(g[start].edges), self, fuel, None);
  }

  /** `sub_one_or_more` after `[p]`: the copy, and an epsilon arc from its
      last state back to the end state. */
  lemma {:induction false} FanOneOrMore(g0: Graph, p: string, f: Graph, items: seq<(Label, nat)>, c: Graph, last: nat)
    requires WellFormed(g0) && |p| > 0 && f == Fan(g0, p, |p|) && WellFormed(f)
    requires items == DictItems(FanEdges(p, |g0| + 1)) && c == AllEndCopy(f, |g0| + 1, items)
    requires last == |f| + |items| - 1
    ensures items != [] && last < |c|
    ensures SuffixEnd(f, '+', |g0|, |g0| + 1) == Ok((ArcG(c, last, Eps, |g0| + 1), |g0| + 1))
  {
    FanRootArcs(g0, p, f);
    PlusOverRoot(f, |g0|, |g0| + 1, FanEdges(p, |g0| + 1), items, c, last);
  }

  /** `sub_one_or_more` from a root all of whose arcs `e` lead to the end state. */
  lemma {:induction false} PlusOverRoot(f: Graph, root: nat, end: nat, e: seq<(Label, nat)>, items: seq<(Label, nat)>, c: Graph,
                     last: nat)
    requires WellFormed(f) && root < |f| && end < |f| && root != end
    requires f[root].edges == e && e != [] && forall x | x in e :: x.1 == end
    requires items == DictItems(e) && c == AllEndCopy(f, end, items) && last == |f| + |items| - 1
    ensures items != [] && last < |c|
    ensures SuffixEnd(f, '+', root, end) == Ok((ArcG(c, last, Eps, end), end))
  {
    assert items != [] by {
      assert e[0] in items;
    }
    assert CopySpec(f, end, root, end, |f|) == Ok((c, Some(last))) by {
      assert DictItems(f[root].edges) == items;
      CopySpecAllEnd(f, end, root, |f|);
    }
    OneOrMoreOk(f, root, end, c, last);
  }

  /** `sub_one_or_more` once its copy has succeeded with an end state `last`. */
  lemma {:induction false} OneOrMoreOk(g: Graph, start: nat, cur: nat, g1: Graph, last: nat)
    requires WellFormed(g) && start < |g| && cur < |g|
    requires CopySpec(g, cur, start, cur, |g|) == Ok((g1, Some(last)))
    ensures last < |g1| && SuffixEnd(g, '+', start, cur) == Ok((ArcG(g1, last, Eps, cur), cur))
  {
  }

  /** The arena `[p]+` builds: the root with its arc per character of `p`
      into the end state; the end state, final, with one copy of each of those
      arcs in dictionary order, into new states; and an epsilon arc from the
      last copy back to the end state. */
  function BracketPlusArena(g0: Graph, p: string): (r: Graph)
    requires DictItems(FanEdges(p, |g0| + 1)) != []
  {
    var items := DictItems(FanEdges(p, |g0| + 1));
    g0 + [NState(FanEdges(p, |g0| + 1), false, None), NState(CopiedArcs(items, |g0| + 2), true, None)]
    + Blanks(|items| - 1) + [NState([(Eps, |g0| + 1)], false, None)]
  }

  /** `[p]+`: the root keeps exactly its arc per character of `p`, all into the
      end state, which is final; the copy made for `+` hangs off the end state,
      and only its last state links back. */
  lemma {:induction false} BracketOneOrMore(g0: Graph, p: string)
    requires WellFormed(g0) && Plain(p) && |p| > 0
    ensures DictItems(FanEdges(p, |g0| + 1)) != []
    ensures BuildNfa(g0, "[" + p + "]+") == Ok(Built(BracketPlusArena(g0, p), |g0|, |g0| + 1))
  {
    FanItems(p, |g0| + 1);
    BracketPlusScan(g0, p);
    BuildFromRun(g0, "[" + p + "]+", PlusArena(g0, p), |g0| + 1);
    PlusArenaShape(g0, p);
  }

  /** A non-empty bracket body gives the root at least one arc. */
  lemma {:induction false} FanItems(p: string, e: nat)
    requires |p| > 0
    ensures DictItems(FanEdges(p, e)) != []
  {
    assert FanEdges(p, e)[0] in DictItems(FanEdges(p, e));
  }

  /** The arena the scan of `[p]+` leaves: the copy onto the end state and the
      epsilon arc from its last state back to the end state. */
  function PlusArena(g0: Graph, p: string): (r: Graph)
    requires DictItems(FanEdges(p, |g0| + 1)) != []
    ensures |g0| + 1 < |r|
  {
    var f := Fan(g0, p, |p|);
    var items := DictItems(FanEdges(p, |g0| + 1));
    ArcG(AllEndCopy(f, |g0| + 1, items), |f| + |items| - 1, Eps, |g0| + 1)
  }

  /** The scan of `[p]+` ends at the end state, after the copy and its back arc. */
  lemma {:induction false} BracketPlusScan(g0: Graph, p: string)
    requires WellFormed(g0) && Plain(p) && |p| > 0 && DictItems(FanEdges(p, |g0| + 1)) != []
    ensures Run("[" + p + "]+", Start(g0)) == Ok((PlusArena(g0, p), |g0| + 1))
  {
    var f := Fan(g0, p, |p|);
    var items := DictItems(FanEdges(p, |g0| + 1));
    var c := AllEndCopy(f, |g0| + 1, items);
    var last := |f| + |items| - 1;
    assert PlusArena(g0, p) == ArcG(c, last, Eps, |g0| + 1);
    PlusRunFan(g0, p);
    FanOneOrMore(g0, p, f, items, c, last);
  }

  /** `PlusArena` with its end state made final is `BracketPlusArena`. */
  lemma {:induction false} PlusArenaShape(g0: Graph, p: string)
    requires |p| > 0 && DictItems(FanEdges(p, |g0| + 1)) != []
    ensures var g2 := PlusArena(g0, p); g2[|g0| + 1 := g2[|g0| + 1].(isFinal := true)] == BracketPlusArena(g0, p)
  {
    var f := Fan(g0, p, |p|);
    var items := DictItems(FanEdges(p, |g0| + 1));
    var c := AllEndCopy(f, |g0| + 1, items);
    var g2 := ArcG(c, |f| + |items| - 1, Eps, |g0| + 1);
    PlusArenaIs(g0, p, f, items, c);
    BracketPlusShape(g0, p, f, items, c, g2, g2[|g0| + 1 := g2[|g0| + 1].(isFinal := true)]);
  }

  lemma {:induction false} PlusArenaIs(g0: Graph, p: string, f: Graph, items: seq<(Label, nat)>, c: Graph)
    requires f == Fan(g0, p, |p|) && items == DictItems(FanEdges(p, |g0| + 1)) && items != []
    requires c == AllEndCopy(f, |g0| + 1, items)
    ensures |f| + |items| - 1 < |c| && PlusArena(g0, p) == ArcG(c, |f| + |items| - 1, Eps, |g0| + 1)
  {
  }

  /** The scan of `[p]+` is `sub_one_or_more` over the bracket's arena. */
  lemma {:induction false} PlusRunFan(g0: Graph, p: string)
    requires WellFormed(g0) && Plain(p)
    ensures WellFormed(Fan(g0, p, |p|)) && ScanOk(Start(g0))
    ensures Run("[" + p + "]+", Start(g0)) == SuffixEnd(Fan(g0, p, |p|), '+', |g0|, |g0| + 1)
  {
    StartOk(g0);
    BracketRun(g0, p, '+');
  }

  /** A pattern whose scan ends in `(g, cur)` builds `g` with `cur` made final. */
  lemma {:induction false} BuildFromRun(g0: Graph, q: string, g: Graph, cur: nat)
    requires WellFormed(g0) && Run(q, Start(g0)) == Ok((g, cur))
    ensures cur < |g| && BuildNfa(g0, q) == Ok(Built(g[cur := g[cur].(isFinal := true)], |g0|, cur))
  {
    StartOk(g0);
    RunOk(q, Start(g0));
  }

  /** The arena of `BracketOneOrMore`, part by part. */
  lemma {:induction false} BracketPlusShape(g0: Graph, p: string, f: Graph, items: seq<(Label, nat)>, c: Graph, g2: Graph, G: Graph)
    requires |p| > 0 && f == Fan(g0, p, |p|) && items == DictItems(FanEdges(p, |g0| + 1)) && items != []
    requires c == AllEndCopy(f, |g0| + 1, items)
    requires g2 == ArcG(c, |f| + |items| - 1, Eps, |g0| + 1)
    requires G == g2[|g0| + 1 := g2[|g0| + 1].(isFinal := true)]
    ensures G == BracketPlusArena(g0, p)
  {
    var R := NState(FanEdges(p, |g0| + 1), false, None);
    var E := NState(CopiedArcs(items, |g0| + 2), false, None);
    FanCopyShape(g0, p, f, items, c, R, E);
    BackArcShape(g0, c, R, E, |items|, g2, G);
  }

  /** After the copy: the end state carries the copied arcs, followed by one
      new state per copied arc. */
  lemma {:induction false} FanCopyShape(g0: Graph, p: string, f: Graph, items: seq<(Label, nat)>, c: Graph, R: NState, E: NState)
    requires |p| > 0 && f == Fan(g0, p, |p|) && items != []
    requires c == AllEndCopy(f, |g0| + 1, items)
    requires R == NState(FanEdges(p, |g0| + 1), false, None) && E == NState(CopiedArcs(items, |g0| + 2), false, None)
    ensures c == g0 + [R, E] + Blanks(|items|)
  {
    assert p[..|p|] == p;
    assert f == g0 + [R, Blank];
    assert f[|g0| + 1].(edges := f[|g0| + 1].edges + CopiedArcs(items, |f|)) == E;
    UpdateSecond(g0, R, Blank, E, Blanks(|items|));
  }

  /** After the back arc and the end state made final. */
  lemma {:induction false} BackArcShape(g0: Graph, c: Graph, R: NState, E: NState, n: nat, g2: Graph, G: Graph)
    requires n > 0 && c == g0 + [R, E] + Blanks(n)
    requires g2 == ArcG(c, |g0| + 2 + n - 1, Eps, |g0| + 1)
    requires G == g2[|g0| + 1 := g2[|g0| + 1].(isFinal := true)]
    ensures G == g0 + [R, E.(isFinal := true)] + Blanks(n - 1) + [NState([(Eps, |g0| + 1)], false, None)]
  {
    var back := NState([(Eps, |g0| + 1)], false, None);
    var P := g0 + [R, E] + Blanks(n - 1);
    BlanksSnoc(n - 1);
    assert c == P + [Blank];
    assert g2 == P + [back] by {
      assert |P| == |g0| + 2 + n - 1 && c[|P|] == Blank;
      assert Blank.(edges := Blank.edges + [(Eps, |g0| + 1)]) == back;
      UpdateLast(P, Blank, back);
    }
    assert G == g0 + [R, E.(isFinal := true)] + (Blanks(n - 1) + [back]) by {
      UpdateSecond(g0, R, E, E.(isFinal := true), Blanks(n - 1) + [back]);
    }
  }

  /** Replacing the second of two states placed after `a`. */
  lemma {:induction false} UpdateSecond(a: Graph, x: NState, y: NState, z: NState, b: Graph)
    ensures (a + [x, y] + b)[|a| + 1 := z] == a + [x, z] + b
  {
  }

  /** Replacing the last state. */
  lemma {:induction false} UpdateLast(a: Graph, y: NState, z: NState)
    ensures (a + [y])[|a| := z] == a + [z]
  {
  }

  lemma {:induction false} BlanksSnoc(n: nat)
    ensures Blanks(n + 1) == Blanks(n) + [Blank]
  {
    if n > 0 {
      BlanksSnoc(n - 1);
    }
  }

  lemma {:induction false} DictItemsOne(l: Label, t: nat)
    ensures DictItems([(l, t)]) == [(l, t)]
  {
    var e := [(l, t)];
    assert e[..0] == [];
    assert KeyOrder(e) == [l];
    assert Targets(e, l) == [t];
    assert [t][1..] == [];
    assert Tag(l, [t]) == [(l, t)];
    assert [l][1..] == [];
    assert ItemsOf(e, [l]) == [(l, t)] + [];
  }

  /** A `)` whose suffix fails fails the scan. */
  lemma {:induction false} CloseFails(q: string, s: Scan, err: BuildError)
    requires ScanOk(s) && s.i + 1 < |q| && q[s.i] == ')'
    requires s.bras != [] && s.bras[|s.bras| - 1].None?
    requires Suffix(s.g, q[s.i + 1], s.pars[|s.pars| - 1], s.cur) == Err(err)
    ensures Run(q, s) == Err(err)
  {
    assert CloseGroup(q, s) == Err(err);
    assert Step(q, s) == CloseGroup(q, s);
    RunFails(q, s, err);
  }

  lemma {:induction false} RunFails(q: string, s: Scan, err: BuildError)
    requires ScanOk(s) && s.i < |q| && Step(q, s) == Err(err)
    ensures Run(q, s) == Err(err)
  {
  }

  /** A state with one arc and nothing else. */
  function Single(l: Label, t: nat): NState {
    NState([(l, t)], false, None)
  }

  lemma {:induction false} AbChain()
    ensures Chain([], "ab", 2) == [Single(Chr('a'), 1), Single(Chr('b'), 2), Blank]
  {
    var G := Chain([], "ab", 2);
    assert G[0] == Single(Chr('a'), 1);
    assert G[1] == Single(Chr('b'), 2);
    assert G[2] == Blank;
  }

  lemma {:induction false} AbArcs()
    ensures ArcNew([Single(Chr('a'), 1), Single(Chr('b'), 2), Blank], 2, Chr('a'))
         == [Single(Chr('a'), 1), Single(Chr('b'), 2), Single(Chr('a'), 3), Blank]
    ensures ArcNew([Single(Chr('a'), 1), Single(Chr('b'), 2), Single(Chr('a'), 3), Blank], 3, Chr('b'))
         == [Single(Chr('a'), 1), Single(Chr('b'), 2), Single(Chr('a'), 3), Single(Chr('b'), 4), Blank]
  {
    assert [] + [(Chr('a'), 3)] == [(Chr('a'), 3)];
    assert [] + [(Chr('b'), 4)] == [(Chr('b'), 4)];
  }

  /** The arena of the group `(ab)`, and the same arena once the copy of its
      `a` arc is started, are well formed. */
  lemma {:induction false} AbWellFormed()
    ensures WellFormed([Single(Chr('a'), 1), Single(Chr('b'), 2), Blank])
    ensures WellFormed([Single(Chr('a'), 1), Single(Chr('b'), 2), Single(Chr('a'), 3), Blank])
  {
    var G := [Single(Chr('a'), 1), Single(Chr('b'), 2), Blank];
    var g1 := [Single(Chr('a'), 1), Single(Chr('b'), 2), Single(Chr('a'), 3), Blank];
    forall x, e | 0 <= x < |G| && e in G[x].edges ensures e.1 < |G| {
      assert x < 2 ==> G[x].edges == [(Chr(if x == 0 then 'a' else 'b'), x + 1)];
    }
    forall x, e | 0 <= x < |g1| && e in g1[x].edges ensures e.1 < |g1| {
      assert x < 3 ==> g1[x].edges == [(Chr(if x == 1 then 'b' else 'a'), x + 1)];
    }
  }

  /** The nested copy for `(ab)+`, below the copy of the `a` arc: it meets the
      group's end and returns the copy it made for it. */
  lemma {:induction false} AbInner()
    ensures var g1 := [Single(Chr('a'), 1), Single(Chr('b'), 2), Single(Chr('a'), 3), Blank];
            WellFormed(g1) && CopySpec(g1, 3, 1, 2, 2).Ok? && CopySpec(g1, 3, 1, 2, 2).value.1 == Some(4)
  {
    var g1 := [Single(Chr('a'), 1), Single(Chr('b'), 2), Single(Chr('a'), 3), Blank];
    var g2 := [Single(Chr('a'), 1), Single(Chr('b'), 2), Single(Chr('a'), 3), Single(Chr('b'), 4), Blank];
    AbArcs();
    DictItemsOne(Chr('b'), 2);
    AbWellFormed();
    CopyItemsUnfoldEnd(g1, 3, Chr('b'), [], 2, 2, None);
    assert [(Chr('b'), 2)] + [] == [(Chr('b'), 2)];
  }

  /** The copy that `+` makes for `(ab)`: the end state is found one call deep,
      so the outer call returns no end copy. */
  lemma {:induction false} AbCopy()
    ensures var G := [Single(Chr('a'), 1), Single(Chr('b'), 2), Blank];
            WellFormed(G) && CopySpec(G, 2, 0, 2, 3).Ok? && CopySpec(G, 2, 0, 2, 3).value.1 == None
  {
    var G := [Single(Chr('a'), 1), Single(Chr('b'), 2), Blank];
    var g1 := [Single(Chr('a'), 1), Single(Chr('b'), 2), Single(Chr('a'), 3), Blank];
    AbArcs();
    AbInner();
    DictItemsOne(Chr('a'), 1);
    AbWellFormed();
    assert G[0].edges == [(Chr('a'), 1)];
    assert CopySpec(G, 2, 0, 2, 3) == CopyItems(G, 2, [(Chr('a'), 1)], 2, 3, None);
    CopyItemsUnfoldInner(G, 2, Chr('a'), 1, [], 2, 3, None);
    assert [(Chr('a'), 1)] + [] == [(Chr('a'), 1)];
    var sub := CopySpec(g1, 3, 1, 2, 2);
    assert CopySpec(G, 2, 0, 2, 3) == CopyItems(sub.value.0, 2, [], 2, 3, None);
  }

  /** A pattern that starts with a group of plain characters, other than a
      single one, followed by `+` fails, whatever follows and whatever arena
      it is built on: `copy_from` finds the group's end below a nested call
      (or not at all), and its result is discarded. */
  lemma {:induction false} GroupPlusFails(g0: Graph, u: string, rest: string)
    requires WellFormed(g0) && Plain(u) && |u| != 1
    ensures BuildNfa(g0, "(" + u + ")+" + rest) == Err(CopyHasNoEnd)
  {
    var q := "(" + u + ")+" + rest;
    StartOk(g0);
    assert q[1..1 + |u|] == u;
    assert q[1 + |u|] == ')' && q[2 + |u|] == '+';
    GroupPlusAt(q, Start(g0), u);
  }

  /** From `x` up to `end`, every state has exactly one arc, into the next state. */
  ghost predicate Linked(g: Graph, x: nat, end: nat) {
    x <= end < |g| && forall y | x <= y < end :: |g[y].edges| == 1 && g[y].edges[0].1 == y + 1
  }

  /** The states `Extend` adds form a linked run from `|g|` to the new `cur`,
      entered by one arc from the old `cur`; no other state changes. */
  lemma {:induction false} ExtendLinked(g: Graph, cur: nat, u: string) returns (G: Graph, last: nat)
    requires WellFormed(g) && cur < |g| && u != []
    ensures Extend(g, cur, u) == (G, last) && last == |g| + |u| - 1 && |G| == last + 1
    ensures WellFormed(G) && G[cur].edges == g[cur].edges + [(Chr(u[0]), |g|)]
    ensures Linked(G, |g|, last)
    ensures forall x | 0 <= x < |g| && x != cur :: G[x] == g[x]
    decreases |u|
  {
    var g1 := ArcNew(g, cur, Chr(u[0]));
    ArcNewGrows(g, cur, Chr(u[0]));
    if |u| == 1 {
      G, last := g1, |g|;
    } else {
      G, last := ExtendLinked(g1, |g|, u[1..]);
      assert G[|g|].edges == [(Chr(u[1]), |g| + 1)];
      assert G[cur] == g1[cur];
    }
  }

  /** `copy_from` on a state without arcs copies nothing. */
  lemma {:induction false} CopyNoArcs(g: Graph, self: nat, x: nat, end: nat, fuel: nat)
    requires WellFormed(g) && self < |g| && x < |g| && end < |g| && fuel > 0 && g[x].edges == []
    ensures CopySpec(g, self, x, end, fuel) == Ok((g, None))
  {
    assert DictItems(g[x].edges) == [];
  }

  /** `copy_from` on a state whose one arc leads into `end`: the copy of that
      arc is returned. */
  lemma {:induction false} CopyOneArcEnd(g: Graph, self: nat, x: nat, l: Label, end: nat, fuel: nat)
    requires WellFormed(g) && self < |g| && x < |g| && end < |g| && self != x && fuel > 0
    requires g[x].edges == [(l, end)]
    ensures CopySpec(g, self, x, end, fuel) == Ok((ArcNew(g, self, l), Some(|g|)))
  {
    ArcNewGrows(g, self, l);
    var items := DictItems(g[x].edges);
    DictItemsOne(l, end);
    assert items[0] == (l, end) && items[1..] == [];
    assert CopySpec(g, self, x, end, fuel) == CopyItems(g, self, items, end, fuel, None);
    CopyItemsStep(g, self, items, end, fuel, None);
  }

  /** Copying a linked run whose states lie apart from `self` finishes. */
  lemma {:induction false} CopyLinked(g: Graph, self: nat, x: nat, end: nat, fuel: nat)
    requires WellFormed(g) && self < |g| && Linked(g, x, end) && x < end && (self < x || end <= self)
    requires end - x <= fuel
    ensures CopySpec(g, self, x, end, fuel).Ok?
    decreases end - x, 2
  {
    var l := g[x].edges[0].0;
    LinkedHead(g, x, end);
    DictItemsOne(l, x + 1);
    CopyItemsLinked(g, self, l, x + 1, end, fuel);
  }

  /** The loop of `copy_from` over the one arc, `(l, t)`, of a state of a
      linked run. */
  lemma {:induction false} CopyItemsLinked(g: Graph, self: nat, l: Label, t: nat, end: nat, fuel: nat)
    requires WellFormed(g) && self < |g| && fuel > 0
    requires Linked(g, t, end) && (self < t || end <= self) && end - t < fuel
    ensures CopyItems(g, self, [(l, t)], end, fuel, None).Ok?
    decreases end - t + 1, 1
  {
    if t != end {
      CopyArcInner(g, self, l, t, end, fuel);
    } else {
      CopyItemsUnfoldEnd(g, self, l, [], end, fuel, None);
      assert [(l, t)] + [] == [(l, t)];
    }
  }

  /** The loop of `copy_from` over one arc into a state of a linked run
      other than `end` finishes, because the nested copy does. */
  lemma {:induction false} CopyArcInner(g: Graph, self: nat, l: Label, t: nat, end: nat, fuel: nat)
    requires WellFormed(g) && self < |g| && fuel > 0
    requires Linked(g, t, end) && t < end && (self < t || end <= self) && end - t < fuel
    ensures CopyItems(g, self, [(l, t)], end, fuel, None).Ok?
    decreases end - t + 1, 0
  {
    ArcNewGrows(g, self, l);
    LinkedArcNew(g, self, l, t, end);
    CopyLinked(ArcNew(g, self, l), |g|, t, end, fuel - 1);
    CopyItemsUnfoldInner(g, self, l, t, [], end, fuel, None);
    assert [(l, t)] + [] == [(l, t)];
    var sub := CopySpec(ArcNew(g, self, l), |g|, t, end, fuel - 1);
    assert CopyItems(sub.value.0, self, [], end, fuel, None) == Ok((sub.value.0, None));
  }

  /** The arena after the copy of an arc onto `self`, the end of a linked run
      from `x`, keeps the run. */
  lemma {:induction false} CopyFirstArc(G: Graph, self: nat, l: Label, x: nat) returns (G1: Graph)
    requires WellFormed(G) && Linked(G, x, self)
    ensures G1 == ArcNew(G, self, l) && WellFormed(G1) && |G1| == |G| + 1 && Linked(G1, x, self)
  {
    G1 := ArcNew(G, self, l);
    ArcNewGrows(G, self, l);
    LinkedArcNew(G, self, l, x, self);
  }

  lemma {:induction false} LinkedHead(g: Graph, x: nat, end: nat)
    requires Linked(g, x, end) && x < end
    ensures g[x].edges == [(g[x].edges[0].0, x + 1)]
  {
  }

  lemma {:induction false} LinkedArcNew(g: Graph, self: nat, l: Label, x: nat, end: nat)
    requires self < |g| && Linked(g, x, end) && (self < x || end <= self)
    ensures Linked(ArcNew(g, self, l), x, end)
  {
    var g1 := ArcNew(g, self, l);
    forall y | x <= y < end ensures g1[y] == g[y] {
    }
  }

  /** `+` after a group of ordinary characters `u` that starts at a state with no
      arcs: unless `u` is one character long, the copy made for `+` finds the
      group's end only below a nested call, and the suffix fails. */
  lemma {:induction false} PlusNoEnd(g: Graph, cur: nat, u: string)
    requires WellFormed(g) && cur < |g| && g[cur].edges == [] && |u| != 1
    ensures var e := Extend(g, cur, u);
            WellFormed(e.0) && e.1 < |e.0| && OneOrMore(e.0, cur, e.1) == Err(CopyHasNoEnd)
  {
    if u == [] {
      CopyNoArcs(g, cur, cur, cur, |g|);
    } else {
      var G, last := ChainCopies(g, cur, u);
      CopySpecEnds(G, last, cur, last, |G|);
      OneOrMoreFails(G, cur, last);
    }
  }

  /** The copy that `+` makes of a group of at least two ordinary characters
      starting at a state with no arcs finishes. */
  lemma {:induction false} ChainCopies(g: Graph, cur: nat, u: string) returns (G: Graph, last: nat)
    requires WellFormed(g) && cur < |g| && g[cur].edges == [] && |u| > 1
    ensures Extend(g, cur, u) == (G, last) && WellFormed(G) && |g| < last < |G|
    ensures G[cur].edges == [(Chr(u[0]), |g|)]
    ensures CopySpec(G, last, cur, last, |G|).Ok?
  {
    G, last := ExtendLinked(g, cur, u);
    var c := Chr(u[0]);
    assert G[cur].edges == [(c, |g|)];
    DictItemsOne(c, |g|);
    var G1 := CopyFirstArc(G, last, c, |g|);
    CopyItemsLinked(G, last, c, |g|, last, |G|);
  }

  /** `+` after a group of one ordinary character `c`: the group's end gets an
      arc `c` to a new state, which has an epsilon arc back. */
  lemma {:induction false} PlusOne(g: Graph, cur: nat, c: char)
    requires WellFormed(g) && cur < |g| && g[cur].edges == []
    ensures WellFormed(ArcNew(g, cur, Chr(c)))
    ensures var G := ArcNew(g, cur, Chr(c));
            OneOrMore(G, cur, |g|)
            == Ok(ArcG(ArcNew(G, |g|, Chr(c)), |g| + 1, Eps, |g|))
  {
    var G := ArcNew(g, cur, Chr(c));
    ArcNewGrows(g, cur, Chr(c));
    assert G[cur].edges == [(Chr(c), |g|)];
    CopyOneArcEnd(G, |g|, cur, Chr(c), |g|, |G|);
  }

  /** `(` and ordinary characters `u` after it: the group is open, with the
      old `cur` as its start, and the characters are chained from there. */
  lemma {:induction false} GroupBody(q: string, s: Scan, u: string) returns (m: Scan)
    requires ScanOk(s) && Plain(u)
    requires s.i + |u| + 1 <= |q| && q[s.i] == '(' && q[s.i + 1..s.i + 1 + |u|] == u
    ensures var e := Extend(s.g, s.cur, u);
            m == Scan(e.0, e.1, s.pars + [s.cur], s.bras + [None], s.i + 1 + |u|)
    ensures ScanOk(m) && Run(q, s) == Run(q, m)
  {
    OpenStep(q, s);
    var s1 := OpenGroup(s);
    RunStep(q, s, s1);
    PlainAt(q, s1, u);
    var e := Extend(s.g, s.cur, u);
    m := s1.(g := e.0, cur := e.1, i := s1.i + |u|);
  }

  /** At a scan whose current state has no arcs, the pattern `(u)+` with `u`
      ordinary characters fails with `CopyHasNoEnd` unless `u` is one character
      long. */
  lemma {:induction false} GroupPlusAt(q: string, s: Scan, u: string)
    requires ScanOk(s) && s.g[s.cur].edges == []
    requires Plain(u) && |u| != 1
    requires s.i + |u| + 3 <= |q| && q[s.i] == '(' && q[s.i + 1..s.i + 1 + |u|] == u
    requires q[s.i + 1 + |u|] == ')' && q[s.i + 2 + |u|] == '+'
    ensures Run(q, s) == Err(CopyHasNoEnd)
  {
    var k := s.i + 1 + |u|;
    assert q[k] == ')' && q[k + 1] == '+';
    var m := GroupBody(q, s, u);
    assert m.i == k && m.pars[|m.pars| - 1] == s.cur;
    PlusNoEnd(s.g, s.cur, u);
    assert Suffix(m.g, q[m.i + 1], m.pars[|m.pars| - 1], m.cur) == Err(CopyHasNoEnd);
    CloseFails(q, m, CopyHasNoEnd);
  }

  /** `)+` closing a group of one arc `c` from its start `x` to `cur`: an arc
      `c` from `cur` to a new state, which has an epsilon arc back to `cur`. */
  lemma {:induction false} ClosePlusOne(q: string, m: Scan, g: Graph, x: nat, c: char)
    requires ScanOk(m) && m.i + 1 < |q| && q[m.i] == ')' && q[m.i + 1] == '+'
    requires m.bras != [] && m.bras[|m.bras| - 1].None? && m.pars[|m.pars| - 1] == x
    requires WellFormed(g) && x < |g| && g[x].edges == [] && m.g == ArcNew(g, x, Chr(c)) && m.cur == |g|
    ensures Step(q, m) == Ok(m.(g := ArcG(ArcNew(m.g, m.cur, Chr(c)), m.cur + 1, Eps, m.cur),
                                pars := m.pars[..|m.pars| - 1], bras := m.bras[..|m.bras| - 1], i := m.i + 2))
  {
    var g' := ArcG(ArcNew(m.g, m.cur, Chr(c)), m.cur + 1, Eps, m.cur);
    PlusSuffix(g, x, c, m.g, m.cur);
    GroupSuffixed(q, m, '+', x, g');
  }

  /** `+` after a group of one ordinary character `c`, as `Suffix` applies it. */
  lemma {:induction false} PlusSuffix(g: Graph, x: nat, c: char, G: Graph, cur: nat)
    requires WellFormed(g) && x < |g| && g[x].edges == []
    requires G == ArcNew(g, x, Chr(c)) && cur == |g|
    ensures WellFormed(G) && x < cur < |G|
    ensures Suffix(G, '+', x, cur) == Ok(ArcG(ArcNew(G, cur, Chr(c)), cur + 1, Eps, cur))
  {
    PlusOne(g, x, c);
  }

  /** `)` followed by a suffix character, which applies to the group. */
  lemma {:induction false} GroupSuffixed(q: string, m: Scan, op: char, start: nat, g': Graph)
    requires ScanOk(m) && m.i + 1 < |q| && q[m.i] == ')' && q[m.i + 1] == op
    requires m.bras != [] && m.bras[|m.bras| - 1].None? && |m.pars| > 0 && m.pars[|m.pars| - 1] == start
    requires start < |m.g| && Suffix(m.g, op, start, m.cur) == Ok(g')
    ensures Step(q, m) == Ok(Scan(g', m.cur, m.pars[..|m.pars| - 1], m.bras[..|m.bras| - 1], m.i + 2))
  {
    assert Step(q, m) == CloseGroup(q, m);
  }

  /** At a scan whose current state has no arcs, `(c)+` scans as `c` with an
      arc `c` from the new state to another new state, and an epsilon arc from
      that one back. */
  lemma {:induction false} GroupPlusOneAt(q: string, s: Scan, c: char)
    requires ScanOk(s) && s.g[s.cur].edges == [] && Ordinary(c)
    requires s.i + 4 <= |q| && q[s.i] == '(' && q[s.i + 1] == c && q[s.i + 2] == ')' && q[s.i + 3] == '+'
    ensures var G := ArcNew(s.g, s.cur, Chr(c));
            var t := s.(g := ArcG(ArcNew(G, |s.g|, Chr(c)), |s.g| + 1, Eps, |s.g|), cur := |s.g|, i := s.i + 4);
            ScanOk(t) && Run(q, s) == Run(q, t)
  {
    assert q[s.i + 1..s.i + 2] == [c];
    var m := GroupBody(q, s, [c]);
    var G := ArcNew(s.g, s.cur, Chr(c));
    assert Extend(s.g, s.cur, [c]) == (G, |s.g|);
    assert m.g == G && m.cur == |s.g| && m.i == s.i + 2;
    assert m.pars[|m.pars| - 1] == s.cur && m.bras[|m.bras| - 1] == None;
    ClosePlusOne(q, m, s.g, s.cur, c);
    var t := m.(g := ArcG(ArcNew(m.g, m.cur, Chr(c)), m.cur + 1, Eps, m.cur),
                pars := m.pars[..|m.pars| - 1], bras := m.bras[..|m.bras| - 1], i := m.i + 2);
    RunStep(q, m, t);
    assert m.pars[..|m.pars| - 1] == s.pars && m.bras[..|m.bras| - 1] == s.bras;
    assert t == s.(g := ArcG(ArcNew(G, |s.g|, Chr(c)), |s.g| + 1, Eps, |s.g|), cur := |s.g|, i := s.i + 4);
  }

  /** `x == y` on two states (`TokenState.__eq__`): the same labels, and for
      each label, in `x`'s dictionary order, lists of targets that compare
      equal. `None` is a comparison that recursion does not finish within
      `fuel` nested calls (the source recurses through cycles without end).
      Two states with the same arcs are equal, whatever their finality: in
      particular every state is equal to itself. */
  function StateEq(g: Graph, x: nat, y: nat, fuel: nat): (r: Option<bool>)
    requires WellFormed(g) && x < |g| && y < |g|
    ensures fuel > 0 && g[x].edges == g[y].edges ==> r == Some(true)
    decreases fuel, 3, 0
  {
    if fuel == 0 then None
    else if Keys(g[x].edges) != Keys(g[y].edges) then Some(false)
    else DictEq(g, x, y, KeyOrder(g[x].edges), fuel)
  }

  /** The loop over `self.arcs.items()`: the first label whose lists differ
      decides. */
  function DictEq(g: Graph, x: nat, y: nat, ks: seq<Label>, fuel: nat): (r: Option<bool>)
    requires WellFormed(g) && x < |g| && y < |g| && fuel > 0
    ensures g[x].edges == g[y].edges ==> r == Some(true)
    decreases fuel, 2, |ks|
  {
    if ks == [] then Some(true)
    else
      var v := Targets(g[x].edges, ks[0]);
      var w := Targets(g[y].edges, ks[0]);
      TargetsBound(g, x, ks[0]);
      TargetsBound(g, y, ks[0]);
      match ListEq(g, v, w, fuel)
      case None => None
      case Some(false) => Some(false)
      case Some(true) => DictEq(g, x, y, ks[1..], fuel)
  }

  /** Python's list comparison: lengths first, then element by element, where
      an element is equal to itself without a call to `__eq__`; so identical
      lists compare equal without any nested call. */
  function ListEq(g: Graph, v: seq<nat>, w: seq<nat>, fuel: nat): (r: Option<bool>)
    requires WellFormed(g) && fuel > 0
    requires forall t | t in v :: t < |g|
    requires forall t | t in w :: t < |g|
    ensures v == w ==> r == Some(true)
    decreases fuel, 1, |v|
  {
    if |v| != |w| then Some(false)
    else if v == [] then Some(true)
    else
      assert v[0] in v && w[0] in w;
      assert (forall t | t in v[1..] :: t in v) && (forall t | t in w[1..] :: t in w);
      if v[0] == w[0] then ListEq(g, v[1..], w[1..], fuel)
      else
        match StateEq(g, v[0], w[0], fuel - 1)
        case None => None
        case Some(false) => Some(false)
        case Some(true) => ListEq(g, v[1..], w[1..], fuel)
  }

  lemma {:induction false} TargetsBound(g: Graph, x: nat, l: Label)
    requires WellFormed(g) && x < |g|
    ensures forall t | t in Targets(g[x].edges, l) :: t < |g|
  {
  }

  /** Equal lists have equal lengths. */
  lemma {:induction false} ListEqLength(g: Graph, v: seq<nat>, w: seq<nat>, fuel: nat)
    requires WellFormed(g) && fuel > 0 && (forall t | t in v :: t < |g|) && (forall t | t in w :: t < |g|)
    ensures ListEq(g, v, w, fuel) == Some(true) ==> |v| == |w|
  {
  }

  lemma {:induction false} DictEqSound(g: Graph, x: nat, y: nat, ks: seq<Label>, fuel: nat)
    requires WellFormed(g) && x < |g| && y < |g| && fuel > 0
    ensures DictEq(g, x, y, ks, fuel) == Some(true) ==>
              forall l | l in ks :: |Targets(g[x].edges, l)| == |Targets(g[y].edges, l)|
    decreases |ks|
  {
    if ks != [] && DictEq(g, x, y, ks, fuel) == Some(true) {
      TargetsBound(g, x, ks[0]);
      TargetsBound(g, y, ks[0]);
      ListEqLength(g, Targets(g[x].edges, ks[0]), Targets(g[y].edges, ks[0]), fuel);
      DictEqSound(g, x, y, ks[1..], fuel);
      assert forall l | l in ks :: l == ks[0] || l in ks[1..];
    }
  }

  /** A label without arcs has no targets. */
  lemma NoKeyNoTargets(edges: seq<(Label, nat)>, l: Label)
    requires l !in Keys(edges)
    ensures Targets(edges, l) == []
  {
  }

  /** Equal states have the same labels and, per label, as many targets. */
  lemma {:induction false} EqualSameShape(g: Graph, x: nat, y: nat, fuel: nat, l: Label)
    requires WellFormed(g) && x < |g| && y < |g|
    requires StateEq(g, x, y, fuel) == Some(true)
    ensures Keys(g[x].edges) == Keys(g[y].edges)
    ensures |Targets(g[x].edges, l)| == |Targets(g[y].edges, l)|
  {
    DictEqSound(g, x, y, KeyOrder(g[x].edges), fuel);
    if l !in Keys(g[x].edges) {
      NoKeyNoTargets(g[x].edges, l);
      NoKeyNoTargets(g[y].edges, l);
    }
  }

  /** Structural equality of `x` and `y` explored `k` calls deep, as the list
      comparison in `__eq__` sees it, identity first: the same labels, and per
      label target lists of one length whose members are pairwise the same
      state or equal `k - 1` calls deep. */
  ghost predicate EqualTo(g: Graph, x: nat, y: nat, k: nat)
    requires WellFormed(g) && x < |g| && y < |g|
    decreases k, 0
  {
    k > 0 && Keys(g[x].edges) == Keys(g[y].edges)
    && forall l | l in Keys(g[x].edges) :: SameTargets(g, Targets(g[x].edges, l), Targets(g[y].edges, l), k - 1)
  }

  ghost predicate SameTargets(g: Graph, v: seq<nat>, w: seq<nat>, k: nat)
    requires WellFormed(g)
    decreases k, 1
  {
    |v| == |w| && forall i | 0 <= i < |v| :: v[i] == w[i] || (v[i] < |g| && w[i] < |g| && EqualTo(g, v[i], w[i], k))
  }

  lemma {:induction false} SameTargetsCons(g: Graph, v: seq<nat>, w: seq<nat>, k: nat)
    requires WellFormed(g) && |v| == |w| > 0
    ensures SameTargets(g, v, w, k)
            <==> (v[0] == w[0] || (v[0] < |g| && w[0] < |g| && EqualTo(g, v[0], w[0], k)))
                 && SameTargets(g, v[1..], w[1..], k)
  {
    assert forall i | 0 <= i < |v| - 1 :: v[1..][i] == v[i + 1] && w[1..][i] == w[i + 1];
    if (v[0] == w[0] || (v[0] < |g| && w[0] < |g| && EqualTo(g, v[0], w[0], k))) && SameTargets(g, v[1..], w[1..], k) {
      forall i | 0 <= i < |v|
        ensures v[i] == w[i] || (v[i] < |g| && w[i] < |g| && EqualTo(g, v[i], w[i], k))
      {
        if i > 0 {
          assert v[1..][i - 1] == v[i] && w[1..][i - 1] == w[i];
        }
      }
    }
  }

  /** `__eq__` returns `True` within `fuel` nested calls exactly when the states
      are structurally equal `fuel` calls deep. */
  lemma {:induction false} StateEqTrue(g: Graph, x: nat, y: nat, fuel: nat)
    requires WellFormed(g) && x < |g| && y < |g|
    ensures StateEq(g, x, y, fuel) == Some(true) <==> EqualTo(g, x, y, fuel)
    decreases fuel, 3, 0
  {
    if fuel > 0 && Keys(g[x].edges) == Keys(g[y].edges) {
      DictEqTrue(g, x, y, KeyOrder(g[x].edges), fuel);
    }
  }

  lemma {:induction false} DictEqTrue(g: Graph, x: nat, y: nat, ks: seq<Label>, fuel: nat)
    requires WellFormed(g) && x < |g| && y < |g| && fuel > 0
    ensures DictEq(g, x, y, ks, fuel) == Some(true)
            <==> forall l | l in ks :: SameTargets(g, Targets(g[x].edges, l), Targets(g[y].edges, l), fuel - 1)
    decreases fuel, 2, |ks|
  {
    if ks != [] {
      var v := Targets(g[x].edges, ks[0]);
      var w := Targets(g[y].edges, ks[0]);
      TargetsBound(g, x, ks[0]);
      TargetsBound(g, y, ks[0]);
      assert DictEq(g, x, y, ks, fuel) == Some(true)
             <==> ListEq(g, v, w, fuel) == Some(true) && DictEq(g, x, y, ks[1..], fuel) == Some(true);
      ListEqTrue(g, v, w, fuel);
      DictEqTrue(g, x, y, ks[1..], fuel);
      assert ks[0] in ks && forall l | l in ks[1..] :: l in ks;
      if SameTargets(g, v, w, fuel - 1)
         && forall l | l in ks[1..] :: SameTargets(g, Targets(g[x].edges, l), Targets(g[y].edges, l), fuel - 1)
      {
        forall l | l in ks
          ensures SameTargets(g, Targets(g[x].edges, l), Targets(g[y].edges, l), fuel - 1)
        {
          assert l == ks[0] || l in ks[1..];
        }
      }
    }
  }

  lemma {:induction false} ListEqTrue(g: Graph, v: seq<nat>, w: seq<nat>, fuel: nat)
    requires WellFormed(g) && fuel > 0 && (forall t | t in v :: t < |g|) && (forall t | t in w :: t < |g|)
    ensures ListEq(g, v, w, fuel) == Some(true) <==> SameTargets(g, v, w, fuel - 1)
    decreases fuel, 1, |v|
  {
    if |v| == |w| && v != [] {
      assert v[0] in v && w[0] in w;
      assert (forall t | t in v[1..] :: t in v) && (forall t | t in w[1..] :: t in w);
      SameTargetsCons(g, v, w, fuel - 1);
      ListEqCons(g, v, w, fuel);
      ListEqTrue(g, v[1..], w[1..], fuel);
      if v[0] != w[0] {
        StateEqTrue(g, v[0], w[0], fuel - 1);
      }
    }
  }

  lemma {:induction false} ListEqCons(g: Graph, v: seq<nat>, w: seq<nat>, fuel: nat)
    requires WellFormed(g) && fuel > 0 && (forall t | t in v :: t < |g|) && (forall t | t in w :: t < |g|)
    requires |v| == |w| && v != [] && v[0] < |g| && w[0] < |g|
    requires (forall t | t in v[1..] :: t < |g|) && (forall t | t in w[1..] :: t < |g|)
    ensures ListEq(g, v, w, fuel) == Some(true)
            <==> (v[0] == w[0] || StateEq(g, v[0], w[0], fuel - 1) == Some(true)) && ListEq(g, v[1..], w[1..], fuel) == Some(true)
  {
  }

  /** `__eq__` returning `False` finds the states unequal at every depth. */
  lemma {:induction false} StateEqFalse(g: Graph, x: nat, y: nat, fuel: nat, k: nat)
    requires WellFormed(g) && x < |g| && y < |g|
    ensures StateEq(g, x, y, fuel) == Some(false) ==> !EqualTo(g, x, y, k)
    decreases fuel, 3, 0
  {
    if fuel > 0 && k > 0 && Keys(g[x].edges) == Keys(g[y].edges) {
      DictEqFalse(g, x, y, KeyOrder(g[x].edges), fuel, k - 1);
    }
  }

  lemma {:induction false} DictEqFalse(g: Graph, x: nat, y: nat, ks: seq<Label>, fuel: nat, k: nat)
    requires WellFormed(g) && x < |g| && y < |g| && fuel > 0
    ensures DictEq(g, x, y, ks, fuel) == Some(false)
            ==> exists l :: l in ks && !SameTargets(g, Targets(g[x].edges, l), Targets(g[y].edges, l), k)
    decreases fuel, 2, |ks|
  {
    if ks != [] {
      TargetsBound(g, x, ks[0]);
      TargetsBound(g, y, ks[0]);
      ListEqFalse(g, Targets(g[x].edges, ks[0]), Targets(g[y].edges, ks[0]), fuel, k);
      DictEqFalse(g, x, y, ks[1..], fuel, k);
      assert forall l | l in ks[1..] :: l in ks;
    }
  }

  lemma {:induction false} ListEqFalse(g: Graph, v: seq<nat>, w: seq<nat>, fuel: nat, k: nat)
    requires WellFormed(g) && fuel > 0 && (forall t | t in v :: t < |g|) && (forall t | t in w :: t < |g|)
    ensures ListEq(g, v, w, fuel) == Some(false) ==> !SameTargets(g, v, w, k)
    decreases fuel, 1, |v|
  {
    if |v| == |w| && v != [] {
      assert v[0] in v && w[0] in w;
      assert (forall t | t in v[1..] :: t in v) && (forall t | t in w[1..] :: t in w);
      SameTargetsCons(g, v, w, k);
      ListEqFalse(g, v[1..], w[1..], fuel, k);
      if v[0] != w[0] {
        StateEqFalse(g, v[0], w[0], fuel - 1, k);
      }
    }
  }

  /** `TokenState.__eq__` against its reference: `True` exactly when the states
      are structurally equal as deep as the recursion went, and `False` only
      when they are unequal however deep one looks. */
  lemma {:induction false} StateEqMeans(g: Graph, x: nat, y: nat, fuel: nat)
    requires WellFormed(g) && x < |g| && y < |g|
    ensures StateEq(g, x, y, fuel) == Some(true) <==> EqualTo(g, x, y, fuel)
    ensures StateEq(g, x, y, fuel) == Some(false) ==> forall k :: !EqualTo(g, x, y, k)
  {
    StateEqTrue(g, x, y, fuel);
    forall k ensures StateEq(g, x, y, fuel) == Some(false) ==> !EqualTo(g, x, y, k) {
      StateEqFalse(g, x, y, fuel, k);
    }
  }
}
