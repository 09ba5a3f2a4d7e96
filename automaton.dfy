/** Shared vocabulary of the automaton engine: transition labels, NFA states held
    in an arena (a state's id is its index, handed out by a monotonic counter),
    the views of a state's `arcs` dictionary, and epsilon reachability. */
module Automaton {

  datatype Option<T> = None | Some(value: T)

  /** The outcome of an operation that can raise: its value, or the error raised. */
  datatype Result<T, E> = Ok(value: T) | Err(error: E)

  /** A transition label. `Eps` is the source's `None` label (an epsilon arc);
      `Chr` labels come from regular expressions; `TokenClass`, `RuleClass` and
      `Lit` (a quoted string) are the labels of grammar-rule automata. */
  datatype Label = Eps | Chr(c: char) | TokenClass(cls: string) | RuleClass(rule: string) | Lit(text: string)

  /** One NFA state (a `TokenState`, or an `NFAState` when `data` carries a payload).
      `edges` lists every `arc` call on the state in call order, so that
      `arcs[l]` is `Targets(edges, l)` and the dictionary's key order is `KeyOrder(edges)`. */
  datatype NState = NState(edges: seq<(Label, nat)>, isFinal: bool, data: Option<string>)

  /** A freshly constructed state: no arcs, not final, no payload. */
  const Blank: NState := NState([], false, None)

  /** The arena of all states; state `x` is `g[x]`. */
  type Graph = seq<NState>

  /** Every arc of every state points at a state of the arena. */
  ghost predicate WellFormed(g: Graph) {
    forall x, e | 0 <= x < |g| && e in g[x].edges :: e.1 < |g|
  }

  /** `arcs[l]`: the targets of the arcs labelled `l`, in the order they were added. */
  function Targets(edges: seq<(Label, nat)>, l: Label): (r: seq<nat>)
    ensures forall t :: t in r <==> (l, t) in edges
    ensures |r| <= |edges|
  {
    if edges == [] then []
    else
      var last := edges[|edges| - 1];
      Targets(edges[..|edges| - 1], l) + (if last.0 == l then [last.1] else [])
  }

  /** The keys of the `arcs` dictionary: the labels that have at least one arc. */
  function Keys(edges: seq<(Label, nat)>): set<Label> {
    set e | e in edges :: e.0
  }

  /** The dictionary's iteration order: each label once, in order of its first arc. */
  function KeyOrder(edges: seq<(Label, nat)>): (r: seq<Label>)
    ensures forall l :: l in r <==> l in Keys(edges)
    ensures forall i, j | 0 <= i < j < |r| :: r[i] != r[j]
  {
    if edges == [] then []
    else
      var front := edges[..|edges| - 1];
      var last := edges[|edges| - 1];
      assert forall e :: e in edges <==> e in front || e == last;
      var k := KeyOrder(front);
      if last.0 in k then k else k + [last.0]
  }

  /** The pairs `(l, t)` for the targets `ts` of one label. */
  function Tag(l: Label, ts: seq<nat>): (r: seq<(Label, nat)>)
    ensures forall p :: p in r <==> p.0 == l && p.1 in ts
  {
    if ts == [] then [] else [(l, ts[0])] + Tag(l, ts[1..])
  }

  /** The arcs of the labels `ks`, label by label, as `for char, nodes in arcs.items()` visits them. */
  function ItemsOf(edges: seq<(Label, nat)>, ks: seq<Label>): (r: seq<(Label, nat)>)
    ensures forall p :: p in r <==> p.0 in ks && p in edges
  {
    if ks == [] then [] else Tag(ks[0], Targets(edges, ks[0])) + ItemsOf(edges, ks[1..])
  }

  /** Every arc of a state, in dictionary iteration order. */
  function DictItems(edges: seq<(Label, nat)>): (r: seq<(Label, nat)>)
    ensures forall p :: p in r <==> p in edges
  {
    ItemsOf(edges, KeyOrder(edges))
  }

  /** `from.arc(l, to)`: one more arc from `from`; nothing else changes. */
  function ArcG(g: Graph, from: nat, l: Label, to: nat): Graph
    requires from < |g|
  {
    g[from := g[from].(edges := g[from].edges + [(l, to)])]
  }

  /** `arc(c, n)` appends `n` to the end of `arcs[c]` and leaves every other
      label's list, and every other state, as it was. */
  lemma ArcAppends(g: Graph, from: nat, l: Label, to: nat, l': Label)
    requires from < |g|
    ensures |ArcG(g, from, l, to)| == |g|
    ensures Targets(ArcG(g, from, l, to)[from].edges, l) == Targets(g[from].edges, l) + [to]
    ensures l' != l ==> Targets(ArcG(g, from, l, to)[from].edges, l') == Targets(g[from].edges, l')
    ensures forall x | 0 <= x < |g| && x != from :: ArcG(g, from, l, to)[x] == g[x]
  {
    var e := g[from].edges + [(l, to)];
    assert e[..|e| - 1] == g[from].edges;
  }

  /** Arcs are only ever added: every state keeps its arcs as a prefix, its finality
      and its payload; states created since are not final and carry no payload. */
  ghost predicate Grows(g: Graph, g': Graph) {
    |g| <= |g'|
    && (forall x | 0 <= x < |g| ::
          g[x].edges <= g'[x].edges && g'[x].isFinal == g[x].isFinal && g'[x].data == g[x].data)
    && (forall x | |g| <= x < |g'| :: !g'[x].isFinal && g'[x].data == None)
  }

  lemma GrowsTrans(g1: Graph, g2: Graph, g3: Graph)
    requires Grows(g1, g2) && Grows(g2, g3)
    ensures Grows(g1, g3)
  {
    forall x | 0 <= x < |g1| ensures g1[x].edges <= g3[x].edges {
      assert g1[x].edges <= g2[x].edges <= g3[x].edges;
    }
  }

  /** The labels other than epsilon on the arcs of the states `ids`. */
  ghost function NonEpsLabels(g: Graph, ids: set<nat>): set<Label> {
    set x, e | x in ids && 0 <= x < |g| && e in g[x].edges && e.0 != Eps :: e.0
  }

  /** Some state of `ids` is final. */
  ghost predicate AnyFinal(g: Graph, ids: set<nat>) {
    exists x :: x in ids && 0 <= x < |g| && g[x].isFinal
  }

  /** The targets of the `l`-arcs of the states `ids`. */
  ghost function Move(g: Graph, ids: set<nat>, l: Label): set<nat> {
    set x, e | x in ids && 0 <= x < |g| && e in g[x].edges && e.0 == l :: e.1
  }

  /** `x` is reached from `s` by at most `n` epsilon arcs. */
  ghost predicate EpsPath(g: Graph, s: nat, x: nat, n: nat)
    decreases n
  {
    s == x || (n > 0 && s < |g| && exists e :: e in g[s].edges && e.0 == Eps && EpsPath(g, e.1, x, n - 1))
  }

  /** `x` is reached from `s` by epsilon arcs alone. */
  ghost predicate Reaches(g: Graph, s: nat, x: nat) {
    exists n: nat :: EpsPath(g, s, x, n)
  }

  /** Every epsilon arc leaving a member of `c` ends in `c`. */
  ghost predicate EpsClosed(g: Graph, c: set<nat>) {
    forall x, e | x in c && 0 <= x < |g| && e in g[x].edges && e.0 == Eps :: e.1 in c
  }

  /** The epsilon closure of the states `s`. */
  ghost function Closure(g: Graph, s: set<nat>): set<nat> {
    set y, x | y in s && 0 <= x < |g| && Reaches(g, y, x) :: x
  }

  /** The elements of a sequence. */
  function Elems<T(!new)>(s: seq<T>): (r: set<T>)
    ensures forall x :: x in r <==> x in s
  {
    set x | x in s
  }

  /** The ids of the arena's states. */
  function Range(n: nat): (r: set<nat>)
    ensures forall x: nat :: x in r <==> x < n
  {
    if n == 0 then {} else Range(n - 1) + {n - 1}
  }

  lemma ReachesRefl(g: Graph, s: nat)
    ensures Reaches(g, s, s)
  {
    assert EpsPath(g, s, s, 0);
  }

  lemma ReachesStep(g: Graph, s: nat, e: (Label, nat), x: nat)
    requires s < |g| && e in g[s].edges && e.0 == Eps
    requires Reaches(g, e.1, x)
    ensures Reaches(g, s, x)
  {
    var n: nat :| EpsPath(g, e.1, x, n);
    assert EpsPath(g, s, x, n + 1);
  }

  /** Epsilon paths in a well-formed arena stay inside it. */
  lemma {:induction false} PathInRange(g: Graph, s: nat, x: nat, n: nat)
    requires WellFormed(g) && s < |g| && EpsPath(g, s, x, n)
    ensures x < |g|
    decreases n
  {
    if s != x {
      var e :| e in g[s].edges && e.0 == Eps && EpsPath(g, e.1, x, n - 1);
      PathInRange(g, e.1, x, n - 1);
    }
  }

  /** A set closed under epsilon arcs holds everything reachable from its members. */
  lemma {:induction false} ClosedHoldsPath(g: Graph, c: set<nat>, s: nat, x: nat, n: nat)
    requires EpsClosed(g, c) && s in c && EpsPath(g, s, x, n)
    ensures x in c
    decreases n
  {
    if s != x {
      var e :| e in g[s].edges && e.0 == Eps && EpsPath(g, e.1, x, n - 1);
      ClosedHoldsPath(g, c, e.1, x, n - 1);
    }
  }

  lemma ClosedHoldsReach(g: Graph, c: set<nat>, s: nat, x: nat)
    requires EpsClosed(g, c) && s in c && Reaches(g, s, x)
    ensures x in c
  {
    var n: nat :| EpsPath(g, s, x, n);
    ClosedHoldsPath(g, c, s, x, n);
  }

  /** An epsilon path extends by one more epsilon arc at its end. */
  lemma {:induction false} EpsPathSnoc(g: Graph, s: nat, x: nat, n: nat, e: (Label, nat))
    requires EpsPath(g, s, x, n) && x < |g| && e in g[x].edges && e.0 == Eps
    ensures EpsPath(g, s, e.1, n + 1)
    decreases n
  {
    if s == x {
      assert EpsPath(g, e.1, e.1, 0);
    } else {
      var f :| f in g[s].edges && f.0 == Eps && EpsPath(g, f.1, x, n - 1);
      EpsPathSnoc(g, f.1, x, n - 1, e);
    }
  }

  /** The epsilon closure is epsilon-closed. */
  lemma ClosureClosed(g: Graph, s: set<nat>)
    requires WellFormed(g)
    ensures EpsClosed(g, Closure(g, s))
  {
    forall x, e | x in Closure(g, s) && 0 <= x < |g| && e in g[x].edges && e.0 == Eps
      ensures e.1 in Closure(g, s)
    {
      var y :| y in s && Reaches(g, y, x);
      var n: nat :| EpsPath(g, y, x, n);
      EpsPathSnoc(g, y, x, n, e);
      assert y in s && e.1 < |g| && Reaches(g, y, e.1);
    }
  }

  /** The closure of a set is the closure of its members taken one at a time. */
  lemma ClosureAdd(g: Graph, s: set<nat>, t: nat)
    ensures Closure(g, s + {t}) == Closure(g, s) + Closure(g, {t})
  {
  }

  /** The epsilon closure of `s` is the least epsilon-closed set holding `s`. */
  lemma ClosureWithin(g: Graph, s: set<nat>, c: set<nat>)
    requires s <= c && EpsClosed(g, c)
    ensures Closure(g, s) <= c
  {
    forall x | x in Closure(g, s) ensures x in c {
      var y :| y in s && Reaches(g, y, x);
      ClosedHoldsReach(g, c, y, x);
    }
  }

  /** A set of states reachable from `s` lies inside the closure of `s`. */
  lemma ClosureCovers(g: Graph, s: set<nat>, c: set<nat>)
    requires c <= Range(|g|)
    requires forall x | x in c :: exists y :: y in s && Reaches(g, y, x)
    ensures c <= Closure(g, s)
  {
    forall x | x in c ensures x in Closure(g, s) {
      var y :| y in s && Reaches(g, y, x);
      ClosureMember(g, s, y, x);
    }
  }

  lemma ClosureMember(g: Graph, s: set<nat>, y: nat, x: nat)
    requires y in s && x < |g| && Reaches(g, y, x)
    ensures x in Closure(g, s)
  {
  }

  /** Every subset of `u`. */
  ghost function PowerSet(u: set<nat>): (r: set<set<nat>>)
    ensures forall s | s <= u :: s in r
  {
    if u == {} then
      assert forall s | s <= u :: s == {};
      {{}}
    else
      var e :| e in u;
      var p := PowerSet(u - {e});
      var q := p + set s | s in p :: s + {e};
      assert forall s | s <= u :: s in q by {
        forall s | s <= u ensures s in q {
          if e in s {
            assert s - {e} in p;
            assert (s - {e}) + {e} == s;
          } else {
            assert s <= u - {e};
          }
        }
      }
      q
  }
}
