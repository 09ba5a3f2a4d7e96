/** `ASTBuilder._build_rules` of pyparser/ast.py: the tokens of each rule are
    compiled into an NFA over token-class, rule and string labels, in the arena
    of states the token patterns also use; the rule's end state is marked final
    with the rule as payload, and `nfa2dfa` turns the NFA into the rule's DFA. */
module Rules {
  import opened Automaton
  import opened Grammar
  import Tokenize
  import Dfa

  /** An entry of `par_stack`: the state `cur` was when the group opened and,
      once a `|` was met in the group, the state its first alternative ended in. */
  datatype Frame = Frame(start: nat, end: Option<nat>)

  /** The variables of the loop over a rule's tokens: the arena, `cur` and
      `par_stack`. */
  datatype RScan = RScan(g: Graph, cur: nat, stack: seq<Frame>)

  /** Every state the loop refers to is in the arena. */
  ghost predicate RScanOk(s: RScan) {
    && WellFormed(s.g) && s.cur < |s.g|
    && (forall k | 0 <= k < |s.stack| ::
          s.stack[k].start < |s.g| && (s.stack[k].end.Some? ==> s.stack[k].end.value < |s.g|))
  }

  /** The label of a name in a rule: the token class of that name if there is
      one, else the rule of that name; an unknown name makes the unpacking of
      `pre_rules.get(name, None)` fail. */
  function Resolve(n: string, classes: map<string, string>, names: set<string>): Result<Label, GrammarError> {
    if n in classes then Ok(TokenClass(classes[n]))
    else if n in names then Ok(RuleClass(n))
    else Err(UnpackNone(n))
  }

  /** The suffix `op` of a `)` on the group from `start` to `end`: `?` lets the
      group be skipped, `+` repeated, `*` both. */
  function GroupSuffix(g: Graph, op: char, start: nat, end: nat): Graph
    requires start < |g| && end < |g|
  {
    if op == '?' then Tokenize.MayOne(g, start, end)
    else if op == '+' then ArcG(g, end, Eps, start)
    else if op == '*' then Tokenize.AnyTimes(g, start, end)
    else g
  }

  /** `)`: pop the innermost group; its end is the end of its first alternative,
      or `cur` when it has one alternative. Only when a suffix follows is the
      suffix applied and `cur` joined to the end by an epsilon arc. */
  function Close(s: RScan, suffix: Option<char>): Result<RScan, GrammarError>
    requires RScanOk(s)
  {
    if s.stack == [] then Err(CloseWithoutOpen)
    else
      var top := s.stack[|s.stack| - 1];
      var stack := s.stack[..|s.stack| - 1];
      var end := if top.end.Some? then top.end.value else s.cur;
      if top.start == end then Err(EmptyGroup)
      else if suffix.None? then Ok(RScan(s.g, s.cur, stack))
      else
        var g := GroupSuffix(s.g, suffix.value, top.start, end);
        if s.cur != end then Ok(RScan(ArcG(g, s.cur, Eps, end), end, stack))
        else Ok(RScan(g, s.cur, stack))
  }

  /** `|`: the first `|` of a group records `cur` as the group's end; the next
      alternative starts again from the group's start, which must not be `cur`. */
  function Alternative(s: RScan): Result<RScan, GrammarError> {
    if s.stack == [] then Err(OrWithoutOpen)
    else
      var top := s.stack[|s.stack| - 1];
      if top.start == s.cur then Err(OrAfterOpen)
      else
        var top' := if top.end.None? then top.(end := Some(s.cur)) else top;
        Ok(RScan(s.g, top.start, s.stack[..|s.stack| - 1] + [top']))
  }

  /** One turn of the loop over a rule's tokens. A name or a string adds an arc
      from `cur` to a new state, which becomes `cur`; `=`, `;` and numbers do
      nothing. */
  function RuleStep(s: RScan, t: GTok, classes: map<string, string>, names: set<string>): Result<RScan, GrammarError>
    requires RScanOk(s)
  {
    match t
    case LeftOp => Ok(s.(stack := s.stack + [Frame(s.cur, None)]))
    case RightOp(suffix) => Close(s, suffix)
    case Or => Alternative(s)
    case Name(n) =>
      (match Resolve(n, classes, names)
       case Err(e) => Err(e)
       case Ok(l) => Ok(s.(g := Tokenize.ArcNew(s.g, s.cur, l), cur := |s.g|)))
    case Str(lexeme) => Ok(s.(g := Tokenize.ArcNew(s.g, s.cur, Lit(Unquote(lexeme))), cur := |s.g|))
    case _ => Ok(s)
  }

  lemma GroupSuffixOk(g: Graph, op: char, start: nat, end: nat)
    requires WellFormed(g) && start < |g| && end < |g|
    ensures WellFormed(GroupSuffix(g, op, start, end)) && |GroupSuffix(g, op, start, end)| == |g|
  {
    Tokenize.ArcGrows(g, start, Eps, end);
    Tokenize.ArcGrows(g, end, Eps, start);
    Tokenize.ArcGrows(Tokenize.MayOne(g, start, end), end, Eps, start);
  }

  lemma CloseOk(s: RScan, suffix: Option<char>)
    requires RScanOk(s)
    ensures Close(s, suffix).Ok? ==> RScanOk(Close(s, suffix).value) && |s.g| <= |Close(s, suffix).value.g|
  {
    if s.stack != [] {
      var top := s.stack[|s.stack| - 1];
      var end := if top.end.Some? then top.end.value else s.cur;
      if suffix.Some? {
        GroupSuffixOk(s.g, suffix.value, top.start, end);
        Tokenize.ArcGrows(GroupSuffix(s.g, suffix.value, top.start, end), s.cur, Eps, end);
      }
    }
  }

  lemma AlternativeOk(s: RScan)
    requires RScanOk(s)
    ensures Alternative(s).Ok? ==> RScanOk(Alternative(s).value) && Alternative(s).value.g == s.g
  {
  }

  /** Every turn keeps the loop's states in a well-formed arena that only grows. */
  lemma RuleStepOk(s: RScan, t: GTok, classes: map<string, string>, names: set<string>)
    requires RScanOk(s)
    ensures RuleStep(s, t, classes, names).Ok? ==>
              RScanOk(RuleStep(s, t, classes, names).value) && |s.g| <= |RuleStep(s, t, classes, names).value.g|
  {
    match t
    case LeftOp =>
    case RightOp(suffix) => CloseOk(s, suffix);
    case Or => AlternativeOk(s);
    case Name(n) =>
      if Resolve(n, classes, names).Ok? {
        Tokenize.ArcNewGrows(s.g, s.cur, Resolve(n, classes, names).value);
      }
    case Str(lexeme) => Tokenize.ArcNewGrows(s.g, s.cur, Lit(Unquote(lexeme)));
    case _ =>
  }

  /** The rest of the loop over `body` from token `i` on: the arena and `cur`
      at the end, or the error raised on the way. Groups left open at the end
      are not an error. */
  function RunRule(body: seq<GTok>, i: nat, s: RScan, classes: map<string, string>, names: set<string>)
    : Result<(Graph, nat), GrammarError>
    requires RScanOk(s)
    decreases |body| - i
  {
    if i >= |body| then Ok((s.g, s.cur))
    else
      match RuleStep(s, body[i], classes, names)
      case Err(e) => Err(e)
      case Ok(s') => RuleStepOk(s, body[i], classes, names); RunRule(body, i + 1, s', classes, names)
  }

  lemma {:induction false} RunRuleOk(body: seq<GTok>, i: nat, s: RScan, classes: map<string, string>, names: set<string>)
    requires RScanOk(s)
    ensures var r := RunRule(body, i, s, classes, names);
            r.Ok? ==> WellFormed(r.value.0) && |s.g| <= |r.value.0| && r.value.1 < |r.value.0|
    decreases |body| - i
  {
    if i < |body| {
      RuleStepOk(s, body[i], classes, names);
      if RuleStep(s, body[i], classes, names).Ok? {
        RunRuleOk(body, i + 1, RuleStep(s, body[i], classes, names).value, classes, names);
      }
    }
  }

  /** The loop's start for a rule built on top of the arena `g0`: a new state
      `root` is `cur` and the group stack is empty. */
  function RuleStart(g0: Graph): RScan {
    RScan(g0 + [Blank], |g0|, [])
  }

  lemma RuleStartOk(g0: Graph)
    requires WellFormed(g0)
    ensures RScanOk(RuleStart(g0))
  {
    Tokenize.NewGrows(g0);
  }

  /** `x.is_final = True` and `x.data` set to the rule `name`. */
  function AcceptG(g: Graph, x: nat, name: string): Graph
    requires x < |g|
  {
    g[x := g[x].(isFinal := true, data := Some(name))]
  }

  /** The NFA of the rule `name` with tokens `body`, built on top of `g0`; the
      `cur` reached at the end is final and carries the rule as its payload.
      `names` are the names of all rules of the grammar. */
  function RuleNfa(g0: Graph, body: seq<GTok>, classes: map<string, string>, names: set<string>, name: string)
    : Result<Tokenize.Built, GrammarError>
    requires WellFormed(g0)
  {
    RuleStartOk(g0);
    match RunRule(body, 0, RuleStart(g0), classes, names)
    case Err(e) => Err(e)
    case Ok((g, cur)) =>
      RunRuleOk(body, 0, RuleStart(g0), classes, names);
      Ok(Tokenize.Built(AcceptG(g, cur, name), |g0|, cur))
  }

  /** A rule's NFA is a well-formed arena on top of `g0`, with the new `root`
      and a final end state carrying the rule. */
  lemma RuleNfaOk(g0: Graph, body: seq<GTok>, classes: map<string, string>, names: set<string>, name: string)
    requires WellFormed(g0)
    ensures var r := RuleNfa(g0, body, classes, names, name);
            r.Ok? ==> && WellFormed(r.value.g) && r.value.root == |g0| < |r.value.g| && r.value.last < |r.value.g|
                      && r.value.g[r.value.last].isFinal && r.value.g[r.value.last].data == Some(name)
  {
    RuleStartOk(g0);
    RunRuleOk(body, 0, RuleStart(g0), classes, names);
    var r := RunRule(body, 0, RuleStart(g0), classes, names);
    if r.Ok? {
      var g := r.value.0;
      var g' := AcceptG(g, r.value.1, name);
      assert forall x | 0 <= x < |g'| :: g'[x].edges == g[x].edges;
    }
  }

  // ---------------------------------------------------------------------------
  // The loop of `_build_rules` on the arena

  /** The loop variables after a turn, or the error raised. */
  function ResumeRule(g: Graph, r: Result<(nat, seq<Frame>), GrammarError>): Result<RScan, GrammarError> {
    if r.Err? then Err(r.error) else Ok(RScan(g, r.value.0, r.value.1))
  }

  /** The branch of the loop for `)`. */
  method CloseAt(arena: Tokenize.StateGraph, cur: nat, stack: seq<Frame>, suffix: Option<char>)
    returns (r: Result<(nat, seq<Frame>), GrammarError>)
    requires RScanOk(RScan(arena.states, cur, stack))
    modifies arena
    ensures Close(RScan(old(arena.states), cur, stack), suffix) == ResumeRule(arena.states, r)
  {
    if |stack| == 0 {
      return Err(CloseWithoutOpen);
    }
    var start := stack[|stack| - 1].start;
    var end := if stack[|stack| - 1].end.Some? then stack[|stack| - 1].end.value else cur;
    var popped := stack[..|stack| - 1];
    if start == end {
      return Err(EmptyGroup);
    }
    if suffix.None? {
      return Ok((cur, popped));
    }
    var op := suffix.value;
    if op == '?' {
      var _ := arena.Arc(start, Eps, end);
    } else if op == '+' {
      var _ := arena.Arc(end, Eps, start);
    } else if op == '*' {
      var _ := arena.Arc(start, Eps, end);
      var _ := arena.Arc(end, Eps, start);
    }
    var cur' := cur;
    if cur != end {
      cur' := arena.Arc(cur, Eps, end);
    }
    r := Ok((cur', popped));
  }

  /** One turn of the loop of `_build_rules`, at the token `t`. */
  method RuleStepAt(arena: Tokenize.StateGraph, t: GTok, cur: nat, stack: seq<Frame>,
                    classes: map<string, string>, names: set<string>)
    returns (r: Result<(nat, seq<Frame>), GrammarError>)
    requires RScanOk(RScan(arena.states, cur, stack))
    modifies arena
    ensures RuleStep(RScan(old(arena.states), cur, stack), t, classes, names) == ResumeRule(arena.states, r)
  {
    match t
    case LeftOp =>
      r := Ok((cur, stack + [Frame(cur, None)]));
    case RightOp(suffix) =>
      r := CloseAt(arena, cur, stack, suffix);
    case Or =>
      if |stack| == 0 {
        return Err(OrWithoutOpen);
      }
      var top := stack[|stack| - 1];
      var stack' := stack;
      if top.end.None? {
        stack' := stack[|stack| - 1 := top.(end := Some(cur))];
      }
      if top.start == cur {
        return Err(OrAfterOpen);
      }
      assert stack' == stack[..|stack| - 1] + [stack'[|stack| - 1]];
      r := Ok((top.start, stack'));
    case Name(n) =>
      var arcLabel: Label;
      if n in classes {
        arcLabel := TokenClass(classes[n]);
      } else if n in names {
        arcLabel := RuleClass(n);
      } else {
        return Err(UnpackNone(n));
      }
      var next := arena.NewState();
      var cur' := arena.Arc(cur, arcLabel, next);
      r := Ok((cur', stack));
    case Str(lexeme) =>
      var next := arena.NewState();
      var cur' := arena.Arc(cur, Lit(Unquote(lexeme)), next);
      r := Ok((cur', stack));
    case _ =>
      r := Ok((cur, stack));
  }

  /** The body of the loop of `_build_rules` for one rule: its NFA is built on
      the arena, its end state marked final with the rule as payload; returns
      the rule's `root` and that end state. */
  method BuildRule(arena: Tokenize.StateGraph, body: seq<GTok>, classes: map<string, string>, names: set<string>,
                   name: string)
    returns (r: Result<(nat, nat), GrammarError>)
    requires WellFormed(arena.states)
    modifies arena
    ensures RuleNfa(old(arena.states), body, classes, names, name)
         == if r.Err? then Err(r.error) else Ok(Tokenize.Built(arena.states, r.value.0, r.value.1))
  {
    ghost var s0 := RuleStart(arena.states);
    RuleStartOk(arena.states);
    var root := arena.NewState();
    var cur, stack := root, [];
    for i := 0 to |body|
      invariant RScanOk(RScan(arena.states, cur, stack))
      invariant RunRule(body, i, RScan(arena.states, cur, stack), classes, names) == RunRule(body, 0, s0, classes, names)
    {
      RuleStepOk(RScan(arena.states, cur, stack), body[i], classes, names);
      var step := RuleStepAt(arena, body[i], cur, stack, classes, names);
      if step.Err? {
        return Err(step.error);
      }
      cur, stack := step.value.0, step.value.1;
    }
    arena.Accept(cur, name);
    r := Ok((root, cur));
  }

  // ---------------------------------------------------------------------------
  // All rules

  /** The NFAs of the rules `rs`, built one after the other on a growing arena
      starting from `g`, or the first error; `names` are the names of all rules. */
  function BuildAll(g: Graph, rs: seq<Rule>, classes: map<string, string>, names: set<string>)
    : Result<seq<Tokenize.Built>, GrammarError>
    requires WellFormed(g)
    decreases |rs|
  {
    if rs == [] then Ok([])
    else
      match RuleNfa(g, rs[0].1, classes, names, rs[0].0)
      case Err(e) => Err(e)
      case Ok(b) =>
        RuleNfaOk(g, rs[0].1, classes, names, rs[0].0);
        match BuildAll(b.g, rs[1..], classes, names)
        case Err(e) => Err(e)
        case Ok(bs) => Ok([b] + bs)
  }

  /** `bs` in front of the NFAs of a result, or its error. */
  function Prepend(bs: seq<Tokenize.Built>, r: Result<seq<Tokenize.Built>, GrammarError>)
    : Result<seq<Tokenize.Built>, GrammarError>
  {
    if r.Err? then r else Ok(bs + r.value)
  }

  /** `dfas` pairs each rule of `rs` with the start state of the DFA of its NFA
      in `bs`: the epsilon closure of the rule's root. */
  ghost predicate Compiled(rs: seq<Rule>, bs: seq<Tokenize.Built>, dfas: seq<(string, Dfa.DState)>)
    reads set k | 0 <= k < |dfas| :: dfas[k].1
  {
    && |dfas| == |rs| == |bs|
    && forall k | 0 <= k < |rs| :: dfas[k].0 == rs[k].0 && dfas[k].1.ids == Closure(bs[k].g, {bs[k].root})
  }

  /** The first of the remaining rules, built on `g`, leaves the rest to be
      built on its arena. */
  lemma BuildAllStep(g: Graph, rs: seq<Rule>, k: nat, classes: map<string, string>, names: set<string>,
                     b: Tokenize.Built)
    requires WellFormed(g) && k < |rs| && RuleNfa(g, rs[k].1, classes, names, rs[k].0) == Ok(b)
    ensures WellFormed(b.g) && b.root < |b.g|
    ensures BuildAll(g, rs[k..], classes, names) == Prepend([b], BuildAll(b.g, rs[k + 1..], classes, names))
  {
    RuleNfaOk(g, rs[k].1, classes, names, rs[k].0);
    assert rs[k..][0] == rs[k] && rs[k..][1..] == rs[k + 1..];
  }

  /** A rule whose NFA cannot be built stops the loop with its error. */
  lemma BuildAllFails(g: Graph, rs: seq<Rule>, k: nat, classes: map<string, string>, names: set<string>,
                      e: GrammarError)
    requires WellFormed(g) && k < |rs| && RuleNfa(g, rs[k].1, classes, names, rs[k].0) == Err(e)
    ensures BuildAll(g, rs[k..], classes, names) == Err(e)
  {
    assert rs[k..][0] == rs[k];
  }

  /** Pairing the next rule with the start state of its DFA extends `Compiled`. */
  lemma CompiledStep(rs: seq<Rule>, k: nat, built: seq<Tokenize.Built>, dfas: seq<(string, Dfa.DState)>,
                     b: Tokenize.Built, start: Dfa.DState)
    requires k < |rs| && Compiled(rs[..k], built, dfas) && start.ids == Closure(b.g, {b.root})
    ensures Compiled(rs[..k + 1], built + [b], dfas + [(rs[k].0, start)])
  {
    assert rs[..k + 1] == rs[..k] + [rs[k]];
  }

  lemma PrependNothing(r: Result<seq<Tokenize.Built>, GrammarError>)
    ensures Prepend([], r) == r
  {
    if r.Ok? {
      assert [] + r.value == r.value;
    }
  }

  lemma PrependTwice(bs: seq<Tokenize.Built>, b: Tokenize.Built, r: Result<seq<Tokenize.Built>, GrammarError>)
    ensures Prepend(bs, Prepend([b], r)) == Prepend(bs + [b], r)
  {
    if r.Ok? {
      assert bs + ([b] + r.value) == bs + [b] + r.value;
    }
  }

  /** The loop of `_build_rules` over the rules `rs`, in order: each rule's NFA
      is built and `nfa2dfa` run on its root. */
  method CompileRules(arena: Tokenize.StateGraph, rs: seq<Rule>, classes: map<string, string>)
    returns (r: Result<seq<(string, Dfa.DState)>, GrammarError>)
    requires WellFormed(arena.states)
    modifies arena
    ensures var spec := BuildAll(old(arena.states), rs, classes, Names(rs));
            && (r.Err? <==> spec.Err?)
            && (r.Err? ==> r.error == spec.error)
            && (r.Ok? ==> Compiled(rs, spec.value, r.value) && forall k | 0 <= k < |rs| :: fresh(r.value[k].1))
  {
    ghost var g0 := arena.states;
    ghost var built: seq<Tokenize.Built> := [];
    var dfas: seq<(string, Dfa.DState)> := [];
    RemainingStart(g0, rs, classes);
    for k := 0 to |rs|
      invariant Remaining(g0, rs, classes, k, arena.states, built)
      invariant Compiled(rs[..k], built, dfas)
      invariant forall j | 0 <= j < |dfas| :: fresh(dfas[j].1)
    {
      ghost var before := arena.states;
      var one := BuildRule(arena, rs[k].1, classes, Names(rs), rs[k].0);
      if one.Err? {
        RemainingFails(g0, rs, classes, k, before, built, one.error);
        return Err(one.error);
      }
      ghost var b := Tokenize.Built(arena.states, one.value.0, one.value.1);
      RemainingStep(g0, rs, classes, k, before, built, b);
      var start, states := Dfa.Nfa2Dfa(arena.states, one.value.0);
      assert start in states;
      CompiledStep(rs, k, built, dfas, b, start);
      built := built + [b];
      dfas := dfas + [(rs[k].0, start)];
    }
    RemainingDone(g0, rs, classes, arena.states, built);
    assert rs[..|rs|] == rs;
    r := Ok(dfas);
  }

  /** Part way through the loop of `_build_rules`: the rules before `k` built
      `built`, and building the rest on `g` completes `BuildAll`. */
  ghost predicate Remaining(g0: Graph, rs: seq<Rule>, classes: map<string, string>, k: nat, g: Graph,
                            built: seq<Tokenize.Built>)
    requires WellFormed(g0)
  {
    WellFormed(g) && |built| == k <= |rs|
    && BuildAll(g0, rs, classes, Names(rs)) == Prepend(built, BuildAll(g, rs[k..], classes, Names(rs)))
  }

  lemma RemainingStart(g0: Graph, rs: seq<Rule>, classes: map<string, string>)
    requires WellFormed(g0)
    ensures Remaining(g0, rs, classes, 0, g0, [])
  {
    assert rs[0..] == rs;
    PrependNothing(BuildAll(g0, rs, classes, Names(rs)));
  }

  lemma RemainingStep(g0: Graph, rs: seq<Rule>, classes: map<string, string>, k: nat, g: Graph,
                      built: seq<Tokenize.Built>, b: Tokenize.Built)
    requires WellFormed(g0) && Remaining(g0, rs, classes, k, g, built) && k < |rs|
    requires RuleNfa(g, rs[k].1, classes, Names(rs), rs[k].0) == Ok(b)
    ensures WellFormed(b.g) && b.root < |b.g| && Remaining(g0, rs, classes, k + 1, b.g, built + [b])
  {
    BuildAllStep(g, rs, k, classes, Names(rs), b);
    PrependTwice(built, b, BuildAll(b.g, rs[k + 1..], classes, Names(rs)));
  }

  lemma RemainingFails(g0: Graph, rs: seq<Rule>, classes: map<string, string>, k: nat, g: Graph,
                       built: seq<Tokenize.Built>, e: GrammarError)
    requires WellFormed(g0) && Remaining(g0, rs, classes, k, g, built) && k < |rs|
    requires RuleNfa(g, rs[k].1, classes, Names(rs), rs[k].0) == Err(e)
    ensures BuildAll(g0, rs, classes, Names(rs)) == Err(e)
  {
    BuildAllFails(g, rs, k, classes, Names(rs), e);
  }

  lemma RemainingDone(g0: Graph, rs: seq<Rule>, classes: map<string, string>, g: Graph, built: seq<Tokenize.Built>)
    requires WellFormed(g0) && Remaining(g0, rs, classes, |rs|, g, built)
    ensures BuildAll(g0, rs, classes, Names(rs)) == Ok(built)
  {
    assert rs[|rs|..] == [];
    assert built + [] == built;
  }

  /** `_build_rules`: the grammar's token stream is split into rules, whose NFAs
      and DFAs are then built in order; the first error raised ends it. */
  method BuildRules(arena: Tokenize.StateGraph, toks: seq<GTok>, classes: map<string, string>)
    returns (r: Result<seq<(string, Dfa.DState)>, GrammarError>)
    requires WellFormed(arena.states)
    modifies arena
    ensures SplitFrom(toks, 0, classes, []).Err? ==>
              r == Err(SplitFrom(toks, 0, classes, []).error) && arena.states == old(arena.states)
    ensures SplitFrom(toks, 0, classes, []).Ok? ==>
              var rs := SplitFrom(toks, 0, classes, []).value;
              var spec := BuildAll(old(arena.states), rs, classes, Names(rs));
              && (r.Err? <==> spec.Err?)
              && (r.Err? ==> r.error == spec.error)
              && (r.Ok? ==> Compiled(rs, spec.value, r.value) && forall k | 0 <= k < |rs| :: fresh(r.value[k].1))
  {
    var pre := PreprocessRules(toks, classes);
    if pre.Err? {
      return Err(pre.error);
    }
    r := CompileRules(arena, pre.value, classes);
  }

  // ---------------------------------------------------------------------------
  // What a rule's NFA looks like

  /** Every state the loop refers to was made for the rule: its id is at least
      `base`. */
  ghost predicate RAbove(base: nat, s: RScan) {
    && base <= s.cur
    && forall k | 0 <= k < |s.stack| :: base <= s.stack[k].start && (s.stack[k].end.Some? ==> base <= s.stack[k].end.value)
  }

  /** The loop only refers to and only changed states made since `g0`. */
  ghost predicate RGrown(g0: Graph, s: RScan) {
    Tokenize.Extends(g0, s.g) && RAbove(|g0|, s)
  }

  lemma GroupSuffixExtends(g0: Graph, g: Graph, op: char, start: nat, end: nat)
    requires start < |g| && end < |g| && |g0| <= start && |g0| <= end && Tokenize.Extends(g0, g)
    ensures Tokenize.Extends(g0, GroupSuffix(g, op, start, end))
  {
    Tokenize.ArcKept(g, start, Eps, end);
    Tokenize.ArcKept(g, end, Eps, start);
    var g1 := Tokenize.MayOne(g, start, end);
    Tokenize.KeptExtends(g0, g, g1, start);
    Tokenize.ArcKept(g1, end, Eps, start);
    if op == '*' {
      Tokenize.KeptExtends(g0, g1, Tokenize.AnyTimes(g, start, end), end);
    } else if op == '+' {
      Tokenize.KeptExtends(g0, g, ArcG(g, end, Eps, start), end);
    }
  }

  lemma CloseGrown(g0: Graph, s: RScan, suffix: Option<char>)
    requires RScanOk(s) && RGrown(g0, s)
    ensures Close(s, suffix).Ok? ==> RGrown(g0, Close(s, suffix).value)
  {
    if s.stack != [] {
      var top := s.stack[|s.stack| - 1];
      var end := if top.end.Some? then top.end.value else s.cur;
      if suffix.Some? && top.start != end {
        var g := GroupSuffix(s.g, suffix.value, top.start, end);
        GroupSuffixExtends(g0, s.g, suffix.value, top.start, end);
        Tokenize.ArcKept(g, s.cur, Eps, end);
        Tokenize.KeptExtends(g0, g, ArcG(g, s.cur, Eps, end), s.cur);
      }
    }
  }

  lemma RuleStepGrown(g0: Graph, s: RScan, t: GTok, classes: map<string, string>, names: set<string>)
    requires RScanOk(s) && RGrown(g0, s)
    ensures RuleStep(s, t, classes, names).Ok? ==> RGrown(g0, RuleStep(s, t, classes, names).value)
  {
    match t
    case RightOp(suffix) => CloseGrown(g0, s, suffix);
    case Name(n) =>
      if Resolve(n, classes, names).Ok? {
        Tokenize.ArcNewKept(s.g, s.cur, Resolve(n, classes, names).value);
      }
    case Str(lexeme) => Tokenize.ArcNewKept(s.g, s.cur, Lit(Unquote(lexeme)));
    case _ =>
  }

  lemma {:induction false} RunRuleGrown(g0: Graph, body: seq<GTok>, i: nat, s: RScan,
                                        classes: map<string, string>, names: set<string>)
    requires RScanOk(s) && RGrown(g0, s)
    ensures var r := RunRule(body, i, s, classes, names);
            r.Ok? ==> Tokenize.Extends(g0, r.value.0) && |g0| <= r.value.1
    decreases |body| - i
  {
    if i < |body| {
      RuleStepOk(s, body[i], classes, names);
      RuleStepGrown(g0, s, body[i], classes, names);
      if RuleStep(s, body[i], classes, names).Ok? {
        RunRuleGrown(g0, body, i + 1, RuleStep(s, body[i], classes, names).value, classes, names);
      }
    }
  }

  /** Building a rule leaves the states made before it as they were; of the
      states it makes, exactly its end state is final and carries the rule, and
      none other carries anything. */
  lemma RuleNfaKeeps(g0: Graph, body: seq<GTok>, classes: map<string, string>, names: set<string>, name: string)
    requires WellFormed(g0)
    ensures var r := RuleNfa(g0, body, classes, names, name);
            r.Ok? ==> && |g0| <= r.value.last < |r.value.g|
                      && (forall x | 0 <= x < |g0| :: r.value.g[x] == g0[x])
                      && (forall x | |g0| <= x < |r.value.g| ::
                            && (r.value.g[x].isFinal <==> x == r.value.last)
                            && r.value.g[x].data == (if x == r.value.last then Some(name) else None))
  {
    RuleStartOk(g0);
    RunRuleOk(body, 0, RuleStart(g0), classes, names);
    RunRuleGrown(g0, body, 0, RuleStart(g0), classes, names);
  }

  // ---------------------------------------------------------------------------
  // Single turns, and small rules

  lemma RunTurn(body: seq<GTok>, i: nat, s: RScan, s': RScan, classes: map<string, string>, names: set<string>)
    requires RScanOk(s) && i < |body| && RuleStep(s, body[i], classes, names) == Ok(s')
    ensures RScanOk(s') && RunRule(body, i, s, classes, names) == RunRule(body, i + 1, s', classes, names)
  {
    RuleStepOk(s, body[i], classes, names);
  }

  lemma RunFails(body: seq<GTok>, i: nat, s: RScan, classes: map<string, string>, names: set<string>, e: GrammarError)
    requires RScanOk(s) && i < |body| && RuleStep(s, body[i], classes, names) == Err(e)
    ensures RunRule(body, i, s, classes, names) == Err(e)
  {
  }

  /** `)` as a rule's first token. */
  lemma CloseFirst(g0: Graph, body: seq<GTok>, classes: map<string, string>, names: set<string>, name: string)
    requires WellFormed(g0) && |body| > 0 && body[0].RightOp?
    ensures RuleNfa(g0, body, classes, names, name) == Err(CloseWithoutOpen)
  {
    RuleStartOk(g0);
    RunFails(body, 0, RuleStart(g0), classes, names, CloseWithoutOpen);
  }

  /** `|` as a rule's first token. */
  lemma OrFirst(g0: Graph, body: seq<GTok>, classes: map<string, string>, names: set<string>, name: string)
    requires WellFormed(g0) && |body| > 0 && body[0] == Or
    ensures RuleNfa(g0, body, classes, names, name) == Err(OrWithoutOpen)
  {
    RuleStartOk(g0);
    RunFails(body, 0, RuleStart(g0), classes, names, OrWithoutOpen);
  }

  /** A rule opening with `()`. */
  lemma EmptyParens(g0: Graph, body: seq<GTok>, classes: map<string, string>, names: set<string>, name: string)
    requires WellFormed(g0) && |body| > 1 && body[0] == LeftOp && body[1].RightOp?
    ensures RuleNfa(g0, body, classes, names, name) == Err(EmptyGroup)
  {
    var s0 := RuleStart(g0);
    RuleStartOk(g0);
    var s1 := s0.(stack := s0.stack + [Frame(s0.cur, None)]);
    RunTurn(body, 0, s0, s1, classes, names);
    RunFails(body, 1, s1, classes, names, EmptyGroup);
  }

  /** A rule opening with `(|`. */
  lemma OrAfterParen(g0: Graph, body: seq<GTok>, classes: map<string, string>, names: set<string>, name: string)
    requires WellFormed(g0) && |body| > 1 && body[0] == LeftOp && body[1] == Or
    ensures RuleNfa(g0, body, classes, names, name) == Err(OrAfterOpen)
  {
    var s0 := RuleStart(g0);
    RuleStartOk(g0);
    var s1 := s0.(stack := s0.stack + [Frame(s0.cur, None)]);
    RunTurn(body, 0, s0, s1, classes, names);
    RunFails(body, 1, s1, classes, names, OrAfterOpen);
  }

  /** A rule opening with a name that is neither a token class nor a rule. */
  lemma UnknownName(g0: Graph, body: seq<GTok>, classes: map<string, string>, names: set<string>, name: string)
    requires WellFormed(g0) && |body| > 0 && body[0].Name? && body[0].data !in classes && body[0].data !in names
    ensures RuleNfa(g0, body, classes, names, name) == Err(UnpackNone(body[0].data))
  {
    RuleStartOk(g0);
    RunFails(body, 0, RuleStart(g0), classes, names, UnpackNone(body[0].data));
  }

  /** The loop over `body` goes from token `i` in state `s` to token `j` in
      state `t` without raising. */
  ghost predicate RuleScansTo(body: seq<GTok>, i: nat, s: RScan, j: nat, t: RScan,
                              classes: map<string, string>, names: set<string>): (r: bool)
    ensures r ==> RScanOk(s) && RScanOk(t)
    decreases |body| - i
  {
    RScanOk(s)
    && ((i == j && s == t)
        || (i < |body| && RuleStep(s, body[i], classes, names).Ok?
            && (RuleStepOk(s, body[i], classes, names);
                RuleScansTo(body, i + 1, RuleStep(s, body[i], classes, names).value, j, t, classes, names))))
  }

  /** The rest of the loop is the rest of the loop from any turn it reaches. */
  lemma {:induction false} RuleScansToRun(body: seq<GTok>, i: nat, s: RScan, j: nat, t: RScan,
                                          classes: map<string, string>, names: set<string>)
    requires RuleScansTo(body, i, s, j, t, classes, names)
    ensures RunRule(body, i, s, classes, names) == RunRule(body, j, t, classes, names)
    decreases |body| - i
  {
    if !(i == j && s == t) {
      RuleStepOk(s, body[i], classes, names);
      RuleScansToRun(body, i + 1, RuleStep(s, body[i], classes, names).value, j, t, classes, names);
    }
  }

  /** A loop that raises raises at a turn it reaches. */
  lemma {:induction false} RunRuleFailsAt(body: seq<GTok>, i: nat, s: RScan, classes: map<string, string>, names: set<string>)
    returns (j: nat, t: RScan)
    requires RScanOk(s) && RunRule(body, i, s, classes, names).Err?
    ensures RuleScansTo(body, i, s, j, t, classes, names) && j < |body|
    ensures RuleStep(t, body[j], classes, names) == Err(RunRule(body, i, s, classes, names).error)
    decreases |body| - i
  {
    if RuleStep(s, body[i], classes, names).Err? {
      j, t := i, s;
    } else {
      RuleStepOk(s, body[i], classes, names);
      j, t := RunRuleFailsAt(body, i + 1, RuleStep(s, body[i], classes, names).value, classes, names);
    }
  }

  /** A turn that raises, at any state the rule's loop reaches, fails the rule
      with its error. */
  lemma RuleFailAt(g0: Graph, body: seq<GTok>, classes: map<string, string>, names: set<string>, name: string,
                   j: nat, t: RScan)
    requires WellFormed(g0) && RuleScansTo(body, 0, RuleStart(g0), j, t, classes, names) && j < |body|
    requires RuleStep(t, body[j], classes, names).Err?
    ensures RuleNfa(g0, body, classes, names, name) == Err(RuleStep(t, body[j], classes, names).error)
  {
    RuleScansToRun(body, 0, RuleStart(g0), j, t, classes, names);
  }

  /** Every rule that fails failed at a turn its loop reached. */
  lemma RuleFails(g0: Graph, body: seq<GTok>, classes: map<string, string>, names: set<string>, name: string)
    returns (j: nat, t: RScan)
    requires WellFormed(g0) && RuleNfa(g0, body, classes, names, name).Err?
    ensures RuleScansTo(body, 0, RuleStart(g0), j, t, classes, names) && j < |body|
    ensures RuleStep(t, body[j], classes, names) == Err(RuleNfa(g0, body, classes, names, name).error)
  {
    RuleStartOk(g0);
    j, t := RunRuleFailsAt(body, 0, RuleStart(g0), classes, names);
  }

  /** When a turn raises which error: `)` with no open group, or closing a
      group whose (first) alternative is empty; `|` with no open group, or
      right after `(` or another `|`; a name that is neither a token class nor
      a rule. No other turn raises, and a number, `=` or `;` leaves the scan as
      it was. */
  lemma RuleStepErrors(s: RScan, t: GTok, classes: map<string, string>, names: set<string>)
    requires RScanOk(s)
    ensures RuleStep(s, t, classes, names) == Err(CloseWithoutOpen) <==> t.RightOp? && s.stack == []
    ensures RuleStep(s, t, classes, names) == Err(EmptyGroup)
            <==> t.RightOp? && s.stack != []
                 && var top := s.stack[|s.stack| - 1];
                    top.start == (if top.end.Some? then top.end.value else s.cur)
    ensures RuleStep(s, t, classes, names) == Err(OrWithoutOpen) <==> t == Or && s.stack == []
    ensures RuleStep(s, t, classes, names) == Err(OrAfterOpen)
            <==> t == Or && s.stack != [] && s.stack[|s.stack| - 1].start == s.cur
    ensures RuleStep(s, t, classes, names).Err? && RuleStep(s, t, classes, names).error.UnpackNone?
            <==> t.Name? && t.data !in classes && t.data !in names
    ensures RuleStep(s, t, classes, names).Err? && RuleStep(s, t, classes, names).error.UnpackNone?
            ==> RuleStep(s, t, classes, names).error == UnpackNone(t.data)
    ensures !t.RightOp? && t != Or && !t.Name? ==> RuleStep(s, t, classes, names).Ok?
    ensures t.Num? || t == Eq || t == EndRule ==> RuleStep(s, t, classes, names) == Ok(s)
  {
  }

  /** After `_preprocess_rules`, a rule's name is never a token class, so it
      always resolves to the rule. */
  lemma RuleNameResolves(rs: seq<Rule>, classes: map<string, string>, n: string)
    requires RulesOk(rs, classes) && n in Names(rs)
    ensures Resolve(n, classes, Names(rs)) == Ok(RuleClass(n))
  {
    var k :| 0 <= k < |rs| && rs[k].0 == n;
  }

  /** `( 'x' )op`: a group holding one string, with a suffix. */
  lemma OneStringGroup(g0: Graph, body: seq<GTok>, x: string, op: char, classes: map<string, string>,
                       names: set<string>, name: string)
    requires WellFormed(g0) && body == [LeftOp, Str(x), RightOp(Some(op))]
    ensures RuleNfa(g0, body, classes, names, name)
         == Ok(Tokenize.Built(AcceptG(GroupSuffix(Tokenize.ArcNew(g0 + [Blank], |g0|, Lit(Unquote(x))), op, |g0|, |g0| + 1),
                                      |g0| + 1, name), |g0|, |g0| + 1))
  {
    var s0 := RuleStart(g0);
    RuleStartOk(g0);
    var s1 := s0.(stack := s0.stack + [Frame(s0.cur, None)]);
    RunTurn(body, 0, s0, s1, classes, names);
    var s2 := s1.(g := Tokenize.ArcNew(s1.g, s1.cur, Lit(Unquote(x))), cur := |s1.g|);
    RunTurn(body, 1, s1, s2, classes, names);
    var s3 := RScan(GroupSuffix(s2.g, op, |g0|, |g0| + 1), |g0| + 1, []);
    assert s2.stack[..0] == [];
    RunTurn(body, 2, s2, s3, classes, names);
  }

  /** `( 'x' )?`: the root has an arc for the string and an epsilon arc, both to
      the end state. */
  lemma OptionalString(g0: Graph, body: seq<GTok>, x: string, classes: map<string, string>,
                       names: set<string>, name: string)
    requires WellFormed(g0) && body == [LeftOp, Str(x), RightOp(Some('?'))]
    ensures RuleNfa(g0, body, classes, names, name)
         == Ok(Tokenize.Built(g0 + [NState([(Lit(Unquote(x)), |g0| + 1), (Eps, |g0| + 1)], false, None),
                                     NState([], true, Some(name))], |g0|, |g0| + 1))
  {
    OneStringGroup(g0, body, x, '?', classes, names, name);
    var r := |g0|;
    var l := Lit(Unquote(x));
    var g2 := Tokenize.ArcNew(g0 + [Blank], r, l);
    assert g2[r].edges == [] + [(l, r + 1)] && g2[r + 1] == Blank;
    assert g2[r].edges + [(Eps, r + 1)] == [(l, r + 1), (Eps, r + 1)];
    var a := AcceptG(GroupSuffix(g2, '?', r, r + 1), r + 1, name);
    var b := g0 + [NState([(Lit(Unquote(x)), r + 1), (Eps, r + 1)], false, None), NState([], true, Some(name))];
    assert |a| == |b| && forall k | 0 <= k < |b| :: a[k] == b[k];
    assert a == b;
  }

  /** `( 'x' )+`: the string, then an epsilon arc from the end state back to the
      root. */
  lemma RepeatedString(g0: Graph, body: seq<GTok>, x: string, classes: map<string, string>,
                       names: set<string>, name: string)
    requires WellFormed(g0) && body == [LeftOp, Str(x), RightOp(Some('+'))]
    ensures RuleNfa(g0, body, classes, names, name)
         == Ok(Tokenize.Built(g0 + [NState([(Lit(Unquote(x)), |g0| + 1)], false, None),
                                     NState([(Eps, |g0|)], true, Some(name))], |g0|, |g0| + 1))
  {
    OneStringGroup(g0, body, x, '+', classes, names, name);
    var r := |g0|;
    var l := Lit(Unquote(x));
    var g2 := Tokenize.ArcNew(g0 + [Blank], r, l);
    assert g2[r].edges == [] + [(l, r + 1)] && g2[r + 1] == Blank;
    assert g2[r + 1].edges + [(Eps, r)] == [(Eps, r)];
    var a := AcceptG(GroupSuffix(g2, '+', r, r + 1), r + 1, name);
    var b := g0 + [NState([(Lit(Unquote(x)), r + 1)], false, None), NState([(Eps, r)], true, Some(name))];
    assert |a| == |b| && forall k | 0 <= k < |b| :: a[k] == b[k];
    assert a == b;
  }

  /** `( 'x' )*`: both epsilon arcs. */
  lemma StarredString(g0: Graph, body: seq<GTok>, x: string, classes: map<string, string>,
                      names: set<string>, name: string)
    requires WellFormed(g0) && body == [LeftOp, Str(x), RightOp(Some('*'))]
    ensures RuleNfa(g0, body, classes, names, name)
         == Ok(Tokenize.Built(g0 + [NState([(Lit(Unquote(x)), |g0| + 1), (Eps, |g0| + 1)], false, None),
                                     NState([(Eps, |g0|)], true, Some(name))], |g0|, |g0| + 1))
  {
    OneStringGroup(g0, body, x, '*', classes, names, name);
    var r := |g0|;
    var l := Lit(Unquote(x));
    var g2 := Tokenize.ArcNew(g0 + [Blank], r, l);
    assert g2[r].edges == [] + [(l, r + 1)] && g2[r + 1] == Blank;
    assert g2[r].edges + [(Eps, r + 1)] == [(l, r + 1), (Eps, r + 1)];
    assert [] + [(Eps, r)] == [(Eps, r)];
    var a := AcceptG(GroupSuffix(g2, '*', r, r + 1), r + 1, name);
    var b := g0 + [NState([(Lit(Unquote(x)), r + 1), (Eps, r + 1)], false, None), NState([(Eps, r)], true, Some(name))];
    assert |a| == |b| && forall k | 0 <= k < |b| :: a[k] == b[k];
    assert a == b;
  }

  /** The four turns before the `)` of `( 'x' | 'y' )`. */
  lemma TwoStringsOpen(g0: Graph, body: seq<GTok>, x: string, y: string, suffix: Option<char>,
                       classes: map<string, string>, names: set<string>)
    requires WellFormed(g0) && body == [LeftOp, Str(x), Or, Str(y), RightOp(suffix)]
    ensures RScanOk(RuleStart(g0))
    ensures var g2 := Tokenize.ArcNew(Tokenize.ArcNew(g0 + [Blank], |g0|, Lit(Unquote(x))), |g0|, Lit(Unquote(y)));
            && RScanOk(RScan(g2, |g0| + 2, [Frame(|g0|, Some(|g0| + 1))]))
            && RunRule(body, 0, RuleStart(g0), classes, names)
               == RunRule(body, 4, RScan(g2, |g0| + 2, [Frame(|g0|, Some(|g0| + 1))]), classes, names)
  {
    var r := |g0|;
    var s0 := RuleStart(g0);
    RuleStartOk(g0);
    var s1 := s0.(stack := s0.stack + [Frame(s0.cur, None)]);
    RunTurn(body, 0, s0, s1, classes, names);
    var s2 := s1.(g := Tokenize.ArcNew(s1.g, s1.cur, Lit(Unquote(x))), cur := |s1.g|);
    RunTurn(body, 1, s1, s2, classes, names);
    var s3 := RScan(s2.g, r, [Frame(r, Some(r + 1))]);
    assert s2.stack[..0] + [Frame(r, Some(r + 1))] == s3.stack;
    RunTurn(body, 2, s2, s3, classes, names);
    var s4 := s3.(g := Tokenize.ArcNew(s3.g, s3.cur, Lit(Unquote(y))), cur := |s3.g|);
    RunTurn(body, 3, s3, s4, classes, names);
    assert s4 == RScan(Tokenize.ArcNew(Tokenize.ArcNew(g0 + [Blank], r, Lit(Unquote(x))), r, Lit(Unquote(y))),
                       r + 2, [Frame(r, Some(r + 1))]);
  }

  /** `( 'x' | 'y' )` with or without a suffix: the first alternative ends in
      `root + 1`, the second in `root + 2`; only a suffix joins the second to
      the first. */
  lemma TwoStrings(g0: Graph, body: seq<GTok>, x: string, y: string, suffix: Option<char>,
                   classes: map<string, string>, names: set<string>, name: string)
    requires WellFormed(g0) && body == [LeftOp, Str(x), Or, Str(y), RightOp(suffix)]
    ensures var g2 := Tokenize.ArcNew(Tokenize.ArcNew(g0 + [Blank], |g0|, Lit(Unquote(x))), |g0|, Lit(Unquote(y)));
            RuleNfa(g0, body, classes, names, name)
            == if suffix.None? then Ok(Tokenize.Built(AcceptG(g2, |g0| + 2, name), |g0|, |g0| + 2))
               else Ok(Tokenize.Built(AcceptG(ArcG(GroupSuffix(g2, suffix.value, |g0|, |g0| + 1), |g0| + 2, Eps, |g0| + 1),
                                              |g0| + 1, name), |g0|, |g0| + 1))
  {
    var r := |g0|;
    var g2 := Tokenize.ArcNew(Tokenize.ArcNew(g0 + [Blank], r, Lit(Unquote(x))), r, Lit(Unquote(y)));
    var s4 := RScan(g2, r + 2, [Frame(r, Some(r + 1))]);
    TwoStringsOpen(g0, body, x, y, suffix, classes, names);
    assert s4.stack[..0] == [];
    if suffix.None? {
      RunTurn(body, 4, s4, RScan(s4.g, r + 2, []), classes, names);
    } else {
      var g3 := GroupSuffix(s4.g, suffix.value, r, r + 1);
      RunTurn(body, 4, s4, RScan(ArcG(g3, r + 2, Eps, r + 1), r + 1, []), classes, names);
    }
  }

  /** `( 'x' | 'y' )?`: both alternatives lead to the end state `root + 1`, the
      second through an epsilon arc, and the group may be skipped. */
  lemma OptionalAlternatives(g0: Graph, body: seq<GTok>, x: string, y: string,
                             classes: map<string, string>, names: set<string>, name: string)
    requires WellFormed(g0) && body == [LeftOp, Str(x), Or, Str(y), RightOp(Some('?'))]
    ensures RuleNfa(g0, body, classes, names, name)
         == Ok(Tokenize.Built(g0 + [NState([(Lit(Unquote(x)), |g0| + 1), (Lit(Unquote(y)), |g0| + 2), (Eps, |g0| + 1)], false, None),
                                     NState([], true, Some(name)),
                                     NState([(Eps, |g0| + 1)], false, None)], |g0|, |g0| + 1))
  {
    TwoStrings(g0, body, x, y, Some('?'), classes, names, name);
    var r := |g0|;
    var lx, ly := Lit(Unquote(x)), Lit(Unquote(y));
    var g1 := Tokenize.ArcNew(g0 + [Blank], r, lx);
    assert g1[r].edges == [] + [(lx, r + 1)] && g1[r + 1] == Blank;
    var g2 := Tokenize.ArcNew(g1, r, ly);
    assert g2[r].edges == [(lx, r + 1), (ly, r + 2)] && g2[r + 1] == Blank && g2[r + 2] == Blank;
    var g3 := GroupSuffix(g2, '?', r, r + 1);
    assert g3[r].edges == [(lx, r + 1), (ly, r + 2), (Eps, r + 1)];
    var g4 := ArcG(g3, r + 2, Eps, r + 1);
    assert g4[r + 2].edges == [] + [(Eps, r + 1)];
    var a := AcceptG(g4, r + 1, name);
    var b := g0 + [NState([(lx, r + 1), (ly, r + 2), (Eps, r + 1)], false, None), NState([], true, Some(name)),
                   NState([(Eps, r + 1)], false, None)];
    assert |a| == |b| && forall k | 0 <= k < |b| :: a[k] == b[k];
    assert a == b;
  }

  /** `( 'x' | 'y' )` without a suffix: only the second alternative's end is
      final; the first alternative's end, `root + 1`, is left with no arc and
      not final, so the first alternative never completes the rule. */
  lemma AlternativesWithoutSuffix(g0: Graph, body: seq<GTok>, x: string, y: string,
                                  classes: map<string, string>, names: set<string>, name: string)
    requires WellFormed(g0) && body == [LeftOp, Str(x), Or, Str(y), RightOp(None)]
    ensures RuleNfa(g0, body, classes, names, name)
         == Ok(Tokenize.Built(g0 + [NState([(Lit(Unquote(x)), |g0| + 1), (Lit(Unquote(y)), |g0| + 2)], false, None),
                                     Blank,
                                     NState([], true, Some(name))], |g0|, |g0| + 2))
  {
    TwoStrings(g0, body, x, y, None, classes, names, name);
    var r := |g0|;
    var lx, ly := Lit(Unquote(x)), Lit(Unquote(y));
    var g1 := Tokenize.ArcNew(g0 + [Blank], r, lx);
    assert g1[r].edges == [] + [(lx, r + 1)] && g1[r + 1] == Blank;
    var g2 := Tokenize.ArcNew(g1, r, ly);
    assert g2[r].edges == [(lx, r + 1), (ly, r + 2)] && g2[r + 1] == Blank && g2[r + 2] == Blank;
    var a := AcceptG(g2, r + 2, name);
    var b := g0 + [NState([(lx, r + 1), (ly, r + 2)], false, None), Blank, NState([], true, Some(name))];
    assert |a| == |b| && forall k | 0 <= k < |b| :: a[k] == b[k];
    assert a == b;
  }

  /** The arena of a rule made of one arc labelled `l`, on top of `g0`. */
  function OneArc(g0: Graph, l: Label, name: string): Graph {
    g0 + [NState([(l, |g0| + 1)], false, None), NState([], true, Some(name))]
  }

  /** A rule of one name: one arc, labelled by the token class of that name if
      there is one and by the rule of that name otherwise. */
  lemma OneName(g0: Graph, body: seq<GTok>, n: string, classes: map<string, string>, names: set<string>, name: string)
    requires WellFormed(g0) && body == [Name(n)]
    ensures n in classes ==>
      RuleNfa(g0, body, classes, names, name) == Ok(Tokenize.Built(OneArc(g0, TokenClass(classes[n]), name), |g0|, |g0| + 1))
    ensures n !in classes && n in names ==>
      RuleNfa(g0, body, classes, names, name) == Ok(Tokenize.Built(OneArc(g0, RuleClass(n), name), |g0|, |g0| + 1))
    ensures n !in classes && n !in names ==> RuleNfa(g0, body, classes, names, name) == Err(UnpackNone(n))
  {
    var r := |g0|;
    var s0 := RuleStart(g0);
    RuleStartOk(g0);
    var res := Resolve(n, classes, names);
    if res.Ok? {
      var l := res.value;
      var s1 := s0.(g := Tokenize.ArcNew(s0.g, s0.cur, l), cur := |s0.g|);
      RunTurn(body, 0, s0, s1, classes, names);
      var g1 := Tokenize.ArcNew(g0 + [Blank], r, l);
      assert g1[r].edges == [] + [(l, r + 1)] && g1[r + 1] == Blank;
      var a := AcceptG(g1, r + 1, name);
      var b := OneArc(g0, l, name);
      assert |a| == |b| && forall k | 0 <= k < |b| :: a[k] == b[k];
      assert a == b;
    } else {
      RunFails(body, 0, s0, classes, names, UnpackNone(n));
    }
  }

  /** An epsilon arc is an epsilon path. */
  lemma EpsArc(g: Graph, a: nat, b: nat)
    requires a < |g| && (Eps, b) in g[a].edges
    ensures Reaches(g, a, b)
  {
    ReachesRefl(g, b);
    ReachesStep(g, a, (Eps, b), b);
  }

  /** `)` with a suffix ends the group at its merge state: `cur` becomes that
      state and reaches it by epsilon arcs; with `?` or `*` the group's start
      reaches it too (the group can be skipped), with `+` or `*` it reaches the
      start back (the group can be repeated); no arc is removed. */
  lemma CloseJoins(s: RScan, op: char)
    requires RScanOk(s) && Close(s, Some(op)).Ok?
    ensures var top := s.stack[|s.stack| - 1];
            var end := if top.end.Some? then top.end.value else s.cur;
            var s' := Close(s, Some(op)).value;
            && s'.cur == end && s'.stack == s.stack[..|s.stack| - 1]
            && Reaches(s'.g, s.cur, end)
            && ((op == '?' || op == '*') ==> Reaches(s'.g, top.start, end))
            && ((op == '+' || op == '*') ==> Reaches(s'.g, end, top.start))
            && |s'.g| == |s.g| && forall x | 0 <= x < |s.g| :: s.g[x].edges <= s'.g[x].edges
  {
    var top := s.stack[|s.stack| - 1];
    var end := if top.end.Some? then top.end.value else s.cur;
    var start := top.start;
    var g := GroupSuffix(s.g, op, start, end);
    SuffixArcs(s.g, op, start, end);
    var g' := if s.cur != end then ArcG(g, s.cur, Eps, end) else g;
    if s.cur != end {
      ArcAdds(g, s.cur, Eps, end);
    }
    assert Close(s, Some(op)).value.g == g';
    forall x | 0 <= x < |s.g|
      ensures s.g[x].edges <= g'[x].edges
    {
      assert s.g[x].edges <= g[x].edges <= g'[x].edges;
    }
    if s.cur != end {
      EpsArc(g', s.cur, end);
    } else {
      ReachesRefl(g', end);
    }
    if op == '?' || op == '*' {
      assert g[start].edges <= g'[start].edges;
      EpsArc(g', start, end);
    }
    if op == '+' || op == '*' {
      assert g[end].edges <= g'[end].edges;
      EpsArc(g', end, start);
    }
  }

  /** Adding an arc keeps every state's arcs and adds the new one. */
  lemma ArcAdds(g: Graph, from: nat, l: Label, to: nat)
    requires from < |g|
    ensures |ArcG(g, from, l, to)| == |g| && (l, to) in ArcG(g, from, l, to)[from].edges
    ensures forall x | 0 <= x < |g| :: g[x].edges <= ArcG(g, from, l, to)[x].edges
  {
  }

  /** The suffix of a group only adds arcs: from the start to the end for `?`
      and `*`, from the end back to the start for `+` and `*`. */
  lemma SuffixArcs(g: Graph, op: char, start: nat, end: nat)
    requires start < |g| && end < |g|
    ensures |GroupSuffix(g, op, start, end)| == |g|
    ensures forall x | 0 <= x < |g| :: g[x].edges <= GroupSuffix(g, op, start, end)[x].edges
    ensures (op == '?' || op == '*') ==> (Eps, end) in GroupSuffix(g, op, start, end)[start].edges
    ensures (op == '+' || op == '*') ==> (Eps, start) in GroupSuffix(g, op, start, end)[end].edges
  {
    var g1 := Tokenize.MayOne(g, start, end);
    ArcAdds(g, start, Eps, end);
    if op == '+' {
      ArcAdds(g, end, Eps, start);
    } else if op == '*' {
      ArcAdds(g1, end, Eps, start);
      assert g1[start].edges <= GroupSuffix(g, op, start, end)[start].edges;
    }
  }
}

