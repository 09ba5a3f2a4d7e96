/** The grammar compiler of pyparser/ast.py. The token stream of a grammar is
    split into rules `Name = tokens ;`, and each rule's tokens are compiled into
    an NFA over token-class, rule and string labels, which `nfa2dfa` turns into
    the rule's DFA. */
module Grammar {
  import opened Automaton
  import Tokenize
  import Dfa

  /** The tokens of the grammar language, as the grammar tokenizer yields them.
      A `String` keeps its lexeme, quotes included; `RightOp` carries the
      character that followed `)`, if any; `Num` is a run of digits. */
  datatype GTok =
    | Name(data: string)
    | Num(data: string)
    | Str(lexeme: string)
    | LeftOp
    | RightOp(suffix: Option<char>)
    | Eq
    | Or
    | EndRule

  /** The `GrammarError`s the compiler raises, and `UnpackNone`, the `TypeError`
      of unpacking the `None` that `pre_rules.get` returns for an unknown name. */
  datatype GrammarError =
    | ExpectedName
    | ExpectedEq
    | DuplicatedRule(name: string)
    | DuplicatedWithToken(name: string)
    | MissingSemicolon
    | CloseWithoutOpen
    | EmptyGroup
    | OrWithoutOpen
    | OrAfterOpen
    | UnpackNone(name: string)

  /** A rule as `_preprocess_rules` stores it: its name and its tokens. The rule
      class the source creates for it is identified by the name. */
  type Rule = (string, seq<GTok>)

  /** `String.__init__`: the lexeme without its first and last character,
      which is empty when the lexeme is shorter than two characters. */
  function Unquote(lexeme: string): (r: string)
    ensures |lexeme| < 2 ==> r == []
    ensures |lexeme| >= 2 ==> |r| == |lexeme| - 2 && forall k | 0 <= k < |r| :: r[k] == lexeme[k + 1]
  {
    if |lexeme| < 2 then [] else lexeme[1..|lexeme| - 1]
  }

  /** Unquoting undoes quoting, whatever the quote characters. */
  lemma UnquoteQuoted(open: char, s: string, close: char)
    ensures Unquote([open] + s + [close]) == s
  {
    var l := [open] + s + [close];
    assert l[1..|l| - 1] == s;
  }

  // ---------------------------------------------------------------------------
  // `_preprocess_rules`

  /** The names of the rules read so far (the keys of the `rules` dict). */
  function Names(rules: seq<Rule>): (r: set<string>) {
    set k | 0 <= k < |rules| :: rules[k].0
  }

  /** The position of the first `;` at or after `k`, if any. */
  function FindEnd(toks: seq<GTok>, k: nat): (r: Option<nat>)
    ensures r.Some? ==> k <= r.value < |toks| && toks[r.value] == EndRule
    ensures r.Some? ==> forall j | k <= j < r.value :: toks[j] != EndRule
    ensures r.None? ==> forall j | k <= j < |toks| :: toks[j] != EndRule
    decreases |toks| - k
  {
    if k >= |toks| then None
    else if toks[k] == EndRule then Some(k)
    else FindEnd(toks, k + 1)
  }

  /** What `_preprocess_rules` returns for the stream from position `i` on, with
      `rules` read before it. At the end of the stream, or at a rule boundary,
      reading stops; a missing `=` at the very end is not reported, as the read
      of the body then meets the end first. */
  function SplitFrom(toks: seq<GTok>, i: nat, classes: map<string, string>, rules: seq<Rule>)
    : (r: Result<seq<Rule>, GrammarError>)
    decreases |toks| - i
  {
    if i >= |toks| then Ok(rules)
    else if !toks[i].Name? then Err(ExpectedName)
    else
      var name := toks[i].data;
      if name in Names(rules) then Err(DuplicatedRule(name))
      else if name in classes then Err(DuplicatedWithToken(name))
      else if i + 1 < |toks| && !toks[i + 1].Eq? then Err(ExpectedEq)
      else
        match FindEnd(toks, i + 2)
        case None => Err(MissingSemicolon)
        case Some(j) => SplitFrom(toks, j + 1, classes, rules + [(name, toks[i + 2..j])])
  }

  /** The inner loop of `_preprocess_rules`: the tokens from `from` up to the
      next `;`, and the position of that `;`; `None` when the stream ends first. */
  method ReadBody(toks: seq<GTok>, from: nat) returns (end: Option<nat>, body: seq<GTok>)
    requires from <= |toks|
    ensures end == FindEnd(toks, from) && (end.Some? ==> body == toks[from..end.value])
  {
    var i := from;
    body := [];
    while true
      invariant from <= i <= |toks| && body == toks[from..i]
      invariant FindEnd(toks, from) == FindEnd(toks, i)
      decreases |toks| - i
    {
      if i == |toks| {
        return None, body;
      }
      if toks[i] == EndRule {
        return Some(i), body;
      }
      body := body + [toks[i]];
      i := i + 1;
    }
  }

  /** `_preprocess_rules` on the grammar's token stream; `classes` maps the names
      of the token classes (`get_token_cls`) to the classes. */
  method PreprocessRules(toks: seq<GTok>, classes: map<string, string>) returns (r: Result<seq<Rule>, GrammarError>)
    ensures r == SplitFrom(toks, 0, classes, [])
  {
    var rules: seq<Rule> := [];
    var i := 0;
    while true
      invariant i <= |toks|
      invariant SplitFrom(toks, 0, classes, []) == SplitFrom(toks, i, classes, rules)
      decreases |toks| - i
    {
      if i == |toks| {
        return Ok(rules);
      }
      var name := toks[i];
      if !name.Name? {
        return Err(ExpectedName);
      }
      if name.data in Names(rules) {
        return Err(DuplicatedRule(name.data));
      }
      if name.data in classes {
        return Err(DuplicatedWithToken(name.data));
      }
      ghost var at := i;
      i := i + 1;
      if i < |toks| {
        if !toks[i].Eq? {
          return Err(ExpectedEq);
        }
        i := i + 1;
      }
      assert FindEnd(toks, at + 2) == FindEnd(toks, i);
      var end, body := ReadBody(toks, i);
      if end.None? {
        return Err(MissingSemicolon);
      }
      i := end.value + 1;
      rules := rules + [(name.data, body)];
    }
  }

  /** The token stream of a list of rules: `Name = tokens ;` for each. */
  function Join(rs: seq<Rule>): (r: seq<GTok>) {
    if rs == [] then [] else [Name(rs[0].0), Eq] + rs[0].1 + [EndRule] + Join(rs[1..])
  }

  /** Rules as `_preprocess_rules` can return them: names pairwise distinct and
      none the name of a token class, and no body holding a `;`. */
  ghost predicate RulesOk(rs: seq<Rule>, classes: map<string, string>) {
    && (forall i, j | 0 <= i < j < |rs| :: rs[i].0 != rs[j].0)
    && (forall i | 0 <= i < |rs| :: rs[i].0 !in classes && EndRule !in rs[i].1)
  }

  lemma FindEndAt(toks: seq<GTok>, k: nat, body: seq<GTok>)
    requires k + |body| < |toks| && toks[k..k + |body|] == body && EndRule !in body && toks[k + |body|] == EndRule
    ensures FindEnd(toks, k) == Some(k + |body|)
  {
    forall j | k <= j < k + |body| ensures toks[j] != EndRule {
      assert toks[j] == body[j - k];
    }
  }

  /** One rule `Name = body ;` read at position `i`. */
  lemma SplitOne(toks: seq<GTok>, i: nat, n: string, body: seq<GTok>, classes: map<string, string>, done: seq<Rule>,
                 stop: nat, done': seq<Rule>)
    requires i + 2 + |body| < |toks| && toks[i] == Name(n) && toks[i + 1] == Eq
    requires toks[i + 2..i + 2 + |body|] == body && toks[i + 2 + |body|] == EndRule && EndRule !in body
    requires n !in Names(done) && n !in classes
    requires stop == i + 3 + |body| && done' == done + [(n, body)]
    ensures SplitFrom(toks, i, classes, done) == SplitFrom(toks, stop, classes, done')
  {
    FindEndAt(toks, i + 2, body);
  }

  /** The head of a joined list of rules. */
  function HeadToks(r: Rule): (h: seq<GTok>)
    ensures |h| == |r.1| + 3
  {
    [Name(r.0), Eq] + r.1 + [EndRule]
  }

  /** The first rule of a well-formed list is fresh with respect to `done`. */
  lemma NameFresh(rs: seq<Rule>, classes: map<string, string>, done: seq<Rule>)
    requires rs != [] && RulesOk(done + rs, classes)
    ensures rs[0].0 !in Names(done) && rs[0].0 !in classes && EndRule !in rs[0].1
  {
    var d := done + rs;
    assert d[|done|] == rs[0];
    forall k | 0 <= k < |done| ensures done[k].0 != rs[0].0 {
      assert d[k] == done[k];
    }
  }

  /** The tokens of the first rule sit right after `pre`. */
  lemma HeadAt(toks: seq<GTok>, pre: seq<GTok>, r: Rule, rest: seq<GTok>)
    requires toks == pre + HeadToks(r) + rest
    ensures |pre| + 2 + |r.1| < |toks| && toks[|pre|] == Name(r.0) && toks[|pre| + 1] == Eq
    ensures toks[|pre| + 2..|pre| + 2 + |r.1|] == r.1 && toks[|pre| + 2 + |r.1|] == EndRule
  {
    assert toks[|pre| + 2..|pre| + 2 + |r.1|] == HeadToks(r)[2..2 + |r.1|];
  }

  /** The first rule of a joined list is read off in one step. */
  lemma SplitHead(toks: seq<GTok>, pre: seq<GTok>, rs: seq<Rule>, t: seq<GTok>,
                  classes: map<string, string>, done: seq<Rule>)
    requires rs != [] && toks == pre + HeadToks(rs[0]) + (Join(rs[1..]) + t) && RulesOk(done + rs, classes)
    ensures SplitFrom(toks, |pre|, classes, done)
         == SplitFrom(toks, |pre + HeadToks(rs[0])|, classes, done + [rs[0]])
  {
    var r := rs[0];
    NameFresh(rs, classes, done);
    HeadAt(toks, pre, r, Join(rs[1..]) + t);
    var stop: nat := |pre + HeadToks(r)|;
    var done': seq<Rule> := done + [r];
    assert (r.0, r.1) == r;
    SplitOne(toks, |pre|, r.0, r.1, classes, done, stop, done');
  }

  /** After the first rule, the rest of the tokens are again a joined list. */
  lemma JoinTail(toks: seq<GTok>, pre: seq<GTok>, rs: seq<Rule>, t: seq<GTok>)
    requires rs != [] && toks == pre + Join(rs) + t
    ensures toks == pre + HeadToks(rs[0]) + (Join(rs[1..]) + t)
    ensures toks == (pre + HeadToks(rs[0])) + Join(rs[1..]) + t
    ensures |Join(rs)| == |HeadToks(rs[0])| + |Join(rs[1..])|
  {
    var h := HeadToks(rs[0]);
    var j := Join(rs[1..]);
    assert Join(rs) == h + j;
    Regroup(pre, h, j, t);
  }

  lemma Regroup<T>(a: seq<T>, b: seq<T>, c: seq<T>, d: seq<T>)
    ensures a + (b + c) + d == a + b + (c + d)
    ensures a + (b + c) + d == (a + b) + c + d
  {
  }

  /** Reading a well-formed list of rules `rs` after `done` reads exactly `rs`,
      whatever follows. */
  lemma {:induction false} SplitPrefix(toks: seq<GTok>, pre: seq<GTok>, rs: seq<Rule>, t: seq<GTok>,
                                       classes: map<string, string>, done: seq<Rule>, stop: nat)
    requires toks == pre + Join(rs) + t && stop == |pre| + |Join(rs)| && RulesOk(done + rs, classes)
    ensures SplitFrom(toks, |pre|, classes, done) == SplitFrom(toks, stop, classes, done + rs)
    decreases |rs|
  {
    if rs == [] {
      assert done + rs == done;
    } else {
      var pre', done' := SplitNext(toks, pre, rs, t, classes, done, stop);
      SplitPrefix(toks, pre', rs[1..], t, classes, done', stop);
    }
  }

  /** After the first rule of `rs` is read, the rest of `rs` remains to be read
      from a joined list. */
  lemma SplitNext(toks: seq<GTok>, pre: seq<GTok>, rs: seq<Rule>, t: seq<GTok>,
                  classes: map<string, string>, done: seq<Rule>, stop: nat)
    returns (pre': seq<GTok>, done': seq<Rule>)
    requires rs != [] && toks == pre + Join(rs) + t && stop == |pre| + |Join(rs)| && RulesOk(done + rs, classes)
    ensures toks == pre' + Join(rs[1..]) + t && stop == |pre'| + |Join(rs[1..])|
    ensures RulesOk(done' + rs[1..], classes) && done + rs == done' + rs[1..]
    ensures SplitFrom(toks, |pre|, classes, done) == SplitFrom(toks, |pre'|, classes, done')
  {
    JoinTail(toks, pre, rs, t);
    SplitHead(toks, pre, rs, t, classes, done);
    pre' := pre + HeadToks(rs[0]);
    done' := done + [rs[0]];
    MoveHead(done, rs);
  }

  lemma MoveHead<T>(a: seq<T>, b: seq<T>)
    requires b != []
    ensures a + b == (a + [b[0]]) + b[1..]
  {
    assert b == [b[0]] + b[1..];
  }

  /** A well-formed list of rules is read back from its token stream. */
  lemma SplitJoin(rs: seq<Rule>, classes: map<string, string>)
    requires RulesOk(rs, classes)
    ensures SplitFrom(Join(rs), 0, classes, []) == Ok(rs)
  {
    assert [] + rs == rs;
    assert [] + Join(rs) + [] == Join(rs);
    SplitPrefix(Join(rs), [], rs, [], classes, [], |Join(rs)|);
  }

  /** A fresh rule keeps a list of rules well formed. */
  lemma RulesOkAppend(done: seq<Rule>, n: string, body: seq<GTok>, classes: map<string, string>)
    requires RulesOk(done, classes) && n !in Names(done) && n !in classes && EndRule !in body
    ensures RulesOk(done + [(n, body)], classes)
  {
    var d := done + [(n, body)];
    forall i, j | 0 <= i < j < |d| ensures d[i].0 != d[j].0 {
      if j < |done| {
        assert d[i] == done[i] && d[j] == done[j];
      } else {
        assert d[i] == done[i];
      }
    }
  }

  /** The tokens from `i` on, split at a rule read there. */
  lemma JoinAt(toks: seq<GTok>, i: nat, j: nat, rs: seq<Rule>, k: nat)
    requires i + 2 <= j < |toks| && toks[i].Name? && toks[i + 1] == Eq && toks[j] == EndRule
    requires k < |rs| && rs[k] == (toks[i].data, toks[i + 2..j]) && toks[j + 1..] == Join(rs[k + 1..])
    ensures toks[i..] == Join(rs[k..])
  {
    var r := rs[k..];
    assert r[0] == rs[k] && r[1..] == rs[k + 1..];
    assert toks[i..] == [toks[i], toks[i + 1]] + toks[i + 2..j] + [toks[j]] + toks[j + 1..];
  }

  /** Whatever `_preprocess_rules` returns is a well-formed list of rules whose
      token stream is exactly the input: the converse of `SplitJoin`. */
  lemma {:induction false} SplitSound(toks: seq<GTok>, i: nat, classes: map<string, string>, done: seq<Rule>, rs: seq<Rule>)
    requires i <= |toks| && RulesOk(done, classes) && SplitFrom(toks, i, classes, done) == Ok(rs)
    ensures |done| <= |rs| && rs[..|done|] == done && toks[i..] == Join(rs[|done|..]) && RulesOk(rs, classes)
    decreases |toks| - i
  {
    if i == |toks| {
      assert rs[|done|..] == [];
    } else {
      var n := toks[i].data;
      var j := FindEnd(toks, i + 2).value;
      var body := toks[i + 2..j];
      assert EndRule !in body by {
        forall k | 0 <= k < |body| ensures body[k] != EndRule {
          assert body[k] == toks[i + 2 + k];
        }
      }
      RulesOkAppend(done, n, body, classes);
      var done' := done + [(n, body)];
      SplitSound(toks, j + 1, classes, done', rs);
      assert rs[|done|] == done'[|done|];
      assert rs[..|done|] == rs[..|done'|][..|done|];
      JoinAt(toks, i, j, rs, |done|);
    }
  }

  /** `_preprocess_rules` succeeds with `rs` exactly on the token stream of a
      well-formed `rs`. */
  lemma SplitIff(toks: seq<GTok>, classes: map<string, string>, rs: seq<Rule>)
    ensures SplitFrom(toks, 0, classes, []) == Ok(rs) <==> toks == Join(rs) && RulesOk(rs, classes)
  {
    if SplitFrom(toks, 0, classes, []) == Ok(rs) {
      SplitSound(toks, 0, classes, [], rs);
      assert rs[0..] == rs && toks[0..] == toks;
    }
    if toks == Join(rs) && RulesOk(rs, classes) {
      SplitJoin(rs, classes);
    }
  }

  /** After a well-formed list of rules, reading goes on from the end of its
      tokens with those rules known. */
  lemma AfterRules(toks: seq<GTok>, rs: seq<Rule>, tail: seq<GTok>, classes: map<string, string>)
    requires toks == Join(rs) + tail && RulesOk(rs, classes)
    ensures SplitFrom(toks, 0, classes, []) == SplitFrom(toks, |Join(rs)|, classes, rs)
  {
    assert [] + rs == rs;
    assert toks == [] + Join(rs) + tail;
    SplitPrefix(toks, [], rs, tail, classes, [], |Join(rs)|);
  }

  /** A token other than a name where a rule should begin. */
  lemma NotAName(toks: seq<GTok>, rs: seq<Rule>, t: GTok, rest: seq<GTok>, classes: map<string, string>)
    requires toks == Join(rs) + [t] + rest && RulesOk(rs, classes) && !t.Name?
    ensures SplitFrom(toks, 0, classes, []) == Err(ExpectedName)
  {
    AfterRules(toks, rs, [t] + rest, classes);
    assert toks[|Join(rs)|] == t;
  }

  /** A rule named like an earlier rule. */
  lemma RepeatedRule(toks: seq<GTok>, rs: seq<Rule>, n: string, rest: seq<GTok>, classes: map<string, string>)
    requires toks == Join(rs) + [Name(n)] + rest && RulesOk(rs, classes) && n in Names(rs)
    ensures SplitFrom(toks, 0, classes, []) == Err(DuplicatedRule(n))
  {
    AfterRules(toks, rs, [Name(n)] + rest, classes);
    assert toks[|Join(rs)|] == Name(n);
  }

  /** A rule named like a token class. */
  lemma RuleNamedLikeToken(toks: seq<GTok>, rs: seq<Rule>, n: string, rest: seq<GTok>, classes: map<string, string>)
    requires toks == Join(rs) + [Name(n)] + rest && RulesOk(rs, classes) && n !in Names(rs) && n in classes
    ensures SplitFrom(toks, 0, classes, []) == Err(DuplicatedWithToken(n))
  {
    AfterRules(toks, rs, [Name(n)] + rest, classes);
    assert toks[|Join(rs)|] == Name(n);
  }

  /** A fresh rule name followed by a token other than `=`. */
  lemma NotAnEq(toks: seq<GTok>, rs: seq<Rule>, n: string, t: GTok, rest: seq<GTok>, classes: map<string, string>)
    requires toks == Join(rs) + [Name(n), t] + rest && RulesOk(rs, classes)
    requires n !in Names(rs) && n !in classes && !t.Eq?
    ensures SplitFrom(toks, 0, classes, []) == Err(ExpectedEq)
  {
    AfterRules(toks, rs, [Name(n), t] + rest, classes);
    assert toks[|Join(rs)|] == Name(n) && toks[|Join(rs)| + 1] == t;
  }

  /** A last rule whose body the stream ends in, before any `;`. */
  lemma NoSemicolon(toks: seq<GTok>, rs: seq<Rule>, n: string, body: seq<GTok>, classes: map<string, string>)
    requires toks == Join(rs) + [Name(n), Eq] + body && RulesOk(rs, classes)
    requires n !in Names(rs) && n !in classes && EndRule !in body
    ensures SplitFrom(toks, 0, classes, []) == Err(MissingSemicolon)
  {
    var at := |Join(rs)|;
    AfterRules(toks, rs, [Name(n), Eq] + body, classes);
    assert toks[at] == Name(n) && toks[at + 1] == Eq;
    forall j | at + 2 <= j < |toks| ensures toks[j] != EndRule {
      assert toks[j] == body[j - at - 2];
    }
  }

  /** A fresh rule name as the very last token: the missing `=` goes unreported
      and the missing `;` is reported instead. */
  lemma NameAtEnd(toks: seq<GTok>, rs: seq<Rule>, n: string, classes: map<string, string>)
    requires toks == Join(rs) + [Name(n)] && RulesOk(rs, classes) && n !in Names(rs) && n !in classes
    ensures SplitFrom(toks, 0, classes, []) == Err(MissingSemicolon)
  {
    AfterRules(toks, rs, [Name(n)], classes);
    assert toks[|Join(rs)|] == Name(n);
  }
}
