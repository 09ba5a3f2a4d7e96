# pyparser automaton engine, in Dafny

A model of the automaton engine of pyparser, a small lexer and parser generator
written in Python, with proofs about it. The engine has three parts:

- **The regular-expression builder** (`pyparser/tokenize.py`). `Token.make_states`
  scans a pattern once, left to right, with a group stack and a bracket stack.
  It adds labelled arcs between `TokenState`s (`None` is epsilon) and applies
  the suffixes `?`, `+` and `*` after `)` and `]`.
- **Subset construction and minimisation** (`pyparser/dfa.py`). A `DFAState` is a
  set of NFA states that can be frozen into successor states per label.
  `nfa2dfa` runs a worklist that registers DFA states under a string built
  from their id sets (the model keys them by the set itself; see "Left out"),
  and `simplify_dfa` merges states with equal outgoing arcs until none are
  left.
- **The grammar-rule compiler** (`ASTBuilder._preprocess_rules` and
  `ASTBuilder._build_rules` in `pyparser/ast.py`). It splits a grammar token
  stream into `Name = ... ;` rules, builds one NFA per rule over token-class,
  rule and string labels, and calls `nfa2dfa` on each.

How the model is laid out:

- `automaton.dfy` (module `Automaton`) holds the shared vocabulary.
  - NFA states live in one arena, `Graph = seq<NState>`. The id of a state is
    its index, which is the value of the class counter `_auto_id` when the state
    was made.
  - A state's `arcs` dictionary is kept as its list of `(label, target)` pairs in
    append order. `Targets(edges, l)` is `arcs[l]`. `DictItems(edges)` is the
    iteration order of `arcs.items()`, with keys in first-insertion order.
  - The module also defines epsilon paths, reachability and epsilon closure.
- `tokenize.dfy` (module `Tokenize`) holds the builder.
  - The class `StateGraph` is the arena and has the `TokenState` operations.
  - The pure functions `Step`, `Run` and `BuildNfa` specify `make_states`, and
    the method `MakeStates` runs the source's loop against them.
  - The lemmas fix the shapes the source's tests describe, the error cases, and
    the invariant that only the last state is final.
- `dfa.dfy` (module `Dfa`) holds the DFA side.
  - `DState` is a heap class, because `out_equals`, `replace` and
    `simplify_dfa` compare DFA states by identity.
  - `Nfa2Dfa` and `SimplifyDfa` are the two loops of the source, with their
    invariants.
  - `Quotient` says what `simplify_dfa` keeps: every state of the list it was
    given is stood for by a remaining state with the same finality and the
    same arcs up to that renaming. `QuotientLanguage` shows that a quotient
    accepts the same words.
- `grammar.dfy` (module `Grammar`) holds the rule splitter.
  - `SplitFrom` specifies `_preprocess_rules`, and `PreprocessRules` is the
    imperative loop.
  - `SplitIff` characterises the streams that split without error, and the
    error lemmas give each error of the source.
- `rules.dfy` (module `Rules`) holds the rule compiler.
  - `RuleNfa` specifies one turn of the loop of `_build_rules`. `BuildRule`
    runs it on the shared arena.
  - `CompileRules` and `BuildRules` compile every rule and call `Nfa2Dfa`.
- `token_builder_test.dfy` (module `TokenBuilderTest`) holds the source's
  end-to-end case: the pattern `(ab)*ac` is built on a fresh arena and turned
  into a DFA, and the three states the source's test expects are derived.

Behaviours of the source that the model keeps as they are:

- The character right after `)` or `]` is always skipped.
- A `[...]` without a suffix leaves `cur` where it was.
- `copy_from` returns only the copy made for the last arc into `end` that it
  finds directly under `start` (`CopySpecLast`). So a group of two or more
  plain characters followed by `+` fails: the `arc` call lands on `None`
  (`GroupPlusFails`).
- `[abc]+` hangs its copy off the end state, and links back to the end state
  only from its last copy (`BracketOneOrMore`).
- In a rule, an alternative reaches the merge state only when the `)` carries a
  suffix (`AlternativesWithoutSuffix`).
- An unknown name in a rule fails when `None` is unpacked, not with the
  `'unknown'` `GrammarError`.
- `|` and `^` are plain characters in a pattern.
- An unclosed `(` or `[` raises nothing, in a pattern or in a rule.

## Model

| member | source | states |
|---|---|---|
| Tokenize.StateGraph.NewState | pyparser/tokenize.py:9-17 | a new state has no arcs, is not final, and takes the next id, above every id given out so far |
| Tokenize.StateGraph.Arc | pyparser/tokenize.py:28-31 | `arc(c, n)` appends `n` to the arcs of the state under `c`, changes nothing else, and returns `n` |
| Tokenize.StateGraph.MarkFinal | pyparser/tokenize.py:121 | the state is made final, and no other state or field changes |
| Tokenize.StateGraph.Accept | pyparser/ast.py:179-180 | the rule's last state is made final and carries the rule as its payload, and nothing else changes |
| Tokenize.StateGraph.CopyFrom | pyparser/tokenize.py:33-42 | the arena after `copy_from` and its return value are those of the recursive specification `CopySpec`, including the copy that never ends when `start` is the state copied onto |
| Tokenize.StateGraph.CopyLoop | pyparser/tokenize.py:35-42 | the loop over `start.arcs.items()` makes the copies that `CopyItems` describes, in dictionary order, and keeps the last copy made for an arc into `end` |
| Tokenize.StateGraph.CopyArc | pyparser/tokenize.py:36-41 | one turn: a new state under the arc's label; it is the result when the arc goes to `end`, and otherwise the copy recurses into it |
| Tokenize.CopySpecKept | pyparser/tokenize.py:33-42 | `copy_from` changes only the arcs of the state copied onto and appends new states; none of them is final or carries data |
| Tokenize.CopyItemsKept | pyparser/tokenize.py:35-42 | the same, for the loop over the remaining arcs |
| Tokenize.CopyItemsAllEnd | pyparser/tokenize.py:35-39 | when every arc goes to `end`, the state copied onto gains one arc per item, in order and with the item's label, each to its own new arc-free state, and the last new state is returned |
| Tokenize.CopySpecAllEnd | pyparser/tokenize.py:33-42 | the same for `copy_from` on a `start` all of whose arcs lead to the state copied onto |
| Tokenize.CopyItemsEnds | pyparser/tokenize.py:35-41 | the loop returns something other than the `ret` it started with exactly when one of its remaining arcs leads into `end` |
| Tokenize.CopySpecEnds | pyparser/tokenize.py:33-42 | `copy_from` returns a state exactly when `start` has an arc directly into `end` |
| Tokenize.CopyItemsLast | pyparser/tokenize.py:35-41 | the loop appends one arc per item onto `self`, in order and with the item's label; a state it returns in place of `ret` is the target of the arc copied for the last item leading into `end` |
| Tokenize.CopySpecLast | pyparser/tokenize.py:33-42 | `copy_from` copies each arc of `start` onto `self` in dictionary order, and what it returns is the copy made for the last of those arcs that leads into `end` |
| Tokenize.OneOrMoreFails | pyparser/tokenize.py:133-136 | `sub_one_or_more` fails on `None.arc` exactly when the copy finishes and no arc of `start` leads directly to `cur`, and fails to finish exactly when the copy does |
| Tokenize.PlusNoEnd | pyparser/tokenize.py:133-136 | `+` after a span of plain characters, other than a single one, from a state without arcs fails on `None.arc` |
| Tokenize.ChainCopies | pyparser/tokenize.py:33-42 | the copy of a chain of two or more plain characters finishes; the start's only arc leads to the chain's second state, not to its end |
| Tokenize.PlusOne | pyparser/tokenize.py:133-136 | `+` after one plain character `c` gives the end an arc `c` to a new state, which links back by epsilon |
| Tokenize.AbInner | pyparser/tokenize.py:33-42 | for `(ab)+`, the nested copy below the `a` arc meets the group's end and returns the copy it made for it |
| Tokenize.AbCopy | pyparser/tokenize.py:33-42 | for `(ab)+`, the outer copy still returns `None`, because the end was met only below the nested call |
| Tokenize.SubMayOne | pyparser/tokenize.py:129-131 | `(xx)?` adds one epsilon arc from start to the current state |
| Tokenize.SubAny | pyparser/tokenize.py:124-127 | `(xx)*` adds epsilon arcs both ways between start and the current state |
| Tokenize.SubOneOrMore | pyparser/tokenize.py:133-136 | `(xx)+` copies the span onto the current state and links the returned copy back; it fails when `copy_from` returns `None` |
| Tokenize.ApplySuffix | pyparser/tokenize.py:75-82 | the suffix after a closing `)` or `]` picks one of the three operations; any other character changes nothing |
| Tokenize.LiteralAt | pyparser/tokenize.py:109-119 | an ordinary or escaped character inside `[` adds an arc to the bracket's end state and keeps `cur`; outside, it adds an arc to a new state, which becomes `cur` |
| Tokenize.CloseGroupAt | pyparser/tokenize.py:70-83 | `)` fails unless the innermost open item is a group; it pops the group, applies the suffix from the group's start to `cur`, and skips the next character |
| Tokenize.CloseBracketAt | pyparser/tokenize.py:86-101 | `]` fails unless the innermost open item is a bracket; `cur` moves to the end state only when a suffix follows, and the next character is skipped |
| Tokenize.ScanStep | pyparser/tokenize.py:66-120 | one turn of the loop, for each kind of character, including both escape errors |
| Tokenize.MakeStates | pyparser/tokenize.py:59-122 | the imperative scan over the arena ends in exactly the graph, root and last state of `BuildNfa`, or in the same error |
| Tokenize.BuildNfaOk | pyparser/tokenize.py:59-122 | a built NFA is well formed, its root is the first state made, and the state reached last is final |
| Tokenize.OnlyLastFinal | pyparser/tokenize.py:120-121 | the states that existed before are unchanged, and among the new states exactly the last one is final; none carries data |
| Tokenize.LinearChain | pyparser/tokenize.py:115-121 | a pattern without metacharacters gives a chain of single-character arcs, one per character, and only the last state is final and has no arcs |
| Tokenize.FailAt | pyparser/tokenize.py:65-120 | a turn of the loop that raises, at any scan the loop reaches from the start, makes the whole build fail with that error |
| Tokenize.BuildFails | pyparser/tokenize.py:65-120 | conversely, every failed build failed at a turn the loop reached |
| Tokenize.StepErrors | pyparser/tokenize.py:70-114 | at any scan: `)` raises the unmatched `()` error exactly when no item is open or the innermost is a bracket; `]` raises the unmatched `[]` error exactly when no item is open or the innermost is a group; `\` raises at the end of the pattern, and before a character outside `\?+*()[]`, and in no other case; the copy's failures come only from a `+` after `)` or `]` |
| Tokenize.PlainAt | pyparser/tokenize.py:115-119 | at any scan outside a bracket, a run of plain characters extends the current state by a chain, one new state per character |
| Tokenize.ParenAt | pyparser/tokenize.py:67-83 | at any scan, a group of plain characters with no suffix builds what the characters alone build, and the character after the `)` is skipped |
| Tokenize.CloseAt | pyparser/tokenize.py:70-83 | `)` closing a group with no suffix after it only pops both stacks and skips one character |
| Tokenize.ParenWrap | pyparser/tokenize.py:67-83 | instance of `ParenAt`: `(p)` as the whole pattern, `p` plain, builds the same graph as `p` |
| Tokenize.ParenSkip | pyparser/tokenize.py:73-83 | instance of `ParenAt`: `(p)c` as the whole pattern, with `c` not a suffix, builds the same graph as `p` |
| Tokenize.StrayParen | pyparser/tokenize.py:70-72 | instance of `StepErrors`: a plain prefix, then `)`, fails with the unmatched `()` error, whatever follows |
| Tokenize.ParenInBracket | pyparser/tokenize.py:70-72 | instance of `StepErrors`: a plain prefix, then `[)`, fails with the unmatched `()` error |
| Tokenize.StrayBracket | pyparser/tokenize.py:86-88 | instance of `StepErrors`: a plain prefix, then `]`, fails with the unmatched `[]` error |
| Tokenize.EscapeLast | pyparser/tokenize.py:102-106 | instance of `StepErrors`: a plain prefix followed by a single `\` fails with the escape-at-end error |
| Tokenize.EscapeUnknown | pyparser/tokenize.py:107-114 | instance of `StepErrors`: a plain prefix, then `\` before a character outside `\?+*()[]`, fails |
| Tokenize.BracketMayOne | pyparser/tokenize.py:84-101 | `[abc]?` gives the root one arc per character and one epsilon arc, all to the same end state, which is final and has no arcs |
| Tokenize.BracketAny | pyparser/tokenize.py:124-127 | `[abc]*` gives the same shape, plus an epsilon arc from the end state back to the root |
| Tokenize.FanOneOrMore | pyparser/tokenize.py:133-136 | `sub_one_or_more` after `[p]`: the copy puts one arc per character of `p`, in dictionary order, on the end state, each into its own new state, and an epsilon arc leads from the last of them back to the end state, which stays `cur` |
| Tokenize.BracketOneOrMore | pyparser/tokenize.py:84-101 | `[p]+` builds exactly this arena: the root with one arc per character of `p` into the end state, which is final; the end state with the copies of those arcs, each to a new state; and an epsilon arc back to the end state from the last copy only |
| Tokenize.GroupPlusAt | pyparser/tokenize.py:133-136 | at any scan whose current state has no arcs, a group of plain characters, other than a single one, followed by `+` fails on `None.arc` |
| Tokenize.GroupPlusFails | pyparser/tokenize.py:133-136 | on any arena, a pattern that starts with such a group and `+` fails, whatever follows |
| Tokenize.GroupPlusOneAt | pyparser/tokenize.py:133-136 | at such a scan, `(c)+` adds an arc `c` to a new state, which becomes `cur`, an arc `c` from it to another new state, and an epsilon arc back |
| Tokenize.StateEq | pyparser/tokenize.py:44-50 | `x == y` on two states: with any recursion depth left, two states with the same arcs compare `True` whatever their finality, so every state equals itself; identical target lists compare equal without a nested call, as list comparison checks identity first |
| Tokenize.EqualSameShape | pyparser/tokenize.py:44-50 | two states that `__eq__` calls equal have the same labels and the same number of targets under each |
| Tokenize.DictEqSound | pyparser/tokenize.py:47-49 | the loop over labels in `__eq__` returns true only when the target lists have equal lengths |
| Tokenize.StateEqTrue | pyparser/tokenize.py:44-50 | `__eq__` returns `True` within a given recursion depth exactly when the states are structurally equal to that depth, as the list comparison in `__eq__` sees it, identity first: the same labels, and per label target lists of one length whose members are pairwise the same state or equal one level down |
| Tokenize.StateEqFalse | pyparser/tokenize.py:44-50 | `__eq__` returns `False` only for states that are not structurally equal at any depth |
| Tokenize.StateEqMeans | pyparser/tokenize.py:44-50 | both directions together: `True` exactly for structural equality to the depth reached, and `False` only for states unequal at every depth |
| Dfa.Redirected | pyparser/dfa.py:56-59 | redirecting keeps the set of labels, and afterwards no arc points to `fr` unless `fr` is also `to` |
| Dfa.RedirectedTwice | pyparser/dfa.py:56-59 | redirecting twice is the same as redirecting once |
| Dfa.DState.constructor | pyparser/dfa.py:6-12 | a new DFA state is empty, not final and not frozen |
| Dfa.DState.Contains | pyparser/dfa.py:14-15 | `nfa in dfa_state` holds exactly when the NFA id is one of the state's ids, that is, when that NFA state is among the states added |
| Dfa.DState.Add | pyparser/dfa.py:17-28 | `add` fails on a frozen state; an id already present changes nothing; a new id is recorded with its non-epsilon labels, and finality becomes true when the added state is final |
| Dfa.NonEpsAdd | pyparser/dfa.py:24-26 | one add extends the non-epsilon labels of the id set by those of the added state; `DState.Add` keeps this as its invariant, which carries it over any series of adds |
| Dfa.AnyFinalAdd | pyparser/dfa.py:27-28 | one add makes the id set final exactly when it was, or the added state is final; `DState.Add` carries it over any series of adds in the same way |
| Dfa.EpsilonClosure | pyparser/tokenize.py:19-26 | `epsilon_closure` puts the start state in the result; every state it adds is reachable from the start, and every epsilon target of an added state is in the result |
| Dfa.ClosureInto | pyparser/tokenize.py:19-26 | a set closed that way is exactly the states reachable by epsilon arcs |
| Dfa.CloseTargets | pyparser/dfa.py:40-43 | closing over every target of one label adds exactly the epsilon closure of those targets |
| Dfa.DState.GetArcs | pyparser/dfa.py:37-44 | one new DFA state per label in `arc_labels`, each the epsilon closure of that label's targets over all member states |
| Dfa.DState.Freeze | pyparser/dfa.py:30-35 | after `freeze`, every label in `arc_labels` leads to its successor closure; the state is frozen, and its members list is dropped |
| Dfa.DState.OutEquals | pyparser/dfa.py:46-54 | two DFA states with the same finality and the same arc map are `out_equals`, in particular every state with itself |
| Dfa.OutEqualsIff | pyparser/dfa.py:46-54 | `out_equals` holds exactly when the finality and the arc maps are equal, with targets compared by identity |
| Dfa.DState.Replace | pyparser/dfa.py:56-59 | `replace` redirects exactly the arcs pointing to `fr` and leaves the others alone |
| Dfa.FindLater | pyparser/dfa.py:67-69 | the inner loop of `simplify_dfa` stops at the first later state that is `out_equals`, or at the end of the list |
| Dfa.MergeAt | pyparser/dfa.py:70-73 | deleting index `j` and redirecting every arc from the deleted state to state `i` keeps index 0 and keeps arcs inside the list; in a list without repeats the deleted state is gone and its own arcs are untouched; when state `i` is `out_equals` to state `j` and the list was a quotient of the original one, it stays a quotient, with what `j` stood for now stood for by `i` |
| Dfa.MergeQuotient | pyparser/dfa.py:69-73 | merging a state into one with the same finality and the same arcs, and redirecting every arc to it, turns a quotient into a quotient |
| Dfa.ReplaceAll | pyparser/dfa.py:71-72 | `replace` on every state left redirects exactly the arcs to the deleted state, for each state, and leaves all other arcs alone |
| Dfa.PassStep | pyparser/dfa.py:66-74 | one turn of the outer loop finds the first later state `j` that is `out_equals` to state `i`; if there is one, it is deleted, every arc to it now goes to state `i`, and in a list without repeats its own arcs are untouched; otherwise the list and all arcs are unchanged and no later state is `out_equals` to `i`; a quotient of the original list stays one |
| Dfa.MergeRest | pyparser/dfa.py:66-74 | the first merge of a pass and the rest of that pass shrink the list, keep index 0, and keep a quotient of the original list a quotient |
| Dfa.FinishPass | pyparser/dfa.py:66-74 | the rest of a pass never grows the list, keeps index 0 and arcs inside the list, and keeps a quotient of the original list a quotient |
| Dfa.SimplifyPass | pyparser/dfa.py:65-74 | one pass of `while run` either shrinks the list or leaves it unchanged and free of equivalent pairs; either way a quotient of the original list stays one |
| Dfa.SimplifyDfa | pyparser/dfa.py:62-74 | terminates; the list never grows; index 0 stays; no pair is `out_equals` at the end; arcs stay inside the list; nothing changes when no pair was `out_equals`; and for a list without repeats whose arcs stay inside it, the result is a quotient of the list as it was: each original state is stood for by a remaining state with its finality and with its arcs, targets replaced by the states standing for them |
| Dfa.IdentityQuotient | pyparser/dfa.py:62-64 | a list whose arcs stay inside it is a quotient of itself, each state standing for itself |
| Dfa.QuotientLanguage | pyparser/dfa.py:62-74 | a quotient accepts, from the state standing for `s`, exactly the words the original list accepts from `s`, so `simplify_dfa` keeps the language of every state |
| Dfa.StartState | pyparser/dfa.py:78-79 | the start DFA state is the epsilon closure of the NFA start, frozen |
| Dfa.Enqueue | pyparser/dfa.py:85-92 | a successor is frozen and then either registered and queued or replaced by the state already registered for its id set |
| Dfa.ResolveArc | pyparser/dfa.py:84-93 | one arc of the current state is made to point at the registered state for its id set |
| Dfa.ResolveState | pyparser/dfa.py:83-93 | every arc of the current state is resolved |
| Dfa.KeysBounded | pyparser/dfa.py:80-89 | the registry holds only subsets of the NFA's states, which bounds the worklist |
| Dfa.Finished | pyparser/dfa.py:83-93 | when the worklist is done, each arc goes to the registered state whose ids are the closure of the label's move, the states are distinct, and arcs stay in the list |
| Dfa.SubsetConstruction | pyparser/dfa.py:77-93 | the worklist ends; at most one DFA state per id set; the first state is the closure of the NFA start |
| Dfa.ApartNoPair | pyparser/dfa.py:46-54 | two states that differ in finality or in their labels are never `out_equals` |
| Dfa.SeparatedApart | pyparser/dfa.py:77-93 | over a separating NFA, where any two different epsilon-closed sets differ in finality or labels, the states of the subset construction pairwise differ in finality or labels |
| Dfa.SubsetStates | pyparser/dfa.py:77-93 | the subset construction hands `simplify_dfa` described states without repeats, with one arc per label and arcs inside the list, the first being the closure of the NFA start; over a separating NFA no two of them are `out_equals` |
| Dfa.SimplifySubset | pyparser/dfa.py:94 | `simplify_dfa` on such states keeps them described, with one arc per label, and changes nothing when no two were `out_equals` |
| Dfa.Nfa2Dfa | pyparser/dfa.py:77-95 | the result starts at the closure of the NFA start; every state is frozen and has the finality and labels of its id set; the id sets are distinct, arcs stay inside the list, and no two states are `out_equals`; over a separating NFA `simplify_dfa` merges nothing, and every arc goes to the state whose ids are the closure of its label's move |
| Grammar.Unquote | pyparser/ast.py:16-18 | the quotes are dropped: the first and last characters go, the rest stays in order |
| Grammar.UnquoteQuoted | pyparser/ast.py:16-18 | stripping a quoted string gives back the string between the quotes |
| Grammar.FindEnd | pyparser/ast.py:120-127 | the body ends at the first `;` after the `=`, or there is none |
| Grammar.ReadBody | pyparser/ast.py:120-127 | the inner loop collects exactly the tokens before that `;` |
| Grammar.PreprocessRules | pyparser/ast.py:98-129 | the loop returns what `SplitFrom` specifies, rules or error |
| Grammar.SplitOne | pyparser/ast.py:110-128 | one well-formed rule `Name = body ;` is read as the pair of its name and its body, without the `;` |
| Grammar.SplitJoin | pyparser/ast.py:110-129 | the stream written out from well-formed rules splits back into those rules |
| Grammar.SplitSound | pyparser/ast.py:110-129 | a successful split reads the stream as its rules, written one after another, and the rules are well formed |
| Grammar.SplitIff | pyparser/ast.py:110-129 | a stream splits into rules `rs` without error exactly when it is `rs` written out and `rs` has distinct names, none of them a token class, and no `;` in a body |
| Grammar.AfterRules | pyparser/ast.py:110-113 | well-formed rules at the head of a stream are consumed before anything after them is looked at |
| Grammar.NotAName | pyparser/ast.py:101-113 | a token that is not a name where a rule should start raises `GrammarError` |
| Grammar.RepeatedRule | pyparser/ast.py:114-115 | a rule name used twice raises the duplicated-rule error |
| Grammar.RuleNamedLikeToken | pyparser/ast.py:116-117 | a rule named like a token class raises the duplicated-with-token error |
| Grammar.NotAnEq | pyparser/ast.py:119 | a token other than `=` after the rule name raises `GrammarError` |
| Grammar.NoSemicolon | pyparser/ast.py:121-124 | a stream that ends inside a rule body raises the missing-`;` error |
| Grammar.NameAtEnd | pyparser/ast.py:119-124 | a stream that ends right after a rule name also raises the missing-`;` error, because `next_tk(Eq)` returns `None` |
| Rules.CloseAt | pyparser/ast.py:142-160 | the `)` branch on the arena: it does what `Close` specifies, including both errors |
| Rules.RuleStepAt | pyparser/ast.py:140-178 | one turn of the token loop on the arena, for every kind of token, numbers, `=` and `;` included (they fall through every branch and change nothing) |
| Rules.BuildRule | pyparser/ast.py:135-180 | building one rule on the arena gives exactly the graph, root and last state of `RuleNfa`, or the same error |
| Rules.RuleNfaOk | pyparser/ast.py:179-180 | a built rule NFA is well formed, its root is the rule's first state, and its last state is final and carries the rule |
| Rules.RuleNfaKeeps | pyparser/ast.py:136-180 | building a rule leaves earlier states unchanged; among its own states only the last is final, and only the last carries data |
| Rules.CompileRules | pyparser/ast.py:134-182 | every rule is built in order, and each gets a new DFA whose start is the closure of its NFA root; the first failing rule's error is returned |
| Rules.BuildRules | pyparser/ast.py:131-183 | a split error is returned with no state made; otherwise every rule is compiled as above |
| Rules.CloseJoins | pyparser/ast.py:145-160 | after `)` with a suffix, `cur` is the group's merge state and reached from the old `cur`; `?` and `*` make it reachable from the start, and `+` and `*` make the start reachable from it; no arc is removed |
| Rules.RuleFailAt | pyparser/ast.py:140-178 | a token that raises, at any state the rule's loop reaches, makes the rule fail with that error |
| Rules.RuleFails | pyparser/ast.py:140-178 | conversely, every failing rule failed at a token its loop reached |
| Rules.RuleStepErrors | pyparser/ast.py:142-175 | at any state: `)` raises the no-open-group error exactly when no group is open, and the empty-group error exactly when the group (or its first alternative) consumed nothing; `\|` raises exactly when no group is open, or right after `(` or `\|`; a name fails on unpacking `None` exactly when it is neither a token class nor a rule; no other token raises, and a number, `=` or `;` leaves the scan as it was |
| Rules.CloseFirst | pyparser/ast.py:143-144 | instance of `RuleStepErrors`: a body that starts with `)` raises `GrammarError` |
| Rules.OrFirst | pyparser/ast.py:162-163 | instance of `RuleStepErrors`: a body that starts with `\|` raises `GrammarError` |
| Rules.EmptyParens | pyparser/ast.py:145-149 | instance of `RuleStepErrors`: a body that starts with `()` raises the empty-group error |
| Rules.OrAfterParen | pyparser/ast.py:164-168 | instance of `RuleStepErrors`: a body that starts with `(\|` raises the `(\|` error |
| Rules.UnknownName | pyparser/ast.py:171-175 | instance of `RuleStepErrors`: a body that starts with a name that is neither a token class nor a rule fails when `None` is unpacked |
| Rules.RuleNameResolves | pyparser/ast.py:171-173 | the name of a rule that is no token class resolves to that rule's class |
| Rules.OneName | pyparser/ast.py:170-176 | a name gives one arc to a new state, labelled by its token class first and by its rule class second |
| Rules.OneStringGroup | pyparser/ast.py:150-160 | a group of one string followed by a suffix gives one arc labelled by the unquoted string plus the suffix's epsilon arcs |
| Rules.OptionalString | pyparser/ast.py:150-153 | `('x')?` gives the root an arc for `x` and an epsilon arc, both to the final state |
| Rules.RepeatedString | pyparser/ast.py:154-155 | `('x')+` gives an arc for `x` and an epsilon arc back from the final state to the root |
| Rules.StarredString | pyparser/ast.py:156-158 | `('x')*` gives both epsilon arcs |
| Rules.TwoStrings | pyparser/ast.py:161-169 | `('x' \| 'y')` builds both branches from the group's start; with a suffix, the second branch is linked to the end of the first |
| Rules.OptionalAlternatives | pyparser/ast.py:150-169 | `('x' \| 'y')?` has both branches reaching the one final state |
| TokenBuilderTest.BuildAbStarAc | test/token_builder_test.py:79-80 | `(ab)*ac` on a fresh arena builds the five-state NFA `0 -a-> 1 -b-> 2`, epsilon arcs both ways between 0 and 2, `2 -a-> 3 -c-> 4`, with root 0 and only 4 final |
| TokenBuilderTest.AbStarAcSeparating | test/token_builder_test.py:79-81 | that NFA is separating, so `nfa2dfa` merges nothing on it |
| TokenBuilderTest.AbStarAcResult | test/token_builder_test.py:82-88 | over that NFA, the deterministic DFA from the start closure has one arc `a`; its target has arcs `b`, back to the start, and `c`; the `c` target is final with no arcs; only that one is final |
| TokenBuilderTest.TestDfa | test/token_builder_test.py:79-88 | `nfa2dfa` on the NFA built for `(ab)*ac` gives the three states the test asserts |
| Rules.AlternativesWithoutSuffix | pyparser/ast.py:159-169 | `('x' \| 'y')` without a suffix leaves the first branch's end dead, and only the second branch's end is final |

## Left out

- pyparser/ast.py:2 imports `NFAState` from `.dfa`, which pyparser/dfa.py does
  not define, so as written the module fails when it is imported. The model
  describes the compiler as it behaves once that import resolves.
- The tokenizers are not part of this model: `new_token_base`, `get_tokenizer`,
  `ast_tokenizer` and `get_token_cls`. The grammar compiler takes its input as a
  sequence of grammar tokens, and the token-class lookup as a map from names to
  class names.
- Classes made at run time (`type(name.data, (GrammarRule,), {})`) are modelled
  by the rule's name.
- `ASTBuilder.build` and `Token.parse` are stubs without behaviour. `Tokens` is a
  bare list wrapper.
- `TokenLabel` and the hashing and equality of `String` are Python object
  protocol and are not modelled.
- Dfa.Enqueue, Dfa.SubsetConstruction, Dfa.SeparatedApart, Dfa.SubsetStates,
  Dfa.Nfa2Dfa: `freeze` joins the ids into a string in the set's iteration
  order (pyparser/dfa.py:33), and `nfa2dfa` looks states up by that string
  (pyparser/dfa.py:80, 86). In CPython that order depends on the order of
  insertion when ids collide in the set's hash table. So the source can
  register one id set twice, under two strings. For example, in `(abcdefgh)*x`
  the start closure inserts 0 then 8, and the successor under `h` inserts 8
  then 0. The model keys the registry by the set itself and shares states by
  set. Its "at most one state per id set", "no two `out_equals`" over a
  separating NFA, "merges nothing" over a separating NFA and "id sets
  distinct" are therefore statements about a set-keyed registry. They hold
  for the source when its strings are canonical, as when every id is below 8
  and iteration is ascending, which covers the `(ab)*ac` case. Otherwise the
  source can keep duplicates that `simplify_dfa` merges, or, on separate
  cycles, cannot merge.
- Tokenize.StateGraph.CopyFrom: `copy_from` has no visited set and can recurse
  forever on a cycle. The model gives it fuel, one unit per state of the arena
  at the call, and returns `CopyDiverges` when the fuel runs out.
  `CopyDiverges` also stands for the copy onto `start` itself, which never
  ends. The model does not claim that this fuel is enough for every acyclic
  span.
- Tokenize.SubOneOrMore: when `copy_from` returns `None`, the source raises
  `AttributeError` from `None.arc`. The model returns the error `CopyHasNoEnd`
  instead.
- Dfa.DState.Freeze: the order in which successors are made follows set
  iteration in the source. The model proves the result for any order.
- Dfa.SimplifyDfa: the contract says that the result is an equivalent list:
  a quotient of the list it was given, whose states accept the same words by
  `Dfa.QuotientLanguage`. It does not say that the result is the smallest such
  list. `out_equals` compares targets by identity, so two states whose targets
  are equivalent but different objects are never merged, for example two
  separate cycles that accept the same words.
- Dfa.Nfa2Dfa: for an NFA that is not separating, the contract does not say
  where an arc points after `simplify_dfa` has merged states, beyond staying
  inside the list. The quotient that `Dfa.SimplifyDfa` states is over the list
  the subset construction built, and `Dfa.Nfa2Dfa` does not return that list.
- Tokenize.ParenWrap, Tokenize.ParenSkip: whole-pattern instances only; the
  general statement at any scan is `Tokenize.ParenAt`.
- Tokenize.StrayParen, Tokenize.ParenInBracket, Tokenize.StrayBracket,
  Tokenize.EscapeLast, Tokenize.EscapeUnknown: instances after a plain prefix
  only; the general statement at any scan the loop reaches is
  `Tokenize.StepErrors` with `Tokenize.FailAt`.
- Rules.CloseFirst, Rules.OrFirst, Rules.EmptyParens, Rules.OrAfterParen,
  Rules.UnknownName: instances at the start of a body only; the general
  statement at any state the loop reaches is `Rules.RuleStepErrors` with
  `Rules.RuleFailAt`.
- Rules.CompileRules: the contract relates each DFA to the closure of its rule's
  NFA root. The DFA's full shape is the contract of `Dfa.Nfa2Dfa`, which is not
  restated here.
- The check at `pyparser/ast.py:138-139` (`cur is None`) can never fire, because
  `arc` always returns a state. The model has no branch for it.
- The `'unknown'` error at `pyparser/ast.py:174-175` can never be raised, because
  the unpacking above it fails first.
- Exceptions are modelled as error values. The model does not keep the partial
  graph that the source leaves behind when it raises.
