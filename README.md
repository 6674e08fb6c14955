# Abstract regular expressions: matcher, NFA translation and serialiser

This project models the core of `are`, a Python library of *abstract regular
expressions*. These are regular expressions whose symbols may be values of
any type. An expression is a tree of six node classes:
- `nul` accepts nothing;
- `emp` accepts only the empty string;
- `lit(x)` accepts the one symbol `x`;
- `con(a, b)` is concatenation;
- `alt(a, b)` is alternation;
- `rep(e)` is zero or more repetitions.

Here the tree is the datatype `Tree.Are<T>`. The project proves properties
of four parts of the library:

- **The recursive matcher** (`_match` of every node class, module
  `Matcher`). A call takes a sequence of symbols, an offset `i` and a mode.
  Full mode wants the whole rest of the input; prefix mode is `full=False`.
  The call returns the number of symbols consumed or `None`. The matcher
  is greedy and never backtracks:
  - `con` commits to its left child's prefix match;
  - `alt` keeps the longer of its two results;
  - `rep` adds up inner prefix matches until one fails.

  The answer is therefore not the longest matching prefix in general.
  `GreedyRepStarvesSuffix` shows this for `con(rep(lit(x)), lit(x))`, which
  never matches anything. The loop of `rep` has no progress guard: when the
  inner match is empty it repeats the same call forever. The model does
  not hide this. A call's outcome is `NoMatch` (the source's `None`),
  `Matched(n)`, or `Diverges` (the call never returns), and the matcher is
  a total function over these three outcomes.
- **The translation to an NFA** (`to_nfa`, module `Builder`). Each `nfa`
  instance the source creates is a state in a pool, named by its index.
  - The recursive build threads a continuation state through the tree, and
    `None` stands for "no string gets through".
  - The imperative version is the class `StatePool`. It appends states, and
    for `rep` it updates in place the epsilon list of the state it has just
    created, which closes the loop. It is proved equal to the pure
    specification `Translate`.
- **The serialiser** `to_re` (module `Pattern`). It turns a tree whose
  symbols are all strings into a pattern for Python's `re` module. The
  question "is this symbol a string?" is a parameter
  `text: T -> Option<string>`.
- **The earlier matcher** in `are/are.py` (module `EarlyMatcher`). It has
  no `nul` class, and its nodes are called directly. It is proved to give,
  on every tree it can build, the outcome of the current matcher.

`GuardedMatcher` is the matcher with the progress guard that the `rep`
docstring evidently intends (see Findings). It always returns. Wherever the
source's matcher returns, the guarded matcher gives the same answer, so
every result proved about `Matcher.Match` holds for `GuardedMatch` on every
input where `Match` returns. Where `Match` diverges, the guarded matcher
may answer differently: on `[x]`, `rep(alt(lit(x), emp()))` diverges under
`Match` and matches 1 symbol under `GuardedMatch`.

The library's own docstrings promise two things its code does not do. The
model follows the code in both:
- The `rep` docstring (src/are/are.py:602-605) says that every `rep`
  accepts the empty string. The loop (src/are/are.py:636-638) only stops
  on `None`, so `rep(emp())` never returns on the empty string
  (`Matcher.RepEmpDiverges`).
- The `_match` docstrings (src/are/are.py:152-154 and :271) say that
  `_match` returns the length of the longest matching prefix. The code is
  greedy, as shown above (`Matcher.GreedyRepStarvesSuffix`).

## Model

| member | source | states |
|---|---|---|
| Matcher.Match | test/test_are.py:75-92 | every success stays within the input, and a full-mode success reaches the end of the input |
| Matcher.ConMatch | src/are/are.py:424-447 | `con` runs the left child in prefix mode, then the right child in prefix mode where the left stopped; its successes stay within the input |
| Matcher.AltMatch | src/are/are.py:523-570 | `alt` runs both children in the caller's mode at the same offset; its successes stay within the input |
| Matcher.RepMatch | src/are/are.py:625-647 | `rep` is the loop's total behind the full-mode end check; its successes stay within the input |
| Matcher.RepLoop | src/are/are.py:634-638 | the loop never ends in `None`; its total is at least what was already consumed and stays within the input |
| Matcher.RunRep | src/are/are.py:625-647 | the loop followed by the end check computes exactly `RepMatch` |
| Matcher.RunRepLoop | src/are/are.py:634-638 | the while loop that updates `lengths` and `length` computes exactly `RepLoop` from offset `i` |
| Matcher.NulRejects | src/are/are.py:267-279 | `nul` answers `None` in both modes at every offset |
| Matcher.EmpMatch | src/are/are.py:319-327 | `emp` never consumes a symbol, and a full-mode success reaches the end of the input |
| Matcher.LitMatch | src/are/are.py:366-381 | `lit(x)` consumes exactly one symbol, which is `x`, and a full-mode success reaches the end of the input |
| Matcher.EmpCases | src/are/are.py:311-327 | `emp` succeeds with 0 exactly in prefix mode or at the end of the input, and never diverges |
| Matcher.LitCases | src/are/are.py:358-381 | `lit(x)` succeeds, with 1, exactly when the symbol at `i` is `x` and, in full mode, is the last one |
| Matcher.SuccessBounds | test/test_are.py:75-92 | from an offset inside the input, a prefix-mode success is at most the rest of the input, and a full-mode success is exactly the rest |
| Matcher.FullIsEndChecked | src/are/are.py:151-166 | full mode is prefix mode with successes that stop short of the end turned into `None` |
| Matcher.FullDivergesIffPrefixDiverges | src/are/are.py:634-638 | a call runs forever in full mode exactly when it does in prefix mode |
| Matcher.AltIsJoin | src/are/are.py:535-570 | `alt` is `None` only when both children are; it gives the one success, or the larger of two |
| Matcher.AltCommutes | src/are/are.py:523-570 | swapping the children of `alt` changes nothing |
| Matcher.AltIdempotent | src/are/are.py:523-570 | `alt(a, a)` behaves as `a` |
| Matcher.ConEmpUnit | src/are/are.py:424-447 | `emp` on either side of `con` changes nothing |
| Matcher.NulAbsorbsCon | src/are/are.py:241-244 | `con(nul, a)` answers `None`; `con(a, nul)` never succeeds |
| Matcher.NulAltUnit | src/are/are.py:245-250 | `nul` on either side of `alt` changes nothing |
| Matcher.RepPrefixNeverFails | src/are/are.py:634-641 | `rep` in prefix mode never answers `None` |
| Matcher.ChainGivesRepLoop | src/are/are.py:634-638 | a chain of non-empty prefix matches of the inner node that ends in a failure is what the loop adds up |
| Matcher.RepLoopGivesChain | src/are/are.py:634-638 | whenever the loop ends, its total is the sum of such a chain |
| Matcher.RepSumsChain | src/are/are.py:634-641 | `rep` in prefix mode returns `t` exactly when `t` is the sum of such a chain |
| Matcher.RepLitRun | src/are/are.py:634-638 | on `x^n` followed by no `x`, the loop of `rep(lit(x))` ends with `n` |
| Matcher.RepLitPower | src/are/are.py:578-582 | `rep(lit(x))` on `x^n` then no `x`: prefix mode gives `n`; full mode gives `n` exactly when nothing follows |
| Matcher.RepLitStops | src/are/are.py:634-638 | the loop of `rep(lit(x))` always ends, and no `x` follows where it ends |
| Matcher.GreedyRepStarvesSuffix | src/are/are.py:424-447 | `con(rep(lit(x)), lit(x))` answers `None` on every input, in both modes |
| Matcher.RepEmpDiverges | src/are/are.py:634-638 | `rep(emp())` never returns, on any input and in either mode |
| Matcher.RepOfRepDiverges | src/are/are.py:634-638 | `rep(rep(x))` never returns |
| GuardedMatcher.GuardedMatch | src/are/are.py:600-605 | the matcher with the progress guard always returns, and its successes stay within the input |
| GuardedMatcher.GuardedConMatch | src/are/are.py:424-447 | `con` over the guarded matcher always returns and stays within the input |
| GuardedMatcher.GuardedAltMatch | src/are/are.py:523-570 | `alt` over the guarded matcher always returns and stays within the input |
| GuardedMatcher.GuardedRepLoop | src/are/are.py:634-638 | the guarded loop's total is at least what was consumed and stays within the input |
| GuardedMatcher.GuardedRepAcceptsEmpty | src/are/are.py:600-605 | every `rep` accepts the empty rest of the input, in both modes |
| GuardedMatcher.GuardedAgrees | src/are/are.py:625-647 | wherever the source's matcher returns, the guarded matcher gives the same answer |
| GuardedMatcher.GuardedLoopAgrees | src/are/are.py:634-638 | the guarded loop and the source's loop agree wherever the source's loop ends |
| Builder.Translate | src/are/are.py:44-71 | the build only appends states: every state already in the pool, the continuation among them, comes out unchanged, and no new state is accepting |
| Builder.StatePool.constructor | src/are/are.py:45 | a new pool holds only the root continuation `nfa()` |
| Builder.StatePool.ToNfa | src/are/are.py:44-71 | the imperative build, with its in-place update of the `rep` state, leaves the pool and gives the fragment that `Translate` describes |
| Builder.RootNfa | src/are/are.py:72-75 | the root translation is the reject-all automaton `-nfa()` exactly when the tree is unsatisfiable |
| Builder.ToNfa | src/are/are.py:34-75 | the root call gives `RootNfa`: the reject-all automaton when the build yields `None`, else the pool and its entry state |
| Builder.TranslateNoneIffUnsat | src/are/are.py:47-66 | the build yields `None` exactly for `nul`, a `con` with such a side and an `alt` with two such sides |
| Builder.UnsatNeverMatches | src/are/are.py:241-250 | the recursive matcher never succeeds on a tree whose build yields `None` |
| Builder.RootRejectAll | src/are/are.py:72-75 | the root call gives the reject-all automaton exactly for those trees, and the matcher never succeeds on them |
| Builder.TranslateClosed | src/are/are.py:44-71 | no transition leads outside the pool, and the fragment is a state of the pool |
| Builder.RootWellFormed | src/are/are.py:44-75 | the root automaton is closed, its entry is a state, and `nfa()` at index 0 is its only accepting state |
| Builder.RepShape | src/are/are.py:67-71 | `rep` is never `None`; its state has an epsilon transition to the continuation, then to the inner fragment when there is one |
| Builder.RepLitCycle | src/are/are.py:67-71 | for `rep(lit(x))` the literal's state leads back on `x` to the `rep` state: the loop |
| Builder.AltLinksSatisfiableSides | src/are/are.py:56-66 | `alt` links only satisfiable sides: one side gives its own fragment, two sides get a new state with epsilon transitions to both, left first |
| Builder.ChainExample | src/are/are.py:38-42 | `con(lit(1), con(lit(2), lit(3)))` becomes the chain 1, 2, 3 into `nfa()` |
| Pattern.ToRe | src/are/are.py:112-127 | `to_re` raises `TypeError` exactly when some literal is not a string |
| Pattern.ToReBracketed | src/are/are.py:112-125 | with literals free of parentheses, the pattern's parentheses are balanced: no prefix closes more groups than it has opened, and the whole pattern closes every group it opens |
| Pattern.DocExampleGroups | src/are/are.py:99-100 | `rep(alt(con(lit('a'), lit('b')), emp()))` gives `((((a)(b))\|)*)` |
| Pattern.DocExampleNul | src/are/are.py:101-102 | `nul` becomes the empty character class inside the groups |
| Pattern.DocExampleIntegers | src/are/are.py:107-110 | integer literals raise `TypeError` |
| EarlyMatcher.Call | are/are.py:42-290 | the earlier matcher's successes stay within the input, and in full mode reach its end |
| EarlyMatcher.ConCall | are/are.py:127-146 | the earlier `con` stays within the input |
| EarlyMatcher.AltCall | are/are.py:211-236 | the earlier `alt` stays within the input |
| EarlyMatcher.RepCall | are/are.py:272-290 | the earlier `rep` stays within the input |
| EarlyMatcher.RepCallLoop | are/are.py:277-281 | the earlier loop never ends in `None`, and stays within the input |
| EarlyMatcher.RunRepCall | are/are.py:272-290 | the while loop and the end check compute exactly `RepCall` |
| EarlyMatcher.CallIsMatch | are/are.py:127-290 | on every tree without `nul`, the earlier matcher's outcome is the current matcher's |
| EarlyMatcher.LoopIsRepLoop | are/are.py:277-281 | the two `rep` loops agree |
| EarlyMatcher.CallLeaves | are/are.py:47-94 | earlier `emp` gives 0 in prefix mode or at the end; earlier `lit(x)` gives 1 on `x`, which in full mode must be last |
| EarlyMatcher.FullSuccessIsRest | are/are.py:283-290 | every full-mode success consumes exactly the rest of the input |
| EarlyMatcher.CallRepLitPower | are/are.py:248-257 | `rep(lit(x))` on `x^n` then no `x`: `n` in prefix mode; in full mode `n` or `None` |
| EarlyMatcher.ConDocExample | are/are.py:100-106 | `con(lit('a'), lit('b'))` on `ab`, `a`, `abc`, `cd` gives 2, `None`, `None`, `None`, and 2 on `abc` in prefix mode |
| EarlyMatcher.AltDocExample | are/are.py:155-160 | `alt(lit('a'), con(lit('a'), lit('a')))` on `aaa` gives 2 in prefix mode and `None` in full mode |

## Left out

- `compile` and the `_compiled` dispatch in `__call__` (src/are/are.py:77-91, 186-190) are not modelled. They depend on the evaluator of the separate `nfa` package, which is not part of this model.
- Running the automaton, and its equivalence with the matcher, are not modelled. Automaton semantics live in the `nfa` package. The greedy matcher is not equivalent to the automaton in general (see `Matcher.GreedyRepStarvesSuffix`).
- The check that the input is iterable (`ValueError`) and the `reiter` wrapper are not modelled. The input is a sequence with an explicit offset; lazy iterators have no counterpart.
- `__str__` and `__repr__` are not modelled. They print Python tuple representations of arbitrary symbol values.
- `__call__` with a negative `_index`, and `to_nfa` called with a continuation other than the default, are not modelled. Offsets are natural numbers, and the root always uses a fresh `nfa()`.
- `to_re` only asks whether a literal is a string. Python's `isinstance` on arbitrary objects becomes the parameter `text`.
- Builder: `nfa` states are values in a pool indexed by position, not shared Python objects. Identity and aliasing of `nfa` instances appear only as shared indices. The epsilon key of the `nfa` dictionary is the separate field `eps`.
- Matcher.Match: a call that never returns is the value `Diverges`. The model says which inputs make the source spin. It does not model the stack depth, time or memory spent.
- Builder.UnsatNeverMatches: states that the matcher never *succeeds* on a tree whose build yields `None`. It does not say that the matcher answers `None`, because such a tree can still run forever, as `con(rep(emp()), nul())` does.

## Findings

| source | as written | input that shows it | evidently intended | confidence | as-written member | corrected member |
|---|---|---|---|---|---|---|
| src/are/are.py:634-638 | the loop of `rep._match` stops only when the inner match is `None`; an inner match of length 0 leaves the offset unchanged and the loop asks the same question forever | `rep(emp())` on the empty string (and on any input); likewise `rep(rep(x))` | the loop also stops on a zero-length step, so that every `rep` accepts the empty string, as the docstring says at src/are/are.py:602 | not executed | Matcher.RepEmpDiverges | GuardedMatcher.GuardedRepAcceptsEmpty |
