/** The offset-based recursive matcher of src/are/are.py (the `_match`
    methods of `nul`, `emp`, `lit`, `con`, `alt` and `rep`), with its
    properties.

    The matcher is greedy and never backtracks: `con` commits to the prefix
    match of its left child, `alt` keeps the longer of its two results and
    `rep` eats prefix matches of its child until one fails. The repetition
    loop has no progress guard, so a call can run forever; that outcome is
    the value `Diverges`. */
module Matcher {
  import opened Tree

  function Max(a: nat, b: nat): nat { if a < b then b else a }

  /** `emp()._match`: the empty prefix is accepted, except that full mode
      also asks for the input to be used up at offset `i`. */
  function EmpMatch<T>(s: seq<T>, i: nat, full: bool): (res: Outcome)
    ensures res.Matched? ==> res.len == 0
    ensures WithinInput(s, i, full, res)
  {
    if i < |s| && full then NoMatch else Matched(0)
  }

  /** A success never runs past the input (it may be 0 at an offset beyond
      the end), and in full mode it always reaches the end of the input. */
  predicate WithinInput<T>(s: seq<T>, i: nat, full: bool, o: Outcome)
  {
    o.Matched? ==> (o.len == 0 || i + o.len <= |s|) && (full ==> |s| <= i + o.len)
  }

  /** The last step of `lit`, `con`, `alt` and `rep`: prefix mode accepts the
      `n` symbols consumed from `i`; full mode accepts them only when `emp`
      in full mode accepts at `i + n`. */
  function Finish<T>(s: seq<T>, i: nat, n: nat, full: bool): Outcome
  {
    if !full || EmpMatch(s, i + n, true) == Matched(0) then Matched(n) else NoMatch
  }

  /** The node's match against `s` from offset `i`: the number of symbols it
      consumes, `NoMatch` for the source's `None`, or `Diverges` when the
      source's call never returns. Dispatches to the `_match` of the node's
      class. */
  function Match<T(==)>(r: Are<T>, s: seq<T>, i: nat, full: bool): (res: Outcome)
    ensures WithinInput(s, i, full, res)
    decreases r, 2, 0
  {
    match r
    case Nul => NoMatch
    case Emp => EmpMatch(s, i, full)
    case Lit(x) => LitMatch(x, s, i, full)
    case Con(a, b) => ConMatch(a, b, s, i, full)
    case Alt(a, b) => AltMatch(a, b, s, i, full)
    case Rep(e) => RepMatch(e, s, i, full)
  }

  /** `lit(x)._match`: the symbol at `i` must be `x`; full mode then also asks
      `emp` whether the input ends at `i + 1`. */
  function LitMatch<T(==)>(x: T, s: seq<T>, i: nat, full: bool): (res: Outcome)
    ensures res.Matched? ==> res.len == 1 && i < |s| && s[i] == x
    ensures WithinInput(s, i, full, res)
  {
    if i < |s| && s[i] == x then Finish(s, i, 1, full) else NoMatch
  }

  /** `con(a, b)._match`: `a` in prefix mode at `i`, then `b` in prefix mode
      where `a` stopped; no other split is tried. */
  function ConMatch<T(==)>(a: Are<T>, b: Are<T>, s: seq<T>, i: nat, full: bool): (res: Outcome)
    ensures WithinInput(s, i, full, res)
    decreases Con(a, b), 1, 0
  {
    var n1 := Match(a, s, i, false);
    if !n1.Matched? then n1
    else
      var n2 := Match(b, s, i + n1.len, false);
      if !n2.Matched? then n2 else Finish(s, i, n1.len + n2.len, full)
  }

  /** `alt(a, b)._match`: both branches in the caller's mode at `i`; the
      second alone when the first is `None`, otherwise the first, or the
      larger of the two when both succeed, each time behind the end check. */
  function AltMatch<T(==)>(a: Are<T>, b: Are<T>, s: seq<T>, i: nat, full: bool): (res: Outcome)
    ensures WithinInput(s, i, full, res)
    decreases Alt(a, b), 1, 0
  {
    var m1 := Match(a, s, i, full);
    if m1.NoMatch? then Match(b, s, i, full)
    else if m1.Diverges? then Diverges
    else
      var m2 := Match(b, s, i, full);
      if m2.Diverges? then Diverges
      else if m2.NoMatch? then Finish(s, i, m1.len, full)
      else Finish(s, i, Max(m1.len, m2.len), full)
  }

  /** `rep(e)._match`: the loop's total, behind the end check in full mode. */
  function RepMatch<T(==)>(e: Are<T>, s: seq<T>, i: nat, full: bool): (res: Outcome)
    ensures WithinInput(s, i, full, res)
    decreases Rep(e), 1, 0
  {
    var t := RepLoop(e, s, i, 0);
    if t.Matched? then Finish(s, i, t.len, full) else t
  }

  /** The loop of `rep._match`, with `lengths` symbols already consumed from
      `i`: it adds the successive prefix matches of `e` and stops at the
      first `None`. A zero-length step leaves the offset where it was, so the
      source repeats the very same call forever; that is `Diverges`. The loop
      never ends in `NoMatch`. */
  function RepLoop<T(==)>(e: Are<T>, s: seq<T>, i: nat, lengths: nat): (res: Outcome)
    requires lengths == 0 || i + lengths <= |s|
    ensures !res.NoMatch?
    ensures res.Matched? ==> lengths <= res.len && WithinInput(s, i, false, res)
    decreases Rep(e), 0, if i + lengths <= |s| then |s| - (i + lengths) else 0
  {
    var length := Match(e, s, i + lengths, false);
    if length.NoMatch? then Matched(lengths)
    else if length.Diverges? || length.len == 0 then Diverges
    else RepLoop(e, s, i, lengths + length.len)
  }

  /** `rep._match` as the source writes it: the loop, then the closing end
      check of full mode. */
  method RunRep<T(==)>(e: Are<T>, s: seq<T>, i: nat, full: bool) returns (res: Outcome)
    ensures res == RepMatch(e, s, i, full)
  {
    var lengths := RunRepLoop(e, s, i);
    if !lengths.Matched? {
      return lengths;
    }
    if !full {
      return lengths;
    }
    if EmpMatch(s, i + lengths.len, true) == Matched(0) {
      return lengths;
    }
    return NoMatch;
  }

  /** The while loop of `rep._match`, which accumulates the lengths of the
      inner prefix matches until one of them is `None`. */
  method RunRepLoop<T(==)>(e: Are<T>, s: seq<T>, i: nat) returns (res: Outcome)
    ensures res == RepLoop(e, s, i, 0)
  {
    var lengths: nat := 0;
    var length := Match(e, s, i, false);
    while length.Matched?
      invariant lengths == 0 || i + lengths <= |s|
      invariant length == Match(e, s, i + lengths, false)
      invariant RepLoop(e, s, i, 0) == RepLoop(e, s, i, lengths)
      decreases if i + lengths <= |s| then |s| - (i + lengths) else 0
    {
      if length.len == 0 {
        // The source adds nothing and asks the same question again, forever.
        return Diverges;
      }
      lengths := lengths + length.len;
      length := Match(e, s, i + lengths, false);
    }
    if length.Diverges? {
      return Diverges;
    }
    return Matched(lengths);
  }

  // ---------------------------------------------------------------------
  // Leaves

  /** `nul` rejects everything, in both modes and at every offset. */
  lemma NulRejects<T>(s: seq<T>, i: nat, full: bool)
    ensures Match(Nul, s, i, full) == NoMatch
  {
  }

  /** `emp` consumes nothing; in full mode it succeeds only at the end. */
  lemma EmpCases<T>(s: seq<T>, i: nat, full: bool)
    ensures Match(Emp, s, i, full).Matched? <==> !full || |s| <= i
    ensures Match(Emp, s, i, full).Matched? ==> Match(Emp, s, i, full).len == 0
    ensures !Match(Emp, s, i, full).Diverges?
  {
  }

  /** `lit(x)` consumes exactly the one symbol `x` at `i`; in full mode that
      symbol must also be the last. */
  lemma LitCases<T>(x: T, s: seq<T>, i: nat, full: bool)
    ensures Match(Lit(x), s, i, full).Matched? <==>
              i < |s| && s[i] == x && (!full || i + 1 == |s|)
    ensures Match(Lit(x), s, i, full).Matched? ==> Match(Lit(x), s, i, full).len == 1
    ensures !Match(Lit(x), s, i, full).Diverges?
  {
  }

  /** The bounds the test suite asserts: from an offset inside the input, a
      success consumes at most what is left, and in full mode exactly that. */
  lemma SuccessBounds<T>(r: Are<T>, s: seq<T>, i: nat, full: bool)
    requires i <= |s|
    ensures Match(r, s, i, full).Matched? ==> Match(r, s, i, full).len <= |s| - i
    ensures Match(r, s, i, full).Matched? && full ==> Match(r, s, i, full).len == |s| - i
  {
  }

  // ---------------------------------------------------------------------
  // Full mode is prefix mode plus the end check

  /** Keeps a success only when it reaches the end of the input. */
  function EndCheck<T>(s: seq<T>, i: nat, o: Outcome): Outcome
  {
    if o.Matched? && i + o.len < |s| then NoMatch else o
  }

  /** Full mode gives the prefix-mode outcome, restricted to successes that
      use up the input: the two modes differ only by the final end check. */
  lemma {:induction false} FullIsEndChecked<T>(r: Are<T>, s: seq<T>, i: nat)
    ensures Match(r, s, i, true) == EndCheck(s, i, Match(r, s, i, false))
  {
    match r
    case Nul =>
    case Emp =>
    case Lit(_) =>
    case Con(_, _) =>
    case Rep(_) =>
    case Alt(a, b) =>
      FullIsEndChecked(a, s, i);
      FullIsEndChecked(b, s, i);
  }

  /** Whether a call runs forever does not depend on the mode. */
  lemma FullDivergesIffPrefixDiverges<T>(r: Are<T>, s: seq<T>, i: nat)
    ensures Match(r, s, i, true).Diverges? <==> Match(r, s, i, false).Diverges?
  {
    FullIsEndChecked(r, s, i);
  }

  // ---------------------------------------------------------------------
  // Alternation

  /** Reference meaning of alternation: a run that never returns absorbs
      everything; otherwise the one success, or the longer of two. */
  function Join(a: Outcome, b: Outcome): Outcome
  {
    if a.Diverges? || b.Diverges? then Diverges
    else if a.NoMatch? then b
    else if b.NoMatch? then a
    else Matched(Max(a.len, b.len))
  }

  /** `alt` runs both branches in the caller's mode at the same offset: it
      fails only when both fail, gives the single success when exactly one
      succeeds, and the longer success when both do; its own end check never
      rejects a branch's full-mode success. */
  lemma AltIsJoin<T>(a: Are<T>, b: Are<T>, s: seq<T>, i: nat, full: bool)
    ensures Match(Alt(a, b), s, i, full) == Join(Match(a, s, i, full), Match(b, s, i, full))
  {
  }

  /** The order of the two branches of `alt` does not matter. */
  lemma AltCommutes<T>(a: Are<T>, b: Are<T>, s: seq<T>, i: nat, full: bool)
    ensures Match(Alt(a, b), s, i, full) == Match(Alt(b, a), s, i, full)
  {
    AltIsJoin(a, b, s, i, full);
    AltIsJoin(b, a, s, i, full);
  }

  /** `alt(x, x)` behaves as `x`. */
  lemma AltIdempotent<T>(a: Are<T>, s: seq<T>, i: nat, full: bool)
    ensures Match(Alt(a, a), s, i, full) == Match(a, s, i, full)
  {
    AltIsJoin(a, a, s, i, full);
  }

  // ---------------------------------------------------------------------
  // Concatenation

  /** `emp` is a unit of concatenation on either side. */
  lemma ConEmpUnit<T>(a: Are<T>, s: seq<T>, i: nat, full: bool)
    ensures Match(Con(Emp, a), s, i, full) == Match(a, s, i, full)
    ensures Match(Con(a, Emp), s, i, full) == Match(a, s, i, full)
  {
    assert Match(Con(Emp, a), s, i, full) == ConMatch(Emp, a, s, i, full);
    assert Match(Con(a, Emp), s, i, full) == ConMatch(a, Emp, s, i, full);
    assert Match(Emp, s, i, false) == Matched(0);
    var n := Match(a, s, i, false);
    if n.Matched? {
      assert Match(Emp, s, i + n.len, false) == Matched(0);
    }
    FullIsEndChecked(a, s, i);
  }

  /** `nul` absorbs concatenation. A `con` whose right side is `nul` can
      still run forever (its left side is tried first), but it never
      succeeds. */
  lemma NulAbsorbsCon<T>(a: Are<T>, s: seq<T>, i: nat, full: bool)
    ensures Match(Con(Nul, a), s, i, full) == NoMatch
    ensures !Match(Con(a, Nul), s, i, full).Matched?
  {
    assert Match(Con(Nul, a), s, i, full) == ConMatch(Nul, a, s, i, full);
    assert Match(Con(a, Nul), s, i, full) == ConMatch(a, Nul, s, i, full);
    assert Match(Nul, s, i, false) == NoMatch;
    var n := Match(a, s, i, false);
    if n.Matched? {
      assert Match(Nul, s, i + n.len, false) == NoMatch;
    }
  }

  /** `nul` is a unit of alternation on either side. */
  lemma NulAltUnit<T>(a: Are<T>, s: seq<T>, i: nat, full: bool)
    ensures Match(Alt(Nul, a), s, i, full) == Match(a, s, i, full)
    ensures Match(Alt(a, Nul), s, i, full) == Match(a, s, i, full)
  {
    assert Match(Alt(Nul, a), s, i, full) == AltMatch(Nul, a, s, i, full);
    assert Match(Alt(a, Nul), s, i, full) == AltMatch(a, Nul, s, i, full);
    assert Match(Nul, s, i, full) == NoMatch;
  }

  // ---------------------------------------------------------------------
  // Repetition

  /** `rep` in prefix mode never answers `None`: zero repetitions are always
      available when the loop ends. */
  lemma RepPrefixNeverFails<T>(e: Are<T>, s: seq<T>, i: nat)
    ensures !Match(Rep(e), s, i, false).NoMatch?
  {
  }

  /** `ks` lists the lengths of successive non-empty prefix matches of `e`
      from offset `j`, after which `e` fails. */
  ghost predicate IsChain<T>(e: Are<T>, s: seq<T>, j: nat, ks: seq<nat>)
    decreases |ks|
  {
    if ks == [] then Match(e, s, j, false) == NoMatch
    else ks[0] > 0 && Match(e, s, j, false) == Matched(ks[0]) && IsChain(e, s, j + ks[0], ks[1..])
  }

  function Sum(ks: seq<nat>): nat
  {
    if ks == [] then 0 else ks[0] + Sum(ks[1..])
  }

  /** A chain of prefix matches of `e` that ends in a failure is exactly what
      the loop of `rep` adds up. */
  lemma {:induction false} ChainGivesRepLoop<T>(e: Are<T>, s: seq<T>, i: nat, lengths: nat, ks: seq<nat>)
    requires lengths == 0 || i + lengths <= |s|
    requires IsChain(e, s, i + lengths, ks)
    ensures RepLoop(e, s, i, lengths) == Matched(lengths + Sum(ks))
    decreases |ks|
  {
    if ks != [] {
      ChainGivesRepLoop(e, s, i, lengths + ks[0], ks[1..]);
    }
  }

  /** Conversely, whenever the loop of `rep` ends, its total is the sum of a
      chain of successive prefix matches of `e` that ends in a failure. */
  lemma {:induction false} RepLoopGivesChain<T>(e: Are<T>, s: seq<T>, i: nat, lengths: nat)
    requires lengths == 0 || i + lengths <= |s|
    ensures RepLoop(e, s, i, lengths).Matched? ==>
              exists ks :: IsChain(e, s, i + lengths, ks) && lengths + Sum(ks) == RepLoop(e, s, i, lengths).len
    decreases if i + lengths <= |s| then |s| - (i + lengths) else 0
  {
    var length := Match(e, s, i + lengths, false);
    if length.NoMatch? {
      assert IsChain(e, s, i + lengths, []) && lengths + Sum([]) == RepLoop(e, s, i, lengths).len;
    } else if length.Matched? && length.len > 0 {
      var more := lengths + length.len;
      RepLoopGivesChain(e, s, i, more);
      assert RepLoop(e, s, i, lengths) == RepLoop(e, s, i, more);
      if RepLoop(e, s, i, more).Matched? {
        var rest :| IsChain(e, s, i + more, rest) && more + Sum(rest) == RepLoop(e, s, i, more).len;
        ChainCons(e, s, i + lengths, length.len, rest);
      }
    }
  }

  /** A non-empty prefix match of `e` at `j` followed by a chain from where it
      stops is a chain from `j`. */
  lemma ChainCons<T>(e: Are<T>, s: seq<T>, j: nat, k: nat, rest: seq<nat>)
    requires k > 0 && Match(e, s, j, false) == Matched(k)
    requires IsChain(e, s, j + k, rest)
    ensures IsChain(e, s, j, [k] + rest) && Sum([k] + rest) == k + Sum(rest)
  {
    var ks := [k] + rest;
    assert ks[0] == k && ks[1..] == rest;
  }

  /** `rep(e)` in prefix mode returns `t` exactly when `t` is the sum of a
      chain of successive non-empty prefix matches of `e` from `i` after
      which `e` fails. */
  lemma RepSumsChain<T>(e: Are<T>, s: seq<T>, i: nat, t: nat)
    ensures Match(Rep(e), s, i, false) == Matched(t) <==>
              exists ks :: IsChain(e, s, i, ks) && Sum(ks) == t
  {
    RepLoopGivesChain(e, s, i, 0);
    if ks :| IsChain(e, s, i, ks) && Sum(ks) == t {
      ChainGivesRepLoop(e, s, i, 0, ks);
    }
  }

  /** On `x^n` followed by anything that does not start with `x`, the loop
      of `rep(lit(x))` ends having consumed exactly the `n` copies of `x`. */
  lemma {:induction false} RepLitRun<T>(x: T, s: seq<T>, n: nat, lengths: nat)
    requires lengths <= n <= |s|
    requires forall k :: 0 <= k < n ==> s[k] == x
    requires n == |s| || s[n] != x
    ensures RepLoop(Lit(x), s, 0, lengths) == Matched(n)
    decreases n - lengths
  {
    if lengths < n {
      RepLitRun(x, s, n, lengths + 1);
    }
  }

  /** `rep(lit(x))` on `x^n` followed by a rest that does not start with `x`:
      prefix mode gives `n`; full mode gives `n` when the rest is empty and
      `None` otherwise (the doctests on `'a'*i` and `'a'*i + 'b'`). */
  lemma RepLitPower<T>(x: T, s: seq<T>, n: nat)
    requires n <= |s|
    requires forall k :: 0 <= k < n ==> s[k] == x
    requires n == |s| || s[n] != x
    ensures Match(Rep(Lit(x)), s, 0, false) == Matched(n)
    ensures Match(Rep(Lit(x)), s, 0, true) == if n == |s| then Matched(n) else NoMatch
  {
    RepLitRun(x, s, n, 0);
  }

  /** The loop of `rep(lit(x))` always ends, and where it ends no `x` follows. */
  lemma {:induction false} RepLitStops<T>(x: T, s: seq<T>, i: nat, lengths: nat)
    requires lengths == 0 || i + lengths <= |s|
    ensures RepLoop(Lit(x), s, i, lengths).Matched?
    ensures var t := RepLoop(Lit(x), s, i, lengths).len; |s| <= i + t || s[i + t] != x
    decreases if i + lengths <= |s| then |s| - (i + lengths) else 0
  {
    if i + lengths < |s| && s[i + lengths] == x {
      RepLitStops(x, s, i, lengths + 1);
    }
  }

  /** Greedy, non-backtracking concatenation: `con(rep(lit(x)), lit(x))`
      never matches anything, although `x x` is in its language; `rep` has
      already eaten every `x` the literal needed. So the result is not the
      longest matching prefix in general. */
  lemma GreedyRepStarvesSuffix<T>(x: T, s: seq<T>, i: nat, full: bool)
    ensures Match(Con(Rep(Lit(x)), Lit(x)), s, i, full) == NoMatch
  {
    assert Match(Con(Rep(Lit(x)), Lit(x)), s, i, full) == ConMatch(Rep(Lit(x)), Lit(x), s, i, full);
    assert Match(Rep(Lit(x)), s, i, false) == RepMatch(Lit(x), s, i, false);
    RepLitStops(x, s, i, 0);
    var t := RepLoop(Lit(x), s, i, 0).len;
    assert Match(Lit(x), s, i + t, false) == NoMatch;
  }

  // ---------------------------------------------------------------------
  // A repetition that makes no progress never returns

  /** `rep(emp())` never returns, on any input and in either mode: `emp`
      matches the empty prefix, so the loop of `rep` asks the same question
      at the same offset forever. On the empty input this contradicts the
      docstring of `rep`, which says that every `rep` instance is satisfied
      by the empty string. */
  lemma RepEmpDiverges<T>(s: seq<T>, i: nat, full: bool)
    ensures Match(Rep(Emp), s, i, full) == Diverges
  {
    assert Match(Emp, s, i, false) == Matched(0);
  }

  /** The loop of `rep(rep(x))` never ends: the inner `rep` never answers
      `None` in prefix mode, so sooner or later it answers 0. */
  lemma {:induction false} RepOfRepLoopDiverges<T>(x: Are<T>, s: seq<T>, i: nat, lengths: nat)
    requires lengths == 0 || i + lengths <= |s|
    ensures RepLoop(Rep(x), s, i, lengths) == Diverges
    decreases if i + lengths <= |s| then |s| - (i + lengths) else 0
  {
    var length := Match(Rep(x), s, i + lengths, false);
    assert length == RepMatch(x, s, i + lengths, false);
    if length.Matched? && length.len > 0 {
      RepOfRepLoopDiverges(x, s, i, lengths + length.len);
    }
  }

  /** `rep(rep(x))` never returns, whatever `x`, input and mode. */
  lemma RepOfRepDiverges<T>(x: Are<T>, s: seq<T>, i: nat, full: bool)
    ensures Match(Rep(Rep(x)), s, i, full) == Diverges
  {
    RepOfRepLoopDiverges(x, s, i, 0);
  }
}
