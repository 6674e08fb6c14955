/** The repetition loop as the `rep` docstring of src/are/are.py evidently
    intends it: the loop also stops when the inner match makes no progress
    (a zero-length step). Everything else is the matcher of module `Matcher`.
    This matcher always returns, accepts the empty remainder with every
    `rep`, and gives the same answer as the source's matcher on every input
    where the source's matcher returns. */
module GuardedMatcher {
  import opened Tree
  import opened Matcher

  /** The matcher with the progress guard in the loop of `rep`. It always
      returns, and its successes stay within the input as those of `Match` do. */
  function GuardedMatch<T(==)>(r: Are<T>, s: seq<T>, i: nat, full: bool): (res: Outcome)
    ensures !res.Diverges?
    ensures WithinInput(s, i, full, res)
    decreases r, 2, 0
  {
    match r
    case Nul => NoMatch
    case Emp => EmpMatch(s, i, full)
    case Lit(x) => LitMatch(x, s, i, full)
    case Con(a, b) => GuardedConMatch(a, b, s, i, full)
    case Alt(a, b) => GuardedAltMatch(a, b, s, i, full)
    case Rep(e) => Finish(s, i, GuardedRepLoop(e, s, i, 0), full)
  }

  /** `ConMatch` over the guarded matcher. */
  function GuardedConMatch<T(==)>(a: Are<T>, b: Are<T>, s: seq<T>, i: nat, full: bool): (res: Outcome)
    ensures !res.Diverges?
    ensures WithinInput(s, i, full, res)
    decreases Con(a, b), 1, 0
  {
    var n1 := GuardedMatch(a, s, i, false);
    if !n1.Matched? then n1
    else
      var n2 := GuardedMatch(b, s, i + n1.len, false);
      if !n2.Matched? then n2 else Finish(s, i, n1.len + n2.len, full)
  }

  /** `AltMatch` over the guarded matcher. */
  function GuardedAltMatch<T(==)>(a: Are<T>, b: Are<T>, s: seq<T>, i: nat, full: bool): (res: Outcome)
    ensures !res.Diverges?
    ensures WithinInput(s, i, full, res)
    decreases Alt(a, b), 1, 0
  {
    var m1 := GuardedMatch(a, s, i, full);
    if m1.NoMatch? then GuardedMatch(b, s, i, full)
    else
      var m2 := GuardedMatch(b, s, i, full);
      if m2.NoMatch? then Finish(s, i, m1.len, full)
      else Finish(s, i, Max(m1.len, m2.len), full)
  }

  /** The loop of `rep` that stops at the first `None` or zero-length step. */
  function GuardedRepLoop<T(==)>(e: Are<T>, s: seq<T>, i: nat, lengths: nat): (total: nat)
    requires lengths == 0 || i + lengths <= |s|
    ensures lengths <= total && (total == 0 || i + total <= |s|)
    decreases Rep(e), 0, if i + lengths <= |s| then |s| - (i + lengths) else 0
  {
    var length := GuardedMatch(e, s, i + lengths, false);
    if length.NoMatch? || length.len == 0 then lengths
    else GuardedRepLoop(e, s, i, lengths + length.len)
  }

  /** Every `rep` accepts the empty rest of the input, so in particular every
      `rep` accepts the empty string, as the docstring of `rep` says. */
  lemma GuardedRepAcceptsEmpty<T>(e: Are<T>, s: seq<T>, full: bool)
    ensures GuardedMatch(Rep(e), s, |s|, full) == Matched(0)
  {
    var length := GuardedMatch(e, s, |s|, false);
    assert length.Matched? ==> length.len == 0;
  }

  /** Wherever the source's matcher returns, the guarded matcher returns the
      same answer: the guard changes nothing but the inputs on which the
      source spins forever. */
  lemma {:induction false} GuardedAgrees<T>(r: Are<T>, s: seq<T>, i: nat, full: bool)
    ensures !Match(r, s, i, full).Diverges? ==> GuardedMatch(r, s, i, full) == Match(r, s, i, full)
    decreases r, 1, 0
  {
    match r
    case Nul =>
    case Emp =>
    case Lit(_) =>
    case Con(a, b) =>
      assert Match(r, s, i, full) == ConMatch(a, b, s, i, full);
      assert GuardedMatch(r, s, i, full) == GuardedConMatch(a, b, s, i, full);
      GuardedAgrees(a, s, i, false);
      var n1 := Match(a, s, i, false);
      if n1.Matched? {
        GuardedAgrees(b, s, i + n1.len, false);
      }
    case Alt(a, b) =>
      assert Match(r, s, i, full) == AltMatch(a, b, s, i, full);
      assert GuardedMatch(r, s, i, full) == GuardedAltMatch(a, b, s, i, full);
      GuardedAgrees(a, s, i, full);
      GuardedAgrees(b, s, i, full);
    case Rep(e) =>
      assert Match(r, s, i, full) == RepMatch(e, s, i, full);
      GuardedLoopAgrees(e, s, i, 0);
  }

  /** The two loops agree wherever the source's loop ends. */
  lemma {:induction false} GuardedLoopAgrees<T>(e: Are<T>, s: seq<T>, i: nat, lengths: nat)
    requires lengths == 0 || i + lengths <= |s|
    ensures !RepLoop(e, s, i, lengths).Diverges? ==>
              RepLoop(e, s, i, lengths) == Matched(GuardedRepLoop(e, s, i, lengths))
    decreases Rep(e), 0, if i + lengths <= |s| then |s| - (i + lengths) else 0
  {
    GuardedAgrees(e, s, i + lengths, false);
    var length := Match(e, s, i + lengths, false);
    if length.Matched? && length.len > 0 {
      var more := lengths + length.len;
      GuardedLoopAgrees(e, s, i, more);
      assert RepLoop(e, s, i, lengths) == RepLoop(e, s, i, more);
      assert GuardedRepLoop(e, s, i, lengths) == GuardedRepLoop(e, s, i, more);
    }
  }
}
