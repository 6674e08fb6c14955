/** The earlier copy of the library, are/are.py, whose nodes are called
    directly (`r(string, full, _index)`) and which has no `nul` class. Its
    `emp` and `lit` are the ones of the current matcher; its `con`, `alt`
    and `rep` are written here as the earlier code has them, and they are
    proved to give, on every tree the earlier library can build, the very
    outcome of the current matcher of module `Matcher`. */
module EarlyMatcher {
  import opened Tree
  import opened Matcher

  /** `r(s, full, i)` in the earlier library. */
  function Call<T(==)>(r: Are<T>, s: seq<T>, i: nat, full: bool): (res: Outcome)
    requires NulFree(r)
    ensures WithinInput(s, i, full, res)
    decreases r, 2, 0
  {
    match r
    case Emp => EmpMatch(s, i, full)
    case Lit(x) => LitMatch(x, s, i, full)
    case Con(a, b) => ConCall(a, b, s, i, full)
    case Alt(a, b) => AltCall(a, b, s, i, full)
    case Rep(e) => RepCall(e, s, i, full)
  }

  /** `con.__call__`: the left child in prefix mode, the right child in
      prefix mode where the left one stopped, then the end check. */
  function ConCall<T(==)>(a: Are<T>, b: Are<T>, s: seq<T>, i: nat, full: bool): (res: Outcome)
    requires NulFree(a) && NulFree(b)
    ensures WithinInput(s, i, full, res)
    decreases Con(a, b), 1, 0
  {
    var lengths := Call(a, s, i, false);
    if !lengths.Matched? then lengths
    else
      var length := Call(b, s, i + lengths.len, false);
      if !length.Matched? then length else Finish(s, i, lengths.len + length.len, full)
  }

  /** `alt.__call__`: the right child alone when the left one gives `None`;
      otherwise the left one's result, or the larger of the two, behind the
      end check. */
  function AltCall<T(==)>(a: Are<T>, b: Are<T>, s: seq<T>, i: nat, full: bool): (res: Outcome)
    requires NulFree(a) && NulFree(b)
    ensures WithinInput(s, i, full, res)
    decreases Alt(a, b), 1, 0
  {
    var first := Call(a, s, i, full);
    if first.NoMatch? then Call(b, s, i, full)
    else if first.Diverges? then Diverges
    else
      var second := Call(b, s, i, full);
      if second.Diverges? then Diverges
      else if second.NoMatch? then Finish(s, i, first.len, full)
      else Finish(s, i, Max(first.len, second.len), full)
  }

  /** `rep.__call__`: the while loop's total, behind the end check. */
  function RepCall<T(==)>(e: Are<T>, s: seq<T>, i: nat, full: bool): (res: Outcome)
    requires NulFree(e)
    ensures WithinInput(s, i, full, res)
    decreases Rep(e), 1, 0
  {
    var t := RepCallLoop(e, s, i, 0);
    if t.Matched? then Finish(s, i, t.len, full) else t
  }

  /** The while loop of `rep.__call__` from `lengths` symbols consumed: it
      adds inner prefix matches until one is `None`; a zero-length step makes
      it ask the same question forever. */
  function RepCallLoop<T(==)>(e: Are<T>, s: seq<T>, i: nat, lengths: nat): (res: Outcome)
    requires NulFree(e)
    requires lengths == 0 || i + lengths <= |s|
    ensures !res.NoMatch?
    ensures res.Matched? ==> lengths <= res.len && WithinInput(s, i, false, res)
    decreases Rep(e), 0, if i + lengths <= |s| then |s| - (i + lengths) else 0
  {
    var length := Call(e, s, i + lengths, false);
    if length.NoMatch? then Matched(lengths)
    else if length.Diverges? || length.len == 0 then Diverges
    else RepCallLoop(e, s, i, lengths + length.len)
  }

  /** `rep.__call__` as the earlier code writes it: the while loop, then the
      end check of full mode. */
  method RunRepCall<T(==)>(e: Are<T>, s: seq<T>, i: nat, full: bool) returns (res: Outcome)
    requires NulFree(e)
    ensures res == RepCall(e, s, i, full)
  {
    var lengths: nat := 0;
    var length := Call(e, s, i, false);
    while length.Matched?
      invariant lengths == 0 || i + lengths <= |s|
      invariant length == Call(e, s, i + lengths, false)
      invariant RepCallLoop(e, s, i, 0) == RepCallLoop(e, s, i, lengths)
      decreases if i + lengths <= |s| then |s| - (i + lengths) else 0
    {
      if length.len == 0 {
        // The earlier code adds nothing and asks the same question again, forever.
        return Diverges;
      }
      lengths := lengths + length.len;
      length := Call(e, s, i + lengths, false);
    }
    if length.Diverges? {
      return Diverges;
    }
    if full && EmpMatch(s, i + lengths, true) != Matched(0) {
      return NoMatch;
    }
    return Matched(lengths);
  }

  // ---------------------------------------------------------------------
  // Agreement with the current matcher

  /** On every tree the earlier library can build, in both modes and at every
      offset, its outcome is the current matcher's. */
  lemma {:induction false} CallIsMatch<T>(r: Are<T>, s: seq<T>, i: nat, full: bool)
    requires NulFree(r)
    ensures Call(r, s, i, full) == Match(r, s, i, full)
    decreases r, 1, 0
  {
    match r
    case Emp =>
    case Lit(_) =>
    case Con(a, b) =>
      assert Match(r, s, i, full) == ConMatch(a, b, s, i, full);
      assert Call(r, s, i, full) == ConCall(a, b, s, i, full);
      CallIsMatch(a, s, i, false);
      var n1 := Match(a, s, i, false);
      if n1.Matched? {
        CallIsMatch(b, s, i + n1.len, false);
      }
    case Alt(a, b) =>
      assert Match(r, s, i, full) == AltMatch(a, b, s, i, full);
      assert Call(r, s, i, full) == AltCall(a, b, s, i, full);
      CallIsMatch(a, s, i, full);
      CallIsMatch(b, s, i, full);
    case Rep(e) =>
      assert Match(r, s, i, full) == RepMatch(e, s, i, full);
      assert Call(r, s, i, full) == RepCall(e, s, i, full);
      LoopIsRepLoop(e, s, i, 0);
  }

  /** The two `rep` loops agree step by step. */
  lemma {:induction false} LoopIsRepLoop<T>(e: Are<T>, s: seq<T>, i: nat, lengths: nat)
    requires NulFree(e)
    requires lengths == 0 || i + lengths <= |s|
    ensures RepCallLoop(e, s, i, lengths) == RepLoop(e, s, i, lengths)
    decreases Rep(e), 0, if i + lengths <= |s| then |s| - (i + lengths) else 0
  {
    CallIsMatch(e, s, i + lengths, false);
    var length := Match(e, s, i + lengths, false);
    if length.Matched? && length.len > 0 {
      LoopIsRepLoop(e, s, i, lengths + length.len);
    }
  }

  // ---------------------------------------------------------------------
  // The earlier library's documented behaviour

  /** Every full-mode success of the earlier library consumes exactly the
      rest of the input. */
  lemma FullSuccessIsRest<T>(r: Are<T>, s: seq<T>, i: nat)
    requires NulFree(r) && i <= |s|
    ensures Call(r, s, i, true).Matched? ==> Call(r, s, i, true).len == |s| - i
  {
  }

  /** `rep(lit(x))` on `x^n` followed by a rest that does not start with `x`:
      `n` in prefix mode; in full mode `n` when the rest is empty, `None`
      otherwise. */
  lemma CallRepLitPower<T>(x: T, s: seq<T>, n: nat)
    requires n <= |s|
    requires forall k :: 0 <= k < n ==> s[k] == x
    requires n == |s| || s[n] != x
    ensures Call(Rep(Lit(x)), s, 0, false) == Matched(n)
    ensures Call(Rep(Lit(x)), s, 0, true) == if n == |s| then Matched(n) else NoMatch
  {
    CallIsMatch(Rep(Lit(x)), s, 0, false);
    CallIsMatch(Rep(Lit(x)), s, 0, true);
    RepLitPower(x, s, n);
  }

  /** The greedy concatenation of the `con` docstring: `con(lit('a'),
      lit('b'))` on `'ab'`, `'a'`, `'abc'`, `'cd'` gives `2`, `None`, `None`,
      `None` in full mode, and on `'abc'` gives 2 in prefix mode. */
  lemma ConDocExample()
    ensures Call(Con(Lit('a'), Lit('b')), "ab", 0, true) == Matched(2)
    ensures Call(Con(Lit('a'), Lit('b')), "a", 0, true) == NoMatch
    ensures Call(Con(Lit('a'), Lit('b')), "abc", 0, true) == NoMatch
    ensures Call(Con(Lit('a'), Lit('b')), "cd", 0, true) == NoMatch
    ensures Call(Con(Lit('a'), Lit('b')), "abc", 0, false) == Matched(2)
  {
    assert Call(Lit('a'), "ab", 0, false) == Matched(1);
    assert Call(Lit('b'), "ab", 1, false) == Matched(1);
    assert Call(Lit('b'), "a", 1, false) == NoMatch;
    assert Call(Lit('a'), "abc", 0, false) == Matched(1);
    assert Call(Lit('b'), "abc", 1, false) == Matched(1);
    assert Call(Lit('a'), "cd", 0, false) == NoMatch;
  }

  /** The leaves of the earlier library: `emp` consumes nothing and, in full
      mode, only at the end of the input; `lit(x)` consumes the one symbol
      `x` at `i`, which in full mode must be the last. */
  lemma CallLeaves<T>(x: T, s: seq<T>, i: nat, full: bool)
    ensures Call(Emp, s, i, full) == if full && i < |s| then NoMatch else Matched(0)
    ensures Call(Lit(x), s, i, full) ==
              if i < |s| && s[i] == x && (!full || i + 1 == |s|) then Matched(1) else NoMatch
  {
  }

  /** The `alt` docstring: `alt(lit('a'), con(lit('a'), lit('a')))` on
      `'aaa'` keeps the longer branch, 2, in prefix mode, and gives `None`
      in full mode, where neither branch reaches the end. */
  lemma AltDocExample()
    ensures Call(Alt(Lit('a'), Con(Lit('a'), Lit('a'))), "aaa", 0, false) == Matched(2)
    ensures Call(Alt(Lit('a'), Con(Lit('a'), Lit('a'))), "aaa", 0, true) == NoMatch
  {
    var aa := Con(Lit('a'), Lit('a'));
    assert Call(Lit('a'), "aaa", 0, false) == Matched(1);
    assert Call(Lit('a'), "aaa", 1, false) == Matched(1);
    assert Call(aa, "aaa", 0, false) == Matched(2);
    assert Call(Lit('a'), "aaa", 0, true) == NoMatch;
    assert Call(aa, "aaa", 0, true) == NoMatch;
  }
}
