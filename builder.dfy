/** The translation of a tree into an NFA fragment graph (`are.to_nfa` in
    src/are/are.py). Each `nfa` instance the source creates is a state here,
    kept in a pool and named by its index in the pool; a fragment is the
    index of its entry state. The source threads a continuation ("what must
    match after this node") through the tree and uses `None` internally for
    "no string can get through"; only the root call turns that `None` into
    the automaton that rejects everything (`-nfa()`). */
module Builder {
  import opened Tree
  import opened Matcher

  /** An `nfa` instance: its symbol transitions, its epsilon transitions in
      order, and whether it is the default accepting continuation `nfa()`. */
  datatype State<T> = State(edges: map<T, nat>, eps: seq<nat>, accepting: bool)

  /** `nfa()`, the continuation of the root call. */
  function Final<T>(): State<T> { State(map[], [], true) }

  /** The result of the root call: the automaton that rejects everything,
      or the state pool with the entry state of the whole expression. */
  datatype Nfa<T> = RejectAll | Automaton(states: seq<State<T>>, start: nat)

  /** The pool after a translation step, and the step's fragment (`None`
      when the node lets no string through). */
  datatype Built<T> = Built(states: seq<State<T>>, frag: Option<nat>)

  /** `to_nfa` with continuation `next`, threading the pool `g`. States are
      appended in the order the source creates them. Every state already in
      the pool, the continuation among them, comes out unchanged (the one
      update in place, in the `rep` case, is to the state just created), and
      every state added is non-accepting. */
  function Translate<T(==)>(r: Are<T>, g: seq<State<T>>, next: nat): (out: Built<T>)
    ensures |g| <= |out.states| && out.states[..|g|] == g
    ensures forall k | |g| <= k < |out.states| :: !out.states[k].accepting
    decreases r
  {
    match r
    case Nul => Built(g, None)
    case Emp => Built(g, Some(next))
    case Lit(x) => Built(g + [State(map[x := next], [], false)], Some(|g|))
    case Con(a, b) =>
      var rhs := Translate(b, g, next);
      if rhs.frag.None? then Built(rhs.states, None)
      else Translate(a, rhs.states, rhs.frag.value)
    case Alt(a, b) =>
      var lhs := Translate(a, g, next);
      var rhs := Translate(b, lhs.states, next);
      var g2 := rhs.states;
      if lhs.frag.Some? && rhs.frag.Some? then
        Built(g2 + [State(map[], [lhs.frag.value, rhs.frag.value], false)], Some(|g2|))
      else if lhs.frag.Some? then Built(g2, lhs.frag)
      else if rhs.frag.Some? then Built(g2, rhs.frag)
      else Built(g2, None)
    case Rep(e) =>
      var entry := |g|;
      var arg := Translate(e, g + [State(map[], [next], false)], entry);
      var g2 := arg.states;
      if arg.frag.Some? then
        Built(g2[entry := g2[entry].(eps := g2[entry].eps + [arg.frag.value])], Some(entry))
      else Built(g2, Some(entry))
  }

  /** The root call `r.to_nfa()`: the continuation is a new `nfa()`, and a
      `None` from the translation becomes `-nfa()`. */
  function RootNfa<T(==)>(r: Are<T>): (res: Nfa<T>)
    ensures res.RejectAll? <==> Unsat(r)
  {
    TranslateNoneIffUnsat(r, [Final()], 0);
    var out := Translate(r, [Final()], 0);
    if out.frag.None? then RejectAll else Automaton(out.states, out.frag.value)
  }

  /** The `nfa` instances created so far; `ToNfa` appends to it and, for
      `rep`, updates the epsilon list of the state it has just created. */
  class StatePool<T(==)> {
    var states: seq<State<T>>

    /** A pool holding only the root continuation `nfa()`. */
    constructor ()
      ensures states == [Final()]
    {
      states := [Final()];
    }

    /** `to_nfa(self, _nfa)` below the root, with continuation `next`. */
    method ToNfa(r: Are<T>, next: nat) returns (frag: Option<nat>)
      modifies this
      ensures Built(states, frag) == Translate(r, old(states), next)
      decreases r
    {
      match r {
        case Nul =>
          frag := None;
        case Emp =>
          frag := Some(next);
        case Lit(x) =>
          frag := Some(|states|);
          states := states + [State(map[x := next], [], false)];
        case Con(a, b) =>
          var rhs := ToNfa(b, next);
          if rhs.None? {
            frag := None;
          } else {
            frag := ToNfa(a, rhs.value);
          }
        case Alt(a, b) =>
          var lhs := ToNfa(a, next);
          var rhs := ToNfa(b, next);
          if lhs.Some? && rhs.Some? {
            frag := Some(|states|);
            states := states + [State(map[], [lhs.value, rhs.value], false)];
          } else if lhs.Some? {
            frag := lhs;
          } else if rhs.Some? {
            frag := rhs;
          } else {
            frag := None;
          }
        case Rep(e) =>
          var entry := |states|;
          states := states + [State(map[], [next], false)];
          var arg := ToNfa(e, entry);
          if arg.Some? {
            states := states[entry := states[entry].(eps := states[entry].eps + [arg.value])];
          }
          frag := Some(entry);
      }
    }
  }

  /** `r.to_nfa()` from the root. */
  method ToNfa<T(==)>(r: Are<T>) returns (a: Nfa<T>)
    ensures a == RootNfa(r)
  {
    var pool := new StatePool();
    var frag := pool.ToNfa(r, 0);
    if frag.None? {
      a := RejectAll;
    } else {
      a := Automaton(pool.states, frag.value);
    }
  }

  // ---------------------------------------------------------------------
  // Unsatisfiable trees

  /** The trees no string can get through, by their shape: `nul`, a `con`
      with such a side, an `alt` with two such sides. `rep` always lets the
      empty string through. */
  predicate Unsat<T>(r: Are<T>)
  {
    match r
    case Nul => true
    case Emp => false
    case Lit(_) => false
    case Con(a, b) => Unsat(a) || Unsat(b)
    case Alt(a, b) => Unsat(a) && Unsat(b)
    case Rep(_) => false
  }

  /** The translation answers `None` exactly for the unsatisfiable trees,
      whatever the pool and the continuation. */
  lemma {:induction false} TranslateNoneIffUnsat<T>(r: Are<T>, g: seq<State<T>>, next: nat)
    ensures Translate(r, g, next).frag.None? <==> Unsat(r)
    decreases r
  {
    match r
    case Nul =>
    case Emp =>
    case Lit(_) =>
    case Rep(_) =>
    case Con(a, b) =>
      TranslateNoneIffUnsat(b, g, next);
      var rhs := Translate(b, g, next);
      if rhs.frag.Some? {
        TranslateNoneIffUnsat(a, rhs.states, rhs.frag.value);
      }
    case Alt(a, b) =>
      TranslateNoneIffUnsat(a, g, next);
      TranslateNoneIffUnsat(b, Translate(a, g, next).states, next);
  }

  /** The recursive matcher never returns a length for an unsatisfiable
      tree, in either mode and at any offset (it may still run forever,
      as `con(rep(emp()), nul())` does). */
  lemma {:induction false} UnsatNeverMatches<T>(r: Are<T>, s: seq<T>, i: nat, full: bool)
    requires Unsat(r)
    ensures !Match(r, s, i, full).Matched?
    decreases r
  {
    match r
    case Nul =>
    case Emp => assert false;
    case Lit(_) => assert false;
    case Rep(_) => assert false;
    case Con(a, b) =>
      assert Match(r, s, i, full) == ConMatch(a, b, s, i, full);
      if Unsat(a) {
        UnsatNeverMatches(a, s, i, false);
      } else {
        var n1 := Match(a, s, i, false);
        if n1.Matched? {
          UnsatNeverMatches(b, s, i + n1.len, false);
        }
      }
    case Alt(a, b) =>
      assert Match(r, s, i, full) == AltMatch(a, b, s, i, full);
      UnsatNeverMatches(a, s, i, full);
      UnsatNeverMatches(b, s, i, full);
  }

  /** The root call gives the reject-all automaton exactly for the
      unsatisfiable trees, and the recursive matcher agrees with it there:
      it never returns a length for such a tree. */
  lemma RootRejectAll<T>(r: Are<T>)
    ensures RootNfa(r) == RejectAll <==> Unsat(r)
    ensures RootNfa(r) == RejectAll ==>
              forall s: seq<T>, i: nat, full: bool :: !Match(r, s, i, full).Matched?
  {
    TranslateNoneIffUnsat(r, [Final()], 0);
    if Unsat(r) {
      forall s: seq<T>, i: nat, full: bool ensures !Match(r, s, i, full).Matched? {
        UnsatNeverMatches(r, s, i, full);
      }
    }
  }

  // ---------------------------------------------------------------------
  // Shape of the graph

  /** Every transition of `st` leads to a state below `n`. */
  predicate StateWithin<T>(st: State<T>, n: nat)
  {
    (forall x | x in st.edges :: st.edges[x] < n) &&
    (forall j | 0 <= j < |st.eps| :: st.eps[j] < n)
  }

  /** No transition of the pool leads outside it. */
  predicate Closed<T>(g: seq<State<T>>)
  {
    forall k | 0 <= k < |g| :: StateWithin(g[k], |g|)
  }

  /** Appending a state whose transitions stay in the grown pool keeps the
      pool closed. */
  lemma ClosedAppend<T>(g: seq<State<T>>, st: State<T>)
    requires Closed(g) && StateWithin(st, |g| + 1)
    ensures Closed(g + [st])
  {
    forall k | 0 <= k < |g| + 1
      ensures StateWithin((g + [st])[k], |g| + 1)
    {
      if k < |g| {
        assert (g + [st])[k] == g[k];
      }
    }
  }

  /** Giving a state of a closed pool one more epsilon transition into the
      pool keeps it closed. */
  lemma ClosedAddEps<T>(g: seq<State<T>>, k: nat, target: nat)
    requires Closed(g) && k < |g| && target < |g|
    ensures Closed(g[k := g[k].(eps := g[k].eps + [target])])
  {
    var g' := g[k := g[k].(eps := g[k].eps + [target])];
    forall j | 0 <= j < |g'|
      ensures StateWithin(g'[j], |g'|)
    {
      if j == k {
        assert StateWithin(g[k], |g|);
        forall m | 0 <= m < |g'[k].eps|
          ensures g'[k].eps[m] < |g|
        {
          if m < |g[k].eps| {
            assert g'[k].eps[m] == g[k].eps[m];
          }
        }
      }
    }
  }

  /** Translating into a closed pool against a continuation in the pool
      keeps the pool closed, and the fragment is a state of the pool. */
  lemma {:induction false} TranslateClosed<T>(r: Are<T>, g: seq<State<T>>, next: nat)
    requires Closed(g) && next < |g|
    ensures Closed(Translate(r, g, next).states)
    ensures Translate(r, g, next).frag.Some? ==>
              Translate(r, g, next).frag.value < |Translate(r, g, next).states|
    decreases r
  {
    match r
    case Nul =>
    case Emp =>
    case Lit(x) =>
      ClosedAppend(g, State(map[x := next], [], false));
    case Con(a, b) =>
      TranslateClosed(b, g, next);
      var rhs := Translate(b, g, next);
      if rhs.frag.Some? {
        TranslateClosed(a, rhs.states, rhs.frag.value);
      }
    case Alt(a, b) =>
      TranslateClosed(a, g, next);
      var lhs := Translate(a, g, next);
      TranslateClosed(b, lhs.states, next);
      var rhs := Translate(b, lhs.states, next);
      if lhs.frag.Some? && rhs.frag.Some? {
        ClosedAppend(rhs.states, State(map[], [lhs.frag.value, rhs.frag.value], false));
      }
    case Rep(e) =>
      ClosedAppend(g, State(map[], [next], false));
      var g1 := g + [State(map[], [next], false)];
      TranslateClosed(e, g1, |g|);
      var inner := Translate(e, g1, |g|);
      if inner.frag.Some? {
        ClosedAddEps(inner.states, |g|, inner.frag.value);
      }
  }

  /** The automaton of the root call is well formed: no transition leaves
      the pool, the entry state is in it, and the only accepting state is the
      root continuation `nfa()` at index 0. */
  lemma RootWellFormed<T>(r: Are<T>)
    ensures RootNfa(r).Automaton? ==>
              var a := RootNfa(r);
              Closed(a.states) && a.start < |a.states| && a.states[0] == Final() &&
              forall k | 0 < k < |a.states| :: !a.states[k].accepting
  {
    TranslateClosed(r, [Final()], 0);
  }

  /** `rep` is never `None`. Its entry state is created first, with an
      epsilon transition to the continuation; the inner fragment is built
      against that entry state itself (the loop back), and the entry state
      then gets a second epsilon transition to the inner fragment, if the
      inner tree is satisfiable. */
  lemma RepShape<T>(e: Are<T>, g: seq<State<T>>, next: nat)
    ensures var out := Translate(Rep(e), g, next);
            var inner := Translate(e, g + [State(map[], [next], false)], |g|);
            out.frag == Some(|g|) && |g| < |out.states| &&
            out.states[|g|] == State(map[], if inner.frag.Some? then [next, inner.frag.value] else [next], false)
  {
    var inner := Translate(e, g + [State(map[], [next], false)], |g|);
    assert inner.states[|g|] == (g + [State(map[], [next], false)])[|g|];
  }

  /** For `rep(lit(x))` the loop is visible: the literal's state leads back
      on `x` to the entry state of `rep`, whose epsilon list is the
      continuation, then that literal state. */
  lemma RepLitCycle<T>(x: T, g: seq<State<T>>, next: nat)
    ensures var out := Translate(Rep(Lit(x)), g, next);
            out.frag == Some(|g|) && |out.states| == |g| + 2 &&
            out.states[|g|].eps == [next, |g| + 1] &&
            out.states[|g| + 1].edges == map[x := |g|]
  {
  }

  /** `alt` links only satisfiable sides: when one side is unsatisfiable the
      fragment is the other side's, with no epsilon state in front. When both
      are satisfiable the fragment is a new state whose epsilon list is the
      two sides, left first. */
  lemma AltLinksSatisfiableSides<T>(a: Are<T>, b: Are<T>, g: seq<State<T>>, next: nat)
    ensures var lhs := Translate(a, g, next);
            var rhs := Translate(b, lhs.states, next);
            var out := Translate(Alt(a, b), g, next);
            (Unsat(b) ==> out.frag == lhs.frag && out.states == rhs.states) &&
            (Unsat(a) ==> out.frag == rhs.frag && out.states == rhs.states) &&
            (!Unsat(a) && !Unsat(b) ==>
               lhs.frag.Some? && rhs.frag.Some? &&
               out.frag == Some(|rhs.states|) && |rhs.states| < |out.states| &&
               out.states[|rhs.states|].eps == [lhs.frag.value, rhs.frag.value])
  {
    TranslateNoneIffUnsat(a, g, next);
    TranslateNoneIffUnsat(b, Translate(a, g, next).states, next);
  }

  /** The doctest of `to_nfa`: `con(lit(1), con(lit(2), lit(3)))` becomes
      the chain 1, 2, 3 into `nfa()`. */
  lemma ChainExample()
    ensures RootNfa(Con(Lit(1), Con(Lit(2), Lit(3)))) ==
              Automaton([Final(), State(map[3 := 0], [], false), State(map[2 := 1], [], false),
                         State(map[1 := 2], [], false)], 3)
  {
  }
}
