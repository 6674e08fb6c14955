/** The serialiser `are.to_re` of src/are/are.py: a tree whose symbols are
    all strings becomes a pattern string for Python's `re` module. The source
    accepts symbols of any type and asks each literal whether it is a string;
    here that question is the parameter `text`, which gives a symbol's string
    or `None` when the symbol is not a string. */
module Pattern {
  import opened Tree

  /** The pattern string, or the `TypeError` the source raises for a
      literal that is not a string. */
  datatype ReResult = Re(pattern: string) | TypeError

  /** The pattern for `nul`: a character class no character belongs to. */
  const Contradiction: string := "[^\\w\\W]"

  /** Every literal of `r` is a string. */
  predicate AllStrings<T>(r: Are<T>, text: T -> Option<string>)
  {
    match r
    case Nul => true
    case Emp => true
    case Lit(x) => text(x).Some?
    case Con(a, b) => AllStrings(a, text) && AllStrings(b, text)
    case Alt(a, b) => AllStrings(a, text) && AllStrings(b, text)
    case Rep(e) => AllStrings(e, text)
  }

  /** `r.to_re()`: every node but `nul` and `emp` becomes a parenthesised
      group; a literal's string is put in as it is, with no escaping. It
      raises `TypeError` exactly when some literal is not a string. */
  function ToRe<T>(r: Are<T>, text: T -> Option<string>): (res: ReResult)
    ensures res.TypeError? <==> !AllStrings(r, text)
  {
    match r
    case Nul => Re(Contradiction)
    case Emp => Re("")
    case Lit(x) =>
      if text(x).None? then TypeError else Re("(" + text(x).value + ")")
    case Con(a, b) =>
      var left := ToRe(a, text);
      var right := ToRe(b, text);
      if left.TypeError? || right.TypeError? then TypeError
      else Re("(" + left.pattern + right.pattern + ")")
    case Alt(a, b) =>
      var left := ToRe(a, text);
      var right := ToRe(b, text);
      if left.TypeError? || right.TypeError? then TypeError
      else Re("(" + left.pattern + "|" + right.pattern + ")")
    case Rep(e) =>
      var inner := ToRe(e, text);
      if inner.TypeError? then TypeError else Re("(" + inner.pattern + "*)")
  }

  // ---------------------------------------------------------------------
  // Bracketing

  /** Opening minus closing parentheses in `p`. */
  function Balance(p: string): int
  {
    if p == [] then 0
    else (if p[0] == '(' then 1 else if p[0] == ')' then -1 else 0) + Balance(p[1..])
  }

  /** `p` closes every parenthesis it opens and never closes one it has not
      opened. */
  predicate Bracketed(p: string)
  {
    Balance(p) == 0 && forall k | 0 <= k <= |p| :: Balance(p[..k]) >= 0
  }

  /** A string without parentheses. */
  predicate ParenFree(p: string)
  {
    forall k | 0 <= k < |p| :: p[k] != '(' && p[k] != ')'
  }

  /** Every literal of `r` is a string with no parentheses in it. */
  predicate ParenFreeStrings<T>(r: Are<T>, text: T -> Option<string>)
  {
    match r
    case Nul => true
    case Emp => true
    case Lit(x) => text(x).Some? && ParenFree(text(x).value)
    case Con(a, b) => ParenFreeStrings(a, text) && ParenFreeStrings(b, text)
    case Alt(a, b) => ParenFreeStrings(a, text) && ParenFreeStrings(b, text)
    case Rep(e) => ParenFreeStrings(e, text)
  }

  lemma {:induction false} BalanceAppend(p: string, q: string)
    ensures Balance(p + q) == Balance(p) + Balance(q)
    decreases |p|
  {
    if p == [] {
      assert p + q == q;
    } else {
      assert (p + q)[1..] == p[1..] + q;
      BalanceAppend(p[1..], q);
    }
  }

  lemma {:induction false} ParenFreeBalance(p: string)
    requires ParenFree(p)
    ensures Balance(p) == 0
    decreases |p|
  {
    if p != [] {
      assert p[0] != '(' && p[0] != ')';
      assert ParenFree(p[1..]) by {
        forall k | 0 <= k < |p[1..]|
          ensures p[1..][k] != '(' && p[1..][k] != ')'
        {
          assert p[1..][k] == p[k + 1];
        }
      }
      ParenFreeBalance(p[1..]);
    }
  }

  /** Prefixes of a concatenation: the balance of a prefix of `p + q` is that
      of a prefix of `p`, or that of `p` plus a prefix of `q`. */
  lemma BracketedAppend(p: string, q: string)
    requires Bracketed(p) && Bracketed(q)
    ensures Bracketed(p + q)
  {
    BalanceAppend(p, q);
    forall k | 0 <= k <= |p + q|
      ensures Balance((p + q)[..k]) >= 0
    {
      if k <= |p| {
        assert (p + q)[..k] == p[..k];
      } else {
        assert (p + q)[..k] == p + q[..k - |p|];
        BalanceAppend(p, q[..k - |p|]);
      }
    }
  }

  /** A string with no parentheses is bracketed. */
  lemma ParenFreeBracketed(p: string)
    requires ParenFree(p)
    ensures Bracketed(p)
  {
    ParenFreeBalance(p);
    forall k | 0 <= k <= |p|
      ensures Balance(p[..k]) >= 0
    {
      ParenFreeBalance(p[..k]);
    }
  }

  /** Wrapping a bracketed string in a pair of parentheses keeps it
      bracketed. */
  lemma Wrap(p: string)
    requires Bracketed(p)
    ensures Bracketed("(" + p + ")")
  {
    var w := "(" + p + ")";
    assert w == "(" + (p + ")");
    BalanceAppend(p, ")");
    assert Balance(")") == -1;
    assert Balance(w) == 1 + Balance(p + ")");
    forall k | 0 <= k <= |w|
      ensures Balance(w[..k]) >= 0
    {
      if 0 < k <= |p| + 1 {
        assert w[..k] == "(" + p[..k - 1];
        assert Balance(w[..k]) == 1 + Balance(p[..k - 1]);
      } else if k == |w| {
        assert w[..k] == w;
      } else {
        assert w[..k] == [];
      }
    }
  }

  lemma WrapPair(l: string, sep: string, rt: string)
    requires Bracketed(l) && ParenFree(sep) && Bracketed(rt)
    ensures Bracketed("(" + l + sep + rt + ")")
  {
    ParenFreeBracketed(sep);
    BracketedAppend(l, sep);
    BracketedAppend(l + sep, rt);
    Wrap(l + sep + rt);
    assert "(" + l + sep + rt + ")" == "(" + (l + sep + rt) + ")";
  }

  lemma WrapCon(l: string, rt: string)
    requires Bracketed(l) && Bracketed(rt)
    ensures Bracketed("(" + l + rt + ")")
  {
    BracketedAppend(l, rt);
    Wrap(l + rt);
    assert "(" + l + rt + ")" == "(" + (l + rt) + ")";
  }

  lemma WrapStar(inner: string)
    requires Bracketed(inner)
    ensures Bracketed("(" + inner + "*)")
  {
    ParenFreeBracketed("*");
    BracketedAppend(inner, "*");
    Wrap(inner + "*");
    assert "(" + inner + "*)" == "(" + (inner + "*") + ")";
  }

  lemma ConBracketed<T>(a: Are<T>, b: Are<T>, text: T -> Option<string>)
    requires ToRe(a, text).Re? && Bracketed(ToRe(a, text).pattern)
    requires ToRe(b, text).Re? && Bracketed(ToRe(b, text).pattern)
    ensures ToRe(Con(a, b), text).Re? && Bracketed(ToRe(Con(a, b), text).pattern)
  {
    WrapCon(ToRe(a, text).pattern, ToRe(b, text).pattern);
  }

  lemma AltBracketed<T>(a: Are<T>, b: Are<T>, text: T -> Option<string>)
    requires ToRe(a, text).Re? && Bracketed(ToRe(a, text).pattern)
    requires ToRe(b, text).Re? && Bracketed(ToRe(b, text).pattern)
    ensures ToRe(Alt(a, b), text).Re? && Bracketed(ToRe(Alt(a, b), text).pattern)
  {
    WrapPair(ToRe(a, text).pattern, "|", ToRe(b, text).pattern);
  }

  lemma RepBracketed<T>(e: Are<T>, text: T -> Option<string>)
    requires ToRe(e, text).Re? && Bracketed(ToRe(e, text).pattern)
    ensures ToRe(Rep(e), text).Re? && Bracketed(ToRe(Rep(e), text).pattern)
  {
    WrapStar(ToRe(e, text).pattern);
  }

  lemma LeafBracketed<T>(r: Are<T>, text: T -> Option<string>)
    requires r.Nul? || r.Emp? || r.Lit?
    requires ParenFreeStrings(r, text)
    ensures ToRe(r, text).Re? && Bracketed(ToRe(r, text).pattern)
  {
    if r.Nul? {
      assert ParenFree(Contradiction);
      ParenFreeBracketed(Contradiction);
    } else if r.Emp? {
      ParenFreeBracketed("");
    } else {
      ParenFreeBracketed(text(r.x).value);
      Wrap(text(r.x).value);
    }
  }

  /** When every literal is a string free of parentheses, the pattern is
      bracketed: each node's group is closed, so the groups the source builds
      nest as the tree does. */
  lemma {:induction false} ToReBracketed<T>(r: Are<T>, text: T -> Option<string>)
    requires ParenFreeStrings(r, text)
    ensures ToRe(r, text).Re? && Bracketed(ToRe(r, text).pattern)
  {
    match r
    case Nul => LeafBracketed(r, text);
    case Emp => LeafBracketed(r, text);
    case Lit(_) => LeafBracketed(r, text);
    case Con(a, b) =>
      ToReBracketed(a, text);
      ToReBracketed(b, text);
      ConBracketed(a, b, text);
    case Alt(a, b) =>
      ToReBracketed(a, text);
      ToReBracketed(b, text);
      AltBracketed(a, b, text);
    case Rep(e) =>
      ToReBracketed(e, text);
      RepBracketed(e, text);
  }

  // ---------------------------------------------------------------------
  // The documented examples

  /** Symbols of the examples: strings and integers. */
  datatype Symbol = Str(s: string) | Int(n: int)

  function SymbolText(y: Symbol): Option<string>
  {
    if y.Str? then Some(y.s) else None
  }

  /** The first example of the `to_re` docstring. */
  lemma DocExampleGroups()
    ensures ToRe(Rep(Alt(Con(Lit(Str("a")), Lit(Str("b"))), Emp)), SymbolText) ==
              Re("((((a)(b))|)*)")
  {
    var ab := Con(Lit(Str("a")), Lit(Str("b")));
    assert ToRe(ab, SymbolText) == Re("((a)(b))");
    assert ToRe(Alt(ab, Emp), SymbolText) == Re("(((a)(b))|)");
  }

  /** The second example: `nul` becomes the empty character class. */
  lemma DocExampleNul()
    ensures ToRe(Rep(Alt(Con(Lit(Str("a")), Con(Lit(Str("b")), Nul)), Emp)), SymbolText) ==
              Re("((((a)((b)" + Contradiction + "))|)*)")
  {
    var p := "((a)((b)" + Contradiction + "))";
    DocExampleNulGroup();
    assert ToRe(Alt(Con(Lit(Str("a")), Con(Lit(Str("b")), Nul)), Emp), SymbolText) == Re("(" + p + "|)");
    Assoc3("((", p, "|)*)");
    Assoc3("((((a)((b)", Contradiction, "))");
  }

  lemma DocExampleNulGroup()
    ensures ToRe(Con(Lit(Str("a")), Con(Lit(Str("b")), Nul)), SymbolText) ==
              Re("((a)((b)" + Contradiction + "))")
  {
    var c := Contradiction;
    assert ToRe(Lit(Str("a")), SymbolText) == Re("(a)");
    assert ToRe(Con(Lit(Str("b")), Nul), SymbolText) == Re("(" + "(b)" + c + ")");
    assert ToRe(Con(Lit(Str("a")), Con(Lit(Str("b")), Nul)), SymbolText) ==
      Re("(" + "(a)" + ("(" + "(b)" + c + ")") + ")");
  }

  lemma Assoc3(a: string, b: string, c: string)
    ensures a + b + c == a + (b + c)
  {
  }

  /** The third example: integer symbols raise `TypeError`. */
  lemma DocExampleIntegers()
    ensures ToRe(Rep(Alt(Con(Lit(Int(123)), Lit(Int(456))), Emp)), SymbolText) == TypeError
  {
    assert ToRe(Lit(Int(123)), SymbolText) == TypeError;
  }
}
