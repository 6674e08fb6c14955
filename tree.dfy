/** The abstract-regular-expression tree shared by both matchers, the NFA
    translation and the pattern serialiser (the classes `nul`, `emp`, `lit`,
    `con`, `alt` and `rep` of src/are/are.py). Symbols are of any type `T`;
    the matchers compare them with `==`. */
module Tree {

  /** One node of an abstract regular expression. */
  datatype Are<T> =
    | Nul                          // satisfied by no string
    | Emp                          // satisfied by the empty string only
    | Lit(x: T)                    // exactly one occurrence of the symbol x
    | Con(l: Are<T>, r: Are<T>)    // concatenation
    | Alt(l: Are<T>, r: Are<T>)    // alternation
    | Rep(e: Are<T>)               // zero or more repetitions

  /** What a call of the matcher does: the Python code returns `None`, returns
      an integer length, or never returns at all (the repetition loop can spin
      forever, see `Matcher.RepLoop`). */
  datatype Outcome = NoMatch | Matched(len: nat) | Diverges

  /** The optional value the NFA translation uses for "unsatisfiable". */
  datatype Option<T> = None | Some(value: T)

  /** Trees that the earlier copy of the library (are/are.py) can build: it
      has no `nul` class. */
  predicate NulFree<T>(r: Are<T>)
  {
    match r
    case Nul => false
    case Emp => true
    case Lit(_) => true
    case Con(a, b) => NulFree(a) && NulFree(b)
    case Alt(a, b) => NulFree(a) && NulFree(b)
    case Rep(e) => NulFree(e)
  }
}
