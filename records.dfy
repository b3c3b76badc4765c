/** The values the canonicaliser passes around: sampled records, the lines it
    prints, and the fatal conditions that abort a run. */
module Records {

  /** One record of the indices: the assertion name ("activations.<sig>"),
      the sampled function's result and the input arguments it was called with. */
  datatype Entry = Entry(name: string, result: real, data: seq<real>)

  /** A diagnostic comment line. */
  datatype Note =
    | Skipped(name: string, result: real)   // a negative zero or an ineligible value
    | Choosing(count: nat, result: real)    // an exact bucket of three or more records

  /** One printed line. `Literal` with `exact` is the immediate `assert name == v`;
      without it, `assert_almost_equal(name, v)`. */
  datatype Line =
    | Literal(name: string, value: real, exact: bool)
    | Equal(name1: string, name2: string)
    | Negated(name1: string, name2: string)
    | Comment(note: Note)

  /** The three indices, named by their key: |round(v, dig)|, round(v, dig), v. */
  datatype Index = AbsRounded | SignedRounded | ExactValue

  /** The three `raise` sites. */
  datatype Fatal =
    | RoundTripViolation(result: real, saved: real)
    | InconsistentGroup(index: Index, name1: string, result1: real, name2: string, result2: real)
    | LengthMismatch(len1: nat, len2: nat)

  datatype Result<T> = Ok(value: T) | Err(error: Fatal)

  datatype Option<T> = None | Some(value: T)

  const Prefix: string := "activations."

  /** The assertion name under which a call signature is printed. */
  function Name(sig: string): string
  {
    Prefix + sig
  }

  /** The call signature a name was built from. */
  function SigOf(name: string): string
  {
    if |name| >= |Prefix| then name[|Prefix|..] else name
  }

  lemma SigOfName(sig: string)
    ensures SigOf(Name(sig)) == sig
  {
    assert Name(sig)[|Prefix|..] == sig;
  }
}
