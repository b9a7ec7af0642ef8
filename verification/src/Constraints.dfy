/** Path constraints as the run-time library hands them to the backend. */
module Constraints {
  import opened Options
  import opened BitVectors
  import opened Expressions

  /** One call of `_sym_push_path_constraint` with a non-null expression. */
  datatype Constraint = Constraint(expr: Expr, taken: bool)

  /** An input satisfies a constraint when the expression has the recorded truth value on it. */
  ghost predicate Satisfies(input: Input, c: Constraint) { Eval(c.expr, input) == Boolean(c.taken) }

  ghost predicate SatisfiesAll(input: Input, cs: seq<Constraint>)
  {
    forall i :: 0 <= i < |cs| ==> Satisfies(input, cs[i])
  }

  /** `_sym_concretize_pointer` and `_sym_concretize_size`: a symbolic value is pinned to
      the concrete one by an equality of 64-bit vectors; a null expression pushes nothing. */
  function Concretize(e: SymExpr, value: nat): seq<Constraint>
  {
    match e
    case None => []
    case Some(x) => [Constraint(Cmp(Eq, x, BuildInteger(value, 64)), true)]
  }

  lemma SatisfiesConcat(input: Input, cs: seq<Constraint>, ds: seq<Constraint>)
    ensures SatisfiesAll(input, cs + ds) <==> SatisfiesAll(input, cs) && SatisfiesAll(input, ds)
  {
    var both := cs + ds;
    if SatisfiesAll(input, both) {
      forall i | 0 <= i < |cs|
        ensures Satisfies(input, cs[i])
      {
        assert both[i] == cs[i];
      }
      forall i | 0 <= i < |ds|
        ensures Satisfies(input, ds[i])
      {
        assert both[|cs| + i] == ds[i];
      }
    }
  }
}
