/** The cache that holds back the constraints of one switch instruction until the last
    case, and the order in which it releases them. */
module SwitchBatch {
  import opened Options
  import opened BitVectors
  import opened Expressions
  import opened Constraints

  function NonTaken(cs: seq<Constraint>): (r: seq<Constraint>)
  {
    if |cs| == 0 then []
    else
      var rest := NonTaken(cs[..|cs| - 1]);
      if cs[|cs| - 1].taken then rest else rest + [cs[|cs| - 1]]
  }

  function Taken(cs: seq<Constraint>): (r: seq<Constraint>)
  {
    if |cs| == 0 then []
    else
      var rest := Taken(cs[..|cs| - 1]);
      if cs[|cs| - 1].taken then rest + [cs[|cs| - 1]] else rest
  }

  /** What one batch releases: the non-taken constraints in order, the taken one last. */
  function Batched(cs: seq<Constraint>): seq<Constraint> { NonTaken(cs) + Taken(cs) }

  ghost predicate AtMostOneTaken(cs: seq<Constraint>)
  {
    forall i, j :: 0 <= i < j < |cs| ==> !(cs[i].taken && cs[j].taken)
  }

  /** Each constraint is released exactly once. */
  lemma {:induction false} BatchedOnce(cs: seq<Constraint>)
    ensures multiset(Batched(cs)) == multiset(cs)
  {
    if |cs| > 0 {
      var front, last := cs[..|cs| - 1], cs[|cs| - 1];
      BatchedOnce(front);
      assert cs == front + [last];
      assert multiset(Batched(cs)) == multiset(NonTaken(cs)) + multiset(Taken(cs));
      assert multiset(Batched(front)) == multiset(NonTaken(front)) + multiset(Taken(front));
    }
  }

  lemma {:induction false} NonTakenAreNot(cs: seq<Constraint>, k: nat)
    requires k < |NonTaken(cs)|
    ensures !NonTaken(cs)[k].taken && NonTaken(cs)[k] in cs
  {
    var front := cs[..|cs| - 1];
    if k < |NonTaken(front)| {
      NonTakenAreNot(front, k);
    }
  }

  lemma {:induction false} TakenAre(cs: seq<Constraint>, k: nat)
    requires k < |Taken(cs)|
    ensures Taken(cs)[k].taken && Taken(cs)[k] in cs
  {
    var front := cs[..|cs| - 1];
    if k < |Taken(front)| {
      TakenAre(front, k);
    }
  }

  lemma {:induction false} TakenNone(cs: seq<Constraint>)
    requires forall i :: 0 <= i < |cs| ==> !cs[i].taken
    ensures Taken(cs) == []
  {
    if |cs| > 0 {
      TakenNone(cs[..|cs| - 1]);
    }
  }

  lemma {:induction false} TakenAtMostOne(cs: seq<Constraint>)
    requires AtMostOneTaken(cs)
    ensures |Taken(cs)| <= 1
  {
    if |cs| > 0 {
      var front := cs[..|cs| - 1];
      if cs[|cs| - 1].taken {
        TakenNone(front);
      } else {
        TakenAtMostOne(front);
      }
    }
  }

  /** `__cached_switch_case_constraints` and the calls that reach the backend. */
  class Cache {
    var cached: seq<Constraint>
    var released: seq<Constraint>

    constructor ()
      ensures cached == [] && released == []
    {
      cached, released := [], [];
    }

    /** The loop over a complete batch; the taken constraint is remembered for the end. */
    method Flush()
      requires AtMostOneTaken(cached)
      modifies this
      ensures cached == [] && released == old(released) + Batched(old(cached))
    {
      var taken: Option<Constraint> := None;
      var i := 0;
      ghost var before := released;
      assert cached[..0] == [];
      while i < |cached|
        invariant 0 <= i <= |cached| && cached == old(cached)
        invariant released == before + NonTaken(cached[..i])
        invariant Taken(cached[..i]) == if taken.Some? then [taken.value] else []
      {
        assert cached[..i + 1][..i] == cached[..i];
        if !cached[i].taken {
          released := released + [cached[i]];
        } else {
          if taken.Some? {
            TakenAre(cached[..i], 0);
          }
          assert taken.None?;
          taken := Some(cached[i]);
        }
        i := i + 1;
      }
      assert cached[..i] == cached;
      if taken.Some? {
        released := released + [taken.value];
      }
      cached := [];
    }

    /** `_sym_push_switch_constraint` */
    method Push(c: Constraint, index: nat, numCases: nat)
      requires index == 0 ==> cached == []
      requires index < numCases && AtMostOneTaken(cached + [c])
      modifies this
      ensures if index == numCases - 1
              then cached == [] && released == old(released) + Batched(old(cached) + [c])
              else cached == old(cached) + [c] && released == old(released)
    {
      cached := cached + [c];
      if index != numCases - 1 {
        return;
      }
      Flush();
    }

    /** The calls that the instrumented code of one switch makes, case by case. */
    method PushAll(cases: seq<Constraint>)
      requires cached == [] && AtMostOneTaken(cases)
      modifies this
      ensures cached == [] && released == old(released) + Batched(cases)
    {
      hide Batched, AtMostOneTaken;
      BatchedNothing();
      var i := 0;
      while i < |cases|
        invariant 0 <= i <= |cases|
        invariant if i < |cases| || i == 0 then cached == cases[..i] && released == old(released)
                  else cached == [] && released == old(released) + Batched(cases)
      {
        PrefixAtMostOne(cases, i);
        Push(cases[i], i, |cases|);
        i := i + 1;
      }
    }
  }

  lemma BatchedNothing()
    ensures Batched([]) == []
  {
  }

  lemma PrefixAtMostOne(cases: seq<Constraint>, i: nat)
    requires i < |cases| && AtMostOneTaken(cases)
    ensures cases[..i] + [cases[i]] == cases[..i + 1] && AtMostOneTaken(cases[..i + 1])
    ensures i + 1 == |cases| ==> cases[..i + 1] == cases
  {
  }

  function AllBatched(batches: seq<seq<Constraint>>): seq<Constraint>
  {
    if |batches| == 0 then [] else AllBatched(batches[..|batches| - 1]) + Batched(batches[|batches| - 1])
  }

  /** A whole run of switch instructions: every batch comes out completely, in turn. */
  method RunBatches(cache: Cache, batches: seq<seq<Constraint>>)
    requires cache.cached == [] && forall b :: 0 <= b < |batches| ==> AtMostOneTaken(batches[b])
    modifies cache
    ensures cache.cached == [] && cache.released == old(cache.released) + AllBatched(batches)
  {
    var b := 0;
    assert batches[..0] == [];
    while b < |batches|
      invariant 0 <= b <= |batches| && cache.cached == []
      invariant cache.released == old(cache.released) + AllBatched(batches[..b])
    {
      cache.PushAll(batches[b]);
      assert batches[..b + 1][..b] == batches[..b];
      b := b + 1;
    }
    assert batches[..b] == batches;
  }

  // ----- the constraints of a switch -----

  /** The constraint pushed for one case. */
  function CaseConstraint(e: Expr, v: Value, caseValue: Value): Constraint
  {
    Constraint(Cmp(Eq, e, ValueExpr(caseValue)), v == caseValue)
  }

  function CaseConstraints(e: Expr, v: Value, values: seq<Value>): (r: seq<Constraint>)
    ensures |r| == |values|
  {
    seq(|values|, i requires 0 <= i < |values| => CaseConstraint(e, v, values[i]))
  }

  predicate Distinct(values: seq<Value>)
  {
    forall i, j :: 0 <= i < j < |values| ==> values[i] != values[j]
  }

  predicate PlainValue(v: Value) { v.Bv? ==> PlainWidth(|v.bits|) }

  lemma DistinctAtMostOne(e: Expr, v: Value, values: seq<Value>)
    requires Distinct(values)
    ensures AtMostOneTaken(CaseConstraints(e, v, values))
  {
  }

  /** The constraints that a switch pushes: none if its operand is concrete. */
  function SwitchPushes(e: SymExpr, v: Option<Value>, values: seq<Value>): seq<Constraint>
  {
    match (e, v)
    case (Some(x), Some(y)) => Batched(CaseConstraints(x, y, values))
    case _ => []
  }

  /** The code inserted before a switch: with a symbolic operand, one call per case. */
  method RunSwitch(cache: Cache, e: SymExpr, v: Value, values: seq<Value>)
    requires cache.cached == [] && Distinct(values)
    modifies cache
    ensures cache.cached == [] && cache.released == old(cache.released) + SwitchPushes(e, Some(v), values)
  {
    if e.None? {
      return;
    }
    hide Batched, AtMostOneTaken, Distinct;
    ghost var cases := CaseConstraints(e.value, v, values);
    DistinctAtMostOne(e.value, v, values);
    BatchedNothing();
    var i := 0;
    while i < |values|
      invariant 0 <= i <= |values|
      invariant if i < |values| || i == 0 then cache.cached == cases[..i] && cache.released == old(cache.released)
                else cache.cached == [] && cache.released == old(cache.released) + Batched(cases)
    {
      PrefixAtMostOne(cases, i);
      cache.Push(CaseConstraint(e.value, v, values[i]), i, |values|);
      i := i + 1;
    }
  }

  /** A case constraint says that the switch operand has the case's value. */
  lemma CaseMeans(e: Expr, caseValue: Value, input: Input)
    requires PlainValue(caseValue) && SortOf(e) == Some(SortOfValue(caseValue))
    ensures Eval(Cmp(Eq, e, ValueExpr(caseValue)), input) == Boolean(Eval(e, input) == caseValue)
    ensures SortOf(Cmp(Eq, e, ValueExpr(caseValue))) == Some(BoolSort)
  {
    ValueExprExact(caseValue, input);
    EvalHasSort(e, input);
    hide Eval, ValueExpr, SortOf;
    CmpMeans(e, ValueExpr(caseValue), input);
  }

  lemma CmpMeans(a: Expr, b: Expr, input: Input)
    requires SortOf(a).Some? && SortOf(a) == SortOf(b)
    ensures Eval(Cmp(Eq, a, b), input) == Boolean(Eval(a, input) == Eval(b, input))
    ensures SortOf(Cmp(Eq, a, b)) == Some(BoolSort)
  {
    EvalHasSort(a, input);
    EvalHasSort(b, input);
  }

  /** Asking for a case after other cases have been excluded loses nothing: an input reaches
      this case exactly when it does so without the exclusions. */
  lemma ExclusionsAreFree(e: Expr, values: seq<Value>, k: nat, input: Input)
    requires k < |values| && Distinct(values)
    requires forall i :: 0 <= i < |values| ==> PlainValue(values[i]) && SortOf(e) == Some(SortOfValue(values[i]))
    requires Satisfies(input, Constraint(Cmp(Eq, e, ValueExpr(values[k])), true))
    ensures forall i :: 0 <= i < |values| && i != k ==>
              Satisfies(input, Constraint(Cmp(Eq, e, ValueExpr(values[i])), false))
  {
    hide ValueExpr, SortOf, Eval;
    CaseMeans(e, values[k], input);
    forall i | 0 <= i < |values| && i != k
      ensures Satisfies(input, Constraint(Cmp(Eq, e, ValueExpr(values[i])), false))
    {
      CaseMeans(e, values[i], input);
    }
  }

  /** The non-taken constraints keep their order. */
  lemma {:induction false} NonTakenOrder(cs: seq<Constraint>, m: nat, q: nat) returns (i: nat, j: nat)
    requires m < q < |NonTaken(cs)|
    ensures i < j < |cs| && NonTaken(cs)[m] == cs[i] && NonTaken(cs)[q] == cs[j]
  {
    var front := cs[..|cs| - 1];
    if q < |NonTaken(front)| {
      i, j := NonTakenOrder(front, m, q);
    } else {
      NonTakenAreNot(front, m);
      i :| 0 <= i < |front| && front[i] == NonTaken(front)[m];
      j := |cs| - 1;
    }
  }

  /** `x` is a solution of a query made after `prior`. */
  ghost predicate Reaches(x: Input, n: nat, prior: seq<Constraint>, query: Expr)
  {
    |x| == n && SatisfiesAll(x, prior) && Eval(query, x) == Boolean(true)
  }

  /** Each query for a non-taken case has a solution exactly when the path condition before
      the switch, with that case, has one: batching loses no case. */
  lemma QuerySatisfiable(e: Expr, v: Value, values: seq<Value>, prior: seq<Constraint>, q: nat, n: nat)
    requires Distinct(values) && q < |NonTaken(CaseConstraints(e, v, values))|
    requires forall i :: 0 <= i < |values| ==> PlainValue(values[i]) && SortOf(e) == Some(SortOfValue(values[i]))
    ensures var cs := NonTaken(CaseConstraints(e, v, values));
            (exists x: Input :: Reaches(x, n, prior + cs[..q], cs[q].expr))
              <==> (exists x: Input :: Reaches(x, n, prior, cs[q].expr))
  {
    hide Eval, SortOf, NonTaken, SatisfiesAll, PlainValue, Distinct;
    var cs := NonTaken(CaseConstraints(e, v, values));
    forall x: Input
      ensures Reaches(x, n, prior + cs[..q], cs[q].expr) <==> Reaches(x, n, prior, cs[q].expr)
    {
      SatisfiesConcat(x, prior, cs[..q]);
      if Eval(cs[q].expr, x) == Boolean(true) {
        EarlierExcluded(e, v, values, q, x);
      }
    }
  }

  lemma EarlierExcluded(e: Expr, v: Value, values: seq<Value>, q: nat, x: Input)
    requires Distinct(values) && q < |NonTaken(CaseConstraints(e, v, values))|
    requires forall i :: 0 <= i < |values| ==> PlainValue(values[i]) && SortOf(e) == Some(SortOfValue(values[i]))
    requires Eval(NonTaken(CaseConstraints(e, v, values))[q].expr, x) == Boolean(true)
    ensures SatisfiesAll(x, NonTaken(CaseConstraints(e, v, values))[..q])
  {
    hide Eval, SortOf, NonTaken, PlainValue, Distinct;
    var all := CaseConstraints(e, v, values);
    var cs := NonTaken(all);
    forall m | 0 <= m < q
      ensures Satisfies(x, cs[..q][m])
    {
      var i, j := NonTakenOrder(all, m, q);
      NonTakenAreNot(all, m);
      ExclusionsAreFree(e, values, j, x);
    }
  }

  /** Were the taken constraint pushed first, no other case could be reached any more. */
  lemma TakenFirstBlocks(e: Expr, taken: Value, other: Value, input: Input)
    requires taken != other && PlainValue(taken) && PlainValue(other)
    requires SortOf(e) == Some(SortOfValue(taken)) == Some(SortOfValue(other))
    ensures !(Satisfies(input, Constraint(Cmp(Eq, e, ValueExpr(taken)), true))
              && Satisfies(input, Constraint(Cmp(Eq, e, ValueExpr(other)), true)))
  {
    CaseMeans(e, taken, input);
    CaseMeans(e, other, input);
  }
}
