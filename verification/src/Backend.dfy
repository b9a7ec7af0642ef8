/** The simple backend of runtime/simple_backend/Runtime.cpp over an abstract solver, and
    the input variables it hands out. */
module Backend {
  import opened Options
  import opened Expressions
  import opened Constraints

  datatype Answer = Sat(model: Input) | Unsat | Unknown

  /** The solver: expression simplification, and satisfiability of a set of assertions. */
  datatype Oracle = Oracle(simplify: Expr -> Expr, check: seq<Expr> -> Answer)

  ghost predicate AllTrue(input: Input, es: seq<Expr>)
  {
    forall i :: 0 <= i < |es| ==> Eval(es[i], input) == Boolean(true)
  }

  /** Simplification keeps sort and value; answers about inputs of length `n` are right. */
  ghost predicate Sound(o: Oracle, n: nat)
  {
    && (forall e: Expr :: SortOf(o.simplify(e)) == SortOf(e))
    && (forall e: Expr, x: Input :: Eval(o.simplify(e), x) == Eval(e, x))
    && (forall es: seq<Expr> :: o.check(es).Sat? ==> |o.check(es).model| == n && AllTrue(o.check(es).model, es))
    && (forall es: seq<Expr>, x: Input :: o.check(es).Unsat? && |x| == n ==> !AllTrue(x, es))
  }

  ghost predicate Complete(o: Oracle) { forall es: seq<Expr> :: !o.check(es).Unknown? }

  lemma SimplifyKeeps(o: Oracle, n: nat, e: Expr)
    requires Sound(o, n)
    ensures SortOf(o.simplify(e)) == SortOf(e) && forall x: Input :: Eval(o.simplify(e), x) == Eval(e, x)
  {
  }

  lemma AnswerSat(o: Oracle, n: nat, es: seq<Expr>)
    requires Sound(o, n) && o.check(es).Sat?
    ensures |o.check(es).model| == n && AllTrue(o.check(es).model, es)
  {
  }

  /** With a complete solver, assertions that some input satisfies are found satisfiable. */
  lemma AnswerComplete(o: Oracle, n: nat, es: seq<Expr>, x: Input)
    requires Sound(o, n) && Complete(o) && |x| == n && AllTrue(x, es)
    ensures o.check(es).Sat?
  {
  }

  lemma AllTrueSnoc(x: Input, es: seq<Expr>, e: Expr)
    ensures AllTrue(x, es + [e]) <==> AllTrue(x, es) && Eval(e, x) == Boolean(true)
  {
    var both := es + [e];
    if AllTrue(x, both) {
      assert both[|es|] == e;
      forall i | 0 <= i < |es|
        ensures Eval(es[i], x) == Boolean(true)
      {
        assert both[i] == es[i];
      }
    }
  }

  lemma NotMeans(e: Expr, x: Input)
    requires SortOf(e) == Some(BoolSort)
    ensures Eval(e, x).Boolean? && Eval(Not(e), x) == Boolean(!Eval(e, x).b) && SortOf(Not(e)) == Some(BoolSort)
  {
    EvalHasSort(e, x);
  }

  /** A model found for the alternative of the constraint with the given number. */
  datatype Diverging = Diverging(number: nat, model: Input)

  /** The negation that the backend solves for, or asserts. */
  function Negated(o: Oracle, e: Expr): Expr { o.simplify(Not(e)) }

  function Alternative(o: Oracle, e: Expr, taken: bool): Expr { if taken then Negated(o, e) else e }

  function Actual(o: Oracle, e: Expr, taken: bool): Expr { if taken then e else Negated(o, e) }

  lemma AlternativeMeans(o: Oracle, n: nat, e: Expr, taken: bool, x: Input)
    requires Sound(o, n) && SortOf(e) == Some(BoolSort)
    ensures Eval(Alternative(o, e, taken), x) == Boolean(true) <==> Eval(e, x) == Boolean(!taken)
    ensures Eval(Actual(o, e, taken), x) == Boolean(true) <==> Eval(e, x) == Boolean(taken)
  {
    NotMeans(e, x);
    SimplifyKeeps(o, n, Not(e));
  }

  /** The assertions on the solver say the same as the constraints pushed so far. */
  ghost predicate Mirrors(asserted: seq<Expr>, pushed: seq<Constraint>)
  {
    forall x: Input :: AllTrue(x, asserted) <==> SatisfiesAll(x, pushed)
  }

  lemma MirrorsSkip(asserted: seq<Expr>, pushed: seq<Constraint>, c: Constraint)
    requires Mirrors(asserted, pushed) && forall x: Input :: Satisfies(x, c)
    ensures Mirrors(asserted, pushed + [c])
  {
    hide Eval, SatisfiesAll, Satisfies;
    forall x: Input
      ensures AllTrue(x, asserted) <==> SatisfiesAll(x, pushed + [c])
    {
      SatisfiesConcat(x, pushed, [c]);
      SatisfiesOne(x, c);
    }
  }

  lemma SatisfiesOne(x: Input, c: Constraint)
    ensures SatisfiesAll(x, [c]) <==> Satisfies(x, c)
  {
    assert [c][0] == c;
  }

  lemma MirrorsAssert(asserted: seq<Expr>, pushed: seq<Constraint>, c: Constraint, e: Expr)
    requires Mirrors(asserted, pushed) && forall x: Input :: Eval(e, x) == Boolean(true) <==> Satisfies(x, c)
    ensures Mirrors(asserted + [e], pushed + [c])
  {
    hide Eval, SatisfiesAll, Satisfies, AllTrue;
    forall x: Input
      ensures AllTrue(x, asserted + [e]) <==> SatisfiesAll(x, pushed + [c])
    {
      SatisfiesConcat(x, pushed, [c]);
      SatisfiesOne(x, c);
      AllTrueSnoc(x, asserted, e);
    }
  }

  /** Every model found satisfies all constraints before its own, and violates that one. */
  ghost predicate Diverges(d: Diverging, pushed: seq<Constraint>, n: nat)
  {
    && d.number < |pushed| && |d.model| == n
    && SatisfiesAll(d.model, pushed[..d.number])
    && Eval(pushed[d.number].expr, d.model) == Boolean(!pushed[d.number].taken)
  }

  ghost predicate AllDiverge(found: seq<Diverging>, pushed: seq<Constraint>, n: nat)
  {
    forall i :: 0 <= i < |found| ==> Diverges(found[i], pushed, n)
  }

  lemma DivergesLater(d: Diverging, pushed: seq<Constraint>, c: Constraint, n: nat)
    requires Diverges(d, pushed, n)
    ensures Diverges(d, pushed + [c], n)
  {
    assert (pushed + [c])[..d.number] == pushed[..d.number];
  }

  lemma AllDivergeLater(found: seq<Diverging>, pushed: seq<Constraint>, c: Constraint, n: nat)
    requires AllDiverge(found, pushed, n)
    ensures AllDiverge(found, pushed + [c], n)
  {
    hide Diverges;
    forall i | 0 <= i < |found|
      ensures Diverges(found[i], pushed + [c], n)
    {
      DivergesLater(found[i], pushed, c, n);
    }
  }

  lemma DivergesNow(model: Input, asserted: seq<Expr>, pushed: seq<Constraint>, c: Constraint, e: Expr, n: nat)
    requires Mirrors(asserted, pushed) && |model| == n && AllTrue(model, asserted + [e])
    requires Eval(e, model) == Boolean(true) <==> Eval(c.expr, model) == Boolean(!c.taken)
    ensures Diverges(Diverging(|pushed|, model), pushed + [c], n)
  {
    AllTrueSnoc(model, asserted, e);
    assert (pushed + [c])[..|pushed|] == pushed;
  }

  // ----- which models are found -----

  /** An input of length `n` that satisfies the constraints before `c` and gives `c` the
      other truth value. */
  ghost predicate Flips(x: Input, before: seq<Constraint>, c: Constraint, n: nat)
  {
    |x| == n && SatisfiesAll(x, before) && Eval(c.expr, x) == Boolean(!c.taken)
  }

  ghost predicate Flippable(before: seq<Constraint>, c: Constraint, n: nat)
  {
    exists x: Input :: Flips(x, before, c, n)
  }

  ghost predicate HasNumber(found: seq<Diverging>, d: nat) { exists i :: 0 <= i < |found| && found[i].number == d }

  /** There is one model for every constraint that some input violates after satisfying all
      earlier ones, and none for any other; the models come in the order of the constraints. */
  ghost predicate FoundExactly(found: seq<Diverging>, pushed: seq<Constraint>, n: nat)
  {
    && (forall d: nat :: d < |pushed| ==> (HasNumber(found, d) <==> Flippable(pushed[..d], pushed[d], n)))
    && (forall i, j :: 0 <= i < j < |found| ==> found[i].number < found[j].number)
    && forall i :: 0 <= i < |found| ==> found[i].number < |pushed|
  }

  lemma NothingFound(n: nat)
    ensures FoundExactly([], [], n)
  {
  }

  lemma FoundLater(found: seq<Diverging>, pushed: seq<Constraint>, c: Constraint, n: nat)
    requires FoundExactly(found, pushed, n) && !Flippable(pushed, c, n)
    ensures FoundExactly(found, pushed + [c], n)
  {
    hide Flippable;
    var all := pushed + [c];
    forall d: nat | d < |all|
      ensures HasNumber(found, d) <==> Flippable(all[..d], all[d], n)
    {
      assert all[..d] == pushed[..d];
      assert pushed[..|pushed|] == pushed;
    }
  }

  lemma FoundNow(found: seq<Diverging>, pushed: seq<Constraint>, c: Constraint, n: nat, m: Diverging)
    requires FoundExactly(found, pushed, n) && Flippable(pushed, c, n) && m.number == |pushed|
    ensures FoundExactly(found + [m], pushed + [c], n)
  {
    hide Flippable;
    var all, more := pushed + [c], found + [m];
    forall d: nat | d < |all|
      ensures HasNumber(more, d) <==> Flippable(all[..d], all[d], n)
    {
      assert all[..d] == pushed[..d];
      assert pushed[..|pushed|] == pushed;
      if d == |pushed| {
        assert more[|found|].number == d;
      } else if HasNumber(found, d) {
        var i :| 0 <= i < |found| && found[i].number == d;
        assert more[i].number == d;
      } else {
        assert forall i :: 0 <= i < |found| ==> more[i] == found[i];
      }
    }
  }

  /** A complete solver finds the alternative satisfiable if and only if some input flips the
      constraint. */
  lemma AnswerExact(o: Oracle, asserted: seq<Expr>, pushed: seq<Constraint>, c: Constraint, e: Expr, n: nat)
    requires Sound(o, n) && Complete(o) && Mirrors(asserted, pushed)
    requires forall x: Input :: Eval(e, x) == Boolean(true) <==> Eval(c.expr, x) == Boolean(!c.taken)
    ensures o.check(asserted + [e]).Sat? <==> Flippable(pushed, c, n)
  {
    hide Eval, SatisfiesAll, AllTrue, Complete, Sound;
    var es := asserted + [e];
    if o.check(es).Sat? {
      var x := o.check(es).model;
      AnswerSat(o, n, es);
      AllTrueSnoc(x, asserted, e);
      assert Flips(x, pushed, c, n);
    }
    if Flippable(pushed, c, n) {
      var x :| Flips(x, pushed, c, n);
      AllTrueSnoc(x, asserted, e);
      AnswerComplete(o, n, es, x);
    }
  }

  lemma AlternativeFlips(o: Oracle, n: nat, e: Expr, c: Constraint)
    requires Sound(o, n) && SortOf(e) == Some(BoolSort) && forall x: Input :: Eval(e, x) == Eval(c.expr, x)
    ensures forall x: Input :: Eval(Alternative(o, e, c.taken), x) == Boolean(true)
                               <==> Eval(c.expr, x) == Boolean(!c.taken)
  {
    hide Sound, SortOf;
    forall x: Input
      ensures Eval(Alternative(o, e, c.taken), x) == Boolean(true) <==> Eval(c.expr, x) == Boolean(!c.taken)
    {
      AlternativeMeans(o, n, e, c.taken, x);
    }
  }

  /** The solver state of the backend. `pushed` records the calls, for the proof only. */
  class SimpleBackend {
    const oracle: Oracle
    var asserted: seq<Expr>
    var found: seq<Diverging>
    var count: nat
    ghost var pushed: seq<Constraint>

    ghost predicate Valid(n: nat)
      reads this
    {
      && Sound(oracle, n) && count == |pushed|
      && Mirrors(asserted, pushed)
      && AllDiverge(found, pushed, n) && FoundExactly(found, pushed, n)
    }

    constructor (o: Oracle, ghost n: nat)
      requires Sound(o, n)
      ensures oracle == o && pushed == [] && found == [] && Valid(n)
    {
      oracle, asserted, found, count := o, [], [], 0;
      pushed := [];
      new;
      NothingFound(n);
    }

    /** `_sym_push_path_constraint`. `current` is the input of the running program, which
        satisfies what it pushes; with a complete solver none of the assertions can fire. One
        model, with the constraint's number, is added if and only if some input of the same
        length satisfies all earlier constraints and violates this one. */
    method Push(constraint: SymExpr, taken: bool, ghost current: Input)
      requires Valid(|current|) && Complete(oracle) && SatisfiesAll(current, pushed)
      requires constraint.Some? ==> SortOf(constraint.value) == Some(BoolSort)
                                    && Satisfies(current, Constraint(constraint.value, taken))
      modifies this
      ensures Valid(|current|) && SatisfiesAll(current, pushed)
      ensures pushed == old(pushed) + if constraint.Some? then [Constraint(constraint.value, taken)] else []
      ensures constraint.None? ==> found == old(found)
      ensures constraint.Some? ==>
                if Flippable(old(pushed), Constraint(constraint.value, taken), |current|) then
                  exists m: Input :: found == old(found) + [Diverging(|old(pushed)|, m)]
                                     && Flips(m, old(pushed), Constraint(constraint.value, taken), |current|)
                else found == old(found)
    {
      if constraint.None? {
        return;
      }
      ghost var n := |current|;
      ghost var c := Constraint(constraint.value, taken);
      hide Eval, SortOf, Sound, Complete, Mirrors, AllDiverge, AllTrue, SatisfiesAll, FoundExactly, Flippable;
      SatisfiesConcat(current, pushed, [c]);
      SatisfiesOne(current, c);
      SimplifyKeeps(oracle, n, constraint.value);
      AllDivergeLater(found, pushed, c, n);
      var e := oracle.simplify(constraint.value);
      if e == BoolConst(true) {
        TrueConstant(true, current);
        assert taken;
        TrivialConstraint(asserted, pushed, c, e, n);
        FoundLater(found, pushed, c, n);
      } else if e == BoolConst(false) {
        TrueConstant(false, current);
        assert !taken;
        TrivialConstraint(asserted, pushed, c, e, n);
        FoundLater(found, pushed, c, n);
      } else {
        var notE := oracle.simplify(Not(e));
        var alternative := if taken then notE else e;
        AlternativeFlips(oracle, n, e, c);
        AnswerExact(oracle, asserted, pushed, c, alternative, n);
        var answer := oracle.check(asserted + [alternative]);
        if answer.Sat? {
          ModelRecorded(oracle, found, asserted, pushed, c, e, n);
          found := found + [Diverging(count, answer.model)];
        } else {
          FoundLater(found, pushed, c, n);
        }
        var actual := if taken then e else notE;
        ActualMeans(oracle, n, e, c);
        MirrorsAssert(asserted, pushed, c, actual);
        asserted := asserted + [actual];
        CurrentHolds(current, asserted, pushed + [c]);
        AnswerComplete(oracle, n, asserted, current);
        var feasible := oracle.check(asserted);
        assert feasible.Sat?;
      }
      count := count + 1;
      pushed := pushed + [c];
    }
  }

  lemma TrueConstant(b: bool, x: Input)
    ensures Eval(BoolConst(b), x) == Boolean(b)
  {
  }

  /** The model of a satisfiable alternative is the one to record. */
  lemma ModelRecorded(o: Oracle, found: seq<Diverging>, asserted: seq<Expr>, pushed: seq<Constraint>, c: Constraint,
                      e: Expr, n: nat)
    requires Sound(o, n) && Complete(o) && Mirrors(asserted, pushed) && AllDiverge(found, pushed + [c], n)
    requires FoundExactly(found, pushed, n) && SortOf(e) == Some(BoolSort)
    requires forall x: Input :: Eval(e, x) == Eval(c.expr, x)
    requires o.check(asserted + [Alternative(o, e, c.taken)]).Sat?
    ensures var d := Diverging(|pushed|, o.check(asserted + [Alternative(o, e, c.taken)]).model);
            && AllDiverge(found + [d], pushed + [c], n) && FoundExactly(found + [d], pushed + [c], n)
            && Flips(d.model, pushed, c, n)
  {
    hide Eval, SortOf, Sound, Complete, Mirrors, AllDiverge, AllTrue, SatisfiesAll, FoundExactly, Flippable,
         Alternative, Diverges, Flips;
    var alternative := Alternative(o, e, c.taken);
    var d := Diverging(|pushed|, o.check(asserted + [alternative]).model);
    AnswerSat(o, n, asserted + [alternative]);
    AlternativeFlips(o, n, e, c);
    AnswerExact(o, asserted, pushed, c, alternative, n);
    DivergesNow(d.model, asserted, pushed, c, alternative, n);
    AllDivergeSnoc(found, d, pushed + [c], n);
    FoundNow(found, pushed, c, n, d);
    DivergesFlips(d, pushed, c, n);
  }

  lemma DivergesFlips(d: Diverging, pushed: seq<Constraint>, c: Constraint, n: nat)
    requires d.number == |pushed| && Diverges(d, pushed + [c], n)
    ensures Flips(d.model, pushed, c, n)
  {
    assert (pushed + [c])[..|pushed|] == pushed;
  }

  /** A constraint that simplifies to a constant says nothing, and no input violates it. */
  lemma TrivialConstraint(asserted: seq<Expr>, pushed: seq<Constraint>, c: Constraint, e: Expr, n: nat)
    requires Mirrors(asserted, pushed) && e == BoolConst(c.taken) && forall x: Input :: Eval(e, x) == Eval(c.expr, x)
    ensures Mirrors(asserted, pushed + [c]) && !Flippable(pushed, c, n)
  {
    hide Mirrors;
    forall x: Input
      ensures Satisfies(x, c)
    {
      assert Eval(e, x) == Boolean(c.taken);
    }
    MirrorsSkip(asserted, pushed, c);
  }

  lemma ActualMeans(o: Oracle, n: nat, e: Expr, c: Constraint)
    requires Sound(o, n) && SortOf(e) == Some(BoolSort) && forall x: Input :: Eval(e, x) == Eval(c.expr, x)
    ensures forall x: Input :: Eval(Actual(o, e, c.taken), x) == Boolean(true) <==> Satisfies(x, c)
  {
    hide Sound, SortOf;
    forall x: Input
      ensures Eval(Actual(o, e, c.taken), x) == Boolean(true) <==> Satisfies(x, c)
    {
      AlternativeMeans(o, n, e, c.taken, x);
    }
  }

  lemma CurrentHolds(x: Input, asserted: seq<Expr>, pushed: seq<Constraint>)
    requires Mirrors(asserted, pushed) && SatisfiesAll(x, pushed)
    ensures AllTrue(x, asserted)
  {
  }

  lemma AllDivergeSnoc(found: seq<Diverging>, d: Diverging, pushed: seq<Constraint>, n: nat)
    requires AllDiverge(found, pushed, n) && Diverges(d, pushed, n)
    ensures AllDiverge(found + [d], pushed, n)
  {
  }

  /** Feeding a whole run's constraints to the backend: no assertion fires, and every model
      found satisfies all earlier constraints and violates its own. There is a model, and
      only one, for exactly those constraints that some input violates after satisfying all
      earlier ones. */
  method PushAll(b: SimpleBackend, path: seq<Constraint>, ghost current: Input)
    requires b.Valid(|current|) && Complete(b.oracle) && b.pushed == []
    requires SatisfiesAll(current, path)
    requires forall i :: 0 <= i < |path| ==> SortOf(path[i].expr) == Some(BoolSort)
    modifies b
    ensures b.pushed == path && AllDiverge(b.found, path, |current|) && Mirrors(b.asserted, path)
    ensures FoundExactly(b.found, path, |current|)
  {
    hide Eval, SortOf, Sound, Complete, Mirrors, AllDiverge, FoundExactly, Flippable, Flips;
    var i := 0;
    while i < |path|
      invariant 0 <= i <= |path| && b.Valid(|current|) && b.pushed == path[..i] && SatisfiesAll(current, b.pushed)
    {
      assert path[..i] + [path[i]] == path[..i + 1];
      b.Push(Some(path[i].expr), path[i].taken, current);
      i := i + 1;
    }
    assert path[..i] == path;
  }

  // ----- input variables -----

  /** `_sym_get_input_byte` of the simple backend; variable k is named "stdin<k>". */
  class InputVariables {
    var bytes: seq<SymExpr>

    /** The variable for byte k is the one named after k. */
    ghost predicate InOrder()
      reads this
    {
      forall k :: 0 <= k < |bytes| ==> bytes[k] == Some(InputByte(k))
    }

    constructor ()
      ensures bytes == [] && InOrder()
    {
      bytes := [];
    }

    /** Bytes asked for without leaving a gap get their own variable; a gap mixes up the
        names and leaves null entries, so the condition is exact. */
    method GetInputByte(offset: nat) returns (e: SymExpr)
      requires InOrder()
      modifies this
      ensures InOrder() && e == Some(InputByte(offset)) <==> offset <= old(|bytes|)
      ensures |bytes| == if offset < old(|bytes|) then old(|bytes|) else offset + 1
    {
      if offset < |bytes| {
        return bytes[offset];
      }
      var variable := InputByte(|bytes|);
      ghost var size := |bytes|;
      bytes := bytes + seq(offset - |bytes|, _ => None);
      bytes := bytes + [Some(variable)];
      assert bytes[offset] == Some(InputByte(size));
      e := Some(variable);
    }
  }
}
