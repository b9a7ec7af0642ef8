/** Control-flow paths, and which registers are defined on all of them: the static single
    assignment form that the compiler guarantees. */
module Scope {
  import opened Options
  import opened Ir
  import opened Concolic
  import opened Emission

  /** What the pass visits: PHI nodes, instructions and terminators. */
  datatype Visit = VisitPhi(phi: Phi) | VisitInstr(instr: Instr) | VisitTerm(term: Terminator)

  function DefOf(v: Visit): Option<Reg>
  {
    match v
    case VisitPhi(phi) => Some(phi.dst)
    case VisitInstr(i) => Dst(i)
    case VisitTerm(_) => None
  }

  /** The operands read where the visited thing stands; those of PHI nodes are read on the edges. */
  predicate UsedBy(v: Visit, o: Operand)
  {
    match v
    case VisitPhi(_) => false
    case VisitInstr(i) => Uses(i, o)
    case VisitTerm(t) => TermUses(t, o)
  }

  function Length(b: Block): nat { |b.phis| + |b.body| + 1 }

  function VisitAt(b: Block, n: nat): Visit
    requires n < Length(b)
  {
    if n < |b.phis| then VisitPhi(b.phis[n])
    else if n < |b.phis| + |b.body| then VisitInstr(b.body[n - |b.phis|])
    else VisitTerm(b.term)
  }

  /** A function body: its entry block, and the registers that hold its arguments. */
  datatype Func = Func(p: Program, entry: Label, params: set<Reg>)

  // ----- paths -----

  predicate Successor(t: Terminator, l: Label)
  {
    match t
    case Jump(m) => l == m
    case CondBr(_, m, n) => l == m || l == n
    case Switch(_, _, targets, default) => l in targets || l == default
    case Ret(_) => false
  }

  predicate Edge(p: Program, a: Label, b: Label) { a in p.blocks && b in p.blocks && Successor(p.blocks[a].term, b) }

  /** A path from the entry block to the last block named. */
  predicate Path(f: Func, path: seq<Label>)
  {
    && |path| > 0 && path[0] == f.entry && f.entry in f.p.blocks
    && forall i :: 0 <= i < |path| - 1 ==> Edge(f.p, path[i], path[i + 1])
  }

  predicate DefinedIn(p: Program, b: Label, n: nat, r: Reg)
  {
    b in p.blocks && exists j :: 0 <= j < n && j < Length(p.blocks[b]) && DefOf(VisitAt(p.blocks[b], j)) == Some(r)
  }

  predicate DefinedThrough(p: Program, b: Label, r: Reg) { b in p.blocks && DefinedIn(p, b, Length(p.blocks[b]), r) }

  /** The path to position `n` of its last block passes a definition of `r`. */
  predicate DefinedOn(f: Func, path: seq<Label>, n: nat, r: Reg)
    requires |path| > 0
  {
    || (exists i :: 0 <= i < |path| - 1 && DefinedThrough(f.p, path[i], r))
    || DefinedIn(f.p, path[|path| - 1], n, r)
  }

  /** A definition of `r` dominates position `n` of block `b`, or `r` is an argument. */
  ghost predicate InScope(f: Func, b: Label, n: nat, r: Reg)
  {
    r in f.params || forall path: seq<Label> :: Path(f, path) && path[|path| - 1] == b ==> DefinedOn(f, path, n, r)
  }

  // ----- the form of the program -----

  predicate Defines(p: Program, b: Label, n: nat)
  {
    b in p.blocks && n < Length(p.blocks[b]) && DefOf(VisitAt(p.blocks[b], n)).Some?
  }

  ghost predicate UniqueDefs(f: Func)
  {
    && (forall b, n: nat, c, m: nat :: Defines(f.p, b, n) && Defines(f.p, c, m) && (b, n) != (c, m) ==>
          DefOf(VisitAt(f.p.blocks[b], n)) != DefOf(VisitAt(f.p.blocks[c], m)))
    && (forall b, n: nat :: Defines(f.p, b, n) ==> DefOf(VisitAt(f.p.blocks[b], n)).value !in f.params)
  }

  /** Every register is defined before it is read, on all paths. */
  ghost predicate UsesDominated(f: Func)
  {
    forall b, n, r :: b in f.p.blocks && 0 <= n < Length(f.p.blocks[b]) && UsedBy(VisitAt(f.p.blocks[b], n), Var(r)) ==>
      InScope(f, b, n, r)
  }

  predicate ComesFrom(p: Program, b: Label, k: nat, from: Label)
  {
    b in p.blocks && from in p.blocks && k < |p.blocks[b].phis| && from in p.blocks[b].phis[k].incoming
  }

  /** What a PHI node reads over an edge is defined at the end of the block it comes from. */
  ghost predicate IncomingDominated(f: Func)
  {
    forall b, k: nat, from, r :: ComesFrom(f.p, b, k, from) && f.p.blocks[b].phis[k].incoming[from] == Var(r) ==>
      InScope(f, from, Length(f.p.blocks[from]), r)
  }

  ghost predicate Ssa(f: Func)
  {
    && f.entry in f.p.blocks && f.p.blocks[f.entry].phis == []
    && UniqueDefs(f) && UsesDominated(f) && IncomingDominated(f)
  }

  // ----- how scope moves -----

  lemma DefinedMore(p: Program, b: Label, n: nat, m: nat, r: Reg)
    requires n <= m && DefinedIn(p, b, n, r)
    ensures DefinedIn(p, b, m, r)
  {
  }

  lemma InScopeLater(f: Func, b: Label, n: nat, m: nat, r: Reg)
    requires n <= m && InScope(f, b, n, r)
    ensures InScope(f, b, m, r)
  {
    hide DefinedIn, DefinedThrough, Edge;
    if r !in f.params {
      forall path: seq<Label> | Path(f, path) && path[|path| - 1] == b
        ensures DefinedOn(f, path, m, r)
      {
        assert DefinedOn(f, path, n, r);
        if DefinedIn(f.p, b, n, r) {
          DefinedMore(f.p, b, n, m, r);
        }
      }
    }
  }

  /** What is in scope after some positions that do not define it is so before. */
  lemma InScopeBefore(f: Func, b: Label, n: nat, m: nat, r: Reg)
    requires b in f.p.blocks && n <= m && InScope(f, b, m, r)
    requires forall j :: n <= j < m && j < Length(f.p.blocks[b]) ==> DefOf(VisitAt(f.p.blocks[b], j)) != Some(r)
    ensures InScope(f, b, n, r)
  {
    hide DefinedThrough, Edge, VisitAt, DefOf;
    if r !in f.params {
      forall path: seq<Label> | Path(f, path) && path[|path| - 1] == b
        ensures DefinedOn(f, path, n, r)
      {
        assert DefinedOn(f, path, m, r);
        if DefinedIn(f.p, b, m, r) {
          NotDefinedBetween(f.p, b, n, m, r);
        }
      }
    }
  }

  lemma NotDefinedBetween(p: Program, b: Label, n: nat, m: nat, r: Reg)
    requires b in p.blocks && n <= m && DefinedIn(p, b, m, r)
    requires forall j :: n <= j < m && j < Length(p.blocks[b]) ==> DefOf(VisitAt(p.blocks[b], j)) != Some(r)
    ensures DefinedIn(p, b, n, r)
  {
    hide VisitAt, DefOf;
    var j :| 0 <= j < m && j < Length(p.blocks[b]) && DefOf(VisitAt(p.blocks[b], j)) == Some(r);
    assert j < n;
  }

  lemma PathSnoc(f: Func, path: seq<Label>, c: Label)
    requires Path(f, path) && Edge(f.p, path[|path| - 1], c)
    ensures Path(f, path + [c])
  {
    hide Edge;
    var longer := path + [c];
    forall i | 0 <= i < |longer| - 1
      ensures Edge(f.p, longer[i], longer[i + 1])
    {
      if i < |path| - 1 {
        assert longer[i] == path[i] && longer[i + 1] == path[i + 1];
      }
    }
  }

  /** What is in scope at the start of a block is so at the end of every predecessor. */
  lemma InScopeEdge(f: Func, b: Label, c: Label, r: Reg)
    requires Edge(f.p, b, c) && InScope(f, c, 0, r)
    ensures InScope(f, b, Length(f.p.blocks[b]), r)
  {
    hide DefinedThrough;
    if r !in f.params {
      forall path: seq<Label> | Path(f, path) && path[|path| - 1] == b
        ensures DefinedOn(f, path, Length(f.p.blocks[b]), r)
      {
        PathSnoc(f, path, c);
        var longer := path + [c];
        assert DefinedOn(f, longer, 0, r);
        var i :| 0 <= i < |longer| - 1 && DefinedThrough(f.p, longer[i], r);
        if i == |path| - 1 {
          assert longer[i] == b;
          assert DefinedIn(f.p, b, Length(f.p.blocks[b]), r) by { Through(f.p, b, r); }
        } else {
          assert longer[i] == path[i];
        }
      }
    }
  }

  lemma Through(p: Program, b: Label, r: Reg)
    requires DefinedThrough(p, b, r)
    ensures DefinedIn(p, b, Length(p.blocks[b]), r)
  {
  }

  /** Some path leads to the block. */
  ghost predicate Reachable(f: Func, b: Label)
  {
    exists path: seq<Label> :: Path(f, path) && path[|path| - 1] == b
  }

  lemma ReachableNext(f: Func, b: Label, c: Label)
    requires Reachable(f, b) && Edge(f.p, b, c)
    ensures Reachable(f, c)
  {
    hide Edge;
    var path: seq<Label> :| Path(f, path) && path[|path| - 1] == b;
    PathSnoc(f, path, c);
    assert (path + [c])[|path|] == c;
  }

  /** A path that arrives at its last block for the first time. */
  lemma {:induction false} FirstArrival(f: Func, path: seq<Label>) returns (first: seq<Label>)
    requires Path(f, path)
    ensures Path(f, first) && first[|first| - 1] == path[|path| - 1]
    ensures forall i :: 0 <= i < |first| - 1 ==> first[i] != first[|first| - 1]
    decreases |path|
  {
    hide Edge;
    var b := path[|path| - 1];
    if i :| 0 <= i < |path| - 1 && path[i] == b {
      first := FirstArrival(f, path[..i + 1]);
    } else {
      first := path;
    }
  }

  /** The only places after the definition. */
  lemma DefinedHere(f: Func, b: Label, n: nat, r: Reg, c: Label, m: nat)
    requires UniqueDefs(f) && b in f.p.blocks && n < Length(f.p.blocks[b])
    requires DefOf(VisitAt(f.p.blocks[b], n)) == Some(r)
    ensures DefinedIn(f.p, c, m, r) <==> c == b && n < m
    ensures DefinedThrough(f.p, c, r) <==> c == b
  {
    hide VisitAt, DefOf;
  }

  /** A definition does not dominate itself: on the first arrival it has not happened yet. */
  lemma NotYet(f: Func, b: Label, n: nat, r: Reg)
    requires UniqueDefs(f) && Reachable(f, b) && b in f.p.blocks && n < Length(f.p.blocks[b])
    requires DefOf(VisitAt(f.p.blocks[b], n)) == Some(r)
    ensures !InScope(f, b, n, r)
  {
    hide Edge, VisitAt, DefOf, DefinedIn, DefinedThrough;
    var path: seq<Label> :| Path(f, path) && path[|path| - 1] == b;
    var first := FirstArrival(f, path);
    assert r !in f.params by { ParamsApart(f, b, n, r); }
    DefinedHere(f, b, n, r, b, n);
    forall i | 0 <= i < |first| - 1
      ensures !DefinedThrough(f.p, first[i], r)
    {
      DefinedHere(f, b, n, r, first[i], 0);
    }
    assert !DefinedOn(f, first, n, r);
  }

  lemma ParamsApart(f: Func, b: Label, n: nat, r: Reg)
    requires UniqueDefs(f) && b in f.p.blocks && n < Length(f.p.blocks[b])
    requires DefOf(VisitAt(f.p.blocks[b], n)) == Some(r)
    ensures r !in f.params
  {
    hide VisitAt, DefOf;
  }

  /** Wherever a value is in scope, so is what was in scope at its definition. */
  lemma ScopeOfOperand(f: Func, b: Label, n: nat, r: Reg, q: Reg, c: Label, m: nat)
    requires UniqueDefs(f) && b in f.p.blocks && n < Length(f.p.blocks[b])
    requires DefOf(VisitAt(f.p.blocks[b], n)) == Some(r)
    requires InScope(f, b, n, q) && InScope(f, c, m, r)
    ensures InScope(f, c, m, q)
  {
    hide Edge, VisitAt, DefOf, DefinedIn, DefinedThrough, UniqueDefs;
    ParamsApart(f, b, n, r);
    if q !in f.params {
      forall path: seq<Label> | Path(f, path) && path[|path| - 1] == c
        ensures DefinedOn(f, path, m, q)
      {
        assert DefinedOn(f, path, m, r);
        DefinedHere(f, b, n, r, c, m);
        if i :| 0 <= i < |path| - 1 && DefinedThrough(f.p, path[i], r) {
          DefinedHere(f, b, n, r, path[i], 0);
          OperandOnPrefix(f, path, i, b, n, q);
        } else {
          assert DefinedOn(f, path, n, q);
          if DefinedIn(f.p, b, n, q) {
            DefinedMore(f.p, b, n, m, q);
          }
        }
      }
    }
  }

  lemma OperandOnPrefix(f: Func, path: seq<Label>, i: nat, b: Label, n: nat, q: Reg)
    requires Path(f, path) && i < |path| - 1 && path[i] == b && b in f.p.blocks && n < Length(f.p.blocks[b])
    requires q !in f.params && InScope(f, b, n, q)
    ensures exists k :: 0 <= k < |path| - 1 && DefinedThrough(f.p, path[k], q)
  {
    hide Edge, DefinedIn;
    var prefix := path[..i + 1];
    assert Path(f, prefix) && prefix[|prefix| - 1] == b;
    assert DefinedOn(f, prefix, n, q);
    if DefinedIn(f.p, b, n, q) {
      DefinedMore(f.p, b, n, Length(f.p.blocks[b]), q);
      assert DefinedThrough(f.p, path[i], q);
    } else {
      var k :| 0 <= k < |prefix| - 1 && DefinedThrough(f.p, prefix[k], q);
      assert prefix[k] == path[k];
    }
  }
}
