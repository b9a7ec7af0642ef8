/** The pass over a whole function: every PHI node, instruction and terminator is visited
    once, in some order, before the PHI nodes are finalised and the computations
    short-circuited. What the pass knows at the end, and where expressions are kept. */
module FunctionPass {
  import opened Options
  import opened Ir
  import opened SymbolicCode
  import opened ShortCircuit
  import opened PhiFinalization
  import opened Instrumentation
  import opened GepInstrumentation
  import opened Recording
  import opened Emission
  import opened Scope

  datatype Point = Point(block: Label, pos: nat)

  predicate ValidPoint(p: Program, pt: Point) { pt.block in p.blocks && pt.pos < Length(p.blocks[pt.block]) }

  function VisitOf(p: Program, pt: Point): Visit
    requires ValidPoint(p, pt)
  {
    VisitAt(p.blocks[pt.block], pt.pos)
  }

  /** The order of visits names every point of the function once. */
  predicate Complete(p: Program, order: seq<Point>)
  {
    && (forall j :: 0 <= j < |order| ==> ValidPoint(p, order[j]))
    && (forall i, j :: 0 <= i < j < |order| ==> order[i] != order[j])
    && (forall b, n: nat :: b in p.blocks && n < Length(p.blocks[b]) ==> Point(b, n) in order)
  }

  /** The points of a block, and of all blocks one after the other. */
  function BlockPoints(p: Program, b: Label): seq<Point>
  {
    if b in p.blocks then seq(Length(p.blocks[b]), n requires 0 <= n => Point(b, n)) else []
  }

  function LayoutOrder(p: Program, layout: seq<Label>): seq<Point>
  {
    if |layout| == 0 then [] else LayoutOrder(p, layout[..|layout| - 1]) + BlockPoints(p, layout[|layout| - 1])
  }

  lemma {:induction false} LayoutPoints(p: Program, layout: seq<Label>, pt: Point)
    ensures pt in LayoutOrder(p, layout) <==> pt.block in layout && ValidPoint(p, pt)
  {
    if |layout| > 0 {
      var front, last := layout[..|layout| - 1], layout[|layout| - 1];
      LayoutPoints(p, front, pt);
      assert layout == front + [last];
      assert pt in BlockPoints(p, last) <==> pt.block == last && ValidPoint(p, pt) by {
        if pt.block == last && ValidPoint(p, pt) {
          assert BlockPoints(p, last)[pt.pos] == pt;
        }
      }
    }
  }

  lemma {:induction false} LayoutDistinct(p: Program, layout: seq<Label>, i: nat, j: nat)
    requires forall a, b :: 0 <= a < b < |layout| ==> layout[a] != layout[b]
    requires i < j < |LayoutOrder(p, layout)|
    ensures LayoutOrder(p, layout)[i] != LayoutOrder(p, layout)[j]
  {
    var front, last := layout[..|layout| - 1], layout[|layout| - 1];
    var n := |LayoutOrder(p, front)|;
    if j < n {
      LayoutDistinct(p, front, i, j);
    } else if i < n {
      LayoutPoints(p, front, LayoutOrder(p, front)[i]);
      assert LayoutOrder(p, layout)[i] == LayoutOrder(p, front)[i];
      assert LayoutOrder(p, layout)[j] == BlockPoints(p, last)[j - n];
      assert last !in front;
    } else {
      assert LayoutOrder(p, layout)[i] == BlockPoints(p, last)[i - n];
      assert LayoutOrder(p, layout)[j] == BlockPoints(p, last)[j - n];
    }
  }

  /** Block by block, in any layout of the function, is such an order. */
  lemma LayoutComplete(p: Program, layout: seq<Label>)
    requires forall a, b :: 0 <= a < b < |layout| ==> layout[a] != layout[b]
    requires forall b :: b in p.blocks ==> b in layout
    ensures Complete(p, LayoutOrder(p, layout))
  {
    var order := LayoutOrder(p, layout);
    forall j | 0 <= j < |order|
      ensures ValidPoint(p, order[j])
    {
      LayoutPoints(p, layout, order[j]);
    }
    forall i, j | 0 <= i < j < |order|
      ensures order[i] != order[j]
    {
      LayoutDistinct(p, layout, i, j);
    }
    forall b, n: nat | b in p.blocks && n < Length(p.blocks[b])
      ensures Point(b, n) in order
    {
      LayoutPoints(p, layout, Point(b, n));
    }
  }

  /** Every definition is visited before the instructions that use it; PHI nodes may use
      values that are visited later. */
  ghost predicate DefinedFirst(p: Program, order: seq<Point>)
    requires Complete(p, order)
  {
    forall i, j, r: Reg :: 0 <= j <= i < |order| && UsedBy(VisitOf(p, order[j]), Var(r)) ==>
      DefOf(VisitOf(p, order[i])) != Some(r)
  }

  // ----- visiting -----

  /** visitPHINode only reserves the register; its operands come with finalisation. */
  function EmitVisit(types: Types, pass: Pass, v: Visit): Emitted
  {
    match v
    case VisitPhi(phi) => Emitted(Fresh(pass, phi.dst), [])
    case VisitInstr(i) => EmitInstr(types, pass, i)
    case VisitTerm(t) => EmitTerm(pass, t)
  }

  /** A function with what the pass starts from: the arguments' expressions. */
  datatype Compilation = Compilation(f: Func, types: Types, order: seq<Point>, start: Pass)

  ghost predicate Valid(t: Compilation)
  {
    && Ssa(t.f) && Complete(t.f.p, t.order)
    && SymBelow(t.start.sym, t.start.next) && t.start.sym.Keys <= t.f.params
  }

  /** The pass after the first `j` visits. */
  function PassAt(t: Compilation, j: nat): Pass
    requires Complete(t.f.p, t.order) && j <= |t.order|
  {
    if j == 0 then t.start else EmitVisit(t.types, PassAt(t, j - 1), VisitOf(t.f.p, t.order[j - 1])).pass
  }

  function FinalSym(t: Compilation): SymbolicExpressions
    requires Complete(t.f.p, t.order)
  {
    PassAt(t, |t.order|).sym
  }

  /** `phiNodes`, in the order visited. */
  function Nodes(t: Compilation, j: nat): seq<PhiNode>
    requires Complete(t.f.p, t.order) && j <= |t.order|
  {
    if j == 0 then []
    else
      match VisitOf(t.f.p, t.order[j - 1])
      case VisitPhi(phi) => Nodes(t, j - 1) + [PhiNode(phi, PassAt(t, j - 1).next)]
      case _ => Nodes(t, j - 1)
  }

  function ErasedNodes(t: Compilation): set<nat>
    requires Complete(t.f.p, t.order)
  {
    var nodes := Nodes(t, |t.order|);
    Erased(nodes, FinalSym(t), |nodes|)
  }

  // ----- registers -----

  lemma RegisterGrows(pass: Pass, dst: Reg, comp: Option<Computation>)
    ensures Register(pass, dst, comp).pass.next >= pass.next
  {
  }

  lemma InstrGrows(types: Types, pass: Pass, i: Instr)
    ensures EmitInstr(types, pass, i).pass.next >= pass.next
  {
    hide VisitBinary, VisitCast, VisitGep, Register, EmitPush, EmitChoice;
    match i
    case BinInstr(dst, _, _, _) => RegisterGrows(pass, dst, VisitBinary(pass.sym, i));
    case BoolInstr(dst, _, _, _) => RegisterGrows(pass, dst, VisitBinary(pass.sym, i));
    case CmpInstr(dst, _, _, _) => RegisterGrows(pass, dst, VisitBinary(pass.sym, i));
    case CastInstr(dst, kind, a, width) =>
      RegisterGrows(pass, dst, VisitCast(pass.sym, kind, a, TypeOf(types, a), width));
    case SelectInstr(dst, cond, a, b) =>
      SymUnchanged(pass, cond);
      ChoiceGrows(EmitPush(pass, cond).pass, dst, cond, a, b);
    case GepInstr(dst, base, path) =>
      match VisitGep(pass.sym, base, path) {
        case Recorded(comp) => RegisterGrows(pass, dst, Some(comp));
        case _ =>
      }
    case _ =>
  }

  lemma VisitGrows(types: Types, pass: Pass, v: Visit)
    ensures EmitVisit(types, pass, v).pass.next >= pass.next
  {
    hide EmitInstr;
    match v
    case VisitInstr(i) => InstrGrows(types, pass, i);
    case VisitTerm(CondBr(cond, _, _)) => SymUnchanged(pass, cond);
    case _ =>
  }

  lemma {:induction false} NextGrows(t: Compilation, i: nat, j: nat)
    requires Complete(t.f.p, t.order) && i <= j <= |t.order|
    ensures PassAt(t, i).next <= PassAt(t, j).next
  {
    hide EmitVisit, Complete;
    if i < j {
      NextGrows(t, i, j - 1);
      PassStep(t, j - 1);
      VisitGrows(t.types, PassAt(t, j - 1), VisitOf(t.f.p, t.order[j - 1]));
    }
  }

  lemma PassStep(t: Compilation, j: nat)
    requires Complete(t.f.p, t.order) && j < |t.order|
    ensures ValidPoint(t.f.p, t.order[j])
    ensures PassAt(t, j + 1) == EmitVisit(t.types, PassAt(t, j), VisitOf(t.f.p, t.order[j])).pass
  {
    hide EmitVisit;
  }

  /** The visit that a register was given out at is determined. */
  lemma SameVisit(t: Compilation, i: nat, j: nat, x: nat)
    requires Complete(t.f.p, t.order) && i < |t.order| && j < |t.order|
    requires PassAt(t, i).next <= x < PassAt(t, i + 1).next && PassAt(t, j).next <= x < PassAt(t, j + 1).next
    ensures i == j
  {
    hide PassAt, Complete;
    if i < j {
      NextGrows(t, i + 1, j);
    } else if j < i {
      NextGrows(t, j + 1, i);
    }
  }

  // ----- which expressions a visit changes -----

  /** Both maps say the same about `r`. */
  predicate Same(sym: SymbolicExpressions, sym': SymbolicExpressions, r: Reg)
  {
    (r in sym <==> r in sym') && (r in sym && r in sym' ==> sym[r] == sym'[r])
  }

  lemma OnlyDst(types: Types, pass: Pass, v: Visit, r: Reg)
    requires DefOf(v) != Some(r)
    ensures Same(pass.sym, EmitVisit(types, pass, v).pass.sym, r)
  {
    hide LayoutOf, VisitBinary, VisitCast, VisitGep, TypeOf;
  }

  /** The new value gets a register of its own, or shares the expression of an operand. */
  lemma NewOrShared(types: Types, pass: Pass, v: Visit, d: Reg)
    requires DefOf(v) == Some(d) && d !in pass.sym
    ensures var e := EmitVisit(types, pass, v);
            d in e.pass.sym ==>
              || (e.pass.sym[d].ExprReg? && pass.next <= e.pass.sym[d].reg < e.pass.next)
              || (exists o: Operand :: UsedBy(v, o) && Tracked(pass.sym, o) && e.pass.sym[d] == pass.sym[o.reg])
  {
    hide VisitBinary, VisitCast, VisitGep, TypeOf;
    if v.VisitInstr? {
      match v.instr
      case CopyInstr(dst, a) => assert UsedBy(v, a);
      case GepInstr(dst, base, path) => assert UsedBy(v, base);
      case _ =>
    }
  }

  lemma {:induction false} SymStable(t: Compilation, i: nat, j: nat, r: Reg)
    requires Complete(t.f.p, t.order) && i <= j <= |t.order|
    requires forall k :: i <= k < j ==> DefOf(VisitOf(t.f.p, t.order[k])) != Some(r)
    ensures Same(PassAt(t, i).sym, PassAt(t, j).sym, r)
  {
    hide EmitVisit, DefOf, VisitOf, Complete;
    if i < j {
      SymStable(t, i, j - 1, r);
      PassStep(t, j - 1);
      OnlyDst(t.types, PassAt(t, j - 1), VisitOf(t.f.p, t.order[j - 1]), r);
    }
  }

  lemma {:induction false} SymsBelow(t: Compilation, j: nat)
    requires Complete(t.f.p, t.order) && j <= |t.order| && SymBelow(t.start.sym, t.start.next)
    ensures SymBelow(PassAt(t, j).sym, PassAt(t, j).next)
  {
    hide EmitVisit, Complete;
    if j > 0 {
      SymsBelow(t, j - 1);
      PassStep(t, j - 1);
      VisitBelow(t.types, PassAt(t, j - 1), VisitOf(t.f.p, t.order[j - 1]));
    }
  }

  lemma VisitBelow(types: Types, pass: Pass, v: Visit)
    requires SymBelow(pass.sym, pass.next)
    ensures var e := EmitVisit(types, pass, v); SymBelow(e.pass.sym, e.pass.next)
  {
    hide VisitBinary, VisitCast, VisitGep, TypeOf;
  }

  // ----- one definition each -----

  lemma VisitedOnce(t: Compilation, i: nat, j: nat, r: Reg)
    requires Ssa(t.f) && Complete(t.f.p, t.order) && i < |t.order| && j < |t.order|
    requires DefOf(VisitOf(t.f.p, t.order[i])) == DefOf(VisitOf(t.f.p, t.order[j])) == Some(r)
    ensures i == j
  {
    hide VisitAt, DefOf, UsesDominated, IncomingDominated;
    var x, y := t.order[i], t.order[j];
    assert Defines(t.f.p, x.block, x.pos) && Defines(t.f.p, y.block, y.pos);
  }

  /** Before its definition is visited, a value is not known to the pass. */
  lemma NotKnownBefore(t: Compilation, j: nat, d: Reg)
    requires Valid(t) && j < |t.order| && DefOf(VisitOf(t.f.p, t.order[j])) == Some(d)
    ensures d !in PassAt(t, j).sym && d !in t.f.params
  {
    hide VisitAt, DefOf, UsesDominated, IncomingDominated, EmitVisit, SymBelow;
    var x := t.order[j];
    assert Defines(t.f.p, x.block, x.pos);
    forall k | 0 <= k < j
      ensures DefOf(VisitOf(t.f.p, t.order[k])) != Some(d)
    {
      if DefOf(VisitOf(t.f.p, t.order[k])) == Some(d) {
        VisitedOnce(t, k, j, d);
      }
    }
    SymStable(t, 0, j, d);
  }

  /** After its definition is visited, what the pass knows about a value is final. */
  lemma FinalAfter(t: Compilation, j: nat, d: Reg)
    requires Valid(t) && j < |t.order| && DefOf(VisitOf(t.f.p, t.order[j])) == Some(d)
    ensures Same(PassAt(t, j + 1).sym, FinalSym(t), d)
  {
    hide VisitAt, DefOf, Ssa, EmitVisit, SymBelow, VisitOf;
    forall k | j + 1 <= k < |t.order|
      ensures DefOf(VisitOf(t.f.p, t.order[k])) != Some(d)
    {
      if DefOf(VisitOf(t.f.p, t.order[k])) == Some(d) {
        VisitedOnce(t, k, j, d);
      }
    }
    SymStable(t, j + 1, |t.order|, d);
  }

  /** At any visit, what the pass knows about a value is final, or it knows nothing yet of a
      value that will have an expression. */
  lemma FinalOrLate(t: Compilation, j: nat, r: Reg)
    requires Valid(t) && j <= |t.order|
    ensures Same(PassAt(t, j).sym, FinalSym(t), r) || (r !in PassAt(t, j).sym && r in FinalSym(t))
  {
    hide VisitAt, DefOf, Ssa, EmitVisit, SymBelow, VisitOf;
    if i :| 0 <= i < |t.order| && DefOf(VisitOf(t.f.p, t.order[i])) == Some(r) {
      NotKnownBefore(t, i, r);
      if i < j {
        FinalAfter(t, i, r);
        DefinedOnce(t, i, r);
        SymStable(t, i + 1, j, r);
      } else {
        DefinedOnce(t, i, r);
        SymStable(t, j, i, r);
      }
    } else {
      SymStable(t, j, |t.order|, r);
    }
  }

  lemma DefinedOnce(t: Compilation, i: nat, r: Reg)
    requires Ssa(t.f) && Complete(t.f.p, t.order) && i < |t.order| && DefOf(VisitOf(t.f.p, t.order[i])) == Some(r)
    ensures forall k :: 0 <= k < |t.order| && k != i ==> DefOf(VisitOf(t.f.p, t.order[k])) != Some(r)
  {
    hide VisitAt, DefOf, Ssa, VisitOf;
    forall k | 0 <= k < |t.order| && k != i
      ensures DefOf(VisitOf(t.f.p, t.order[k])) != Some(r)
    {
      if DefOf(VisitOf(t.f.p, t.order[k])) == Some(r) {
        VisitedOnce(t, k, i, r);
      }
    }
  }

  /** The values that will have an expression, but of which the pass knows nothing yet. */
  function Late(t: Compilation, j: nat): set<Reg>
    requires Complete(t.f.p, t.order) && j <= |t.order|
  {
    set r | r in FinalSym(t) && r !in PassAt(t, j).sym
  }

  /** What the pass knows about every operand when it visits the use is final. */
  ghost predicate KnowsFinally(t: Compilation)
    requires Complete(t.f.p, t.order)
  {
    forall j, r: Reg :: 0 <= j < |t.order| && UsedBy(VisitOf(t.f.p, t.order[j]), Var(r)) ==>
      Same(PassAt(t, j).sym, FinalSym(t), r)
  }

  /** A value whose definition is visited at or after a use of it has no expression in the end. */
  ghost predicate LateUntracked(t: Compilation)
    requires Complete(t.f.p, t.order)
  {
    forall i, j, r: Reg :: 0 <= j <= i < |t.order| && r in FinalSym(t) && UsedBy(VisitOf(t.f.p, t.order[j]), Var(r)) ==>
      DefOf(VisitOf(t.f.p, t.order[i])) != Some(r)
  }

  /** A late value that has an expression in the end is unknown at the use. */
  lemma LateLost(t: Compilation, i: nat, j: nat, r: Reg)
    requires Valid(t) && j <= i < |t.order| && DefOf(VisitOf(t.f.p, t.order[i])) == Some(r)
    ensures r !in PassAt(t, j).sym
  {
    hide VisitAt, DefOf, Ssa, EmitVisit, SymBelow, VisitOf;
    NotKnownBefore(t, i, r);
    DefinedOnce(t, i, r);
    SymStable(t, j, i, r);
  }

  /** If no late value ends up with an expression, what the pass knows at a use is final. */
  lemma FinalAtUse(t: Compilation, j: nat, r: Reg)
    requires Valid(t) && LateUntracked(t) && j < |t.order| && UsedBy(VisitOf(t.f.p, t.order[j]), Var(r))
    ensures Same(PassAt(t, j).sym, FinalSym(t), r)
  {
    hide VisitAt, DefOf, Ssa, EmitVisit, SymBelow, VisitOf, UsedBy, PassAt;
    FinalOrLate(t, j, r);
    if r in FinalSym(t) {
      forall k | j <= k < |t.order|
        ensures DefOf(VisitOf(t.f.p, t.order[k])) != Some(r)
      {
      }
      SymStable(t, j, |t.order|, r);
    }
  }

  /** The pass knows every operand finally when it visits the use if and only if no late
      value ends up with an expression. */
  lemma LayoutExact(t: Compilation)
    requires Valid(t)
    ensures KnowsFinally(t) <==> LateUntracked(t)
  {
    hide VisitAt, DefOf, Ssa, EmitVisit, SymBelow, VisitOf, UsedBy, PassAt, FinalSym;
    if LateUntracked(t) {
      forall j, r: Reg | 0 <= j < |t.order| && UsedBy(VisitOf(t.f.p, t.order[j]), Var(r))
        ensures Same(PassAt(t, j).sym, FinalSym(t), r)
      {
        FinalAtUse(t, j, r);
      }
    }
    if KnowsFinally(t) {
      forall i, j, r: Reg | 0 <= j <= i < |t.order| && UsedBy(VisitOf(t.f.p, t.order[j]), Var(r))
                            && DefOf(VisitOf(t.f.p, t.order[i])) == Some(r)
        ensures r !in FinalSym(t)
      {
        LateLost(t, i, j, r);
      }
    }
  }

  /** Definitions first is enough. */
  lemma FirstIsEnough(t: Compilation)
    requires Complete(t.f.p, t.order) && DefinedFirst(t.f.p, t.order)
    ensures LateUntracked(t)
  {
    hide VisitAt, DefOf, UsedBy, VisitOf, FinalSym;
  }

  // ----- whose register an expression is in -----

  /** Register `x` was given out when `q` was visited, and `q` is in scope wherever `r` is. */
  ghost predicate RootAt(t: Compilation, j: nat, r: Reg, x: nat, q: Reg)
    requires Complete(t.f.p, t.order) && j < |t.order|
  {
    && PassAt(t, j).next <= x < PassAt(t, j + 1).next && DefOf(VisitOf(t.f.p, t.order[j])) == Some(q)
    && forall b, n: nat :: InScope(t.f, b, n, r) ==> InScope(t.f, b, n, q)
  }

  ghost predicate Rooted(t: Compilation, r: Reg, x: nat)
    requires Complete(t.f.p, t.order)
  {
    x < t.start.next || exists j, q :: 0 <= j < |t.order| && RootAt(t, j, r, x, q)
  }

  lemma SharedRoot(t: Compilation, j: nat, d: Reg, r: Reg, x: nat)
    requires Valid(t) && j < |t.order| && DefOf(VisitOf(t.f.p, t.order[j])) == Some(d)
    requires UsedBy(VisitOf(t.f.p, t.order[j]), Var(r)) && Rooted(t, r, x)
    ensures Rooted(t, d, x)
  {
    hide DefOf, UsedBy, PassAt, VisitAt, SymBelow;
    if x >= t.start.next {
      var i, q :| 0 <= i < |t.order| && RootAt(t, i, r, x, q);
      var pt := t.order[j];
      assert InScope(t.f, pt.block, pt.pos, r);
      forall b, n: nat | InScope(t.f, b, n, d)
        ensures InScope(t.f, b, n, q)
      {
        ScopeOfOperand(t.f, pt.block, pt.pos, d, r, b, n);
      }
      assert RootAt(t, i, d, x, q);
    }
  }

  lemma {:induction false} AllRooted(t: Compilation, j: nat, r: Reg)
    requires Valid(t) && j <= |t.order| && r in PassAt(t, j).sym && PassAt(t, j).sym[r].ExprReg?
    ensures Rooted(t, r, PassAt(t, j).sym[r].reg)
  {
    hide EmitVisit, DefOf, UsedBy, VisitAt, Ssa;
    if j > 0 {
      PassStep(t, j - 1);
      var v := VisitOf(t.f.p, t.order[j - 1]);
      if DefOf(v) == Some(r) {
        NotKnownBefore(t, j - 1, r);
        NewOrShared(t.types, PassAt(t, j - 1), v, r);
        var x := PassAt(t, j).sym[r].reg;
        if PassAt(t, j - 1).next <= x < PassAt(t, j).next {
          assert RootAt(t, j - 1, r, x, r);
        } else {
          var o :| UsedBy(v, o) && Tracked(PassAt(t, j - 1).sym, o)
                   && PassAt(t, j).sym[r] == PassAt(t, j - 1).sym[o.reg];
          AllRooted(t, j - 1, o.reg);
          SharedRoot(t, j - 1, r, o.reg, x);
        }
      } else {
        OnlyDst(t.types, PassAt(t, j - 1), v, r);
        AllRooted(t, j - 1, r);
      }
    }
  }

  /** A value in scope before a visit is not kept in a register given out at that visit. */
  lemma NotOverwritten(t: Compilation, j: nat, r: Reg, x: nat)
    requires Valid(t) && j < |t.order| && Reachable(t.f, t.order[j].block)
    requires InScope(t.f, t.order[j].block, t.order[j].pos, r) && OperandOf(FinalSym(t), Var(r)) == ExprReg(x)
    ensures x < PassAt(t, j).next || PassAt(t, j + 1).next <= x
  {
    hide EmitVisit, VisitAt, InScope, Reachable, UsesDominated, IncomingDominated;
    AllRooted(t, |t.order|, r);
    NextGrows(t, 0, j);
    if PassAt(t, j).next <= x < PassAt(t, j + 1).next {
      var i, q :| 0 <= i < |t.order| && RootAt(t, i, r, x, q);
      SameVisit(t, i, j, x);
      NotYet(t.f, t.order[j].block, t.order[j].pos, q);
      assert false;
    }
  }
}
