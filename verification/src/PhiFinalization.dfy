/** finalizePHINodes: each PHI node of the program gets a PHI node of expressions, filled in
    once all instructions have been visited; those that can only be null are erased. */
module PhiFinalization {
  import opened Options
  import opened Ir
  import opened Concolic
  import opened SymbolicCode

  /** symbolicExpressions: the inserted operand that holds a value's expression. Constants,
      and values that no expression was ever created for, have none. */
  type SymbolicExpressions = map<Reg, SymOperand>

  predicate Tracked(sym: SymbolicExpressions, o: Operand) { o.Var? && o.reg in sym }

  /** getSymbolicExpressionOrNull */
  function OperandOf(sym: SymbolicExpressions, o: Operand): SymOperand
  {
    if Tracked(sym, o) then sym[o.reg] else Null
  }

  /** A PHI node of the program with the register of its expression PHI. */
  datatype PhiNode = PhiNode(phi: Phi, reg: nat)

  predicate OnlyUntracked(sym: SymbolicExpressions, phi: Phi)
  {
    forall l :: l in phi.incoming ==> !Tracked(sym, phi.incoming[l])
  }

  /** The expression PHIs that receive compile-time null only. */
  function Erased(nodes: seq<PhiNode>, sym: SymbolicExpressions, k: nat): (r: set<nat>)
    requires k <= |nodes|
  {
    if k == 0 then {}
    else Erased(nodes, sym, k - 1) + (if OnlyUntracked(sym, nodes[k - 1].phi) then {nodes[k - 1].reg} else {})
  }

  lemma {:induction false} ErasedIs(nodes: seq<PhiNode>, sym: SymbolicExpressions, k: nat, r: nat)
    requires k <= |nodes|
    ensures r in Erased(nodes, sym, k)
            <==> exists i :: 0 <= i < k && nodes[i].reg == r && OnlyUntracked(sym, nodes[i].phi)
  {
    if k > 0 {
      ErasedIs(nodes, sym, k - 1, r);
    }
  }

  /** replaceAllUsesWith(null) for the erased nodes. */
  function Replace(erased: set<nat>, o: SymOperand): SymOperand
  {
    if o.ExprReg? && o.reg in erased then Null else o
  }

  function Incoming(sym: SymbolicExpressions, phi: Phi): map<Label, SymOperand>
  {
    map l | l in phi.incoming :: OperandOf(sym, phi.incoming[l])
  }

  /** The expression PHIs after the first loop. */
  function Filled(nodes: seq<PhiNode>, sym: SymbolicExpressions, k: nat): map<nat, map<Label, SymOperand>>
    requires k <= |nodes|
  {
    if k == 0 then map[]
    else
      var rest := Filled(nodes, sym, k - 1);
      if OnlyUntracked(sym, nodes[k - 1].phi) then rest
      else rest[nodes[k - 1].reg := Incoming(sym, nodes[k - 1].phi)]
  }

  type ExprPhis = map<nat, map<Label, SymOperand>>

  function ReplaceIncoming(erased: set<nat>, f: map<Label, SymOperand>): map<Label, SymOperand>
  {
    map l | l in f :: Replace(erased, f[l])
  }

  function ReplacePhis(erased: set<nat>, table: ExprPhis): ExprPhis
  {
    map r | r in table :: ReplaceIncoming(erased, table[r])
  }

  function ReplaceUses(erased: set<nat>, uses: seq<SymOperand>): (r: seq<SymOperand>)
    ensures |r| == |uses|
  {
    seq(|uses|, i requires 0 <= i < |uses| => Replace(erased, uses[i]))
  }

  /** Replacing one node after the other is replacing them all. */
  lemma ReplaceOneMore(done: set<nat>, r: nat, table: ExprPhis, uses: seq<SymOperand>)
    ensures ReplacePhis({r}, ReplacePhis(done, table)) == ReplacePhis(done + {r}, table)
    ensures ReplaceUses({r}, ReplaceUses(done, uses)) == ReplaceUses(done + {r}, uses)
  {
    forall q | q in table
      ensures ReplacePhis({r}, ReplacePhis(done, table))[q] == ReplacePhis(done + {r}, table)[q]
    {
      ReplaceIncomingTwice(done, r, table[q]);
    }
  }

  lemma ReplaceIncomingTwice(done: set<nat>, r: nat, f: map<Label, SymOperand>)
    ensures ReplaceIncoming({r}, ReplaceIncoming(done, f)) == ReplaceIncoming(done + {r}, f)
  {
  }

  lemma ReplaceNothing(table: ExprPhis, uses: seq<SymOperand>)
    ensures ReplacePhis({}, table) == table && ReplaceUses({}, uses) == uses
  {
    forall q | q in table
      ensures ReplacePhis({}, table)[q] == table[q]
    {
      assert ReplaceIncoming({}, table[q]) == table[q];
    }
  }

  /** The pass over the function's PHI nodes. */
  class Finalizer {
    var symbolicExpressions: SymbolicExpressions
    var exprPhis: ExprPhis
    var uses: seq<SymOperand>          // operands in the rest of the inserted code

    constructor (sym: SymbolicExpressions, operands: seq<SymOperand>)
      ensures symbolicExpressions == sym && exprPhis == map[] && uses == operands
    {
      symbolicExpressions, exprPhis, uses := sym, map[], operands;
    }

    method Finalize(nodes: seq<PhiNode>) returns (nodesToErase: set<nat>)
      requires exprPhis == map[]
      modifies this
      ensures nodesToErase == Erased(nodes, old(symbolicExpressions), |nodes|)
      ensures var sym := old(symbolicExpressions);
              var erased := Erased(nodes, sym, |nodes|);
              exprPhis == ReplacePhis(erased, Filled(nodes, sym, |nodes|)) && uses == ReplaceUses(erased, old(uses))
      ensures symbolicExpressions == map[]
    {
      hide ReplacePhis, ReplaceUses;
      nodesToErase := {};
      var i := 0;
      while i < |nodes|
        invariant 0 <= i <= |nodes| && symbolicExpressions == old(symbolicExpressions) && uses == old(uses)
        invariant nodesToErase == Erased(nodes, symbolicExpressions, i)
        invariant exprPhis == Filled(nodes, symbolicExpressions, i)
      {
        if OnlyUntracked(symbolicExpressions, nodes[i].phi) {
          nodesToErase := nodesToErase + {nodes[i].reg};
        } else {
          exprPhis := exprPhis[nodes[i].reg := Incoming(symbolicExpressions, nodes[i].phi)];
        }
        i := i + 1;
      }
      ghost var table := exprPhis;
      ReplaceNothing(table, uses);
      var pending := nodesToErase;
      ghost var done := {};
      while pending != {}
        invariant done + pending == nodesToErase
        invariant exprPhis == ReplacePhis(done, table) && uses == ReplaceUses(done, old(uses))
        decreases |pending|
      {
        var r :| r in pending;
        ReplaceOneMore(done, r, table, old(uses));
        exprPhis := ReplacePhis({r}, exprPhis);
        uses := ReplaceUses({r}, uses);
        pending := pending - {r};
        done := done + {r};
      }
      assert done == nodesToErase;
      symbolicExpressions := map[];
    }
  }

  // ----- meaning -----

  /** Where a value's expression is found after finalisation. */
  function Final(erased: set<nat>, sym: SymbolicExpressions, o: Operand): SymOperand
  {
    Replace(erased, OperandOf(sym, o))
  }

  /** The expression registers after a jump from `from`: all PHI nodes at once. */
  function EnterEnv(nodes: seq<PhiNode>, table: ExprPhis, from: Label, before: Env, env: Env): Env
  {
    if |nodes| == 0 then env
    else
      var rest := EnterEnv(nodes[..|nodes| - 1], table, from, before, env);
      var r := nodes[|nodes| - 1].reg;
      if r in table && from in table[r] then rest[r := Look(before, table[r][from])] else rest
  }

  predicate DistinctNodes(nodes: seq<PhiNode>)
  {
    forall i, j :: 0 <= i < j < |nodes| ==> nodes[i].reg != nodes[j].reg
  }

  lemma {:induction false} EnterAt(nodes: seq<PhiNode>, table: ExprPhis, from: Label, before: Env, env: Env, i: nat)
    requires DistinctNodes(nodes) && i < |nodes| && nodes[i].reg in table && from in table[nodes[i].reg]
    ensures Look(EnterEnv(nodes, table, from, before, env), ExprReg(nodes[i].reg))
            == Look(before, table[nodes[i].reg][from])
  {
    var front, last := nodes[..|nodes| - 1], nodes[|nodes| - 1];
    if i < |nodes| - 1 {
      EnterAt(front, table, from, before, env, i);
      assert front[i] == nodes[i] && last.reg != nodes[i].reg;
    }
  }

  lemma {:induction false} EnterElsewhere(nodes: seq<PhiNode>, table: ExprPhis, from: Label, before: Env, env: Env,
                                          r: nat)
    requires forall i :: 0 <= i < |nodes| ==> nodes[i].reg != r
    ensures Look(EnterEnv(nodes, table, from, before, env), ExprReg(r)) == Look(env, ExprReg(r))
  {
    if |nodes| > 0 {
      EnterElsewhere(nodes[..|nodes| - 1], table, from, before, env, r);
    }
  }

  lemma {:induction false} FilledAt(nodes: seq<PhiNode>, sym: SymbolicExpressions, k: nat, i: nat)
    requires DistinctNodes(nodes) && i < k <= |nodes| && !OnlyUntracked(sym, nodes[i].phi)
    ensures nodes[i].reg in Filled(nodes, sym, k) && Filled(nodes, sym, k)[nodes[i].reg] == Incoming(sym, nodes[i].phi)
  {
    if i < k - 1 {
      FilledAt(nodes, sym, k - 1, i);
    }
  }

  /** PHI finalisation preserves meaning: `all` are the function's PHI nodes, `nodes` those
      of the block entered. If the finalised operands give the right expressions before the
      jump, then after it each PHI node's finalised operand is the expression of the value
      that came in over the edge taken, be it erased or not and even if PHI nodes refer to
      each other or to themselves. */
  lemma FinalizeKeepsMeaning(all: seq<PhiNode>, nodes: seq<PhiNode>, sym: SymbolicExpressions, from: Label,
                             env: Env, exprs: Exprs, i: nat, n: nat)
    requires DistinctNodes(all) && DistinctNodes(nodes) && i < |nodes| && n < |all| && all[n] == nodes[i]
    requires from in nodes[i].phi.incoming && nodes[i].phi.dst in sym && sym[nodes[i].phi.dst] == ExprReg(nodes[i].reg)
    requires var erased := Erased(all, sym, |all|);
             Look(env, Final(erased, sym, nodes[i].phi.incoming[from])) == ExprOf(exprs, nodes[i].phi.incoming[from])
    ensures var erased := Erased(all, sym, |all|);
            var table := ReplacePhis(erased, Filled(all, sym, |all|));
            Look(EnterEnv(nodes, table, from, env, env), Final(erased, sym, Var(nodes[i].phi.dst)))
            == ExprOf(exprs, nodes[i].phi.incoming[from])
  {
    hide Look, EnterEnv, Filled, ExprOf;
    var node := nodes[i];
    var o := node.phi.incoming[from];
    var erased := Erased(all, sym, |all|);
    var filled := Filled(all, sym, |all|);
    var table := ReplacePhis(erased, filled);
    ErasedIs(all, sym, |all|, node.reg);
    if OnlyUntracked(sym, node.phi) {
      assert node.reg in erased;
      assert Final(erased, sym, Var(node.phi.dst)) == Null == Final(erased, sym, o);
      NullIsNone(EnterEnv(nodes, table, from, env, env), env);
    } else {
      assert node.reg !in erased;
      FilledAt(all, sym, |all|, n);
      assert table[node.reg] == ReplaceIncoming(erased, Incoming(sym, node.phi));
      assert table[node.reg][from] == Final(erased, sym, o);
      EnterAt(nodes, table, from, env, env, i);
    }
  }

  lemma NullIsNone(env: Env, env': Env)
    ensures Look(env, Null) == None == Look(env', Null)
  {
  }

  /** Registers that are not PHI nodes of the block keep their expression. */
  lemma FinalizeKeepsOthers(nodes: seq<PhiNode>, table: ExprPhis, erased: set<nat>, sym: SymbolicExpressions,
                            from: Label, env: Env, o: Operand)
    requires forall i :: 0 <= i < |nodes| ==> OperandOf(sym, o) != ExprReg(nodes[i].reg)
    ensures Look(EnterEnv(nodes, table, from, env, env), Final(erased, sym, o)) == Look(env, Final(erased, sym, o))
  {
    hide EnterEnv;
    if Final(erased, sym, o).ExprReg? {
      EnterElsewhere(nodes, table, from, env, env, Final(erased, sym, o).reg);
    }
  }
}
