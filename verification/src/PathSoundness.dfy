/** The theorem concolic execution rests on: an input that satisfies the pushed constraints
    repeats the run, with every register and memory byte as its expression says. */
module PathSoundness {
  import opened Options
  import opened BitVectors
  import opened Expressions
  import opened FlatMemory
  import opened Constraints
  import opened SwitchBatch
  import opened Gep
  import opened GepExactness
  import opened Ir
  import opened Concolic

  // ----- the invariant -----

  /** Register values that the instrumentation can represent as constants. */
  predicate OkValue(v: Value) { v.Bv? ==> 2 <= |v.bits| && PlainWidth(|v.bits|) }

  ghost predicate OkRegs(regs: Regs) { forall r :: r in regs ==> OkValue(regs[r]) }

  ghost predicate RegAgrees(regs: Regs, exprs: Exprs, j: Input, regs': Regs, r: Reg)
  {
    && (r in regs <==> r in regs')
    && (r in exprs ==> r in regs)
    && (r in regs && r in regs' ==> ValuePredicted(RegExpr(exprs, r), regs[r], j, regs'[r]))
  }

  ghost predicate RegsAgree(regs: Regs, exprs: Exprs, j: Input, regs': Regs)
  {
    forall r: Reg :: RegAgrees(regs, exprs, j, regs', r)
  }

  /** State `c'` of a run on input `j` is what the instrumented state `s` predicts: the same
      control, and every value its expression on `j`, or the recorded one where that is null. */
  ghost predicate Agrees(s: Sym, c': State, j: Input)
  {
    && c'.ctl == s.c.ctl && c'.pos == s.c.pos
    && RegsAgree(s.c.regs, s.exprs, j, c'.regs)
    && Predicts(s.shadow, s.c.mem, j, c'.mem)
  }

  // ----- the supported programs -----

  predicate OkOperand(o: Operand) { o.Lit? ==> OkValue(o.value) }

  /** An index path as the compiler sees it. */
  function ShapeOf(g: GepStep): GepShape
  {
    match g
    case Member(index, offset) => MemberShape(index, offset)
    case Index(o, width, elementSize) =>
      IndexShape(width,
                 match o case Lit(Bv(bits)) => Some(bits) case Lit(Boolean(b)) => Some([b]) case Var(_) => None,
                 elementSize)
  }

  function ShapesOf(path: seq<GepStep>): (r: seq<GepShape>)
    ensures |r| == |path|
  {
    seq(|path|, k requires 0 <= k < |path| => ShapeOf(path[k]))
  }

  /** The index paths that are always computed right. */
  predicate OkPath(path: seq<GepStep>)
  {
    ValidShapes(ShapesOf(path)) && (AllZeroShapes(ShapesOf(path)) || Fits(ShapesOf(path)))
  }

  /** Casts are to representable widths. */
  predicate OkInstr(i: Instr)
  {
    match i
    case BinInstr(_, _, a, b) => OkOperand(a) && OkOperand(b)
    case BoolInstr(_, _, a, b) => OkOperand(a) && OkOperand(b)
    case CmpInstr(_, _, a, b) => OkOperand(a) && OkOperand(b)
    case CastInstr(_, _, a, width) => OkOperand(a) && PlainWidth(width)
    case CopyInstr(_, a) => OkOperand(a)
    case SelectInstr(_, c, a, b) => OkOperand(c) && OkOperand(a) && OkOperand(b)
    case LoadInstr(_, addr, n) => OkOperand(addr) && PlainWidth(8 * n)
    case StoreInstr(addr, a, _) => OkOperand(addr) && OkOperand(a)
    case GepInstr(_, base, path) => OkOperand(base) && OkPath(path)
    case MoveInstr(x, y, n) => OkOperand(x) && OkOperand(y) && OkOperand(n)
    case FillInstr(x, a, n) => OkOperand(x) && OkOperand(a) && OkOperand(n)
    case ReadInstr(_, x, n) => OkOperand(x) && OkOperand(n)
  }

  predicate OkPhi(phi: Phi) { forall l :: l in phi.incoming ==> OkOperand(phi.incoming[l]) }

  predicate OkTerm(t: Terminator)
  {
    match t
    case Jump(_) => true
    case CondBr(c, _, _) => OkOperand(c)
    case Switch(c, values, _, _) => OkOperand(c) && forall k :: 0 <= k < |values| ==> OkValue(values[k])
    case Ret(o) => OkOperand(o)
  }

  predicate OkBlock(b: Block)
  {
    && (forall k :: 0 <= k < |b.phis| ==> OkPhi(b.phis[k]))
    && (forall k :: 0 <= k < |b.body| ==> OkInstr(b.body[k]))
    && OkTerm(b.term)
  }

  predicate OkProgram(p: Program) { forall l :: l in p.blocks ==> OkBlock(p.blocks[l]) }

  // ----- operands -----

  /** What an operand's value becomes on the other input. */
  ghost predicate OperandPredicted(e: SymExpr, v: Option<Value>, j: Input, v': Option<Value>)
  {
    match (v, v')
    case (Some(x), Some(y)) => ValuePredicted(e, x, j, y) && OkValue(x) && SortOfValue(x) == SortOfValue(y)
    case (None, None) => true
    case _ => false
  }

  lemma GetPredicted(s: Sym, c': State, j: Input, o: Operand)
    requires RegsAgree(s.c.regs, s.exprs, j, c'.regs) && OkRegs(s.c.regs) && OkOperand(o)
    ensures OperandPredicted(ExprOf(s.exprs, o), Get(s.c.regs, o), j, Get(c'.regs, o))
  {
    if o.Var? {
      assert RegAgrees(s.c.regs, s.exprs, j, c'.regs, o.reg);
    }
  }

  /** Storing a predicted result keeps the agreement. */
  lemma DefineAgrees(s: Sym, c': State, j: Input, dst: Reg, e: SymExpr, v: Option<Value>, v': Option<Value>,
                     path: seq<Constraint>)
    requires Agrees(s, c', j) && OkRegs(s.c.regs) && OperandPredicted(e, v, j, v')
    ensures var c2 := Define(s.c, dst, v);
            OkRegs(c2.regs)
            && Agrees(Sym(c2, if v.None? then s.exprs else SetExpr(s.exprs, dst, e), s.shadow, path),
                      Define(c', dst, v'), j)
  {
    hide Predicts, SortOf, Eval;
    if v.Some? {
      var regs, exprs, regs' := s.c.regs[dst := v.value], SetExpr(s.exprs, dst, e), c'.regs[dst := v'.value];
      forall r: Reg
        ensures RegAgrees(regs, exprs, j, regs', r)
      {
        assert RegAgrees(s.c.regs, s.exprs, j, c'.regs, r);
      }
    }
  }

  // ----- constraints -----

  /** An input that satisfies the pinning constraint has the same address or size. */
  lemma PinnedSame(e: SymExpr, v: Option<Value>, j: Input, v': Option<Value>)
    requires OperandPredicted(e, v, j, v')
    requires AsSize(v).Some? ==> SatisfiesAll(j, Concretize(e, AsSize(v).value))
    ensures AsSize(v) == AsSize(v')
  {
    if AsSize(v).Some? && e.Some? {
      var n := AsSize(v).value;
      assert Satisfies(j, Concretize(e, n)[0]);
      PinnedValue(e.value, n, v.value.bits, j, v'.value);
    }
  }

  lemma PinnedValue(e: Expr, n: nat, bits: Bits, j: Input, v': Value)
    requires |bits| == 64 && n == ToNat(bits) && Denotes(e, j, v') && SortOfValue(v') == BvSort(64)
    requires Satisfies(j, Constraint(Cmp(Eq, e, BuildInteger(n, 64)), true))
    ensures v' == Bv(bits)
  {
    hide ToNat, FromNat;
    ToNatIsResidue(bits);
    CmpMeans(e, BuildInteger(n, 64), j);
  }

  lemma PinOperandSame(s: Sym, c': State, j: Input, o: Operand)
    requires RegsAgree(s.c.regs, s.exprs, j, c'.regs) && OkRegs(s.c.regs) && OkOperand(o)
    requires SatisfiesAll(j, PinOperand(s, o))
    ensures AsSize(Get(s.c.regs, o)) == AsSize(Get(c'.regs, o))
  {
    hide SortOf, Eval, SatisfiesAll, RegsAgree, OkRegs;
    GetPredicted(s, c', j, o);
    PinnedSame(ExprOf(s.exprs, o), Get(s.c.regs, o), j, Get(c'.regs, o));
  }

  /** An input that satisfies the pushed outcome has the same condition. */
  lemma ConditionSame(e: SymExpr, v: Option<Value>, j: Input, v': Option<Value>)
    requires OperandPredicted(e, v, j, v') && SatisfiesAll(j, PushCondition(e, v))
    requires v.Some? && v.value.Boolean?
    ensures v' == v
  {
    if e.Some? {
      assert Satisfies(j, PushCondition(e, v)[0]);
    }
  }

  // ----- value computations -----

  lemma CombinePredicted(ea: SymExpr, x: Value, eb: SymExpr, y: Value, build: (Expr, Expr) -> Expr,
                         j: Input, x': Value, y': Value, z: Value, z': Value)
    requires ValuePredicted(ea, x, j, x') && ValuePredicted(eb, y, j, y') && OkValue(x) && OkValue(y)
    requires x == x' && y == y' ==> z == z'
    requires SortOfValue(z) == SortOfValue(z')
    requires Denotes(OperandExpr(ea, x), j, x') && Denotes(OperandExpr(eb, y), j, y')
             ==> Denotes(build(OperandExpr(ea, x), OperandExpr(eb, y)), j, z')
    ensures ValuePredicted(Combine(ea, x, eb, y, build), z, j, z')
  {
    hide SortOf, Eval, OperandExpr;
    if !(ea.None? && eb.None?) {
      OperandDenotes(ea, x, j, x');
      OperandDenotes(eb, y, j, y');
    }
  }

  lemma BoolBinaryDenotes(op: BoolOp, a: Expr, b: Expr, j: Input, x: bool, y: bool)
    requires Denotes(a, j, Boolean(x)) && Denotes(b, j, Boolean(y))
    ensures Denotes(BoolBinary(op, a, b), j, Boolean(ApplyBool(op, x, y)))
  {
  }

  lemma CompareDenotes(p: Predicate, a: Expr, b: Expr, j: Input, x: Value, y: Value)
    requires Denotes(a, j, x) && Denotes(b, j, y) && CmpValue(p, x, y).Some?
    ensures Denotes(BuildCompare(p, a, b), j, CmpValue(p, x, y).value)
  {
    hide Holds;
    var q := if p == Ne then Eq else p;
    assert SortOf(Cmp(q, a, b)) == Some(BoolSort);
    if x.Bv? {
      assert Eval(Cmp(q, a, b), j) == Boolean(Holds(q, x.bits, y.bits));
      NeIsNotEq(x.bits, y.bits);
    } else {
      assert Eval(Cmp(q, a, b), j) == Boolean(x.b == y.b);
    }
  }

  lemma NeIsNotEq(a: Bits, b: Bits)
    requires |a| == |b|
    ensures Holds(Ne, a, b) == !Holds(Eq, a, b)
  {
  }

  lemma BinPredicted(op: BinOp, ea: SymExpr, x: Value, eb: SymExpr, y: Value, j: Input, x': Value, y': Value)
    requires ValuePredicted(ea, x, j, x') && ValuePredicted(eb, y, j, y') && OkValue(x) && OkValue(y)
    requires SortOfValue(x) == SortOfValue(x') && SortOfValue(y) == SortOfValue(y')
    ensures OperandPredicted(Combine(ea, x, eb, y, (a, b) => Binary(op, a, b)), BinValue(op, x, y), j,
                             BinValue(op, x', y'))
  {
    hide SortOf, Eval, Apply, OperandExpr;
    if BinValue(op, x, y).Some? {
      var a, b := OperandExpr(ea, x), OperandExpr(eb, y);
      if Denotes(a, j, x') && Denotes(b, j, y') {
        BinaryDenotes(op, a, b, j, x'.bits, y'.bits);
      }
      CombinePredicted(ea, x, eb, y, (a, b) => Binary(op, a, b), j, x', y',
                       BinValue(op, x, y).value, BinValue(op, x', y').value);
    }
  }

  lemma BoolPredicted(op: BoolOp, ea: SymExpr, x: Value, eb: SymExpr, y: Value, j: Input, x': Value, y': Value)
    requires ValuePredicted(ea, x, j, x') && ValuePredicted(eb, y, j, y') && OkValue(x) && OkValue(y)
    requires SortOfValue(x) == SortOfValue(x') && SortOfValue(y) == SortOfValue(y')
    ensures OperandPredicted(Combine(ea, x, eb, y, (a, b) => BoolBinary(op, a, b)), BoolValue(op, x, y), j,
                             BoolValue(op, x', y'))
  {
    hide SortOf, Eval, OperandExpr;
    if BoolValue(op, x, y).Some? {
      var a, b := OperandExpr(ea, x), OperandExpr(eb, y);
      if Denotes(a, j, x') && Denotes(b, j, y') {
        BoolBinaryDenotes(op, a, b, j, x'.b, y'.b);
      }
      CombinePredicted(ea, x, eb, y, (a, b) => BoolBinary(op, a, b), j, x', y',
                       BoolValue(op, x, y).value, BoolValue(op, x', y').value);
    }
  }

  lemma CmpPredicted(p: Predicate, ea: SymExpr, x: Value, eb: SymExpr, y: Value, j: Input, x': Value, y': Value)
    requires ValuePredicted(ea, x, j, x') && ValuePredicted(eb, y, j, y') && OkValue(x) && OkValue(y)
    requires SortOfValue(x) == SortOfValue(x') && SortOfValue(y) == SortOfValue(y')
    ensures OperandPredicted(Combine(ea, x, eb, y, (a, b) => BuildCompare(p, a, b)), CmpValue(p, x, y), j,
                             CmpValue(p, x', y'))
  {
    hide SortOf, Eval, OperandExpr, Holds, BuildCompare;
    if CmpValue(p, x, y).Some? {
      var a, b := OperandExpr(ea, x), OperandExpr(eb, y);
      if Denotes(a, j, x') && Denotes(b, j, y') {
        CompareDenotes(p, a, b, j, x', y');
      }
      CombinePredicted(ea, x, eb, y, (a, b) => BuildCompare(p, a, b), j, x', y',
                       CmpValue(p, x, y).value, CmpValue(p, x', y').value);
    }
  }

  /** What a truncation to i1 makes of a symbolic operand is ill-sorted; see `TruncationSort`. */
  predicate BitTruncation(kind: CastKind, width: nat) { kind == Truncation && width == 1 }

  lemma CastPredicted(kind: CastKind, e: SymExpr, x: Value, width: nat, j: Input, x': Value)
    requires ValuePredicted(e, x, j, x') && OkValue(x) && SortOfValue(x) == SortOfValue(x')
    requires PlainWidth(width) && (BitTruncation(kind, width) ==> e.None?)
    ensures OperandPredicted(CastExpr(kind, e, x, width), CastValue(kind, x, width), j, CastValue(kind, x', width))
  {
    if CastValue(kind, x, width).Some? && e.Some? {
      CastDenotes(kind, e.value, x, width, j, x');
    }
  }

  lemma CastDenotes(kind: CastKind, e: Expr, x: Value, width: nat, j: Input, x': Value)
    requires Denotes(e, j, x') && SortOfValue(x) == SortOfValue(x')
    requires CastValue(kind, x, width).Some? && !BitTruncation(kind, width) && OkValue(x)
    ensures CastValue(kind, x', width).Some?
    ensures Denotes(CastExpr(kind, Some(e), x, width).value, j, CastValue(kind, x', width).value)
  {
    match x'
    case Boolean(b) =>
      assert Denotes(BoolToBit(e), j, Bv([b]));
      SExtDenotes(BoolToBit(e), width - 1, j, [b]);
      ZExtDenotes(BoolToBit(e), width - 1, j, [b]);
      assert [b] + Replicate(b, width - 1) == Replicate(b, width);
    case Bv(bits) =>
      if kind == Truncation {
        ExtractDenotes(e, j, bits, width - 1, 0);
        assert bits[0..width] == bits[..width];
      } else {
        SExtDenotes(e, width - |bits|, j, bits);
        ZExtDenotes(e, width - |bits|, j, bits);
      }
  }

  lemma ZExtDenotes(a: Expr, n: nat, j: Input, x: Bits)
    requires Denotes(a, j, Bv(x))
    ensures Denotes(ZExt(a, n), j, Bv(ZeroExtend(x, n)))
  {
  }

  /** Truncation to i1 leaves a one-bit vector where a Boolean is wanted: for a bit-vector
      operand, the built expression has the sort of the result exactly when the width is not 1. */
  lemma TruncationSort(e: Expr, bits: Bits, width: nat)
    requires IsBv(e, |bits|) && 0 < width < |bits|
    ensures CastValue(Truncation, Bv(bits), width).Some? && CastExpr(Truncation, Some(e), Bv(bits), width).Some?
    ensures var built, result :=
            CastExpr(Truncation, Some(e), Bv(bits), width).value, CastValue(Truncation, Bv(bits), width).value;
            SortOf(built) == Some(SortOfValue(result)) <==> width != 1
  {
  }

  // ----- getelementptr -----

  /** The expression of an index predicts it; a literal is the same on every input. */
  lemma IndexPredicted(s: Sym, c': State, j: Input, o: Operand, width: nat)
    requires RegsAgree(s.c.regs, s.exprs, j, c'.regs)
    ensures var x, x' := IndexBits(Get(s.c.regs, o), width), IndexBits(Get(c'.regs, o), width);
            (x.Some? <==> x'.Some?)
            && (x.Some? ==> ValuePredicted(ExprOf(s.exprs, o), IndexValue(x.value), j, IndexValue(x'.value)))
  {
    hide SortOf, Eval;
    if o.Var? {
      assert RegAgrees(s.c.regs, s.exprs, j, c'.regs, o.reg);
    }
  }

  /** What both runs make of an index path. */
  ghost predicate PathAgrees(s: Sym, c': State, j: Input, path: seq<GepStep>)
  {
    var r, q, q' := ResolveSym(path, s.c.regs, s.exprs), Resolve(path, s.c.regs), Resolve(path, c'.regs);
    (r.Some? <==> q.Some?) && (r.Some? <==> q'.Some?)
    && (r.Some? ==> HaveShapes(r.value, ShapesOf(path)) && ArgsPredicted(r.value, j, q'.value)
                    && Offset(r.value) == Offset(q.value))
  }

  lemma {:induction false} ResolveAgrees(s: Sym, c': State, j: Input, path: seq<GepStep>)
    requires RegsAgree(s.c.regs, s.exprs, j, c'.regs)
    ensures PathAgrees(s, c', j, path)
  {
    hide SortOf, Eval, RegsAgree;
    if |path| > 0 {
      ResolveAgrees(s, c', j, path[1..]);
      if path[0].Index? {
        IndexPredicted(s, c', j, path[0].operand, path[0].width);
      }
      ConsArgs(s, c', j, path);
    }
  }

  lemma ConsArgs(s: Sym, c': State, j: Input, path: seq<GepStep>)
    requires |path| > 0 && PathAgrees(s, c', j, path[1..])
    requires path[0].Index? ==>
               var o, width := path[0].operand, path[0].width;
               var x, x' := IndexBits(Get(s.c.regs, o), width), IndexBits(Get(c'.regs, o), width);
               (x.Some? <==> x'.Some?)
               && (x.Some? ==> ValuePredicted(ExprOf(s.exprs, o), IndexValue(x.value), j, IndexValue(x'.value)))
    ensures PathAgrees(s, c', j, path)
  {
    hide SortOf, Eval, ToInt, ValuePredicted, IndexValue;
    var r, q, q' := ResolveSym(path, s.c.regs, s.exprs), Resolve(path, s.c.regs), Resolve(path, c'.regs);
    if r.Some? {
      assert r.value[1..] == ResolveSym(path[1..], s.c.regs, s.exprs).value;
      assert q.value[1..] == Resolve(path[1..], s.c.regs).value;
      assert ShapesOf(path)[1..] == ShapesOf(path[1..]);
      assert HasShape(r.value[0], ShapeOf(path[0])) by { FirstShape(s, path); }
      forall k | 0 <= k < |path|
        ensures HasShape(r.value[k], ShapesOf(path)[k]) && ArgPredicted(r.value[k], j, q'.value[k])
      {
        if k > 0 {
          assert r.value[k] == r.value[1..][k - 1] && ShapesOf(path)[k] == ShapesOf(path)[1..][k - 1];
        }
      }
    }
  }

  lemma FirstShape(s: Sym, path: seq<GepStep>)
    requires |path| > 0 && ResolveSym(path, s.c.regs, s.exprs).Some?
    ensures HasShape(ResolveSym(path, s.c.regs, s.exprs).value[0], ShapeOf(path[0]))
  {
    hide HasShape, ShapeOf, IndexBits, Get, ExprOf;
    match path[0]
    case Member(index, offset) => MemberShaped(index, offset);
    case Index(o, width, elementSize) =>
      IndexShaped(s.c.regs, o, width, ExprOf(s.exprs, o), elementSize);
  }

  lemma MemberShaped(index: nat, offset: nat)
    ensures HasShape(MemberArg(index, offset), ShapeOf(Member(index, offset)))
  {
  }

  lemma IndexShaped(regs: Regs, o: Operand, width: nat, e: SymExpr, elementSize: nat)
    requires IndexBits(Get(regs, o), width).Some?
    ensures HasShape(IndexArg(IndexBits(Get(regs, o), width).value, e, o.Lit?, elementSize),
                     ShapeOf(Index(o, width, elementSize)))
  {
  }

  lemma GepPredicted(s: Sym, c': State, j: Input, base: Operand, path: seq<GepStep>)
    requires RegsAgree(s.c.regs, s.exprs, j, c'.regs) && OkRegs(s.c.regs) && OkInstr(GepInstr(0, base, path))
    ensures OperandPredicted(GepResult(s, base, path), GepValue(s.c.regs, Get(s.c.regs, base), path), j,
                             GepValue(c'.regs, Get(c'.regs, base), path))
  {
    hide SortOf, Eval, RegsAgree, OkRegs, ArgsPredicted, GepExpr, FromInt, Offset, ToNat, ValidShapes, AllZeroShapes,
         Fits, HaveShapes;
    GetPredicted(s, c', j, base);
    ResolveAgrees(s, c', j, path);
    if GepValue(s.c.regs, Get(s.c.regs, base), path).Some? {
      var bits, bits' := Get(s.c.regs, base).value.bits, Get(c'.regs, base).value.bits;
      var args, args' := ResolveSym(path, s.c.regs, s.exprs).value, Resolve(path, c'.regs).value;
      FitsIsRight(ShapesOf(path), bits, ExprOf(s.exprs, base), args, j, bits', args');
    }
  }

  // ----- what the backend cannot sort -----

  /** An ordering of Booleans is ill-sorted: i1 values can be compared for equality only. */
  lemma BooleanOrdering(p: Predicate, a: Expr, b: Expr)
    requires SortOf(a) == Some(BoolSort) && SortOf(b) == Some(BoolSort)
    ensures SortOf(BuildCompare(p, a, b)) == Some(BoolSort) <==> p == Eq || p == Ne
  {
  }

  /** A concretisation is well sorted exactly for addresses and sizes of 64 bits. */
  lemma PinSort(e: Expr, n: nat, w: nat)
    requires IsBv(e, w)
    ensures SortOf(Concretize(Some(e), n)[0].expr) == Some(BoolSort) <==> w == 64
  {
    assert IsBv(BuildInteger(n, 64), 64);
    hide BuildInteger;
  }

  // ----- loads and selects -----

  lemma LoadPredicted(s: Sym, c': State, j: Input, a: Option<nat>, n: nat, le: bool)
    requires Predicts(s.shadow, s.c.mem, j, c'.mem)
    ensures LoadValue(s.c, a, n, le).Some? <==> LoadValue(c', a, n, le).Some?
    ensures LoadValue(s.c, a, n, le).Some? ==>
              ValuePredicted(LoadExpr(s, a, n, le), LoadValue(s.c, a, n, le).value, j, LoadValue(c', a, n, le).value)
    ensures PlainWidth(8 * n) ==>
              OperandPredicted(LoadExpr(s, a, n, le), LoadValue(s.c, a, n, le), j, LoadValue(c', a, n, le))
  {
    hide SortOf, Eval, Predicts, ReadMemory;
    if LoadValue(s.c, a, n, le).Some? {
      ReadIsRight(s.shadow, s.c.mem, j, c'.mem, a.value, n, le);
    }
  }

  lemma SelectPredicted(s: Sym, c': State, j: Input, cond: Operand, a: Operand, b: Operand)
    requires RegsAgree(s.c.regs, s.exprs, j, c'.regs) && OkRegs(s.c.regs)
    requires OkOperand(cond) && OkOperand(a) && OkOperand(b)
    requires SatisfiesAll(j, PushCondition(ExprOf(s.exprs, cond), Get(s.c.regs, cond)))
    ensures OperandPredicted(SelectExpr(s, cond, a, b),
                             SelectValue(Get(s.c.regs, cond), Get(s.c.regs, a), Get(s.c.regs, b)), j,
                             SelectValue(Get(c'.regs, cond), Get(c'.regs, a), Get(c'.regs, b)))
  {
    hide SortOf, Eval, RegsAgree, OkRegs, SatisfiesAll;
    GetPredicted(s, c', j, cond);
    GetPredicted(s, c', j, a);
    GetPredicted(s, c', j, b);
    if Get(s.c.regs, cond).Some? && Get(s.c.regs, cond).value.Boolean? {
      ConditionSame(ExprOf(s.exprs, cond), Get(s.c.regs, cond), j, Get(c'.regs, cond));
    }
  }

  // ----- one instruction -----

  predicate Defines(i: Instr)
  {
    || i.BinInstr? || i.BoolInstr? || i.CmpInstr? || i.CastInstr? || i.CopyInstr? || i.SelectInstr?
    || i.LoadInstr? || i.GepInstr?
  }

  /** The value that a defining instruction computes. */
  function Outcome(p: Program, c: State, i: Instr): Option<Value>
    requires Defines(i)
  {
    match i
    case BinInstr(_, op, a, b) => Bind(Get(c.regs, a), Get(c.regs, b), (x, y) => BinValue(op, x, y))
    case BoolInstr(_, op, a, b) => Bind(Get(c.regs, a), Get(c.regs, b), (x, y) => BoolValue(op, x, y))
    case CmpInstr(_, pred, a, b) => Bind(Get(c.regs, a), Get(c.regs, b), (x, y) => CmpValue(pred, x, y))
    case CastInstr(_, kind, a, width) =>
      if Get(c.regs, a).Some? then CastValue(kind, Get(c.regs, a).value, width) else None
    case CopyInstr(_, a) => Get(c.regs, a)
    case SelectInstr(_, cond, a, b) => SelectValue(Get(c.regs, cond), Get(c.regs, a), Get(c.regs, b))
    case LoadInstr(_, addr, n) => LoadValue(c, AsSize(Get(c.regs, addr)), n, p.le)
    case GepInstr(_, base, path) => GepValue(c.regs, Get(c.regs, base), path)
  }

  lemma OutcomeIsExec(p: Program, input: Input, c: State, i: Instr)
    requires Defines(i)
    ensures Exec(p, input, c, i) == Define(c, i.dst, Outcome(p, c, i))
  {
  }

  lemma BinOutcome(p: Program, j: Input, s: Sym, c': State, i: Instr)
    requires i.BinInstr? || i.BoolInstr? || i.CmpInstr?
    requires RegsAgree(s.c.regs, s.exprs, j, c'.regs) && OkRegs(s.c.regs) && OkInstr(i)
    ensures OperandPredicted(ResultExpr(p, s, i), Outcome(p, s.c, i), j, Outcome(p, c', i))
  {
    hide SortOf, Eval, RegsAgree, OkRegs, Combine, BinValue, BoolValue, CmpValue, BuildCompare;
    GetPredicted(s, c', j, i.a);
    GetPredicted(s, c', j, i.b);
    if Get(s.c.regs, i.a).Some? && Get(s.c.regs, i.b).Some? {
      var ea, eb := ExprOf(s.exprs, i.a), ExprOf(s.exprs, i.b);
      var x, y, x', y' :=
        Get(s.c.regs, i.a).value, Get(s.c.regs, i.b).value, Get(c'.regs, i.a).value, Get(c'.regs, i.b).value;
      match i {
        case BinInstr(_, op, _, _) => BinPredicted(op, ea, x, eb, y, j, x', y');
        case BoolInstr(_, op, _, _) => BoolPredicted(op, ea, x, eb, y, j, x', y');
        case CmpInstr(_, pred, _, _) => CmpPredicted(pred, ea, x, eb, y, j, x', y');
      }
    }
  }

  /** If the instruction truncates to i1, its operand is concrete. */
  predicate BitConcrete(s: Sym, i: Instr)
  {
    i.CastInstr? && BitTruncation(i.kind, i.width) ==> ExprOf(s.exprs, i.a).None?
  }

  lemma OutcomePredicted(p: Program, j: Input, s: Sym, c': State, i: Instr)
    requires Defines(i) && Agrees(s, c', j) && OkRegs(s.c.regs) && OkInstr(i)
    requires SatisfiesAll(j, Pushes(s, i)) && BitConcrete(s, i)
    ensures OperandPredicted(ResultExpr(p, s, i), Outcome(p, s.c, i), j, Outcome(p, c', i))
  {
    hide SortOf, Eval, RegsAgree, OkRegs, SatisfiesAll, Predicts, OperandPredicted, CastExpr, CastValue;
    match i
    case BinInstr(_, _, _, _) => BinOutcome(p, j, s, c', i);
    case BoolInstr(_, _, _, _) => BinOutcome(p, j, s, c', i);
    case CmpInstr(_, _, _, _) => BinOutcome(p, j, s, c', i);
    case CastInstr(_, kind, a, width) => CastOutcome(j, s, c', kind, a, width);
    case CopyInstr(_, a) => GetPredicted(s, c', j, a);
    case SelectInstr(_, cond, a, b) => SelectPredicted(s, c', j, cond, a, b);
    case LoadInstr(_, addr, n) =>
      SatisfiesConcat(j, PinOperand(s, addr), PinOperand(s, addr));
      PinOperandSame(s, c', j, addr);
      LoadPredicted(s, c', j, AsSize(Get(s.c.regs, addr)), n, p.le);
    case GepInstr(_, base, path) => GepPredicted(s, c', j, base, path);
  }

  lemma CastOutcome(j: Input, s: Sym, c': State, kind: CastKind, a: Operand, width: nat)
    requires RegsAgree(s.c.regs, s.exprs, j, c'.regs) && OkRegs(s.c.regs) && OkOperand(a)
    requires PlainWidth(width) && (BitTruncation(kind, width) ==> ExprOf(s.exprs, a).None?)
    ensures OperandPredicted(match Get(s.c.regs, a)
                             case Some(x) => CastExpr(kind, ExprOf(s.exprs, a), x, width)
                             case None => None,
                             if Get(s.c.regs, a).Some? then CastValue(kind, Get(s.c.regs, a).value, width) else None, j,
                             if Get(c'.regs, a).Some? then CastValue(kind, Get(c'.regs, a).value, width) else None)
  {
    hide SortOf, Eval, RegsAgree, OkRegs, CastExpr, CastValue;
    GetPredicted(s, c', j, a);
    if Get(s.c.regs, a).Some? {
      CastPredicted(kind, ExprOf(s.exprs, a), Get(s.c.regs, a).value, width, j, Get(c'.regs, a).value);
    }
  }

  /** What one instruction keeps. */
  ghost predicate ExecKeeps(p: Program, i: Input, j: Input, s: Sym, c': State, ins: Instr)
  {
    Agrees(SymExec(p, i, s, ins), Exec(p, j, c', ins), j) && OkRegs(Exec(p, i, s.c, ins).regs)
  }

  lemma DefineKeeps(p: Program, i: Input, j: Input, s: Sym, c': State, ins: Instr)
    requires Defines(ins) && s.c.ctl.Running? && Agrees(s, c', j) && OkRegs(s.c.regs) && OkInstr(ins)
    requires SatisfiesAll(j, Pushes(s, ins)) && BitConcrete(s, ins)
    ensures ExecKeeps(p, i, j, s, c', ins)
  {
    hide SortOf, Eval, RegsAgree, OkRegs, SatisfiesAll, Predicts, OperandPredicted, Outcome, ResultExpr, Pushes,
         SetExpr;
    OutcomePredicted(p, j, s, c', ins);
    OutcomeIsExec(p, i, s.c, ins);
    OutcomeIsExec(p, j, c', ins);
    hide Exec;
    DefineAgrees(s, c', j, ins.dst, ResultExpr(p, s, ins), Outcome(p, s.c, ins), Outcome(p, c', ins),
                 s.path + Pushes(s, ins));
  }

  lemma StoreKeeps(p: Program, i: Input, j: Input, s: Sym, c': State, ins: Instr)
    requires ins.StoreInstr? && s.c.ctl.Running? && Agrees(s, c', j) && OkRegs(s.c.regs) && OkInstr(ins)
    requires SatisfiesAll(j, Pushes(s, ins))
    ensures ExecKeeps(p, i, j, s, c', ins)
  {
    hide SortOf, Eval, RegsAgree, OkRegs, SatisfiesAll, Predicts, WriteMemory, StoreBits;
    SatisfiesConcat(j, PinOperand(s, ins.addr), PinOperand(s, ins.addr));
    PinOperandSame(s, c', j, ins.addr);
    GetPredicted(s, c', j, ins.a);
    if !Exec(p, i, s.c, ins).ctl.Fault? {
      var a := AsSize(Get(s.c.regs, ins.addr)).value;
      var v, v' := Get(s.c.regs, ins.a).value.bits, Get(c'.regs, ins.a).value.bits;
      WriteKeeps(s.shadow, s.c.mem, j, c'.mem, ExprOf(s.exprs, ins.a), v, v', a, ins.bytes, p.le);
    }
  }

  lemma MoveKeepsState(p: Program, i: Input, j: Input, s: Sym, c': State, ins: Instr)
    requires ins.MoveInstr? && s.c.ctl.Running? && Agrees(s, c', j) && OkRegs(s.c.regs) && OkInstr(ins)
    requires SatisfiesAll(j, Pushes(s, ins))
    ensures ExecKeeps(p, i, j, s, c', ins)
  {
    hide SortOf, Eval, RegsAgree, OkRegs, SatisfiesAll, Predicts, MoveShadow, MoveMemory;
    SatisfiesConcat(j, PinOperand(s, ins.to) + PinOperand(s, ins.from), PinOperand(s, ins.len));
    SatisfiesConcat(j, PinOperand(s, ins.to), PinOperand(s, ins.from));
    PinOperandSame(s, c', j, ins.to);
    PinOperandSame(s, c', j, ins.from);
    PinOperandSame(s, c', j, ins.len);
    if !Exec(p, i, s.c, ins).ctl.Fault? {
      MoveKeeps(s.shadow, s.c.mem, j, c'.mem, AsSize(Get(s.c.regs, ins.to)).value,
                AsSize(Get(s.c.regs, ins.from)).value,
                AsSize(Get(s.c.regs, ins.len)).value);
    }
  }

  lemma FillKeepsState(p: Program, i: Input, j: Input, s: Sym, c': State, ins: Instr)
    requires ins.FillInstr? && s.c.ctl.Running? && Agrees(s, c', j) && OkRegs(s.c.regs) && OkInstr(ins)
    requires SatisfiesAll(j, Pushes(s, ins))
    ensures ExecKeeps(p, i, j, s, c', ins)
  {
    hide SortOf, Eval, RegsAgree, OkRegs, SatisfiesAll, Predicts, FillShadow, FillMemory;
    SatisfiesConcat(j, PinOperand(s, ins.to), PinOperand(s, ins.len));
    PinOperandSame(s, c', j, ins.to);
    PinOperandSame(s, c', j, ins.len);
    GetPredicted(s, c', j, ins.a);
    if !Exec(p, i, s.c, ins).ctl.Fault? {
      FillKeeps(s.shadow, s.c.mem, j, c'.mem, ExprOf(s.exprs, ins.a), Get(s.c.regs, ins.a).value.bits,
                Get(c'.regs, ins.a).value.bits, AsSize(Get(s.c.regs, ins.to)).value,
                AsSize(Get(s.c.regs, ins.len)).value);
    }
  }

  lemma ReadKeeps(p: Program, i: Input, j: Input, s: Sym, c': State, ins: Instr)
    requires ins.ReadInstr? && s.c.ctl.Running? && Agrees(s, c', j) && OkRegs(s.c.regs) && OkInstr(ins)
    requires |i| == |j| && SatisfiesAll(j, Pushes(s, ins))
    ensures ExecKeeps(p, i, j, s, c', ins)
  {
    hide SortOf, Eval, RegsAgree, OkRegs, SatisfiesAll, Predicts, MakeSymbolic, InputMemory, FromInt, SetExpr;
    SatisfiesConcat(j, PinOperand(s, ins.addr), PinOperand(s, ins.len));
    PinOperandSame(s, c', j, ins.addr);
    PinOperandSame(s, c', j, ins.len);
    if !Exec(p, i, s.c, ins).ctl.Fault? {
      var a, n := AsSize(Get(s.c.regs, ins.addr)).value, AsSize(Get(s.c.regs, ins.len)).value;
      var k := Available(i, s.c.pos, n);
      MakeSymbolicKeeps(s.shadow, s.c.mem, i, j, c'.mem, a, k, s.c.pos);
      var read := Bv(FromInt(k, 64));
      SetAgrees(s.c.regs, s.exprs, j, c'.regs, ins.dst, None, read, read);
    }
  }

  lemma ExecAgrees(p: Program, i: Input, j: Input, s: Sym, c': State, ins: Instr)
    requires s.c.ctl.Running? && Agrees(s, c', j) && OkRegs(s.c.regs) && OkInstr(ins)
    requires |i| == |j| && SatisfiesAll(j, Pushes(s, ins)) && BitConcrete(s, ins)
    ensures ExecKeeps(p, i, j, s, c', ins)
  {
    hide Agrees, OkRegs, SatisfiesAll, Pushes, ExecKeeps, OkInstr;
    if Defines(ins) {
      DefineKeeps(p, i, j, s, c', ins);
    } else {
      match ins {
        case StoreInstr(_, _, _) => StoreKeeps(p, i, j, s, c', ins);
        case MoveInstr(_, _, _) => MoveKeepsState(p, i, j, s, c', ins);
        case FillInstr(_, _, _) => FillKeepsState(p, i, j, s, c', ins);
        case ReadInstr(_, _, _) => ReadKeeps(p, i, j, s, c', ins);
      }
    }
  }

  // ----- terminators -----

  /** Setting a register to a predicted operand keeps the agreement of the registers. */
  lemma SetAgrees(regs: Regs, exprs: Exprs, j: Input, regs': Regs, dst: Reg, e: SymExpr, v: Value, v': Value)
    requires RegsAgree(regs, exprs, j, regs') && OkRegs(regs) && OkValue(v) && ValuePredicted(e, v, j, v')
    ensures RegsAgree(regs[dst := v], SetExpr(exprs, dst, e), j, regs'[dst := v']) && OkRegs(regs[dst := v])
  {
    hide SortOf, Eval;
    var regs2, exprs2, regs2' := regs[dst := v], SetExpr(exprs, dst, e), regs'[dst := v'];
    forall r: Reg
      ensures RegAgrees(regs2, exprs2, j, regs2', r)
    {
      assert RegAgrees(regs, exprs, j, regs', r);
    }
  }

  /** The PHI nodes of a block, read simultaneously, agree. */
  lemma {:induction false} PhisAgree(phis: seq<Phi>, from: Label, s: Sym, c': State, j: Input)
    requires RegsAgree(s.c.regs, s.exprs, j, c'.regs) && OkRegs(s.c.regs)
    requires forall k :: 0 <= k < |phis| ==> OkPhi(phis[k])
    ensures var r, r' := PhiRegs(phis, from, s.c.regs, s.c.regs), PhiRegs(phis, from, c'.regs, c'.regs);
            (r.Some? <==> r'.Some?)
            && (r.Some? ==> OkRegs(r.value) && RegsAgree(r.value, PhiExprs(phis, from, s.exprs, s.exprs), j, r'.value))
  {
    hide SortOf, Eval, RegsAgree, OkRegs, SetExpr;
    if |phis| > 0 {
      var front, phi := phis[..|phis| - 1], phis[|phis| - 1];
      PhisAgree(front, from, s, c', j);
      assert OkPhi(phi);
      var r, r' := PhiRegs(front, from, s.c.regs, s.c.regs), PhiRegs(front, from, c'.regs, c'.regs);
      if from in phi.incoming {
        var o := phi.incoming[from];
        GetPredicted(s, c', j, o);
        if r.Some? && Get(s.c.regs, o).Some? {
          SetAgrees(r.value, PhiExprs(front, from, s.exprs, s.exprs), j, r'.value, phi.dst, ExprOf(s.exprs, o),
                    Get(s.c.regs, o).value, Get(c'.regs, o).value);
        }
      }
    }
  }

  lemma {:induction false} CaseTargetSame(values: seq<Value>, targets: seq<Label>, default: Label, v: Value, v': Value)
    requires |values| == |targets| && forall k :: 0 <= k < |values| ==> (values[k] == v <==> values[k] == v')
    ensures CaseTarget(values, targets, default, v) == CaseTarget(values, targets, default, v')
  {
    if |values| > 0 && values[0] != v {
      CaseTargetSame(values[1..], targets[1..], default, v, v');
    }
  }

  /** Satisfying the released batch means satisfying each case constraint. */
  lemma BatchSatisfied(j: Input, cs: seq<Constraint>, k: nat)
    requires SatisfiesAll(j, Batched(cs)) && k < |cs|
    ensures Satisfies(j, cs[k])
  {
    BatchedOnce(cs);
    var b := Batched(cs);
    assert cs[k] in multiset(cs);
    assert cs[k] in b;
    var m :| 0 <= m < |b| && b[m] == cs[k];
  }

  lemma SwitchSame(e: SymExpr, v: Value, j: Input, v': Value, values: seq<Value>, k: nat)
    requires ValuePredicted(e, v, j, v') && SatisfiesAll(j, SwitchPushes(e, Some(v), values)) && k < |values|
    requires OkValue(values[k]) && SortOfValue(values[k]) == SortOfValue(v)
    ensures values[k] == v <==> values[k] == v'
  {
    hide SortOf, Eval, SatisfiesAll, Batched, ValueExpr;
    if e.Some? {
      var cs := CaseConstraints(e.value, v, values);
      BatchSatisfied(j, cs, k);
      assert cs[k] == CaseConstraint(e.value, v, values[k]);
      CaseMeans(e.value, values[k], j);
    }
  }

  lemma TargetSame(s: Sym, c': State, j: Input, t: Terminator)
    requires RegsAgree(s.c.regs, s.exprs, j, c'.regs) && OkRegs(s.c.regs) && OkTerm(t) && !t.Ret?
    requires SatisfiesAll(j, TermPushes(s, t))
    ensures Target(t, s.c.regs) == Target(t, c'.regs)
  {
    hide SortOf, Eval, RegsAgree, OkRegs, SatisfiesAll;
    match t
    case Jump(_) =>
    case CondBr(cond, _, _) =>
      GetPredicted(s, c', j, cond);
      var v := Get(s.c.regs, cond);
      if v.Some? && v.value.Boolean? {
        ConditionSame(ExprOf(s.exprs, cond), v, j, Get(c'.regs, cond));
      }
    case Switch(cond, values, targets, default) =>
      SwitchTargetSame(s, c', j, cond, values, targets, default);
  }

  lemma SwitchTargetSame(s: Sym, c': State, j: Input, cond: Operand, values: seq<Value>, targets: seq<Label>,
                         default: Label)
    requires RegsAgree(s.c.regs, s.exprs, j, c'.regs) && OkRegs(s.c.regs)
    requires OkTerm(Switch(cond, values, targets, default))
    requires SatisfiesAll(j, SwitchPushes(ExprOf(s.exprs, cond), Get(s.c.regs, cond), values))
    ensures Target(Switch(cond, values, targets, default), s.c.regs)
            == Target(Switch(cond, values, targets, default), c'.regs)
  {
    hide SortOf, Eval, RegsAgree, OkRegs, SatisfiesAll, SwitchPushes;
    GetPredicted(s, c', j, cond);
    var v := Get(s.c.regs, cond);
    if Target(Switch(cond, values, targets, default), s.c.regs).Some? {
      var v' := Get(c'.regs, cond);
      forall k | 0 <= k < |values|
        ensures values[k] == v.value <==> values[k] == v'.value
      {
        SwitchSame(ExprOf(s.exprs, cond), v.value, j, v'.value, values, k);
      }
      CaseTargetSame(values, targets, default, v.value, v'.value);
    }
  }

  lemma TerminateAgrees(p: Program, j: Input, s: Sym, c': State, from: Label, t: Terminator)
    requires OkProgram(p) && s.c.ctl.Running? && Agrees(s, c', j) && OkRegs(s.c.regs) && OkTerm(t)
    requires SatisfiesAll(j, TermPushes(s, t))
    ensures Agrees(SymTerminate(p, s, from, t), Terminate(p, c', from, t), j)
    ensures OkRegs(Terminate(p, s.c, from, t).regs)
  {
    hide RegsAgree, OkRegs, SatisfiesAll, Predicts, Target, Enter, PhiExprs, TermPushes;
    if t.Ret? {
      assert OkOperand(t.result);
      GetPredicted(s, c', j, t.result);
    } else {
      TargetSame(s, c', j, t);
      if Target(t, s.c.regs).Some? {
        EnterAgrees(p, j, s, c', from, Target(t, s.c.regs).value);
      }
    }
  }

  /** Both runs enter the same block. */
  lemma EnterAgrees(p: Program, j: Input, s: Sym, c': State, from: Label, to: Label)
    requires OkProgram(p) && s.c.ctl.Running? && Agrees(s, c', j) && OkRegs(s.c.regs)
    ensures var e, e' := Enter(p, s.c, from, to), Enter(p, c', from, to);
            e'.ctl == e.ctl && e'.pos == e.pos && e.mem == s.c.mem && e'.mem == c'.mem && OkRegs(e.regs)
            && (e.ctl.Running? ==> e.ctl.block == to && to in p.blocks)
            && RegsAgree(e.regs,
                         if e.ctl.Running? then PhiExprs(p.blocks[to].phis, from, s.exprs, s.exprs) else s.exprs,
                         j, e'.regs)
  {
    hide RegsAgree, OkRegs, Predicts, PhiRegs, PhiExprs;
    if to in p.blocks {
      assert OkBlock(p.blocks[to]);
      PhisAgree(p.blocks[to].phis, from, s, c', j);
    }
  }

  // ----- runs -----

  /** The constraints that the next step pushes. */
  function StepPushes(p: Program, s: Sym): seq<Constraint>
  {
    match s.c.ctl
    case Running(b, pc) =>
      if b !in p.blocks then []
      else if pc < |p.blocks[b].body| then Pushes(s, p.blocks[b].body[pc])
      else TermPushes(s, p.blocks[b].term)
    case _ => []
  }

  lemma StepPath(p: Program, i: Input, s: Sym)
    ensures SymStep(p, i, s).path == s.path + StepPushes(p, s)
  {
  }

  /** The step about to be executed does not truncate a symbolic value to i1. */
  ghost predicate StepOk(p: Program, s: Sym)
  {
    match s.c.ctl
    case Running(b, pc) =>
      b in p.blocks && pc < |p.blocks[b].body| ==> BitConcrete(s, p.blocks[b].body[pc])
    case _ => true
  }

  /** A supported program whose first `k` steps on this input truncate no symbolic value to i1. */
  ghost predicate OkRun(p: Program, i: Input, c: State, k: nat)
  {
    OkProgram(p) && forall t: nat :: t < k ==> StepOk(p, SymRun(p, i, c, t))
  }

  lemma OkRunPrefix(p: Program, i: Input, c: State, t: nat, k: nat)
    requires OkRun(p, i, c, k) && t <= k
    ensures OkRun(p, i, c, t)
  {
    hide StepOk, OkProgram;
  }

  lemma StepAgrees(p: Program, i: Input, j: Input, s: Sym, c': State)
    requires OkProgram(p) && |i| == |j| && Agrees(s, c', j) && OkRegs(s.c.regs)
    requires SatisfiesAll(j, StepPushes(p, s)) && StepOk(p, s)
    ensures Agrees(SymStep(p, i, s), Step(p, j, c'), j) && OkRegs(SymStep(p, i, s).c.regs)
  {
    hide SortOf, Eval, RegsAgree, OkRegs, SatisfiesAll, Predicts, Pushes, TermPushes, SymExec, Exec, SymTerminate,
         Terminate, OkInstr;
    match s.c.ctl
    case Running(b, pc) =>
      if b in p.blocks {
        assert OkBlock(p.blocks[b]);
        if pc < |p.blocks[b].body| {
          var ins := p.blocks[b].body[pc];
          ExecAgrees(p, i, j, s, c', ins);
          SymExecState(p, i, s, ins);
        } else {
          TerminateAgrees(p, j, s, c', b, p.blocks[b].term);
          TerminateConcrete(p, s, b, p.blocks[b].term);
        }
      }
    case _ =>
  }

  lemma TerminateConcrete(p: Program, s: Sym, from: Label, t: Terminator)
    ensures SymTerminate(p, s, from, t).c == Terminate(p, s.c, from, t)
  {
  }

  lemma InitAgrees(c: State, j: Input)
    ensures Agrees(Sym(c, map[], map[], []), c, j)
  {
  }

  /** Path soundness: whatever the program, the initial state and the number of steps, an
      input of the same length that satisfies every constraint pushed so far is in the same
      place of the program, with every register and every memory byte equal to its
      expression on that input, or to the recorded value where the expression is null. */
  lemma {:induction false} PathSound(p: Program, c: State, i: Input, j: Input, k: nat)
    requires OkRun(p, i, c, k) && OkRegs(c.regs) && |i| == |j|
    requires SatisfiesAll(j, SymRun(p, i, c, k).path)
    ensures Agrees(SymRun(p, i, c, k), Run(p, j, c, k), j)
    ensures OkRegs(SymRun(p, i, c, k).c.regs)
  {
    hide SortOf, Eval, RegsAgree, OkRegs, SatisfiesAll, Predicts, SymStep, Step, StepPushes, Agrees, StepOk, OkProgram;
    if k == 0 {
      InitAgrees(c, j);
    } else {
      var s := SymRun(p, i, c, k - 1);
      OkRunPrefix(p, i, c, k - 1, k);
      StepPath(p, i, s);
      SatisfiesConcat(j, s.path, StepPushes(p, s));
      PathSound(p, c, i, j, k - 1);
      StepAgrees(p, i, j, s, Run(p, j, c, k - 1));
    }
  }
}
