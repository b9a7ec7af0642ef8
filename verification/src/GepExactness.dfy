/** Exactly which index paths the pass computes right: the condition on what is known at
    compile time, for all run-time values and all choices of symbolic operands. */
module GepExactness {
  import opened Options
  import opened BitVectors
  import opened Expressions
  import opened FlatMemory
  import opened Gep

  /** One index as the compiler sees it; an array index may be a literal. */
  datatype GepShape =
    | MemberShape(index: nat, offset: nat)
    | IndexShape(width: nat, literal: Option<Bits>, elementSize: nat)

  /** Layouts as the compiler hands them out: sizes and offsets of 64 bits, member 0 at
      offset 0, indices of at least one bit. */
  predicate ValidShape(s: GepShape)
  {
    match s
    case MemberShape(index, offset) => offset < Pow2(64) && (index == 0 ==> offset == 0)
    case IndexShape(width, literal, elementSize) =>
      width > 0 && elementSize < Pow2(64) && (literal.Some? ==> |literal.value| == width)
  }

  predicate ValidShapes(shapes: seq<GepShape>)
  {
    forall k :: 0 <= k < |shapes| ==> ValidShape(shapes[k])
  }

  predicate HasShape(a: GepArg, s: GepShape)
  {
    match s
    case MemberShape(index, offset) => a == MemberArg(index, offset)
    case IndexShape(width, literal, elementSize) =>
      && a.IndexArg? && |a.bits| == width && a.elementSize == elementSize && a.constant == literal.Some?
      && (literal.Some? ==> a.bits == literal.value)
  }

  predicate HaveShapes(args: seq<GepArg>, shapes: seq<GepShape>)
  {
    |args| == |shapes| && forall k :: 0 <= k < |args| ==> HasShape(args[k], shapes[k])
  }

  // ----- the condition -----

  predicate ZeroShape(s: GepShape)
  {
    match s
    case MemberShape(index, _) => index == 0
    case IndexShape(_, literal, _) => literal.Some? && ToNat(literal.value) == 0
  }

  predicate AllZeroShapes(shapes: seq<GepShape>)
  {
    forall k :: 0 <= k < |shapes| ==> ZeroShape(shapes[k])
  }

  predicate SortableShape(s: GepShape) { s.IndexShape? && !ZeroShape(s) ==> 2 <= s.width <= PTR_BITS }

  /** What 32 bits lose of a size. */
  function Lost(x: nat): int { x - Unsigned32(x) }

  /** What the compile-time constants of the path contribute to the error. */
  function ConstantLoss(s: GepShape): int
  {
    match s
    case MemberShape(_, offset) => Lost(offset)
    case IndexShape(_, literal, elementSize) => if literal.Some? then ToInt(literal.value) * Lost(elementSize) else 0
  }

  function ConstantError(shapes: seq<GepShape>): int
  {
    if |shapes| == 0 then 0 else ConstantLoss(shapes[0]) + ConstantError(shapes[1..])
  }

  predicate VariableFits(s: GepShape) { s.IndexShape? && s.literal.None? ==> s.elementSize < Pow2(32) }

  /** No i1 index and none wider than a pointer, unless it is a literal zero; variable
      indices scale sizes below 2^32; and what the constants lose cancels out modulo 2^64. */
  predicate Fits(shapes: seq<GepShape>)
  {
    && (forall k :: 0 <= k < |shapes| ==> SortableShape(shapes[k]))
    && (forall k :: 0 <= k < |shapes| ==> VariableFits(shapes[k]))
    && ConstantError(shapes) % Pow2(PTR_BITS) == 0
  }

  // ----- the condition suffices -----

  lemma RemainderSmall(x: nat, m: nat)
    requires m > 0
    ensures x % m <= x
  {
    if x < m {
      ModUnique(x, m, x, 0);
    }
  }

  lemma LostNone(x: nat)
    ensures Lost(x) == 0 <==> x < Pow2(32)
    ensures 0 <= Lost(x) <= x
  {
    hide Pow2;
    if x < Pow2(32) {
      Small32(x);
    } else {
      assert Unsigned32(x) < Pow2(32);
    }
    RemainderSmall(x, Pow2(32));
  }

  lemma ErrorStep(a: GepArg, s: GepShape)
    requires HasShape(a, s) && VariableFits(s)
    ensures Contribution(a) - BuiltContribution(a) == ConstantLoss(s)
  {
    hide ToInt, Pow2;
    if s.IndexShape? {
      LostNone(s.elementSize);
      MulDistributes(ToInt(a.bits), s.elementSize, 0 - Unsigned32(s.elementSize));
    }
  }

  lemma {:induction false} ErrorIsConstant(args: seq<GepArg>, shapes: seq<GepShape>)
    requires HaveShapes(args, shapes) && forall k :: 0 <= k < |shapes| ==> VariableFits(shapes[k])
    ensures Error(args) == ConstantError(shapes)
  {
    hide HasShape, VariableFits, Contribution, BuiltContribution, ConstantLoss;
    if |args| > 0 {
      ErrorStep(args[0], shapes[0]);
      ErrorIsConstant(args[1..], shapes[1..]);
    }
  }

  lemma ShapesZero(args: seq<GepArg>, shapes: seq<GepShape>)
    requires HaveShapes(args, shapes)
    ensures AllZero(args) <==> AllZeroShapes(shapes)
  {
    hide ToNat;
    forall k | 0 <= k < |args|
      ensures ConstantZero(args[k]) <==> ZeroShape(shapes[k])
    {
      assert HasShape(args[k], shapes[k]);
    }
  }

  lemma ShapesSortable(args: seq<GepArg>, shapes: seq<GepShape>, k: nat)
    requires HaveShapes(args, shapes) && k < |args|
    ensures Sortable(args[k]) <==> SortableShape(shapes[k])
  {
    hide ToNat;
    assert HasShape(args[k], shapes[k]);
  }

  lemma ShapesLaidOut(args: seq<GepArg>, shapes: seq<GepShape>)
    requires HaveShapes(args, shapes) && ValidShapes(shapes)
    ensures LaidOut(args)
  {
    hide Pow2;
    forall i | 0 <= i < |args| && args[i].MemberArg? && args[i].index == 0
      ensures args[i].offset == 0
    {
      assert HasShape(args[i], shapes[i]) && ValidShape(shapes[i]);
    }
  }

  /** The arguments of another run have the same shape. */
  lemma ShapesKept(args: seq<GepArg>, j: Input, args': seq<GepArg>, shapes: seq<GepShape>)
    requires HaveShapes(args, shapes) && ArgsPredicted(args, j, args')
    ensures HaveShapes(seq(|args'|, k requires 0 <= k < |args'| => WithConstant(args'[k], args[k])), shapes)
    ensures forall k :: 0 <= k < |args'| ==> Contribution(WithConstant(args'[k], args[k])) == Contribution(args'[k])
  {
    var r := seq(|args'|, k requires 0 <= k < |args'| => WithConstant(args'[k], args[k]));
    forall k | 0 <= k < |r|
      ensures HasShape(r[k], shapes[k])
    {
      assert HasShape(args[k], shapes[k]) && ArgPredicted(args[k], j, args'[k]);
      if args[k].IndexArg? && args[k].constant {
        SameBits(args[k].bits, args'[k].bits, j);
      }
    }
  }

  /** `a'` marked as a constant where `a` is one. */
  function WithConstant(a': GepArg, a: GepArg): GepArg
  {
    if a.IndexArg? && a'.IndexArg? then a'.(constant := a.constant) else a'
  }

  lemma {:induction false} ErrorIgnoresMarks(args: seq<GepArg>, marked: seq<GepArg>)
    requires |args| == |marked|
    requires forall k :: 0 <= k < |args| ==> Contribution(args[k]) == Contribution(marked[k])
                                             && BuiltContribution(args[k]) == BuiltContribution(marked[k])
    ensures Error(args) == Error(marked)
  {
    hide Contribution, BuiltContribution;
    if |args| > 0 {
      ErrorIgnoresMarks(args[1..], marked[1..]);
    }
  }

  /** The expression, or null, predicts the address. */
  ghost predicate RightOn(base: Bits, baseExpr: SymExpr, args: seq<GepArg>, j: Input, base': Bits, args': seq<GepArg>)
  {
    ValuePredicted(GepExpr(base, baseExpr, args), Bv(Address(base, args)), j, Bv(Address(base', args')))
  }

  lemma FitsIsRight(shapes: seq<GepShape>, base: Bits, baseExpr: SymExpr, args: seq<GepArg>, j: Input,
                    base': Bits, args': seq<GepArg>)
    requires ValidShapes(shapes) && HaveShapes(args, shapes) && (AllZeroShapes(shapes) || Fits(shapes))
    requires |base| == |base'| == PTR_BITS && ValuePredicted(baseExpr, Bv(base), j, Bv(base'))
    requires ArgsPredicted(args, j, args')
    ensures RightOn(base, baseExpr, args, j, base', args')
  {
    hide ValidShapes, HaveShapes, AllZero, AllZeroShapes, ValuePredicted, Contribution, BuiltContribution, Pow2,
         GepExpr, Address, Sortable, SortableShape, ArgsPredicted, VariableFits;
    ShapesLaidOut(args, shapes);
    ShapesZero(args, shapes);
    if !AllZeroShapes(shapes) {
      ArgsLength(args, j, args', shapes);
      var marked := seq(|args'|, k requires 0 <= k < |args'| => WithConstant(args'[k], args[k]));
      ShapesKept(args, j, args', shapes);
      assert forall k :: 0 <= k < |args'| ==>
        BuiltContribution(WithConstant(args'[k], args[k])) == BuiltContribution(args'[k])
        by { MarksKeepBuilt(args', args); }
      ErrorIsConstant(marked, shapes);
      ErrorIgnoresMarks(args', marked);
      forall k | 0 <= k < |args|
        ensures Sortable(args[k])
      {
        ShapesSortable(args, shapes, k);
      }
    }
    GepIsRight(base, baseExpr, args, j, base', args');
  }

  lemma ArgsLength(args: seq<GepArg>, j: Input, args': seq<GepArg>, shapes: seq<GepShape>)
    requires HaveShapes(args, shapes) && ArgsPredicted(args, j, args')
    ensures |args'| == |args| == |shapes|
  {
  }

  lemma MarksKeepBuilt(args': seq<GepArg>, args: seq<GepArg>)
    requires |args'| == |args|
    ensures forall k :: 0 <= k < |args'| ==>
            BuiltContribution(WithConstant(args'[k], args[k])) == BuiltContribution(args'[k])
  {
    hide ToInt, Unsigned32;
  }

  // ----- the condition is necessary -----

  /** Run-time values for a path: zero for every variable index but number `pick`, which is one. */
  function Instance(shapes: seq<GepShape>, pick: int): (r: seq<GepArg>)
    ensures |r| == |shapes|
  {
    seq(|shapes|, k requires 0 <= k < |shapes| => InstanceArg(shapes[k], k == pick))
  }

  function InstanceArg(s: GepShape, one: bool): GepArg
  {
    match s
    case MemberShape(index, offset) => MemberArg(index, offset)
    case IndexShape(width, literal, elementSize) =>
      var bits := match literal case Some(b) => b case None => FromInt(if one then 1 else 0, width);
      IndexArg(bits, None, literal.Some?, elementSize)
  }

  lemma InstanceShapes(shapes: seq<GepShape>, pick: int, j: Input)
    requires ValidShapes(shapes)
    ensures HaveShapes(Instance(shapes, pick), shapes)
    ensures ArgsPredicted(Instance(shapes, pick), j, Instance(shapes, pick)) && AllConcrete(Instance(shapes, pick))
  {
    hide Pow2;
    var r := Instance(shapes, pick);
    forall k | 0 <= k < |r|
      ensures HasShape(r[k], shapes[k]) && ArgPredicted(r[k], j, r[k])
    {
      assert ValidShape(shapes[k]);
    }
  }

  /** Once ill-sorted, the chain stays so. */
  lemma {:induction false} IllSortedStays(current: Expr, args: seq<GepArg>)
    requires SortOf(current).None?
    ensures SortOf(Chain(current, args)).None?
    decreases |args|
  {
    hide BuildInteger, ValueExpr;
    if |args| > 0 {
      IllSortedStays(Extend(current, args[0]), args[1..]);
    }
  }

  lemma IllSortedStep(current: Expr, a: GepArg)
    requires !Sortable(a) && a.expr.None? && |a.bits| > 0
    ensures SortOf(Extend(current, a)).None?
  {
    hide ToNat, Pow2;
    var index := OperandExpr(None, IndexValue(a.bits));
    ValueExprExact(IndexValue(a.bits), []);
    if |a.bits| == 1 {
      assert SortOf(index) == Some(BoolSort);
    } else {
      assert SortOf(index) == Some(BvSort(128));
    }
    assert SortOf(Binary(Mul, SExt(index, Widening(|a.bits|)),
                         BuildInteger(Unsigned32(a.elementSize), PTR_BITS))).None?;
  }

  lemma {:induction false} IllSortedChain(current: Expr, args: seq<GepArg>, k: nat)
    requires k < |args| && !Sortable(args[k]) && AllConcrete(args) && |args[k].bits| > 0
    ensures SortOf(Chain(current, args)).None?
    decreases |args|
  {
    hide Extend, SortOf, ToNat;
    if k == 0 {
      IllSortedStep(current, args[0]);
      IllSortedStays(Extend(current, args[0]), args[1..]);
    } else {
      IllSortedChain(Extend(current, args[0]), args[1..], k - 1);
    }
  }

  lemma InstanceError(s: GepShape, one: bool)
    requires ValidShape(s) && SortableShape(s)
    ensures var a := InstanceArg(s, one);
            Contribution(a) - BuiltContribution(a)
            == ConstantLoss(s) + if one && s.IndexShape? && s.literal.None? then Lost(s.elementSize) else 0
  {
    hide ToInt, Pow2, ToNat, FromInt;
    if s.IndexShape? {
      MulDistributes(ToInt(InstanceArg(s, one).bits), s.elementSize, 0 - Unsigned32(s.elementSize));
      if s.literal.None? {
        SmallValues(s.width);
      }
    }
  }

  lemma SmallValues(w: nat)
    requires w >= 2
    ensures ToInt(FromInt(1, w)) == 1 && ToInt(FromInt(0, w)) == 0
  {
    assert Pow2(w - 1) == 2 * Pow2(w - 2);
    SmallSigned(1, w);
    SmallSigned(0, w);
  }

  lemma {:induction false} InstancesError(shapes: seq<GepShape>, pick: int)
    requires ValidShapes(shapes) && forall k :: 0 <= k < |shapes| ==> SortableShape(shapes[k])
    ensures var extra := if 0 <= pick < |shapes| && shapes[pick].IndexShape? && shapes[pick].literal.None?
                         then Lost(shapes[pick].elementSize) else 0;
            Error(Instance(shapes, pick)) == ConstantError(shapes) + extra
  {
    hide SortableShape, Contribution, BuiltContribution, ConstantLoss, ValidShape, Lost, InstanceArg;
    if |shapes| > 0 {
      var args := Instance(shapes, pick);
      assert args[1..] == Instance(shapes[1..], pick - 1);
      InstancesError(shapes[1..], pick - 1);
      InstanceError(shapes[0], pick == 0);
    }
  }

  /** With a symbolic base at address 0, the chain is built. */
  lemma InstanceWrong(shapes: seq<GepShape>, pick: int)
    requires ValidShapes(shapes) && !AllZeroShapes(shapes)
    requires (exists k :: 0 <= k < |shapes| && !SortableShape(shapes[k]))
             || ((forall k :: 0 <= k < |shapes| ==> SortableShape(shapes[k]))
                 && Error(Instance(shapes, pick)) % Pow2(PTR_BITS) != 0)
    ensures var base, args := FromInt(0, PTR_BITS), Instance(shapes, pick);
            !RightOn(base, Some(Integer(base)), args, [], base, args)
  {
    hide ValidShapes, HaveShapes, AllZero, AllZeroShapes, Pow2, FromInt, Sortable, Instance, ToNat, Error;
    var base, args := FromInt(0, PTR_BITS), Instance(shapes, pick);
    InstanceShapes(shapes, pick, []);
    ShapesZero(args, shapes);
    var chain := Chain(Integer(base), args);
    assert GepExpr(base, Some(Integer(base)), args) == Some(chain);
    if k :| 0 <= k < |shapes| && !SortableShape(shapes[k]) {
      ShapesSortable(args, shapes, k);
      InstanceBits(shapes, pick, k);
      IllSortedChain(Integer(base), args, k);
    } else {
      forall k | 0 <= k < |args|
        ensures Sortable(args[k])
      {
        ShapesSortable(args, shapes, k);
      }
      ChainDenotes(Integer(base), args, args, [], 0);
      ZeroBase();
      OffByError(args);
    }
  }

  lemma OffByError(args: seq<GepArg>)
    requires Error(args) % Pow2(PTR_BITS) != 0
    ensures FromInt(Offset(args), PTR_BITS) != FromInt(BuiltOffset(args), PTR_BITS)
  {
    hide FromInt, Pow2;
    SameResidue(Offset(args), BuiltOffset(args), PTR_BITS);
  }

  lemma ZeroBase()
    ensures ToNat(FromInt(0, PTR_BITS)) == 0
  {
    hide ToNat, FromNat;
    FromIntToNat(0, PTR_BITS);
  }

  lemma InstanceBits(shapes: seq<GepShape>, pick: int, k: nat)
    requires ValidShapes(shapes) && k < |shapes| && shapes[k].IndexShape?
    ensures Instance(shapes, pick)[k].IndexArg? && |Instance(shapes, pick)[k].bits| > 0
  {
    hide Pow2;
    assert ValidShape(shapes[k]);
  }

  /** The property of an index path: whatever the run-time values and whichever operands are
      symbolic, the expression predicts the address on every other input. */
  ghost predicate AlwaysRight(shapes: seq<GepShape>)
  {
    forall base: Bits, baseExpr: SymExpr, args: seq<GepArg>, j: Input, base': Bits, args': seq<GepArg> ::
      HaveShapes(args, shapes) && |base| == |base'| == PTR_BITS
      && ValuePredicted(baseExpr, Bv(base), j, Bv(base')) && ArgsPredicted(args, j, args')
      ==> RightOn(base, baseExpr, args, j, base', args')
  }

  /** A path is always right exactly if its indices are all literal zeros or it fits. */
  lemma GepExact(shapes: seq<GepShape>)
    requires ValidShapes(shapes)
    ensures AlwaysRight(shapes) <==> AllZeroShapes(shapes) || Fits(shapes)
  {
    hide HaveShapes, RightOn, ValuePredicted, ArgsPredicted, AllZeroShapes, Pow2, ValidShapes, SortableShape,
         ConstantError, Lost;
    if AllZeroShapes(shapes) || Fits(shapes) {
      forall base: Bits, baseExpr: SymExpr, args: seq<GepArg>, j: Input, base': Bits, args': seq<GepArg>
        | HaveShapes(args, shapes) && |base| == |base'| == PTR_BITS
          && ValuePredicted(baseExpr, Bv(base), j, Bv(base')) && ArgsPredicted(args, j, args')
        ensures RightOn(base, baseExpr, args, j, base', args')
      {
        FitsIsRight(shapes, base, baseExpr, args, j, base', args');
      }
    } else {
      var pick := WrongPick(shapes);
      var base, args := FromInt(0, PTR_BITS), Instance(shapes, pick);
      InstanceWrong(shapes, pick);
      InstanceShapes(shapes, pick, []);
      assert ValuePredicted(Some(Integer(base)), Bv(base), [], Bv(base)) by { IntegerPredicts(base); }
      assert !RightOn(base, Some(Integer(base)), args, [], base, args);
    }
  }

  lemma IntegerPredicts(base: Bits)
    ensures ValuePredicted(Some(Integer(base)), Bv(base), [], Bv(base))
  {
  }

  /** Some choice of values shows the error. */
  lemma WrongPick(shapes: seq<GepShape>) returns (pick: int)
    requires ValidShapes(shapes) && !Fits(shapes)
    ensures (exists k :: 0 <= k < |shapes| && !SortableShape(shapes[k]))
            || ((forall k :: 0 <= k < |shapes| ==> SortableShape(shapes[k]))
                && Error(Instance(shapes, pick)) % Pow2(PTR_BITS) != 0)
  {
    hide SortableShape, Pow2, ConstantError, Lost, Instance, Error;
    pick := -1;
    if forall k :: 0 <= k < |shapes| ==> SortableShape(shapes[k]) {
      InstancesError(shapes, -1);
      if ConstantError(shapes) % Pow2(PTR_BITS) == 0 {
        var k :| 0 <= k < |shapes| && !VariableFits(shapes[k]);
        pick := k;
        InstancesError(shapes, k);
        var lost := Lost(shapes[k].elementSize);
        LostNone(shapes[k].elementSize);
        assert ValidShape(shapes[k]);
        NotAMultiple(ConstantError(shapes), lost, Pow2(PTR_BITS));
      }
    }
  }

  lemma NotAMultiple(x: int, y: int, m: int)
    requires 0 < y < m && x % m == 0
    ensures (x + y) % m != 0
  {
    ModUnique(x + y, m, y, x / m);
  }

  // ----- paths without literal indices -----

  function MemberSum(shapes: seq<GepShape>): nat
  {
    if |shapes| == 0 then 0 else (if shapes[0].MemberShape? then shapes[0].offset else 0) + MemberSum(shapes[1..])
  }

  predicate SmallShape(s: GepShape)
  {
    match s
    case MemberShape(_, offset) => offset < Pow2(32)
    case IndexShape(_, _, elementSize) => elementSize < Pow2(32)
  }

  lemma {:induction false} MemberLoss(shapes: seq<GepShape>)
    requires forall k :: 0 <= k < |shapes| && shapes[k].IndexShape? ==> shapes[k].literal.None?
    ensures 0 <= ConstantError(shapes) <= MemberSum(shapes)
    ensures ConstantError(shapes) == 0
            <==> forall k :: 0 <= k < |shapes| && shapes[k].MemberShape? ==> SmallShape(shapes[k])
  {
    hide Pow2, Lost;
    if |shapes| > 0 {
      MemberLoss(shapes[1..]);
      if shapes[0].MemberShape? {
        LostNone(shapes[0].offset);
      }
      assert (forall k :: 0 <= k < |shapes| && shapes[k].MemberShape? ==> SmallShape(shapes[k]))
        <==> (shapes[0].MemberShape? ==> SmallShape(shapes[0]))
             && forall k :: 0 <= k < |shapes[1..]| && shapes[1..][k].MemberShape? ==> SmallShape(shapes[1..][k]) by {
        FirstAndRest(shapes);
      }
    }
  }

  lemma FirstAndRest(shapes: seq<GepShape>)
    requires |shapes| > 0
    ensures (forall k :: 0 <= k < |shapes| && shapes[k].MemberShape? ==> SmallShape(shapes[k]))
            <==> (shapes[0].MemberShape? ==> SmallShape(shapes[0]))
                 && forall k :: 0 <= k < |shapes[1..]| && shapes[1..][k].MemberShape? ==> SmallShape(shapes[1..][k])
  {
    hide SmallShape;
    if forall k :: 0 <= k < |shapes| && shapes[k].MemberShape? ==> SmallShape(shapes[k]) {
      forall k | 0 <= k < |shapes[1..]| && shapes[1..][k].MemberShape?
        ensures SmallShape(shapes[1..][k])
      {
        assert shapes[1..][k] == shapes[k + 1];
      }
    } else if (shapes[0].MemberShape? ==> SmallShape(shapes[0])) {
      var k :| 0 <= k < |shapes| && shapes[k].MemberShape? && !SmallShape(shapes[k]);
      assert shapes[1..][k - 1] == shapes[k];
    }
  }

  /** Without literal indices, and for offsets that stay within the address space, the
      condition is that every offset and element size is below 2^32. */
  lemma FitsMeansSmall(shapes: seq<GepShape>)
    requires forall k :: 0 <= k < |shapes| ==> SortableShape(shapes[k])
    requires forall k :: 0 <= k < |shapes| && shapes[k].IndexShape? ==> shapes[k].literal.None?
    requires MemberSum(shapes) < Pow2(PTR_BITS)
    ensures Fits(shapes) <==> forall k :: 0 <= k < |shapes| ==> SmallShape(shapes[k])
  {
    hide Pow2, ConstantError, MemberSum, SortableShape;
    MemberLoss(shapes);
    var e := ConstantError(shapes);
    ModUnique(e, Pow2(PTR_BITS), e, 0);
    assert (forall k :: 0 <= k < |shapes| ==> SmallShape(shapes[k]))
      <==> (forall k :: 0 <= k < |shapes| ==> VariableFits(shapes[k]))
           && forall k :: 0 <= k < |shapes| && shapes[k].MemberShape? ==> SmallShape(shapes[k]);
  }
}
