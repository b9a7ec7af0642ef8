/** The run-time library at work in an instrumented step: what its entry points push and
    leave in the paged shadow, given a step's operands with their expressions, is what the
    instrumented step says, and what an input satisfies when it satisfies that. */
module RuntimeSteps {
  import opened Options
  import opened BitVectors
  import opened Expressions
  import opened FlatMemory
  import opened Constraints
  import opened PagedShadow
  import opened RuntimeMemory
  import opened Ir
  import opened Concolic
  import opened SwitchBatch

  // ----- what concretisation means -----

  /** On the input the expression, if there is one, has the given value. */
  ghost predicate HasValue(e: SymExpr, n: nat, x: Input)
    requires e.Some? ==> IsBv(e.value, 64)
  {
    e.Some? ==> ToNat(BitsOn(e.value, x)) == n
  }

  /** An input satisfies a concretisation if and only if the symbolic value has its concrete
      value on it. */
  lemma ConcretizeMeans(e: SymExpr, n: nat, x: Input)
    requires n < Pow2(64) && (e.Some? ==> IsBv(e.value, 64))
    ensures SatisfiesAll(x, Concretize(e, n)) <==> HasValue(e, n, x)
  {
    hide ToNat, FromNat, Pow2, SortOf, BitsOn;
    if e.Some? {
      var c := Constraint(Cmp(Eq, e.value, BuildInteger(n, 64)), true);
      assert Concretize(e, n) == [c];
      OneConstraint(x, c);
      WellSortedDenotes(e.value, 64, x);
      var bits := BitsOn(e.value, x);
      ToFromNatSmall(n, 64);
      ModUnique(n, Pow2(64), n, 0);
      FromToNat(bits);
      CmpMeans(e.value, BuildInteger(n, 64), x);
    }
  }

  lemma OneConstraint(x: Input, c: Constraint)
    ensures SatisfiesAll(x, [c]) <==> Satisfies(x, c)
  {
    assert [c][0] == c;
  }

  /** An input satisfies what a move pushes if and only if each symbolic one among
      destination, source and size has its concrete value on it. */
  lemma MovePushesMean(symDst: SymExpr, symSrc: SymExpr, symSize: SymExpr, dst: nat, src: nat, n: nat, x: Input)
    requires dst < Pow2(64) && src < Pow2(64) && n < Pow2(64)
    requires symDst.Some? ==> IsBv(symDst.value, 64)
    requires symSrc.Some? ==> IsBv(symSrc.value, 64)
    requires symSize.Some? ==> IsBv(symSize.value, 64)
    ensures SatisfiesAll(x, MovePushes(symDst, symSrc, symSize, dst, src, n))
            <==> HasValue(symDst, dst, x) && HasValue(symSrc, src, x) && HasValue(symSize, n, x)
  {
    hide SatisfiesAll, Concretize, HasValue, Pow2, SortOf;
    ConcretizeMeans(symDst, dst, x);
    ConcretizeMeans(symSrc, src, x);
    ConcretizeMeans(symSize, n, x);
    SatisfiesConcat(x, Concretize(symDst, dst) + Concretize(symSrc, src), Concretize(symSize, n));
    SatisfiesConcat(x, Concretize(symDst, dst), Concretize(symSrc, src));
  }

  // ----- the steps -----

  /** The shadow that the step finds is the run-time library's. */
  ghost predicate Shadows(table: PageTable, s: Sym)
    reads table, table.pages.Values
  {
    table.Valid() && table.Flat() == s.shadow
  }

  /** A move without a fault: `_sym_memmove`, or `_sym_memcpy` for regions as it demands. */
  method MoveStep(table: PageTable, p: Program, input: Input, s: Sym, ins: Instr, copy: bool)
    returns (pushed: seq<Constraint>)
    requires ins.MoveInstr? && s.c.ctl.Running? && !Exec(p, input, s.c, ins).ctl.Fault? && Shadows(table, s)
    requires copy ==> var dst, src := Size(s, ins.to), Size(s, ins.from);
                      dst == src || dst + Size(s, ins.len) <= src || src + Size(s, ins.len) <= dst
    modifies table, table.pages.Values
    ensures table.Valid() && table.Flat() == ResultShadow(p, input, s, ins)
    ensures pushed == Pushes(s, ins)
  {
    hide MoveShadow, Concretize, MoveMemory, AsSize;
    var dst, src, n := Size(s, ins.to), Size(s, ins.from), Size(s, ins.len);
    if copy {
      pushed := Memcpy(table, ExprOf(s.exprs, ins.to), ExprOf(s.exprs, ins.from), ExprOf(s.exprs, ins.len),
                       dst, src, n);
    } else {
      pushed := Memmove(table, ExprOf(s.exprs, ins.to), ExprOf(s.exprs, ins.from), ExprOf(s.exprs, ins.len),
                        dst, src, n);
    }
  }

  /** The 64-bit value of an operand. */
  function Size(s: Sym, o: Operand): nat
  {
    match AsSize(Get(s.c.regs, o)) case Some(n) => n case None => 0
  }

  /** A fill without a fault: `_sym_memset`. */
  method FillStep(table: PageTable, p: Program, input: Input, s: Sym, ins: Instr) returns (pushed: seq<Constraint>)
    requires ins.FillInstr? && s.c.ctl.Running? && !Exec(p, input, s.c, ins).ctl.Fault? && Shadows(table, s)
    modifies table, table.pages.Values
    ensures table.Valid() && table.Flat() == ResultShadow(p, input, s, ins)
    ensures pushed == Pushes(s, ins)
  {
    hide FillShadow, Concretize, FillMemory, AsSize;
    pushed := Memset(table, ExprOf(s.exprs, ins.to), ExprOf(s.exprs, ins.a), ExprOf(s.exprs, ins.len),
                     Size(s, ins.to), Size(s, ins.len));
  }

  /** A load without a fault: the inserted code pins the address, then `_sym_read_memory`
      yields the expression and pins it once more. */
  method LoadStep(table: PageTable, p: Program, input: Input, s: Sym, ins: Instr)
    returns (result: SymExpr, pushed: seq<Constraint>)
    requires ins.LoadInstr? && s.c.ctl.Running? && !Exec(p, input, s.c, ins).ctl.Fault? && Shadows(table, s)
    ensures result == ResultExpr(p, s, ins) && table.Flat() == ResultShadow(p, input, s, ins)
    ensures pushed == Pushes(s, ins)
  {
    hide ReadMemory, Concretize, LoadBits, AsSize;
    pushed := Concretize(ExprOf(s.exprs, ins.addr), Size(s, ins.addr));
    var more;
    result, more := Read(table, s.c.mem, ExprOf(s.exprs, ins.addr), Size(s, ins.addr), ins.bytes, p.le);
    pushed := pushed + more;
  }

  /** A store without a fault: the inserted code pins the address, then `_sym_write_memory`
      pins it once more and updates the shadow. */
  method StoreStep(table: PageTable, p: Program, input: Input, s: Sym, ins: Instr) returns (pushed: seq<Constraint>)
    requires ins.StoreInstr? && s.c.ctl.Running? && !Exec(p, input, s.c, ins).ctl.Fault? && Shadows(table, s)
    modifies table, table.pages.Values
    ensures table.Valid() && table.Flat() == ResultShadow(p, input, s, ins)
    ensures pushed == Pushes(s, ins)
  {
    hide WriteMemory, Concretize, StoreBits, AsSize;
    pushed := Concretize(ExprOf(s.exprs, ins.addr), Size(s, ins.addr));
    var more := Write(table, ExprOf(s.exprs, ins.addr), ExprOf(s.exprs, ins.a), Size(s, ins.addr), ins.bytes, p.le);
    pushed := pushed + more;
  }

  /** A read of the symbolic input without a fault: the wrapper pins buffer and size and, once
      the bytes are there, marks them symbolic. */
  method ReadStep(table: PageTable, p: Program, input: Input, s: Sym, ins: Instr) returns (pushed: seq<Constraint>)
    requires ins.ReadInstr? && s.c.ctl.Running? && !Exec(p, input, s.c, ins).ctl.Fault? && Shadows(table, s)
    modifies table, table.pages.Values
    ensures table.Valid() && table.Flat() == ResultShadow(p, input, s, ins)
    ensures pushed == Pushes(s, ins)
  {
    hide MakeSymbolic, Concretize, InputMemory, AsSize, FromInt;
    pushed := Concretize(ExprOf(s.exprs, ins.addr), Size(s, ins.addr))
              + Concretize(ExprOf(s.exprs, ins.len), Size(s, ins.len));
    MarkSymbolic(table, Size(s, ins.addr), Available(input, s.c.pos, Size(s, ins.len)), s.c.pos);
  }
}
