/** The global slots through which instrumented functions pass the expressions of arguments
    and results, and the protocol that caller and callee follow. */
module CallSlots {
  import opened Options
  import opened Expressions

  /** kMaxFunctionArguments; indices travel as 8-bit numbers. */
  const MAX_ARGUMENTS: nat := 256

  // ----- passing arguments -----

  /** The argument slots after the caller has stored its first `k` arguments. */
  function Stored(slots: seq<SymExpr>, args: seq<SymExpr>, k: nat): (r: seq<SymExpr>)
    requires |slots| == MAX_ARGUMENTS && k <= |args|
    ensures |r| == MAX_ARGUMENTS
  {
    if k == 0 then slots else Stored(slots, args, k - 1)[(k - 1) % MAX_ARGUMENTS := args[k - 1]]
  }

  /** What the callee reads for its parameters. */
  function Received(slots: seq<SymExpr>, n: nat): (r: seq<SymExpr>)
    requires |slots| == MAX_ARGUMENTS
    ensures |r| == n
  {
    seq(n, i requires 0 <= i < n => slots[i % MAX_ARGUMENTS])
  }

  lemma {:induction false} StoredAt(slots: seq<SymExpr>, args: seq<SymExpr>, k: nat, i: nat)
    requires |slots| == MAX_ARGUMENTS && i < k <= |args| <= MAX_ARGUMENTS
    ensures Stored(slots, args, k)[i] == args[i]
  {
    if i < k - 1 {
      StoredAt(slots, args, k - 1, i);
    }
  }

  /** With at most 256 arguments the callee reads exactly its caller's. */
  lemma ReceivedAll(slots: seq<SymExpr>, args: seq<SymExpr>)
    requires |slots| == MAX_ARGUMENTS && |args| <= MAX_ARGUMENTS
    ensures Received(Stored(slots, args, |args|), |args|) == args
  {
    hide Stored, Received;
    var after := Stored(slots, args, |args|);
    var r := Received(after, |args|);
    forall i | 0 <= i < |args|
      ensures r[i] == args[i]
    {
      StoredAt(slots, args, |args|, i);
      ReceivedAt(after, |args|, i);
    }
  }

  lemma ReceivedAt(slots: seq<SymExpr>, n: nat, i: nat)
    requires |slots| == MAX_ARGUMENTS && i < n && i < MAX_ARGUMENTS
    ensures Received(slots, n)[i] == slots[i]
  {
  }

  /** One symbolic argument after a concrete first one. */
  function Wrapping(n: nat): (r: seq<SymExpr>)
    requires n > 0
    ensures |r| == n
  {
    [None] + seq(n - 1, i => Some(InputByte(0)))
  }

  lemma {:induction false} WrappingStored(slots: seq<SymExpr>, n: nat, k: nat)
    requires |slots| == MAX_ARGUMENTS && MAX_ARGUMENTS < k <= n
    ensures Stored(slots, Wrapping(n), k)[0] == Some(InputByte(0))
  {
    if k > MAX_ARGUMENTS + 1 {
      WrappingStored(slots, n, k - 1);
    }
  }

  /** The 8-bit index is exactly what limits the protocol: every argument list of length n
      arrives intact if and only if n is at most 256. */
  lemma ArgumentLimit(slots: seq<SymExpr>, n: nat)
    requires |slots| == MAX_ARGUMENTS
    ensures (forall args: seq<SymExpr> :: |args| == n ==> Received(Stored(slots, args, |args|), |args|) == args)
            <==> n <= MAX_ARGUMENTS
  {
    hide Stored, Received, Wrapping;
    if n <= MAX_ARGUMENTS {
      forall args: seq<SymExpr> | |args| == n
        ensures Received(Stored(slots, args, |args|), |args|) == args
      {
        ReceivedAll(slots, args);
      }
    } else {
      WrappingFails(slots, n);
    }
  }

  lemma WrappingFails(slots: seq<SymExpr>, n: nat)
    requires |slots| == MAX_ARGUMENTS && n > MAX_ARGUMENTS
    ensures Received(Stored(slots, Wrapping(n), n), n) != Wrapping(n)
  {
    hide Stored;
    WrappingStored(slots, n, n);
    assert Received(Stored(slots, Wrapping(n), n), n)[0] == Some(InputByte(0)) && Wrapping(n)[0] == None;
  }

  // ----- calls -----

  /** A call as it happened: an instrumented callee with the calls it made in turn and the
      expression it returned (none for a void function), or an uninstrumented leaf. */
  datatype Call =
    | Instrumented(args: seq<SymExpr>, used: bool, body: seq<Call>, ret: Option<SymExpr>)
    | Leaf(args: seq<SymExpr>, used: bool)

  /** What instrumented code reads from the slots. */
  datatype Event = ParametersRead(exprs: seq<SymExpr>) | ResultRead(expr: SymExpr)

  /** A used result is returned; no more arguments than slots. */
  predicate WellFormed(c: Call)
  {
    && |c.args| <= MAX_ARGUMENTS
    && (c.Instrumented? ==> (c.used ==> c.ret.Some?) && forall i :: 0 <= i < |c.body| ==> WellFormed(c.body[i]))
  }

  /** What each function should read: its own caller's arguments, and for each call the
      expression that very callee returned, or null from an uninstrumented one. */
  function Ideal(c: Call): seq<Event>
    decreases c, 0
  {
    match c
    case Instrumented(args, used, body, ret) =>
      [ParametersRead(args)] + IdealAll(body) + (if used && ret.Some? then [ResultRead(ret.value)] else [])
    case Leaf(_, used) => if used then [ResultRead(None)] else []
  }

  function IdealAll(cs: seq<Call>): seq<Event>
    decreases cs, 1
  {
    if |cs| == 0 then [] else Ideal(cs[0]) + IdealAll(cs[1..])
  }

  /** The globals of runtime/RuntimeCommon.cpp. */
  class Slots {
    var returnValue: SymExpr
    const arguments: array<SymExpr>

    ghost predicate Valid() { arguments.Length == MAX_ARGUMENTS }

    constructor ()
      ensures Valid() && fresh(arguments)
    {
      returnValue := None;
      arguments := new SymExpr[MAX_ARGUMENTS](_ => None);
    }

    method SetReturnExpression(e: SymExpr)
      modifies this
      ensures returnValue == e
    {
      returnValue := e;
    }

    method GetReturnExpression() returns (e: SymExpr)
      modifies this
      ensures e == old(returnValue) && returnValue == None
    {
      e := returnValue;
      returnValue := None;
    }

    /** The calls of `_sym_set_parameter_expression` before a call. */
    method SetParameters(args: seq<SymExpr>)
      requires Valid()
      modifies arguments
      ensures arguments[..] == Stored(old(arguments[..]), args, |args|)
    {
      var i := 0;
      while i < |args|
        invariant 0 <= i <= |args|
        invariant arguments[..] == Stored(old(arguments[..]), args, i)
      {
        arguments[i % MAX_ARGUMENTS] := args[i];
        i := i + 1;
      }
    }

    /** The calls of `_sym_get_parameter_expression` at function entry. */
    method GetParameters(n: nat) returns (r: seq<SymExpr>)
      requires Valid()
      ensures r == Received(arguments[..], n)
    {
      r := [];
      var i := 0;
      while i < n
        invariant 0 <= i <= n && r == Received(arguments[..], i)
      {
        r := r + [arguments[i % MAX_ARGUMENTS]];
        i := i + 1;
      }
    }

    /** A call as the instrumented caller and callee perform it. */
    method Execute(c: Call) returns (events: seq<Event>)
      requires Valid() && WellFormed(c)
      modifies this, arguments
      ensures events == Ideal(c)
      decreases c, 0
    {
      SetParameters(c.args);
      ReceivedAll(old(arguments[..]), c.args);
      if c.used {
        SetReturnExpression(None);
      }
      events := [];
      match c {
        case Instrumented(args, used, body, ret) =>
          var parameters := GetParameters(|args|);
          events := [ParametersRead(parameters)];
          var inner := ExecuteAll(body);
          events := events + inner;
          if ret.Some? {
            SetReturnExpression(ret.value);
          }
        case Leaf(_, _) =>
      }
      if c.used {
        var e := GetReturnExpression();
        events := events + [ResultRead(e)];
      }
    }

    /** The calls that a function body makes, one after the other. */
    method ExecuteAll(cs: seq<Call>) returns (events: seq<Event>)
      requires Valid() && forall i :: 0 <= i < |cs| ==> WellFormed(cs[i])
      modifies this, arguments
      ensures events == IdealAll(cs)
      decreases cs, 1
    {
      if |cs| == 0 {
        return [];
      }
      var first := Execute(cs[0]);
      var rest := ExecuteAll(cs[1..]);
      events := first + rest;
    }
  }
}
