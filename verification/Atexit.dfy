// __cxa_atexit and __cxa_finalize with handlers that do not call back into
// them (section 3.3.5.3 of the Itanium C++ ABI).
module Atexit {
  import opened Sequences

  const CAP: nat := 256

  /** fn 0 is the null function pointer, dso 0 the null handle. */
  datatype Entry = Entry(fn: nat, obj: nat, dso: nat)

  predicate Matches(e: Entry, d: nat) { d == 0 || e.dso == d }

  /** The table positions whose handlers a finalize calls, newest first. */
  function Called(table: seq<Entry>, d: nat): seq<nat> {
    if table == [] then []
    else
      var n := |table| - 1;
      (if Matches(table[n], d) && table[n].fn != 0 then [n] else []) + Called(table[..n], d)
  }

  function Cleared(table: seq<Entry>, d: nat): seq<Entry> {
    seq(|table|, i requires 0 <= i < |table| => if Matches(table[i], d) then table[i].(fn := 0) else table[i])
  }

  class AtexitTable {
    const table: array<Entry>
    var count: nat
    var calls: seq<(nat, nat)>   // handler and argument, in call order

    ghost predicate Valid()
      reads this
    {
      table.Length == CAP && count <= CAP
    }

    constructor ()
      ensures Valid() && fresh(table) && count == 0 && calls == []
    {
      table := new Entry[CAP](_ => Entry(0, 0, 0));
      count, calls := 0, [];
    }

    method AtExit(f: nat, p: nat, d: nat) returns (r: int)
      requires Valid()
      modifies this`count, table
      ensures Valid() && (r == 0 <==> f != 0 && old(count) < CAP)
      ensures table[..count] == if r == 0 then old(table[..count]) + [Entry(f, p, d)] else old(table[..count])
    {
      if f == 0 { return 1; }
      if count >= CAP { return 1; }
      table[count] := Entry(f, p, d);
      count := count + 1;
      return 0;
    }

    method Finalize(d: nat)
      requires Valid()
      modifies this`calls, table
      ensures Valid() && table[..count] == Cleared(old(table[..count]), d)
      ensures calls == old(calls) + Targets(old(table[..count]), Called(old(table[..count]), d))
    {
      ghost var t0, c0 := table[..count], calls;
      var i: int := count - 1;
      assert t0[..i + 1] == t0;
      while i >= 0
        invariant -1 <= i < count
        invariant table[..i + 1] == t0[..i + 1] && table[i + 1..count] == Cleared(t0, d)[i + 1..]
        invariant calls + Targets(t0, Called(t0[..i + 1], d)) == c0 + Targets(t0, Called(t0, d))
      {
        CallOne(i, d, t0, c0 + Targets(t0, Called(t0, d)));
        i := i - 1;
      }
      assert t0[..0] == [] && Targets(t0, []) == [] && calls + [] == calls;
    }

    /** Any sequence of calls: the table is that of the run, and the handlers
        called so far are, in order, those the run has called, with the arguments
        they were registered with. */
    method Perform(ops: seq<Op>)
      requires Valid() && count == 0 && calls == []
      modifies this`count, this`calls, table
      ensures Valid()
      ensures var s := Run(START, ops); table[..count] == s.table && calls == Targets(s.entered, s.ran)
    {
      ghost var s := START;
      for i := 0 to |ops|
        invariant Valid() && Inv(s) && Run(s, ops[i..]) == Run(START, ops)
        invariant table[..count] == s.table && calls == Targets(s.entered, s.ran)
      {
        assert ops[i..][0] == ops[i] && ops[i..][1..] == ops[i + 1..];
        match ops[i] {
          case Register(f, p, d) => var r := AtExit(f, p, d);
          case Finalize(d) => Finalize(d);
        }
        StepInv(s, ops[i]);
        StepTargets(s, ops[i]);
        s := Step(s, ops[i]);
      }
      assert ops[|ops|..] == [];
    }

    /** One turn of the finalize loop, at entry `i`. */
    method CallOne(i: nat, d: nat, ghost t0: seq<Entry>, ghost goal: seq<(nat, nat)>)
      requires Valid() && i < count == |t0| && table[..i + 1] == t0[..i + 1]
      requires calls + Targets(t0, Called(t0[..i + 1], d)) == goal
      modifies this`calls, table
      ensures table[..i] == t0[..i] && table[i] == Cleared(t0, d)[i] && table[i + 1..count] == old(table[i + 1..count])
      ensures calls + Targets(t0, Called(t0[..i], d)) == goal
    {
      assert table[i] == table[..i + 1][i] == t0[i];
      assert t0[..i + 1][..i] == t0[..i] && t0[..i + 1][i] == t0[i];
      ghost var rest := Called(t0[..i], d);
      if d == 0 || table[i].dso == d {
        if table[i].fn != 0 {
          TargetsCons(t0, i, rest);
          Regroup(calls, [(table[i].fn, table[i].obj)], Targets(t0, rest));
          calls := calls + [(table[i].fn, table[i].obj)];
        }
        table[i] := table[i].(fn := 0);
      }
    }
  }

  function Targets(table: seq<Entry>, which: seq<nat>): seq<(nat, nat)> {
    seq(|which|, i requires 0 <= i < |which| =>
      if which[i] < |table| then (table[which[i]].fn, table[which[i]].obj) else (0, 0))
  }

  lemma TargetsCons(table: seq<Entry>, n: nat, which: seq<nat>)
    requires n < |table|
    ensures Targets(table, [n] + which) == [(table[n].fn, table[n].obj)] + Targets(table, which)
  {
  }

  // ---------------------------------------------------------------------
  // Runs.  `entered` is the table as it was registered, `ran` lists the
  // positions called so far, in order.

  datatype Op = Register(f: nat, p: nat, d: nat) | Finalize(d: nat)
  datatype State = State(table: seq<Entry>, entered: seq<Entry>, ran: seq<nat>)

  const START: State := State([], [], [])

  function Step(s: State, op: Op): State {
    match op
    case Register(f, p, d) =>
      if f != 0 && |s.table| < CAP then
        s.(table := s.table + [Entry(f, p, d)], entered := s.entered + [Entry(f, p, d)])
      else s
    case Finalize(d) => s.(table := Cleared(s.table, d), ran := s.ran + Called(s.table, d))
  }

  function Run(s: State, ops: seq<Op>): State
    decreases |ops|
  {
    if ops == [] then s else Run(Step(s, ops[0]), ops[1..])
  }

  /** A finalize calls exactly the matching handlers still set, newest first. */
  lemma {:induction false} CalledSpec(table: seq<Entry>, d: nat)
    ensures forall i: nat :: i in Called(table, d) <==> i < |table| && Matches(table[i], d) && table[i].fn != 0
    ensures forall a, b :: 0 <= a < b < |Called(table, d)| ==> Called(table, d)[a] > Called(table, d)[b]
  {
    if table != [] {
      var n := |table| - 1;
      CalledSpec(table[..n], d);
      var rest := Called(table[..n], d);
      var head := if Matches(table[n], d) && table[n].fn != 0 then [n] else [];
      assert Called(table, d) == head + rest;
      forall i: nat ensures i in head + rest <==> i < |table| && Matches(table[i], d) && table[i].fn != 0 {
        assert i in head + rest <==> i in head || i in rest;
      }
      forall b | 0 <= b < |rest| ensures rest[b] < n { assert rest[b] in rest; }
    }
  }

  /** Nothing runs twice, and a handler has run exactly when its entry is cleared. */
  ghost predicate Inv(s: State) {
    && |s.table| == |s.entered| <= CAP
    && (forall i :: 0 <= i < |s.table| ==> s.table[i] == s.entered[i] || s.table[i] == s.entered[i].(fn := 0))
    && (forall a, b :: 0 <= a < b < |s.ran| ==> s.ran[a] != s.ran[b])
    && (forall i: nat :: i in s.ran <==> i < |s.table| && s.table[i].fn == 0)
  }

  lemma StepInv(s: State, op: Op)
    requires Inv(s)
    ensures Inv(Step(s, op))
  {
    match op
    case Register(f, p, d) =>
    case Finalize(d) =>
      CalledSpec(s.table, d);
      var due := Called(s.table, d);
      forall a, b | 0 <= a < |s.ran| && 0 <= b < |due| ensures s.ran[a] != due[b] {
        assert s.ran[a] in s.ran && due[b] in due;
      }
      assert forall i :: i in s.ran + due <==> i in s.ran || i in due;
  }

  lemma TargetsAppend(table: seq<Entry>, a: seq<nat>, b: seq<nat>)
    ensures Targets(table, a + b) == Targets(table, a) + Targets(table, b)
  {
  }

  predicate SameAt(t: seq<Entry>, u: seq<Entry>, which: seq<nat>) {
    forall i :: 0 <= i < |which| ==> which[i] < |t| && which[i] < |u| && t[which[i]] == u[which[i]]
  }

  lemma TargetsSame(t: seq<Entry>, u: seq<Entry>, which: seq<nat>)
    requires SameAt(t, u, which)
    ensures Targets(t, which) == Targets(u, which)
  {
  }

  /** What a step adds to the calls, told by what was registered. */
  lemma StepTargets(s: State, op: Op)
    requires Inv(s)
    ensures var s' := Step(s, op);
      Targets(s'.entered, s'.ran)
      == Targets(s.entered, s.ran) + if op.Finalize? then Targets(s.table, Called(s.table, op.d)) else []
  {
    match op
    case Register(f, p, d) =>
      forall i | 0 <= i < |s.ran| ensures s.ran[i] < |s.entered| { assert s.ran[i] in s.ran; }
      TargetsSame(s.entered, Step(s, op).entered, s.ran);
    case Finalize(d) =>
      var due := Called(s.table, d);
      CalledSpec(s.table, d);
      forall i | 0 <= i < |due| ensures due[i] < |s.table| && s.table[due[i]] == s.entered[due[i]] {
        assert due[i] in due;
      }
      TargetsSame(s.table, s.entered, due);
      TargetsAppend(s.entered, s.ran, due);
  }

  lemma {:induction false} RunInv(s: State, ops: seq<Op>)
    requires Inv(s)
    ensures Inv(Run(s, ops))
    decreases |ops|
  {
    if ops != [] {
      StepInv(s, ops[0]);
      RunInv(Step(s, ops[0]), ops[1..]);
    }
  }

  /** No handler runs twice, over any run. */
  lemma EachRunsAtMostOnce(ops: seq<Op>)
    ensures var ran := Run(START, ops).ran; forall a, b :: 0 <= a < b < |ran| ==> ran[a] != ran[b]
  {
    RunInv(START, ops);
  }

  ghost predicate Finalizes(ops: seq<Op>, d: nat) {
    exists j :: 0 <= j < |ops| && ops[j].Finalize? && (ops[j].d == 0 || ops[j].d == d)
  }

  /** From a registered entry on: it has run at the end if it had run before or
      a matching finalize follows. */
  lemma {:induction false} RunsIffFinalized(s: State, ops: seq<Op>, i: nat)
    requires Inv(s) && i < |s.table|
    ensures i in Run(s, ops).ran <==> i in s.ran || Finalizes(ops, s.table[i].dso)
    decreases |ops|
  {
    if ops != [] {
      var s', rest := Step(s, ops[0]), ops[1..];
      StepInv(s, ops[0]);
      if ops[0].Finalize? { CalledSpec(s.table, ops[0].d); }
      RunsIffFinalized(s', rest, i);
      assert Finalizes(rest, s.table[i].dso) ==> Finalizes(ops, s.table[i].dso) by {
        if j :| 0 <= j < |rest| && rest[j].Finalize? && (rest[j].d == 0 || rest[j].d == s.table[i].dso) {
          assert ops[j + 1] == rest[j];
        }
      }
      var now := ops[0].Finalize? && Matches(s.table[i], ops[0].d);
      assert Finalizes(ops, s.table[i].dso) ==> Finalizes(rest, s.table[i].dso) || now by {
        if j :| 0 <= j < |ops| && ops[j].Finalize? && (ops[j].d == 0 || ops[j].d == s.table[i].dso) {
          if j != 0 { assert rest[j - 1] == ops[j]; }
        }
      }
    }
  }

  /** Over any run: an accepted handler runs exactly when a matching finalize
      follows its registration. */
  lemma RunsExactlyWhenDue(s: State, f: nat, p: nat, d: nat, after: seq<Op>)
    requires Inv(s) && f != 0 && |s.table| < CAP
    ensures |s.table| in Run(s, [Register(f, p, d)] + after).ran <==> Finalizes(after, d)
  {
    var op := Register(f, p, d);
    var s' := Step(s, op);
    StepInv(s, op);
    assert ([op] + after)[1..] == after;
    assert Run(s, [op] + after) == Run(s', after);
    RunsIffFinalized(s', after, |s.table|);
  }
}
