/*
 * xd_visit_stmts, xd_do_if, xd_do_while and xd_new_basic_block: a
 * statement list is cut into basic blocks at every if and while, each
 * block becomes a clause guarded by the condition it runs under, and
 * conditions are numbered as they are allocated.  The generated clauses
 * are described first as steps (which block under which condition, which
 * condition set from what) and then realized as clauses.
 */
module ControlFlow {
  import opened Syntax
  import opened Names
  import opened Clauses

  /**
   * One generated clause.  Block: a basic block under condition `cond`,
   * with the number of conditions allocated when it was emitted (which
   * decides whether a block under condition 0 gets the !error guard).
   * SetCond: condition id := (condition base, or 1 for base 0) && value.
   * SetNotCond: condition id := (condition base, or 1) && !condition negated.
   */
  datatype Step =
    | Block(cond: nat, numConditions: nat, stmts: seq<Node>)
    | SetCond(id: nat, base: nat, value: Node)
    | SetNotCond(id: nat, base: nat, negated: nat)

  function Realize(pdescs: seq<PDesc>, s: Step): Clause
  {
    match s
    case Block(cond, numConditions, stmts) => BasicBlockClause(pdescs, cond, numConditions, stmts)
    case SetCond(id, base, value) => ConditionClause(pdescs, value, base, id)
    case SetNotCond(id, base, negated) => ConditionClause(pdescs, Op1(LNeg, CondRef(negated)), base, id)
  }

  function RealizeAll(pdescs: seq<PDesc>, steps: seq<Step>): (r: seq<Clause>)
    ensures |r| == |steps|
  {
    seq(|steps|, i requires 0 <= i < |steps| => Realize(pdescs, steps[i]))
  }

  /** The generated steps and the number of conditions allocated afterwards. */
  datatype Flow = Flow(steps: seq<Step>, n: nat)

  /** The pending basic block, if it holds any statement. */
  function Flush(pre: nat, n: nat, pending: seq<Node>): seq<Step>
  {
    if pending == [] then [] else [Block(pre, n, pending)]
  }

  /** while<N> runs its segment N times, and once when N <= 1. */
  function Iterations(maxIter: int): (k: nat)
    ensures k >= 1 && (maxIter >= 1 ==> k == maxIter)
  {
    if maxIter <= 1 then 1 else maxIter
  }

  function Repeat<T>(seg: seq<T>, k: nat): seq<T>
  {
    if k == 0 then [] else seg + Repeat(seg, k - 1)
  }

  /**
   * xd_visit_stmts over the statements still to visit, with the current
   * basic block `pending`, under precondition `pre`, n conditions allocated.
   */
  function Stmts(stmts: seq<Node>, pre: nat, n: nat, pending: seq<Node>): (r: Flow)
    ensures r.n >= n
    decreases stmts
  {
    if stmts == [] then Flow(Flush(pre, n, pending), n)
    else if stmts[0].If? || stmts[0].While? then
      var o := Control(stmts[0], pre, n);
      var rest := Stmts(stmts[1..], pre, o.n, []);
      Flow(Flush(pre, n, pending) + o.steps + rest.steps, rest.n)
    else Stmts(stmts[1..], pre, n, pending + [stmts[0]])
  }

  function VisitStmts(stmts: seq<Node>, pre: nat, n: nat): Flow
  {
    Stmts(stmts, pre, n, [])
  }

  /** xd_do_if and xd_do_while. */
  function Control(s: Node, pre: nat, n: nat): (r: Flow)
    requires s.If? || s.While?
    ensures r.n > n
    decreases s
  {
    if s.If? then
      var c := n + 1;
      var body := Stmts(s.body, c, c, []);
      if s.alt == [] then Flow([SetCond(c, pre, s.test)] + body.steps, body.n)
      else
        var e := body.n + 1;
        var alt := Stmts(s.alt, e, e, []);
        Flow([SetCond(c, pre, s.test)] + body.steps + [SetNotCond(e, pre, c)] + alt.steps, alt.n)
    else
      var d := n + 1;
      var body := Stmts(s.body, d, d, []);
      Flow([SetCond(d, pre, Int(1))] + Repeat([SetCond(d, d, s.test)] + body.steps, Iterations(s.maxIter)), body.n)
  }
}

module ControlFlowProps {
  import opened Syntax
  import opened Names
  import opened Clauses
  import opened ControlFlow

  // ---------------------------------------------------- allocation count

  /** Conditions a statement list allocates: one per if, one more per else, one per while, nested ones included. */
  function Allocs(stmts: seq<Node>): nat
    decreases stmts
  {
    if stmts == [] then 0 else Alloc(stmts[0]) + Allocs(stmts[1..])
  }

  function Alloc(s: Node): nat
    decreases s
  {
    match s
    case If(_, body, alt) => 1 + Allocs(body) + (if alt == [] then 0 else 1 + Allocs(alt))
    case While(_, _, body) => 1 + Allocs(body)
    case _ => 0
  }

  lemma {:induction false} StmtsAllocs(stmts: seq<Node>, pre: nat, n: nat, pending: seq<Node>)
    ensures Stmts(stmts, pre, n, pending).n == n + Allocs(stmts)
    decreases stmts
  {
    if stmts != [] {
      if stmts[0].If? || stmts[0].While? {
        ControlAllocs(stmts[0], pre, n);
        StmtsAllocs(stmts[1..], pre, Control(stmts[0], pre, n).n, []);
      } else {
        StmtsAllocs(stmts[1..], pre, n, pending + [stmts[0]]);
      }
    }
  }

  lemma {:induction false} ControlAllocs(s: Node, pre: nat, n: nat)
    requires s.If? || s.While?
    ensures Control(s, pre, n).n == n + Alloc(s)
    decreases s
  {
    StmtsAllocs(s.body, n + 1, n + 1, []);
    if s.If? && s.alt != [] {
      var e := Stmts(s.body, n + 1, n + 1, []).n + 1;
      StmtsAllocs(s.alt, e, e, []);
    }
  }

  // ---------------------------------------------------------- density

  function Def(s: Step): set<nat>
  {
    if s.Block? then {} else {s.id}
  }

  /** The condition ids the steps assign. */
  function Defined(steps: seq<Step>): set<nat>
  {
    if steps == [] then {} else Def(steps[0]) + Defined(steps[1..])
  }

  lemma {:induction false} DefinedAppend(a: seq<Step>, b: seq<Step>)
    ensures Defined(a + b) == Defined(a) + Defined(b)
  {
    if a == [] {
      assert a + b == b;
    } else {
      assert (a + b)[1..] == a[1..] + b;
      DefinedAppend(a[1..], b);
    }
  }

  predicate Between(lo: nat, k: nat, hi: nat)
  {
    lo < k <= hi
  }

  /** The ids lo+1 .. hi. */
  function Range(lo: nat, hi: nat): set<nat>
  {
    set k: nat | k <= hi && Between(lo, k, hi)
  }

  lemma RangeSplit(a: nat, b: nat, c: nat)
    requires a <= b <= c
    ensures Range(a, b) + Range(b, c) == Range(a, c)
    ensures Range(a, a) == {}
  {
  }

  lemma RangeOne(a: nat)
    ensures Range(a, a + 1) == {a + 1}
  {
  }

  lemma {:induction false} RepeatDefined(seg: seq<Step>, k: nat)
    requires k >= 1
    ensures Defined(Repeat(seg, k)) == Defined(seg)
  {
    if k == 1 {
      assert Repeat(seg, 1) == seg + [];
      DefinedAppend(seg, []);
    } else {
      RepeatDefined(seg, k - 1);
      DefinedAppend(seg, Repeat(seg, k - 1));
    }
  }

  /** Condition ids are dense: a statement list assigns exactly the ids n+1 .. n' it allocates, and no other. */
  lemma {:induction false} StmtsDensity(stmts: seq<Node>, pre: nat, n: nat, pending: seq<Node>)
    ensures Defined(Stmts(stmts, pre, n, pending).steps) == Range(n, Stmts(stmts, pre, n, pending).n)
    decreases stmts
  {
    if stmts == [] {
      RangeSplit(n, n, n);
      assert Defined(Flush(pre, n, pending)) == {} by {
        if pending != [] { assert Flush(pre, n, pending)[1..] == []; }
      }
    } else if stmts[0].If? || stmts[0].While? {
      var o := Control(stmts[0], pre, n);
      var rest := Stmts(stmts[1..], pre, o.n, []);
      ControlDensity(stmts[0], pre, n);
      StmtsDensity(stmts[1..], pre, o.n, []);
      var f := Flush(pre, n, pending);
      assert Defined(f) == {} by {
        if pending != [] { assert f[1..] == []; }
      }
      DefinedAppend(f, o.steps);
      DefinedAppend(f + o.steps, rest.steps);
      RangeSplit(n, o.n, rest.n);
    } else {
      StmtsDensity(stmts[1..], pre, n, pending + [stmts[0]]);
    }
  }

  lemma {:induction false} ControlDensity(s: Node, pre: nat, n: nat)
    requires s.If? || s.While?
    ensures Defined(Control(s, pre, n).steps) == Range(n, Control(s, pre, n).n)
    decreases s
  {
    var c := n + 1;
    var body := Stmts(s.body, c, c, []);
    StmtsDensity(s.body, c, c, []);
    RangeOne(n);
    RangeSplit(n, c, body.n);
    var head: seq<Step> := [if s.If? then SetCond(c, pre, s.test) else SetCond(c, pre, Int(1))];
    assert Defined(head) == {c} by { assert head[1..] == []; }
    if s.If? {
      DefinedAppend(head, body.steps);
      if s.alt != [] {
        var e := body.n + 1;
        var alt := Stmts(s.alt, e, e, []);
        StmtsDensity(s.alt, e, e, []);
        var neg: seq<Step> := [SetNotCond(e, pre, c)];
        assert Defined(neg) == {e} by { assert neg[1..] == []; }
        DefinedAppend(head + body.steps, neg);
        DefinedAppend(head + body.steps + neg, alt.steps);
        RangeOne(body.n);
        RangeSplit(n, body.n, e);
        RangeSplit(n, e, alt.n);
      }
    } else {
      var seg := [SetCond(c, c, s.test)] + body.steps;
      RepeatDefined(seg, Iterations(s.maxIter));
      assert Defined([SetCond(c, c, s.test)]) == {c} by { assert [SetCond(c, c, s.test)][1..] == []; }
      DefinedAppend([SetCond(c, c, s.test)], body.steps);
      DefinedAppend(head, Repeat(seg, Iterations(s.maxIter)));
    }
  }

  // -------------------------------------------- conditions read after set

  /** The condition ids a step reads (0 standing for "no condition"). */
  function Reads(s: Step): set<nat>
  {
    match s
    case Block(cond, _, _) => {cond}
    case SetCond(_, base, _) => {base}
    case SetNotCond(_, base, negated) => {base, negated}
  }

  /** Every step reads only ids in `avail` or ids an earlier step assigned. */
  predicate Closed(steps: seq<Step>, avail: set<nat>)
  {
    steps == [] || (Reads(steps[0]) <= avail && Closed(steps[1..], avail + Def(steps[0])))
  }

  lemma {:induction false} ClosedMono(steps: seq<Step>, avail: set<nat>, more: set<nat>)
    requires Closed(steps, avail) && avail <= more
    ensures Closed(steps, more)
  {
    if steps != [] {
      ClosedMono(steps[1..], avail + Def(steps[0]), more + Def(steps[0]));
    }
  }

  lemma {:induction false} ClosedAppend(a: seq<Step>, b: seq<Step>, avail: set<nat>)
    requires Closed(a, avail) && Closed(b, avail + Defined(a))
    ensures Closed(a + b, avail)
  {
    if a == [] {
      assert a + b == b;
      assert avail + Defined(a) == avail;
    } else {
      assert (a + b)[1..] == a[1..] + b;
      assert avail + Def(a[0]) + Defined(a[1..]) == avail + Defined(a);
      ClosedAppend(a[1..], b, avail + Def(a[0]));
    }
  }

  lemma {:induction false} RepeatClosed(seg: seq<Step>, k: nat, avail: set<nat>)
    requires Closed(seg, avail)
    ensures Closed(Repeat(seg, k), avail)
  {
    if k > 0 {
      RepeatClosed(seg, k - 1, avail);
      ClosedMono(Repeat(seg, k - 1), avail, avail + Defined(seg));
      ClosedAppend(seg, Repeat(seg, k - 1), avail);
    }
  }

  lemma ClosedOne(s: Step, avail: set<nat>)
    requires Reads(s) <= avail
    ensures Closed([s], avail)
  {
    assert [s][1..] == [];
  }

  /**
   * No condition is read before it is set: every generated clause reads
   * only the precondition it runs under or a condition an earlier
   * generated clause assigned.
   */
  lemma {:induction false} StmtsClosed(stmts: seq<Node>, pre: nat, n: nat, pending: seq<Node>)
    ensures Closed(Stmts(stmts, pre, n, pending).steps, {pre})
    decreases stmts
  {
    if stmts == [] {
      if pending != [] { ClosedOne(Block(pre, n, pending), {pre}); }
    } else if stmts[0].If? || stmts[0].While? {
      var o := Control(stmts[0], pre, n);
      var rest := Stmts(stmts[1..], pre, o.n, []);
      var f := Flush(pre, n, pending);
      if pending != [] { ClosedOne(Block(pre, n, pending), {pre}); }
      ControlClosed(stmts[0], pre, n);
      StmtsClosed(stmts[1..], pre, o.n, []);
      ClosedMono(o.steps, {pre}, {pre} + Defined(f));
      ClosedAppend(f, o.steps, {pre});
      ClosedMono(rest.steps, {pre}, {pre} + Defined(f + o.steps));
      ClosedAppend(f + o.steps, rest.steps, {pre});
    } else {
      StmtsClosed(stmts[1..], pre, n, pending + [stmts[0]]);
    }
  }

  lemma {:induction false} ControlClosed(s: Node, pre: nat, n: nat)
    requires s.If? || s.While?
    ensures Closed(Control(s, pre, n).steps, {pre})
    decreases s
  {
    var c := n + 1;
    var body := Stmts(s.body, c, c, []);
    StmtsClosed(s.body, c, c, []);
    var head: seq<Step> := [if s.If? then SetCond(c, pre, s.test) else SetCond(c, pre, Int(1))];
    ClosedOne(head[0], {pre});
    assert Defined(head) == {c} by { assert head[1..] == []; }
    if s.If? {
      ClosedMono(body.steps, {c}, {pre} + Defined(head));
      ClosedAppend(head, body.steps, {pre});
      if s.alt != [] {
        var e := body.n + 1;
        var alt := Stmts(s.alt, e, e, []);
        StmtsClosed(s.alt, e, e, []);
        var neg: seq<Step> := [SetNotCond(e, pre, c)];
        DefinedAppend(head, body.steps);
        ClosedOne(neg[0], {pre} + Defined(head + body.steps));
        ClosedAppend(head + body.steps, neg, {pre});
        assert Defined(neg) == {e} by { assert neg[1..] == []; }
        DefinedAppend(head + body.steps, neg);
        ClosedMono(alt.steps, {e}, {pre} + Defined(head + body.steps + neg));
        ClosedAppend(head + body.steps + neg, alt.steps, {pre});
      }
    } else {
      var test: seq<Step> := [SetCond(c, c, s.test)];
      var seg := test + body.steps;
      ClosedOne(test[0], {pre} + {c});
      assert Defined(test) == {c} by { assert test[1..] == []; }
      ClosedMono(body.steps, {c}, {pre} + {c} + Defined(test));
      ClosedAppend(test, body.steps, {pre} + {c});
      RepeatClosed(seg, Iterations(s.maxIter), {pre} + {c});
      ClosedAppend(head, Repeat(seg, Iterations(s.maxIter)), {pre});
    }
  }

  // ---------------------------------------------------------- blocks

  lemma RepeatMembers(seg: seq<Step>, k: nat)
    ensures forall x :: x in Repeat(seg, k) ==> x in seg
  {
    if k > 0 { RepeatMembers(seg, k - 1); }
  }

  /**
   * Blocks nested in an if or while run under a condition allocated there,
   * so above every level's own blocks; a block is never empty and never
   * sees fewer conditions than were allocated when its list was entered.
   */
  lemma {:induction false} ControlBlocks(s: Node, pre: nat, n: nat)
    requires s.If? || s.While?
    ensures forall x :: x in Control(s, pre, n).steps && x.Block? ==>
      x.stmts != [] && x.cond > n && x.numConditions > n
    decreases s
  {
    var c := n + 1;
    var body := Stmts(s.body, c, c, []);
    StmtsBlocks(s.body, c, c, []);
    if s.If? && s.alt != [] {
      var e := body.n + 1;
      StmtsBlocks(s.alt, e, e, []);
    }
    if s.While? {
      RepeatMembers([SetCond(c, c, s.test)] + body.steps, Iterations(s.maxIter));
    }
  }

  lemma {:induction false} StmtsBlocks(stmts: seq<Node>, pre: nat, n: nat, pending: seq<Node>)
    requires pre <= n
    ensures var steps := Stmts(stmts, pre, n, pending).steps;
      (forall x :: x in steps && x.Block? ==>
        x.stmts != [] && x.numConditions >= n && (x.cond == pre || x.cond > n)) &&
      (forall i :: 0 < i < |steps| && steps[i].Block? ==> steps[i].cond != pre || steps[i].numConditions > n)
    decreases stmts
  {
    if stmts != [] {
      if stmts[0].If? || stmts[0].While? {
        var o := Control(stmts[0], pre, n);
        var rest := Stmts(stmts[1..], pre, o.n, []);
        var f := Flush(pre, n, pending);
        ControlBlocks(stmts[0], pre, n);
        StmtsBlocks(stmts[1..], pre, o.n, []);
        var steps := f + o.steps + rest.steps;
        forall i | 0 < i < |steps| && steps[i].Block?
          ensures steps[i].cond != pre || steps[i].numConditions > n
        {
          if i < |f| + |o.steps| {
            assert steps[i] == o.steps[i - |f|];
          } else {
            assert steps[i] == rest.steps[i - |f| - |o.steps|];
          }
        }
      } else {
        StmtsBlocks(stmts[1..], pre, n, pending + [stmts[0]]);
        assert Stmts(stmts, pre, n, pending) == Stmts(stmts[1..], pre, n, pending + [stmts[0]]);
      }
    }
  }

  /**
   * Only the first clause of a statement list can go unguarded: every later
   * basic block carries !self->_XD_error (with its condition when it has
   * one), as does every condition clause.
   */
  lemma OnlyFirstUnguarded(pdescs: seq<PDesc>, stmts: seq<Node>, pre: nat, n: nat)
    requires pre <= n
    ensures var cs := RealizeAll(pdescs, VisitStmts(stmts, pre, n).steps);
      forall i :: 0 < i < |cs| ==> cs[i].pred.Some?
  {
    var steps := VisitStmts(stmts, pre, n).steps;
    StmtsBlocks(stmts, pre, n, []);
    forall i | 0 < i < |steps| ensures Realize(pdescs, steps[i]).pred.Some? {
      var x := steps[i];
      if x.Block? {
        assert x in steps;
        assert x.cond == pre || x.cond > n;
        assert x.cond != pre || x.numConditions > n;
        assert Realize(pdescs, x).pred == BasicBlockGuard(x.cond, x.numConditions);
      }
    }
  }

  /** The statements of the blocks that run directly under `pre`, in order. */
  function LevelStmts(steps: seq<Step>, pre: nat): seq<Node>
  {
    if steps == [] then []
    else (if steps[0].Block? && steps[0].cond == pre then steps[0].stmts else []) + LevelStmts(steps[1..], pre)
  }

  /** How many blocks run directly under `pre`. */
  function LevelBlocks(steps: seq<Step>, pre: nat): nat
  {
    if steps == [] then 0
    else (if steps[0].Block? && steps[0].cond == pre then 1 else 0) + LevelBlocks(steps[1..], pre)
  }

  lemma {:induction false} LevelAppend(a: seq<Step>, b: seq<Step>, pre: nat)
    ensures LevelStmts(a + b, pre) == LevelStmts(a, pre) + LevelStmts(b, pre)
    ensures LevelBlocks(a + b, pre) == LevelBlocks(a, pre) + LevelBlocks(b, pre)
  {
    if a == [] {
      assert a + b == b;
    } else {
      assert (a + b)[1..] == a[1..] + b;
      LevelAppend(a[1..], b, pre);
    }
  }

  lemma {:induction false} LevelNone(steps: seq<Step>, pre: nat)
    requires forall x :: x in steps && x.Block? ==> x.cond != pre
    ensures LevelStmts(steps, pre) == [] && LevelBlocks(steps, pre) == 0
  {
    if steps != [] {
      assert forall x :: x in steps[1..] ==> x in steps;
      LevelNone(steps[1..], pre);
    }
  }

  /** The statements of a list that are not if/while, in order. */
  function Simple(stmts: seq<Node>): seq<Node>
  {
    if stmts == [] then []
    else (if stmts[0].If? || stmts[0].While? then [] else [stmts[0]]) + Simple(stmts[1..])
  }

  /** The number of maximal runs of consecutive non-if/while statements (inRun: one is already open). */
  function Runs(stmts: seq<Node>, inRun: bool): nat
  {
    if stmts == [] then 0
    else if stmts[0].If? || stmts[0].While? then Runs(stmts[1..], false)
    else (if inRun then 0 else 1) + Runs(stmts[1..], true)
  }

  /**
   * Basic blocks: the blocks a list emits at its own level hold its
   * non-if/while statements in their original order, one block per maximal
   * run of them.
   */
  lemma {:induction false} StmtsLevel(stmts: seq<Node>, pre: nat, n: nat, pending: seq<Node>)
    requires pre <= n
    ensures var steps := Stmts(stmts, pre, n, pending).steps;
      LevelStmts(steps, pre) == pending + Simple(stmts) &&
      LevelBlocks(steps, pre) == (if pending == [] then 0 else 1) + Runs(stmts, pending != [])
    decreases stmts
  {
    if stmts == [] {
      var f := Flush(pre, n, pending);
      if pending != [] {
        assert f[1..] == [];
      }
      assert pending + [] == pending;
    } else if stmts[0].If? || stmts[0].While? {
      var f := Flush(pre, n, pending);
      if pending != [] {
        assert f[1..] == [];
      }
      var o := Control(stmts[0], pre, n);
      var rest := Stmts(stmts[1..], pre, o.n, []);
      assert Stmts(stmts, pre, n, pending).steps == f + o.steps + rest.steps;
      ControlBlocks(stmts[0], pre, n);
      LevelNone(o.steps, pre);
      StmtsLevel(stmts[1..], pre, o.n, []);
      LevelAppend(f, o.steps, pre);
      LevelAppend(f + o.steps, rest.steps, pre);
      assert Simple(stmts) == Simple(stmts[1..]);
      assert Runs(stmts, pending != []) == Runs(stmts[1..], false);
      assert LevelStmts(f + o.steps, pre) == pending + [] == pending;
      assert LevelStmts(f + o.steps + rest.steps, pre) == pending + Simple(stmts[1..]);
    } else {
      var steps := Stmts(stmts, pre, n, pending).steps;
      assert steps == Stmts(stmts[1..], pre, n, pending + [stmts[0]]).steps;
      StmtsLevel(stmts[1..], pre, n, pending + [stmts[0]]);
      assert Simple(stmts) == [stmts[0]] + Simple(stmts[1..]);
      Regroup3(pending, [stmts[0]], Simple(stmts[1..]));
      assert LevelStmts(steps, pre) == pending + Simple(stmts);
      assert Runs(stmts, pending != []) == (if pending != [] then 0 else 1) + Runs(stmts[1..], true);
    }
  }

  // ------------------------------------------------------ if and while

  lemma RealizeAllAppend(pdescs: seq<PDesc>, a: seq<Step>, b: seq<Step>)
    ensures RealizeAll(pdescs, a + b) == RealizeAll(pdescs, a) + RealizeAll(pdescs, b)
  {
    var l := RealizeAll(pdescs, a + b);
    var r := RealizeAll(pdescs, a) + RealizeAll(pdescs, b);
    assert forall i :: 0 <= i < |l| ==> l[i] == r[i];
  }

  /** Realizing a repeated segment repeats the realized segment. */
  lemma {:induction false} RealizeRepeat(pdescs: seq<PDesc>, seg: seq<Step>, k: nat)
    ensures RealizeAll(pdescs, Repeat(seg, k)) == Repeat(RealizeAll(pdescs, seg), k)
  {
    if k > 0 {
      RealizeRepeat(pdescs, seg, k - 1);
      RealizeAllAppend(pdescs, seg, Repeat(seg, k - 1));
    }
  }

  /** The clauses of while<N>: the not-done seed, then test-and-body clauses N times (once when N <= 1). */
  lemma WhileRealized(pdescs: seq<PDesc>, s: Node, pre: nat, n: nat)
    requires s.While?
    ensures var seg := [ConditionClause(pdescs, s.test, n + 1, n + 1)] +
        RealizeAll(pdescs, VisitStmts(s.body, n + 1, n + 1).steps);
      RealizeAll(pdescs, Control(s, pre, n).steps) ==
        [ConditionClause(pdescs, Int(1), pre, n + 1)] + Repeat(seg, Iterations(s.maxIter)) &&
      Control(s, pre, n).n == n + 1 + Allocs(s.body)
  {
    var d := n + 1;
    var body := VisitStmts(s.body, d, d);
    var seg := [SetCond(d, d, s.test)] + body.steps;
    var k := Iterations(s.maxIter);
    assert Control(s, pre, n).steps == [SetCond(d, pre, Int(1))] + Repeat(seg, k);
    RealizeAllAppend(pdescs, [SetCond(d, d, s.test)], body.steps);
    assert RealizeAll(pdescs, seg) == [ConditionClause(pdescs, s.test, d, d)] + RealizeAll(pdescs, body.steps);
    RealizeAllAppend(pdescs, [SetCond(d, pre, Int(1))], Repeat(seg, k));
    RealizeRepeat(pdescs, seg, k);
    ControlAllocs(s, pre, n);
  }

  /** A flushed basic block becomes one clause, and nothing is flushed when no statement is pending. */
  lemma FlushRealized(pdescs: seq<PDesc>, pre: nat, n: nat, pending: seq<Node>)
    ensures RealizeAll(pdescs, Flush(pre, n, pending)) ==
      (if pending == [] then [] else [BasicBlockClause(pdescs, pre, n, pending)])
  {
  }

  /** Regrouping three consecutive pieces of a clause list. */
  lemma Regroup3<T>(a: seq<T>, b: seq<T>, c: seq<T>)
    ensures a + b + c == a + (b + c)
  {
  }

  /** Regrouping four consecutive pieces of a clause list. */
  lemma Regroup<T>(a: seq<T>, b: seq<T>, c: seq<T>, d: seq<T>)
    ensures a + b + c + d == a + (b + c + d)
  {
  }

  /** A plain statement at position i joins the pending block stmts[first..i]. */
  lemma StmtsPlainAt(stmts: seq<Node>, first: nat, i: nat, pre: nat, n: nat)
    requires first <= i < |stmts| && !stmts[i].If? && !stmts[i].While?
    ensures Stmts(stmts[i..], pre, n, stmts[first..i]) == Stmts(stmts[i + 1..], pre, n, stmts[first..i + 1])
  {
    assert stmts[i..][0] == stmts[i] && stmts[i..][1..] == stmts[i + 1..];
    var b := stmts[first..i] + [stmts[i]];
    assert |b| == i + 1 - first;
    assert forall k :: 0 <= k < |b| ==> b[k] == stmts[first + k];
    assert b == stmts[first..i + 1];
  }

  /** An if or while at position i: the pending block stmts[first..i], the statement's clauses, then the rest. */
  lemma StmtsControlAt(pdescs: seq<PDesc>, stmts: seq<Node>, first: nat, i: nat, pre: nat, n: nat)
    requires first <= i < |stmts| && (stmts[i].If? || stmts[i].While?)
    ensures var o := Control(stmts[i], pre, n);
      var rest := Stmts(stmts[i + 1..], pre, o.n, stmts[i + 1..i + 1]);
      var blk := if first < i then [BasicBlockClause(pdescs, pre, n, stmts[first..i])] else [];
      RealizeAll(pdescs, Stmts(stmts[i..], pre, n, stmts[first..i]).steps) ==
        blk + RealizeAll(pdescs, o.steps) + RealizeAll(pdescs, rest.steps) &&
      Stmts(stmts[i..], pre, n, stmts[first..i]).n == rest.n
  {
    assert stmts[i..][0] == stmts[i] && stmts[i..][1..] == stmts[i + 1..];
    assert stmts[i + 1..i + 1] == [];
    StmtsControlStep(pdescs, stmts[i..], pre, n, stmts[first..i]);
    FlushRealized(pdescs, pre, n, stmts[first..i]);
  }

  /** An if or while ends the pending block: the block, the statement's clauses, then the rest of the list. */
  lemma StmtsControlStep(pdescs: seq<PDesc>, stmts: seq<Node>, pre: nat, n: nat, pending: seq<Node>)
    requires stmts != [] && (stmts[0].If? || stmts[0].While?)
    ensures var o := Control(stmts[0], pre, n);
      var rest := Stmts(stmts[1..], pre, o.n, []);
      RealizeAll(pdescs, Stmts(stmts, pre, n, pending).steps) ==
        RealizeAll(pdescs, Flush(pre, n, pending)) + RealizeAll(pdescs, o.steps) + RealizeAll(pdescs, rest.steps) &&
      Stmts(stmts, pre, n, pending).n == rest.n
  {
    var o := Control(stmts[0], pre, n);
    var rest := Stmts(stmts[1..], pre, o.n, []);
    RealizeAllAppend(pdescs, Flush(pre, n, pending), o.steps);
    RealizeAllAppend(pdescs, Flush(pre, n, pending) + o.steps, rest.steps);
  }

  /** One more copy of the segment at the end is one more repetition. */
  lemma {:induction false} RepeatSnoc<T>(seg: seq<T>, k: nat)
    ensures Repeat(seg, k) + seg == Repeat(seg, k + 1)
  {
    if k == 0 {
      assert Repeat(seg, 1) == seg + [];
    } else {
      RepeatSnoc(seg, k - 1);
      assert Repeat(seg, k) + seg == seg + (Repeat(seg, k - 1) + seg);
    }
  }

  lemma {:induction false} RepeatShape(seg: seq<Step>, k: nat)
    ensures |Repeat(seg, k)| == k * |seg|
    ensures k >= 1 ==> Repeat(seg, k)[..|seg|] == seg
    ensures forall i :: 0 <= i && i + |seg| < |Repeat(seg, k)| ==> Repeat(seg, k)[i + |seg|] == Repeat(seg, k)[i]
  {
    if k > 0 {
      RepeatShape(seg, k - 1);
      var r := Repeat(seg, k);
      var t := Repeat(seg, k - 1);
      assert r == seg + t;
      forall i | 0 <= i && i + |seg| < |r| ensures r[i + |seg|] == r[i] {
        if i < |seg| {
          assert t[..|seg|] == seg;
          assert t[i] == seg[i];
        } else {
          assert r[i] == t[i - |seg|];
        }
      }
    }
  }

  /**
   * while<N>: one new condition (the not-done flag d = n+1) seeded with
   * (pre && 1); then the segment "d := d && test; body" N times back to
   * back (once when N <= 1), the body visited under d; the conditions
   * allocated are d and those of the body.
   */
  lemma WhileUnroll(maxIter: int, test: Node, body: seq<Node>, pre: nat, n: nat)
    ensures var r := Control(While(maxIter, test, body), pre, n);
      var seg := [SetCond(n + 1, n + 1, test)] + VisitStmts(body, n + 1, n + 1).steps;
      r.n == n + 1 + Allocs(body) &&
      r.steps[0] == SetCond(n + 1, pre, Int(1)) &&
      |r.steps| == 1 + Iterations(maxIter) * |seg| &&
      r.steps[1..1 + |seg|] == seg &&
      (forall i :: 1 <= i && i + |seg| < |r.steps| ==> r.steps[i + |seg|] == r.steps[i])
  {
    var r := Control(While(maxIter, test, body), pre, n);
    var seg := [SetCond(n + 1, n + 1, test)] + VisitStmts(body, n + 1, n + 1).steps;
    var k := Iterations(maxIter);
    ControlAllocs(While(maxIter, test, body), pre, n);
    RepeatShape(seg, k);
    assert r.steps == [SetCond(n + 1, pre, Int(1))] + Repeat(seg, k);
    assert r.steps[1..1 + |seg|] == Repeat(seg, k)[..|seg|];
    forall i | 1 <= i && i + |seg| < |r.steps| ensures r.steps[i + |seg|] == r.steps[i] {
      assert r.steps[i] == Repeat(seg, k)[i - 1];
    }
  }

  /**
   * if/else: the if allocates c = n+1, set from (pre && test) and used by
   * the body; an else allocates the id after all of the body's, set from
   * (pre && !c), and its body runs under it.
   */
  lemma IfElseIds(test: Node, body: seq<Node>, alt: seq<Node>, pre: nat, n: nat)
    ensures var r := Control(If(test, body, alt), pre, n);
      var b := VisitStmts(body, n + 1, n + 1);
      r.steps[0] == SetCond(n + 1, pre, test) &&
      r.steps[1..1 + |b.steps|] == b.steps &&
      (alt == [] ==> |r.steps| == 1 + |b.steps|) &&
      (alt != [] ==>
        var e := n + 2 + Allocs(body);
        |r.steps| > 1 + |b.steps| &&
        r.steps[1 + |b.steps|] == SetNotCond(e, pre, n + 1) &&
        r.steps[2 + |b.steps|..] == VisitStmts(alt, e, e).steps) &&
      r.n == n + Alloc(If(test, body, alt))
  {
    var b := VisitStmts(body, n + 1, n + 1);
    StmtsAllocs(body, n + 1, n + 1, []);
    ControlAllocs(If(test, body, alt), pre, n);
    var r := Control(If(test, body, alt), pre, n);
    if alt != [] {
      var e := b.n + 1;
      assert r.steps == [SetCond(n + 1, pre, test)] + b.steps + [SetNotCond(e, pre, n + 1)] + VisitStmts(alt, e, e).steps;
      assert r.steps[1..1 + |b.steps|] == b.steps;
      assert r.steps[2 + |b.steps|..] == VisitStmts(alt, e, e).steps;
    } else {
      var head := [SetCond(n + 1, pre, test)];
      assert r.steps == head + b.steps;
      assert (head + b.steps)[1..] == b.steps;
    }
  }

  // ---------------------------------------------------------- examples

  /** A single plain statement visited on its own forms one block. */
  lemma OneBlock(x: Node, pre: nat, n: nat)
    requires !x.If? && !x.While?
    ensures Stmts([x], pre, n, []) == Flow([Block(pre, n, [x])], n)
  {
    assert [x][1..] == [];
    assert [] + [x] == [x];
    assert Stmts([x], pre, n, []) == Stmts([], pre, n, [x]);
  }

  /** `a; if (x) { b; } c;` with no condition yet: the first block is unguarded, the block after the if is not. */
  lemma ExampleIf(a: Node, x: Node, b: Node, c: Node)
    requires !a.If? && !a.While? && !b.If? && !b.While? && !c.If? && !c.While?
    ensures VisitStmts([a, If(x, [b], []), c], 0, 0).steps ==
      [Block(0, 0, [a]), SetCond(1, 0, x), Block(1, 1, [b]), Block(0, 1, [c])]
  {
    var s := If(x, [b], []);
    OneBlock(b, 1, 1);
    OneBlock(c, 0, 1);
    var o := Control(s, 0, 0);
    assert o == Flow([SetCond(1, 0, x), Block(1, 1, [b])], 1);
    assert [a, s, c][1..] == [s, c];
    assert [s, c][1..] == [c];
    assert [] + [a] == [a];
    assert Stmts([a, s, c], 0, 0, []) == Stmts([s, c], 0, 0, [a]);
    assert Stmts([s, c], 0, 0, [a]).steps == [Block(0, 0, [a])] + o.steps + [Block(0, 1, [c])];
  }

  /** `if (x) { a; } else { b; }`: conditions 1 and 2, the second negating the first. */
  lemma ExampleIfElse(x: Node, a: Node, b: Node)
    requires !a.If? && !a.While? && !b.If? && !b.While?
    ensures VisitStmts([If(x, [a], [b])], 0, 0).steps ==
      [SetCond(1, 0, x), Block(1, 1, [a]), SetNotCond(2, 0, 1), Block(2, 2, [b])]
  {
    var s := If(x, [a], [b]);
    OneBlock(a, 1, 1);
    OneBlock(b, 2, 2);
    var o := Control(s, 0, 0);
    assert o.steps == [SetCond(1, 0, x), Block(1, 1, [a]), SetNotCond(2, 0, 1), Block(2, 2, [b])];
    assert [s][1..] == [];
    assert Stmts([s], 0, 0, []).steps == [] + o.steps + [];
  }

  /** `while<3> (t) { a; }`: the not-done flag, then test and body three times. */
  lemma ExampleWhile(t: Node, a: Node)
    requires !a.If? && !a.While?
    ensures VisitStmts([While(3, t, [a])], 0, 0).steps ==
      [SetCond(1, 0, Int(1)),
       SetCond(1, 1, t), Block(1, 1, [a]),
       SetCond(1, 1, t), Block(1, 1, [a]),
       SetCond(1, 1, t), Block(1, 1, [a])]
  {
    var s := While(3, t, [a]);
    OneBlock(a, 1, 1);
    var seg := [SetCond(1, 1, t), Block(1, 1, [a])];
    assert Repeat(seg, 3) == seg + seg + seg by {
      assert Repeat(seg, 0) == [];
      assert Repeat(seg, 1) == seg + [];
      assert Repeat(seg, 2) == seg + seg;
    }
    var o := Control(s, 0, 0);
    assert [SetCond(1, 1, t)] + [Block(1, 1, [a])] == seg;
    assert o.steps == [SetCond(1, 0, Int(1))] + Repeat(seg, 3);
    assert [s][1..] == [];
    assert Stmts([s], 0, 0, []).steps == [] + o.steps + [];
  }
}
