/*
 * dt_compile_experimental: one super-clause in, the ordered list of plain
 * D sub-clauses out, with the handle-wide state threaded from one call to
 * the next.
 */
module Assembly {
  import opened Syntax
  import opened Names
  import opened Clauses
  import opened Tree
  import opened Rewrite
  import opened ControlFlow

  /** The handle-wide state: dt_xd_num_entrys, dt_xd_num_callers and dt_experimental. */
  datatype Session = Session(numEntrys: nat, numCallers: nat, experimental: bool)

  /** The result of one call: ok is false when the walk met a node kind it rejects. */
  datatype Compiled = Compiled(ok: bool, clauses: seq<Clause>, session: Session)

  /** entry-> may be used only when every probe description names "return". */
  predicate AllReturn(pdescs: seq<PDesc>)
  {
    forall i :: 0 <= i < |pdescs| ==> pdescs[i].name == "return"
  }

  /** A zeroed parse state over the handle's counters. */
  function Fresh(s: Session): (w: WalkState)
    ensures Inv(w) && !w.needEntry
  {
    WalkState([], [], 0, 0, false, seq(ENTRYVAR_NUM, _ => false), s.numEntrys, s.numCallers)
  }

  /** The rewrite walk over the clause's guard and actions. */
  function Walk(s: Session, c: Clause): (r: (bool, Clause, WalkState))
    ensures |r.2.entryvars| == ENTRYVAR_NUM
  {
    VisitClause(AllReturn(c.pdescs), c, Fresh(s))
  }

  /** Nothing changes the number of clauses: the clause is kept as it is. */
  predicate Unchanged(w: WalkState)
  {
    w.numIfs == 0 && w.numWhiles == 0 && !w.needEntry
  }

  /**
   * Otherwise the guard (if any) becomes a condition under `pre` (1 when
   * condition 1 is reserved for the entry clause, else 0), and the actions
   * are split into basic blocks under it.
   */
  function BodySteps(c: Clause, pre: nat): (r: Flow)
  {
    if c.pred.Some? then
      var f := VisitStmts(c.acts, pre + 1, pre + 1);
      Flow([SetCond(pre + 1, pre, c.pred.value)] + f.steps, f.n)
    else VisitStmts(c.acts, pre, pre)
  }

  /** The sub-clauses produced for the body, and the number of conditions allocated by then. */
  function Body(c: Clause, w: WalkState): (seq<Clause>, nat)
  {
    var pre := if w.needEntry then 1 else 0;
    if Unchanged(w) then ([c], 0)
    else
      var f := BodySteps(c, pre);
      (RealizeAll(c.pdescs, f.steps), f.n)
  }

  /** The clauses of dtrace:::ERROR handler aside, in the order dt_compile_experimental leaves them. */
  function Assemble(pdescs: seq<PDesc>, w: WalkState, body: seq<Clause>, numConditions: nat): seq<Clause>
    requires |w.entryvars| == ENTRYVAR_NUM
  {
    var group := w.numEntrys;
    var l1 := w.clauseList + body + w.appendClauses;
    var l2 := if w.needEntry then [Condition1Clause(pdescs, group)] + l1 else l1;
    var l3 := if numConditions != 0 then [ClearErrorClause(pdescs)] + l2 else l2;
    if w.needEntry then [EntryClause(pdescs, w.entryvars, group)] + l3 + [ReturnClause(pdescs, w.entryvars, group)]
    else l3
  }

  /**
   * dt_compile_experimental.  The handler that sets the error flag is put
   * first, once per handle, when the result has at least two clauses.
   */
  function Compile(s: Session, c: Clause): (r: Compiled)
    ensures r.session.experimental <==> s.experimental || (r.ok && |r.clauses| >= 2)
    ensures !r.ok ==> r.clauses == []
    ensures !s.experimental && r.session.experimental ==> |r.clauses| >= 3 && r.clauses[0] == ErrorClause()
  {
    var (ok, c2, w) := Walk(s, c);
    if !ok then Compiled(false, [], Session(w.numEntrys, w.numCallers, s.experimental))
    else
      var (body, numConditions) := Body(c2, w);
      var list := Assemble(c.pdescs, w, body, numConditions);
      if |list| >= 2 && !s.experimental then
        Compiled(true, [ErrorClause()] + list, Session(w.numEntrys, w.numCallers, true))
      else
        Compiled(true, list, Session(w.numEntrys, w.numCallers, s.experimental))
  }

  /** Whether this call put the error handler in front of its result. */
  predicate ErrorAdded(s: Session, c: Clause)
  {
    !s.experimental && Compile(s, c).session.experimental
  }

  /** A script of super-clauses compiled in turn: the final handle state and the number of error handlers emitted. */
  function CompileAll(s: Session, cs: seq<Clause>): (Session, nat)
    decreases |cs|
  {
    if cs == [] then (s, 0)
    else
      var r := Compile(s, cs[0]);
      var rest := CompileAll(r.session, cs[1..]);
      (rest.0, rest.1 + (if ErrorAdded(s, cs[0]) then 1 else 0))
  }
}

module AssemblyProps {
  import opened Syntax
  import opened Names
  import opened Clauses
  import opened Tree
  import opened Rewrite
  import opened RewriteProps
  import opened ControlFlow
  import opened ControlFlowProps
  import opened Assembly

  /** The callers[] strings a clause's walk meets. */
  function Texts(c: Clause): seq<string>
  {
    CallersTextsSeq(AllReturn(c.pdescs), OptList(c.pred) + c.acts)
  }

  /** What a successful walk from a fresh state leaves for assembly. */
  lemma WalkEvolves(s: Session, c: Clause)
    ensures var (ok, _, w) := Walk(s, c);
      ok ==>
        w.clauseList == Increments(Texts(c), s.numCallers) &&
        w.appendClauses == Decrements(Texts(c), s.numCallers) &&
        w.numCallers == s.numCallers + |Texts(c)| &&
        w.numEntrys == (if w.needEntry then s.numEntrys + 1 else s.numEntrys) &&
        (!AllReturn(c.pdescs) ==> !w.needEntry) &&
        Inv(w)
  {
    var w0 := Fresh(s);
    VisitSeqEvolves(AllReturn(c.pdescs), OptList(c.pred) + c.acts, w0);
    var (ok, _, w) := Walk(s, c);
    if ok {
      assert w.clauseList == Increments(Texts(c), s.numCallers) + [];
      assert w.appendClauses == [] + Decrements(Texts(c), s.numCallers);
    }
  }

  /** The walk's state as assembly needs it: entry-> only in an all-:return clause, with the timestamp flagged. */
  lemma WalkFacts(s: Session, c: Clause)
    ensures var (ok, _, w) := Walk(s, c);
      ok && w.needEntry ==> AllReturn(c.pdescs) && w.entryvars[ENTRYVAR_TIMESTAMP]
  {
    WalkEvolves(s, c);
  }

  /**
   * The handle counters: one callers[] number per string met, and one
   * entry group exactly when the clause gets an entry clause, which only
   * an all-:return clause can.  dt_experimental is never cleared.
   */
  lemma CompileSession(s: Session, c: Clause)
    ensures var r := Compile(s, c);
      (s.experimental ==> r.session.experimental) &&
      (r.ok ==> r.session.numCallers == s.numCallers + |Texts(c)|) &&
      (r.ok ==> r.session.numEntrys == s.numEntrys || r.session.numEntrys == s.numEntrys + 1) &&
      (r.ok && !AllReturn(c.pdescs) ==> r.session.numEntrys == s.numEntrys)
  {
    WalkEvolves(s, c);
  }

  /** The list Assemble builds, piece by piece, around a walk's callers[] clauses. */
  lemma AssembleShape(pd: seq<PDesc>, w: WalkState, body: seq<Clause>, numConditions: nat,
                      inc: seq<Clause>, dec: seq<Clause>)
    requires |w.entryvars| == ENTRYVAR_NUM && w.clauseList == inc && w.appendClauses == dec
    ensures var g := w.numEntrys;
      var entry := if w.needEntry then [EntryClause(pd, w.entryvars, g)] else [];
      var clear := if numConditions != 0 then [ClearErrorClause(pd)] else [];
      var prime := if w.needEntry then [Condition1Clause(pd, g)] else [];
      var release := if w.needEntry then [ReturnClause(pd, w.entryvars, g)] else [];
      Assemble(pd, w, body, numConditions) == entry + clear + prime + inc + body + dec + release
  {
    var g := w.numEntrys;
    var l1 := inc + body + dec;
    var prime := if w.needEntry then [Condition1Clause(pd, g)] else [];
    var clear := if numConditions != 0 then [ClearErrorClause(pd)] else [];
    Regroup3(prime, inc + body, dec);
    Regroup3(prime, inc, body);
    assert prime + l1 == prime + inc + body + dec;
    Regroup3(clear, prime + inc + body, dec);
    Regroup3(clear, prime + inc, body);
    Regroup3(clear, prime, inc);
    assert clear + (prime + l1) == clear + prime + inc + body + dec;
    if !w.needEntry {
      assert [] + (clear + prime + inc + body + dec) + [] == clear + prime + inc + body + dec;
    }
  }

  /** Some condition is allocated exactly when condition 1 is reserved or the body defines one. */
  lemma ConditionsAllocated(c2: Clause, w: WalkState)
    requires !Unchanged(w)
    ensures var f := BodySteps(c2, if w.needEntry then 1 else 0);
      f.n != 0 <==> w.needEntry || Defined(f.steps) != {}
  {
    var pre := if w.needEntry then 1 else 0;
    BodyDensity(c2, pre);
    var f := BodySteps(c2, pre);
    if Defined(f.steps) != {} {
      var k :| k in Defined(f.steps);
    }
    if f.n > pre { assert f.n in Range(pre, f.n); }
  }

  /**
   * The order of the result: the error handler (first call of the handle
   * with two or more clauses), the entry clause, the clear-error clause
   * exactly when some condition was allocated (condition 1 or one the
   * body defines), the priming of condition 1, the callers[] increments
   * latest first, the body, the callers[] decrements, the release clause.
   */
  lemma CompileOrder(s: Session, c: Clause)
    requires Walk(s, c).0
    ensures var (_, c2, w) := Walk(s, c);
      var pd := c.pdescs;
      var g := s.numEntrys + 1;
      var steps := if Unchanged(w) then [] else BodySteps(c2, if w.needEntry then 1 else 0).steps;
      var body := if Unchanged(w) then [c2] else RealizeAll(pd, steps);
      var entry := if w.needEntry then [EntryClause(pd, w.entryvars, g)] else [];
      var clear := if w.needEntry || Defined(steps) != {} then [ClearErrorClause(pd)] else [];
      var prime := if w.needEntry then [Condition1Clause(pd, g)] else [];
      var release := if w.needEntry then [ReturnClause(pd, w.entryvars, g)] else [];
      var list := entry + clear + prime + Increments(Texts(c), s.numCallers) + body +
        Decrements(Texts(c), s.numCallers) + release;
      Compile(s, c).clauses == (if |list| >= 2 && !s.experimental then [ErrorClause()] + list else list)
  {
    var (_, c2, w) := Walk(s, c);
    WalkEvolves(s, c);
    var (body, numConditions) := Body(c2, w);
    AssembleShape(c.pdescs, w, body, numConditions, Increments(Texts(c), s.numCallers), Decrements(Texts(c), s.numCallers));
    if !Unchanged(w) {
      ConditionsAllocated(c2, w);
    } else {
      assert Defined([]) == {};
    }
  }

  /** The guard's condition comes first; the ids defined are exactly pre+1 .. n, each set before it is read. */
  lemma BodyDensity(c: Clause, pre: nat)
    ensures var f := BodySteps(c, pre);
      f.n >= pre &&
      Defined(f.steps) == Range(pre, f.n) &&
      Closed(f.steps, {pre}) &&
      (c.pred.Some? ==> f.steps[0] == SetCond(pre + 1, pre, c.pred.value))
  {
    if c.pred.Some? {
      var id := pre + 1;
      var f := VisitStmts(c.acts, id, id);
      StmtsDensity(c.acts, id, id, []);
      StmtsClosed(c.acts, id, id, []);
      var head := [SetCond(id, pre, c.pred.value)];
      assert Defined(head) == {id} by { assert head[1..] == []; }
      DefinedAppend(head, f.steps);
      RangeOne(pre);
      RangeSplit(pre, id, f.n);
      ClosedOne(head[0], {pre});
      assert Closed(f.steps, {pre} + Def(head[0])) by {
        assert {pre} + Def(head[0]) == {pre, id};
        ClosedMono(f.steps, {id}, {pre, id});
      }
      assert head + f.steps == [head[0]] + f.steps;
      assert (head + f.steps)[1..] == f.steps;
    } else {
      StmtsDensity(c.acts, pre, pre, []);
      StmtsClosed(c.acts, pre, pre, []);
    }
  }

  /**
   * Condition 1 is reserved for the entry clause: when entry-> is used,
   * every condition the body defines is 2 or more, and condition 1 is set
   * only by the priming clause, from the timestamp slot of this group.
   */
  lemma ConditionOneReserved(s: Session, c: Clause)
    requires Walk(s, c).0 && Walk(s, c).2.needEntry
    ensures var (_, c2, w) := Walk(s, c);
      !Unchanged(w) &&
      (forall id :: id in Defined(BodySteps(c2, 1).steps) ==> id >= 2) &&
      Condition1Clause(c.pdescs, w.numEntrys).acts ==
        [Statement(Op2(Asgn, ConditionVar(1).value, Op2(LAnd, Int(1), EntryVar(ENTRYVAR_TIMESTAMP, s.numEntrys + 1))))]
  {
    var (_, c2, w) := Walk(s, c);
    WalkEvolves(s, c);
    BodyDensity(c2, 1);
  }

  /**
   * With no if/while, no entry-> and no callers[] use, and nothing the walk
   * rejects, the result is the clause itself, and the handle is untouched.
   */
  lemma PassThrough(s: Session, c: Clause)
    requires PlainSeq(AllReturn(c.pdescs), OptList(c.pred) + c.acts)
    ensures Compile(s, c) == Compiled(true, [c], s)
  {
    var k := OptList(c.pred) + c.acts;
    PlainSeqVisit(AllReturn(c.pdescs), k, Fresh(s));
    assert k[|OptList(c.pred)|..] == c.acts;
  }

  /** xd_makeerrorclause: dtrace:::ERROR, unguarded, setting the error flag. */
  lemma ErrorClauseShape()
    ensures ErrorClause().pdescs == [PDesc("dtrace", "", "", "ERROR")]
    ensures ErrorClause().pred.None?
    ensures ErrorClause().acts == [Statement(Op2(Asgn, ErrorVar(), Int(1)))]
  {
    var d := PDesc("dtrace", "", "", "ERROR");
    DescRoundTrip(d);
    assert DescText(d) == "dtrace:::ERROR";
  }

  /** Over a whole script, the error handler is emitted at most once per handle, and never once the handle has one. */
  lemma {:induction false} ErrorAtMostOnce(s: Session, cs: seq<Clause>)
    decreases |cs|
    ensures CompileAll(s, cs).1 <= 1
    ensures s.experimental ==> CompileAll(s, cs).1 == 0
    ensures CompileAll(s, cs).1 == 1 ==> CompileAll(s, cs).0.experimental
    ensures s.experimental ==> CompileAll(s, cs).0.experimental
  {
    if cs != [] {
      var r := Compile(s, cs[0]);
      CompileSession(s, cs[0]);
      ErrorAtMostOnce(r.session, cs[1..]);
    }
  }

  /** Two super-clauses compiled one after the other that both use entry-> get different groups. */
  lemma GroupsDistinct(s: Session, c1: Clause, c2: Clause)
    requires Walk(s, c1).0 && Walk(s, c1).2.needEntry
    requires Walk(Compile(s, c1).session, c2).0 && Walk(Compile(s, c1).session, c2).2.needEntry
    ensures Walk(s, c1).2.numEntrys < Walk(Compile(s, c1).session, c2).2.numEntrys
  {
    WalkEvolves(s, c1);
    WalkEvolves(Compile(s, c1).session, c2);
  }
}
