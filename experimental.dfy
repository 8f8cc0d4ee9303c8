/*
 * The compiler as the C code runs it: the handle's fields and xd_parse_t
 * are objects updated in place, the clause list grows by prepending and
 * appending, and the walks and the unrolling are loops.  Every method is
 * proved to leave exactly the state the functions of Rewrite, ControlFlow
 * and Assembly describe.
 */
module Experimental {
  import opened Syntax
  import opened Names
  import opened Clauses
  import opened Tree
  import opened Rewrite
  import opened ControlFlow
  import opened ControlFlowProps
  import opened Assembly
  import opened AssemblyProps

  /** The fields of dtrace_hdl_t that the compiler updates. */
  class Handle {
    var numEntrys: nat
    var numCallers: nat
    var experimental: bool

    function State(): Session
      reads this
    {
      Session(numEntrys, numCallers, experimental)
    }
  }

  /** A list of siblings visited so far, in front of what the rest of the visit gives. */
  function Glue(prefix: seq<Node>, v: VisitedSeq): VisitedSeq
  {
    VisitedSeq(v.ok, prefix + v.nodes, v.w)
  }

  /** One sibling further: the visit of s[i..] is that of s[i], then of s[i+1..]. */
  lemma GlueStep(inReturn: bool, s: seq<Node>, i: nat, wi: WalkState, prefix: seq<Node>, h: Visited)
    requires i < |s| && |wi.entryvars| == ENTRYVAR_NUM
    requires h == Rewrite.VisitAll(inReturn, s[i], wi)
    ensures !h.ok ==> Glue(prefix, Rewrite.VisitSeq(inReturn, s[i..], wi)) == VisitedSeq(false, prefix, h.w)
    ensures h.ok ==>
      Glue(prefix, Rewrite.VisitSeq(inReturn, s[i..], wi)) == Glue(prefix + [h.node], Rewrite.VisitSeq(inReturn, s[i + 1..], h.w))
  {
    assert s[i..][0] == s[i] && s[i..][1..] == s[i + 1..];
    assert prefix + [] == prefix;
    if h.ok {
      var t := Rewrite.VisitSeq(inReturn, s[i + 1..], h.w);
      assert prefix + ([h.node] + t.nodes) == (prefix + [h.node]) + t.nodes;
    }
  }

  /** xd_parse_t: the state of one call of dt_compile_experimental. */
  class Parser {
    const dtp: Handle
    const pdescs: seq<PDesc>
    const inReturn: bool
    const entryvars: array<bool>
    var clauseList: seq<Clause>
    var appendClauses: seq<Clause>
    var numConditions: nat
    var numIfs: nat
    var numWhiles: nat
    var needEntry: bool

    predicate Valid()
      reads this
    {
      entryvars.Length == ENTRYVAR_NUM
    }

    /** The part of the state the walk reads and updates. */
    function State(): (w: WalkState)
      reads this, dtp, entryvars
      ensures Valid() ==> |w.entryvars| == ENTRYVAR_NUM
    {
      WalkState(clauseList, appendClauses, numIfs, numWhiles, needEntry, entryvars[..],
        dtp.numEntrys, dtp.numCallers)
    }

    /** The fields only the walk updates, which the control-flow methods leave alone. */
    function Walked(): (seq<Clause>, nat, nat, bool)
      reads this
    {
      (appendClauses, numIfs, numWhiles, needEntry)
    }

    /** The zeroed parse state of dt_compile_experimental. */
    constructor (dtp: Handle, pdescs: seq<PDesc>, inReturn: bool)
      ensures Valid() && fresh(entryvars)
      ensures this.dtp == dtp && this.pdescs == pdescs && this.inReturn == inReturn
      ensures State() == Fresh(dtp.State()) && numConditions == 0
    {
      this.dtp := dtp;
      this.pdescs := pdescs;
      this.inReturn := inReturn;
      entryvars := new bool[ENTRYVAR_NUM](_ => false);
      clauseList, appendClauses := [], [];
      numConditions, numIfs, numWhiles := 0, 0, 0;
      needEntry := false;
      new;
      assert entryvars[..] == seq(ENTRYVAR_NUM, _ => false);
    }

    /** xd_append_clause: dt_node_link at the end of the list. */
    method AppendClause(cs: seq<Clause>)
      modifies this
      ensures clauseList == old(clauseList) + cs
      ensures Walked() == old(Walked()) && numConditions == old(numConditions)
    {
      clauseList := clauseList + cs;
    }

    /** xd_prepend_clause: dt_node_link at the front of the list. */
    method PrependClause(cs: seq<Clause>)
      modifies this
      ensures clauseList == cs + old(clauseList)
      ensures Walked() == old(Walked()) && numConditions == old(numConditions)
    {
      clauseList := cs + clauseList;
    }

    /** xd_new_condition: allocate the next id and append the clause that sets it. */
    method NewCondition(pred: Node, condid: nat) returns (id: nat)
      modifies this
      ensures id == old(numConditions) + 1 == numConditions
      ensures clauseList == old(clauseList) + [Realize(pdescs, SetCond(id, condid, pred))]
      ensures Walked() == old(Walked())
    {
      numConditions := numConditions + 1;
      AppendClause([ConditionClause(pdescs, pred, condid, numConditions)]);
      id := numConditions;
    }

    // --------------------------------------------------------- the walk

    /** xd_do_entryvar_impl's bookkeeping. */
    method Mark(ev: nat)
      requires Valid() && ev < ENTRYVAR_NUM
      modifies this, entryvars
      ensures State() == Rewrite.Mark(old(State()), ev)
      ensures numConditions == old(numConditions)
    {
      needEntry := true;
      entryvars[ev] := true;
      entryvars[ENTRYVAR_TIMESTAMP] := true;
    }

    /** xd_do_entryvar: the registry lookup is the C loop over the enum. */
    method DoEntryVar(n: Node) returns (r: Node)
      requires Valid()
      modifies this, dtp, entryvars
      ensures (r, State()) == Rewrite.DoEntryVar(inReturn, n, old(State()))
      ensures dtp.experimental == old(dtp.experimental)
      ensures numConditions == old(numConditions)
    {
      r := n;
      if !inReturn {
        return;
      }
      if !(n.Op2? && n.op == Ptr && n.left == Ident("entry") && n.right.Ident?) {
        return;
      }
      var ev: nat := 0;
      while ev < ENTRYVAR_NUM && Registry()[ev].name != n.right.name
        invariant ev <= ENTRYVAR_NUM
        invariant FindEntryVar(n.right.name, ev) == FindEntryVar(n.right.name, 0)
      {
        ev := ev + 1;
      }
      if ev == ENTRYVAR_NUM {
        return;
      }
      if !needEntry {
        dtp.numEntrys := dtp.numEntrys + 1;
      }
      if Registry()[ev].isElapsed {
        r := ElapsedValue(ev, dtp.numEntrys);
        ev := ENTRYVAR_TIMESTAMP;
      } else {
        r := EntryVar(ev, dtp.numEntrys);
      }
      Mark(ev);
    }

    /** xd_do_entryvar_args. */
    method DoEntryVarArgs(n: Node) returns (r: Node)
      requires Valid()
      modifies this, dtp, entryvars
      ensures (r, State()) == Rewrite.DoEntryVarArgs(inReturn, n, old(State()))
      ensures dtp.experimental == old(dtp.experimental)
      ensures numConditions == old(numConditions)
    {
      r := n;
      if !inReturn {
        return;
      }
      if !(n.Index? && n.base == Op2(Ptr, Ident("entry"), Ident("args")) && n.key.Int? && n.key.value <= 9) {
        return;
      }
      if !needEntry {
        dtp.numEntrys := dtp.numEntrys + 1;
      }
      var ev := ENTRYVAR_ARGS0 + n.key.value;
      r := EntryVar(ev, dtp.numEntrys);
      Mark(ev);
    }

    /**
     * xd_do_callers: the strsep loop cuts the string at each comma and
     * makes one :entry and one :return description per token.
     */
    method DoCallers(n: Node) returns (r: Node)
      requires Valid()
      modifies this, dtp
      ensures (r, State()) == Rewrite.DoCallers(n, old(State()))
      ensures dtp.experimental == old(dtp.experimental)
      ensures numConditions == old(numConditions)
    {
      r := n;
      if !(n.Index? && n.base == Ident("callers") && n.key.Str?) {
        return;
      }
      dtp.numCallers := dtp.numCallers + 1;
      var id := dtp.numCallers;
      r := CallersVar(id);
      var entrydesc, returndesc := CallersDescs(n.key.text);
      PrependClause([Clause(entrydesc, None, [Statement(Op1(PreInc, CallersVar(id)))])]);
      appendClauses := appendClauses + [Clause(returndesc, Some(CallersVar(id)), [Statement(Op1(PreDec, CallersVar(id)))])];
    }

    /** The strsep loop of xd_do_callers: one :entry and one :return description per comma-separated token. */
    static method CallersDescs(callers: string) returns (entrydesc: seq<PDesc>, returndesc: seq<PDesc>)
      ensures entrydesc == TokenDescs(Split(callers), "entry")
      ensures returndesc == TokenDescs(Split(callers), "return")
    {
      ghost var tokens: seq<string> := [];
      entrydesc, returndesc := [], [];
      var token: string := [];
      var j := 0;
      while j < |callers|
        invariant j <= |callers|
        invariant tokens + SplitFrom(callers[j..], token) == Split(callers)
        invariant entrydesc == TokenDescs(tokens, "entry") && returndesc == TokenDescs(tokens, "return")
      {
        SplitFromStep(callers, j, tokens, token);
        if callers[j] == ',' {
          TokenDescsSnoc(tokens, token, "entry");
          TokenDescsSnoc(tokens, token, "return");
          entrydesc := entrydesc + [TokenDesc(token, "entry")];
          returndesc := returndesc + [TokenDesc(token, "return")];
          tokens := tokens + [token];
          token := [];
        } else {
          token := token + [callers[j]];
        }
        j := j + 1;
      }
      assert callers[j..] == [];
      TokenDescsSnoc(tokens, token, "entry");
      TokenDescsSnoc(tokens, token, "return");
      entrydesc := entrydesc + [TokenDesc(token, "entry")];
      returndesc := returndesc + [TokenDesc(token, "return")];
      tokens := tokens + [token];
      assert tokens == Split(callers);
    }

    /** xd_visit_all: the three recognisers, then the children of a node none of them replaced. */
    method VisitAll(n: Node) returns (ok: bool, r: Node)
      requires Valid()
      modifies this, dtp, entryvars
      ensures Visited(ok, r, State()) == Rewrite.VisitAll(inReturn, n, old(State()))
      ensures dtp.experimental == old(dtp.experimental)
      ensures numConditions == old(numConditions)
      decreases Size(n), 1
    {
      var n1 := DoEntryVar(n);
      var n2 := DoEntryVarArgs(n1);
      var n3 := DoCallers(n2);
      if n3 != n {
        return true, n3;
      }
      ok, r := Descend(n);
    }

    /** The switch of xd_visit_all. */
    method Descend(n: Node) returns (ok: bool, r: Node)
      requires Valid()
      modifies this, dtp, entryvars
      ensures Visited(ok, r, State()) == Rewrite.Descend(inReturn, n, old(State()))
      ensures dtp.experimental == old(dtp.experimental)
      ensures numConditions == old(numConditions)
      decreases Size(n), 0
    {
      if n.Unknown? {
        return false, n;
      }
      ghost var w := State();
      ghost var w1 :=
        if n.If? then w.(numIfs := w.numIfs + 1)
        else if n.While? then w.(numWhiles := w.numWhiles + 1)
        else w;
      if n.If? {
        numIfs := numIfs + 1;
      } else if n.While? {
        numWhiles := numWhiles + 1;
      }
      assert State() == w1;
      var kids := Children(n);
      var nodes;
      ok, nodes := VisitList(kids);
      r := if ok then Rebuild(n, nodes) else n;
    }

    /** The loops of xd_visit_all over a list of siblings; the walk stops at the first failure. */
    method VisitList(s: seq<Node>) returns (ok: bool, nodes: seq<Node>)
      requires Valid()
      modifies this, dtp, entryvars
      ensures VisitedSeq(ok, nodes, State()) == Rewrite.VisitSeq(inReturn, s, old(State()))
      ensures dtp.experimental == old(dtp.experimental)
      ensures numConditions == old(numConditions)
      decreases SizeSeq(s), 2
    {
      ghost var w0 := State();
      nodes := [];
      var i := 0;
      while i < |s|
        invariant i <= |s| && |nodes| == i
        invariant numConditions == old(numConditions) && dtp.experimental == old(dtp.experimental)
        invariant Glue(nodes, Rewrite.VisitSeq(inReturn, s[i..], State())) == Rewrite.VisitSeq(inReturn, s, w0)
      {
        ghost var wi := State();
        SizeSeqElem(s, i);
        var okk, node := VisitAll(s[i]);
        GlueStep(inReturn, s, i, wi, nodes, Visited(okk, node, State()));
        if !okk {
          return false, nodes;
        }
        nodes := nodes + [node];
        i := i + 1;
      }
      assert nodes + [] == nodes;
      ok := true;
    }

    /** The walk over the clause: its guard, then its actions. */
    method VisitClause(c: Clause) returns (ok: bool, c2: Clause)
      requires Valid()
      modifies this, dtp, entryvars
      ensures (ok, c2, State()) == Rewrite.VisitClause(inReturn, c, old(State()))
      ensures dtp.experimental == old(dtp.experimental)
      ensures numConditions == old(numConditions)
    {
      var nodes;
      ok, nodes := VisitList(OptList(c.pred) + c.acts);
      if !ok {
        c2 := c;
      } else {
        var k := if c.pred.Some? then 1 else 0;
        c2 := Clause(c.pdescs, if c.pred.Some? then Some(nodes[0]) else None, nodes[k..]);
      }
    }

    // ------------------------------------------------- the control flow

    /** xd_new_basic_block. */
    method NewBasicBlock(condid: nat, stmts: seq<Node>)
      modifies this
      ensures clauseList == old(clauseList) + [Realize(pdescs, Block(condid, numConditions, stmts))]
      ensures Walked() == old(Walked()) && numConditions == old(numConditions)
    {
      AppendClause([BasicBlockClause(pdescs, condid, numConditions, stmts)]);
    }

    /** xd_copy_clauses: append copies of the clauses first..last. */
    method CopyClauses(first: nat, last: nat)
      requires first <= last < |clauseList|
      modifies this
      ensures clauseList == old(clauseList) + old(clauseList)[first..last + 1]
      ensures Walked() == old(Walked()) && numConditions == old(numConditions)
    {
      var dn := first;
      while dn != last + 1
        invariant first <= dn <= last + 1
        invariant clauseList == old(clauseList) + old(clauseList)[first..dn]
        invariant Walked() == old(Walked()) && numConditions == old(numConditions)
      {
        var c := clauseList[dn];
        AppendClause([Clause(c.pdescs, c.pred, c.acts)]);
        assert old(clauseList)[first..dn + 1] == old(clauseList)[first..dn] + [c];
        dn := dn + 1;
      }
    }

    /** xd_do_if. */
    method DoIf(s: Node, pre: nat)
      requires s.If?
      modifies this
      ensures var f := Control(s, pre, old(numConditions));
        clauseList == old(clauseList) + RealizeAll(pdescs, f.steps) && numConditions == f.n
      ensures Walked() == old(Walked())
      decreases s, 0
    {
      ghost var n0 := numConditions;
      ghost var l0 := clauseList;
      var newid := NewCondition(s.test, pre);
      VisitStmts(s.body, newid);
      ghost var body := ControlFlow.VisitStmts(s.body, newid, newid);
      ghost var head := [SetCond(newid, pre, s.test)];
      RealizeAllAppend(pdescs, head, body.steps);
      assert RealizeAll(pdescs, head) == [Realize(pdescs, head[0])];
      if s.alt != [] {
        var pred := Op1(LNeg, CondRef(newid));
        var e := NewCondition(pred, pre);
        VisitStmts(s.alt, e);
        ghost var neg := [SetNotCond(e, pre, newid)];
        assert RealizeAll(pdescs, neg) == [Realize(pdescs, neg[0])];
        RealizeAllAppend(pdescs, head + body.steps, neg);
        RealizeAllAppend(pdescs, head + body.steps + neg, ControlFlow.VisitStmts(s.alt, e, e).steps);
      }
    }

    /**
     * The unrolling loop of xd_do_while: the clauses from loopFirst to the
     * end of the list are copied until they appear maxIter times in a row.
     */
    method Unroll(loopFirst: nat, maxIter: int, ghost base: seq<Clause>, ghost seg: seq<Clause>)
      requires clauseList == base + seg && loopFirst == |base| && seg != []
      modifies this
      ensures clauseList == base + Repeat(seg, Iterations(maxIter))
      ensures Walked() == old(Walked()) && numConditions == old(numConditions)
    {
      var loopLast := |clauseList| - 1;
      assert Repeat(seg, 1) == seg + [];
      var i := 1;
      while i < maxIter
        invariant 1 <= i && (i <= maxIter || i == 1)
        invariant clauseList == base + Repeat(seg, i)
        invariant loopLast < |clauseList| && clauseList[loopFirst..loopLast + 1] == seg
        invariant Walked() == old(Walked()) && numConditions == old(numConditions)
      {
        CopyClauses(loopFirst, loopLast);
        RepeatSnoc(seg, i);
        assert clauseList == base + Repeat(seg, i + 1);
        assert clauseList[loopFirst..loopLast + 1] == Repeat(seg, i + 1)[..|seg|];
        i := i + 1;
      }
    }

    method DoWhile(s: Node, pre: nat)
      requires s.While?
      modifies this
      ensures var f := Control(s, pre, old(numConditions));
        clauseList == old(clauseList) + RealizeAll(pdescs, f.steps) && numConditions == f.n
      ensures Walked() == old(Walked())
      decreases s, 0
    {
      ghost var n0 := numConditions;
      ghost var l0 := clauseList;
      var notdone := NewCondition(Int(1), pre);
      ghost var base := clauseList;
      AppendClause([ConditionClause(pdescs, s.test, notdone, notdone)]);
      var loopFirst := |clauseList| - 1;
      VisitStmts(s.body, notdone);
      ghost var seg := [ConditionClause(pdescs, s.test, notdone, notdone)] +
        RealizeAll(pdescs, ControlFlow.VisitStmts(s.body, notdone, notdone).steps);
      Regroup3(base, [ConditionClause(pdescs, s.test, notdone, notdone)],
        RealizeAll(pdescs, ControlFlow.VisitStmts(s.body, notdone, notdone).steps));
      StmtsAllocs(s.body, notdone, notdone, []);
      Unroll(loopFirst, s.maxIter, base, seg);
      WhileRealized(pdescs, s, pre, n0);
      Regroup3(l0, [ConditionClause(pdescs, Int(1), pre, n0 + 1)], Repeat(seg, Iterations(s.maxIter)));
    }

    /**
     * xd_visit_stmts: statements are gathered into the current basic block
     * (from index `first`) until an if or while ends it.
     */
    method VisitStmts(stmts: seq<Node>, pre: nat)
      modifies this
      ensures var f := ControlFlow.VisitStmts(stmts, pre, old(numConditions));
        clauseList == old(clauseList) + RealizeAll(pdescs, f.steps) && numConditions == f.n
      ensures Walked() == old(Walked())
      decreases stmts, 1
    {
      ghost var goal := ControlFlow.VisitStmts(stmts, pre, numConditions);
      var first := 0;
      var i := 0;
      while i < |stmts|
        invariant first <= i <= |stmts|
        invariant var f := Stmts(stmts[i..], pre, numConditions, stmts[first..i]);
          clauseList + RealizeAll(pdescs, f.steps) == old(clauseList) + RealizeAll(pdescs, goal.steps) &&
          f.n == goal.n
        invariant Walked() == old(Walked())
      {
        var stmt := stmts[i];
        if !stmt.If? && !stmt.While? {
          StmtsPlainAt(stmts, first, i, pre, numConditions);
        } else {
          ghost var n0 := numConditions;
          ghost var l0 := clauseList;
          ghost var o := Control(stmt, pre, n0);
          ghost var rest := Stmts(stmts[i + 1..], pre, o.n, stmts[i + 1..i + 1]);
          ghost var blk := if first < i then [BasicBlockClause(pdescs, pre, n0, stmts[first..i])] else [];
          ghost var ro, rr := RealizeAll(pdescs, o.steps), RealizeAll(pdescs, rest.steps);
          StmtsControlAt(pdescs, stmts, first, i, pre, n0);
          if first < i {
            NewBasicBlock(pre, stmts[first..i]);
          }
          assert clauseList == l0 + blk;
          if stmt.If? {
            DoIf(stmt, pre);
          } else {
            DoWhile(stmt, pre);
          }
          assert clauseList == (l0 + blk) + ro;
          Regroup(l0, blk, ro, rr);
          assert numConditions == o.n;
          first := i + 1;
          assert Stmts(stmts[i + 1..], pre, numConditions, stmts[first..i + 1]) == rest;
        }
        i := i + 1;
      }
      assert stmts[i..] == [];
      FlushRealized(pdescs, pre, numConditions, stmts[first..i]);
      if first < i {
        NewBasicBlock(pre, stmts[first..i]);
      }
    }

    /**
     * The middle of dt_compile_experimental: reserve condition 1 for the
     * entry clause, then keep the clause whole when nothing changes the
     * number of clauses, or turn its guard into a condition and split its
     * actions into basic blocks.
     */
    method SplitBody(c2: Clause)
      requires numConditions == 0 && c2.pdescs == pdescs
      modifies this
      ensures clauseList == old(clauseList) + Body(c2, old(State())).0
      ensures numConditions == Body(c2, old(State())).1
      ensures Walked() == old(Walked())
    {
      ghost var w := State();
      var condid := 0;
      if needEntry {
        numConditions := numConditions + 1;
        condid := numConditions;
      }
      if numIfs == 0 && numWhiles == 0 && numConditions == 0 {
        AppendClause([Clause(c2.pdescs, c2.pred, c2.acts)]);
      } else {
        if c2.pred.Some? {
          ghost var pre := condid;
          condid := NewCondition(c2.pred.value, condid);
          VisitStmts(c2.acts, condid);
          RealizeAllAppend(pdescs, [SetCond(condid, pre, c2.pred.value)], ControlFlow.VisitStmts(c2.acts, condid, condid).steps);
        } else {
          VisitStmts(c2.acts, condid);
        }
      }
    }

    /**
     * The end of dt_compile_experimental, before the error handler: the
     * queued decrements, the priming clause, the clear-error clause, and
     * the entry and release clauses around everything.
     */
    method Finish()
      requires Valid() && (needEntry ==> entryvars[ENTRYVAR_TIMESTAMP] && AllReturn(pdescs))
      modifies this
      ensures clauseList == Assemble(pdescs, old(State()).(clauseList := []), old(clauseList), old(numConditions))
      ensures Walked() == old(Walked()) && numConditions == old(numConditions)
    {
      AppendClause(appendClauses);
      if needEntry {
        PrependClause([Condition1Clause(pdescs, dtp.numEntrys)]);
      }
      if numConditions != 0 {
        PrependClause([ClearErrorClause(pdescs)]);
      }
      if needEntry {
        var entry := NewEntryClause(pdescs, entryvars[..], dtp.numEntrys);
        PrependClause([entry]);
        var release := NewReturnClause(pdescs, entryvars[..], dtp.numEntrys);
        AppendClause([release]);
      }
      assert [] + old(clauseList) == old(clauseList);
    }
    /**
     * The tail of dt_compile_experimental once the walk succeeded: the body split into
     * sub-clauses, the assembly around it, and the ERROR handler on the handle's first
     * multi-clause compilation.
     */
    method Emit(c2: Clause) returns (clauses: seq<Clause>)
      requires Valid() && numConditions == 0 && c2.pdescs == pdescs
      requires needEntry ==> entryvars[ENTRYVAR_TIMESTAMP] && AllReturn(pdescs)
      modifies this, dtp
      ensures var w := old(State());
              var list := Assemble(pdescs, w, Body(c2, w).0, Body(c2, w).1);
              if |list| >= 2 && !old(dtp.experimental) then
                clauses == [ErrorClause()] + list && dtp.State() == old(dtp.State()).(experimental := true)
              else
                clauses == list && dtp.State() == old(dtp.State())
    {
      ghost var w := State();
      SplitBody(c2);
      Finish();
      assert clauseList == Assemble(pdescs, w, Body(c2, w).0, Body(c2, w).1) by {
        assert [] + (w.clauseList + Body(c2, w).0) + w.appendClauses == w.clauseList + Body(c2, w).0 + w.appendClauses;
      }
      if |clauseList| >= 2 && !dtp.experimental {
        dtp.experimental := true;
        PrependClause([ErrorClause()]);
      }
      clauses := clauseList;
    }
  }

  /** The in_return scan of dt_compile_experimental: every probe description names "return". */
  method ScanInReturn(pdescs: seq<PDesc>) returns (inReturn: bool)
    ensures inReturn == AllReturn(pdescs)
  {
    inReturn := true;
    var i := 0;
    while i < |pdescs|
      invariant i <= |pdescs|
      invariant inReturn <==> forall j :: 0 <= j < i ==> pdescs[j].name == "return"
    {
      if pdescs[i].name != "return" {
        inReturn := false;
      }
      i := i + 1;
    }
  }

  /**
   * dt_compile_experimental: decide whether every probe is a :return
   * probe, walk the clause, split its body, and put the pieces in order.
   */
  method CompileExperimental(dtp: Handle, c: Clause) returns (ok: bool, clauses: seq<Clause>)
    modifies dtp
    ensures Compiled(ok, clauses, dtp.State()) == Compile(old(dtp.State()), c)
  {
    ghost var s0 := dtp.State();
    var inReturn := ScanInReturn(c.pdescs);
    var dp := new Parser(dtp, c.pdescs, inReturn);
    var c2;
    ok, c2 := dp.VisitClause(c);
    ghost var w := dp.State();
    assert (ok, c2, w) == Walk(s0, c);
    if !ok {
      assert dtp.State() == Session(w.numEntrys, w.numCallers, s0.experimental);
      return false, [];
    }
    WalkFacts(s0, c);
    clauses := dp.Emit(c2);
  }
}
