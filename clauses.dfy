/*
 * The clauses the pass synthesises: condition clauses, basic blocks, the
 * error-clearing clause, the global dtrace:::ERROR handler, the condition-1
 * priming clause, the callers[] increment/decrement pair, and the
 * entry-capture / entry-release pair built by loops over the registry.
 */
module Clauses {
  import opened Syntax
  import opened Names

  /** !self->_XD_error */
  function NotError(): Node
  {
    Op1(LNeg, ErrorVar())
  }

  /**
   * xd_new_condition_impl: under /!self->_XD_error/, set condition `newcond`
   * to (cond_<condid> && pred), or to (1 && pred) when condid is 0.
   */
  function ConditionClause(pdescs: seq<PDesc>, pred: Node, condid: nat, newcond: nat): Clause
  {
    var base := if condid == 0 then Int(1) else CondRef(condid);
    Clause(pdescs, Some(NotError()), [Statement(Op2(Asgn, CondRef(newcond), Op2(LAnd, base, pred)))])
  }

  /**
   * The predicate of xd_new_basic_block: !error && cond_<condid>; for
   * condid 0 just !error, or nothing while no condition has been allocated.
   */
  function BasicBlockGuard(condid: nat, numConditions: nat): (g: Option<Node>)
    ensures g.None? <==> condid == 0 && numConditions == 0
  {
    if condid == 0 then
      (if numConditions != 0 then Some(NotError()) else None)
    else
      Some(Op2(LAnd, NotError(), CondRef(condid)))
  }

  function BasicBlockClause(pdescs: seq<PDesc>, condid: nat, numConditions: nat, stmts: seq<Node>): Clause
  {
    Clause(pdescs, BasicBlockGuard(condid, numConditions), stmts)
  }

  /** xd_new_clearerror_clause: pdescs { self->_XD_error = 0; } */
  function ClearErrorClause(pdescs: seq<PDesc>): Clause
  {
    Clause(pdescs, None, [Statement(Op2(Asgn, ErrorVar(), Int(0)))])
  }

  /** xd_makeerrorclause: dtrace:::ERROR { self->_XD_error = 1; } */
  function ErrorClause(): Clause
  {
    Clause([DescByName("dtrace:::ERROR")], None, [Statement(Op2(Asgn, ErrorVar(), Int(1)))])
  }

  /** xd_new_condition1_clause: condition 1 := (1 && self->_XD_entry_timestamp_<group>[stackdepth]). */
  function Condition1Clause(pdescs: seq<PDesc>, group: nat): Clause
  {
    ConditionClause(pdescs, EntryVar(ENTRYVAR_TIMESTAMP, group), 0, 1)
  }

  /** The probe description "<token>:entry" or "<token>:return". */
  function TokenDesc(token: string, suffix: string): PDesc
  {
    DescByName(token + ":" + suffix)
  }

  function TokenDescs(tokens: seq<string>, suffix: string): (r: seq<PDesc>)
    ensures |r| == |tokens|
  {
    seq(|tokens|, i requires 0 <= i < |tokens| => TokenDesc(tokens[i], suffix))
  }

  /** One more token, one more probe description at the end. */
  lemma TokenDescsSnoc(tokens: seq<string>, token: string, suffix: string)
    ensures TokenDescs(tokens + [token], suffix) == TokenDescs(tokens, suffix) + [TokenDesc(token, suffix)]
  {
  }

  /** <tokens>:entry { ++self->_XD_callers_<id>; } */
  function CallersEntryClause(text: string, id: nat): Clause
  {
    Clause(TokenDescs(Split(text), "entry"), None, [Statement(Op1(PreInc, CallersVar(id)))])
  }

  /** <tokens>:return /self->_XD_callers_<id>/ { --self->_XD_callers_<id>; } */
  function CallersReturnClause(text: string, id: nat): Clause
  {
    Clause(TokenDescs(Split(text), "return"), Some(CallersVar(id)), [Statement(Op1(PreDec, CallersVar(id)))])
  }

  /** Every comma-separated token of a callers[] string gives one :entry and one :return description. */
  lemma CallersDescs(text: string, id: nat)
    ensures |CallersEntryClause(text, id).pdescs| == CountChar(text, ',') + 1
    ensures |CallersReturnClause(text, id).pdescs| == CountChar(text, ',') + 1
    ensures forall i :: 0 <= i < |Split(text)| ==>
      CallersEntryClause(text, id).pdescs[i].name == "entry" &&
      CallersReturnClause(text, id).pdescs[i].name == "return"
    ensures forall i :: 0 <= i < |Split(text)| && ':' !in Split(text)[i] ==>
      CallersEntryClause(text, id).pdescs[i] == PDesc("", "", Split(text)[i], "entry")
  {
    SplitJoin(text);
    var tokens := Split(text);
    forall i | 0 <= i < |tokens|
      ensures TokenDesc(tokens[i], "entry").name == "entry"
      ensures TokenDesc(tokens[i], "return").name == "return"
      ensures ':' !in tokens[i] ==> TokenDesc(tokens[i], "entry") == PDesc("", "", tokens[i], "entry")
    {
      NameOfSuffix(tokens[i], "entry");
      NameOfSuffix(tokens[i], "return");
      CutLastJoin(tokens[i], "entry");
    }
  }

  // ------------------------------------------------ entry capture / release

  /** Field ev is captured by the entry clause: flagged, and not an elapsed_* field. */
  predicate Captures(flags: seq<bool>, ev: nat)
    requires |flags| == ENTRYVAR_NUM && ev < ENTRYVAR_NUM
  {
    flags[ev] && !Registry()[ev].isElapsed
  }

  /** The captured fields below hi, in enum order. */
  function CapturedBelow(flags: seq<bool>, hi: nat): (r: seq<nat>)
    requires |flags| == ENTRYVAR_NUM && hi <= ENTRYVAR_NUM
    ensures forall i :: 0 <= i < |r| ==> r[i] < hi
    ensures forall ev: nat :: ev in r <==> ev < hi && Captures(flags, ev)
    ensures forall i, j :: 0 <= i < j < |r| ==> r[i] < r[j]
  {
    if hi == 0 then []
    else CapturedBelow(flags, hi - 1) + (if Captures(flags, hi - 1) then [hi - 1] else [])
  }

  /** The flagged fields below hi, in enum order. */
  function FlaggedBelow(flags: seq<bool>, hi: nat): (r: seq<nat>)
    requires |flags| == ENTRYVAR_NUM && hi <= ENTRYVAR_NUM
    ensures forall i :: 0 <= i < |r| ==> r[i] < hi
    ensures forall ev: nat :: ev in r <==> ev < hi && flags[ev]
    ensures forall i, j :: 0 <= i < j < |r| ==> r[i] < r[j]
  {
    if hi == 0 then []
    else FlaggedBelow(flags, hi - 1) + (if flags[hi - 1] then [hi - 1] else [])
  }

  /** What the entry probe records for field ev: args[N] for args<N>, otherwise the variable of that name. */
  function EntrySource(ev: nat): Node
    requires ev < ENTRYVAR_NUM
  {
    if Registry()[ev].isArgs then Index(Ident("args"), Int(Registry()[ev].num), [])
    else Ident(Registry()[ev].name)
  }

  function CaptureStmt(ev: nat, group: nat): Node
    requires ev < ENTRYVAR_NUM
  {
    Statement(Op2(Asgn, EntryVar(ev, group), EntrySource(ev)))
  }

  function ReleaseStmt(ev: nat, group: nat): Node
    requires ev < ENTRYVAR_NUM
  {
    Statement(Op2(Asgn, EntryVar(ev, group), Int(0)))
  }

  function CaptureStmts(evs: seq<nat>, group: nat): (r: seq<Node>)
    requires forall i :: 0 <= i < |evs| ==> evs[i] < ENTRYVAR_NUM
    ensures |r| == |evs|
  {
    seq(|evs|, i requires 0 <= i < |evs| => CaptureStmt(evs[i], group))
  }

  function ReleaseStmts(evs: seq<nat>, group: nat): (r: seq<Node>)
    requires forall i :: 0 <= i < |evs| ==> evs[i] < ENTRYVAR_NUM
    ensures |r| == |evs|
  {
    seq(|evs|, i requires 0 <= i < |evs| => ReleaseStmt(evs[i], group))
  }

  lemma CaptureStmtsSnoc(evs: seq<nat>, ev: nat, group: nat)
    requires forall i :: 0 <= i < |evs| ==> evs[i] < ENTRYVAR_NUM
    requires ev < ENTRYVAR_NUM
    ensures CaptureStmts(evs + [ev], group) == CaptureStmts(evs, group) + [CaptureStmt(ev, group)]
  {
    assert forall i :: 0 <= i < |evs| ==> (evs + [ev])[i] == evs[i];
  }

  lemma ReleaseStmtsSnoc(evs: seq<nat>, ev: nat, group: nat)
    requires forall i :: 0 <= i < |evs| ==> evs[i] < ENTRYVAR_NUM
    requires ev < ENTRYVAR_NUM
    ensures ReleaseStmts(evs + [ev], group) == ReleaseStmts(evs, group) + [ReleaseStmt(ev, group)]
  {
    assert forall i :: 0 <= i < |evs| ==> (evs + [ev])[i] == evs[i];
  }

  /** A :return description turned into the matching provider:mod:func:entry. */
  function EntryDesc(d: PDesc): PDesc
  {
    DescByName(d.provider + ":" + d.mod + ":" + d.func + ":entry")
  }

  function EntryDescs(pdescs: seq<PDesc>): (r: seq<PDesc>)
    ensures |r| == |pdescs|
  {
    seq(|pdescs|, i requires 0 <= i < |pdescs| => EntryDesc(pdescs[i]))
  }

  /** The clause xd_new_entry_clause builds. */
  function EntryClause(pdescs: seq<PDesc>, flags: seq<bool>, group: nat): Clause
    requires |flags| == ENTRYVAR_NUM
  {
    Clause(EntryDescs(pdescs), None, CaptureStmts(CapturedBelow(flags, ENTRYVAR_NUM), group))
  }

  /** The clause xd_new_return_clause builds. */
  function ReturnClause(pdescs: seq<PDesc>, flags: seq<bool>, group: nat): Clause
    requires |flags| == ENTRYVAR_NUM
  {
    Clause(pdescs, None, ReleaseStmts(FlaggedBelow(flags, ENTRYVAR_NUM), group))
  }

  /**
   * xd_new_entry_clause: one assignment per captured field, in enum order,
   * and the descriptions of the matching :entry probes.
   */
  method NewEntryClause(pdescs: seq<PDesc>, flags: seq<bool>, group: nat) returns (c: Clause)
    requires |flags| == ENTRYVAR_NUM && flags[ENTRYVAR_TIMESTAMP]
    requires forall i :: 0 <= i < |pdescs| ==> pdescs[i].name == "return"
    ensures c == EntryClause(pdescs, flags, group)
  {
    var stmts: seq<Node> := [];
    var ev: nat := 0;
    while ev < ENTRYVAR_NUM
      invariant ev <= ENTRYVAR_NUM
      invariant stmts == CaptureStmts(CapturedBelow(flags, ev), group)
    {
      if flags[ev] && !Registry()[ev].isElapsed {
        var val: Node;
        if Registry()[ev].isArgs {
          val := Index(Ident("args"), Int(Registry()[ev].num), []);
        } else {
          val := Ident(Registry()[ev].name);
        }
        assert val == EntrySource(ev);
        CaptureStmtsSnoc(CapturedBelow(flags, ev), ev, group);
        stmts := stmts + [Statement(Op2(Asgn, EntryVar(ev, group), val))];
      }
      ev := ev + 1;
    }

    var newpdesc: seq<PDesc> := [];
    var i := 0;
    while i < |pdescs|
      invariant i <= |pdescs|
      invariant |newpdesc| == i
      invariant forall k :: 0 <= k < i ==> newpdesc[k] == EntryDesc(pdescs[k])
    {
      var probename := pdescs[i].provider + ":" + pdescs[i].mod + ":" + pdescs[i].func + ":entry";
      newpdesc := newpdesc + [DescByName(probename)];
      i := i + 1;
    }
    c := Clause(newpdesc, None, stmts);
  }

  /** xd_new_return_clause: zero every flagged capture slot, on the original probes, unguarded. */
  method NewReturnClause(pdescs: seq<PDesc>, flags: seq<bool>, group: nat) returns (c: Clause)
    requires |flags| == ENTRYVAR_NUM && flags[ENTRYVAR_TIMESTAMP]
    ensures c == ReturnClause(pdescs, flags, group)
  {
    var stmts: seq<Node> := [];
    var ev: nat := 0;
    while ev < ENTRYVAR_NUM
      invariant ev <= ENTRYVAR_NUM
      invariant stmts == ReleaseStmts(FlaggedBelow(flags, ev), group)
    {
      if flags[ev] {
        ReleaseStmtsSnoc(FlaggedBelow(flags, ev), ev, group);
        stmts := stmts + [Statement(Op2(Asgn, EntryVar(ev, group), Int(0)))];
      }
      ev := ev + 1;
    }
    c := Clause(pdescs, None, stmts);
  }

  /**
   * The entry clause assigns exactly the flagged non-elapsed fields, each
   * once, in enum order; when timestamp is flagged it is the last assignment.
   */
  lemma EntryClauseCaptures(pdescs: seq<PDesc>, flags: seq<bool>, group: nat)
    requires |flags| == ENTRYVAR_NUM
    ensures var c := EntryClause(pdescs, flags, group);
      var evs := CapturedBelow(flags, ENTRYVAR_NUM);
      c.pred.None? &&
      |c.acts| == |evs| &&
      (forall i :: 0 <= i < |evs| ==> c.acts[i] == CaptureStmt(evs[i], group)) &&
      (forall ev: nat :: ev < ENTRYVAR_NUM ==> (ev in evs <==> flags[ev] && !Registry()[ev].isElapsed)) &&
      (forall i, j :: 0 <= i < j < |evs| ==> evs[i] < evs[j])
    ensures flags[ENTRYVAR_TIMESTAMP] ==>
      var c := EntryClause(pdescs, flags, group);
      |c.acts| >= 1 &&
      c.acts[|c.acts| - 1] == Statement(Op2(Asgn, EntryVar(ENTRYVAR_TIMESTAMP, group), Ident("timestamp")))
  {
    var evs := CapturedBelow(flags, ENTRYVAR_NUM);
    if flags[ENTRYVAR_TIMESTAMP] {
      RegistryShape();
      assert ENTRYVAR_TIMESTAMP in evs;
      var k :| 0 <= k < |evs| && evs[k] == ENTRYVAR_TIMESTAMP;
      assert evs[|evs| - 1] == ENTRYVAR_TIMESTAMP;
    }
  }

  /** The entry clause fires on provider:mod:func:entry for every described :return probe. */
  lemma EntryClauseProbes(pdescs: seq<PDesc>, flags: seq<bool>, group: nat)
    requires |flags| == ENTRYVAR_NUM
    requires forall i :: 0 <= i < |pdescs| ==> ':' !in pdescs[i].mod && ':' !in pdescs[i].func
    ensures var c := EntryClause(pdescs, flags, group);
      |c.pdescs| == |pdescs| &&
      forall i :: 0 <= i < |pdescs| ==>
        c.pdescs[i] == PDesc(pdescs[i].provider, pdescs[i].mod, pdescs[i].func, "entry")
  {
    forall i | 0 <= i < |pdescs|
      ensures EntryDesc(pdescs[i]) == PDesc(pdescs[i].provider, pdescs[i].mod, pdescs[i].func, "entry")
    {
      var d := PDesc(pdescs[i].provider, pdescs[i].mod, pdescs[i].func, "entry");
      assert DescText(d) == pdescs[i].provider + ":" + pdescs[i].mod + ":" + pdescs[i].func + ":entry";
      DescRoundTrip(d);
    }
  }

  /** The release clause runs on the same probes, unguarded, and zeroes exactly the flagged slots in enum order. */
  lemma ReturnClauseReleases(pdescs: seq<PDesc>, flags: seq<bool>, group: nat)
    requires |flags| == ENTRYVAR_NUM
    ensures var c := ReturnClause(pdescs, flags, group);
      var evs := FlaggedBelow(flags, ENTRYVAR_NUM);
      c.pdescs == pdescs && c.pred.None? &&
      |c.acts| == |evs| &&
      (forall i :: 0 <= i < |evs| ==> c.acts[i] == Statement(Op2(Asgn, EntryVar(evs[i], group), Int(0)))) &&
      (forall ev: nat :: ev < ENTRYVAR_NUM ==> (ev in evs <==> flags[ev]))
  {
  }
}
