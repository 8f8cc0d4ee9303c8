/*
 * xd_visit_all and its three recognisers, as functions over the part of
 * the parse state and of the handle the walk updates.  The walk is
 * pre-order: the recognisers run on a node before its children are
 * visited.
 */
module Rewrite {
  import opened Syntax
  import opened Names
  import opened Clauses
  import opened Tree

  /**
   * What the walk reads and updates: the clause list (callers[] increment
   * clauses are prepended to it), the queued callers[] decrement clauses,
   * the if/while counts, the entry-> bookkeeping, and the handle's two
   * counters dt_xd_num_entrys and dt_xd_num_callers.
   */
  datatype WalkState = WalkState(
    clauseList: seq<Clause>,
    appendClauses: seq<Clause>,
    numIfs: nat,
    numWhiles: nat,
    needEntry: bool,
    entryvars: seq<bool>,
    numEntrys: nat,
    numCallers: nat)

  datatype Visited = Visited(ok: bool, node: Node, w: WalkState)

  datatype VisitedSeq = VisitedSeq(ok: bool, nodes: seq<Node>, w: WalkState)

  /**
   * The entry-> bookkeeping invariant: one flag per registry row, the
   * timestamp flag is set exactly when an entry clause is needed, no flag is
   * set without it, and the elapsed_* rows are never flagged.
   */
  predicate Inv(w: WalkState)
  {
    |w.entryvars| == ENTRYVAR_NUM &&
    (w.needEntry <==> w.entryvars[ENTRYVAR_TIMESTAMP]) &&
    (forall ev :: 0 <= ev < ENTRYVAR_NUM && w.entryvars[ev] ==> w.needEntry) &&
    (forall ev :: ENTRYVAR_ELAPSED_NS <= ev <= ENTRYVAR_ELAPSED_SEC ==> !w.entryvars[ev])
  }

  // ------------------------------------------------------------ recognisers

  /** entry-><field> naming a registry row: that row. */
  function EntryVarField(n: Node): (r: Option<nat>)
    ensures r.Some? ==> r.value < ENTRYVAR_NUM && n == Op2(Ptr, Ident("entry"), Ident(Registry()[r.value].name))
    ensures r.None? && n.Op2? && n.op == Ptr && n.left == Ident("entry") && n.right.Ident? ==>
      forall ev :: 0 <= ev < ENTRYVAR_NUM ==> Registry()[ev].name != n.right.name
  {
    if n.Op2? && n.op == Ptr && n.left == Ident("entry") && n.right.Ident? then
      var ev := FindEntryVar(n.right.name, 0);
      if ev < ENTRYVAR_NUM then Some(ev) else None
    else None
  }

  /** entry->args[N] with N an integer literal of at most 9: N. */
  function ArgsIndex(n: Node): (r: Option<nat>)
    ensures r.Some? <==> n.Index? && n.base == Op2(Ptr, Ident("entry"), Ident("args")) && n.key.Int? && n.key.value <= 9
    ensures r.Some? ==> r.value == n.key.value && r.value <= 9
  {
    if n.Index? && n.base == Op2(Ptr, Ident("entry"), Ident("args")) && n.key.Int? && n.key.value <= 9
    then Some(n.key.value)
    else None
  }

  /** callers["..."] with a string-literal key: the string. */
  function CallersText(n: Node): Option<string>
  {
    if n.Index? && n.base == Ident("callers") && n.key.Str? then Some(n.key.text) else None
  }

  /** The first entry-> use of a clause takes a fresh group number from the handle. */
  function BumpEntrys(w: WalkState): WalkState
  {
    if w.needEntry then w else w.(numEntrys := w.numEntrys + 1)
  }

  /** xd_do_entryvar_impl's bookkeeping: field ev and the timestamp are to be captured. */
  function Mark(w: WalkState, ev: nat): WalkState
    requires |w.entryvars| == ENTRYVAR_NUM && ev < ENTRYVAR_NUM
  {
    w.(needEntry := true, entryvars := w.entryvars[ev := true][ENTRYVAR_TIMESTAMP := true])
  }

  /** (timestamp - self->_XD_entry_timestamp_<group>[stackdepth]) / <xe_num>. */
  function ElapsedValue(ev: nat, group: nat): Node
    requires ev < ENTRYVAR_NUM
  {
    Op2(Div, Op2(Sub, Ident("timestamp"), EntryVar(ENTRYVAR_TIMESTAMP, group)), Int(Registry()[ev].num))
  }

  /** xd_do_entryvar: rewrite entry-><field> inside an all-:return clause. */
  function DoEntryVar(inReturn: bool, n: Node, w: WalkState): (Node, WalkState)
    requires |w.entryvars| == ENTRYVAR_NUM
  {
    if !inReturn then (n, w)
    else
      match EntryVarField(n)
      case None => (n, w)
      case Some(ev) =>
        var w1 := BumpEntrys(w);
        if Registry()[ev].isElapsed then (ElapsedValue(ev, w1.numEntrys), Mark(w1, ENTRYVAR_TIMESTAMP))
        else (EntryVar(ev, w1.numEntrys), Mark(w1, ev))
  }

  /** xd_do_entryvar_args: rewrite entry->args[N] inside an all-:return clause. */
  function DoEntryVarArgs(inReturn: bool, n: Node, w: WalkState): (Node, WalkState)
    requires |w.entryvars| == ENTRYVAR_NUM
  {
    if !inReturn then (n, w)
    else
      match ArgsIndex(n)
      case None => (n, w)
      case Some(k) =>
        var w1 := BumpEntrys(w);
        (EntryVar(ENTRYVAR_ARGS0 + k, w1.numEntrys), Mark(w1, ENTRYVAR_ARGS0 + k))
  }

  /**
   * xd_do_callers: rewrite callers["..."] to a fresh counter, prepend its
   * increment clause and queue its decrement clause.
   */
  function DoCallers(n: Node, w: WalkState): (Node, WalkState)
  {
    match CallersText(n)
    case None => (n, w)
    case Some(text) =>
      var id := w.numCallers + 1;
      (CallersVar(id),
       w.(numCallers := id,
          clauseList := [CallersEntryClause(text, id)] + w.clauseList,
          appendClauses := w.appendClauses + [CallersReturnClause(text, id)]))
  }

  /** The three recognisers in the order xd_visit_all calls them, each on the previous one's result. */
  function Recognize(inReturn: bool, n: Node, w: WalkState): (Node, WalkState)
    requires |w.entryvars| == ENTRYVAR_NUM
  {
    var (n1, w1) := DoEntryVar(inReturn, n, w);
    var (n2, w2) := DoEntryVarArgs(inReturn, n1, w1);
    DoCallers(n2, w2)
  }

  // ------------------------------------------------------------------ walk

  /**
   * xd_visit_all.  A node the recognisers replaced is not descended into:
   * ReplacementInert shows that descending into a replacement changes
   * nothing.  An unknown node kind is the dnerror failure.
   */
  function VisitAll(inReturn: bool, n: Node, w: WalkState): (r: Visited)
    requires |w.entryvars| == ENTRYVAR_NUM
    ensures |r.w.entryvars| == ENTRYVAR_NUM
    decreases Size(n), 1
  {
    var (n3, w3) := Recognize(inReturn, n, w);
    if n3 != n then Visited(true, n3, w3)
    else Descend(inReturn, n, w3)
  }

  /** The switch of xd_visit_all: count if/while, then visit the children in order. */
  function Descend(inReturn: bool, n: Node, w: WalkState): (r: Visited)
    requires |w.entryvars| == ENTRYVAR_NUM
    ensures |r.w.entryvars| == ENTRYVAR_NUM
    decreases Size(n), 0
  {
    if n.Unknown? then Visited(false, n, w)
    else
      var w1 :=
        if n.If? then w.(numIfs := w.numIfs + 1)
        else if n.While? then w.(numWhiles := w.numWhiles + 1)
        else w;
      var v := VisitSeq(inReturn, Children(n), w1);
      if v.ok then Visited(true, Rebuild(n, v.nodes), v.w) else Visited(false, n, v.w)
  }

  /** Visit a list of siblings front to back, stopping at the first failure. */
  function VisitSeq(inReturn: bool, s: seq<Node>, w: WalkState): (r: VisitedSeq)
    requires |w.entryvars| == ENTRYVAR_NUM
    ensures |r.w.entryvars| == ENTRYVAR_NUM
    ensures r.ok ==> |r.nodes| == |s|
    decreases SizeSeq(s), 2
  {
    if s == [] then VisitedSeq(true, [], w)
    else
      var h := VisitAll(inReturn, s[0], w);
      if !h.ok then VisitedSeq(false, [], h.w)
      else
        var t := VisitSeq(inReturn, s[1..], h.w);
        VisitedSeq(t.ok, [h.node] + t.nodes, t.w)
  }

  /** The walk over a clause: its predicate, then its actions. */
  function VisitClause(inReturn: bool, c: Clause, w: WalkState): (r: (bool, Clause, WalkState))
    requires |w.entryvars| == ENTRYVAR_NUM
    ensures |r.2.entryvars| == ENTRYVAR_NUM
    ensures r.0 ==> r.1.pdescs == c.pdescs && r.1.pred.Some? == c.pred.Some? && |r.1.acts| == |c.acts|
  {
    var v := VisitSeq(inReturn, OptList(c.pred) + c.acts, w);
    if !v.ok then (false, c, v.w)
    else
      var k := |OptList(c.pred)|;
      (true, Clause(c.pdescs, if c.pred.Some? then Some(v.nodes[0]) else None, v.nodes[k..]), v.w)
  }
}

module RewriteProps {
  import opened Syntax
  import opened Names
  import opened Clauses
  import opened Tree
  import opened Rewrite

  // ------------------------------------------------------ the recognisers

  /**
   * At most one recogniser fires on a node: entry-><field> (in an all-:return
   * clause), else entry->args[N], else callers["..."]; a node that fires is
   * replaced by a different node, one that does not is left alone with the
   * state unchanged.
   */
  lemma RecognizeCases(inReturn: bool, n: Node, w: WalkState)
    requires |w.entryvars| == ENTRYVAR_NUM
    ensures var (n3, w3) := Recognize(inReturn, n, w);
      if inReturn && EntryVarField(n).Some? then (n3, w3) == DoEntryVar(inReturn, n, w) && n3 != n
      else if inReturn && ArgsIndex(n).Some? then (n3, w3) == DoEntryVarArgs(inReturn, n, w) && n3 != n
      else if CallersText(n).Some? then (n3, w3) == DoCallers(n, w) && n3 != n
      else n3 == n && w3 == w
  {
    if inReturn && EntryVarField(n).Some? {
      RecognizeEntryField(n, w);
    } else if inReturn && ArgsIndex(n).Some? {
      RecognizeArgs(n, w);
    } else {
      assert DoEntryVar(inReturn, n, w) == (n, w);
      assert DoEntryVarArgs(inReturn, n, w) == (n, w);
    }
  }

  /** entry-><field> is replaced by the first recogniser, and the other two leave the replacement alone. */
  lemma RecognizeEntryField(n: Node, w: WalkState)
    requires |w.entryvars| == ENTRYVAR_NUM && EntryVarField(n).Some?
    ensures Recognize(true, n, w) == DoEntryVar(true, n, w) && DoEntryVar(true, n, w).0 != n
  {
    var (n1, w1) := DoEntryVar(true, n, w);
    assert n1 != n;
    assert ArgsIndex(n1).None? && CallersText(n1).None?;
    assert DoEntryVarArgs(true, n1, w1) == (n1, w1);
  }

  /** entry->args[N] passes the first recogniser untouched and is replaced by the second. */
  lemma RecognizeArgs(n: Node, w: WalkState)
    requires |w.entryvars| == ENTRYVAR_NUM && EntryVarField(n).None? && ArgsIndex(n).Some?
    ensures Recognize(true, n, w) == DoEntryVarArgs(true, n, w) && DoEntryVarArgs(true, n, w).0 != n
  {
    assert DoEntryVar(true, n, w) == (n, w);
    var (n2, w2) := DoEntryVarArgs(true, n, w);
    assert n2.Index? && n2.base.Op2? && n2.base.left == Ident("self");
    assert CallersText(n2).None? && n2 != n;
  }

  // ------------------------------------------------ what a walk accumulates

  /** The callers[] increment clauses for texts t0..tk-1 numbered c+1..c+k: latest first, as prepending leaves them. */
  function Increments(texts: seq<string>, c: nat): (r: seq<Clause>)
    ensures |r| == |texts|
  {
    seq(|texts|, i requires 0 <= i < |texts| => CallersEntryClause(texts[|texts| - 1 - i], c + |texts| - i))
  }

  /** The queued callers[] decrement clauses for the same texts and numbers, in occurrence order. */
  function Decrements(texts: seq<string>, c: nat): (r: seq<Clause>)
    ensures |r| == |texts|
  {
    seq(|texts|, i requires 0 <= i < |texts| => CallersReturnClause(texts[i], c + 1 + i))
  }

  lemma IncrementsAppend(t1: seq<string>, t2: seq<string>, c: nat)
    ensures Increments(t1 + t2, c) == Increments(t2, c + |t1|) + Increments(t1, c)
  {
    var l := Increments(t1 + t2, c);
    var r := Increments(t2, c + |t1|) + Increments(t1, c);
    forall i | 0 <= i < |l| ensures l[i] == r[i] {
      if i < |t2| {
        assert (t1 + t2)[|t1| + |t2| - 1 - i] == t2[|t2| - 1 - i];
      } else {
        assert (t1 + t2)[|t1| + |t2| - 1 - i] == t1[|t1| - 1 - (i - |t2|)];
      }
    }
  }

  lemma DecrementsAppend(t1: seq<string>, t2: seq<string>, c: nat)
    ensures Decrements(t1 + t2, c) == Decrements(t1, c) + Decrements(t2, c + |t1|)
  {
    var l := Decrements(t1 + t2, c);
    var r := Decrements(t1, c) + Decrements(t2, c + |t1|);
    forall i | 0 <= i < |l| ensures l[i] == r[i] {
      if i >= |t1| {
        assert (t1 + t2)[i] == t2[i - |t1|];
      }
    }
  }

  /**
   * How a walk that meets the callers[] strings `texts` may change the
   * state: one counter per string, each increment clause prepended and each
   * decrement clause queued; if/while counts only grow; the group number
   * moves by one exactly when the first entry-> use is seen; flags are only
   * ever set; nothing entry-related changes outside an all-:return clause;
   * and the bookkeeping invariant is kept.
   */
  predicate Evolves(inReturn: bool, w: WalkState, w2: WalkState, texts: seq<string>)
  {
    |w.entryvars| == ENTRYVAR_NUM && |w2.entryvars| == ENTRYVAR_NUM &&
    w2.numCallers == w.numCallers + |texts| &&
    w2.clauseList == Increments(texts, w.numCallers) + w.clauseList &&
    w2.appendClauses == w.appendClauses + Decrements(texts, w.numCallers) &&
    w.numIfs <= w2.numIfs && w.numWhiles <= w2.numWhiles &&
    (w.needEntry ==> w2.needEntry) &&
    w2.numEntrys == (if !w.needEntry && w2.needEntry then w.numEntrys + 1 else w.numEntrys) &&
    (forall ev :: 0 <= ev < ENTRYVAR_NUM && w.entryvars[ev] ==> w2.entryvars[ev]) &&
    (!inReturn ==> w2.needEntry == w.needEntry && w2.entryvars == w.entryvars) &&
    (Inv(w) ==> Inv(w2))
  }

  lemma EvolvesRefl(inReturn: bool, w: WalkState)
    requires |w.entryvars| == ENTRYVAR_NUM
    ensures Evolves(inReturn, w, w, [])
  {
    assert w.appendClauses + [] == w.appendClauses;
    assert Increments([], w.numCallers) + w.clauseList == w.clauseList;
  }

  lemma EvolvesTrans(inReturn: bool, w1: WalkState, w2: WalkState, w3: WalkState, t1: seq<string>, t2: seq<string>)
    requires Evolves(inReturn, w1, w2, t1) && Evolves(inReturn, w2, w3, t2)
    ensures Evolves(inReturn, w1, w3, t1 + t2)
  {
    IncrementsAppend(t1, t2, w1.numCallers);
    DecrementsAppend(t1, t2, w1.numCallers);
  }

  /**
   * The string keys of the callers[] uses the walk reaches, in pre-order.
   * A use inside a replaced entry->args[...] subscript, or inside the key
   * of another callers[] use, is not reached.
   */
  function CallersTexts(inReturn: bool, n: Node): seq<string>
    decreases Size(n), 1
  {
    if inReturn && (EntryVarField(n).Some? || ArgsIndex(n).Some?) then []
    else if CallersText(n).Some? then [CallersText(n).value]
    else CallersTextsSeq(inReturn, Children(n))
  }

  function CallersTextsSeq(inReturn: bool, s: seq<Node>): seq<string>
    decreases SizeSeq(s), 2
  {
    if s == [] then [] else CallersTexts(inReturn, s[0]) + CallersTextsSeq(inReturn, s[1..])
  }

  /** Recording a non-elapsed field is one step of Evolves. */
  lemma MarkEvolves(w: WalkState, ev: nat)
    requires |w.entryvars| == ENTRYVAR_NUM && ev < ENTRYVAR_NUM
    requires !(ENTRYVAR_ELAPSED_NS <= ev <= ENTRYVAR_ELAPSED_SEC)
    ensures Evolves(true, w, Mark(BumpEntrys(w), ev), [])
  {
    var w2 := Mark(BumpEntrys(w), ev);
    assert w2.appendClauses == w.appendClauses + [];
    assert w2.clauseList == Increments([], w.numCallers) + w.clauseList;
  }

  /** Rewriting one callers[] use is one step of Evolves. */
  lemma CallersEvolves(inReturn: bool, n: Node, w: WalkState)
    requires |w.entryvars| == ENTRYVAR_NUM && CallersText(n).Some?
    ensures Evolves(inReturn, w, DoCallers(n, w).1, [CallersText(n).value])
  {
    var t := CallersText(n).value;
    assert Increments([t], w.numCallers) == [CallersEntryClause(t, w.numCallers + 1)];
  }

  /** One recogniser firing is one step of Evolves. */
  lemma RecognizeEvolves(inReturn: bool, n: Node, w: WalkState)
    requires |w.entryvars| == ENTRYVAR_NUM
    requires Recognize(inReturn, n, w).0 != n
    ensures Evolves(inReturn, w, Recognize(inReturn, n, w).1, CallersTexts(inReturn, n))
  {
    RecognizeCases(inReturn, n, w);
    RegistryShape();
    if inReturn && EntryVarField(n).Some? {
      var ev := EntryVarField(n).value;
      MarkEvolves(w, if Registry()[ev].isElapsed then ENTRYVAR_TIMESTAMP else ev);
    } else if inReturn && ArgsIndex(n).Some? {
      MarkEvolves(w, ENTRYVAR_ARGS0 + ArgsIndex(n).value);
    } else {
      CallersEvolves(inReturn, n, w);
    }
  }

  lemma {:induction false} VisitAllEvolves(inReturn: bool, n: Node, w: WalkState)
    requires |w.entryvars| == ENTRYVAR_NUM
    ensures VisitAll(inReturn, n, w).ok ==>
      Evolves(inReturn, w, VisitAll(inReturn, n, w).w, CallersTexts(inReturn, n))
    decreases Size(n), 1
  {
    RecognizeCases(inReturn, n, w);
    var (n3, w3) := Recognize(inReturn, n, w);
    if n3 != n {
      RecognizeEvolves(inReturn, n, w);
    } else {
      DescendEvolves(inReturn, n, w);
    }
  }

  lemma {:induction false} DescendEvolves(inReturn: bool, n: Node, w: WalkState)
    requires |w.entryvars| == ENTRYVAR_NUM
    requires !(inReturn && (EntryVarField(n).Some? || ArgsIndex(n).Some?)) && CallersText(n).None?
    ensures Descend(inReturn, n, w).ok ==>
      Evolves(inReturn, w, Descend(inReturn, n, w).w, CallersTexts(inReturn, n))
    decreases Size(n), 0
  {
    if !n.Unknown? {
      var w1 :=
        if n.If? then w.(numIfs := w.numIfs + 1)
        else if n.While? then w.(numWhiles := w.numWhiles + 1)
        else w;
      EvolvesRefl(inReturn, w);
      assert Evolves(inReturn, w, w1, []);
      VisitSeqEvolves(inReturn, Children(n), w1);
      if VisitSeq(inReturn, Children(n), w1).ok {
        EvolvesTrans(inReturn, w, w1, VisitSeq(inReturn, Children(n), w1).w, [], CallersTextsSeq(inReturn, Children(n)));
        assert [] + CallersTextsSeq(inReturn, Children(n)) == CallersTexts(inReturn, n);
      }
    }
  }

  lemma {:induction false} VisitSeqEvolves(inReturn: bool, s: seq<Node>, w: WalkState)
    requires |w.entryvars| == ENTRYVAR_NUM
    ensures VisitSeq(inReturn, s, w).ok ==>
      Evolves(inReturn, w, VisitSeq(inReturn, s, w).w, CallersTextsSeq(inReturn, s))
    decreases SizeSeq(s), 2
  {
    if s == [] {
      EvolvesRefl(inReturn, w);
    } else {
      var h := VisitAll(inReturn, s[0], w);
      VisitAllEvolves(inReturn, s[0], w);
      if h.ok {
        VisitSeqEvolves(inReturn, s[1..], h.w);
        var t := VisitSeq(inReturn, s[1..], h.w);
        if t.ok {
          EvolvesTrans(inReturn, w, h.w, t.w, CallersTexts(inReturn, s[0]), CallersTextsSeq(inReturn, s[1..]));
        }
      }
    }
  }

  // ------------------------------------------------ nodes the walk keeps

  /** A subtree with no use the recognisers rewrite, no if/while and no unknown node kind. */
  predicate Plain(inReturn: bool, n: Node)
    decreases Size(n), 1
  {
    !(inReturn && (EntryVarField(n).Some? || ArgsIndex(n).Some?)) && CallersText(n).None? &&
    !n.If? && !n.While? && !n.Unknown? && PlainSeq(inReturn, Children(n))
  }

  predicate PlainSeq(inReturn: bool, s: seq<Node>)
    decreases SizeSeq(s), 2
  {
    s == [] || (Plain(inReturn, s[0]) && PlainSeq(inReturn, s[1..]))
  }

  /** The walk leaves a plain subtree, and the whole state, exactly as they were. */
  lemma {:induction false} PlainVisit(inReturn: bool, n: Node, w: WalkState)
    requires |w.entryvars| == ENTRYVAR_NUM && Plain(inReturn, n)
    ensures VisitAll(inReturn, n, w) == Visited(true, n, w)
    ensures Descend(inReturn, n, w) == Visited(true, n, w)
    decreases Size(n), 1
  {
    RecognizeCases(inReturn, n, w);
    PlainSeqVisit(inReturn, Children(n), w);
    RebuildChildren(n);
  }

  lemma {:induction false} PlainSeqVisit(inReturn: bool, s: seq<Node>, w: WalkState)
    requires |w.entryvars| == ENTRYVAR_NUM && PlainSeq(inReturn, s)
    ensures VisitSeq(inReturn, s, w) == VisitedSeq(true, s, w)
    decreases SizeSeq(s), 2
  {
    if s != [] {
      PlainVisit(inReturn, s[0], w);
      PlainSeqVisit(inReturn, s[1..], w);
      assert [s[0]] + s[1..] == s;
    }
  }

  lemma PlainLeaf(inReturn: bool, name: string)
    ensures Plain(inReturn, Ident(name)) && Plain(inReturn, Int(0))
  {
    assert PlainSeq(inReturn, []);
  }

  lemma PlainPair(inReturn: bool, a: Node, b: Node)
    requires Plain(inReturn, a) && Plain(inReturn, b)
    ensures PlainSeq(inReturn, [a, b])
  {
    assert [a, b][1..] == [b];
    assert [b][1..] == [];
  }

  /** self->X and this->X are plain: their left operand is not "entry". */
  lemma PlainDeref(inReturn: bool, base: string, name: string)
    requires base != "entry"
    ensures Plain(inReturn, Op2(Ptr, Ident(base), Ident(name)))
  {
    PlainLeaf(inReturn, base);
    PlainLeaf(inReturn, name);
    PlainPair(inReturn, Ident(base), Ident(name));
  }

  lemma PlainEntryVar(inReturn: bool, ev: nat, group: nat)
    requires ev < ENTRYVAR_NUM
    ensures Plain(inReturn, EntryVar(ev, group))
  {
    var slot := Op2(Ptr, Ident("self"), Ident(EntryVarName(ev, group)));
    PlainDeref(inReturn, "self", EntryVarName(ev, group));
    PlainLeaf(inReturn, "stackdepth");
    PlainPair(inReturn, slot, Ident("stackdepth"));
    assert Children(EntryVar(ev, group)) == [slot, Ident("stackdepth")];
  }

  /**
   * The nodes the recognisers put in place hold nothing the walk would act
   * on, so descending into them (as xd_visit_all's switch does after a
   * rewrite) changes neither them nor the state.
   */
  lemma ReplacementInert(inReturn: bool, ev: nat, group: nat, id: nat, w: WalkState)
    requires ev < ENTRYVAR_NUM && |w.entryvars| == ENTRYVAR_NUM
    ensures Descend(inReturn, EntryVar(ev, group), w) == Visited(true, EntryVar(ev, group), w)
    ensures Descend(inReturn, ElapsedValue(ev, group), w) == Visited(true, ElapsedValue(ev, group), w)
    ensures Descend(inReturn, CallersVar(id), w) == Visited(true, CallersVar(id), w)
  {
    PlainEntryVar(inReturn, ev, group);
    PlainVisit(inReturn, EntryVar(ev, group), w);
    PlainElapsed(inReturn, ev, group);
    PlainVisit(inReturn, ElapsedValue(ev, group), w);
    PlainDeref(inReturn, "self", CallersName(id));
    PlainVisit(inReturn, CallersVar(id), w);
  }

  /** (timestamp - <entry timestamp>) / <num> holds nothing the walk rewrites. */
  lemma PlainElapsed(inReturn: bool, ev: nat, group: nat)
    requires ev < ENTRYVAR_NUM
    ensures Plain(inReturn, ElapsedValue(ev, group))
  {
    PlainEntryVar(inReturn, ENTRYVAR_TIMESTAMP, group);
    PlainLeaf(inReturn, "timestamp");
    var delta := Op2(Sub, Ident("timestamp"), EntryVar(ENTRYVAR_TIMESTAMP, group));
    PlainPair(inReturn, Ident("timestamp"), EntryVar(ENTRYVAR_TIMESTAMP, group));
    assert Plain(inReturn, delta);
    assert Plain(inReturn, Int(Registry()[ev].num)) by {
      assert PlainSeq(inReturn, []);
    }
    PlainPair(inReturn, delta, Int(Registry()[ev].num));
  }

  // -------------------------------------------------- single rewrites

  /**
   * entry-><field> in an all-:return clause becomes the capture slot of that
   * field (for elapsed_*, the time since the captured timestamp divided by
   * the row's unit) in the group the clause takes on its first entry-> use,
   * and the field (for elapsed_*, the timestamp) is flagged together with
   * the timestamp.  The callers[] state is untouched.
   */
  lemma EntryFieldRewrite(ev: nat, w: WalkState)
    requires ev < ENTRYVAR_NUM && |w.entryvars| == ENTRYVAR_NUM
    ensures var r := VisitAll(true, Op2(Ptr, Ident("entry"), Ident(Registry()[ev].name)), w);
      var group := if w.needEntry then w.numEntrys else w.numEntrys + 1;
      var slot := if Registry()[ev].isElapsed then ENTRYVAR_TIMESTAMP else ev;
      r.ok &&
      r.node == (if Registry()[ev].isElapsed then ElapsedValue(ev, group) else EntryVar(ev, group)) &&
      r.w.numEntrys == group && r.w.needEntry &&
      r.w.entryvars == w.entryvars[slot := true][ENTRYVAR_TIMESTAMP := true] &&
      r.w.clauseList == w.clauseList && r.w.appendClauses == w.appendClauses &&
      r.w.numCallers == w.numCallers
  {
    var n := Op2(Ptr, Ident("entry"), Ident(Registry()[ev].name));
    FindRegistryName(ev);
    assert EntryVarField(n) == Some(ev);
    var w1 := BumpEntrys(w);
    var slot := if Registry()[ev].isElapsed then ENTRYVAR_TIMESTAMP else ev;
    var n1 := if Registry()[ev].isElapsed then ElapsedValue(ev, w1.numEntrys) else EntryVar(ev, w1.numEntrys);
    assert DoEntryVar(true, n, w) == (n1, Mark(w1, slot));
    assert ArgsIndex(n1).None? && CallersText(n1).None? && n1 != n;
    assert Recognize(true, n, w) == (n1, Mark(w1, slot));
  }

  /** Outside an all-:return clause an entry-><name> node is kept as it is and the state does not change. */
  lemma EntryOutsideReturn(name: string, w: WalkState)
    requires |w.entryvars| == ENTRYVAR_NUM
    ensures VisitAll(false, Op2(Ptr, Ident("entry"), Ident(name)), w) ==
      Visited(true, Op2(Ptr, Ident("entry"), Ident(name)), w)
  {
    PlainLeaf(false, "entry");
    PlainLeaf(false, name);
    PlainPair(false, Ident("entry"), Ident(name));
    PlainVisit(false, Op2(Ptr, Ident("entry"), Ident(name)), w);
  }

  /** entry->args[N] with a literal N <= 9 in an all-:return clause becomes the args<N> capture slot. */
  lemma ArgsRewrite(k: nat, w: WalkState)
    requires |w.entryvars| == ENTRYVAR_NUM && k <= 9
    ensures var r := VisitAll(true, Index(Op2(Ptr, Ident("entry"), Ident("args")), Int(k), []), w);
      var group := if w.needEntry then w.numEntrys else w.numEntrys + 1;
      r.ok && r.node == EntryVar(ENTRYVAR_ARGS0 + k, group) && r.w.numEntrys == group && r.w.needEntry &&
      r.w.entryvars == w.entryvars[ENTRYVAR_ARGS0 + k := true][ENTRYVAR_TIMESTAMP := true] &&
      r.w.clauseList == w.clauseList && r.w.appendClauses == w.appendClauses &&
      r.w.numCallers == w.numCallers
  {
    var n := Index(Op2(Ptr, Ident("entry"), Ident("args")), Int(k), []);
    RecognizeArgs(n, w);
    var w1 := BumpEntrys(w);
    assert DoEntryVarArgs(true, n, w) == (EntryVar(ENTRYVAR_ARGS0 + k, w1.numEntrys), Mark(w1, ENTRYVAR_ARGS0 + k));
  }

  /** entry->args by itself is no field: the walk leaves it alone. */
  lemma PlainArgsBase()
    ensures Plain(true, Op2(Ptr, Ident("entry"), Ident("args")))
  {
    var e, a := Ident("entry"), Ident("args");
    var base := Op2(Ptr, e, a);
    ArgsNotAField();
    assert EntryVarField(base) == None;
    PlainLeaf(true, "entry");
    PlainLeaf(true, "args");
    PlainPair(true, e, a);
    assert Children(base) == [e, a];
  }

  /** entry->args[N] with N above 9 is not rewritten: the walk leaves it, and the state, alone. */
  lemma ArgsTooLarge(k: nat, w: WalkState)
    requires |w.entryvars| == ENTRYVAR_NUM && k > 9
    ensures VisitAll(true, Index(Op2(Ptr, Ident("entry"), Ident("args")), Int(k), []), w) ==
      Visited(true, Index(Op2(Ptr, Ident("entry"), Ident("args")), Int(k), []), w)
  {
    var base := Op2(Ptr, Ident("entry"), Ident("args"));
    var n := Index(base, Int(k), []);
    PlainArgsBase();
    assert Plain(true, Int(k)) by {
      assert Children(Int(k)) == [];
      assert PlainSeq(true, []);
    }
    PlainPair(true, base, Int(k));
    assert Children(n) == [base, Int(k)];
    assert Plain(true, n);
    PlainVisit(true, n, w);
  }

  /** entry->args[k] whose index is not an integer literal is not rewritten either, and is no error. */
  lemma ArgsNeedsInteger(key: Node, w: WalkState)
    requires |w.entryvars| == ENTRYVAR_NUM && !key.Int? && Plain(true, key)
    ensures VisitAll(true, Index(Op2(Ptr, Ident("entry"), Ident("args")), key, []), w) ==
      Visited(true, Index(Op2(Ptr, Ident("entry"), Ident("args")), key, []), w)
  {
    var base := Op2(Ptr, Ident("entry"), Ident("args"));
    var n := Index(base, key, []);
    PlainArgsBase();
    PlainPair(true, base, key);
    assert Children(n) == [base, key];
    assert Plain(true, n);
    PlainVisit(true, n, w);
  }

  /** callers[] whose key is not a string literal is left unrewritten. */
  lemma CallersNeedsString(key: Node, w: WalkState)
    requires |w.entryvars| == ENTRYVAR_NUM && !key.Str?
    requires forall b :: Plain(b, key)
    ensures forall b :: (VisitAll(b, Index(Ident("callers"), key, []), w) ==
      Visited(true, Index(Ident("callers"), key, []), w))
  {
    forall b ensures VisitAll(b, Index(Ident("callers"), key, []), w) == Visited(true, Index(Ident("callers"), key, []), w) {
      PlainLeaf(b, "callers");
      PlainPair(b, Ident("callers"), key);
      assert Children(Index(Ident("callers"), key, [])) == [Ident("callers"), key];
      PlainVisit(b, Index(Ident("callers"), key, []), w);
    }
  }
}
