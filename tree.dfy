/*
 * The child lists of parse-tree nodes, in the order xd_visit_all visits
 * them, and the size measure that makes the traversal terminate.
 */
module Tree {
  import opened Syntax

  function Size(n: Node): (r: nat)
    ensures r >= 1
  {
    match n
    case Func(_, args) => 1 + SizeSeq(args)
    case Op1(_, c) => 1 + Size(c)
    case Op2(_, l, r) => 1 + Size(l) + Size(r)
    case Index(b, k, more) => 1 + Size(b) + Size(k) + SizeSeq(more)
    case Op3(c, l, r) => 1 + Size(c) + Size(l) + Size(r)
    case DExpr(e) => 1 + Size(e)
    case DFunc(e) => 1 + Size(e)
    case Agg(_, t, f) => 1 + SizeSeq(t) + (if f.Some? then Size(f.value) else 0)
    case Inline(_, root) => 1 + Size(root)
    case Member(_, e) => 1 + (if e.Some? then Size(e.value) else 0)
    case If(t, b, a) => 1 + Size(t) + SizeSeq(b) + SizeSeq(a)
    case While(_, t, b) => 1 + Size(t) + SizeSeq(b)
    case _ => 1
  }

  function SizeSeq(s: seq<Node>): nat
  {
    if s == [] then 0 else Size(s[0]) + SizeSeq(s[1..])
  }

  lemma {:induction false} SizeSeqAppend(a: seq<Node>, b: seq<Node>)
    ensures SizeSeq(a + b) == SizeSeq(a) + SizeSeq(b)
  {
    if a == [] {
      assert a + b == b;
    } else {
      assert (a + b)[1..] == a[1..] + b;
      SizeSeqAppend(a[1..], b);
    }
  }

  /** Each element of a list is no larger than the list. */
  lemma {:induction false} SizeSeqElem(s: seq<Node>, i: nat)
    requires i < |s|
    ensures Size(s[i]) <= SizeSeq(s)
  {
    if i > 0 {
      SizeSeqElem(s[1..], i - 1);
    }
  }

  lemma SizeSeqSingle(x: Node)
    ensures SizeSeq([x]) == Size(x)
  {
    assert [x][1..] == [];
  }

  lemma SizeSeqPair(x: Node, y: Node)
    ensures SizeSeq([x, y]) == Size(x) + Size(y)
  {
    assert [x, y][1..] == [y];
    SizeSeqSingle(y);
  }

  /** The optional child as a list of zero or one nodes. */
  function OptList(o: Option<Node>): (r: seq<Node>)
    ensures |r| == (if o.Some? then 1 else 0)
  {
    if o.Some? then [o.value] else []
  }

  /**
   * The children xd_visit_all descends into, in visiting order: the
   * arguments of a call, the operands, a subscript's base, first key and
   * further keys, the condition of ?: before its arms, an aggregation's key
   * tuple before its function, the root of an inline, the member
   * expression, and the test of if/while before the bodies.
   */
  function Children(n: Node): (r: seq<Node>)
    ensures SizeSeq(r) < Size(n)
  {
    ChildrenSmaller(n);
    match n
    case Func(_, args) => args
    case Op1(_, c) => [c]
    case Op2(_, l, r) => [l, r]
    case Index(b, k, more) => [b, k] + more
    case Op3(c, l, r) => [c, l, r]
    case DExpr(e) => [e]
    case DFunc(e) => [e]
    case Agg(_, t, f) => t + OptList(f)
    case Inline(_, root) => [root]
    case Member(_, e) => OptList(e)
    case If(t, b, a) => [t] + b + a
    case While(_, t, b) => [t] + b
    case _ => []
  }

  /** The children are smaller: the measure xd_visit_all's recursion decreases. */
  lemma ChildrenSmaller(n: Node)
    ensures n.Func? ==> SizeSeq(n.args) < Size(n)
    ensures n.Op1? ==> SizeSeq([n.child]) < Size(n)
    ensures n.Op2? ==> SizeSeq([n.left, n.right]) < Size(n)
    ensures n.Index? ==> SizeSeq([n.base, n.key] + n.more) < Size(n)
    ensures n.Op3? ==> SizeSeq([n.cond, n.left, n.right]) < Size(n)
    ensures n.DExpr? || n.DFunc? ==> SizeSeq([n.expr]) < Size(n)
    ensures n.Agg? ==> SizeSeq(n.tuple + OptList(n.fun)) < Size(n)
    ensures n.Inline? ==> SizeSeq([n.root]) < Size(n)
    ensures n.Member? ==> SizeSeq(OptList(n.membExpr)) < Size(n)
    ensures n.If? ==> SizeSeq([n.test] + n.body + n.alt) < Size(n)
    ensures n.While? ==> SizeSeq([n.test] + n.body) < Size(n)
  {
    if n.Op1? || n.Op2? || n.Op3? || n.Index? {
      OperandsSmaller(n);
    } else if n.Agg? || n.Member? {
      OptionalSmaller(n);
    } else if n.If? || n.While? {
      StatementsSmaller(n);
    } else if n.DExpr? || n.DFunc? {
      SizeSeqSingle(n.expr);
    } else if n.Inline? {
      SizeSeqSingle(n.root);
    }
  }

  lemma OperandsSmaller(n: Node)
    requires n.Op1? || n.Op2? || n.Op3? || n.Index?
    ensures n.Op1? ==> SizeSeq([n.child]) < Size(n)
    ensures n.Op2? ==> SizeSeq([n.left, n.right]) < Size(n)
    ensures n.Index? ==> SizeSeq([n.base, n.key] + n.more) < Size(n)
    ensures n.Op3? ==> SizeSeq([n.cond, n.left, n.right]) < Size(n)
  {
    match n
    case Op1(_, c) => SizeSeqSingle(c);
    case Op2(_, l, r) => SizeSeqPair(l, r);
    case Index(b, k, more) => SizeSeqPair(b, k); SizeSeqAppend([b, k], more);
    case Op3(c, l, r) =>
      SizeSeqSingle(c); SizeSeqPair(l, r); SizeSeqAppend([c], [l, r]);
      assert [c] + [l, r] == [c, l, r];
  }

  lemma OptionalSmaller(n: Node)
    requires n.Agg? || n.Member?
    ensures n.Agg? ==> SizeSeq(n.tuple + OptList(n.fun)) < Size(n)
    ensures n.Member? ==> SizeSeq(OptList(n.membExpr)) < Size(n)
  {
    match n
    case Agg(_, t, f) =>
      SizeSeqAppend(t, OptList(f));
      if f.Some? { SizeSeqSingle(f.value); }
    case Member(_, e) =>
      if e.Some? { SizeSeqSingle(e.value); }
  }

  lemma StatementsSmaller(n: Node)
    requires n.If? || n.While?
    ensures n.If? ==> SizeSeq([n.test] + n.body + n.alt) < Size(n)
    ensures n.While? ==> SizeSeq([n.test] + n.body) < Size(n)
  {
    SizeSeqSingle(n.test);
    SizeSeqAppend([n.test], n.body);
    if n.If? {
      SizeSeqAppend([n.test] + n.body, n.alt);
    }
  }

  /** The node with its children replaced, in the order Children lists them. */
  function Rebuild(n: Node, kids: seq<Node>): Node
    requires |kids| == |Children(n)|
  {
    match n
    case Func(f, _) => Func(f, kids)
    case Op1(op, _) => Op1(op, kids[0])
    case Op2(op, _, _) => Op2(op, kids[0], kids[1])
    case Index(_, _, _) => Index(kids[0], kids[1], kids[2..])
    case Op3(_, _, _) => Op3(kids[0], kids[1], kids[2])
    case DExpr(_) => DExpr(kids[0])
    case DFunc(_) => DFunc(kids[0])
    case Agg(name, t, f) => Agg(name, kids[..|t|], if f.Some? then Some(kids[|t|]) else None)
    case Inline(name, _) => Inline(name, kids[0])
    case Member(name, e) => Member(name, if e.Some? then Some(kids[0]) else None)
    case If(_, b, _) => If(kids[0], kids[1..1 + |b|], kids[1 + |b|..])
    case While(m, _, _) => While(m, kids[0], kids[1..])
    case _ => n
  }

  /** Putting a node's own children back gives the node again. */
  lemma RebuildChildren(n: Node)
    ensures Rebuild(n, Children(n)) == n
  {
    match n
    case Index(b, k, more) => assert ([b, k] + more)[2..] == more;
    case Agg(_, t, f) => assert (t + OptList(f))[..|t|] == t;
    case If(t, b, a) =>
      assert ([t] + b + a)[1..1 + |b|] == b;
      assert ([t] + b + a)[1 + |b|..] == a;
    case While(_, t, b) => assert ([t] + b)[1..] == b;
    case _ =>
  }

  /** Rebuilding keeps the node's kind. */
  lemma RebuildKind(n: Node, kids: seq<Node>)
    requires |kids| == |Children(n)|
    ensures Rebuild(n, kids).If? == n.If? && Rebuild(n, kids).While? == n.While?
    ensures Rebuild(n, kids).Unknown? == n.Unknown?
  {
  }

  /** Rebuilding keeps the node kind and gives back exactly the children put in. */
  lemma ChildrenRebuild(n: Node, kids: seq<Node>)
    requires |kids| == |Children(n)|
    ensures Children(Rebuild(n, kids)) == kids
    ensures Rebuild(n, kids).If? == n.If? && Rebuild(n, kids).While? == n.While?
    ensures Rebuild(n, kids).Unknown? == n.Unknown?
  {
    RebuildKind(n, kids);
    match n
    case Index(_, _, _) =>
      assert Rebuild(n, kids) == Index(kids[0], kids[1], kids[2..]);
      assert [kids[0], kids[1]] + kids[2..] == kids;
    case Agg(name, t, f) =>
      if f.Some? {
        assert Rebuild(n, kids) == Agg(name, kids[..|t|], Some(kids[|t|]));
        assert kids[..|t|] + [kids[|t|]] == kids;
      } else {
        assert Rebuild(n, kids) == Agg(name, kids[..|t|], None);
        assert kids[..|t|] + [] == kids;
      }
    case If(_, b, _) =>
      assert Rebuild(n, kids) == If(kids[0], kids[1..1 + |b|], kids[1 + |b|..]);
      assert [kids[0]] + kids[1..1 + |b|] + kids[1 + |b|..] == kids;
    case While(m, _, _) =>
      assert Rebuild(n, kids) == While(m, kids[0], kids[1..]);
      assert [kids[0]] + kids[1..] == kids;
    case Op1(_, _) => assert [kids[0]] == kids;
    case Op2(_, _, _) => assert [kids[0], kids[1]] == kids;
    case Op3(_, _, _) => assert [kids[0], kids[1], kids[2]] == kids;
    case DExpr(_) => assert [kids[0]] == kids;
    case DFunc(_) => assert [kids[0]] == kids;
    case Inline(_, _) => assert [kids[0]] == kids;
    case Member(_, e) =>
      if e.Some? { assert [kids[0]] == kids; }
    case _ =>
  }
}
