/*
 * The slice of the D parse tree that the experimental-features pass reads
 * and builds: expression and statement nodes, probe descriptions and
 * clauses.  Node construction and list linking of the C compiler become
 * datatype constructors and sequence operations.
 */
module Syntax {

  datatype Option<T> = None | Some(value: T)

  /** The operator tokens the pass builds or inspects; any other token is OtherOp. */
  datatype Op =
    | Ptr        // ->
    | Asgn       // =
    | LAnd       // &&
    | LNeg       // !
    | Sub        // -
    | Div        // /
    | PreInc     // ++x
    | PreDec     // --x
    | OtherOp(token: nat)

  /**
   * Parse-tree nodes.  A subscript `a[k0, k1, ...]` (an OP2 node with the
   * `[` token whose right child heads the key list) is Index(a, k0, [k1, ...]).
   * Unknown stands for any node kind the traversal does not know.
   */
  datatype Node =
    | Int(value: nat)
    | Str(text: string)
    | Ident(name: string)
    | Sym(name: string)
    | TypeRef(name: string)
    | Func(name: string, args: seq<Node>)
    | Op1(op: Op, child: Node)
    | Op2(op: Op, left: Node, right: Node)
    | Index(base: Node, key: Node, more: seq<Node>)
    | Op3(cond: Node, left: Node, right: Node)
    | DExpr(expr: Node)
    | DFunc(expr: Node)
    | Agg(name: string, tuple: seq<Node>, fun: Option<Node>)
    | Inline(name: string, root: Node)
    | Member(name: string, membExpr: Option<Node>)
    | If(test: Node, body: seq<Node>, alt: seq<Node>)
    | While(maxIter: int, test: Node, body: seq<Node>)
    | Unknown(kind: nat)

  /** A probe description provider:module:function:name. */
  datatype PDesc = PDesc(provider: string, mod: string, func: string, name: string)

  /** A clause: probe descriptions, an optional predicate and the action statements. */
  datatype Clause = Clause(pdescs: seq<PDesc>, pred: Option<Node>, acts: seq<Node>)

  /** The statement node wrapping an expression. */
  function Statement(e: Node): Node { DExpr(e) }

  /** The text of a probe description, fields joined by colons. */
  function DescText(d: PDesc): string
  {
    d.provider + ":" + d.mod + ":" + d.func + ":" + d.name
  }

  /** Splitting a string at its last colon: what precedes it (None when there is no colon) and what follows. */
  datatype Cut = Cut(rest: Option<string>, field: string)

  function CutLast(s: string): (c: Cut)
    ensures ':' !in c.field
    ensures c.rest.None? ==> c.field == s
    ensures c.rest.Some? ==> s == c.rest.value + ":" + c.field
  {
    if s == [] then Cut(None, [])
    else if s[|s| - 1] == ':' then Cut(Some(s[..|s| - 1]), [])
    else
      var c := CutLast(s[..|s| - 1]);
      Cut(c.rest, c.field + [s[|s| - 1]])
  }

  /**
   * A probe description built from its text, filling the fields from the
   * right: "f:entry" is function f, name entry; any colons left after the
   * third one from the right stay in the provider.
   */
  function DescByName(s: string): PDesc
  {
    var c1 := CutLast(s);
    match c1.rest
    case None => PDesc("", "", "", c1.field)
    case Some(r1) =>
      var c2 := CutLast(r1);
      match c2.rest
      case None => PDesc("", "", c2.field, c1.field)
      case Some(r2) =>
        var c3 := CutLast(r2);
        match c3.rest
        case None => PDesc("", c3.field, c2.field, c1.field)
        case Some(r3) => PDesc(r3, c3.field, c2.field, c1.field)
  }

  /** Cutting `x:y` at its last colon gives back x and y when y has no colon. */
  lemma {:induction false} CutLastJoin(x: string, y: string)
    requires ':' !in y
    ensures CutLast(x + ":" + y) == Cut(Some(x), y)
  {
    if y == [] {
      assert (x + ":" + y)[..|x + ":" + y| - 1] == x;
    } else {
      var s := x + ":" + y;
      var y' := y[..|y| - 1];
      assert s[..|s| - 1] == x + ":" + y';
      assert ':' !in y' by {
        forall i | 0 <= i < |y'| ensures y'[i] != ':' { assert y'[i] == y[i]; }
      }
      CutLastJoin(x, y');
      assert y' + [y[|y| - 1]] == y;
    }
  }

  /** Printing a description and parsing it back gives it again, when module, function and name hold no colon. */
  lemma DescRoundTrip(d: PDesc)
    requires ':' !in d.mod && ':' !in d.func && ':' !in d.name
    ensures DescByName(DescText(d)) == d
  {
    var s := DescText(d);
    var r1 := d.provider + ":" + d.mod + ":" + d.func;
    var r2 := d.provider + ":" + d.mod;
    assert s == r1 + ":" + d.name;
    CutLastJoin(r1, d.name);
    CutLastJoin(r2, d.func);
    CutLastJoin(d.provider, d.mod);
  }

  /** A description whose text ends in ":entry" or ":return" has that name. */
  lemma NameOfSuffix(prefix: string, name: string)
    requires ':' !in name
    ensures DescByName(prefix + ":" + name).name == name
  {
    CutLastJoin(prefix, name);
  }

  /** The tokens of a comma-separated string, empty tokens included (strsep semantics). */
  function SplitFrom(s: string, cur: string): (r: seq<string>)
    ensures |r| >= 1
    decreases |s|
  {
    if s == [] then [cur]
    else if s[0] == ',' then [cur] + SplitFrom(s[1..], [])
    else SplitFrom(s[1..], cur + [s[0]])
  }

  function Split(s: string): seq<string>
  {
    SplitFrom(s, [])
  }

  /** strsep one character further: a comma closes the token, any other character extends it. */
  lemma SplitFromStep(s: string, j: nat, tokens: seq<string>, cur: string)
    requires j < |s|
    ensures s[j] == ',' ==> tokens + SplitFrom(s[j..], cur) == (tokens + [cur]) + SplitFrom(s[j + 1..], [])
    ensures s[j] != ',' ==> tokens + SplitFrom(s[j..], cur) == tokens + SplitFrom(s[j + 1..], cur + [s[j]])
  {
    assert s[j..][0] == s[j] && s[j..][1..] == s[j + 1..];
  }

  /** Gluing the tokens back together with commas. */
  function Join(tokens: seq<string>): string
    requires |tokens| >= 1
  {
    if |tokens| == 1 then tokens[0] else tokens[0] + "," + Join(tokens[1..])
  }

  function CountChar(s: string, c: char): nat
  {
    if s == [] then 0 else (if s[0] == c then 1 else 0) + CountChar(s[1..], c)
  }

  lemma {:induction false} SplitFromJoin(s: string, cur: string)
    requires ',' !in cur
    ensures Join(SplitFrom(s, cur)) == cur + s
    ensures |SplitFrom(s, cur)| == CountChar(s, ',') + 1
    ensures forall t :: t in SplitFrom(s, cur) ==> ',' !in t
    decreases |s|
  {
    if s == [] {
    } else if s[0] == ',' {
      SplitFromJoin(s[1..], []);
      assert s == [','] + s[1..];
    } else {
      assert ',' !in cur + [s[0]];
      SplitFromJoin(s[1..], cur + [s[0]]);
      assert cur + [s[0]] + s[1..] == cur + s;
    }
  }

  /** strsep yields one more token than there are commas, none holding a comma, and joining them restores the string. */
  lemma SplitJoin(s: string)
    ensures Join(Split(s)) == s
    ensures |Split(s)| == CountChar(s, ',') + 1
    ensures forall t :: t in Split(s) ==> ',' !in t
  {
    SplitFromJoin(s, []);
  }
}
