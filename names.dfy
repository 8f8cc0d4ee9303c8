/*
 * The synthesised variables of the experimental features: the registry of
 * `entry->` fields (the `entryvars` table) and the names and nodes of
 * self->_XD_error, this->_XD_condition_<id>, self->_XD_callers_<id> and
 * self->_XD_entry_<field>_<group>[stackdepth].  Every name is a pure
 * function of (role, number, field), and distinct tuples give distinct names.
 */
module Names {
  import opened Syntax

  /** One row of the entry-variable registry. */
  datatype EntryVarInfo = EntryVarInfo(name: string, isArgs: bool, isElapsed: bool, num: nat)

  const ENTRYVAR_VTIMESTAMP: nat := 0
  const ENTRYVAR_ELAPSED_NS: nat := 3
  const ENTRYVAR_ELAPSED_SEC: nat := 6
  const ENTRYVAR_ARG0: nat := 7
  const ENTRYVAR_ARGS0: nat := 17
  const ENTRYVAR_ARGS9: nat := 26
  const ENTRYVAR_TIMESTAMP: nat := 27
  const ENTRYVAR_NUM: nat := 28

  /** The registry, in enum order; timestamp is last on purpose (it marks a complete capture). */
  function Registry(): seq<EntryVarInfo>
  {
    [
      EntryVarInfo("vtimestamp", false, false, 0),
      EntryVarInfo("walltimestamp", false, false, 0),
      EntryVarInfo("errno", false, false, 0),
      EntryVarInfo("elapsed_ns", false, true, 1),
      EntryVarInfo("elapsed_us", false, true, 1000),
      EntryVarInfo("elapsed_ms", false, true, 1000 * 1000),
      EntryVarInfo("elapsed_sec", false, true, 1000 * 1000 * 1000),
      EntryVarInfo("arg0", false, false, 0),
      EntryVarInfo("arg1", false, false, 1),
      EntryVarInfo("arg2", false, false, 2),
      EntryVarInfo("arg3", false, false, 3),
      EntryVarInfo("arg4", false, false, 4),
      EntryVarInfo("arg5", false, false, 5),
      EntryVarInfo("arg6", false, false, 6),
      EntryVarInfo("arg7", false, false, 7),
      EntryVarInfo("arg8", false, false, 8),
      EntryVarInfo("arg9", false, false, 9),
      EntryVarInfo("args0", true, false, 0),
      EntryVarInfo("args1", true, false, 1),
      EntryVarInfo("args2", true, false, 2),
      EntryVarInfo("args3", true, false, 3),
      EntryVarInfo("args4", true, false, 4),
      EntryVarInfo("args5", true, false, 5),
      EntryVarInfo("args6", true, false, 6),
      EntryVarInfo("args7", true, false, 7),
      EntryVarInfo("args8", true, false, 8),
      EntryVarInfo("args9", true, false, 9),
      EntryVarInfo("timestamp", false, false, 0)
    ]
  }

  /** The registry has one row per enum value, the elapsed fields are exactly 3..6, args<N> sits at ARGS0 + N. */
  lemma RegistryShape()
    ensures |Registry()| == ENTRYVAR_NUM
    ensures forall ev :: 0 <= ev < ENTRYVAR_NUM ==>
      (Registry()[ev].isElapsed <==> ENTRYVAR_ELAPSED_NS <= ev <= ENTRYVAR_ELAPSED_SEC)
    ensures forall ev :: 0 <= ev < ENTRYVAR_NUM ==>
      (Registry()[ev].isArgs <==> ENTRYVAR_ARGS0 <= ev <= ENTRYVAR_ARGS9)
    ensures forall ev :: ENTRYVAR_ARGS0 <= ev <= ENTRYVAR_ARGS9 ==> Registry()[ev].num == ev - ENTRYVAR_ARGS0
    ensures Registry()[ENTRYVAR_TIMESTAMP].name == "timestamp"
    ensures !Registry()[ENTRYVAR_TIMESTAMP].isElapsed && !Registry()[ENTRYVAR_TIMESTAMP].isArgs
  {
  }

  /**
   * The first registry row at or after `ev` whose name is `name`, or
   * ENTRYVAR_NUM when there is none (the lookup loop of xd_do_entryvar).
   */
  function FindEntryVar(name: string, ev: nat): (r: nat)
    requires ev <= ENTRYVAR_NUM
    ensures ev <= r <= ENTRYVAR_NUM
    ensures r < ENTRYVAR_NUM ==> Registry()[r].name == name
    ensures forall k :: ev <= k < r ==> Registry()[k].name != name
    decreases ENTRYVAR_NUM - ev
  {
    if ev == ENTRYVAR_NUM then ENTRYVAR_NUM
    else if Registry()[ev].name == name then ev
    else FindEntryVar(name, ev + 1)
  }

  // ---------------------------------------------------------------- numbers

  function DigitChar(d: nat): (c: char)
    requires d < 10
  {
    (('0' as int) + d) as char
  }

  /** The decimal text of n, as printed by "%d" / "%u". */
  function NatToString(n: nat): (s: string)
    ensures |s| >= 1
    ensures forall c :: c in s ==> '0' <= c <= '9'
    decreases n
  {
    if n < 10 then [DigitChar(n)] else NatToString(n / 10) + [DigitChar(n % 10)]
  }

  /** Reading a string of decimal digits. */
  function DigitsValue(s: string): nat
  {
    if s == [] then 0
    else
      var c := s[|s| - 1];
      var d := if '0' <= c <= '9' then (c as int) - ('0' as int) else 0;
      DigitsValue(s[..|s| - 1]) * 10 + d
  }

  lemma {:induction false} NatToStringRoundTrip(n: nat)
    ensures DigitsValue(NatToString(n)) == n
    decreases n
  {
    var s := NatToString(n);
    if n < 10 {
      assert s[..|s| - 1] == [];
    } else {
      NatToStringRoundTrip(n / 10);
      assert s[..|s| - 1] == NatToString(n / 10);
    }
  }

  /** Distinct numbers print as distinct strings. */
  lemma NatToStringInjective(a: nat, b: nat)
    ensures NatToString(a) == NatToString(b) ==> a == b
  {
    NatToStringRoundTrip(a);
    NatToStringRoundTrip(b);
  }

  // ------------------------------------------------------------------ names

  const ERRORSTR: string := "_XD_error"
  const CONDSTR: string := "_XD_condition_"
  const CALLERSSTR: string := "_XD_callers_"
  const ENTRYSTR: string := "_XD_entry_"

  function ConditionName(id: nat): string { CONDSTR + NatToString(id) }

  function CallersName(id: nat): string { CALLERSSTR + NatToString(id) }

  /** _XD_entry_<field>_<group>. */
  function EntryVarName(ev: nat, group: nat): string
    requires ev < ENTRYVAR_NUM
  {
    ENTRYSTR + Registry()[ev].name + "_" + NatToString(group)
  }

  /** Recovers the registry index from a registry name (only by its length and a few characters). */
  function RegistryIndexOf(s: string): int
  {
    if |s| == 4 then 7 + ((s[3] as int) - ('0' as int))
    else if |s| == 5 && s[0] == 'a' then 17 + ((s[4] as int) - ('0' as int))
    else if |s| == 5 then 2
    else if |s| == 9 then 27
    else if |s| == 10 && s[0] == 'v' then 0
    else if |s| == 10 && s[8] == 'n' then 3
    else if |s| == 10 && s[8] == 'u' then 4
    else if |s| == 10 then 5
    else if |s| == 11 then 6
    else 1
  }

  /** The registry names are pairwise distinct. */
  lemma RegistryNamesDistinct(i: nat, j: nat)
    requires i < ENTRYVAR_NUM && j < ENTRYVAR_NUM && i != j
    ensures Registry()[i].name != Registry()[j].name
  {
    RegistryIndexed();
  }

  /** Every registry name leads back to its own row. */
  lemma RegistryIndexed()
    ensures forall a :: 0 <= a < ENTRYVAR_NUM ==> RegistryIndexOf(Registry()[a].name) == a
  {
    forall a | 0 <= a < ENTRYVAR_NUM
      ensures RegistryIndexOf(Registry()[a].name) == a
    {
    }
  }

  /** The lookup loop of xd_do_entryvar finds each registry row by its own name. */
  lemma FindRegistryName(ev: nat)
    requires ev < ENTRYVAR_NUM
    ensures FindEntryVar(Registry()[ev].name, 0) == ev
  {
    var r := FindEntryVar(Registry()[ev].name, 0);
    if r < ev {
      RegistryNamesDistinct(r, ev);
    }
  }

  /** "args" names no registry row: entry->args is only ever indexed. */
  lemma ArgsNotAField()
    ensures FindEntryVar("args", 0) == ENTRYVAR_NUM
  {
    RegistryIndexed();
    assert RegistryIndexOf("args") >= ENTRYVAR_NUM;
  }

  /** Position of the last occurrence of c in s, or -1. */
  function LastIndexOf(s: string, c: char): (r: int)
    ensures -1 <= r < |s|
  {
    if s == [] then -1
    else if s[|s| - 1] == c then |s| - 1
    else LastIndexOf(s[..|s| - 1], c)
  }

  lemma {:induction false} LastIndexOfJoin(x: string, c: char, d: string)
    requires c !in d
    ensures LastIndexOf(x + [c] + d, c) == |x|
  {
    var s := x + [c] + d;
    if d == [] {
    } else {
      var d' := d[..|d| - 1];
      assert s[..|s| - 1] == x + [c] + d';
      assert c !in d' by {
        forall i | 0 <= i < |d'| ensures d'[i] != c { assert d'[i] == d[i]; }
      }
      LastIndexOfJoin(x, c, d');
    }
  }

  /** x_d == y_e with no underscore in d and e forces x == y and d == e. */
  lemma SplitAtLastUnderscore(x: string, d: string, y: string, e: string)
    requires '_' !in d && '_' !in e
    requires x + "_" + d == y + "_" + e
    ensures x == y && d == e
  {
    var s := x + "_" + d;
    LastIndexOfJoin(x, '_', d);
    LastIndexOfJoin(y, '_', e);
    assert |x| == |y|;
    assert d == s[|x| + 1..] == e;
    assert x == s[..|x|] == y;
  }

  /** Entry-capture names determine their field and their capture group. */
  lemma EntryVarNameInjective(ev1: nat, g1: nat, ev2: nat, g2: nat)
    requires ev1 < ENTRYVAR_NUM && ev2 < ENTRYVAR_NUM
    requires EntryVarName(ev1, g1) == EntryVarName(ev2, g2)
    ensures ev1 == ev2 && g1 == g2
  {
    var a := ENTRYSTR + Registry()[ev1].name;
    var b := ENTRYSTR + Registry()[ev2].name;
    assert '_' !in NatToString(g1) && '_' !in NatToString(g2);
    SplitAtLastUnderscore(a, NatToString(g1), b, NatToString(g2));
    assert Registry()[ev1].name == a[|ENTRYSTR|..] == b[|ENTRYSTR|..] == Registry()[ev2].name;
    if ev1 != ev2 {
      RegistryNamesDistinct(ev1, ev2);
    }
    NatToStringInjective(g1, g2);
  }

  /** Condition and counter names determine their number. */
  lemma NumberedNamesInjective(a: nat, b: nat)
    ensures ConditionName(a) == ConditionName(b) ==> a == b
    ensures CallersName(a) == CallersName(b) ==> a == b
  {
    if ConditionName(a) == ConditionName(b) {
      assert NatToString(a) == ConditionName(a)[|CONDSTR|..] == ConditionName(b)[|CONDSTR|..] == NatToString(b);
      NatToStringInjective(a, b);
    }
    if CallersName(a) == CallersName(b) {
      assert NatToString(a) == CallersName(a)[|CALLERSSTR|..] == CallersName(b)[|CALLERSSTR|..] == NatToString(b);
      NatToStringInjective(a, b);
    }
  }

  /** The four roles never share a name. */
  lemma RolesDisjoint(a: nat, b: nat, ev: nat, g: nat)
    requires ev < ENTRYVAR_NUM
    ensures ConditionName(a) != CallersName(b)
    ensures ConditionName(a) != EntryVarName(ev, g) && CallersName(b) != EntryVarName(ev, g)
    ensures ERRORSTR != ConditionName(a) && ERRORSTR != CallersName(b) && ERRORSTR != EntryVarName(ev, g)
  {
    assert ConditionName(a)[5] == 'o' && CallersName(b)[5] == 'a' && EntryVarName(ev, g)[5] == 'n';
    assert ERRORSTR[5] == 'r';
  }

  // ------------------------------------------------------------------ nodes

  /** self->_XD_error (xd_new_error_var). */
  function ErrorVar(): Node
  {
    Op2(Ptr, Ident("self"), Ident(ERRORSTR))
  }

  /** this->_XD_condition_<id>. */
  function CondRef(id: nat): Node
  {
    Op2(Ptr, Ident("this"), Ident(ConditionName(id)))
  }

  /** xd_new_condition_var: no node at all for condition 0. */
  function ConditionVar(id: nat): (r: Option<Node>)
    ensures r.None? <==> id == 0
    ensures r.Some? ==> r.value.Op2? && r.value.left == Ident("this")
  {
    if id == 0 then None else Some(CondRef(id))
  }

  /** self->_XD_callers_<id> (xd_new_callers_var). */
  function CallersVar(id: nat): Node
  {
    Op2(Ptr, Ident("self"), Ident(CallersName(id)))
  }

  /** self->_XD_entry_<field>_<group>[stackdepth] (xd_new_entry_var). */
  function EntryVar(ev: nat, group: nat): Node
    requires ev < ENTRYVAR_NUM
  {
    Index(Op2(Ptr, Ident("self"), Ident(EntryVarName(ev, group))), Ident("stackdepth"), [])
  }

  /** Distinct (field, group) pairs give distinct capture slots; distinct ids give distinct condition and counter variables. */
  lemma VariablesDistinct(ev1: nat, g1: nat, ev2: nat, g2: nat, a: nat, b: nat)
    requires ev1 < ENTRYVAR_NUM && ev2 < ENTRYVAR_NUM
    ensures EntryVar(ev1, g1) == EntryVar(ev2, g2) ==> ev1 == ev2 && g1 == g2
    ensures CondRef(a) == CondRef(b) ==> a == b
    ensures CallersVar(a) == CallersVar(b) ==> a == b
  {
    if EntryVar(ev1, g1) == EntryVar(ev2, g2) {
      EntryVarNameInjective(ev1, g1, ev2, g2);
    }
    NumberedNamesInjective(a, b);
  }
}
