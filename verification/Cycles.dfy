/** The search for recursive dependencies (sym_check_deps and its helpers in scripts/config/symbol.c, run over
    all symbols by conf_parse in scripts/config/zconf.y), for configurations without choices. */
module Cycles {
  import opened Exprs
  import opened Configuration
  import opened Graphs

  // ---------- the graph that is searched ----------

  function Mentioned(e: Expr): set<Symbol> {
    match e
    case Sym(s) => {s}
    case Not(f) => Mentioned(f)
    case Compare(_, l, r) => {l, r}
    case Bin(_, l, r) => Mentioned(l) + Mentioned(r)
  }

  function OptMentioned(e: Option<Expr>): set<Symbol> { if e.None? then {} else Mentioned(e.value) }

  /** The condition of a property, and the value of a default; the bounds of a range are not looked at. */
  function PropChecked(p: Prop): set<Symbol> {
    OptMentioned(p.visible) + if p.Default? then Mentioned(p.expr) else {}
  }

  function PropsChecked(props: seq<Prop>): set<Symbol> {
    if props == [] then {} else PropsChecked(props[..|props| - 1]) + PropChecked(props[|props| - 1])
  }

  /** The symbols that sym_check_sym_deps goes on to from s. */
  function Checked(k: Kconfig, s: Symbol): set<Symbol> {
    OptMentioned(k.Def(s).revDep) + PropsChecked(k.Def(s).props)
  }

  ghost function Searched(k: Kconfig): Graph { (s: Symbol) => Checked(k, s) }

  /** All symbols the search can meet. */
  function Universe(k: Kconfig): set<Symbol> {
    k.defs.Keys + set s, t | s in k.defs && t in Checked(k, s) :: t
  }

  /** t occurs where the search looks: in what selects s, in the condition of a property, or in the value of a default. */
  predicate Looked(k: Kconfig, s: Symbol, t: Symbol) {
    var d := k.Def(s);
    || OptMentions(d.revDep, t)
    || exists i :: 0 <= i < |d.props| && (OptMentions(d.props[i].visible, t) || (d.props[i].Default? && Mentions(d.props[i].expr, t)))
  }

  /** The search goes on exactly to these. */
  lemma CheckedExactly(k: Kconfig, s: Symbol, t: Symbol)
    ensures t in Checked(k, s) <==> Looked(k, s, t)
  {
    forall e: Expr ensures t in Mentioned(e) <==> Mentions(e, t) { MentionedIsMentions(e, t); }
    PropsCheckedExactly(k.Def(s).props, t);
  }

  lemma {:induction false} PropsCheckedExactly(props: seq<Prop>, t: Symbol)
    ensures t in PropsChecked(props)
            <==> exists i :: 0 <= i < |props| && (OptMentions(props[i].visible, t) || (props[i].Default? && Mentions(props[i].expr, t)))
    decreases |props|
  {
    if props != [] {
      var front, last := props[..|props| - 1], props[|props| - 1];
      PropsCheckedExactly(front, t);
      forall e: Expr ensures t in Mentioned(e) <==> Mentions(e, t) { MentionedIsMentions(e, t); }
      assert forall i :: 0 <= i < |front| ==> front[i] == props[i];
      assert t in PropChecked(last) <==> OptMentions(last.visible, t) || (last.Default? && Mentions(last.expr, t));
    }
  }

  // ---------- the graph that evaluation follows ----------

  lemma {:induction false} MentionedIsMentions(e: Expr, t: Symbol)
    ensures t in Mentioned(e) <==> Mentions(e, t)
  {
    match e
    case Sym(_) =>
    case Not(f) => MentionedIsMentions(f, t);
    case Compare(_, _, _) =>
    case Bin(_, l, r) =>
      MentionedIsMentions(l, t);
      MentionedIsMentions(r, t);
  }

  /** The symbols that a property brings into a value. */
  function PropUsed(p: Prop): set<Symbol> {
    match p
    case Prompt(visible) => OptMentioned(visible)
    case Default(visible, expr) => OptMentioned(visible) + Mentioned(expr)
    case Range(visible, lo, hi) => OptMentioned(visible) + {lo, hi}
    case Entry(_) => {}
  }

  function PropsUsed(props: seq<Prop>): set<Symbol> {
    if props == [] then {} else PropUsed(props[0]) + PropsUsed(props[1..])
  }

  function Used(k: Kconfig, s: Symbol): set<Symbol> {
    OptMentioned(k.Def(s).dirDep) + OptMentioned(k.Def(s).revDep) + PropsUsed(k.Def(s).props)
  }

  lemma PropUsedIsMentions(p: Prop, t: Symbol)
    ensures t in PropUsed(p) <==> PropMentions(p, t)
  {
    forall e: Expr ensures t in Mentioned(e) <==> Mentions(e, t) { MentionedIsMentions(e, t); }
  }

  lemma {:induction false} PropsUsedMentions(props: seq<Prop>, t: Symbol)
    ensures t in PropsUsed(props) <==> exists i :: 0 <= i < |props| && PropMentions(props[i], t)
    decreases |props|
  {
    if props != [] {
      PropUsedIsMentions(props[0], t);
      PropsUsedMentions(props[1..], t);
      forall i | 0 < i < |props| ensures props[i] == props[1..][i - 1] {}
    }
  }

  lemma UsedIsUses(k: Kconfig, s: Symbol, t: Symbol)
    ensures t in Used(k, s) <==> Uses(k, s, t)
  {
    forall e: Expr ensures t in Mentioned(e) <==> Mentions(e, t) { MentionedIsMentions(e, t); }
    PropsUsedMentions(k.Def(s).props, t);
  }

  /** What must be computed before a symbol: other than the search, with direct dependencies and bounds of ranges. */
  ghost function Needed(k: Kconfig): Graph { (s: Symbol) => if Typed(s) then TypedOf(Used(k, s)) else {} }

  /** Symbols without a type are constants to the evaluation. */
  function TypedOf(all: set<Symbol>): set<Symbol> { set t | t in all && Typed(t) }

  /** MODULES is a boolean symbol that uses no typed symbol, or the constant n. */
  ghost predicate ModulesFirst(k: Kconfig) {
    && (k.modules == SYM_NO || k.modules.Type() == Boolean)
    && (Typed(k.modules) ==> forall t: Symbol :: Uses(k, k.modules, t) ==> !Typed(t))
  }

  lemma {:induction false} RankDescends(k: Kconfig, rank: Symbol -> nat, p: seq<Symbol>)
    requires Acyclic(k, rank) && IsPath(Needed(k), p) && |p| >= 2
    ensures rank(p[|p| - 1]) < rank(p[0])
    decreases |p|
  {
    assert p[1] in Needed(k)(p[0]);
    UsedIsUses(k, p[0], p[1]);
    if |p| > 2 {
      PathSuffix(Needed(k), p, 1);
      RankDescends(k, rank, p[1..]);
    }
  }

  lemma RankedHasNoCycle(k: Kconfig, rank: Symbol -> nat)
    requires Acyclic(k, rank)
    ensures ModulesFirst(k) && !HasCycle(Needed(k))
  {
    forall p | IsCycle(Needed(k), p) ensures false { RankDescends(k, rank, p); }
    if Typed(k.modules) {
      forall t: Symbol | Uses(k, k.modules, t) ensures !Typed(t) { assert rank(t) < rank(k.modules); }
    }
  }

  /** An order of the defined symbols that evaluation can follow. */
  lemma NeededOrder(k: Kconfig) returns (done: seq<Symbol>)
    requires !HasCycle(Needed(k))
    ensures Ordered(Needed(k), done) && forall s :: s in k.defs ==> s in done
  {
    var all := k.defs.Keys + set s, t | s in k.defs && t in Used(k, s) :: t;
    forall s, t | s in all && t in Needed(k)(s) ensures t in all { assert s in k.defs; }
    done := AcyclicIsOrdered(Needed(k), all, []);
  }

  /** The place of a symbol in such an order ranks it for evaluation. */
  ghost function RankOf(k: Kconfig, done: seq<Symbol>): Symbol -> nat {
    (s: Symbol) =>
      if !Typed(s) then 0 else if s == k.modules then 1 else if s in done then 2 + FirstIndex(done, s) else 2
  }

  lemma OrderRanks(k: Kconfig, done: seq<Symbol>)
    requires ModulesFirst(k) && Ordered(Needed(k), done) && forall s :: s in k.defs ==> s in done
    ensures Acyclic(k, RankOf(k, done))
  {
    var rank := RankOf(k, done);
    forall s: Symbol, t: Symbol | Typed(s) && Uses(k, s, t)
      ensures rank(t) < rank(s)
    {
      UsedIsUses(k, s, t);
      if Typed(t) && t != k.modules {
        assert s in k.defs && t in Needed(k)(s);
        PathDescends(Needed(k), done, [s, t]);
      }
    }
  }

  /** A configuration can be evaluated exactly if MODULES comes first and no symbol needs itself, be it through a direct
      dependency or a bound of a range. */
  lemma RankedExactly(k: Kconfig)
    ensures (exists rank :: Acyclic(k, rank)) <==> ModulesFirst(k) && !HasCycle(Needed(k))
  {
    if rank :| Acyclic(k, rank) { RankedHasNoCycle(k, rank); }
    if ModulesFirst(k) && !HasCycle(Needed(k)) {
      var done := NeededOrder(k);
      OrderRanks(k, done);
    }
  }

  /** Evaluation needs nothing beyond the searched graph. */
  ghost predicate Covered(k: Kconfig) {
    ModulesFirst(k) && forall s: Symbol, t: Symbol :: Typed(s) && Typed(t) && Uses(k, s, t) ==> t in Checked(k, s)
  }

  /** Then the order found by a search without a report ranks the symbols for evaluation. */
  lemma OrderedCanBeEvaluated(k: Kconfig, done: seq<Symbol>)
    requires Ordered(Searched(k), done) && Covered(k) && forall s :: s in k.defs ==> s in done
    ensures Acyclic(k, RankOf(k, done))
  {
    forall i | 0 <= i < |done|
      ensures forall t :: t in Needed(k)(done[i]) ==> t in done[..i]
    {
      forall t | t in Needed(k)(done[i]) ensures t in done[..i] {
        UsedIsUses(k, done[i], t);
        assert t in Searched(k)(done[i]);
      }
    }
    OrderRanks(k, done);
  }

  /** By its definition, s is computed from nothing that the search does not look at, and the search looks at nothing else:
      no range has a symbol with a type for a bound, and what the direct dependency and the entries of s mention is mentioned
      by other properties too. */
  ghost predicate PlainlyDefined(k: Kconfig, s: Symbol) {
    var d := k.Def(s);
    && (forall i :: 0 <= i < |d.props| && d.props[i].Range? ==> !Typed(d.props[i].lo) && !Typed(d.props[i].hi))
    && (forall t: Symbol :: Typed(t) && OptMentions(d.dirDep, t) ==> Looked(k, s, t))
    && (forall t: Symbol :: Looked(k, s, t) ==> Uses(k, s, t))
  }

  ghost predicate Plainly(k: Kconfig) {
    ModulesFirst(k) && (forall s :: s in k.defs ==> Typed(s) && PlainlyDefined(k, s))
  }

  lemma UsesLooked(k: Kconfig, s: Symbol, t: Symbol)
    requires PlainlyDefined(k, s) && Typed(t)
    ensures Uses(k, s, t) <==> Looked(k, s, t)
  {
  }

  lemma PlainlyCovered(k: Kconfig)
    requires Plainly(k)
    ensures Covered(k)
  {
    forall s: Symbol, t: Symbol | Typed(s) && Typed(t) && Uses(k, s, t) ensures t in Checked(k, s) {
      assert s in k.defs;
      UsesLooked(k, s, t);
      CheckedExactly(k, s, t);
    }
  }

  /** In such a configuration the search is exact: it finds a cycle exactly if there is no order to evaluate in. */
  lemma PlainlySearched(k: Kconfig)
    requires Plainly(k)
    ensures HasCycle(Searched(k)) <==> !exists rank :: Acyclic(k, rank)
  {
    RankedExactly(k);
    forall p ensures IsCycle(Searched(k), p) <==> IsCycle(Needed(k), p) { SameCycles(k, p); }
  }

  lemma SameCycles(k: Kconfig, p: seq<Symbol>)
    requires Plainly(k)
    ensures IsCycle(Searched(k), p) <==> IsCycle(Needed(k), p)
  {
    if IsCycle(Searched(k), p) {
      forall i | 0 <= i < |p| - 1 ensures p[i + 1] in Needed(k)(p[i]) {
        assert p[i + 1] in Searched(k)(p[i]);
        LeadsOn(k, p, i + 1);
        SameEdge(k, p[i], p[i + 1]);
      }
    }
    if IsCycle(Needed(k), p) {
      forall i | 0 <= i < |p| - 1 ensures p[i + 1] in Searched(k)(p[i]) {
        assert p[i + 1] in Needed(k)(p[i]);
        SameEdge(k, p[i], p[i + 1]);
      }
    }
  }

  /** Every symbol on a cycle leads to another one, so it is defined. */
  lemma LeadsOn(k: Kconfig, p: seq<Symbol>, i: nat)
    requires IsCycle(Searched(k), p) && i < |p|
    ensures p[i] in k.defs
  {
    var j := if i < |p| - 1 then i else 0;
    assert p[j + 1] in Searched(k)(p[j]);
  }

  lemma NothingUsed(k: Kconfig, s: Symbol, t: Symbol)
    ensures s !in k.defs ==> t !in Used(k, s)
  {
  }

  lemma SameEdge(k: Kconfig, s: Symbol, t: Symbol)
    requires Plainly(k)
    ensures t in Needed(k)(s) ==> t in Searched(k)(s)
    ensures s in k.defs && t in k.defs && t in Searched(k)(s) ==> t in Needed(k)(s)
  {
    hide Checked, Used, Uses, Looked, PlainlyDefined;
    UsedIsUses(k, s, t);
    CheckedExactly(k, s, t);
    if s in k.defs && Typed(t) { UsesLooked(k, s, t); }
    NothingUsed(k, s, t);
  }

  // ---------- a recursion that is not found ----------

  const LOW := Config("LOW", Int)
  const HIGH := Config("HIGH", Int)

  /** Two numbers, each the upper bound of the other. */
  const BOUNDS := Kconfig(
    map[LOW := Definition([Prompt(None), Range(None, Const("0"), HIGH)], None, None, false),
        HIGH := Definition([Prompt(None), Range(None, Const("0"), LOW)], None, None, false)],
    SYM_NO, (t: string, b: int) => 0, (h: bool, n: int) => "")

  /** The search finds nothing, and yet the configuration cannot be evaluated in any order. */
  lemma RangesNotSearched()
    ensures !HasCycle(Searched(BOUNDS)) && !exists rank :: Acyclic(BOUNDS, rank)
  {
    forall s: Symbol ensures Searched(BOUNDS)(s) == {} { NothingSearched(s); }
    assert Ordered(Searched(BOUNDS), []);
    OrderedIsAcyclic(Searched(BOUNDS), []);
    assert BOUNDS.Def(LOW).props[1] == Range(None, Const("0"), HIGH) && BOUNDS.Def(HIGH).props[1] == Range(None, Const("0"), LOW);
    forall rank | Acyclic(BOUNDS, rank) ensures false {
      assert Uses(BOUNDS, LOW, HIGH) && Uses(BOUNDS, HIGH, LOW);
    }
  }

  /** A selects B and B selects A: that is found. */
  lemma SelectsSearched(k: Kconfig, a: Symbol, b: Symbol)
    requires OptMentions(k.Def(a).revDep, b) && OptMentions(k.Def(b).revDep, a)
    ensures HasCycle(Searched(k))
  {
    CheckedExactly(k, a, b);
    CheckedExactly(k, b, a);
    assert IsCycle(Searched(k), [a, b, a]);
  }

  lemma NothingSearched(s: Symbol)
    ensures Checked(BOUNDS, s) == {}
  {
    var props := BOUNDS.Def(s).props;
    if props != [] {
      assert props[..2] == props && props[..1][..0] == [] && props[..2][..1] == props[..1];
      assert PropsChecked(props[..1]) == {} && PropsChecked(props[..2]) == {};
    }
  }

  // ---------- the search ----------

  class Checker {
    const k: Kconfig
    var check: set<Symbol>      // SYMBOL_CHECK
    var checked: set<Symbol>    // SYMBOL_CHECKED
    var stack: seq<Symbol>      // the chain of dep_stack entries ending in check_top
    var reports: nat            // calls of sym_check_print_recursive

    ghost const all: set<Symbol>
    ghost var done: seq<Symbol> // the symbols in the order in which their search was finished

    /** extra: flagged symbols that have not been pushed yet. */
    ghost predicate ValidWith(extra: set<Symbol>)
      reads this
    {
      && (forall s :: s in check <==> s in stack || s in extra)
      && (forall i, j :: 0 <= i < j < |stack| ==> stack[i] != stack[j])
      && IsPath(Searched(k), stack)
      && (forall s :: s in checked <==> s in check || s in done)
      && (forall s :: s in check ==> s !in done)
      && (reports > 0 ==> HasCycle(Searched(k)))
      && (reports == 0 ==> Ordered(Searched(k), done))
      && checked <= all && Closed(Searched(k), all)
    }

    ghost predicate Valid()
      reads this
    {
      ValidWith({})
    }

    /** s continues the path on the stack. */
    ghost predicate Next(s: Symbol)
      reads this
    {
      s in all && (stack != [] ==> s in Checked(k, stack[|stack| - 1]))
    }

    constructor (k: Kconfig)
      ensures Valid() && this.k == k && check == checked == {} && stack == [] && reports == 0 && all == Universe(k)
    {
      this.k, check, checked, stack, reports, done := k, {}, {}, [], 0, [];
      all := Universe(k);
    }

    /** What every part of the search keeps; finished symbols are only added. */
    twostate predicate Continues()
      reads this
    {
      && stack == old(stack) && check == old(check) && old(checked) <= checked
      && (forall s :: s in old(done) ==> s in done) && old(reports) <= reports
    }

    /** sym_check_deps: returns the head of a cycle that is still on the stack, if one was found. */
    method CheckDeps(s: Symbol) returns (r: Option<Symbol>)
      requires Valid() && Next(s)
      modifies this
      ensures Valid() && Continues()
      ensures r.Some? ==> r.value in stack && reports > 0
      ensures reports == 0 ==> s in done
      ensures s in checked
      decreases all - checked, 0
    {
      if s in check {
        var _ := PrintRecursive(s);
        return Some(s);
      }
      if s in checked { return None; }
      ghost var flagged := check;
      check, checked := check + {s}, checked + {s};
      r := CheckSymDeps(s);
      check := check - {s};
      assert check == flagged;
      if reports == 0 { OrderedSnoc(Searched(k), done, s); }
      done := done + [s];
      if r == Some(s) { r := None; }
    }

    /** sym_check_sym_deps */
    method CheckSymDeps(s: Symbol) returns (r: Option<Symbol>)
      requires ValidWith({s}) && Next(s) && s !in stack && s in check
      modifies this
      ensures ValidWith({s}) && Continues() && s !in stack
      ensures r.Some? ==> (r.value in stack || r.value == s) && reports > 0
      ensures reports == 0 ==> forall t :: t in Checked(k, s) ==> t in done
      decreases all - checked, 4
    {
      Push(s);
      r := CheckOpt(k.Def(s).revDep, s);
      if r.None? { r := CheckProps(s); }
      Pop(old(stack), s);
    }

    method Push(s: Symbol)
      requires ValidWith({s}) && Next(s) && s !in stack && s in check
      modifies this`stack
      ensures Valid() && stack == old(stack) + [s]
    {
      hide IsPath, Ordered, Closed, Checked;
      PathSnoc(Searched(k), stack, s);
      stack := stack + [s];
    }

    method Pop(ghost below: seq<Symbol>, s: Symbol)
      requires Valid() && stack == below + [s]
      modifies this`stack
      ensures ValidWith({s}) && stack == below && s !in stack
    {
      assert forall i :: 0 <= i < |below| ==> stack[i] == below[i] && stack[i] != stack[|below|];
      stack := stack[..|stack| - 1];
      assert stack == below;
    }

    /** The properties of s, in order, up to the first that leads into a cycle. */
    method CheckProps(s: Symbol) returns (r: Option<Symbol>)
      requires Valid() && stack != [] && stack[|stack| - 1] == s
      modifies this
      ensures Valid() && Continues()
      ensures r.Some? ==> r.value in stack && reports > 0
      ensures reports == 0 ==> forall t :: t in PropsChecked(k.Def(s).props) ==> t in done
      decreases all - checked, 3
    {
      hide ValidWith, Checked, Mentioned;
      var props := k.Def(s).props;
      r := None;
      for i := 0 to |props|
        invariant Valid() && Continues() && r.None?
        invariant reports == 0 ==> forall t :: t in PropsChecked(props[..i]) ==> t in done
      {
        PropInChecked(k, s, i);
        assert props[..i + 1][..i] == props[..i];
        r := CheckOpt(props[i].visible, s);
        if r.Some? { return; }
        if props[i].Default? {
          r := CheckExprDeps(props[i].expr, s);
          if r.Some? { return; }
        }
      }
      assert props[..|props|] == props;
    }

    static lemma PropInProps(props: seq<Prop>, i: nat)
      requires i < |props|
      ensures PropChecked(props[i]) <= PropsChecked(props)
      decreases |props|
    {
      if i < |props| - 1 { PropInProps(props[..|props| - 1], i); }
    }

    static lemma PropInChecked(k: Kconfig, s: Symbol, i: nat)
      requires i < |k.Def(s).props|
      ensures var p := k.Def(s).props[i];
        OptMentioned(p.visible) <= Checked(k, s) && (p.Default? ==> Mentioned(p.expr) <= Checked(k, s))
    {
      PropInProps(k.Def(s).props, i);
    }

    /** sym_check_expr_deps, for an expression of the symbol s on top of the stack. */
    method CheckExprDeps(e: Expr, ghost s: Symbol) returns (r: Option<Symbol>)
      requires Valid() && stack != [] && stack[|stack| - 1] == s && Mentioned(e) <= Checked(k, s)
      modifies this
      ensures Valid() && Continues()
      ensures r.Some? ==> r.value in stack && reports > 0
      ensures reports == 0 ==> forall t :: t in Mentioned(e) ==> t in done
      decreases all - checked, 1, e
    {
      match e {
        case Bin(_, l, m) =>
          r := CheckExprDeps(l, s);
          if r.None? { r := CheckExprDeps(m, s); }
        case Not(f) =>
          r := CheckExprDeps(f, s);
        case Compare(_, l, m) =>
          assert l in Searched(k)(s) && m in Searched(k)(s);
          r := CheckDeps(l);
          if r.None? { r := CheckDeps(m); }
        case Sym(t) =>
          assert t in Searched(k)(s);
          r := CheckDeps(t);
      }
    }

    method CheckOpt(e: Option<Expr>, ghost s: Symbol) returns (r: Option<Symbol>)
      requires Valid() && stack != [] && stack[|stack| - 1] == s && OptMentioned(e) <= Checked(k, s)
      modifies this
      ensures Valid() && Continues()
      ensures r.Some? ==> r.value in stack && reports > 0
      ensures reports == 0 ==> forall t :: t in OptMentioned(e) ==> t in done
      decreases all - checked, 2
    {
      r := None;
      if e.Some? { r := CheckExprDeps(e.value, s); }
    }

    /** sym_check_print_recursive: walks down from the top of the stack to the entry of s, which is always
        there, and reports the chain from it: a cycle. */
    method PrintRecursive(s: Symbol) returns (chain: seq<Symbol>)
      requires Valid() && Next(s) && s in stack
      modifies this`reports
      ensures Valid() && reports == old(reports) + 1
      ensures IsCycle(Searched(k), chain + [s])
    {
      hide IsPath, Ordered, Closed, Checked;
      var i := |stack| - 1;
      while stack[i] != s
        invariant 0 <= i < |stack| && s !in stack[i + 1..]
        decreases i
      {
        assert stack == stack[..i] + [stack[i]] + stack[i + 1..];
        i := i - 1;
      }
      chain := stack[i..];
      PathSuffix(Searched(k), stack, i);
      PathSnoc(Searched(k), chain, s);
      assert IsCycle(Searched(k), chain + [s]);
      reports := reports + 1;
    }

    /** The loop over all symbols in conf_parse.  A recursion is reported exactly when the graph has a cycle.  No
        call returns a symbol at the top level, so the error count of the program never rises here: a
        cycle is only ever visible through its report. */
    method CheckAll(order: seq<Symbol>) returns (errors: int)
      requires Valid() && check == checked == {} && stack == [] && reports == 0
      requires all == Universe(k) && forall s :: s in order <==> s in all
      modifies this
      ensures Valid() && check == {} && stack == [] && checked == all
      ensures reports > 0 <==> HasCycle(Searched(k))
      ensures errors == 0
      ensures reports == 0 && Covered(k) ==> exists rank :: Acyclic(k, rank)
      ensures Plainly(k) ==> (reports > 0 <==> !exists rank :: Acyclic(k, rank))
    {
      errors := 0;
      for i := 0 to |order|
        invariant Valid() && check == {} && stack == [] && errors == 0
        invariant forall j :: 0 <= j < i ==> order[j] in checked && (reports == 0 ==> order[j] in done)
      {
        var r := CheckDeps(order[i]);
        if r.Some? { errors := errors + 1; }
      }
      if reports == 0 {
        assert forall s :: Searched(k)(s) != {} ==> s in k.defs;
        OrderedIsAcyclic(Searched(k), done);
        if Covered(k) { OrderedCanBeEvaluated(k, done); }
      }
      if Plainly(k) { PlainlySearched(k); }
    }
  }
}
