/** A choice-free configuration and the value every symbol has by definition, with nothing cached
    (sym_calc_visibility and sym_calc_value in scripts/config/symbol.c). */
module Configuration {
  import opened Exprs

  /** The properties of a symbol that its value depends on, each with its condition. */
  datatype Prop =
    | Prompt(visible: Option<Expr>)
    | Default(visible: Option<Expr>, expr: Expr)
    | Range(visible: Option<Expr>, lo: Symbol, hi: Symbol)
    | Entry(visible: Option<Expr>)  // a place where the symbol is defined; no value depends on it

  /** auto: the symbol takes its value from the environment and is never written. */
  datatype Definition = Definition(props: seq<Prop>, dirDep: Option<Expr>, revDep: Option<Expr>, auto: bool)

  /** strtoll (text, base) and sprintf (hexadecimal or not, number) of the C library are parameters. */
  datatype Kconfig = Kconfig(
    defs: map<Symbol, Definition>,
    modules: Symbol,
    strtoll: (string, int) -> int,
    format: (bool, int) -> string)
  {
    function Def(s: Symbol): Definition {
      if s in defs then defs[s] else Definition([], None, None, false)
    }
  }

  /** The user values; a symbol has one exactly when it is a key. */
  type UserValues = map<Symbol, Val>

  /** The user value of s is the same in both. */
  predicate SameAt(u: UserValues, v: UserValues, s: Symbol) { (s in u <==> s in v) && (s in u ==> u[s] == v[s]) }

  /** The lines of a configuration file are about different symbols. */
  predicate DifferentSymbols(lines: seq<(Symbol, string)>) {
    forall i, j :: 0 <= i < j < |lines| ==> lines[i].0 != lines[j].0
  }

  predicate Typed(s: Symbol) { s.Type() != Unknown && s.Type() != Other }

  // ---------- one symbol, given the values of the symbols it uses ----------

  /** sym_get_type. */
  function EffectiveType(k: Kconfig, a: Assignment, s: Symbol): SymbolType {
    if s.Type() == TristateType && a.Tri(k.modules) == NO then Boolean else s.Type()
  }

  /** The most visible of the prompts. */
  function OrPrompts(a: Assignment, props: seq<Prop>): Tristate {
    if props == [] then NO
    else
      var last := props[|props| - 1];
      Max(OrPrompts(a, props[..|props| - 1]), if last.Prompt? then OptValue(a, last.visible) else NO)
  }

  function Visibility(k: Kconfig, a: Assignment, s: Symbol): Tristate {
    var tri := OrPrompts(a, k.Def(s).props);
    if tri == MOD && (s.Type() != TristateType || a.Tri(k.modules) == NO) then YES else tri
  }

  function DirectDependency(k: Kconfig, a: Assignment, s: Symbol): Tristate {
    var tri := OptValue(a, k.Def(s).dirDep);
    if tri == MOD then YES else tri
  }

  function ReverseDependency(k: Kconfig, a: Assignment, s: Symbol): Tristate {
    var rev := k.Def(s).revDep;
    var tri := if rev.None? then NO else Value(a, rev.value);
    if tri == MOD && EffectiveType(k, a, s) == Boolean then YES else tri
  }

  /** sym_get_default_prop: the first default whose condition is not n. */
  function FirstDefault(a: Assignment, props: seq<Prop>): (r: Option<Prop>)
    ensures r.Some? ==> r.value.Default? && r.value in props
  {
    if props == [] then None
    else if props[0].Default? && OptValue(a, props[0].visible) != NO then Some(props[0])
    else FirstDefault(a, props[1..])
  }

  /** sym_get_range_prop. */
  function FirstRange(a: Assignment, props: seq<Prop>): (r: Option<Prop>)
    ensures r.Some? ==> r.value.Range? && r.value in props
  {
    if props == [] then None
    else if props[0].Range? && OptValue(a, props[0].visible) != NO then Some(props[0])
    else FirstRange(a, props[1..])
  }

  function DefaultTri(k: Kconfig, a: Assignment, s: Symbol): Tristate {
    match FirstDefault(a, k.Def(s).props)
    case None => NO
    case Some(d) => Min(Value(a, d.expr), OptValue(a, d.visible))
  }

  /** A boolean symbol, or a tristate one without modules, takes y instead of m. */
  function Promote(k: Kconfig, a: Assignment, s: Symbol, v: Tristate): Tristate {
    if v == MOD && EffectiveType(k, a, s) == Boolean then YES else v
  }

  function TriValue(k: Kconfig, u: UserValues, a: Assignment, s: Symbol): Tristate {
    var vis := Visibility(k, a, s);
    var base := if vis != NO && s in u then Min(u[s].tri, vis) else DefaultTri(k, a, s);
    Promote(k, a, s, Max(base, ReverseDependency(k, a, s)))
  }

  /** The value of a boolean or tristate symbol without a user value. */
  function UnsetTri(k: Kconfig, a: Assignment, s: Symbol): Tristate {
    Promote(k, a, s, Max(DefaultTri(k, a, s), ReverseDependency(k, a, s)))
  }

  function Base(s: Symbol, base: int): int {
    if s.Type() == Int then 10 else if s.Type() == Hex then 16 else base
  }

  /** sym_validate_range: a number outside the first active range becomes a bound of it. */
  function Clamp(k: Kconfig, a: Assignment, s: Symbol, text: string): string {
    var range := FirstRange(a, k.Def(s).props);
    if (s.Type() != Int && s.Type() != Hex) || range.None? then text
    else
      var base := Base(s, 0);
      var val := k.strtoll(text, base);
      var lo := k.strtoll(a.val(range.value.lo).text, Base(range.value.lo, base));
      var hi := k.strtoll(a.val(range.value.hi).text, Base(range.value.hi, base));
      if val < lo then k.format(s.Type() == Hex, lo)
      else if val <= hi then text
      else k.format(s.Type() == Hex, hi)
  }

  /** The symbol a text default names. */
  function DefaultSymbol(k: Kconfig, a: Assignment, s: Symbol): Option<Symbol> {
    match FirstDefault(a, k.Def(s).props)
    case None => None
    case Some(d) => if d.expr.Sym? then Some(d.expr.s) else None
  }

  /** The text of the default of s. */
  function DefaultValue(k: Kconfig, a: Assignment, s: Symbol): string {
    match DefaultSymbol(k, a, s) case None => "" case Some(d) => a.val(d).text
  }

  function TextValue(k: Kconfig, u: UserValues, a: Assignment, s: Symbol): string {
    Clamp(k, a, s, if Visibility(k, a, s) != NO && s in u then u[s].text else DefaultValue(k, a, s))
  }

  /** SYMBOL_WRITE: the value belongs into the configuration file. */
  function Written(k: Kconfig, a: Assignment, s: Symbol): bool {
    && !k.Def(s).auto
    && (|| Visibility(k, a, s) != NO
        || if s.IsTri() then ReverseDependency(k, a, s) != NO || FirstDefault(a, k.Def(s).props).Some?
           else DefaultSymbol(k, a, s).Some?)
  }

  /** What sym_calc_value leaves in a symbol. */
  datatype Computed = Computed(val: Val, visible: Tristate, dir: Tristate, rev: Tristate, write: bool)

  function Untyped(s: Symbol): Val {
    Val(if s == SYM_YES then YES else if s == SYM_MOD then MOD else NO, s.name)
  }

  function Step(k: Kconfig, u: UserValues, a: Assignment, s: Symbol): Computed {
    if !Typed(s) then Computed(Untyped(s), NO, NO, NO, false)
    else
      Computed(
        if s.IsTri() then Val(TriValue(k, u, a, s), "n") else Val(NO, TextValue(k, u, a, s)),
        Visibility(k, a, s), DirectDependency(k, a, s), ReverseDependency(k, a, s), Written(k, a, s))
  }

  // ---------- acyclic configurations ----------

  /** expr_contains_symbol (scripts/config/expr.c). */
  predicate Mentions(e: Expr, t: Symbol) {
    match e
    case Sym(s) => s == t
    case Not(f) => Mentions(f, t)
    case Compare(_, l, r) => l == t || r == t
    case Bin(_, l, r) => Mentions(l, t) || Mentions(r, t)
  }

  predicate OptMentions(e: Option<Expr>, t: Symbol) { e.Some? && Mentions(e.value, t) }

  predicate PropMentions(p: Prop, t: Symbol) {
    (!p.Entry? && OptMentions(p.visible, t)) || (p.Default? && Mentions(p.expr, t)) || (p.Range? && (p.lo == t || p.hi == t))
  }

  /** t takes part in the value of s. */
  predicate Uses(k: Kconfig, s: Symbol, t: Symbol) {
    var d := k.Def(s);
    OptMentions(d.dirDep, t) || OptMentions(d.revDep, t) || exists i :: 0 <= i < |d.props| && PropMentions(d.props[i], t)
  }

  /** The use relation descends along rank, and MODULES, which every value may depend on, is a boolean
      symbol that uses no typed symbol (or it is the constant n, when none is declared). */
  ghost predicate Acyclic(k: Kconfig, rank: Symbol -> nat) {
    && (k.modules == SYM_NO || k.modules.Type() == Boolean)
    && (forall s: Symbol, t: Symbol :: Typed(s) && Uses(k, s, t) ==> rank(t) < rank(s))
    && (forall s: Symbol :: Typed(s) && s != k.modules ==> rank(k.modules) < rank(s))
  }

  // ---------- the uncached definition ----------

  /** The values of all symbols ranked below r. */
  ghost function Below(k: Kconfig, u: UserValues, rank: Symbol -> nat, r: nat): Assignment
    decreases r, 0
  {
    Assignment((t: Symbol) => if rank(t) < r then Calc(k, u, rank, t).val else Val(NO, ""), k.modules)
  }

  ghost function Calc(k: Kconfig, u: UserValues, rank: Symbol -> nat, s: Symbol): Computed
    decreases rank(s), 1
  {
    Step(k, u, Below(k, u, rank, rank(s)), s)
  }

  /** All computed values. */
  ghost function Solution(k: Kconfig, u: UserValues, rank: Symbol -> nat): Assignment {
    Assignment((t: Symbol) => Calc(k, u, rank, t).val, k.modules)
  }

  // ---------- a value depends only on lower ranks ----------

  ghost predicate SameBelow(rank: Symbol -> nat, r: nat, a: Assignment, b: Assignment) {
    a.modules == b.modules && forall t: Symbol :: rank(t) < r ==> a.val(t) == b.val(t)
  }

  /** Everything e mentions is ranked below r, and so is MODULES if its value can matter. */
  ghost predicate ExprBelow(k: Kconfig, rank: Symbol -> nat, r: nat, e: Expr) {
    && (forall t: Symbol :: Mentions(e, t) ==> rank(t) < r)
    && (rank(k.modules) < r || forall t: Symbol :: Mentions(e, t) ==> !t.IsTri())
  }

  lemma {:induction false} ValueLocal(k: Kconfig, rank: Symbol -> nat, r: nat, e: Expr, a: Assignment, b: Assignment)
    requires SameBelow(rank, r, a, b) && a.modules == k.modules && ExprBelow(k, rank, r, e)
    ensures Value(a, e) == Value(b, e)
  {
    match e
    case Sym(s) => assert Mentions(e, s);
    case Not(f) =>
      assert forall t :: Mentions(f, t) ==> Mentions(e, t);
      ValueLocal(k, rank, r, f, a, b);
    case Compare(_, l, m) =>
      assert Mentions(e, l) && Mentions(e, m);
      assert a.StringValue(l) == b.StringValue(l) && a.StringValue(m) == b.StringValue(m);
    case Bin(_, l, m) =>
      assert forall t :: Mentions(l, t) || Mentions(m, t) ==> Mentions(e, t);
      ValueLocal(k, rank, r, l, a, b);
      ValueLocal(k, rank, r, m, a, b);
  }

  ghost predicate OptBelow(k: Kconfig, rank: Symbol -> nat, r: nat, e: Option<Expr>) {
    e.Some? ==> ExprBelow(k, rank, r, e.value)
  }

  ghost predicate PropBelow(k: Kconfig, rank: Symbol -> nat, r: nat, p: Prop) {
    && (p.Entry? || OptBelow(k, rank, r, p.visible))
    && (p.Default? ==> ExprBelow(k, rank, r, p.expr))
    && (p.Range? ==> rank(p.lo) < r && rank(p.hi) < r)
  }

  ghost predicate PropsBelow(k: Kconfig, rank: Symbol -> nat, r: nat, props: seq<Prop>) {
    forall i :: 0 <= i < |props| ==> PropBelow(k, rank, r, props[i])
  }

  /** Everything the value of a typed symbol s is computed from is ranked below r. */
  ghost predicate DefBelow(k: Kconfig, rank: Symbol -> nat, r: nat, s: Symbol) {
    && (s.Type() == TristateType ==> rank(k.modules) < r)
    && OptBelow(k, rank, r, k.Def(s).dirDep) && OptBelow(k, rank, r, k.Def(s).revDep)
    && PropsBelow(k, rank, r, k.Def(s).props)
  }

  lemma AcyclicBelow(k: Kconfig, rank: Symbol -> nat, s: Symbol)
    requires Acyclic(k, rank) && Typed(s)
    ensures DefBelow(k, rank, rank(s), s)
    ensures s != k.modules ==> rank(k.modules) < rank(s)
  {
    var d := k.Def(s);
    var r := rank(s);
    assert forall t: Symbol :: OptMentions(d.dirDep, t) || OptMentions(d.revDep, t) ==> Uses(k, s, t);
    forall e: Expr | forall t: Symbol :: Mentions(e, t) ==> Uses(k, s, t)
      ensures ExprBelow(k, rank, r, e)
    {
      if s == k.modules {
        forall t: Symbol | Mentions(e, t) ensures !t.IsTri() {
          assert Uses(k, s, t);
        }
      }
    }
    forall i | 0 <= i < |d.props|
      ensures PropBelow(k, rank, r, d.props[i])
    {
      assert forall t: Symbol :: PropMentions(d.props[i], t) ==> Uses(k, s, t);
    }
  }

  lemma OptLocal(k: Kconfig, rank: Symbol -> nat, r: nat, e: Option<Expr>, a: Assignment, b: Assignment)
    requires SameBelow(rank, r, a, b) && a.modules == k.modules && OptBelow(k, rank, r, e)
    ensures OptValue(a, e) == OptValue(b, e)
  {
    if e.Some? { ValueLocal(k, rank, r, e.value, a, b); }
  }

  lemma {:induction false} PropsLocal(k: Kconfig, rank: Symbol -> nat, r: nat, props: seq<Prop>, a: Assignment, b: Assignment)
    requires SameBelow(rank, r, a, b) && a.modules == k.modules && PropsBelow(k, rank, r, props)
    ensures FirstDefault(a, props) == FirstDefault(b, props)
    ensures FirstRange(a, props) == FirstRange(b, props)
    ensures OrPrompts(a, props) == OrPrompts(b, props)
    decreases |props|
  {
    if props != [] {
      var front := props[..|props| - 1];
      assert PropBelow(k, rank, r, props[0]) && PropBelow(k, rank, r, props[|props| - 1]);
      if !props[0].Entry? { OptLocal(k, rank, r, props[0].visible, a, b); }
      if !props[|props| - 1].Entry? { OptLocal(k, rank, r, props[|props| - 1].visible, a, b); }
      PropsLocal(k, rank, r, props[1..], a, b);
      PropsLocal(k, rank, r, front, a, b);
    }
  }

  lemma VisibilityLocal(k: Kconfig, rank: Symbol -> nat, r: nat, s: Symbol, a: Assignment, b: Assignment)
    requires DefBelow(k, rank, r, s) && SameBelow(rank, r, a, b) && a.modules == k.modules
    ensures EffectiveType(k, a, s) == EffectiveType(k, b, s)
    ensures Visibility(k, a, s) == Visibility(k, b, s)
    ensures DirectDependency(k, a, s) == DirectDependency(k, b, s)
    ensures ReverseDependency(k, a, s) == ReverseDependency(k, b, s)
  {
    OptLocal(k, rank, r, k.Def(s).dirDep, a, b);
    OptLocal(k, rank, r, k.Def(s).revDep, a, b);
    PropsLocal(k, rank, r, k.Def(s).props, a, b);
  }

  lemma DefaultLocal(k: Kconfig, rank: Symbol -> nat, r: nat, s: Symbol, a: Assignment, b: Assignment)
    requires DefBelow(k, rank, r, s) && SameBelow(rank, r, a, b) && a.modules == k.modules
    ensures FirstDefault(a, k.Def(s).props) == FirstDefault(b, k.Def(s).props)
    ensures DefaultTri(k, a, s) == DefaultTri(k, b, s)
    ensures DefaultSymbol(k, a, s) == DefaultSymbol(k, b, s)
    ensures DefaultSymbol(k, a, s).Some? ==> rank(DefaultSymbol(k, a, s).value) < r
  {
    var props := k.Def(s).props;
    PropsLocal(k, rank, r, props, a, b);
    var def := FirstDefault(a, props);
    if def.Some? {
      assert PropBelow(k, rank, r, def.value);
      ValueLocal(k, rank, r, def.value.expr, a, b);
      OptLocal(k, rank, r, def.value.visible, a, b);
      if def.value.expr.Sym? { assert Mentions(def.value.expr, def.value.expr.s); }
    }
  }

  lemma ClampLocal(k: Kconfig, rank: Symbol -> nat, r: nat, s: Symbol, text: string, a: Assignment, b: Assignment)
    requires DefBelow(k, rank, r, s) && SameBelow(rank, r, a, b) && a.modules == k.modules
    ensures Clamp(k, a, s, text) == Clamp(k, b, s, text)
  {
    PropsLocal(k, rank, r, k.Def(s).props, a, b);
    var range := FirstRange(a, k.Def(s).props);
    if range.Some? { assert PropBelow(k, rank, r, range.value); }
  }

  /** One step reads only values below: whatever agrees there gives the same result. */
  lemma StepLocal(k: Kconfig, u: UserValues, rank: Symbol -> nat, r: nat, s: Symbol, a: Assignment, b: Assignment)
    requires Typed(s) && DefBelow(k, rank, r, s)
    requires SameBelow(rank, r, a, b) && a.modules == k.modules
    ensures Step(k, u, a, s) == Step(k, u, b, s)
  {
    VisibilityLocal(k, rank, r, s, a, b);
    DefaultLocal(k, rank, r, s, a, b);
    forall text ensures Clamp(k, a, s, text) == Clamp(k, b, s, text) {
      ClampLocal(k, rank, r, s, text, a, b);
    }
  }

  /** The definition satisfies its own equation: every value is one step from all the others. */
  lemma CalcIsSolution(k: Kconfig, u: UserValues, rank: Symbol -> nat, s: Symbol)
    requires Acyclic(k, rank)
    ensures Calc(k, u, rank, s) == Step(k, u, Solution(k, u, rank), s)
  {
    if Typed(s) {
      AcyclicBelow(k, rank, s);
      StepLocal(k, u, rank, rank(s), s, Below(k, u, rank, rank(s)), Solution(k, u, rank));
    }
  }

  /** It is the only assignment that does, so the values do not depend on the order chosen. */
  lemma {:induction false} SolutionUnique(k: Kconfig, u: UserValues, rank: Symbol -> nat, a: Assignment, s: Symbol)
    requires Acyclic(k, rank) && a.modules == k.modules
    requires forall t: Symbol :: a.val(t) == Step(k, u, a, t).val
    ensures a.val(s) == Calc(k, u, rank, s).val
    decreases rank(s)
  {
    if Typed(s) {
      AcyclicBelow(k, rank, s);
      forall t: Symbol | rank(t) < rank(s) ensures a.val(t) == Calc(k, u, rank, t).val {
        SolutionUnique(k, u, rank, a, t);
      }
      StepLocal(k, u, rank, rank(s), s, a, Below(k, u, rank, rank(s)));
    }
  }

  /** Every computed configuration is a well-formed assignment, so all the simplifications apply to it. */
  lemma ComputedIsWellFormed(k: Kconfig, u: UserValues, rank: Symbol -> nat)
    requires Acyclic(k, rank)
    ensures Solution(k, u, rank).WellFormed()
  {
    var a := Solution(k, u, rank);
    forall s: Symbol ensures a.val(s) == Step(k, u, a, s).val { CalcIsSolution(k, u, rank, s); }
    assert a.val(SYM_NO) == Untyped(SYM_NO) && a.val(SYM_MOD) == Untyped(SYM_MOD) && a.val(SYM_YES) == Untyped(SYM_YES);
    forall s: Symbol | s.Config? && (s.Type() == Boolean || a.Tri(k.modules) == NO)
      ensures a.Tri(s) != MOD
    {
      assert a.val(s) == Step(k, u, a, s).val;
    }
    forall n: string ensures a.val(Const(n)).text == n { assert a.val(Const(n)) == Step(k, u, a, Const(n)).val; }
  }
}
