/** Tristate arithmetic, symbols, dependency expressions and their meaning
    (scripts/config/expr.h, and expr_calc_value in scripts/config/expr.c). */
module Exprs {

  datatype Option<+T> = None | Some(value: T)

  // ---------- tristate ----------

  type Tristate = t: int | 0 <= t <= 2
  const NO: Tristate := 0
  const MOD: Tristate := 1
  const YES: Tristate := 2

  function Min(a: Tristate, b: Tristate): Tristate { if a < b then a else b }

  function Max(a: Tristate, b: Tristate): Tristate { if a > b then a else b }

  function Negate(a: Tristate): Tristate { 2 - a }

  datatype Op = AND | OR {
    function Dual(): Op { if AND? then OR else AND }

    function Apply(a: Tristate, b: Tristate): Tristate {
      if AND? then Min(a, b) else Max(a, b)
    }

    /** The neutral element: y for AND, n for OR. */
    function Unit(): Tristate { if AND? then YES else NO }
  }

  // ---------- symbols ----------

  datatype SymbolType = Unknown | Boolean | TristateType | Int | Hex | String | Other

  /** Symbols are interned, so pointer equality of the program is equality here.  A constant symbol carries
      its text as its name and has no declared type. */
  datatype Symbol = Const(name: string) | Config(name: string, typ: SymbolType) {
    function Type(): SymbolType { if Const? then Unknown else typ }

    /** The symbol's value is a tristate rather than a text. */
    predicate IsTri() { Type() == Boolean || Type() == TristateType }
  }

  const SYM_YES := Const("y")
  const SYM_MOD := Const("m")
  const SYM_NO := Const("n")

  function UnitSymbol(op: Op): Symbol { if op.AND? then SYM_YES else SYM_NO }

  function AbsorbingSymbol(op: Op): Symbol { UnitSymbol(op.Dual()) }

  // ---------- values of symbols ----------

  /** The current value of a symbol: its tristate and its text. */
  datatype Val = Val(tri: Tristate, text: string)

  datatype Assignment = Assignment(val: Symbol -> Val, modules: Symbol) {
    function Tri(s: Symbol): Tristate { val(s).tri }

    /** The text a symbol is compared and printed with. */
    function StringValue(s: Symbol): string {
      if s.IsTri() then
        if Tri(s) == NO then "n"
        else if Tri(s) == YES then "y"
        else if Tri(modules) == NO then "n" else "m"
      else val(s).text
    }

    /** What every computed configuration satisfies; see Configuration.ComputedIsWellFormed. */
    ghost predicate WellFormed() {
      && Tri(SYM_NO) == NO && Tri(SYM_MOD) == MOD && Tri(SYM_YES) == YES
      && (forall n: string :: val(Const(n)).text == n)
      && (forall s: Symbol :: s.Type() == Boolean ==> Tri(s) != MOD)
      && (Tri(modules) == NO ==> forall s: Symbol :: s.Config? ==> Tri(s) != MOD)
    }

    /** No symbol other than the constant m has the middle value. */
    ghost predicate TwoValued() {
      forall s: Symbol :: s != SYM_MOD ==> Tri(s) != MOD
    }
  }

  // ---------- expressions ----------

  datatype Expr =
    | Sym(s: Symbol)
    | Not(e: Expr)
    | Compare(equal: bool, left: Symbol, right: Symbol)
    | Bin(op: Op, l: Expr, r: Expr)

  function Value(a: Assignment, e: Expr): Tristate {
    match e
    case Sym(s) => a.Tri(s)
    case Not(e1) => Negate(Value(a, e1))
    case Compare(equal, l, r) => if (a.StringValue(l) == a.StringValue(r)) == equal then YES else NO
    case Bin(op, l, r) => op.Apply(Value(a, l), Value(a, r))
  }

  /** A missing expression counts as y. */
  function OptValue(a: Assignment, e: Option<Expr>): Tristate {
    if e.None? then YES else Value(a, e.value)
  }

  function Size(e: Expr): nat {
    match e
    case Sym(_) => 1
    case Compare(_, _, _) => 1
    case Not(e1) => 1 + Size(e1)
    case Bin(_, l, r) => 1 + Size(l) + Size(r)
  }

  lemma SizePositive(e: Expr)
    ensures Size(e) >= 1
  {
  }

  predicate IsBin(op: Op, e: Expr) { e.Bin? && e.op == op }

  /** One of the constants y and n. */
  predicate IsYesNo(e: Expr) { e == Sym(SYM_YES) || e == Sym(SYM_NO) }

  function Unit(op: Op): Expr { Sym(UnitSymbol(op)) }

  function Absorbing(op: Op): Expr { Sym(AbsorbingSymbol(op)) }

  predicate ConstantM(e: Expr) {
    match e
    case Sym(s) => s == SYM_MOD
    case Not(e1) => ConstantM(e1)
    case Compare(_, _, _) => false
    case Bin(_, l, r) => ConstantM(l) || ConstantM(r)
  }

  /** Without the constant m, an expression over two-valued symbols is two-valued. */
  lemma TwoValuedExpr(e: Expr, a: Assignment)
    requires a.TwoValued() && !ConstantM(e)
    ensures Value(a, e) != MOD
  {
  }

  function AllocAnd(e1: Option<Expr>, e2: Option<Expr>): Option<Expr> {
    if e1.None? then e2 else if e2.None? then e1 else Some(Bin(AND, e1.value, e2.value))
  }
}
