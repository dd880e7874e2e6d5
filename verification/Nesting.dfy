/** When menu_finalize (scripts/config/menu.c) nests an entry under the one before it, with
    expr_trans_compare and expr_depends_symbol (scripts/config/expr.c). */
module Nesting {
  import opened Exprs
  import opened Simplify
  import opened Configuration
  import opened EliminateDups
  import opened Rearrange
  import Dups
  import Spine

  /** expr_trans_compare: e compared with the constant s; a missing expression becomes the constant itself. */
  function TransCompare(e: Expr, equal: bool, s: Symbol): Expr {
    match e
    case Bin(op, l, r) =>
      var l1, r1 := TransCompare(l, true, s), TransCompare(r, true, s);
      var both := if s == SYM_YES then Bin(op, l1, r1) else if s == SYM_NO then Bin(op.Dual(), l1, r1) else e;
      if equal then both else Not(both)
    case Not(f) => TransCompare(f, !equal, s)
    case Compare(_, _, _) =>
      if s == SYM_MOD then Sym(if equal then SYM_NO else SYM_YES)
      else if equal == (s == SYM_YES) then e else Not(e)
    case Sym(x) => Compare(equal, x, s)
  }

  function OptTransCompare(e: Option<Expr>, equal: bool, s: Symbol): Expr {
    match e
    case None => if equal then Sym(s) else Not(Sym(s))
    case Some(f) => TransCompare(f, equal, s)
  }

  /** Every plain operand has a tristate for its value. */
  predicate TriOperands(e: Expr) {
    match e
    case Sym(x) => x.IsTri() || x in {SYM_YES, SYM_MOD, SYM_NO}
    case Compare(_, _, _) => true
    case Not(f) => TriOperands(f)
    case Bin(_, l, r) => TriOperands(l) && TriOperands(r)
  }

  /** No negated operand has the middle value. */
  predicate NegationsSettled(a: Assignment, e: Expr) {
    match e
    case Not(f) => Value(a, f) != MOD && NegationsSettled(a, f)
    case Bin(_, l, r) => NegationsSettled(a, l) && NegationsSettled(a, r)
    case _ => true
  }

  /** The value of e compared with one of the constants y and n. */
  function Compared(a: Assignment, e: Expr, equal: bool, s: Symbol): Tristate {
    if (Value(a, e) == (if s == SYM_YES then YES else NO)) == equal then YES else NO
  }

  lemma CompareSymbol(x: Symbol, equal: bool, s: Symbol, a: Assignment)
    requires a.WellFormed() && (x.IsTri() || x in {SYM_YES, SYM_MOD, SYM_NO}) && s in {SYM_YES, SYM_NO}
    ensures Value(a, Compare(equal, x, s)) == Compared(a, Sym(x), equal, s)
  {
    assert a.Tri(x) == a.val(x).tri;
    assert a.val(SYM_NO).text == "n" && a.val(SYM_YES).text == "y" && a.val(SYM_MOD).text == "m";
    assert "y"[0] == 'y' && "m"[0] == 'm' && "n"[0] == 'n';
  }

  /** Comparing with y or n is exact where no negated operand is m. */
  lemma {:induction false} TransCompareValue(e: Expr, equal: bool, s: Symbol, a: Assignment)
    requires a.WellFormed() && TriOperands(e) && NegationsSettled(a, e) && s in {SYM_YES, SYM_NO}
    ensures Value(a, TransCompare(e, equal, s)) == Compared(a, e, equal, s)
  {
    match e
    case Sym(x) => CompareSymbol(x, equal, s, a);
    case Compare(_, _, _) =>
    case Not(f) => TransCompareValue(f, !equal, s, a);
    case Bin(_, l, r) =>
      TransCompareValue(l, true, s, a);
      TransCompareValue(r, true, s, a);
  }

  /** Below a NOT the comparison goes wrong for m, and only for m. */
  lemma TransCompareNegation(f: Expr, equal: bool, s: Symbol, a: Assignment)
    requires a.WellFormed() && TriOperands(f) && NegationsSettled(a, f) && s in {SYM_YES, SYM_NO}
    ensures Value(a, TransCompare(Not(f), equal, s)) == Compared(a, Not(f), equal, s) <==> Value(a, f) != MOD
  {
    TransCompareValue(f, !equal, s, a);
  }

  /** expr_depends_symbol. */
  predicate DependsSymbol(e: Expr, s: Symbol) {
    match e
    case Sym(x) => x == s
    case Compare(equal, l, r) => l == s && if equal then r == SYM_YES || r == SYM_MOD else r == SYM_NO
    case Not(_) => false
    case Bin(op, l, r) => op.AND? && (DependsSymbol(l, s) || DependsSymbol(r, s))
  }

  /** One of the forms that expr_depends_symbol looks for: the symbol, compared with y or m by =, or with n by !=. */
  predicate RestsOn(e: Expr, s: Symbol) {
    e in {Sym(s), Compare(true, s, SYM_YES), Compare(true, s, SYM_MOD), Compare(false, s, SYM_NO)}
  }

  lemma {:induction false} OperandDepends(e: Expr, s: Symbol, p: Spine.Path)
    requires Spine.Leaf(AND, e, p) && RestsOn(Spine.At(AND, e, p), s)
    ensures DependsSymbol(e, s) && Mentions(e, s)
    decreases p
  {
    if p != [] { OperandDepends(Spine.Child(e, p[0]), s, p[1..]); }
  }

  lemma {:induction false} DependingOperand(e: Expr, s: Symbol) returns (p: Spine.Path)
    requires DependsSymbol(e, s)
    ensures Spine.Leaf(AND, e, p) && RestsOn(Spine.At(AND, e, p), s)
  {
    p := [];
    if e.Bin? {
      var right := !DependsSymbol(e.l, s);
      var q := DependingOperand(Spine.Child(e, right), s);
      p := [right] + q;
      assert p[1..] == q;
    }
  }

  /** An expression depends on a symbol exactly if some operand of it, as a chain of ANDs, at any place, is of such a form. */
  lemma DependsExactly(e: Expr, s: Symbol)
    ensures DependsSymbol(e, s) <==> exists p: Spine.Path :: Spine.Leaf(AND, e, p) && RestsOn(Spine.At(AND, e, p), s)
  {
    if DependsSymbol(e, s) { var p := DependingOperand(e, s); }
    if p: Spine.Path :| Spine.Leaf(AND, e, p) && RestsOn(Spine.At(AND, e, p), s) { OperandDepends(e, s, p); }
  }

  /** What depends on a symbol is n while the symbol is n. */
  lemma {:induction false} DependsSymbolSound(e: Expr, s: Symbol, a: Assignment)
    requires a.WellFormed() && s.IsTri() && DependsSymbol(e, s)
    ensures a.Tri(s) == NO ==> Value(a, e) == NO
  {
    match e
    case Sym(_) =>
    case Compare(_, _, _) =>
      assert a.Tri(s) == a.val(s).tri;
      assert a.val(SYM_NO).text == "n" && a.val(SYM_YES).text == "y" && a.val(SYM_MOD).text == "m";
      assert "y"[0] == 'y' && "m"[0] == 'm' && "n"[0] == 'n';
    case Not(_) =>
    case Bin(_, l, r) =>
      if DependsSymbol(l, s) { DependsSymbolSound(l, s, a); } else { DependsSymbolSound(r, s, a); }
  }

  /** "e is not n", simplified. */
  function NotNo(e: Option<Expr>): Expr { Simplified(Transform(OptTransCompare(e, false, SYM_NO))) }

  /** The entry with condition dep goes below the entry of symbol s with prompt condition cond. */
  predicate Nests(s: Symbol, cond: Option<Expr>, dep: Option<Expr>) {
    && dep.Some? && Mentions(dep.value, s)
    && (DependsSymbol(dep.value, s) || EliminateEq(NotNo(dep), NotNo(cond)).1 == Sym(SYM_YES))
  }

  /** An entry is nested below a symbol whenever an operand of its condition is the symbol, in one of these forms, whatever
      the prompt above. */
  lemma NestsWithOperand(s: Symbol, cond: Option<Expr>, dep: Option<Expr>, p: Spine.Path)
    requires dep.Some? && Spine.Leaf(AND, dep.value, p) && RestsOn(Spine.At(AND, dep.value, p), s)
    ensures Nests(s, cond, dep)
  {
    OperandDepends(dep.value, s, p);
  }

  /** Exactly when an entry is nested, as long as no constants are among the operands of both conditions, read as "is not n"
      and simplified: it mentions the symbol, and it has such an operand, or the prompt above is always visible, or its own
      condition has several operands and all those of the prompt above are among them. */
  lemma NestsExactly(s: Symbol, cond: Option<Expr>, dep: Option<Expr>)
    requires ConstantFree(NotNo(dep)) && ConstantFree(NotNo(cond))
    ensures Nests(s, cond, dep) <==>
      && dep.Some? && Mentions(dep.value, s)
      && (|| (exists p: Spine.Path :: Spine.Leaf(AND, dep.value, p) && RestsOn(Spine.At(AND, dep.value, p), s))
          || NotNo(cond) == Sym(SYM_YES)
          || (IsBin(AND, NotNo(dep)) && Parts(AND, NotNo(cond)) <= Parts(AND, NotNo(dep))))
  {
    hide NotNo, Parts, ConstantFree, EliminateEq;
    ImpliedExactly(NotNo(dep), NotNo(cond));
    if dep.Some? { DependsExactly(dep.value, s); }
  }

  ghost predicate Settled(a: Assignment, e: Option<Expr>) {
    e.Some? ==> TriOperands(e.value) && NegationsSettled(a, e.value)
  }

  lemma NotNoValue(e: Option<Expr>, a: Assignment)
    requires a.WellFormed() && Settled(a, e)
    ensures Value(a, NotNo(e)) == if OptValue(a, e) != NO then YES else NO
  {
    var c := OptTransCompare(e, false, SYM_NO);
    if e.Some? { TransCompareValue(e.value, false, SYM_NO, a); }
    TransformValue(c, a);
    SimplifiedValue(Transform(c), a);
  }

  /** An entry is nested only where it can be visible at most when the entry above it is: either the symbol above
      is not n whenever the condition is not n, or, if no negated operand is m, the prompt above is visible whenever the
      condition is not n. */
  lemma NestingJustified(s: Symbol, cond: Option<Expr>, dep: Option<Expr>, a: Assignment)
    requires a.WellFormed() && s.IsTri() && Nests(s, cond, dep)
    ensures OptValue(a, dep) != NO && DependsSymbol(dep.value, s) ==> a.Tri(s) != NO
    ensures Settled(a, cond) && Settled(a, dep) && OptValue(a, dep) != NO && !DependsSymbol(dep.value, s) ==> OptValue(a, cond) != NO
  {
    if DependsSymbol(dep.value, s) {
      DependsSymbolSound(dep.value, s, a);
    } else if Settled(a, cond) && Settled(a, dep) {
      NotNoValue(dep, a);
      NotNoValue(cond, a);
      EliminateEqImplies(NotNo(dep), NotNo(cond), a);
    }
  }

  // ---------- an entry nested without reason ----------

  const ABOVE := Config("ABOVE", TristateType)
  const B := Config("B", TristateType)

  /** The prompt of the entry ABOVE shows if A is n; the entry after it depends on (ABOVE || B) && !A. */
  const CONDITION := Compare(true, A, SYM_NO)
  const DEPENDENCY := Bin(AND, Bin(OR, Sym(ABOVE), Sym(B)), Not(Sym(A)))

  /** A is m, B is y, and ABOVE is n. */
  const A_HALF := Assignment(
    (s: Symbol) => match s
      case Const(n) => Val(if s == SYM_YES then YES else if s == SYM_MOD then MOD else NO, n)
      case Config(_, _) => Val(if s == A then MOD else if s == B then YES else NO, ""),
    SYM_YES)

  lemma NotOpposed()
    ensures var l, r := Bin(OR, Compare(false, ABOVE, SYM_NO), Compare(false, B, SYM_NO)), CONDITION;
      !Dups.Opposed(AND, l, r) && !Dups.Opposed(AND, l, Bin(AND, l, r))
  {
    var x, y := Compare(false, ABOVE, SYM_NO), Compare(false, B, SYM_NO);
    var l, r := Bin(OR, x, y), CONDITION;
    var nx, ny := Compare(true, ABOVE, SYM_NO), Compare(true, B, SYM_NO);
    assert Transform(Not(x)) == nx && Transform(Not(y)) == ny;
    assert Transform(l) == l && Transform(Bin(AND, Not(x), Not(y))) == Bin(AND, nx, ny);
    var n := Bin(AND, nx, ny);
    assert Transform(Not(l)) == n;
    assert ExtractEq(AND, None, nx, r) == (None, nx, r) && ExtractEq(AND, None, ny, r) == (None, ny, r);
    assert ExtractEq(AND, None, n, r) == (None, n, r);
    assert ExtractEq(AND, None, nx, l) == (None, nx, l) && ExtractEq(AND, None, ny, l) == (None, ny, l);
    assert ExtractEq(AND, None, nx, Bin(AND, l, r)) == (None, nx, Bin(AND, l, r));
    assert ExtractEq(AND, None, ny, Bin(AND, l, r)) == (None, ny, Bin(AND, l, r));
    assert ExtractEq(AND, None, n, Bin(AND, l, r)) == (None, n, Bin(AND, l, r));
  }

  lemma DependencySimplified()
    ensures var l := Bin(OR, Compare(false, ABOVE, SYM_NO), Compare(false, B, SYM_NO));
      Simplified(Bin(AND, l, CONDITION)) == Bin(AND, l, CONDITION)
  {
    var l, r := Bin(OR, Compare(false, ABOVE, SYM_NO), Compare(false, B, SYM_NO)), CONDITION;
    var e := Bin(AND, l, r);
    NothingToJoin(OR, l.l, l.r, 0);
    NothingToJoin(AND, l, r, 0);
    NothingToOppose(OR, l.l, l.r, 0);
    TwoLeaves(AND, l, r);
    Spine.PutLeaf(AND, e, [false], l);
    NotOpposed();
    assert Dups.Dups2(AND, e, [false], [false], 0) == (e, 0);
    assert Dups.Dups2(AND, e, [false], [true], 0) == (e, 0);
    assert Dups.Dups2Leaf(AND, e, [false], [], 0) == (e, 0);
    assert Dups.Dups2(AND, e, [false], [], 0) == (e, 0);
    assert Dups.Dups2(AND, e, [true], [], 0) == (e, 0);
    assert Round(e) == (e, 0);
  }

  lemma DependencyCompared()
    ensures TransCompare(DEPENDENCY, false, SYM_NO)
            == Not(Bin(OR, Bin(AND, Compare(true, ABOVE, SYM_NO), Compare(true, B, SYM_NO)), Compare(false, A, SYM_NO)))
  {
    assert TransCompare(Bin(OR, Sym(ABOVE), Sym(B)), true, SYM_NO)
        == Bin(AND, Compare(true, ABOVE, SYM_NO), Compare(true, B, SYM_NO));
    assert TransCompare(Not(Sym(A)), true, SYM_NO) == Compare(false, A, SYM_NO);
  }

  lemma NegationNormal(nx: Expr, ny: Expr, nr: Expr)
    requires forall z :: z in {nx, ny, nr} ==> z.Compare? && !BooleanTest(z)
    ensures var not := (z: Expr) requires z.Compare? => Compare(!z.equal, z.left, z.right);
      Transform(Not(Bin(OR, Bin(AND, nx, ny), nr))) == Bin(AND, Bin(OR, not(nx), not(ny)), not(nr))
  {
    var x, y, r := Compare(!nx.equal, nx.left, nx.right), Compare(!ny.equal, ny.left, ny.right), Compare(!nr.equal, nr.left, nr.right);
    var both := Bin(OR, Bin(AND, nx, ny), nr);
    assert Transform(Bin(AND, nx, ny)) == Bin(AND, nx, ny) && Transform(both) == both;
    assert Transform(Not(nx)) == x && Transform(Not(ny)) == y && Transform(Not(nr)) == r;
    assert Transform(Bin(OR, Not(nx), Not(ny))) == Bin(OR, x, y);
    assert Transform(Not(Bin(AND, nx, ny))) == Bin(OR, x, y);
    assert Transform(Bin(AND, Not(Bin(AND, nx, ny)), Not(nr))) == Bin(AND, Bin(OR, x, y), r);
  }

  lemma DependencyFormula()
    ensures NotNo(Some(DEPENDENCY)) == Bin(AND, Bin(OR, Compare(false, ABOVE, SYM_NO), Compare(false, B, SYM_NO)), CONDITION)
    ensures NotNo(Some(CONDITION)) == CONDITION
  {
    var l, r := Bin(OR, Compare(false, ABOVE, SYM_NO), Compare(false, B, SYM_NO)), CONDITION;
    DependencyCompared();
    NegationNormal(Compare(true, ABOVE, SYM_NO), Compare(true, B, SYM_NO), Compare(false, A, SYM_NO));
    DependencySimplified();
  }

  lemma DependencyNests()
    ensures Nests(ABOVE, Some(CONDITION), Some(DEPENDENCY))
  {
    hide EliminateEq, NotNo;
    var l, r := Bin(OR, Compare(false, ABOVE, SYM_NO), Compare(false, B, SYM_NO)), CONDITION;
    DependencyFormula();
    ConditionCancels(l, r);
  }

  /** The second operand cancels, the first does not. */
  lemma ConditionCancels(l: Expr, r: Expr)
    requires l == Bin(OR, Compare(false, ABOVE, SYM_NO), Compare(false, B, SYM_NO)) && r == CONDITION
    ensures EliminateEq(Bin(AND, l, r), r).1 == Sym(SYM_YES)
  {
    assert EliminatePairs(AND, l, r) == (l, r) && EliminatePairs(AND, r, r) == (Sym(SYM_YES), Sym(SYM_YES));
  }

  /** With the negated A at m, the entry is nested although it can be visible while the symbol above is n and its prompt
      is hidden. */
  lemma NestedWithoutReason()
    ensures Nests(ABOVE, Some(CONDITION), Some(DEPENDENCY)) && A_HALF.WellFormed()
    ensures Value(A_HALF, DEPENDENCY) == MOD && A_HALF.Tri(ABOVE) == NO && Value(A_HALF, CONDITION) == NO
  {
    DependencyNests();
    HalfWellFormed();
    HalfValues();
  }

  lemma HalfWellFormed()
    ensures A_HALF.WellFormed()
  {
  }

  lemma HalfValues()
    ensures Value(A_HALF, DEPENDENCY) == MOD && A_HALF.Tri(ABOVE) == NO && Value(A_HALF, CONDITION) == NO
  {
    assert A_HALF.StringValue(A) == "m" && A_HALF.StringValue(SYM_NO) == "n" && "m"[0] == 'm' && "n"[0] == 'n';
    assert Value(A_HALF, Bin(OR, Sym(ABOVE), Sym(B))) == YES && Value(A_HALF, Not(Sym(A))) == MOD;
  }

  // ---------- dependencies handed down ----------

  function OptTransform(e: Option<Expr>): Option<Expr> { if e.None? then None else Some(Transform(e.value)) }

  function OptSimplified(e: Option<Expr>): Option<Expr> { if e.None? then None else Some(Simplified(e.value)) }

  /** A condition joined with the one it is placed under. */
  function Under(above: Option<Expr>, e: Option<Expr>): Option<Expr> { OptSimplified(AllocAnd(above, OptTransform(e))) }

  /** The condition of a property of an entry; other than for tristate symbols it is read as a boolean. */
  function PropUnder(base: Option<Expr>, sym: Option<Symbol>, e: Option<Expr>): Option<Expr> {
    var dep := Under(base, e);
    if dep.Some? && sym.Some? && sym.value.Type() != TristateType then Some(TransBool(dep.value)) else dep
  }

  /** Apart from the middle value, the joined condition is the minimum of the two. */
  lemma UnderValue(above: Option<Expr>, e: Option<Expr>, a: Assignment)
    requires a.WellFormed()
    ensures Dups.Settles(Min(OptValue(a, above), OptValue(a, e)), OptValue(a, Under(above, e)))
  {
    if e.Some? { TransformValue(e.value, a); }
    var both := AllocAnd(above, OptTransform(e));
    if both.Some? { SimplifiedValue(both.value, a); }
  }

  predicate OptNnf(e: Option<Expr>) { e.Some? ==> IsNnf(e.value) }

  /** Conditions that are handed down stay in normal form, so reading one as a boolean does not change whether
      it is n, and never raises it. */
  lemma PropUnderValue(base: Option<Expr>, sym: Option<Symbol>, e: Option<Expr>, a: Assignment)
    requires a.WellFormed() && OptNnf(base)
    ensures OptNnf(Under(base, e))
    ensures OptValue(a, PropUnder(base, sym, e)) == NO <==> OptValue(a, Under(base, e)) == NO
    ensures OptValue(a, PropUnder(base, sym, e)) <= OptValue(a, Under(base, e))
  {
    var dep := Under(base, e);
    if dep.Some? { TransBoolValue(dep.value, a); }
  }

  /** The computed visibility of a symbol that is not tristate is the same with and without the rewrite. */
  lemma BooleanVisibility(k: Kconfig, l: Kconfig, a: Assignment, s: Symbol)
    requires a.WellFormed() && s.Type() != TristateType
    requires forall i :: 0 <= i < |k.Def(s).props| && k.Def(s).props[i].Prompt? ==> OptNnf(k.Def(s).props[i].visible)
    requires |l.Def(s).props| == |k.Def(s).props|
    requires forall i :: 0 <= i < |k.Def(s).props| ==> l.Def(s).props[i] == BooleanPrompt(k.Def(s).props[i])
    ensures Visibility(l, a, s) == Visibility(k, a, s)
  {
    BooleanPrompts(a, k.Def(s).props, l.Def(s).props);
  }

  function BooleanPrompt(p: Prop): Prop {
    if p.Prompt? && p.visible.Some? then Prompt(Some(TransBool(p.visible.value))) else p
  }

  lemma {:induction false} BooleanPrompts(a: Assignment, ps: seq<Prop>, qs: seq<Prop>)
    requires a.WellFormed() && |ps| == |qs|
    requires forall i :: 0 <= i < |ps| && ps[i].Prompt? ==> OptNnf(ps[i].visible)
    requires forall i :: 0 <= i < |ps| ==> qs[i] == BooleanPrompt(ps[i])
    ensures OrPrompts(a, qs) == NO <==> OrPrompts(a, ps) == NO
    decreases |ps|
  {
    if ps != [] {
      var last := ps[|ps| - 1];
      if last.Prompt? && last.visible.Some? { TransBoolValue(last.visible.value, a); }
      BooleanPrompts(a, ps[..|ps| - 1], qs[..|qs| - 1]);
    }
  }
}
