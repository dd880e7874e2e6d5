/** expr_eliminate_yn, expr_eq, expr_eliminate_eq, expr_extract_eq, expr_transform and expr_trans_bool
    (scripts/config/expr.c).  A function returns the rewritten expression that the program leaves
    behind the pointer it was given. */
module Simplify {
  import opened Exprs

  // ---------- constants y and n ----------

  function EliminateYn(e: Expr): (r: Expr)
    ensures Size(r) <= Size(e)
    ensures IsNnf(e) ==> IsNnf(r)
  {
    if !e.Bin? then e
    else
      SizePositive(e.l); SizePositive(e.r);
      var l := EliminateYn(e.l);
      var r := EliminateYn(e.r);
      if l == Absorbing(e.op) then l
      else if l == Unit(e.op) then r
      else if r == Absorbing(e.op) then r
      else if r == Unit(e.op) then l
      else Bin(e.op, l, r)
  }

  lemma {:induction false} EliminateYnValue(e: Expr, a: Assignment)
    requires a.WellFormed()
    ensures Value(a, EliminateYn(e)) == Value(a, e)
  {
    if e.Bin? {
      EliminateYnValue(e.l, a);
      EliminateYnValue(e.r, a);
    }
  }

  /** Some operand of an AND or OR, not below a NOT, is the constant y or n. */
  predicate HasConstantOperand(e: Expr) {
    e.Bin? && (IsYesNo(e.l) || IsYesNo(e.r) || HasConstantOperand(e.l) || HasConstantOperand(e.r))
  }

  lemma {:induction false} EliminateYnShrinks(e: Expr)
    requires HasConstantOperand(e)
    ensures Size(EliminateYn(e)) < Size(e)
  {
    SizePositive(e.l); SizePositive(e.r);
    if HasConstantOperand(e.l) { EliminateYnShrinks(e.l); }
    if HasConstantOperand(e.r) { EliminateYnShrinks(e.r); }
  }

  lemma {:induction false} EliminateYnComplete(e: Expr)
    ensures !HasConstantOperand(EliminateYn(e))
  {
    if e.Bin? {
      EliminateYnComplete(e.l);
      EliminateYnComplete(e.r);
    }
  }

  // ---------- cancellation of equal operands ----------

  /** __expr_eliminate_eq: every pair of equal op-operands, one from each side, becomes a pair of units. */
  function EliminatePairs(op: Op, e1: Expr, e2: Expr): (r: (Expr, Expr))
    ensures Size(r.0) <= Size(e1) && Size(r.1) <= Size(e2)
    decreases Size(e1) + Size(e2), if IsBin(op, e1) || IsBin(op, e2) then 0 else 3
  {
    SizePositive(e1); SizePositive(e2);
    if IsBin(op, e1) then
      SizePositive(e1.l); SizePositive(e1.r);
      var (l, f2) := EliminatePairs(op, e1.l, e2);
      var (r, g2) := EliminatePairs(op, e1.r, f2);
      (Bin(op, l, r), g2)
    else if IsBin(op, e2) then
      SizePositive(e2.l); SizePositive(e2.r);
      var (f1, l) := EliminatePairs(op, e1, e2.l);
      var (g1, r) := EliminatePairs(op, f1, e2.r);
      (g1, Bin(op, l, r))
    else if e1 == e2 && IsYesNo(e1) then (e1, e2)
    else if !ExprEq(e1, e2) then (e1, e2)
    else (Unit(op), Unit(op))
  }

  function EliminateEq(e1: Expr, e2: Expr): (r: (Expr, Expr))
    ensures Size(r.0) <= Size(e1) && Size(r.1) <= Size(e2)
    decreases Size(e1) + Size(e2), 1
  {
    var (f1, f2) := if e1.Bin? then EliminatePairs(e1.op, e1, e2) else (e1, e2);
    var (g1, g2) := if f2.Bin? && !IsBin(f2.op, f1) then EliminatePairs(f2.op, f1, f2) else (f1, f2);
    (EliminateYn(g1), EliminateYn(g2))
  }

  predicate ExprEq(e1: Expr, e2: Expr)
    decreases Size(e1) + Size(e2), 2
  {
    match e1
    case Sym(_) => e1 == e2
    case Compare(_, _, _) => e1 == e2
    case Not(f1) => e2.Not? && ExprEq(f1, e2.e)
    case Bin(op, _, _) =>
      IsBin(op, e2) &&
      var (f1, f2) := EliminateEq(e1, e2);
      f1.Sym? && f1 == f2
  }

  lemma Regroup(op: Op, c1: Tristate, c2: Tristate, x: Tristate, y: Tristate)
    ensures op.Apply(op.Apply(c1, c2), op.Apply(x, y)) == op.Apply(op.Apply(c1, x), op.Apply(c2, y))
    ensures op.Apply(op.Apply(c1, c2), x) == op.Apply(c1, op.Apply(c2, x))
  {
  }

  /** Cancellation splits both sides into a common part c and what remains. */
  lemma {:induction false} EliminatePairsSplits(op: Op, e1: Expr, e2: Expr, a: Assignment) returns (c: Tristate)
    requires a.WellFormed()
    ensures Value(a, e1) == op.Apply(c, Value(a, EliminatePairs(op, e1, e2).0))
    ensures Value(a, e2) == op.Apply(c, Value(a, EliminatePairs(op, e1, e2).1))
    decreases Size(e1) + Size(e2), if IsBin(op, e1) || IsBin(op, e2) then 0 else 3, 0
  {
    SizePositive(e1); SizePositive(e2);
    if IsBin(op, e1) {
      SizePositive(e1.l); SizePositive(e1.r);
      var (l, f2) := EliminatePairs(op, e1.l, e2);
      var (r, g2) := EliminatePairs(op, e1.r, f2);
      var c1 := EliminatePairsSplits(op, e1.l, e2, a);
      var c2 := EliminatePairsSplits(op, e1.r, f2, a);
      c := op.Apply(c1, c2);
      assert EliminatePairs(op, e1, e2) == (Bin(op, l, r), g2);
      Regroup(op, c1, c2, Value(a, l), Value(a, r));
      Regroup(op, c1, c2, Value(a, g2), Value(a, g2));
    } else if IsBin(op, e2) {
      SizePositive(e2.l); SizePositive(e2.r);
      var (f1, l) := EliminatePairs(op, e1, e2.l);
      var (g1, r) := EliminatePairs(op, f1, e2.r);
      var c1 := EliminatePairsSplits(op, e1, e2.l, a);
      var c2 := EliminatePairsSplits(op, f1, e2.r, a);
      c := op.Apply(c1, c2);
      assert EliminatePairs(op, e1, e2) == (g1, Bin(op, l, r));
      Regroup(op, c1, c2, Value(a, l), Value(a, r));
      Regroup(op, c1, c2, Value(a, g1), Value(a, g1));
    } else if ExprEq(e1, e2) && !(e1 == e2 && IsYesNo(e1)) {
      ExprEqSound(e1, e2, a);
      c := Value(a, e1);
    } else {
      c := op.Unit();
    }
  }

  ghost predicate SameOrder(v1: Tristate, v2: Tristate, w1: Tristate, w2: Tristate) {
    (w1 <= w2 ==> v1 <= v2) && (w2 <= w1 ==> v2 <= v1)
  }

  lemma EliminatePairsReflectsOrder(op: Op, e1: Expr, e2: Expr, a: Assignment)
    requires a.WellFormed()
    ensures var (r1, r2) := EliminatePairs(op, e1, e2);
            SameOrder(Value(a, e1), Value(a, e2), Value(a, r1), Value(a, r2))
    decreases Size(e1) + Size(e2), if IsBin(op, e1) || IsBin(op, e2) then 0 else 3, 1
  {
    var c := EliminatePairsSplits(op, e1, e2, a);
  }

  /** Cancelling never turns the order of the two sides around: the originals are ordered
      whenever the remainders are. */
  lemma {:induction false} EliminateEqReflectsOrder(e1: Expr, e2: Expr, a: Assignment)
    requires a.WellFormed()
    ensures var (r1, r2) := EliminateEq(e1, e2);
            SameOrder(Value(a, e1), Value(a, e2), Value(a, r1), Value(a, r2))
    decreases Size(e1) + Size(e2), 1
  {
    var (f1, f2) := if e1.Bin? then EliminatePairs(e1.op, e1, e2) else (e1, e2);
    var (g1, g2) := if f2.Bin? && !IsBin(f2.op, f1) then EliminatePairs(f2.op, f1, f2) else (f1, f2);
    if e1.Bin? { EliminatePairsReflectsOrder(e1.op, e1, e2, a); }
    if f2.Bin? && !IsBin(f2.op, f1) { EliminatePairsReflectsOrder(f2.op, f1, f2, a); }
    EliminateYnValue(g1, a);
    EliminateYnValue(g2, a);
  }

  /** expr_eq never identifies two expressions that a well-formed assignment tells apart. */
  lemma {:induction false} ExprEqSound(e1: Expr, e2: Expr, a: Assignment)
    requires a.WellFormed() && ExprEq(e1, e2)
    ensures Value(a, e1) == Value(a, e2)
    decreases Size(e1) + Size(e2), 2
  {
    match e1
    case Sym(_) =>
    case Compare(_, _, _) =>
    case Not(f1) => ExprEqSound(f1, e2.e, a);
    case Bin(op, _, _) => EliminateEqReflectsOrder(e1, e2, a);
  }

  /** When the second argument is reduced to y, the first implies the second. */
  lemma EliminateEqImplies(e1: Expr, e2: Expr, a: Assignment)
    requires a.WellFormed()
    requires EliminateEq(e1, e2).1 == Sym(SYM_YES)
    ensures Value(a, e1) <= Value(a, e2)
  {
    EliminateEqReflectsOrder(e1, e2, a);
  }

  // ---------- extraction of the common operands ----------

  /** expr_extract_eq: like EliminatePairs, but the cancelled operands are collected in acc. */
  function ExtractEq(op: Op, acc: Option<Expr>, e1: Expr, e2: Expr): (r: (Option<Expr>, Expr, Expr))
    ensures Size(r.1) <= Size(e1) && Size(r.2) <= Size(e2)
    decreases Size(e1) + Size(e2)
  {
    SizePositive(e1); SizePositive(e2);
    if IsBin(op, e1) then
      SizePositive(e1.l); SizePositive(e1.r);
      var (acc1, l, f2) := ExtractEq(op, acc, e1.l, e2);
      var (acc2, r, g2) := ExtractEq(op, acc1, e1.r, f2);
      (acc2, Bin(op, l, r), g2)
    else if IsBin(op, e2) then
      SizePositive(e2.l); SizePositive(e2.r);
      var (acc1, f1, l) := ExtractEq(op, acc, e1, e2.l);
      var (acc2, g1, r) := ExtractEq(op, acc1, f1, e2.r);
      (acc2, g1, Bin(op, l, r))
    else if ExprEq(e1, e2) then
      (Some(if acc.Some? then Bin(op, acc.value, e1) else e1), Unit(op), Unit(op))
    else (acc, e1, e2)
  }

  /** expr_extract_eq_and and expr_extract_eq_or: the common operands and the two remainders. */
  function ExtractCommon(op: Op, e1: Expr, e2: Expr): (Option<Expr>, Expr, Expr) {
    var (c, f1, f2) := ExtractEq(op, None, e1, e2);
    if c.Some? then (c, EliminateYn(f1), EliminateYn(f2)) else (c, f1, f2)
  }

  /** The value of the operands collected so far. */
  function CommonValue(op: Op, a: Assignment, c: Option<Expr>): Tristate {
    if c.None? then op.Unit() else Value(a, c.value)
  }

  lemma Thread(op: Op, c0: Tristate, c1: Tristate, c2: Tristate, l: Tristate, r: Tristate, l': Tristate, r': Tristate)
    requires op.Apply(c0, l) == op.Apply(c1, l') && op.Apply(c1, r) == op.Apply(c2, r')
    ensures op.Apply(c0, op.Apply(l, r)) == op.Apply(c2, op.Apply(l', r'))
  {
  }

  lemma {:induction false} ExtractEqValue(op: Op, acc: Option<Expr>, e1: Expr, e2: Expr, a: Assignment)
    requires a.WellFormed()
    ensures var (c, f1, f2) := ExtractEq(op, acc, e1, e2);
      && op.Apply(CommonValue(op, a, acc), Value(a, e1)) == op.Apply(CommonValue(op, a, c), Value(a, f1))
      && op.Apply(CommonValue(op, a, acc), Value(a, e2)) == op.Apply(CommonValue(op, a, c), Value(a, f2))
    decreases Size(e1) + Size(e2)
  {
    hide ExprEq;
    SizePositive(e1); SizePositive(e2);
    if IsBin(op, e1) {
      SizePositive(e1.l); SizePositive(e1.r);
      var (acc1, l, f2) := ExtractEq(op, acc, e1.l, e2);
      var (acc2, r, g2) := ExtractEq(op, acc1, e1.r, f2);
      ExtractEqValue(op, acc, e1.l, e2, a);
      ExtractEqValue(op, acc1, e1.r, f2, a);
      assert ExtractEq(op, acc, e1, e2) == (acc2, Bin(op, l, r), g2);
      Thread(op, CommonValue(op, a, acc), CommonValue(op, a, acc1), CommonValue(op, a, acc2),
             Value(a, e1.l), Value(a, e1.r), Value(a, l), Value(a, r));
    } else if IsBin(op, e2) {
      SizePositive(e2.l); SizePositive(e2.r);
      var (acc1, f1, l) := ExtractEq(op, acc, e1, e2.l);
      var (acc2, g1, r) := ExtractEq(op, acc1, f1, e2.r);
      ExtractEqValue(op, acc, e1, e2.l, a);
      ExtractEqValue(op, acc1, f1, e2.r, a);
      assert ExtractEq(op, acc, e1, e2) == (acc2, g1, Bin(op, l, r));
      Thread(op, CommonValue(op, a, acc), CommonValue(op, a, acc1), CommonValue(op, a, acc2),
             Value(a, e2.l), Value(a, e2.r), Value(a, l), Value(a, r));
    } else if ExprEq(e1, e2) {
      ExprEqSound(e1, e2, a);
    }
  }

  /** Each side is exactly the common part joined with its remainder. */
  lemma ExtractCommonSplits(op: Op, e1: Expr, e2: Expr, a: Assignment)
    requires a.WellFormed()
    ensures var (c, f1, f2) := ExtractCommon(op, e1, e2);
      && Value(a, e1) == op.Apply(CommonValue(op, a, c), Value(a, f1))
      && Value(a, e2) == op.Apply(CommonValue(op, a, c), Value(a, f2))
  {
    hide Value, EliminateYn, ExtractEq, ExprEq;
    ExtractEqValue(op, None, e1, e2, a);
    var (c, f1, f2) := ExtractEq(op, None, e1, e2);
    EliminateYnValue(f1, a);
    EliminateYnValue(f2, a);
  }

  // ---------- negation normal form ----------

  /** A comparison of a boolean symbol with a tristate constant: expr_transform replaces these. */
  predicate BooleanTest(e: Expr) {
    e.Compare? && e.left.Type() == Boolean && e.right in {SYM_YES, SYM_MOD, SYM_NO}
  }

  predicate IsNnf(e: Expr) {
    match e
    case Sym(_) => true
    case Compare(_, _, _) => !BooleanTest(e)
    case Not(f) => f.Sym? && f.s !in {SYM_YES, SYM_MOD, SYM_NO}
    case Bin(_, l, r) => IsNnf(l) && IsNnf(r)
  }

  /** A termination measure: each NOT doubles what is below it. */
  function Weight(e: Expr): (w: nat)
    ensures w >= 1
  {
    match e
    case Sym(_) => 1
    case Compare(_, _, _) => 2
    case Not(f) => 2 * Weight(f)
    case Bin(_, l, r) => 1 + Weight(l) + Weight(r)
  }

  /** Moving a NOT below AND or OR loses weight. */
  lemma DualWeight(op: Op, l: Expr, r: Expr)
    ensures Weight(Bin(op.Dual(), Not(l), Not(r))) < Weight(Not(Bin(op, l, r)))
    ensures Weight(Not(Bin(op, l, r))) == 2 * Weight(Bin(op, l, r))
  {
    assert Weight(Not(l)) == 2 * Weight(l) && Weight(Not(r)) == 2 * Weight(r);
  }

  /** expr_transform on the comparisons. */
  function TransformCompare(e: Expr): (r: Expr)
    requires e.Compare?
    ensures IsNnf(r) && Weight(r) <= 2
  {
    if !BooleanTest(e) then e
    else if e.right == SYM_MOD then Sym(if e.equal then SYM_NO else SYM_YES)
    else if e.equal == (e.right == SYM_YES) then Sym(e.left)
    else Not(Sym(e.left))
  }

  /** expr_transform. */
  function Transform(e: Expr): (r: Expr)
    ensures Weight(r) <= Weight(e)
    ensures IsNnf(r)
    decreases Weight(e)
  {
    match e
    case Sym(_) => e
    case Compare(_, _, _) => TransformCompare(e)
    case Bin(op, l, r) => Bin(op, Transform(l), Transform(r))
    case Not(f) =>
      var g := Transform(f);
      match g
      case Not(h) => Transform(h)
      case Compare(equal, l, r) => Compare(!equal, l, r)
      case Bin(op, l, r) => DualWeight(op, l, r); Transform(Bin(op.Dual(), Not(l), Not(r)))
      case Sym(s) =>
        if s == SYM_YES then Sym(SYM_NO)
        else if s == SYM_MOD then Sym(SYM_MOD)
        else if s == SYM_NO then Sym(SYM_YES)
        else Not(g)
  }

  lemma {:induction false} TransformValue(e: Expr, a: Assignment)
    requires a.WellFormed()
    ensures Value(a, Transform(e)) == Value(a, e)
    decreases Weight(e)
  {
    match e
    case Sym(_) =>
    case Compare(_, _, _) => TransformCompareValue(e, a);
    case Bin(op, l, r) => TransformValue(l, a); TransformValue(r, a);
    case Not(f) =>
      TransformValue(f, a);
      match Transform(f)
      case Not(h) => TransformValue(h, a);
      case Compare(_, _, _) =>
      case Sym(_) =>
      case Bin(op, l, r) => DualWeight(op, l, r); TransformValue(Bin(op.Dual(), Not(l), Not(r)), a);
  }

  lemma TransformCompareValue(e: Expr, a: Assignment)
    requires a.WellFormed() && e.Compare?
    ensures Value(a, TransformCompare(e)) == Value(a, e)
  {
    assert a.Tri(e.left) == a.val(e.left).tri;
    assert a.StringValue(SYM_YES) == "y" && a.StringValue(SYM_MOD) == "m" && a.StringValue(SYM_NO) == "n";
    assert "y"[0] == 'y' && "m"[0] == 'm' && "n"[0] == 'n';
  }

  /** A second application changes nothing: the normal forms are exactly the fixed points. */
  lemma {:induction false} TransformFixpoints(e: Expr)
    ensures Transform(e) == e <==> IsNnf(e)
  {
    if IsNnf(e) && e.Bin? {
      TransformFixpoints(e.l);
      TransformFixpoints(e.r);
    }
  }

  // ---------- comparisons with n under a boolean reading ----------

  /** expr_trans_bool: FOO != n becomes FOO for a tristate FOO. */
  function TransBool(e: Expr): Expr {
    match e
    case Sym(_) => e
    case Compare(equal, l, r) => if !equal && l.Type() == TristateType && r == SYM_NO then Sym(l) else e
    case Not(f) => Not(TransBool(f))
    case Bin(op, l, r) => Bin(op, TransBool(l), TransBool(r))
  }

  /** On a normal form the rewrite never raises the value and never changes whether it is n. */
  lemma {:induction false} TransBoolValue(e: Expr, a: Assignment)
    requires a.WellFormed() && IsNnf(e)
    ensures Value(a, TransBool(e)) <= Value(a, e)
    ensures Value(a, TransBool(e)) == NO <==> Value(a, e) == NO
  {
    match e
    case Sym(_) =>
    case Not(_) =>
    case Compare(_, l, r) =>
      assert a.Tri(l) == a.val(l).tri && a.StringValue(SYM_NO) == "n";
      assert "y"[0] == 'y' && "m"[0] == 'm' && "n"[0] == 'n';
    case Bin(_, l, r) => TransBoolValue(l, a); TransBoolValue(r, a);
  }

  /** Some operand is a comparison of a tristate symbol with n by !=. */
  predicate HasNotNo(e: Expr) {
    match e
    case Sym(_) => false
    case Compare(equal, l, r) => !equal && l.Type() == TristateType && r == SYM_NO
    case Not(f) => HasNotNo(f)
    case Bin(_, l, r) => HasNotNo(l) || HasNotNo(r)
  }

  lemma {:induction false} TransBoolNnf(e: Expr)
    requires IsNnf(e)
    ensures IsNnf(TransBool(e))
  {
    match e
    case Bin(_, l, r) => TransBoolNnf(l); TransBoolNnf(r);
    case _ =>
  }

  /** No such comparison is left, and expressions without one are not changed. */
  lemma {:induction false} TransBoolFixpoints(e: Expr)
    ensures !HasNotNo(TransBool(e))
    ensures TransBool(e) == e <==> !HasNotNo(e)
  {
    match e
    case Sym(_) =>
    case Compare(_, _, _) =>
    case Not(f) => TransBoolFixpoints(f);
    case Bin(_, l, r) => TransBoolFixpoints(l); TransBoolFixpoints(r);
  }
}
