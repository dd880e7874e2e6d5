/** expr_eq (scripts/config/expr.c) recognises an expression in its copy: cancelling a chain against itself leaves only
    constants. */
module Equality {
  import opened Exprs
  import opened Simplify
  import opened Spine

  /** e with every operand that is not one of the constants y and n cancelled. */
  function Cancelled(op: Op, e: Expr): Expr {
    if IsBin(op, e) then Bin(op, Cancelled(op, e.l), Cancelled(op, e.r))
    else if IsYesNo(e) then e
    else Unit(op)
  }

  /** All operands are constants. */
  predicate AllConstant(op: Op, e: Expr) {
    if IsBin(op, e) then AllConstant(op, e.l) && AllConstant(op, e.r) else IsYesNo(e)
  }

  /** All operands to the left of the place p are constants. */
  predicate ConstantBefore(op: Op, e: Expr, p: Path)
    requires OnSpine(op, e, p)
  {
    p == [] || if p[0] then AllConstant(op, e.l) && ConstantBefore(op, e.r, p[1..]) else ConstantBefore(op, e.l, p[1..])
  }

  /** A constant cancels nothing, and nothing cancels a constant. */
  lemma {:induction false} NothingCancels(op: Op, x: Expr, t: Expr)
    requires !IsBin(op, x) && (IsYesNo(x) || AllConstant(op, t))
    ensures EliminatePairs(op, x, t) == (x, t)
    decreases t
  {
    if IsBin(op, t) {
      NothingCancels(op, x, t.l);
      NothingCancels(op, x, t.r);
    }
  }

  /** An operand cancels its own copy when only constants come before it. */
  lemma {:induction false} OperandCancels(op: Op, x: Expr, t: Expr, p: Path)
    requires Leaf(op, t, p) && At(op, t, p) == x && !IsYesNo(x) && ExprEq(x, x) && ConstantBefore(op, t, p)
    ensures EliminatePairs(op, x, t) == (Unit(op), Put(op, t, p, Unit(op)))
    decreases p
  {
    if p != [] {
      OperandCancels(op, x, Child(t, p[0]), p[1..]);
      if p[0] { NothingCancels(op, x, t.l); } else { NothingCancels(op, Unit(op), t.r); }
    }
  }

  lemma {:induction false} CancelledConstant(op: Op, e: Expr)
    ensures AllConstant(op, Cancelled(op, e))
  {
    if IsBin(op, e) {
      CancelledConstant(op, e.l);
      CancelledConstant(op, e.r);
    }
  }

  /** Storing both operands of a node, one after the other. */
  lemma {:induction false} PutBoth(op: Op, t: Expr, p: Path, l: Expr, r: Expr)
    requires OnSpine(op, t, p) && IsBin(op, At(op, t, p)) && ConstantBefore(op, t, p) && AllConstant(op, l)
    ensures OnSpine(op, t, p + [false]) && At(op, t, p + [false]) == At(op, t, p).l && ConstantBefore(op, t, p + [false])
    ensures var u := Put(op, t, p + [false], l);
      && OnSpine(op, u, p + [true]) && At(op, u, p + [true]) == At(op, t, p).r && ConstantBefore(op, u, p + [true])
      && Put(op, u, p + [true], r) == Put(op, t, p, Bin(op, l, r))
    decreases p
  {
    if p == [] {
      assert [] + [false] == [false] && [] + [true] == [true];
      assert [false][1..] == [] && [true][1..] == [];
    } else {
      PutBoth(op, Child(t, p[0]), p[1..], l, r);
      assert (p + [false])[1..] == p[1..] + [false] && (p + [true])[1..] == p[1..] + [true];
    }
  }

  /** The part s of the chain t cancels itself when only constants come before it. */
  lemma {:induction false} PartCancels(op: Op, s: Expr, t: Expr, p: Path, n: nat)
    requires OnSpine(op, t, p) && At(op, t, p) == s && ConstantBefore(op, t, p)
    requires Size(s) <= n && (IsBin(op, s) || Size(s) < n)
    requires forall x: Expr :: Size(x) < n ==> ExprEq(x, x)
    ensures EliminatePairs(op, s, t) == (Cancelled(op, s), Put(op, t, p, Cancelled(op, s)))
    decreases s
  {
    if IsBin(op, s) {
      CancelledConstant(op, s.l);
      PutBoth(op, t, p, Cancelled(op, s.l), Cancelled(op, s.r));
      PartCancels(op, s.l, t, p + [false], n);
      PartCancels(op, s.r, Put(op, t, p + [false], Cancelled(op, s.l)), p + [true], n);
    } else if IsYesNo(s) {
      NothingCancels(op, s, t);
      PutSame(op, t, p);
    } else {
      OperandCancels(op, s, t, p);
    }
  }

  /** Constants collapse to one of them. */
  lemma {:induction false} ConstantCollapses(op: Op, e: Expr)
    requires AllConstant(op, e)
    ensures IsYesNo(EliminateYn(e))
  {
    if IsBin(op, e) {
      ConstantCollapses(op, e.l);
      ConstantCollapses(op, e.r);
    }
  }

  /** Every expression equals itself. */
  lemma {:induction false} ExprEqReflexive(e: Expr)
    ensures ExprEq(e, e)
    decreases Size(e)
  {
    match e
    case Sym(_) =>
    case Compare(_, _, _) =>
    case Not(f) => ExprEqReflexive(f);
    case Bin(op, _, _) =>
      forall x: Expr | Size(x) < Size(e) ensures ExprEq(x, x) { ExprEqReflexive(x); }
      PartCancels(op, e, e, [], Size(e));
      CancelledConstant(op, e);
      ConstantCollapses(op, Cancelled(op, e));
  }
}
