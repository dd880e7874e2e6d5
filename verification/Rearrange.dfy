/** Which expressions expr_eq, expr_eliminate_eq and expr_extract_eq recognise (scripts/config/expr.c): those that differ
    in the order and the grouping of operands. */
module Rearrange {
  import opened Exprs
  import opened Simplify
  import opened Spine
  import opened Equality

  // ---------- order and grouping left out ----------

  /** An expression without the order and the grouping of the operands of its chains. */
  datatype Shape = Atom(e: Expr) | Negated(of: Shape) | Chain(op: Op, parts: multiset<Shape>)

  function ShapeOf(e: Expr): Shape
    decreases e, 1
  {
    match e
    case Not(f) => Negated(ShapeOf(f))
    case Bin(op, _, _) => Chain(op, Parts(op, e))
    case _ => Atom(e)
  }

  /** The operands of e, as a chain of op. */
  function Parts(op: Op, e: Expr): multiset<Shape>
    decreases e, if IsBin(op, e) then 0 else 2
  {
    if IsBin(op, e) then Parts(op, e.l) + Parts(op, e.r) else multiset{ShapeOf(e)}
  }

  /** No operand of an AND or OR is the constant y or n, at any depth. */
  predicate ConstantFree(e: Expr) {
    match e
    case Not(f) => ConstantFree(f)
    case Bin(_, l, r) => !IsYesNo(l) && !IsYesNo(r) && ConstantFree(l) && ConstantFree(r)
    case _ => true
  }

  /** The operands of e as a chain of op, in their order. */
  function Operands(op: Op, e: Expr): seq<Expr> {
    if IsBin(op, e) then Operands(op, e.l) + Operands(op, e.r) else [e]
  }

  // ---------- cancelling, counted ----------

  /** Every operand has been cancelled, or is none of the constants and has none inside. */
  predicate Partial(op: Op, e: Expr) {
    if IsBin(op, e) then Partial(op, e.l) && Partial(op, e.r) else e == Unit(op) || (!IsYesNo(e) && ConstantFree(e))
  }

  /** The operands that have not been cancelled. */
  function Left(op: Op, e: Expr): multiset<Shape> {
    if IsBin(op, e) then Left(op, e.l) + Left(op, e.r) else if e == Unit(op) then multiset{} else multiset{ShapeOf(e)}
  }

  lemma {:induction false} FreeIsPartial(op: Op, e: Expr)
    requires ConstantFree(e) && !IsYesNo(e)
    ensures Partial(op, e) && Left(op, e) == Parts(op, e)
  {
    if IsBin(op, e) {
      FreeIsPartial(op, e.l);
      FreeIsPartial(op, e.r);
    }
  }

  /** expr_eq is right on all smaller expressions. */
  ghost predicate RightBelow(n: nat) {
    forall x: Expr, y: Expr :: ConstantFree(x) && ConstantFree(y) && Size(x) < n && Size(y) < n ==>
      (ExprEq(x, y) <==> ShapeOf(x) == ShapeOf(y))
  }

  /** All operands are smaller than n. */
  predicate Below(op: Op, e: Expr, n: nat) {
    if IsBin(op, e) then Below(op, e.l, n) && Below(op, e.r, n) else Size(e) < n
  }

  lemma Remainders(l: multiset<Shape>, r: multiset<Shape>, t: multiset<Shape>)
    ensures (l - t) + (r - (t - l)) == (l + r) - t
    ensures (t - l) - r == t - (l + r)
  {
  }

  lemma PairsFirst(op: Op, s: Expr, t: Expr)
    requires IsBin(op, s)
    ensures var (l, f) := EliminatePairs(op, s.l, t);
      var (r, g) := EliminatePairs(op, s.r, f);
      EliminatePairs(op, s, t) == (Bin(op, l, r), g)
  {
  }

  lemma PairsSecond(op: Op, s: Expr, t: Expr)
    requires !IsBin(op, s) && IsBin(op, t)
    ensures var (f, l) := EliminatePairs(op, s, t.l);
      var (g, r) := EliminatePairs(op, f, t.r);
      EliminatePairs(op, s, t) == (g, Bin(op, l, r))
  {
  }

  lemma PairsLast(op: Op, s: Expr, t: Expr)
    requires !IsBin(op, s) && !IsBin(op, t)
    ensures EliminatePairs(op, s, t) == if ExprEq(s, t) && !(s == t && IsYesNo(s)) then (Unit(op), Unit(op)) else (s, t)
  {
  }

  /** The constant y or n equals only itself. */
  lemma ConstantEquals(s: Expr, t: Expr)
    requires s.Sym? || t.Sym?
    ensures ExprEq(s, t) <==> s == t
  {
  }

  lemma RightAt(n: nat, s: Expr, t: Expr)
    requires RightBelow(n) && ConstantFree(s) && ConstantFree(t) && Size(s) < n && Size(t) < n
    ensures ExprEq(s, t) <==> ShapeOf(s) == ShapeOf(t)
  {
  }

  lemma LeafLeft(op: Op, e: Expr)
    requires !IsBin(op, e)
    ensures Left(op, e) == if e == Unit(op) then multiset{} else multiset{ShapeOf(e)}
    ensures Partial(op, e) <==> e == Unit(op) || (!IsYesNo(e) && ConstantFree(e))
  {
  }

  /** Two operands cancel exactly if they have one shape. */
  lemma OperandsCancel(op: Op, s: Expr, t: Expr, n: nat)
    requires !IsBin(op, s) && !IsBin(op, t) && Partial(op, s) && Partial(op, t) && Size(s) < n && Size(t) < n && RightBelow(n)
    ensures EliminatePairs(op, s, t)
            == if s != Unit(op) && t != Unit(op) && ShapeOf(s) == ShapeOf(t) then (Unit(op), Unit(op)) else (s, t)
  {
    hide EliminatePairs, ExprEq, ShapeOf, ConstantFree, Partial, RightBelow;
    PairsLast(op, s, t);
    LeafLeft(op, s);
    LeafLeft(op, t);
    if s == Unit(op) || t == Unit(op) {
      ConstantEquals(s, t);
    } else {
      RightAt(n, s, t);
    }
  }

  lemma OperandsCount(op: Op, s: Expr, t: Expr, n: nat)
    requires !IsBin(op, s) && !IsBin(op, t) && Partial(op, s) && Partial(op, t) && Size(s) < n && Size(t) < n && RightBelow(n) && n > 1
    ensures var (f, g) := EliminatePairs(op, s, t);
      && Partial(op, f) && Partial(op, g) && !IsBin(op, f) && !IsBin(op, g) && Size(f) < n && Size(g) < n
      && Left(op, f) == Left(op, s) - Left(op, t) && Left(op, g) == Left(op, t) - Left(op, s)
  {
    hide EliminatePairs, ShapeOf, ConstantFree, Partial, RightBelow, Left;
    OperandsCancel(op, s, t, n);
    LeafLeft(op, s);
    LeafLeft(op, t);
    LeafLeft(op, Unit(op));
  }

  /** Cancelling takes exactly the common operands from both sides. */
  lemma {:induction false} PairsCount(op: Op, s: Expr, t: Expr, n: nat)
    requires Partial(op, s) && Partial(op, t) && Below(op, s, n) && Below(op, t, n) && RightBelow(n) && n > 1
    ensures var (f, g) := EliminatePairs(op, s, t);
      && Partial(op, f) && Partial(op, g) && Below(op, f, n) && Below(op, g, n)
      && Left(op, f) == Left(op, s) - Left(op, t) && Left(op, g) == Left(op, t) - Left(op, s)
      && SameSpine(op, s, f) && SameSpine(op, t, g)
    decreases Size(s) + Size(t)
  {
    hide RightBelow, EliminatePairs, ExprEq, ShapeOf, ConstantFree;
    SizePositive(s); SizePositive(t);
    SameSpineRefl(op, s);
    SameSpineRefl(op, t);
    if IsBin(op, s) {
      SizePositive(s.l); SizePositive(s.r);
      var (l, f2) := EliminatePairs(op, s.l, t);
      var (r, g2) := EliminatePairs(op, s.r, f2);
      PairsFirst(op, s, t);
      PairsCount(op, s.l, t, n);
      PairsCount(op, s.r, f2, n);
      SameSpineTrans(op, t, f2, g2);
      Remainders(Left(op, s.l), Left(op, s.r), Left(op, t));
    } else if IsBin(op, t) {
      SizePositive(t.l); SizePositive(t.r);
      var (f1, l) := EliminatePairs(op, s, t.l);
      var (g1, r) := EliminatePairs(op, f1, t.r);
      PairsSecond(op, s, t);
      PairsCount(op, s, t.l, n);
      PairsCount(op, f1, t.r, n);
      Remainders(Left(op, t.l), Left(op, t.r), Left(op, s));
    } else {
      OperandsCount(op, s, t, n);
    }
  }

  // ---------- what is left after the constants are removed ----------

  lemma {:induction false} FreeStays(e: Expr)
    requires ConstantFree(e)
    ensures EliminateYn(e) == e
  {
    if e.Bin? {
      FreeStays(e.l);
      FreeStays(e.r);
    }
  }

  lemma YnOfChain(op: Op, f: Expr)
    requires IsBin(op, f)
    requires var l, r := EliminateYn(f.l), EliminateYn(f.r); (l == Unit(op) || !IsYesNo(l)) && (r == Unit(op) || !IsYesNo(r))
    ensures var l, r := EliminateYn(f.l), EliminateYn(f.r);
      EliminateYn(f) == if l == Unit(op) then r else if r == Unit(op) then l else Bin(op, l, r)
  {
  }

  lemma FreeChain(op: Op, l: Expr, r: Expr)
    requires !IsYesNo(l) && !IsYesNo(r) && ConstantFree(l) && ConstantFree(r)
    ensures ConstantFree(Bin(op, l, r)) && Parts(op, Bin(op, l, r)) == Parts(op, l) + Parts(op, r)
  {
  }

  /** r consists of these operands; without any it is the unit. */
  predicate MadeOf(op: Op, r: Expr, parts: multiset<Shape>) {
    if parts == multiset{} then r == Unit(op) else !IsYesNo(r) && ConstantFree(r) && Parts(op, r) == parts
  }

  lemma ChainMadeOf(op: Op, f: Expr, p: multiset<Shape>, q: multiset<Shape>)
    requires IsBin(op, f) && MadeOf(op, EliminateYn(f.l), p) && MadeOf(op, EliminateYn(f.r), q)
    ensures MadeOf(op, EliminateYn(f), p + q)
  {
    hide EliminateYn, ConstantFree, Parts;
    YnOfChain(op, f);
    if p != multiset{} && q != multiset{} { FreeChain(op, EliminateYn(f.l), EliminateYn(f.r)); }
  }

  /** The operands that were not cancelled are what remains; without any it is the unit. */
  lemma {:induction false} WhatRemains(op: Op, f: Expr)
    requires Partial(op, f)
    ensures var r := EliminateYn(f);
      if Left(op, f) == multiset{} then r == Unit(op) else !IsYesNo(r) && ConstantFree(r) && Parts(op, r) == Left(op, f)
  {
    hide ShapeOf, EliminateYn, ConstantFree;
    if IsBin(op, f) {
      WhatRemains(op, f.l);
      WhatRemains(op, f.r);
      ChainMadeOf(op, f, Left(op, f.l), Left(op, f.r));
    } else if f != Unit(op) {
      FreeStays(f);
    } else {
      FreeStays(Unit(op));
    }
  }

  lemma {:induction false} SmallerOperands(op: Op, e: Expr)
    ensures Below(op, e, Size(e) + 1)
    ensures IsBin(op, e) ==> Below(op, e, Size(e))
  {
    SizePositive(e);
    if IsBin(op, e) {
      SizePositive(e.l); SizePositive(e.r);
      SmallerOperands(op, e.l);
      SmallerOperands(op, e.r);
      BelowMore(op, e.l, Size(e.l) + 1, Size(e));
      BelowMore(op, e.r, Size(e.r) + 1, Size(e));
      BelowMore(op, e, Size(e), Size(e) + 1);
    }
  }

  lemma {:induction false} BelowMore(op: Op, e: Expr, n: nat, m: nat)
    requires Below(op, e, n) && n <= m
    ensures Below(op, e, m)
  {
    if IsBin(op, e) {
      BelowMore(op, e.l, n, m);
      BelowMore(op, e.r, n, m);
    }
  }

  // ---------- expr_eq ----------

  /** Two chains of one operator: what expr_eliminate_eq leaves of them. */
  lemma ChainsCancel(op: Op, e1: Expr, e2: Expr, n: nat)
    requires IsBin(op, e1) && IsBin(op, e2) && ConstantFree(e1) && ConstantFree(e2)
    requires Size(e1) <= n && Size(e2) <= n && RightBelow(n)
    ensures var (r1, r2) := EliminateEq(e1, e2);
      var left1, left2 := Parts(op, e1) - Parts(op, e2), Parts(op, e2) - Parts(op, e1);
      && (if left1 == multiset{} then r1 == Unit(op) else !IsYesNo(r1) && Parts(op, r1) == left1)
      && (if left2 == multiset{} then r2 == Unit(op) else !IsYesNo(r2) && Parts(op, r2) == left2)
  {
    hide RightBelow, EliminatePairs, ExprEq, ShapeOf;
    SizePositive(e1.l); SizePositive(e1.r);
    FreeIsPartial(op, e1);
    FreeIsPartial(op, e2);
    SmallerOperands(op, e1);
    SmallerOperands(op, e2);
    BelowMore(op, e1, Size(e1), n);
    BelowMore(op, e2, Size(e2), n);
    PairsCount(op, e1, e2, n);
    var (f1, f2) := EliminatePairs(op, e1, e2);
    assert EliminateEq(e1, e2) == (EliminateYn(f1), EliminateYn(f2));
    WhatRemains(op, f1);
    WhatRemains(op, f2);
  }

  lemma SamePartsOrNot(p: multiset<Shape>, q: multiset<Shape>, x: Shape)
    ensures p - q == multiset{x} ==> q - p != multiset{x}
    ensures p - q == multiset{} && q - p == multiset{} ==> p == q
  {
    assert multiset{x}[x] == 1;
    assert (p - q)[x] == 1 ==> (q - p)[x] == 0;
    if p - q == multiset{} && q - p == multiset{} {
      forall y: Shape ensures p[y] == q[y] { assert (p - q)[y] == 0 && (q - p)[y] == 0; }
    }
  }

  lemma {:induction false} ChainsEqual(op: Op, e1: Expr, e2: Expr, n: nat)
    requires IsBin(op, e1) && IsBin(op, e2) && ConstantFree(e1) && ConstantFree(e2)
    requires Size(e1) <= n && Size(e2) <= n && RightBelow(n)
    ensures ExprEq(e1, e2) <==> Parts(op, e1) == Parts(op, e2)
  {
    hide RightBelow, EliminatePairs, EliminateEq, ConstantFree;
    ChainsCancel(op, e1, e2, n);
    var (r1, r2) := EliminateEq(e1, e2);
    assert ExprEq(e1, e2) <==> r1.Sym? && r1 == r2;
    var p, q := Parts(op, e1), Parts(op, e2);
    if r1.Sym? && r1 == r2 {
      assert Parts(op, r1) == multiset{Atom(r1)};
      SamePartsOrNot(p, q, Atom(r1));
    }
  }

  /** Without constants among the operands, expr_eq recognises exactly the expressions that differ in nothing but the order
      and the grouping of operands, at all depths. */
  lemma {:induction false} EqualExactly(e1: Expr, e2: Expr)
    requires ConstantFree(e1) && ConstantFree(e2)
    ensures ExprEq(e1, e2) <==> ShapeOf(e1) == ShapeOf(e2)
    decreases if Size(e1) < Size(e2) then Size(e2) else Size(e1)
  {
    match e1
    case Sym(_) =>
    case Compare(_, _, _) =>
    case Not(f) => if e2.Not? { EqualExactly(f, e2.e); }
    case Bin(op, _, _) =>
      if IsBin(op, e2) {
        var n := if Size(e1) < Size(e2) then Size(e2) else Size(e1);
        forall x: Expr, y: Expr | ConstantFree(x) && ConstantFree(y) && Size(x) < n && Size(y) < n
          ensures ExprEq(x, y) <==> ShapeOf(x) == ShapeOf(y)
        {
          EqualExactly(x, y);
        }
        ChainsEqual(op, e1, e2, n);
      }
  }

  // ---------- expr_eliminate_eq ----------

  lemma RightEverywhere(n: nat)
    ensures RightBelow(n)
  {
    forall x: Expr, y: Expr | ConstantFree(x) && ConstantFree(y) && Size(x) < n && Size(y) < n
      ensures ExprEq(x, y) <==> ShapeOf(x) == ShapeOf(y)
    {
      EqualExactly(x, y);
    }
  }

  /** What cancelling two expressions as chains of op leaves of them. */
  lemma Cancelled2(op: Op, s: Expr, t: Expr)
    requires Partial(op, s) && Partial(op, t)
    ensures var (f, g) := EliminatePairs(op, s, t);
      && Partial(op, f) && Partial(op, g) && SameSpine(op, s, f) && SameSpine(op, t, g)
      && Left(op, f) == Left(op, s) - Left(op, t) && Left(op, g) == Left(op, t) - Left(op, s)
  {
    hide ExprEq, EliminatePairs, RightBelow, Partial, Left, Below, SameSpine;
    SizePositive(s); SizePositive(t);
    var n := Size(s) + Size(t) + 1;
    RightEverywhere(n);
    SmallerOperands(op, s);
    SmallerOperands(op, t);
    BelowMore(op, s, Size(s) + 1, n);
    BelowMore(op, t, Size(t) + 1, n);
    PairsCount(op, s, t, n);
  }

  /** A constant is never cancelled. */
  lemma {:induction false} ConstantKept(op: Op, s: Expr, c: Expr)
    requires IsYesNo(c)
    ensures EliminatePairs(op, s, c).1 == c
  {
    hide ExprEq, EliminatePairs;
    if IsBin(op, s) {
      ConstantKept(op, s.l, c);
      ConstantKept(op, s.r, c);
      PairsFirst(op, s, c);
    } else {
      PairsLast(op, s, c);
      ConstantEquals(s, c);
    }
  }

  /** If the second side was not cancelled, nothing of the first was. */
  lemma {:induction false} NothingLost(op: Op, s: Expr, t: Expr)
    requires !IsBin(op, t) && t != Unit(op) && EliminatePairs(op, s, t).1 == t
    ensures EliminatePairs(op, s, t).0 == s
  {
    hide ExprEq, EliminatePairs;
    if IsBin(op, s) {
      PairsFirst(op, s, t);
      OneSideOrUnit(op, s.l, t);
      if EliminatePairs(op, s.l, t).1 == Unit(op) { ConstantKept(op, s.r, Unit(op)); }
      NothingLost(op, s.l, t);
      NothingLost(op, s.r, t);
    } else {
      PairsLast(op, s, t);
    }
  }

  lemma {:induction false} OneSideOrUnit(op: Op, s: Expr, t: Expr)
    requires !IsBin(op, t)
    ensures EliminatePairs(op, s, t).1 in {t, Unit(op)}
  {
    hide ExprEq, EliminatePairs;
    if IsBin(op, s) {
      PairsFirst(op, s, t);
      OneSideOrUnit(op, s.l, t);
      OneSideOrUnit(op, s.r, EliminatePairs(op, s.l, t).1);
    } else {
      PairsLast(op, s, t);
    }
  }

  lemma {:induction false} SomeParts(op: Op, e: Expr)
    ensures |Parts(op, e)| >= 1 && (IsBin(op, e) ==> |Parts(op, e)| >= 2)
    ensures !IsBin(op, e) ==> Parts(op, e) == multiset{ShapeOf(e)}
  {
    if IsBin(op, e) {
      SomeParts(op, e.l);
      SomeParts(op, e.r);
    }
  }

  lemma Removed(p: multiset<Shape>, q: multiset<Shape>)
    ensures q - p == multiset{} <==> q <= p
    ensures |q| >= 2 ==> forall x: Shape :: q - multiset{x} != multiset{}
  {
    if q - p == multiset{} {
      forall x: Shape ensures q[x] <= p[x] { assert (q - p)[x] == 0; }
    }
    forall x: Shape ensures q - multiset{x} == multiset{} ==> |q| <= 1 {
      if q - multiset{x} == multiset{} { AtMostOne(q, x); }
    }
  }

  lemma AtMostOne(q: multiset<Shape>, x: Shape)
    requires q - multiset{x} == multiset{}
    ensures |q| <= 1
  {
    forall y: Shape ensures q[y] <= multiset{x}[y] { assert (q - multiset{x})[y] == 0; }
    assert multiset{x} == q + (multiset{x} - q) && |multiset{x}| == 1;
  }

  lemma EliminateEqPlain(e1: Expr, e2: Expr)
    requires !e1.Bin?
    ensures EliminateEq(e1, e2).1 == EliminateYn(if e2.Bin? then EliminatePairs(e2.op, e1, e2).1 else e2)
  {
    hide ExprEq, EliminatePairs, EliminateYn;
  }

  lemma EliminateEqChain(op: Op, e1: Expr, e2: Expr)
    requires IsBin(op, e1)
    ensures var (f1, f2) := EliminatePairs(op, e1, e2);
      EliminateEq(e1, e2).1 == EliminateYn(if f2.Bin? && !IsBin(f2.op, f1) then EliminatePairs(f2.op, f1, f2).1 else f2)
  {
    hide ExprEq, EliminatePairs, EliminateYn;
  }

  /** A plain first side. */
  lemma PlainImplies(e1: Expr, e2: Expr)
    requires ConstantFree(e1) && ConstantFree(e2) && !e1.Bin? && !IsYesNo(e2)
    ensures EliminateEq(e1, e2).1 != Sym(SYM_YES)
  {
    hide ExprEq, EliminateEq, EliminatePairs, EliminateYn, Partial, Left, ConstantFree, ShapeOf, Parts;
    EliminateEqPlain(e1, e2);
    if e2.Bin? {
      var op := e2.op;
      FreeIsPartial(op, e2);
      if IsYesNo(e1) {
        NothingCancels(op, e1, e2);
        FreeStays(e2);
      } else {
        FreeIsPartial(op, e1);
        Cancelled2(op, e1, e2);
        SomeParts(op, e1);
        SomeParts(op, e2);
        Removed(Parts(op, e1), Parts(op, e2));
        WhatRemains(op, EliminatePairs(op, e1, e2).1);
      }
    } else {
      FreeStays(e2);
    }
  }

  /** A chain on the first side. */
  lemma ChainImplies(op: Op, e1: Expr, e2: Expr)
    requires ConstantFree(e1) && ConstantFree(e2) && IsBin(op, e1) && !IsYesNo(e2)
    ensures EliminateEq(e1, e2).1 == Sym(SYM_YES) <==> op.AND? && Parts(op, e2) <= Parts(op, e1)
  {
    hide ExprEq, EliminateEq, EliminatePairs, EliminateYn, Partial, Left, ConstantFree, ShapeOf, Parts;
    FreeIsPartial(op, e1);
    FreeIsPartial(op, e2);
    Cancelled2(op, e1, e2);
    Removed(Parts(op, e1), Parts(op, e2));
    var (f1, f2) := EliminatePairs(op, e1, e2);
    WhatRemains(op, f2);
    OtherChain(op, e1, e2);
  }

  /** A second cancelling, as chains of the other operator, does not matter. */
  lemma OtherChain(op: Op, e1: Expr, e2: Expr)
    requires ConstantFree(e1) && ConstantFree(e2) && IsBin(op, e1) && !IsYesNo(e2)
    ensures var (f1, f2) := EliminatePairs(op, e1, e2);
      EliminateEq(e1, e2).1 == Sym(SYM_YES) <==> EliminateYn(f2) == Sym(SYM_YES)
  {
    hide ExprEq, EliminateEq, EliminatePairs, EliminateYn, Partial, Left, ConstantFree, ShapeOf, Parts;
    var (f1, f2) := EliminatePairs(op, e1, e2);
    EliminateEqChain(op, e1, e2);
    FreeIsPartial(op, e1);
    FreeIsPartial(op, e2);
    Cancelled2(op, e1, e2);
    if f2.Bin? && !IsBin(f2.op, f1) {
      assert f2.op != op && !IsBin(op, e2);
      OneSideOrUnit(op, e1, e2);
      NothingLost(op, e1, e2);
      FreeStays(e2);
      FreeIsPartial(f2.op, e1);
      FreeIsPartial(f2.op, e2);
      Cancelled2(f2.op, e1, e2);
      SomeParts(f2.op, e1);
      SomeParts(f2.op, e2);
      Removed(Parts(f2.op, e1), Parts(f2.op, e2));
      WhatRemains(f2.op, EliminatePairs(f2.op, e1, e2).1);
    }
  }

  /** Without constants among the operands, the second side is reduced to y exactly if it is y, or the first is an AND of
      several operands and the second consists of some of these. */
  lemma ImpliedExactly(e1: Expr, e2: Expr)
    requires ConstantFree(e1) && ConstantFree(e2)
    ensures EliminateEq(e1, e2).1 == Sym(SYM_YES)
            <==> e2 == Sym(SYM_YES) || (IsBin(AND, e1) && Parts(AND, e2) <= Parts(AND, e1))
  {
    if IsYesNo(e2) {
      hide ExprEq, EliminatePairs;
      if e1.Bin? { ConstantKept(e1.op, e1, e2); }
      FreeStays(e2);
      if IsBin(AND, e1) { NoConstantPart(e1, e2); }
    } else if e1.Bin? {
      ChainImplies(e1.op, e1, e2);
    } else {
      PlainImplies(e1, e2);
    }
  }

  lemma {:induction false} NoConstantPart(e: Expr, c: Expr)
    requires ConstantFree(e) && !IsYesNo(e) && IsYesNo(c)
    ensures ShapeOf(c) !in Parts(AND, e)
  {
    if IsBin(AND, e) {
      NoConstantPart(e.l, c);
      NoConstantPart(e.r, c);
    }
  }

  // ---------- grouping alone, for all expressions ----------

  /** Each operand that is not one of the constants y and n is cancelled. */
  function CancelledAll(op: Op, xs: seq<Expr>): (r: seq<Expr>)
    ensures |r| == |xs| && forall i :: 0 <= i < |xs| ==> IsYesNo(r[i]) && (IsYesNo(xs[i]) ==> r[i] == xs[i])
  {
    seq(|xs|, i requires 0 <= i < |xs| => if IsYesNo(xs[i]) then xs[i] else Unit(op))
  }

  lemma {:induction false} OperandsConstant(op: Op, e: Expr)
    ensures AllConstant(op, e) <==> forall x :: x in Operands(op, e) ==> IsYesNo(x)
  {
    if IsBin(op, e) {
      OperandsConstant(op, e.l);
      OperandsConstant(op, e.r);
    }
  }

  lemma OperandsOfChain(op: Op, l: Expr, r: Expr)
    ensures Operands(op, Bin(op, l, r)) == Operands(op, l) + Operands(op, r)
  {
  }

  lemma OperandsOfOne(op: Op, e: Expr)
    requires !IsBin(op, e)
    ensures Operands(op, e) == [e]
  {
  }

  /** An operand cancels the first operand like it, if only constants come before that. */
  lemma {:induction false} OperandFound(op: Op, x: Expr, t: Expr, k: nat)
    requires !IsBin(op, x) && !IsYesNo(x) && k < |Operands(op, t)| && Operands(op, t)[k] == x
    requires forall i :: 0 <= i < k ==> IsYesNo(Operands(op, t)[i])
    ensures EliminatePairs(op, x, t).0 == Unit(op)
    ensures Operands(op, EliminatePairs(op, x, t).1) == Operands(op, t)[k := Unit(op)]
    decreases t
  {
    hide ExprEq, EliminatePairs, Operands;
    if IsBin(op, t) {
      var l, r := Operands(op, t.l), Operands(op, t.r);
      OperandsOfChain(op, t.l, t.r);
      PairsSecond(op, x, t);
      forall i | 0 <= i < |l| ensures Operands(op, t)[i] == l[i] {}
      if k < |l| {
        OperandFound(op, x, t.l, k);
        NothingCancels(op, Unit(op), t.r);
        OperandsOfChain(op, EliminatePairs(op, x, t.l).1, t.r);
        assert l[k := Unit(op)] + r == (l + r)[k := Unit(op)];
      } else {
        forall y | y in l ensures IsYesNo(y) { var i :| 0 <= i < |l| && l[i] == y; assert Operands(op, t)[i] == y; }
        OperandsConstant(op, t.l);
        NothingCancels(op, x, t.l);
        forall i | 0 <= i < k - |l| ensures IsYesNo(r[i]) { assert Operands(op, t)[|l| + i] == r[i]; }
        OperandFound(op, x, t.r, k - |l|);
        OperandsOfChain(op, t.l, EliminatePairs(op, x, t.r).1);
        assert l + r[k - |l| := Unit(op)] == (l + r)[k := Unit(op)];
      }
    } else {
      OperandsOfOne(op, t);
      OperandsOfOne(op, Unit(op));
      PairsLast(op, x, t);
      ExprEqReflexive(x);
    }
  }

  lemma CancelledBoth(op: Op, l: seq<Expr>, r: seq<Expr>, before: seq<Expr>, after: seq<Expr>)
    ensures CancelledAll(op, l + r) == CancelledAll(op, l) + CancelledAll(op, r)
    ensures before + (l + r) + after == before + l + (r + after)
    ensures before + CancelledAll(op, l) + (r + after) == (before + CancelledAll(op, l)) + r + after
    ensures before + CancelledAll(op, l) + CancelledAll(op, r) + after == before + CancelledAll(op, l + r) + after
  {
    assert CancelledAll(op, l + r) == CancelledAll(op, l) + CancelledAll(op, r);
  }

  /** One operand of the part. */
  lemma OneCancels(op: Op, s: Expr, t: Expr, before: seq<Expr>, after: seq<Expr>)
    requires !IsBin(op, s) && Operands(op, t) == before + [s] + after && forall x :: x in before ==> IsYesNo(x)
    ensures EliminatePairs(op, s, t).0 == CancelledAll(op, [s])[0]
    ensures Operands(op, EliminatePairs(op, s, t).1) == before + CancelledAll(op, [s]) + after
  {
    hide ExprEq, EliminatePairs, Operands;
    var k, xs := |before|, Operands(op, t);
    if IsYesNo(s) {
      NothingCancels(op, s, t);
      assert CancelledAll(op, [s]) == [s];
    } else {
      forall i | 0 <= i < k ensures IsYesNo(xs[i]) { assert xs[i] == before[i]; }
      OperandFound(op, s, t, k);
      assert CancelledAll(op, [s]) == [Unit(op)];
      assert xs[k := Unit(op)] == before + [Unit(op)] + after;
    }
  }

  /** A part of a chain cancels the same operands, wherever they are grouped, if only constants come before them. */
  lemma {:induction false} SequenceCancels(op: Op, s: Expr, t: Expr, before: seq<Expr>, after: seq<Expr>)
    requires Operands(op, t) == before + Operands(op, s) + after && forall x :: x in before ==> IsYesNo(x)
    ensures var c := CancelledAll(op, Operands(op, s));
      && Operands(op, EliminatePairs(op, s, t).0) == c
      && Operands(op, EliminatePairs(op, s, t).1) == before + c + after
    decreases s
  {
    hide ExprEq, EliminatePairs, Operands, CancelledAll;
    if IsBin(op, s) {
      var l, r := Operands(op, s.l), Operands(op, s.r);
      OperandsOfChain(op, s.l, s.r);
      PairsFirst(op, s, t);
      CancelledBoth(op, l, r, before, after);
      SequenceCancels(op, s.l, t, before, r + after);
      var c := CancelledAll(op, l);
      var (f, t1) := EliminatePairs(op, s.l, t);
      SequenceCancels(op, s.r, t1, before + c, after);
      OperandsOfChain(op, f, EliminatePairs(op, s.r, t1).0);
    } else {
      OperandsOfOne(op, s);
      OneCancels(op, s, t, before, after);
      OperandsOfOne(op, CancelledAll(op, [s])[0]);
    }
  }

  /** A chain of constants comes to the absorbing one if that is among them. */
  lemma {:induction false} ConstantChain(op: Op, e: Expr)
    requires AllConstant(op, e)
    ensures EliminateYn(e) == if Absorbing(op) in Operands(op, e) then Absorbing(op) else Unit(op)
  {
    if IsBin(op, e) {
      ConstantChain(op, e.l);
      ConstantChain(op, e.r);
    }
  }

  /** Two chains are equal if both come to the same symbol. */
  lemma ChainsCompared(op: Op, e1: Expr, e2: Expr)
    requires IsBin(op, e1) && IsBin(op, e2)
    requires var (f1, f2) := EliminatePairs(op, e1, e2); f2.Bin? ==> IsBin(f2.op, f1)
    ensures var (f1, f2) := EliminatePairs(op, e1, e2);
      ExprEq(e1, e2) <==> EliminateYn(f1).Sym? && EliminateYn(f1) == EliminateYn(f2)
  {
    hide EliminatePairs, EliminateYn;
  }

  /** Whatever the operands are, chains with the same operands in the same order are recognised, however they are grouped. */
  lemma SameOperandsEqual(op: Op, e1: Expr, e2: Expr)
    requires Operands(op, e1) == Operands(op, e2)
    ensures ExprEq(e1, e2)
  {
    hide ExprEq, EliminateEq, EliminatePairs, Operands, CancelledAll, EliminateYn;
    if IsBin(op, e1) && IsBin(op, e2) {
      var xs := Operands(op, e1);
      assert [] + xs + [] == xs;
      SequenceCancels(op, e1, e2, [], []);
      var (f1, f2) := EliminatePairs(op, e1, e2);
      var c := CancelledAll(op, xs);
      assert [] + c + [] == c;
      CancelledConstants(op, xs);
      OperandsConstant(op, f1);
      OperandsConstant(op, f2);
      ConstantChain(op, f1);
      ConstantChain(op, f2);
      OnlyOperand(op, f2, c);
      PairsFirst(op, e1, e2);
      ChainsCompared(op, e1, e2);
    } else {
      OneOperand(op, e1, e2);
      ExprEqReflexive(e1);
    }
  }

  lemma CancelledConstants(op: Op, xs: seq<Expr>)
    ensures forall x :: x in CancelledAll(op, xs) ==> IsYesNo(x)
  {
  }

  lemma OnlyOperand(op: Op, f: Expr, c: seq<Expr>)
    requires Operands(op, f) == c && forall x :: x in c ==> IsYesNo(x)
    ensures IsBin(op, f) || IsYesNo(f)
  {
    if !IsBin(op, f) { assert f in Operands(op, f); }
  }

  lemma {:induction false} ManyOperands(op: Op, e: Expr)
    ensures |Operands(op, e)| >= 1 && (IsBin(op, e) ==> |Operands(op, e)| >= 2)
  {
    if IsBin(op, e) {
      ManyOperands(op, e.l);
      ManyOperands(op, e.r);
    }
  }

  lemma OneOperand(op: Op, e1: Expr, e2: Expr)
    requires Operands(op, e1) == Operands(op, e2) && (!IsBin(op, e1) || !IsBin(op, e2))
    ensures e1 == e2
  {
    ManyOperands(op, e1);
    ManyOperands(op, e2);
    if !IsBin(op, e1) { assert Operands(op, e1)[0] == e1; }
    if !IsBin(op, e2) { assert Operands(op, e2)[0] == e2; }
  }

  // ---------- where the order matters ----------

  const B := Sym(Config("B", Boolean))
  const C := Sym(Config("C", Boolean))

  /** C && y */
  const GUARDED_C := Bin(AND, C, Sym(SYM_YES))
  const GUARDED_B := Bin(AND, B, Sym(SYM_YES))

  /** (B && y) || (C && y), B || (C && y) and B || C: neighbours are recognised as equal, the first and the last not. */
  const BOTH_GUARDED := Bin(OR, GUARDED_B, GUARDED_C)
  const ONE_GUARDED := Bin(OR, B, GUARDED_C)
  const UNGUARDED := Bin(OR, B, C)

  lemma GuardsDiffer()
    ensures !ExprEq(GUARDED_C, GUARDED_B) && !ExprEq(GUARDED_B, GUARDED_C) && ExprEq(GUARDED_C, GUARDED_C)
  {
    var y := Sym(SYM_YES);
    assert EliminatePairs(AND, C, GUARDED_B) == (C, GUARDED_B) && EliminatePairs(AND, B, GUARDED_C) == (B, GUARDED_C);
    assert EliminatePairs(AND, y, GUARDED_B) == (y, GUARDED_B) && EliminatePairs(AND, y, GUARDED_C) == (y, GUARDED_C);
    ExprEqReflexive(GUARDED_C);
  }

  lemma OneGuardGone()
    ensures ExprEq(ONE_GUARDED, BOTH_GUARDED)
  {
    hide ExprEq, EliminatePairs;
    var n := Sym(SYM_NO);
    GuardsDiffer();
    ConstantEquals(B, GUARDED_B); ConstantEquals(B, GUARDED_C); ConstantEquals(n, GUARDED_C);
    PairsLast(OR, B, GUARDED_B); PairsLast(OR, B, GUARDED_C); PairsSecond(OR, B, BOTH_GUARDED);
    PairsLast(OR, GUARDED_C, GUARDED_B); PairsLast(OR, GUARDED_C, GUARDED_C); PairsSecond(OR, GUARDED_C, BOTH_GUARDED);
    PairsFirst(OR, ONE_GUARDED, BOTH_GUARDED);
    ChainsCompared(OR, ONE_GUARDED, BOTH_GUARDED);
    assert EliminateYn(Bin(OR, B, n)) == B && EliminateYn(Bin(OR, GUARDED_B, n)) == B;
  }

  lemma OtherGuardGone()
    ensures ExprEq(UNGUARDED, ONE_GUARDED)
  {
    hide ExprEq, EliminatePairs;
    var n := Sym(SYM_NO);
    var t := Bin(OR, n, GUARDED_C);
    ConstantEquals(B, B); ConstantEquals(n, GUARDED_C); ConstantEquals(C, n); ConstantEquals(C, GUARDED_C);
    PairsLast(OR, B, B); PairsLast(OR, n, GUARDED_C); PairsSecond(OR, B, ONE_GUARDED);
    PairsLast(OR, C, n); PairsLast(OR, C, GUARDED_C); PairsSecond(OR, C, t);
    PairsFirst(OR, UNGUARDED, ONE_GUARDED);
    ChainsCompared(OR, UNGUARDED, ONE_GUARDED);
    assert EliminateYn(Bin(OR, n, C)) == C && EliminateYn(t) == C;
  }

  lemma EndsDiffer()
    ensures !ExprEq(BOTH_GUARDED, UNGUARDED)
  {
    assert EliminatePairs(OR, GUARDED_B, UNGUARDED) == (GUARDED_B, UNGUARDED);
    assert EliminatePairs(OR, GUARDED_C, UNGUARDED) == (GUARDED_C, UNGUARDED);
    assert EliminatePairs(OR, BOTH_GUARDED, UNGUARDED) == (BOTH_GUARDED, UNGUARDED);
  }

  /** What is cancelled between ((q && r) && p) and (p && (q && r)), if q equals p and r equals q, but p does not equal r. */
  lemma CancelledAcross(p: Expr, q: Expr, r: Expr)
    requires p.Bin? && q.Bin? && r.Bin? && p.op == q.op == r.op == OR
    requires ExprEq(q, p) && ExprEq(r, q) && !ExprEq(p, r)
    ensures var y, e, f := Sym(SYM_YES), Bin(AND, Bin(AND, q, r), p), Bin(AND, p, Bin(AND, q, r));
      EliminatePairs(AND, e, f) == (Bin(AND, Bin(AND, y, y), p), Bin(AND, y, Bin(AND, y, r)))
  {
    hide ExprEq, EliminatePairs;
    var y, qr := Sym(SYM_YES), Bin(AND, q, r);
    var e, f, f1, f2 := Bin(AND, qr, p), Bin(AND, p, qr), Bin(AND, y, qr), Bin(AND, y, Bin(AND, y, r));
    ConstantEquals(y, q); ConstantEquals(y, r); ConstantEquals(r, y); ConstantEquals(p, y);
    PairsLast(AND, q, p); PairsLast(AND, y, q); PairsLast(AND, y, r); PairsSecond(AND, y, qr); PairsSecond(AND, q, f);
    PairsLast(AND, r, y); PairsLast(AND, r, q); PairsSecond(AND, r, qr); PairsSecond(AND, r, f1);
    PairsLast(AND, p, y); PairsLast(AND, p, r); PairsSecond(AND, p, Bin(AND, y, r)); PairsSecond(AND, p, f2);
    PairsFirst(AND, qr, f); PairsFirst(AND, e, f);
  }

  lemma Exchanged(op: Op, l: Expr, r: Expr)
    ensures ShapeOf(Bin(op, l, r)) == ShapeOf(Bin(op, r, l))
  {
  }

  lemma ConstantsGone(p: Expr)
    ensures EliminateYn(Bin(AND, Bin(AND, Sym(SYM_YES), Sym(SYM_YES)), p)) == EliminateYn(p)
  {
    assert EliminateYn(Bin(AND, Sym(SYM_YES), Sym(SYM_YES))) == Sym(SYM_YES);
  }

  /** With constants among the operands the order can matter: these two chains have the same operands, exchanged, and are
      not recognised as equal. */
  lemma OrderMatters()
    ensures var l, r := Bin(AND, ONE_GUARDED, UNGUARDED), BOTH_GUARDED;
      !ExprEq(Bin(AND, l, r), Bin(AND, r, l)) && ShapeOf(Bin(AND, l, r)) == ShapeOf(Bin(AND, r, l))
  {
    hide ExprEq, EliminatePairs, ShapeOf, Parts;
    var p, q, r, y := BOTH_GUARDED, ONE_GUARDED, UNGUARDED, Sym(SYM_YES);
    OneGuardGone();
    OtherGuardGone();
    EndsDiffer();
    CancelledAcross(p, q, r);
    ChainsCompared(AND, Bin(AND, Bin(AND, q, r), p), Bin(AND, p, Bin(AND, q, r)));
    ConstantsGone(p);
    assert EliminateYn(p) == Bin(OR, B, C);
    Exchanged(AND, Bin(AND, q, r), p);
  }

  // ---------- expr_extract_eq ----------

  lemma ExtractFirst(op: Op, acc: Option<Expr>, s: Expr, t: Expr)
    requires IsBin(op, s)
    ensures var (c, l, f) := ExtractEq(op, acc, s.l, t);
      var (d, r, g) := ExtractEq(op, c, s.r, f);
      ExtractEq(op, acc, s, t) == (d, Bin(op, l, r), g)
  {
  }

  lemma ExtractSecond(op: Op, acc: Option<Expr>, s: Expr, t: Expr)
    requires !IsBin(op, s) && IsBin(op, t)
    ensures var (c, f, l) := ExtractEq(op, acc, s, t.l);
      var (d, g, r) := ExtractEq(op, c, f, t.r);
      ExtractEq(op, acc, s, t) == (d, g, Bin(op, l, r))
  {
  }

  lemma ExtractLast(op: Op, acc: Option<Expr>, s: Expr, t: Expr)
    requires !IsBin(op, s) && !IsBin(op, t)
    ensures var (c, f, g) := ExtractEq(op, acc, s, t);
      && (f, g) == (if ExprEq(s, t) then (Unit(op), Unit(op)) else (s, t))
      && (c.None? <==> acc.None? && !ExprEq(s, t))
  {
  }

  lemma OperandsExtract(op: Op, acc: Option<Expr>, s: Expr, t: Expr)
    requires !IsBin(op, s) && !IsBin(op, t) && Partial(op, s) && Partial(op, t)
    ensures var (c, f, g) := ExtractEq(op, acc, s, t);
      && Partial(op, f) && Partial(op, g) && SameSpine(op, s, f) && SameSpine(op, t, g)
      && Left(op, f) == Left(op, s) - Left(op, t) && Left(op, g) == Left(op, t) - Left(op, s)
      && (c.None? ==> acc.None? && f == s && g == t)
  {
    hide ExtractEq, ExprEq, ShapeOf, ConstantFree, Partial, Left;
    ExtractLast(op, acc, s, t);
    LeafLeft(op, s);
    LeafLeft(op, t);
    LeafLeft(op, Unit(op));
    if s == Unit(op) || t == Unit(op) { ConstantEquals(s, t); } else { EqualExactly(s, t); }
  }

  /** Extracting takes exactly the common operands from both sides, and collects something if it takes any. */
  lemma {:induction false} ExtractCount(op: Op, acc: Option<Expr>, s: Expr, t: Expr)
    requires Partial(op, s) && Partial(op, t)
    ensures var (c, f, g) := ExtractEq(op, acc, s, t);
      && Partial(op, f) && Partial(op, g) && SameSpine(op, s, f) && SameSpine(op, t, g)
      && Left(op, f) == Left(op, s) - Left(op, t) && Left(op, g) == Left(op, t) - Left(op, s)
      && (c.None? ==> acc.None? && f == s && g == t)
    decreases Size(s) + Size(t)
  {
    hide ExtractEq, ExprEq, ShapeOf, ConstantFree;
    SizePositive(s); SizePositive(t);
    SameSpineRefl(op, s);
    SameSpineRefl(op, t);
    if IsBin(op, s) {
      SizePositive(s.l); SizePositive(s.r);
      var (c, l, f) := ExtractEq(op, acc, s.l, t);
      var (d, r, g) := ExtractEq(op, c, s.r, f);
      ExtractFirst(op, acc, s, t);
      ExtractCount(op, acc, s.l, t);
      ExtractCount(op, c, s.r, f);
      SameSpineTrans(op, t, f, g);
      Remainders(Left(op, s.l), Left(op, s.r), Left(op, t));
    } else if IsBin(op, t) {
      SizePositive(t.l); SizePositive(t.r);
      var (c, f, l) := ExtractEq(op, acc, s, t.l);
      var (d, g, r) := ExtractEq(op, c, f, t.r);
      ExtractSecond(op, acc, s, t);
      ExtractCount(op, acc, s, t.l);
      ExtractCount(op, c, f, t.r);
      Remainders(Left(op, t.l), Left(op, t.r), Left(op, s));
    } else {
      OperandsExtract(op, acc, s, t);
    }
  }

  /** Without constants among the operands, expr_extract_eq_and and expr_extract_eq_or leave exactly the operands that the
      two sides do not share; a side without any is the unit. */
  lemma ExtractedExactly(op: Op, e1: Expr, e2: Expr)
    requires ConstantFree(e1) && ConstantFree(e2) && !IsYesNo(e1) && !IsYesNo(e2)
    ensures var (_, f1, f2) := ExtractCommon(op, e1, e2);
      var left1, left2 := Parts(op, e1) - Parts(op, e2), Parts(op, e2) - Parts(op, e1);
      && (if left1 == multiset{} then f1 == Unit(op) else !IsYesNo(f1) && Parts(op, f1) == left1)
      && (if left2 == multiset{} then f2 == Unit(op) else !IsYesNo(f2) && Parts(op, f2) == left2)
  {
    hide ExtractEq, ExtractCommon, ExprEq, ShapeOf, ConstantFree, Partial, Left, Parts, EliminateYn;
    FreeIsPartial(op, e1);
    FreeIsPartial(op, e2);
    ExtractCount(op, None, e1, e2);
    WhatRemains(op, ExtractEq(op, None, e1, e2).1);
    WhatRemains(op, ExtractEq(op, None, e1, e2).2);
    CommonCollapsed(op, e1, e2);
  }

  /** Constants are removed from what is left, also where nothing was extracted. */
  lemma CommonCollapsed(op: Op, e1: Expr, e2: Expr)
    requires ConstantFree(e1) && ConstantFree(e2)
    requires var (c, f1, f2) := ExtractEq(op, None, e1, e2); c.None? ==> f1 == e1 && f2 == e2
    ensures ExtractCommon(op, e1, e2).1 == EliminateYn(ExtractEq(op, None, e1, e2).1)
    ensures ExtractCommon(op, e1, e2).2 == EliminateYn(ExtractEq(op, None, e1, e2).2)
  {
    hide ExtractEq, EliminateYn;
    FreeStays(e1);
    FreeStays(e2);
  }
}
