/** The rewrite-until-stable loop expr_eliminate_dups (scripts/config/expr.c). */
module EliminateDups {
  import opened Exprs
  import opened Simplify
  import opened Spine
  import opened Dups

  /** One round: both passes over an AND or OR, counting the rewrites. */
  function Round(e: Expr): (r: (Expr, nat))
    ensures Size(r.0) <= Size(e)
    ensures Progress(e, 0, r.0, r.1)
    ensures IsNnf(e) ==> IsNnf(r.0)
  {
    if !e.Bin? then (e, 0)
    else
      var (f, n) := Dups1(e.op, e, [], [], 0);
      Dups2(e.op, f, [], [], n)
  }

  /** What the loop computes.  Every round that counts a rewrite shrinks the tree. */
  function Simplified(e: Expr): (r: Expr)
    ensures Size(r) <= Size(e)
    ensures IsNnf(e) ==> IsNnf(r)
    decreases Size(e)
  {
    var (f, n) := Round(e);
    if n == 0 then f
    else
      EliminateYnShrinks(f);
      Simplified(EliminateYn(f))
  }

  lemma RoundValue(e: Expr, a: Assignment)
    requires a.WellFormed()
    ensures Settles(Value(a, e), Value(a, Round(e).0))
  {
    if e.Bin? {
      var (f, n) := Dups1(e.op, e, [], [], 0);
      Dups1Value(e.op, e, [], [], 0, a);
      Dups2Value(e.op, f, [], [], n, a);
    }
  }

  /** Duplicate elimination keeps the value y and the value n of every expression in every well-formed
      assignment; only the middle value may change. */
  lemma {:induction false} SimplifiedValue(e: Expr, a: Assignment)
    requires a.WellFormed()
    ensures Settles(Value(a, e), Value(a, Simplified(e)))
    decreases Size(e)
  {
    var (f, n) := Round(e);
    RoundValue(e, a);
    if n != 0 {
      EliminateYnShrinks(f);
      EliminateYnValue(f, a);
      SimplifiedValue(EliminateYn(f), a);
    }
  }

  /** In a two-valued assignment nothing changes, for every expression without the constant m. */
  lemma SimplifiedTwoValued(e: Expr, a: Assignment)
    requires a.WellFormed() && a.TwoValued() && !ConstantM(e)
    ensures Value(a, Simplified(e)) == Value(a, e)
  {
    TwoValuedExpr(e, a);
    SimplifiedValue(e, a);
  }

  /** The result is stable: another call returns it unchanged. */
  lemma {:induction false} SimplifiedIdempotent(e: Expr)
    ensures Simplified(Simplified(e)) == Simplified(e)
    decreases Size(e)
  {
    var (f, n) := Round(e);
    if n != 0 {
      EliminateYnShrinks(f);
      SimplifiedIdempotent(EliminateYn(f));
    }
  }

  /** No round finds a contradiction or tautology to remove. */
  predicate NoContradiction(e: Expr)
    decreases Size(e)
  {
    var (f, n) := if e.Bin? then Dups1(e.op, e, [], [], 0) else (e, 0);
    (e.Bin? ==> Dups2(e.op, f, [], [], n).1 == n) &&
    (n != 0 ==>
       (EliminateYnShrinks(f);
        NoContradiction(EliminateYn(f))))
  }

  /** Then all three values are kept: only the removal of contradictions can lose m. */
  lemma {:induction false} SimplifiedExact(e: Expr, a: Assignment)
    requires a.WellFormed() && NoContradiction(e)
    ensures Value(a, Simplified(e)) == Value(a, e)
    decreases Size(e)
  {
    var (f, n) := if e.Bin? then Dups1(e.op, e, [], [], 0) else (e, 0);
    if e.Bin? {
      Dups1Value(e.op, e, [], [], 0, a);
      assert Round(e) == (f, n);
    }
    if n != 0 {
      EliminateYnShrinks(f);
      EliminateYnValue(f, a);
      SimplifiedExact(EliminateYn(f), a);
    }
  }

  // ---------- where the middle value is lost ----------

  const A := Config("A", TristateType)

  /** (A || n) && !A */
  const CONTRADICTION := Bin(AND, Bin(OR, Sym(A), Sym(SYM_NO)), Not(Sym(A)))

  /** Every tristate symbol is m, every other one n, and modules are enabled. */
  const ALL_MODULES := Assignment(
    (s: Symbol) => match s
      case Const(n) => Val(if s == SYM_YES then YES else if s == SYM_MOD then MOD else NO, n)
      case Config(_, t) => Val(if t == TristateType then MOD else NO, ""),
    SYM_YES)

  /** The places of a tree with two leaves. */
  lemma TwoLeaves(op: Op, l: Expr, r: Expr)
    requires !IsBin(op, l) && !IsBin(op, r)
    ensures var e := Bin(op, l, r);
      && [] + [false] == [false] && [] + [true] == [true]
      && OnSpine(op, e, [false]) && At(op, e, [false]) == l
      && OnSpine(op, e, [true]) && At(op, e, [true]) == r
  {
    var e := Bin(op, l, r);
    assert [false][1..] == [] && [true][1..] == [];
  }

  /** The first pass does nothing to two plain operands without a join. */
  lemma NothingToJoin(op: Op, l: Expr, r: Expr, n: nat)
    requires !IsBin(op, l) && !IsBin(op, r) && Join(op, l, r).None? && Join(op, r, l).None?
    requires l.Bin? ==> Dups1(l.op, l, [], [], n) == (l, n)
    requires !r.Bin?
    ensures Dups1(op, Bin(op, l, r), [], [], n) == (Bin(op, l, r), n)
  {
    var e := Bin(op, l, r);
    TwoLeaves(op, l, r);
    PutLeaf(op, e, [false], l);
    assert Dups1(op, e, [false], [false], n) == (e, n);
    assert Dups1Leaf(op, e, [false], [true], n) == (e, n);
    assert Dups1(op, e, [false], [true], n) == (e, n);
    assert Dups1(op, e, [false], [], n) == (e, n);
    assert Dups1Leaf(op, e, [true], [false], n) == (e, n);
    assert Dups1(op, e, [true], [false], n) == (e, n);
    assert Dups1(op, e, [true], [true], n) == (e, n);
    assert Dups1(op, e, [true], [], n) == (e, n);
  }

  /** The second pass does nothing to two symbols. */
  lemma NothingToOppose(op: Op, l: Expr, r: Expr, n: nat)
    requires !l.Bin? && !r.Bin?
    ensures Dups2(op, Bin(op, l, r), [], [], n) == (Bin(op, l, r), n)
  {
    var e := Bin(op, l, r);
    TwoLeaves(op, l, r);
    forall p, q | p in {[false], [true]} && q in {[false], [true]}
      ensures OnSpine(op, e, p) && OnSpine(op, e, q) && Dups2(op, e, p, q, n) == (e, n)
    {
    }
    assert Dups2(op, e, [false], [], n) == (e, n);
    assert Dups2(op, e, [true], [], n) == (e, n);
  }

  lemma ContradictionOpposed()
    ensures Opposed(AND, CONTRADICTION.l, CONTRADICTION.r)
  {
    var notA := Not(Sym(A));
    assert Transform(notA) == notA && Transform(Not(Sym(SYM_NO))) == Sym(SYM_YES);
    assert Transform(Bin(AND, notA, Not(Sym(SYM_NO)))) == Bin(AND, notA, Sym(SYM_YES));
    assert Transform(Not(CONTRADICTION.l)) == Bin(AND, notA, Sym(SYM_YES));
    assert ExtractEq(AND, None, notA, notA) == (Some(notA), Sym(SYM_YES), Sym(SYM_YES));
    assert ExtractEq(AND, Some(notA), Sym(SYM_YES), Sym(SYM_YES)).1 == Sym(SYM_YES);
    assert ExtractEq(AND, None, Bin(AND, notA, Sym(SYM_YES)), notA).1 == Bin(AND, Sym(SYM_YES), Sym(SYM_YES));
  }

  lemma ContradictionSimplifies()
    ensures Simplified(CONTRADICTION) == Sym(SYM_NO)
  {
    var e := CONTRADICTION;
    var l, r := e.l, e.r;
    var f := Bin(AND, Sym(SYM_NO), r);
    NothingToJoin(OR, l.l, l.r, 0);
    NothingToJoin(AND, l, r, 0);
    NothingToOppose(OR, l.l, l.r, 0);
    TwoLeaves(AND, l, r);
    PutLeaf(AND, e, [false], l);
    ContradictionOpposed();
    assert Put(AND, e, [false], Sym(SYM_NO)) == f;
    assert Dups2(AND, e, [false], [false], 0) == (e, 0);
    assert Dups2(AND, e, [false], [true], 0) == (f, 1);
    TwoLeaves(AND, Sym(SYM_NO), r);
    assert Dups2(AND, e, [false], [], 0) == (f, 1);
    assert Dups2(AND, f, [true], [], 1) == (f, 1);
    assert Dups2(AND, e, [], [], 0) == (f, 1);
    assert Round(e) == (f, 1);
  }

  /** A tristate value m is not safe: this expression is m before and n after. */
  lemma MiddleValueLost()
    ensures ALL_MODULES.WellFormed()
    ensures Value(ALL_MODULES, CONTRADICTION) == MOD
    ensures Value(ALL_MODULES, Simplified(CONTRADICTION)) == NO
  {
    ContradictionSimplifies();
  }

  /** The exact condition on the value: y and n are kept for all expressions, m is not. */
  lemma KeptValues(v: Tristate)
    ensures (forall e: Expr, a: Assignment :: a.WellFormed() && Value(a, e) == v ==> Value(a, Simplified(e)) == v)
            <==> v != MOD
  {
    if v != MOD {
      forall e: Expr, a: Assignment | a.WellFormed() && Value(a, e) == v
        ensures Value(a, Simplified(e)) == v
      {
        SimplifiedValue(e, a);
      }
    } else {
      MiddleValueLost();
    }
  }

  // ---------- the loop ----------

  /** The program counts rewrites in one global variable. */
  class Simplifier {
    var transCount: nat

    constructor ()
      ensures transCount == 0
    {
      transCount := 0;
    }

    method EliminateDups(e: Expr) returns (r: Expr)
      modifies this
      ensures r == Simplified(e)
      ensures transCount == old(transCount)
    {
      var oldCount := transCount;
      r := e;
      while true
        invariant Simplified(r) == Simplified(e)
        decreases Size(r)
      {
        transCount := 0;
        if r.Bin? {
          var op := r.op;
          var (f, n) := Dups1(op, r, [], [], transCount);
          transCount := n;
          var (g, m) := Dups2(op, f, [], [], transCount);
          r, transCount := g, m;
        }
        if transCount == 0 { break; }
        EliminateYnShrinks(r);
        r := EliminateYn(r);
      }
      transCount := oldCount;
    }
  }
}