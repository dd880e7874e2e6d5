/** What expr_eliminate_dups achieves (scripts/config/expr.c): when it stops, no two operands of a chain can be joined
    and none contradicts another place of the chain, at any depth. */
module Reduced {
  import opened Exprs
  import opened Simplify
  import opened Spine
  import opened Dups
  import opened EliminateDups
  import opened Equality
  import opened Rearrange

  // ---------- the first pass ----------

  /** The leaf x, compared with the leaf y: they have no join, and x itself has nothing to join inside. */
  ghost predicate Settled(op: Op, x: Expr, y: Expr, n: nat) {
    Join(op, x, y).None? && (x.Bin? ==> Dups1(x.op, x, [], [], n).1 == n)
  }

  /** The leaves x below p and y below q are settled if they are different places. */
  ghost predicate Apart(op: Op, e: Expr, p: Path, q: Path, n: nat, x: Path, y: Path)
    requires OnSpine(op, e, p) && OnSpine(op, e, q)
  {
    var l, r := At(op, e, p), At(op, e, q);
    Leaf(op, l, x) && Leaf(op, r, y) && p + x != q + y ==> Settled(op, At(op, l, x), At(op, r, y), n)
  }

  lemma {:induction false} LeafBelow(op: Op, e: Expr, p: Path, x: Path)
    requires OnSpine(op, e, p) && IsBin(op, At(op, e, p)) && Leaf(op, At(op, e, p), x)
    ensures x != [] && OnSpine(op, e, p + [x[0]]) && Leaf(op, At(op, e, p + [x[0]]), x[1..])
    ensures At(op, At(op, e, p + [x[0]]), x[1..]) == At(op, At(op, e, p), x) && p + x == p + [x[0]] + x[1..]
  {
    assert x != [];
    SpineStep(op, e, p, x[0]);
    assert x == [x[0]] + x[1..];
  }

  /** A first pass that counts nothing has settled all pairs of leaves. */
  lemma {:induction false} Dups1Stuck(op: Op, e: Expr, p: Path, q: Path, n: nat)
    requires OnSpine(op, e, p) && OnSpine(op, e, q) && Dups1(op, e, p, q, n).1 == n
    ensures forall x: Path, y: Path :: Apart(op, e, p, q, n, x, y)
    decreases Size(e), SpineSize(op, At(op, e, p)) + SpineSize(op, At(op, e, q)), 1
  {
    SameSpineRefl(op, e);
    if IsBin(op, At(op, e, p)) {
      Descend(op, e, e, p, q);
      Dups1Stuck(op, e, p + [false], q, n);
      Dups1Stuck(op, e, p + [true], q, n);
      forall x: Path, y: Path ensures Apart(op, e, p, q, n, x, y) {
        if Leaf(op, At(op, e, p), x) {
          LeafBelow(op, e, p, x);
          assert Apart(op, e, p + [x[0]], q, n, x[1..], y);
        }
      }
    } else if IsBin(op, At(op, e, q)) {
      Descend(op, e, e, q, p);
      Dups1Stuck(op, e, p, q + [false], n);
      Dups1Stuck(op, e, p, q + [true], n);
      forall x: Path, y: Path ensures Apart(op, e, p, q, n, x, y) {
        if Leaf(op, At(op, e, q), y) {
          LeafBelow(op, e, q, y);
          assert Apart(op, e, p, q + [y[0]], n, x, y[1..]);
        }
      }
    } else {
      forall x: Path, y: Path ensures Apart(op, e, p, q, n, x, y) {
        if OnSpine(op, At(op, e, p), x) && OnSpine(op, At(op, e, q), y) { assert p + x == p && q + y == q; }
      }
    }
  }

  /** No two operands of the chain e, or of a chain inside it, can be joined. */
  ghost predicate Joinless(e: Expr)
    decreases Size(e)
  {
    e.Bin? ==>
      && (forall x: Path, y: Path :: Leaf(e.op, e, x) && Leaf(e.op, e, y) && x != y ==>
            Join(e.op, At(e.op, e, x), At(e.op, e, y)).None?)
      && (forall x: Path :: Leaf(e.op, e, x) && Size(At(e.op, e, x)) < Size(e) ==> Joinless(At(e.op, e, x)))
  }

  /** A chain has a leaf besides any given one. */
  lemma OtherLeaf(op: Op, e: Expr, x: Path) returns (y: Path)
    requires IsBin(op, e) && Leaf(op, e, x)
    ensures Leaf(op, e, y) && y != x
  {
    var side := !x[0];
    var z := SomeLeaf(op, Child(e, side));
    y := [side] + z;
    assert y[1..] == z;
  }

  lemma SomeLeaf(op: Op, e: Expr) returns (z: Path)
    ensures Leaf(op, e, z)
    decreases e
  {
    if IsBin(op, e) {
      var w := SomeLeaf(op, e.l);
      z := [false] + w;
      assert z[1..] == w;
    } else {
      z := [];
    }
  }

  lemma {:induction false} StuckIsJoinless(e: Expr, n: nat)
    requires e.Bin? && Dups1(e.op, e, [], [], n).1 == n
    ensures Joinless(e)
    decreases Size(e)
  {
    var op := e.op;
    Dups1Stuck(op, e, [], [], n);
    forall x: Path, y: Path | Leaf(op, e, x) && Leaf(op, e, y) && x != y
      ensures Settled(op, At(op, e, x), At(op, e, y), n)
    {
      assert [] + x == x && [] + y == y;
      assert Apart(op, e, [], [], n, x, y);
    }
    forall x: Path | Leaf(op, e, x) && Size(At(op, e, x)) < Size(e)
      ensures Joinless(At(op, e, x))
    {
      var y := OtherLeaf(op, e, x);
      assert Settled(op, At(op, e, x), At(op, e, y), n);
      if At(op, e, x).Bin? { StuckIsJoinless(At(op, e, x), n); }
    }
  }

  // ---------- the second pass ----------

  /** The leaf x is an AND or OR of its own that neither contradicts the place y nor holds a contradiction. */
  ghost predicate Agrees(op: Op, x: Expr, y: Expr, n: nat) {
    x.Bin? ==> !Opposed(op, x, y) && Dups2(x.op, x, [], [], n).1 == n
  }

  /** The leaf x below p agrees with the place y below q if they are different places. */
  ghost predicate Free(op: Op, e: Expr, p: Path, q: Path, n: nat, x: Path, y: Path)
    requires OnSpine(op, e, p) && OnSpine(op, e, q)
  {
    var l, r := At(op, e, p), At(op, e, q);
    Leaf(op, l, x) && OnSpine(op, r, y) && p + x != q + y ==> Agrees(op, At(op, l, x), At(op, r, y), n)
  }

  lemma {:induction false} PlaceBelow(op: Op, e: Expr, p: Path, x: Path)
    requires OnSpine(op, e, p) && x != [] && OnSpine(op, At(op, e, p), x)
    ensures OnSpine(op, e, p + [x[0]]) && OnSpine(op, At(op, e, p + [x[0]]), x[1..])
    ensures At(op, At(op, e, p + [x[0]]), x[1..]) == At(op, At(op, e, p), x) && p + x == p + [x[0]] + x[1..]
  {
    SpineStep(op, e, p, x[0]);
    assert x == [x[0]] + x[1..];
  }

  lemma {:induction false} Dups2LeafStuck(op: Op, e: Expr, p: Path, q: Path, n: nat)
    requires Leaf(op, e, p) && OnSpine(op, e, q) && p != q && Dups2Leaf(op, e, p, q, n).1 == n
    ensures Agrees(op, At(op, e, p), At(op, e, q), n)
  {
    var x := At(op, e, p);
    if x.Bin? {
      LeafPaths(op, e, p, q);
      SmallerLeaf(op, e, p);
      PutSame(op, e, p);
    }
  }

  /** A second pass that counts nothing has found no contradiction. */
  lemma {:induction false} Dups2Stuck(op: Op, e: Expr, p: Path, q: Path, n: nat)
    requires OnSpine(op, e, p) && OnSpine(op, e, q) && Dups2(op, e, p, q, n).1 == n
    ensures forall x: Path, y: Path :: Free(op, e, p, q, n, x, y)
    decreases Size(e), SpineSize(op, At(op, e, p)) + SpineSize(op, At(op, e, q)), 1
  {
    SameSpineRefl(op, e);
    if IsBin(op, At(op, e, p)) {
      Descend(op, e, e, p, q);
      Dups2Stuck(op, e, p + [false], q, n);
      Dups2Stuck(op, e, p + [true], q, n);
      forall x: Path, y: Path ensures Free(op, e, p, q, n, x, y) {
        if Leaf(op, At(op, e, p), x) {
          LeafBelow(op, e, p, x);
          assert Free(op, e, p + [x[0]], q, n, x[1..], y);
        }
      }
    } else {
      if IsBin(op, At(op, e, q)) {
        Descend(op, e, e, q, p);
        Dups2Stuck(op, e, p, q + [false], n);
        Dups2Stuck(op, e, p, q + [true], n);
      }
      if p != q { Dups2LeafStuck(op, e, p, q, n); }
      forall x: Path, y: Path ensures Free(op, e, p, q, n, x, y) {
        if OnSpine(op, At(op, e, p), x) && OnSpine(op, At(op, e, q), y) {
          assert p + x == p;
          if y == [] {
            assert q + y == q;
          } else {
            PlaceBelow(op, e, q, y);
            assert Free(op, e, p, q + [y[0]], n, x, y[1..]);
          }
        }
      }
    }
  }

  /** No operand of the chain e that is an AND or OR of its own contradicts another place of the chain, and the same
      holds inside it. */
  ghost predicate Consistent(e: Expr)
    decreases Size(e)
  {
    e.Bin? ==>
      && (forall x: Path, y: Path :: Leaf(e.op, e, x) && OnSpine(e.op, e, y) && x != y && At(e.op, e, x).Bin? ==>
            !Opposed(e.op, At(e.op, e, x), At(e.op, e, y)))
      && (forall x: Path :: Leaf(e.op, e, x) && Size(At(e.op, e, x)) < Size(e) ==> Consistent(At(e.op, e, x)))
  }

  lemma {:induction false} StuckIsConsistent(e: Expr, n: nat)
    requires e.Bin? && Dups2(e.op, e, [], [], n).1 == n
    ensures Consistent(e)
    decreases Size(e)
  {
    var op := e.op;
    Dups2Stuck(op, e, [], [], n);
    forall x: Path, y: Path | Leaf(op, e, x) && OnSpine(op, e, y) && x != y
      ensures Agrees(op, At(op, e, x), At(op, e, y), n)
    {
      assert [] + x == x && [] + y == y;
      assert Free(op, e, [], [], n, x, y);
    }
    forall x: Path | Leaf(op, e, x) && Size(At(op, e, x)) < Size(e)
      ensures Consistent(At(op, e, x))
    {
      assert Agrees(op, At(op, e, x), At(op, e, []), n);
      if At(op, e, x).Bin? { StuckIsConsistent(At(op, e, x), n); }
    }
  }

  /** The result of duplicate elimination is fully reduced. */
  lemma {:induction false} SimplifiedIsReduced(e: Expr)
    ensures Joinless(Simplified(e)) && Consistent(Simplified(e))
    decreases Size(e)
  {
    var (f, n) := Round(e);
    if n != 0 {
      EliminateYnShrinks(f);
      SimplifiedIsReduced(EliminateYn(f));
    } else if e.Bin? {
      StuckIsJoinless(e, 0);
      StuckIsConsistent(e, 0);
    }
  }

  /** In particular no operand of the chain occurs in it twice, however its own operands are grouped; and not in another
      order either, unless constants are left among them. */
  lemma NoRepeatedOperand(e: Expr, x: Path, y: Path)
    requires var r := Simplified(e); r.Bin? && Leaf(r.op, r, x) && Leaf(r.op, r, y) && x != y
    ensures var r := Simplified(e);
      var f, g := At(r.op, r, x), At(r.op, r, y);
      && f != g && (forall op: Op :: Operands(op, f) != Operands(op, g))
      && (ConstantFree(f) && ConstantFree(g) ==> ShapeOf(f) != ShapeOf(g))
  {
    var r := Simplified(e);
    var f, g := At(r.op, r, x), At(r.op, r, y);
    SimplifiedIsReduced(e);
    ExprEqReflexive(f);
    forall op: Op ensures Operands(op, f) != Operands(op, g) {
      if Operands(op, f) == Operands(op, g) { SameOperandsEqual(op, f, g); }
    }
    if ConstantFree(f) && ConstantFree(g) { EqualExactly(f, g); }
  }

  lemma {:induction false} NnfConstantFree(e: Expr)
    requires IsNnf(e)
    ensures ConstantFree(e) <==> !HasConstantOperand(e)
  {
    match e
    case Bin(_, l, r) => NnfConstantFree(l); NnfConstantFree(r);
    case _ =>
  }

  /** Duplicate elimination brings no constants in. */
  lemma {:induction false} SimplifiedConstantFree(e: Expr)
    requires IsNnf(e) && ConstantFree(e)
    ensures ConstantFree(Simplified(e))
    decreases Size(e)
  {
    var (f, n) := Round(e);
    if n != 0 {
      EliminateYnShrinks(f);
      EliminateYnComplete(f);
      NnfConstantFree(EliminateYn(f));
      SimplifiedConstantFree(EliminateYn(f));
    }
  }

  lemma {:induction false} LeafConstantFree(op: Op, e: Expr, p: Path)
    requires OnSpine(op, e, p) && ConstantFree(e)
    ensures ConstantFree(At(op, e, p))
    decreases p
  {
    if p != [] { LeafConstantFree(op, Child(e, p[0]), p[1..]); }
  }

  /** Simplifying a normal form without constants leaves no operand that is another one rearranged, at any depth of both. */
  lemma NoRearrangedOperand(e: Expr, x: Path, y: Path)
    requires IsNnf(e) && ConstantFree(e)
    requires var r := Simplified(e); r.Bin? && Leaf(r.op, r, x) && Leaf(r.op, r, y) && x != y
    ensures var r := Simplified(e); ShapeOf(At(r.op, r, x)) != ShapeOf(At(r.op, r, y))
  {
    var r := Simplified(e);
    SimplifiedConstantFree(e);
    LeafConstantFree(r.op, r, x);
    LeafConstantFree(r.op, r, y);
    NoRepeatedOperand(e, x, y);
  }

  // ---------- contradictions ----------

  /** Without constants among the operands, the test for a contradiction succeeds exactly if every operand of the negated
      place is an operand of the other one. */
  lemma OpposedExactly(op: Op, x: Expr, y: Expr)
    requires var t := Transform(Not(x)); ConstantFree(t) && ConstantFree(y) && !IsYesNo(t) && !IsYesNo(y)
    ensures Opposed(op, x, y) <==> Parts(op, Transform(Not(x))) <= Parts(op, y)
  {
    var t := Transform(Not(x));
    hide ExtractCommon, Transform, ShapeOf, Parts, ConstantFree;
    ExtractedExactly(op, t, y);
    Removed(Parts(op, y), Parts(op, t));
  }

  /** So in the result no AND or OR inside a chain has its negation spread over another place of it. */
  lemma NoContradictionLeft(e: Expr, x: Path, y: Path)
    requires var r := Simplified(e);
      r.Bin? && Leaf(r.op, r, x) && OnSpine(r.op, r, y) && x != y && At(r.op, r, x).Bin?
    requires var r := Simplified(e);
      var t, f := Transform(Not(At(r.op, r, x))), At(r.op, r, y);
      ConstantFree(t) && ConstantFree(f) && !IsYesNo(t) && !IsYesNo(f)
    ensures var r := Simplified(e);
      !(Parts(r.op, Transform(Not(At(r.op, r, x)))) <= Parts(r.op, At(r.op, r, y)))
  {
    var r := Simplified(e);
    SimplifiedIsReduced(e);
    OpposedExactly(r.op, At(r.op, r, x), At(r.op, r, y));
  }

  // ---------- the order of two operands ----------

  /** A symbol, a comparison, or one of them negated. */
  predicate Plain(e: Expr) { e.Sym? || e.Compare? || (e.Not? && Plain(e.e)) }

  lemma {:induction false} PlainEqual(x: Expr, y: Expr)
    requires Plain(x)
    ensures ExprEq(x, y) <==> x == y
  {
    if x.Not? && y.Not? { PlainEqual(x.e, y.e); }
  }

  /** Plain operands are joined to the same whatever their order, although the source looks at them one after the other
      and treats a negated comparison differently in the two places. */
  lemma JoinSymmetric(op: Op, x: Expr, y: Expr)
    requires Plain(x) && Plain(y)
    ensures Join(op, x, y) == Join(op, y, x)
  {
    PlainEqual(x, y);
    PlainEqual(y, x);
    if x != y {
      if op.AND? { JoinAndSymmetric(x, y); } else { JoinOrSymmetric(x, y); }
    }
  }

  lemma JoinOrSymmetric(x: Expr, y: Expr)
    requires x != y && !ExprEq(x, y) && !ExprEq(y, x)
    ensures JoinOr(x, y) == JoinOr(y, x)
  {
  }

  lemma JoinAndSymmetric(x: Expr, y: Expr)
    requires x != y && !ExprEq(x, y) && !ExprEq(y, x)
    ensures JoinAnd(x, y) == JoinAnd(y, x)
  {
  }

  // ---------- which operands join ----------

  const THREE := {SYM_YES, SYM_MOD, SYM_NO}

  /** Different comparisons of a tristate symbol with y, m or n: by OR exactly two equalities join, to differing from the
      third constant; by AND exactly all others do, two inequalities to the third constant, and an equality with an
      inequality to the equality, or to n if they are about one constant. */
  lemma ComparisonsJoin(s: Symbol, eq1: bool, x: Symbol, eq2: bool, y: Symbol, z: Symbol)
    requires s.Type() == TristateType && x in THREE && y in THREE && (eq1 != eq2 || x != y)
    requires z in THREE && (x != y ==> z != x && z != y)
    ensures var f, g := Compare(eq1, s, x), Compare(eq2, s, y);
      && Join(OR, f, g) == (if eq1 && eq2 then Some(Compare(false, s, z)) else None)
      && Join(AND, f, g) == (if eq1 && eq2 then None
                             else if !eq1 && !eq2 then Some(Compare(true, s, z))
                             else if x == y then Some(Sym(SYM_NO))
                             else Some(Compare(true, s, if eq1 then x else y)))
  {
    assert "y"[0] == 'y' && "m"[0] == 'm' && "n"[0] == 'n';
  }

  /** An equality with any constant and an inequality with any constant: by AND they always join, to n for one and the same
      constant, else to the equality. */
  lemma ConstantsJoin(s: Symbol, c: Symbol, d: Symbol)
    requires s.Type() == TristateType && c.Const? && d.Const?
    ensures var f, g := Compare(true, s, c), Compare(false, s, d);
      Join(AND, f, g) == Join(AND, g, f) == Some(if c == d then Sym(SYM_NO) else f)
  {
  }

  /** A boolean or tristate symbol beside such a comparison of it: by AND they join exactly if the comparison excludes n or
      only m; by OR never. */
  lemma SymbolJoins(s: Symbol, eq: bool, x: Symbol)
    requires s.IsTri() && x in THREE
    ensures var f, g := Sym(s), Compare(eq, s, x);
      && Join(OR, f, g) == None
      && Join(AND, f, g) == (if eq && x == SYM_YES then Some(g) else if !eq && x == SYM_NO then Some(f)
                             else if !eq && x == SYM_MOD then Some(Compare(true, s, SYM_YES)) else None)
  {
    assert "y"[0] == 'y' && "m"[0] == 'm' && "n"[0] == 'n';
  }

  /** A symbol and its negation join by OR exactly if it is boolean, and never by AND. */
  lemma NegationJoins(s: Symbol)
    requires s.IsTri()
    ensures Join(OR, Sym(s), Not(Sym(s))) == if s.Type() == Boolean then Some(Sym(SYM_YES)) else None
    ensures Join(AND, Sym(s), Not(Sym(s))) == None
  {
  }

  /** Operands about different symbols never join. */
  lemma OthersDoNotJoin(op: Op, x: Expr, y: Expr)
    requires Plain(x) && Plain(y) && About(x) != About(y)
    ensures Join(op, x, y) == None
  {
    PlainEqual(x, y);
    AboutJoined(x, y);
  }

  function About(e: Expr): Symbol
    requires Plain(e)
  {
    match e
    case Sym(s) => s
    case Compare(_, l, _) => l
    case Not(f) => About(f)
  }

  lemma AboutJoined(x: Expr, y: Expr)
    requires Plain(x) && Plain(y) && About(x) != About(y)
    ensures JoinedSymbol(x, y).None?
  {
  }
}
