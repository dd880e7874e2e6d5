/** expr_join_or, expr_join_and and expr_eliminate_dups (scripts/config/expr.c). */
module Dups {
  import opened Exprs
  import opened Simplify
  import opened Spine

  // ---------- joining two operands ----------

  predicate Simple(e: Expr) { !e.Bin? }

  function LeftSymbol(e: Expr): Option<Symbol> {
    match e
    case Sym(s) => Some(s)
    case Compare(_, l, _) => Some(l)
    case _ => None
  }

  /** The symbol the first operand of a join is about. */
  function JoinSymbol1(e: Expr): Option<Symbol> { if e.Not? then LeftSymbol(e.e) else LeftSymbol(e) }

  /** The second operand of a join may only negate a symbol. */
  function JoinSymbol2(e: Expr): Option<Symbol> {
    if e.Not? then (if e.e.Sym? then Some(e.e.s) else None) else LeftSymbol(e)
  }

  /** Both operands are comparisons of the given kind whose right sides are the two given constants. */
  predicate BothCompare(e1: Expr, e2: Expr, equal: bool, x: Symbol, y: Symbol) {
    && e1.Compare? && e2.Compare? && e1.equal == equal && e2.equal == equal
    && ((e1.right == x && e2.right == y) || (e1.right == y && e2.right == x))
  }

  /** One operand is the plain symbol, the other compares it with x. */
  predicate SymbolAndCompare(e1: Expr, e2: Expr, equal: bool, x: Symbol) {
    || (e1.Sym? && e2.Compare? && e2.equal == equal && e2.right == x)
    || (e2.Sym? && e1.Compare? && e1.equal == equal && e1.right == x)
  }

  predicate NegatedSymbol(e: Expr) { e.Not? && e.e.Sym? }

  /** The symbol both operands are about, when the join rules apply to it. */
  function JoinedSymbol(e1: Expr, e2: Expr): Option<Symbol> {
    if !Simple(e1) || !Simple(e2) then None
    else
      var s1 := JoinSymbol1(e1);
      if s1.None? || s1 != JoinSymbol2(e2) || !s1.value.IsTri() then None else s1
  }

  /** expr_join_or. */
  function JoinOr(e1: Expr, e2: Expr): Option<Expr> {
    if ExprEq(e1, e2) then Some(e1)
    else if JoinedSymbol(e1, e2).None? then None
    else
      var s := JoinedSymbol(e1, e2).value;
      if s.Type() == TristateType && BothCompare(e1, e2, true, SYM_YES, SYM_MOD) then Some(Compare(false, s, SYM_NO))
      else if s.Type() == TristateType && BothCompare(e1, e2, true, SYM_YES, SYM_NO) then Some(Compare(false, s, SYM_MOD))
      else if s.Type() == TristateType && BothCompare(e1, e2, true, SYM_MOD, SYM_NO) then Some(Compare(false, s, SYM_YES))
      else if s.Type() == Boolean && ((NegatedSymbol(e1) && e2.Sym?) || (NegatedSymbol(e2) && e1.Sym?)) then Some(Sym(SYM_YES))
      else None
  }

  /** expr_join_and. */
  function JoinAnd(e1: Expr, e2: Expr): Option<Expr> {
    if ExprEq(e1, e2) then Some(e1)
    else if JoinedSymbol(e1, e2).None? then None
    else
      var s := JoinedSymbol(e1, e2).value;
      if SymbolAndCompare(e1, e2, true, SYM_YES) then Some(Compare(true, s, SYM_YES))
      else if SymbolAndCompare(e1, e2, false, SYM_NO) then Some(Sym(s))
      else if SymbolAndCompare(e1, e2, false, SYM_MOD) then Some(Compare(true, s, SYM_YES))
      else if s.Type() != TristateType then None
      else if e1.Compare? && e1.equal && e2.Compare? && !e2.equal && e1.right.Const? && e2.right.Const? then
        Some(if e1.right != e2.right then Compare(true, s, e1.right) else Sym(SYM_NO))
      else if e1.Compare? && !e1.equal && e2.Compare? && e2.equal && e1.right.Const? && e2.right.Const? then
        Some(if e2.right != e1.right then Compare(true, s, e2.right) else Sym(SYM_NO))
      else if BothCompare(e1, e2, false, SYM_YES, SYM_NO) then Some(Compare(true, s, SYM_MOD))
      else if BothCompare(e1, e2, false, SYM_YES, SYM_MOD) then Some(Compare(true, s, SYM_NO))
      else if BothCompare(e1, e2, false, SYM_MOD, SYM_NO) then Some(Compare(true, s, SYM_YES))
      else None
  }

  function Join(op: Op, e1: Expr, e2: Expr): Option<Expr> {
    if op.AND? then JoinAnd(e1, e2) else JoinOr(e1, e2)
  }

  function YesIf(b: bool): Tristate { if b then YES else NO }

  /** Comparing a boolean or tristate symbol with y, m or n reads off its value. */
  lemma CompareConstants(s: Symbol, equal: bool, a: Assignment)
    requires a.WellFormed() && s.IsTri()
    ensures Value(a, Compare(equal, s, SYM_YES)) == YesIf((a.Tri(s) == YES) == equal)
    ensures Value(a, Compare(equal, s, SYM_MOD)) == YesIf((a.Tri(s) == MOD) == equal)
    ensures Value(a, Compare(equal, s, SYM_NO)) == YesIf((a.Tri(s) == NO) == equal)
    ensures s.Type() == Boolean ==> a.Tri(s) != MOD
  {
    assert a.Tri(s) == a.val(s).tri;
    assert "y"[0] == 'y' && "m"[0] == 'm' && "n"[0] == 'n';
  }

  /** A symbol equal to one constant differs from every other. */
  lemma CompareTwoConstants(s: Symbol, x: Symbol, y: Symbol, a: Assignment)
    requires a.WellFormed() && x.Const? && y.Const?
    ensures Min(Value(a, Compare(true, s, x)), Value(a, Compare(false, s, y)))
            == if x == y then NO else Value(a, Compare(true, s, x))
  {
    assert a.val(Const(x.name)).text == x.name && a.val(Const(y.name)).text == y.name;
  }

  lemma JoinOrValue(e1: Expr, e2: Expr, a: Assignment)
    requires a.WellFormed() && !ExprEq(e1, e2) && JoinOr(e1, e2).Some?
    ensures Value(a, JoinOr(e1, e2).value) == Max(Value(a, e1), Value(a, e2))
  {
    hide ExprEq;
    var s := JoinedSymbol(e1, e2).value;
    if s.Type() == TristateType {
      assert e1 == Compare(true, s, e1.right) && e2 == Compare(true, s, e2.right);
      CompareConstants(s, true, a);
      CompareConstants(s, false, a);
    } else {
      assert {e1, e2} == {Sym(s), Not(Sym(s))};
      assert a.Tri(s) == a.val(s).tri;
    }
  }

  lemma JoinAndSymbolValue(e1: Expr, e2: Expr, a: Assignment)
    requires a.WellFormed() && !ExprEq(e1, e2) && JoinAnd(e1, e2).Some?
    requires !e1.Compare? || !e2.Compare?
    ensures Value(a, JoinAnd(e1, e2).value) == Min(Value(a, e1), Value(a, e2))
  {
    hide ExprEq;
    var s := JoinedSymbol(e1, e2).value;
    CompareConstants(s, true, a);
    CompareConstants(s, false, a);
  }

  lemma JoinAndCompareValue(e1: Expr, e2: Expr, a: Assignment)
    requires a.WellFormed() && !ExprEq(e1, e2) && JoinAnd(e1, e2).Some?
    requires e1.Compare? && e2.Compare?
    ensures Value(a, JoinAnd(e1, e2).value) == Min(Value(a, e1), Value(a, e2))
  {
    hide ExprEq;
    var s := JoinedSymbol(e1, e2).value;
    if e1.equal && !e2.equal {
      CompareTwoConstants(s, e1.right, e2.right, a);
      assert a.Tri(SYM_NO) == NO;
    } else if !e1.equal && e2.equal {
      CompareTwoConstants(s, e2.right, e1.right, a);
      assert a.Tri(SYM_NO) == NO;
    } else {
      CompareConstants(s, true, a);
      CompareConstants(s, false, a);
    }
  }

  /** A join stands for both operands together. */
  lemma JoinValue(op: Op, e1: Expr, e2: Expr, a: Assignment)
    requires a.WellFormed() && Join(op, e1, e2).Some?
    ensures Value(a, Join(op, e1, e2).value) == op.Apply(Value(a, e1), Value(a, e2))
  {
    if ExprEq(e1, e2) { ExprEqSound(e1, e2, a); }
    else if op.OR? { JoinOrValue(e1, e2, a); }
    else if e1.Compare? && e2.Compare? { JoinAndCompareValue(e1, e2, a); }
    else { JoinAndSymbolValue(e1, e2, a); }
  }

  lemma JoinShape(op: Op, e1: Expr, e2: Expr)
    requires Join(op, e1, e2).Some?
    ensures 1 + Size(Join(op, e1, e2).value) <= Size(e1) + Size(e2)
    ensures !IsBin(op, e1) ==> !IsBin(op, Join(op, e1, e2).value)
    ensures IsNnf(e1) && IsNnf(e2) ==> IsNnf(Join(op, e1, e2).value)
  {
    SizePositive(e1); SizePositive(e2);
  }

  // ---------- one pass over all pairs of operands ----------

  /** What one pass does to the tree and the rewrite counter: nothing, or it leaves a constant operand behind. */
  ghost predicate Progress(e: Expr, n: nat, f: Expr, m: nat) {
    (f == e && m == n) || (m > n && HasConstantOperand(f))
  }

  /** The pair of leaves at p and q is replaced by a unit and their join, if they have one. */
  function JoinAt(op: Op, e: Expr, p: Path, q: Path, n: nat): (r: (Expr, nat))
    requires Leaf(op, e, p) && Leaf(op, e, q) && p != q
    ensures SameSpine(op, e, r.0) && Size(r.0) <= Size(e) && Progress(e, n, r.0, r.1) && (IsNnf(e) ==> IsNnf(r.0))
  {
    match Join(op, At(op, e, p), At(op, e, q))
    case None => SameSpineRefl(op, e); (e, n)
    case Some(t) =>
      JoinAtShape(op, e, p, q, t);
      (Put(op, Put(op, e, p, Unit(op)), q, t), n + 1)
  }

  lemma JoinAtShape(op: Op, e: Expr, p: Path, q: Path, t: Expr)
    requires Leaf(op, e, p) && Leaf(op, e, q) && p != q
    requires Join(op, At(op, e, p), At(op, e, q)) == Some(t)
    ensures var f := Put(op, e, p, Unit(op));
      && OnSpine(op, f, q) && SameSpine(op, e, Put(op, f, q, t))
      && Size(Put(op, f, q, t)) <= Size(e)
      && HasConstantOperand(Put(op, f, q, t))
      && (IsNnf(e) ==> IsNnf(Put(op, f, q, t)))
  {
    var f := Put(op, e, p, Unit(op));
    NnfAt(op, e, p);
    NnfAt(op, e, q);
    NnfPut(op, e, p, Unit(op));
    JoinShape(op, At(op, e, p), At(op, e, q));
    PutLeaf(op, e, p, Unit(op));
    PutOtherLeaf(op, e, p, Unit(op), q);
    PutLeaf(op, f, q, t);
    PutOtherLeaf(op, f, q, t, p);
    SameSpineTrans(op, e, f, Put(op, f, q, t));
    LeafPaths(op, e, p, q);
    ConstantAtPlace(op, Put(op, f, q, t), p);
    NnfPut(op, f, q, t);
  }

  lemma LeafPaths(op: Op, e: Expr, p: Path, q: Path)
    requires Leaf(op, e, p) && OnSpine(op, e, q) && p != q
    ensures p != []
  {
  }

  /** A leaf that is itself an AND or OR has been rewritten to f, with counter m. */
  lemma RewrittenLeaf(op: Op, e: Expr, p: Path, f: Expr, n: nat, m: nat)
    requires Leaf(op, e, p) && p != []
    requires !IsBin(op, f) && Size(f) <= Size(At(op, e, p)) && Progress(At(op, e, p), n, f, m)
    requires IsNnf(At(op, e, p)) ==> IsNnf(f)
    ensures var g := Put(op, e, p, f);
      && SameSpine(op, e, g) && Size(g) <= Size(e) && Progress(e, n, g, m) && Leaf(op, g, p) && At(op, g, p) == f
      && (IsNnf(e) ==> IsNnf(g))
  {
    PutLeaf(op, e, p, f);
    NnfAt(op, e, p);
    NnfPut(op, e, p, f);
    if HasConstantOperand(f) { ConstantAtPlace(op, Put(op, e, p, f), p); }
  }

  /** Stepping from an op-node to its operands, before and after a rewrite that keeps the spine. */
  lemma Descend(op: Op, e: Expr, f: Expr, p: Path, q: Path)
    requires SameSpine(op, e, f) && OnSpine(op, e, p) && IsBin(op, At(op, e, p)) && OnSpine(op, e, q)
    ensures OnSpine(op, f, p + [false]) && OnSpine(op, f, p + [true]) && OnSpine(op, f, q)
    ensures SpineSize(op, At(op, f, p + [false])) < SpineSize(op, At(op, e, p))
    ensures SpineSize(op, At(op, f, p + [true])) < SpineSize(op, At(op, e, p))
    ensures SpineSize(op, At(op, f, q)) == SpineSize(op, At(op, e, q))
  {
    SameSpineAt(op, e, f, p);
    SameSpineAt(op, e, f, q);
    SpineStep(op, f, p, false);
    SpineStep(op, f, p, true);
    SameSpineSize(op, At(op, e, p), At(op, f, p));
    SameSpineSize(op, At(op, e, q), At(op, f, q));
  }

  /** expr_eliminate_dups1 with both of its pointers in e, at p and q. */
  function Dups1(op: Op, e: Expr, p: Path, q: Path, n: nat): (r: (Expr, nat))
    requires OnSpine(op, e, p) && OnSpine(op, e, q)
    ensures SameSpine(op, e, r.0) && Size(r.0) <= Size(e) && Progress(e, n, r.0, r.1) && (IsNnf(e) ==> IsNnf(r.0))
    decreases Size(e), SpineSize(op, At(op, e, p)) + SpineSize(op, At(op, e, q)), 1
  {
    SameSpineRefl(op, e);
    if IsBin(op, At(op, e, p)) then
      Descend(op, e, e, p, q);
      var (f, m) := Dups1(op, e, p + [false], q, n);
      Descend(op, e, f, p, q);
      var r := Dups1(op, f, p + [true], q, m);
      SameSpineTrans(op, e, f, r.0);
      r
    else if IsBin(op, At(op, e, q)) then
      Descend(op, e, e, q, p);
      var (f, m) := Dups1(op, e, p, q + [false], n);
      Descend(op, e, f, q, p);
      var r := Dups1(op, f, p, q + [true], m);
      SameSpineTrans(op, e, f, r.0);
      r
    else if p == q then (e, n)
    else
      var (f, m) := Dups1Leaf(op, e, p, q, n);
      var r := JoinAt(op, f, p, q, m);
      SameSpineTrans(op, e, f, r.0);
      r
  }

  /** The leaf at p, if it is an AND or OR of its own, is passed over first. */
  function Dups1Leaf(op: Op, e: Expr, p: Path, q: Path, n: nat): (r: (Expr, nat))
    requires Leaf(op, e, p) && Leaf(op, e, q) && p != q
    ensures SameSpine(op, e, r.0) && Size(r.0) <= Size(e) && Progress(e, n, r.0, r.1) && (IsNnf(e) ==> IsNnf(r.0))
    ensures Leaf(op, r.0, p) && Leaf(op, r.0, q)
    decreases Size(e), 0, 0
  {
    SameSpineRefl(op, e);
    var x := At(op, e, p);
    if !x.Bin? then (e, n)
    else
      LeafPaths(op, e, p, q);
      SmallerLeaf(op, e, p);
      var (f, m) := Dups1(x.op, x, [], [], n);
      RewrittenLeaf(op, e, p, f, n, m);
      PutOtherLeaf(op, e, p, f, q);
      (Put(op, e, p, f), m)
  }

  lemma {:induction false} SmallerLeaf(op: Op, e: Expr, p: Path)
    requires OnSpine(op, e, p) && p != []
    ensures Size(At(op, e, p)) < Size(e)
    decreases p
  {
    if |p| > 1 { SmallerLeaf(op, Child(e, p[0]), p[1..]); }
  }

  lemma JoinAtValue(op: Op, e: Expr, p: Path, q: Path, n: nat, a: Assignment)
    requires a.WellFormed() && Leaf(op, e, p) && Leaf(op, e, q) && p != q
    ensures Value(a, JoinAt(op, e, p, q, n).0) == Value(a, e)
  {
    if Join(op, At(op, e, p), At(op, e, q)).Some? {
      var t := Join(op, At(op, e, p), At(op, e, q)).value;
      var f := Put(op, e, p, Unit(op));
      PutLeaf(op, e, p, Unit(op));
      PutOtherLeaf(op, e, p, Unit(op), q);
      var rest1 := SpineValue(op, e, p, Unit(op), a);
      var rest2 := SpineValue(op, f, q, t, a);
      JoinValue(op, At(op, e, p), At(op, e, q), a);
      Regroup(op, Value(a, At(op, e, p)), Value(a, At(op, e, q)), rest2, rest2);
      assert Value(a, Unit(op)) == op.Unit();
    }
  }

  /** The first pass keeps the value in every well-formed assignment. */
  lemma {:induction false} Dups1Value(op: Op, e: Expr, p: Path, q: Path, n: nat, a: Assignment)
    requires a.WellFormed() && OnSpine(op, e, p) && OnSpine(op, e, q)
    ensures Value(a, Dups1(op, e, p, q, n).0) == Value(a, e)
    decreases Size(e), SpineSize(op, At(op, e, p)) + SpineSize(op, At(op, e, q)), 1
  {
    SameSpineRefl(op, e);
    if IsBin(op, At(op, e, p)) {
      Descend(op, e, e, p, q);
      var (f, m) := Dups1(op, e, p + [false], q, n);
      Descend(op, e, f, p, q);
      Dups1Value(op, e, p + [false], q, n, a);
      Dups1Value(op, f, p + [true], q, m, a);
    } else if IsBin(op, At(op, e, q)) {
      Descend(op, e, e, q, p);
      var (f, m) := Dups1(op, e, p, q + [false], n);
      Descend(op, e, f, q, p);
      Dups1Value(op, e, p, q + [false], n, a);
      Dups1Value(op, f, p, q + [true], m, a);
    } else if p != q {
      var (f, m) := Dups1Leaf(op, e, p, q, n);
      Dups1LeafValue(op, e, p, q, n, a);
      JoinAtValue(op, f, p, q, m, a);
    }
  }

  lemma {:induction false} Dups1LeafValue(op: Op, e: Expr, p: Path, q: Path, n: nat, a: Assignment)
    requires a.WellFormed() && Leaf(op, e, p) && Leaf(op, e, q) && p != q
    ensures Value(a, Dups1Leaf(op, e, p, q, n).0) == Value(a, e)
    decreases Size(e), 0, 0
  {
    var x := At(op, e, p);
    if x.Bin? {
      LeafPaths(op, e, p, q);
      SmallerLeaf(op, e, p);
      Dups1Value(x.op, x, [], [], n, a);
      var rest := SpineValue(op, e, p, Dups1(x.op, x, [], [], n).0, a);
    }
  }

  // ---------- contradictions and tautologies ----------

  /** The rewriting keeps every value but the middle one. */
  ghost predicate Settles(v: Tristate, w: Tristate) { v != MOD ==> w == v }

  /** Whether the operand x cannot hold together with (AND) or must hold beside (OR) the place y:
      everything in the negation of x is also in y. */
  predicate Opposed(op: Op, x: Expr, y: Expr) {
    var (_, left, _) := ExtractCommon(op, Transform(Not(x)), y);
    left == Unit(op)
  }

  /** The place at p, compared with the place at q after the leaf was passed over itself. */
  function OpposeAt(op: Op, e: Expr, p: Path, q: Path, n: nat): (r: (Expr, nat))
    requires Leaf(op, e, p) && At(op, e, p).Bin? && OnSpine(op, e, q) && p != q
    ensures SameSpine(op, e, r.0) && Size(r.0) <= Size(e) && Progress(e, n, r.0, r.1) && (IsNnf(e) ==> IsNnf(r.0))
  {
    SameSpineRefl(op, e);
    if !Opposed(op, At(op, e, p), At(op, e, q)) then (e, n)
    else
      LeafPaths(op, e, p, q);
      SizePositive(At(op, e, p));
      PutLeaf(op, e, p, Absorbing(op));
      NnfPut(op, e, p, Absorbing(op));
      ConstantAtPlace(op, Put(op, e, p, Absorbing(op)), p);
      (Put(op, e, p, Absorbing(op)), n + 1)
  }

  /** expr_eliminate_dups2 with both of its pointers in e, at p and q.  Unlike the first pass it goes on
      with the whole place q after its operands. */
  function Dups2(op: Op, e: Expr, p: Path, q: Path, n: nat): (r: (Expr, nat))
    requires OnSpine(op, e, p) && OnSpine(op, e, q)
    ensures SameSpine(op, e, r.0) && Size(r.0) <= Size(e) && Progress(e, n, r.0, r.1) && (IsNnf(e) ==> IsNnf(r.0))
    decreases Size(e), SpineSize(op, At(op, e, p)) + SpineSize(op, At(op, e, q)), 1
  {
    SameSpineRefl(op, e);
    if IsBin(op, At(op, e, p)) then
      Descend(op, e, e, p, q);
      var (f, m) := Dups2(op, e, p + [false], q, n);
      Descend(op, e, f, p, q);
      var r := Dups2(op, f, p + [true], q, m);
      SameSpineTrans(op, e, f, r.0);
      r
    else if IsBin(op, At(op, e, q)) then
      Descend(op, e, e, q, p);
      var (f, m) := Dups2(op, e, p, q + [false], n);
      Descend(op, e, f, q, p);
      var (g, k) := Dups2(op, f, p, q + [true], m);
      SameSpineTrans(op, e, f, g);
      SameSpineAt(op, e, g, p);
      SameSpineAt(op, e, g, q);
      var r := Dups2Leaf(op, g, p, q, k);
      SameSpineTrans(op, e, g, r.0);
      r
    else Dups2Leaf(op, e, p, q, n)
  }

  function Dups2Leaf(op: Op, e: Expr, p: Path, q: Path, n: nat): (r: (Expr, nat))
    requires Leaf(op, e, p) && OnSpine(op, e, q)
    ensures SameSpine(op, e, r.0) && Size(r.0) <= Size(e) && Progress(e, n, r.0, r.1) && (IsNnf(e) ==> IsNnf(r.0))
    decreases Size(e), 0, 0
  {
    SameSpineRefl(op, e);
    var x := At(op, e, p);
    if p == q || !x.Bin? then (e, n)
    else
      LeafPaths(op, e, p, q);
      SmallerLeaf(op, e, p);
      var (f, m) := Dups2(x.op, x, [], [], n);
      RewrittenLeaf(op, e, p, f, n, m);
      var g := Put(op, e, p, f);
      SameSpineAt(op, e, g, q);
      var r := OpposeAt(op, g, p, q, m);
      SameSpineTrans(op, e, g, r.0);
      r
  }

  lemma OpposedValue(op: Op, x: Expr, y: Expr, a: Assignment)
    requires a.WellFormed() && Opposed(op, x, y)
    ensures op.Apply(Value(a, y), Negate(Value(a, x))) == Value(a, y)
  {
    ExtractCommonSplits(op, Transform(Not(x)), y, a);
    TransformValue(Not(x), a);
    assert Value(a, Unit(op)) == op.Unit();
  }

  lemma OpposeAtValue(op: Op, e: Expr, p: Path, q: Path, n: nat, a: Assignment)
    requires a.WellFormed() && Leaf(op, e, p) && At(op, e, p).Bin? && OnSpine(op, e, q) && p != q
    ensures Settles(Value(a, e), Value(a, OpposeAt(op, e, p, q, n).0))
  {
    if Opposed(op, At(op, e, p), At(op, e, q)) {
      OpposedValue(op, At(op, e, p), At(op, e, q), a);
      var rest1 := SpineValue(op, e, p, Absorbing(op), a);
      var rest2 := SpineValue(op, e, q, Absorbing(op), a);
      assert Value(a, Absorbing(op)) == op.Dual().Unit();
    }
  }

  lemma {:induction false} Dups2Value(op: Op, e: Expr, p: Path, q: Path, n: nat, a: Assignment)
    requires a.WellFormed() && OnSpine(op, e, p) && OnSpine(op, e, q)
    ensures Settles(Value(a, e), Value(a, Dups2(op, e, p, q, n).0))
    decreases Size(e), SpineSize(op, At(op, e, p)) + SpineSize(op, At(op, e, q)), 1
  {
    SameSpineRefl(op, e);
    if IsBin(op, At(op, e, p)) {
      Descend(op, e, e, p, q);
      var (f, m) := Dups2(op, e, p + [false], q, n);
      Descend(op, e, f, p, q);
      Dups2Value(op, e, p + [false], q, n, a);
      Dups2Value(op, f, p + [true], q, m, a);
    } else if IsBin(op, At(op, e, q)) {
      Descend(op, e, e, q, p);
      var (f, m) := Dups2(op, e, p, q + [false], n);
      Descend(op, e, f, q, p);
      var (g, k) := Dups2(op, f, p, q + [true], m);
      SameSpineTrans(op, e, f, g);
      SameSpineAt(op, e, g, p);
      SameSpineAt(op, e, g, q);
      Dups2Value(op, e, p, q + [false], n, a);
      Dups2Value(op, f, p, q + [true], m, a);
      Dups2LeafValue(op, g, p, q, k, a);
    } else {
      Dups2LeafValue(op, e, p, q, n, a);
    }
  }

  lemma {:induction false} Dups2LeafValue(op: Op, e: Expr, p: Path, q: Path, n: nat, a: Assignment)
    requires a.WellFormed() && Leaf(op, e, p) && OnSpine(op, e, q)
    ensures Settles(Value(a, e), Value(a, Dups2Leaf(op, e, p, q, n).0))
    decreases Size(e), 0, 0
  {
    SameSpineRefl(op, e);
    var x := At(op, e, p);
    if p != q && x.Bin? {
      LeafPaths(op, e, p, q);
      SmallerLeaf(op, e, p);
      var (f, m) := Dups2(x.op, x, [], [], n);
      RewrittenLeaf(op, e, p, f, n, m);
      var g := Put(op, e, p, f);
      SameSpineAt(op, e, g, q);
      Dups2Value(x.op, x, [], [], n, a);
      var rest := SpineValue(op, e, p, f, a);
      OpposeAtValue(op, g, p, q, m, a);
    }
  }
}
