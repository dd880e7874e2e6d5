/** Places inside one expression.  expr_eliminate_dups1 and expr_eliminate_dups2 receive two pointers into
    the SAME expression and rewrite it through both; here such a pointer is a path from the root, and only
    places reached through nodes of one operator (the spine of that operator) occur. */
module Spine {
  import opened Exprs
  import opened Simplify

  /** false steps to the left operand, true to the right one. */
  type Path = seq<bool>

  function Child(e: Expr, b: bool): Expr
    requires e.Bin?
  {
    if b then e.r else e.l
  }

  predicate OnSpine(op: Op, e: Expr, p: Path) {
    p == [] || (IsBin(op, e) && OnSpine(op, Child(e, p[0]), p[1..]))
  }

  function At(op: Op, e: Expr, p: Path): Expr
    requires OnSpine(op, e, p)
  {
    if p == [] then e else At(op, Child(e, p[0]), p[1..])
  }

  /** Storing x at place p. */
  function Put(op: Op, e: Expr, p: Path, x: Expr): Expr
    requires OnSpine(op, e, p)
  {
    if p == [] then x
    else if p[0] then Bin(op, e.l, Put(op, e.r, p[1..], x))
    else Bin(op, Put(op, e.l, p[1..], x), e.r)
  }

  /** A place whose expression does not continue the spine. */
  predicate Leaf(op: Op, e: Expr, p: Path) { OnSpine(op, e, p) && !IsBin(op, At(op, e, p)) }

  /** Both expressions have the same op-nodes. */
  predicate SameSpine(op: Op, e: Expr, f: Expr) {
    if IsBin(op, e) then IsBin(op, f) && SameSpine(op, e.l, f.l) && SameSpine(op, e.r, f.r) else !IsBin(op, f)
  }

  /** The number of op-nodes on the spine. */
  function SpineSize(op: Op, e: Expr): nat {
    if IsBin(op, e) then 1 + SpineSize(op, e.l) + SpineSize(op, e.r) else 0
  }

  lemma SpineStep(op: Op, e: Expr, p: Path, b: bool)
    requires OnSpine(op, e, p) && IsBin(op, At(op, e, p))
    ensures OnSpine(op, e, p + [b])
    ensures At(op, e, p + [b]) == Child(At(op, e, p), b)
    decreases p
  {
    if p == [] {
      assert (p + [b])[1..] == [];
    } else {
      SpineStep(op, Child(e, p[0]), p[1..], b);
      assert (p + [b])[1..] == p[1..] + [b];
    }
  }

  lemma {:induction e} SameSpineRefl(op: Op, e: Expr)
    ensures SameSpine(op, e, e)
  {
  }

  lemma {:induction e, f, g} SameSpineTrans(op: Op, e: Expr, f: Expr, g: Expr)
    requires SameSpine(op, e, f) && SameSpine(op, f, g)
    ensures SameSpine(op, e, g)
  {
  }

  lemma {:induction false} SameSpineAt(op: Op, e: Expr, f: Expr, p: Path)
    requires SameSpine(op, e, f) && OnSpine(op, e, p)
    ensures OnSpine(op, f, p)
    ensures SameSpine(op, At(op, e, p), At(op, f, p))
    decreases p
  {
    if p != [] { SameSpineAt(op, Child(e, p[0]), Child(f, p[0]), p[1..]); }
  }

  lemma {:induction e, f} SameSpineSize(op: Op, e: Expr, f: Expr)
    requires SameSpine(op, e, f)
    ensures SpineSize(op, e) == SpineSize(op, f)
  {
  }

  lemma {:induction false} PutSame(op: Op, e: Expr, p: Path)
    requires OnSpine(op, e, p)
    ensures Put(op, e, p, At(op, e, p)) == e
    decreases p
  {
    if p != [] { PutSame(op, Child(e, p[0]), p[1..]); }
  }

  /** Replacing a leaf of the spine by another leaf. */
  lemma PutLeaf(op: Op, e: Expr, p: Path, x: Expr)
    requires Leaf(op, e, p) && !IsBin(op, x)
    ensures SameSpine(op, e, Put(op, e, p, x))
    ensures Leaf(op, Put(op, e, p, x), p) && At(op, Put(op, e, p, x), p) == x
    ensures Size(Put(op, e, p, x)) == Size(e) - Size(At(op, e, p)) + Size(x)
    ensures At(op, e, p) == x ==> Put(op, e, p, x) == e
    decreases p
  {
    if p != [] {
      SameSpineRefl(op, e.l);
      SameSpineRefl(op, e.r);
      PutLeaf(op, Child(e, p[0]), p[1..], x);
    }
  }

  /** Storing at one leaf leaves every other leaf alone. */
  lemma PutOtherLeaf(op: Op, e: Expr, p: Path, x: Expr, q: Path)
    requires Leaf(op, e, p) && !IsBin(op, x) && Leaf(op, e, q) && p != q
    ensures Leaf(op, Put(op, e, p, x), q) && At(op, Put(op, e, p, x), q) == At(op, e, q)
    decreases p
  {
    if p != [] && q != [] && p[0] == q[0] {
      assert p == [p[0]] + p[1..] && q == [q[0]] + q[1..];
      PutOtherLeaf(op, Child(e, p[0]), p[1..], x, q[1..]);
    }
  }

  lemma ApplyAssoc(op: Op, v: Tristate, w: Tristate, r: Tristate)
    ensures op.Apply(op.Apply(v, w), r) == op.Apply(v, op.Apply(w, r))
  {
  }

  lemma BinValue(op: Op, e: Expr, b: bool, a: Assignment)
    requires IsBin(op, e)
    ensures Value(a, e) == op.Apply(Value(a, Child(e, b)), Value(a, Child(e, !b)))
  {
  }

  /** The value is the value at the place joined with something the place has no part in. */
  lemma {:induction false} SpineValue(op: Op, e: Expr, p: Path, x: Expr, a: Assignment) returns (rest: Tristate)
    requires OnSpine(op, e, p)
    ensures Value(a, e) == op.Apply(Value(a, At(op, e, p)), rest)
    ensures Value(a, Put(op, e, p, x)) == op.Apply(Value(a, x), rest)
    decreases p
  {
    hide Value;
    if p == [] {
      rest := op.Unit();
    } else {
      var next, other := Child(e, p[0]), Child(e, !p[0]);
      var inner := SpineValue(op, next, p[1..], x, a);
      rest := op.Apply(inner, Value(a, other));
      ApplyAssoc(op, Value(a, At(op, next, p[1..])), inner, Value(a, other));
      ApplyAssoc(op, Value(a, x), inner, Value(a, other));
      BinValue(op, e, p[0], a);
      BinValue(op, Put(op, e, p, x), p[0], a);
    }
  }

  /** A constant at a proper place of the spine is a constant operand. */
  lemma {:induction false} ConstantAtPlace(op: Op, e: Expr, p: Path)
    requires OnSpine(op, e, p) && p != []
    requires IsYesNo(At(op, e, p)) || HasConstantOperand(At(op, e, p))
    ensures HasConstantOperand(e)
    decreases p
  {
    if |p| > 1 { ConstantAtPlace(op, Child(e, p[0]), p[1..]); }
  }

  lemma {:induction false} NnfAt(op: Op, e: Expr, p: Path)
    requires OnSpine(op, e, p)
    ensures IsNnf(e) ==> IsNnf(At(op, e, p))
    decreases p
  {
    if p != [] { NnfAt(op, Child(e, p[0]), p[1..]); }
  }

  lemma {:induction false} NnfPut(op: Op, e: Expr, p: Path, x: Expr)
    requires OnSpine(op, e, p)
    ensures IsNnf(e) && IsNnf(x) ==> IsNnf(Put(op, e, p, x))
    decreases p
  {
    if p != [] { NnfPut(op, Child(e, p[0]), p[1..], x); }
  }
}
