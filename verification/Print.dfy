/** expr_print and its parenthesis rule expr_compare_type (scripts/config/expr.c), for expressions over
    named symbols.  A token is what one call of the output callback receives. */
module Print {
  import opened Exprs

  datatype Token = Name(s: Symbol) | Bang | Equals | Differs | Open | Close | Infix(op: Op)

  datatype Kind = KNone | KOr | KAnd | KNot | KEqual | KUnequal | KSymbol

  function KindOf(e: Expr): Kind {
    match e
    case Sym(_) => KSymbol
    case Not(_) => KNot
    case Compare(equal, _, _) => if equal then KEqual else KUnequal
    case Bin(op, _, _) => OpKind(op)
  }

  function OpKind(op: Op): Kind { if op.AND? then KAnd else KOr }

  /** expr_compare_type(t1, t2) > 0; the cases of the program fall through downwards. */
  predicate Parenthesised(t1: Kind, t2: Kind) {
    t1 != t2 &&
    match t1
    case KEqual => t2 in {KNot, KAnd, KOr, KNone}
    case KUnequal => t2 in {KNot, KAnd, KOr, KNone}
    case KNot => t2 in {KAnd, KOr, KNone}
    case KAnd => t2 in {KOr, KNone}
    case KOr => t2 == KNone
    case _ => false
  }

  function Print(e: Expr, prev: Kind): seq<Token> {
    var body := match e
      case Sym(s) => [Name(s)]
      case Not(f) => [Bang] + Print(f, KNot)
      case Compare(equal, l, r) => [Name(l), if equal then Equals else Differs, Name(r)]
      case Bin(op, l, r) => Print(l, OpKind(op)) + [Infix(op)] + Print(r, OpKind(op));
    if Parenthesised(prev, KindOf(e)) then [Open] + body + [Close] else body
  }

  // ---------- the grouping a reader reconstructs ----------

  /** e with its chains of equal operators nested to the right, ending in t. */
  function Graft(op: Op, e: Expr, t: Expr): Expr
    decreases e, if IsBin(op, e) then 0 else 2
  {
    if IsBin(op, e) then Graft(op, e.l, Graft(op, e.r, t)) else Bin(op, Canonical(e), t)
  }

  function Canonical(e: Expr): Expr
    decreases e, 1
  {
    match e
    case Sym(_) => e
    case Compare(_, _, _) => e
    case Not(f) => Not(Canonical(f))
    case Bin(op, l, r) => Graft(op, l, Canonical(r))
  }

  lemma {:induction false} GraftValue(op: Op, e: Expr, t: Expr, a: Assignment)
    ensures Value(a, Graft(op, e, t)) == op.Apply(Value(a, e), Value(a, t))
    decreases e, if IsBin(op, e) then 0 else 2
  {
    if IsBin(op, e) {
      GraftValue(op, e.r, t, a);
      GraftValue(op, e.l, Graft(op, e.r, t), a);
    } else {
      CanonicalValue(e, a);
    }
  }

  lemma {:induction false} CanonicalValue(e: Expr, a: Assignment)
    ensures Value(a, Canonical(e)) == Value(a, e)
    decreases e, 1
  {
    match e
    case Sym(_) =>
    case Compare(_, _, _) =>
    case Not(f) => CanonicalValue(f, a);
    case Bin(op, l, r) => CanonicalValue(r, a); GraftValue(op, l, Canonical(r), a);
  }

  // ---------- a reader ----------

  /** The result of reading one expression: the tree and the tokens that follow it. */
  datatype Parsed = Fail | Ok(e: Expr, rest: seq<Token>)

  /** Operands of op, separated by op and nested to the right. */
  function ParseChain(op: Op, ts: seq<Token>): (p: Parsed)
    ensures p.Ok? ==> |p.rest| < |ts|
    decreases |ts|, if op.OR? then 3 else 2
  {
    var x := if op.OR? then ParseChain(AND, ts) else ParsePrimary(ts);
    if x.Fail? || x.rest == [] || x.rest[0] != Infix(op) then x
    else
      var y := ParseChain(op, x.rest[1..]);
      if y.Fail? then Fail else Ok(Bin(op, x.e, y.e), y.rest)
  }

  function ParsePrimary(ts: seq<Token>): (p: Parsed)
    ensures p.Ok? ==> |p.rest| < |ts|
    decreases |ts|, 1
  {
    if ts == [] then Fail
    else match ts[0]
      case Bang =>
        var x := ParsePrimary(ts[1..]);
        if x.Fail? then Fail else Ok(Not(x.e), x.rest)
      case Open =>
        var x := ParseChain(OR, ts[1..]);
        if x.Fail? || x.rest == [] || x.rest[0] != Close then Fail else Ok(x.e, x.rest[1..])
      case Name(s) =>
        if |ts| >= 3 && (ts[1] == Equals || ts[1] == Differs) then
          if ts[2].Name? then Ok(Compare(ts[1] == Equals, s, ts[2].s), ts[3..]) else Fail
        else Ok(Sym(s), ts[1..])
      case _ => Fail
  }

  // ---------- reading back what was printed ----------

  /** What may follow a complete primary, and a complete chain of op. */
  predicate EndsPrimary(ts: seq<Token>) { ts == [] || ts[0] == Close || ts[0].Infix? }

  predicate EndsChain(op: Op, ts: seq<Token>) { ts == [] || ts[0] == Close || (op.AND? && ts[0] == Infix(OR)) }

  /** Orders the mutually recursive lemmas below on one expression; each calls the next stage,
      and the starting stage depends on the root of the expression. */
  ghost function Rank(stage: int, e: Expr): nat {
    var start := if !e.Bin? then 3 else if e.op.AND? then 2 else 0;
    5 - (stage - start) % 6
  }

  lemma PrintInChain(op: Op, l: Expr, r: Expr, ts: seq<Token>)
    ensures Print(Bin(op, l, r), OpKind(op)) + ts == Print(l, OpKind(op)) + ([Infix(op)] + (Print(r, OpKind(op)) + ts))
    ensures Print(Bin(op, l, r), KNone) == Print(Bin(op, l, r), OpKind(op))
    ensures Print(Bin(op, l, r), KNot) + ts == [Open] + (Print(Bin(op, l, r), KNone) + ([Close] + ts))
  {
  }

  lemma ReadOpen(us: seq<Token>, e: Expr, ts: seq<Token>)
    requires ParseChain(OR, us) == Ok(e, [Close] + ts)
    ensures ParsePrimary([Open] + us) == Ok(e, ts)
  {
    assert ([Open] + us)[1..] == us && ([Close] + ts)[1..] == ts;
  }

  lemma ReadBang(us: seq<Token>, e: Expr, ts: seq<Token>)
    requires ParsePrimary(us) == Ok(e, ts)
    ensures ParsePrimary([Bang] + us) == Ok(Not(e), ts)
  {
    assert ([Bang] + us)[1..] == us;
  }

  lemma ReadInfix(op: Op, us: seq<Token>, e: Expr, ts: seq<Token>, t: Expr, rest: seq<Token>)
    requires (if op.OR? then ParseChain(AND, us) else ParsePrimary(us)) == Ok(e, [Infix(op)] + ts)
    requires ParseChain(op, ts) == Ok(t, rest)
    ensures ParseChain(op, us) == Ok(Bin(op, e, t), rest)
  {
    assert ([Infix(op)] + ts)[1..] == ts;
  }

  lemma {:induction false} ReadLeaf(e: Expr, ts: seq<Token>)
    requires EndsPrimary(ts) && (e.Sym? || e.Compare?)
    ensures ParsePrimary(Print(e, KNot) + ts) == Ok(Canonical(e), ts)
  {
    if e.Sym? { assert ([Name(e.s)] + ts)[1..] == ts; } else { assert (Print(e, KNot) + ts)[3..] == ts; }
  }

  lemma {:induction false} ReadNot(f: Expr, ts: seq<Token>)
    requires ParsePrimary(Print(f, KNot) + ts) == Ok(Canonical(f), ts)
    ensures ParsePrimary(Print(Not(f), KNot) + ts) == Ok(Canonical(Not(f)), ts)
  {
    ReadBang(Print(f, KNot) + ts, Canonical(f), ts);
    assert Print(Not(f), KNot) + ts == [Bang] + (Print(f, KNot) + ts);
  }

  lemma {:induction false} ReadPrimary(e: Expr, ts: seq<Token>)
    requires EndsPrimary(ts)
    ensures ParsePrimary(Print(e, KNot) + ts) == Ok(Canonical(e), ts)
    decreases e, Rank(2, e)
  {
    match e
    case Sym(_) => ReadLeaf(e, ts);
    case Compare(_, _, _) => ReadLeaf(e, ts);
    case Not(f) =>
      ReadPrimary(f, ts);
      ReadNot(f, ts);
    case Bin(op, l, r) =>
      ReadExpr(e, [Close] + ts);
      PrintInChain(op, l, r, ts);
      ReadOpen(Print(e, KNone) + ([Close] + ts), Canonical(e), ts);
  }

  /** A whole expression, printed without surrounding parentheses. */
  lemma {:induction false} ReadExpr(e: Expr, ts: seq<Token>)
    requires EndsChain(OR, ts)
    ensures ParseChain(OR, Print(e, KNone) + ts) == Ok(Canonical(e), ts)
    decreases e, Rank(3, e)
  {
    assert Print(e, KNone) == Print(e, KOr);
    ReadChain(OR, e, ts);
  }

  lemma {:induction false} ReadChain(op: Op, e: Expr, ts: seq<Token>)
    requires EndsChain(op, ts)
    ensures ParseChain(op, Print(e, OpKind(op)) + ts) == Ok(Canonical(e), ts)
    decreases e, Rank(if op.OR? then 4 else 0, e)
  {
    if IsBin(op, e) {
      ReadChain(op, e.r, ts);
      ReadGraft(op, e.l, Print(e.r, OpKind(op)) + ts, Canonical(e.r), ts);
      PrintInChain(op, e.l, e.r, ts);
    } else {
      ReadOperand(op, e, ts);
    }
  }

  /** An operand of op that is not itself an op. */
  lemma {:induction false} ReadOperand(op: Op, e: Expr, ts: seq<Token>)
    requires !IsBin(op, e) && (if op.OR? then EndsChain(AND, ts) else EndsPrimary(ts))
    ensures var printed := Print(e, OpKind(op)) + ts;
      (if op.OR? then ParseChain(AND, printed) else ParsePrimary(printed)) == Ok(Canonical(e), ts)
    decreases e, Rank(if op.OR? then 5 else 1, e)
  {
    if op.AND? {
      assert Print(e, KAnd) == Print(e, KNot);
      ReadPrimary(e, ts);
    } else {
      assert Print(e, KOr) == Print(e, KAnd);
      ReadChain(AND, e, ts);
    }
  }

  lemma {:induction false} ReadGraft(op: Op, e: Expr, us: seq<Token>, t: Expr, rest: seq<Token>)
    requires ParseChain(op, us) == Ok(t, rest)
    ensures ParseChain(op, Print(e, OpKind(op)) + ([Infix(op)] + us)) == Ok(Graft(op, e, t), rest)
    decreases e, 6
  {
    if IsBin(op, e) {
      ReadGraft(op, e.r, us, t, rest);
      ReadGraft(op, e.l, Print(e.r, OpKind(op)) + ([Infix(op)] + us), Graft(op, e.r, t), rest);
      RegroupChain(op, e.l, e.r, us);
    } else {
      ReadOperand(op, e, [Infix(op)] + us);
      ReadInfix(op, Print(e, OpKind(op)) + ([Infix(op)] + us), Canonical(e), us, t, rest);
    }
  }

  lemma RegroupChain(op: Op, l: Expr, r: Expr, us: seq<Token>)
    ensures Print(Bin(op, l, r), OpKind(op)) + ([Infix(op)] + us)
            == Print(l, OpKind(op)) + ([Infix(op)] + (Print(r, OpKind(op)) + ([Infix(op)] + us)))
  {
    PrintInChain(op, l, r, [Infix(op)] + us);
  }

  lemma {:induction false} PrintGraft(op: Op, e: Expr, t: Expr)
    ensures Print(Graft(op, e, t), OpKind(op)) == Print(e, OpKind(op)) + [Infix(op)] + Print(t, OpKind(op))
    ensures IsBin(op, Graft(op, e, t))
    decreases e, if IsBin(op, e) then 0 else 2
  {
    if IsBin(op, e) {
      PrintGraft(op, e.r, t);
      PrintGraft(op, e.l, Graft(op, e.r, t));
    } else {
      PrintCanonical(e, OpKind(op));
    }
  }

  lemma {:induction false} PrintCanonical(e: Expr, prev: Kind)
    ensures Print(Canonical(e), prev) == Print(e, prev)
    decreases e, 1
  {
    match e
    case Sym(_) =>
    case Compare(_, _, _) =>
    case Not(f) => PrintCanonical(f, KNot);
    case Bin(op, l, r) =>
      PrintCanonical(r, OpKind(op));
      PrintGraft(op, l, Canonical(r));
      var c := Canonical(e);
      assert Print(c, OpKind(op)) == Print(e, OpKind(op));
      assert Print(c, KNone) == Print(c, OpKind(op)) && Print(e, KNone) == Print(e, OpKind(op));
  }

  /** Two expressions are printed alike exactly when they group alike. */
  lemma PrintedAlike(e1: Expr, e2: Expr)
    ensures Print(e1, KNone) == Print(e2, KNone) <==> Canonical(e1) == Canonical(e2)
  {
    ReadExpr(e1, []);
    ReadExpr(e2, []);
    PrintCanonical(e1, KNone);
    PrintCanonical(e2, KNone);
    assert Print(e1, KNone) + [] == Print(e1, KNone) && Print(e2, KNone) + [] == Print(e2, KNone);
  }

  /** The parentheses suffice: what is printed alike has one value in every assignment. */
  lemma PrintUnambiguous(e1: Expr, e2: Expr, a: Assignment)
    requires Print(e1, KNone) == Print(e2, KNone)
    ensures Value(a, e1) == Value(a, e2)
  {
    PrintedAlike(e1, e2);
    CanonicalValue(e1, a);
    CanonicalValue(e2, a);
  }
}