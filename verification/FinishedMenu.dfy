/** What the finished menu looks like (menu_finalize in scripts/config/menu.c), said on the conditions and on the original
    tree: the functions of Arrangement keep the preorder, take in exactly the followers that belong below an entry, and
    dissolve exactly the entries without a prompt. */
module FinishedMenu {
  import opened Exprs
  import opened MenuTree
  import opened Forests
  import opened Nesting
  import opened Simplify
  import opened Arrangement
  import opened Configuration
  import Dups
  import Reduced
  import Rearrange
  import Spine

  // ---------- conditions ----------

  /** The dependency of an entry becomes the minimum of its own and of the one handed down, apart from m; a prompt or
      another property is n exactly if its own condition or that dependency is, as long as neither value is m. */
  lemma PlacedValue(above: Option<Expr>, x: Menu, a: Assignment)
    requires a.WellFormed() && OptNnf(above)
    ensures var y := PlacedUnder(above, x);
      && Dups.Settles(Min(OptValue(a, above), OptValue(a, x.dep)), OptValue(a, y.dep))
      && y.prompt.Some? == x.prompt.Some? && |y.others| == |x.others|
      && (x.prompt.Some? ==> ReadsAs(a, y.dep, x.prompt.value, y.prompt.value))
      && (forall i :: 0 <= i < |x.others| ==> ReadsAs(a, y.dep, x.others[i], y.others[i]))
      && (x.prompt.Some? && !ReadAsBoolean(x) ==>
            Dups.Settles(Min(OptValue(a, y.dep), OptValue(a, x.prompt.value)), OptValue(a, y.prompt.value)))
  {
    hide Under, PropUnder;
    var base := Under(above, x.dep);
    UnderValue(above, x.dep, a);
    UnderImplies(above, x.dep, a);
    if x.prompt.Some? {
      PropReads(base, x.sym, x.prompt.value, a);
      if !ReadAsBoolean(x) { Unread(base, x.sym, x.prompt.value, a); }
    }
    forall i | 0 <= i < |x.others| ensures ReadsAs(a, base, x.others[i], PropUnder(base, x.sym, x.others[i])) {
      PropReads(base, x.sym, x.others[i], a);
    }
  }

  /** The condition d stands for both base and c: it is n if one of them is, and not n if neither is n or m. */
  predicate ReadsAs(a: Assignment, base: Option<Expr>, c: Option<Expr>, d: Option<Expr>) {
    && (Min(OptValue(a, base), OptValue(a, c)) == NO ==> OptValue(a, d) == NO)
    && (Min(OptValue(a, base), OptValue(a, c)) == YES ==> OptValue(a, d) != NO)
  }

  lemma PropReads(base: Option<Expr>, sym: Option<Symbol>, c: Option<Expr>, a: Assignment)
    requires a.WellFormed() && OptNnf(base)
    ensures ReadsAs(a, base, c, PropUnder(base, sym, c))
  {
    hide Under, PropUnder;
    PropUnderValue(base, sym, c, a);
    UnderValue(base, c, a);
  }

  /** The conditions of the properties of the entry are read as booleans: it has a symbol that is not tristate. */
  predicate ReadAsBoolean(x: Menu) { x.sym.Some? && x.sym.value.Type() != TristateType }

  lemma Unread(base: Option<Expr>, sym: Option<Symbol>, c: Option<Expr>, a: Assignment)
    requires a.WellFormed() && (sym.None? || sym.value.Type() == TristateType)
    ensures Dups.Settles(Min(OptValue(a, base), OptValue(a, c)), OptValue(a, PropUnder(base, sym, c)))
  {
    UnderValue(base, c, a);
  }

  /** No operands of it can be joined, and none contradicts another place. */
  ghost predicate FullyReduced(c: Option<Expr>) { c.Some? ==> Reduced.Joinless(c.value) && Reduced.Consistent(c.value) }

  /** A placed dependency is fully reduced, and so is the prompt's condition; of an entry that is read as a boolean, no
      condition but the dependency asks whether a tristate symbol is not n. */
  lemma PlacedReduced(above: Option<Expr>, x: Menu, c: Option<Expr>)
    requires var y := PlacedUnder(above, x); y.prompt == Some(c) || c in y.others
    ensures FullyReduced(PlacedUnder(above, x).dep)
    ensures if ReadAsBoolean(x) then c.Some? ==> !HasNotNo(c.value) else FullyReduced(c)
  {
    hide Under, FullyReduced;
    var base, y := Under(above, x.dep), PlacedUnder(above, x);
    UnderReduced(above, x.dep);
    if y.prompt == Some(c) {
      PropReduced(base, x, x.prompt.value);
    } else {
      var i :| 0 <= i < |y.others| && y.others[i] == c;
      PropReduced(base, x, x.others[i]);
    }
  }

  lemma UnderReduced(above: Option<Expr>, e: Option<Expr>)
    ensures FullyReduced(Under(above, e))
  {
    var both := AllocAnd(above, OptTransform(e));
    if both.Some? { Reduced.SimplifiedIsReduced(both.value); }
  }

  lemma PropReduced(base: Option<Expr>, x: Menu, e: Option<Expr>)
    ensures var c := PropUnder(base, x.sym, e); if ReadAsBoolean(x) then c.Some? ==> !HasNotNo(c.value) else FullyReduced(c)
  {
    hide Under, FullyReduced;
    UnderReduced(base, e);
    var dep := Under(base, e);
    if dep.Some? { TransBoolFixpoints(dep.value); }
  }

  // ---------- the preorder ----------

  /** In the preorder an entry is followed at once by all that is below it, and only then by what stands after it at its own
      level. */
  lemma {:induction false} BelowFollows(f: Forest, id: Id, kids: Forest, rest: Forest) returns (before: seq<Id>)
    requires Tail(Cons(id, kids, rest), f)
    ensures Preorder(f) == before + ([id] + Preorder(kids) + Preorder(rest))
  {
    if f == Cons(id, kids, rest) {
      before := [];
    } else {
      before := BelowFollows(f.rest, id, kids, rest);
      AppendSeqs([f.id] + Preorder(f.kids), before, [id] + Preorder(kids) + Preorder(rest));
      before := [f.id] + Preorder(f.kids) + before;
    }
  }

  lemma {:induction false} FlattenedPreorder(g: Nodes, f: Forest)
    ensures Preorder(Flattened(g, f)) == Preorder(f)
    decreases Count(f)
  {
    if f != Nil {
      AppendPreorder(f.kids, f.rest);
      if f.kids != Nil && f.id in g && !Prompted(g[f.id]) {
        FlattenedPreorder(g, Append(f.kids, f.rest));
        AppendSeqs([f.id], Preorder(f.kids), Preorder(f.rest));
        assert Preorder(Nil) == [] && [f.id] + [] == [f.id];
      } else {
        FlattenedPreorder(g, f.rest);
      }
    }
  }

  lemma {:induction false} FinishedPreorder(g: Nodes, x: Id, before: Forest, after: Forest)
    ensures var (k, r) := Finished(g, x, before, after);
      Preorder(k) + Preorder(r) == Preorder(before) + Preorder(after) && Tail(r, after)
    decreases Count(before) + Count(after), 2
  {
    GatheredPreorder(g, x, before, after);
    FlattenedPreorder(g, Gathered(g, x, before, after).0);
  }

  lemma {:induction false} GatheredPreorder(g: Nodes, x: Id, before: Forest, after: Forest)
    ensures var (k, r) := Gathered(g, x, before, after);
      Preorder(k) + Preorder(r) == Preorder(before) + Preorder(after) && Tail(r, after)
    decreases Count(before) + Count(after), 1
  {
    if before != Nil {
      FinishedAllPreorder(g, before);
    } else if x in g && g[x].sym.Some? {
      TakenPreorder(g, x, after);
    }
  }

  lemma {:induction false} FinishedAllPreorder(g: Nodes, f: Forest)
    ensures Preorder(FinishedAll(g, f)) == Preorder(f)
    decreases Count(f), 0
  {
    if f != Nil {
      var (k, r) := Finished(g, f.id, f.kids, f.rest);
      FinishedPreorder(g, f.id, f.kids, f.rest);
      FinishedAllPreorder(g, r);
      AppendSeqs([f.id], Preorder(k), Preorder(r));
      AppendSeqs([f.id], Preorder(f.kids), Preorder(f.rest));
    }
  }

  lemma {:induction false} TakenPreorder(g: Nodes, x: Id, f: Forest)
    ensures var (k, r) := TakenFrom(g, x, f);
      Preorder(k) + Preorder(r) == Preorder(f) && Tail(r, f)
    decreases Count(f), 0
  {
    if f == Nil || x !in g || f.id !in g || !Belongs(g[x], g[f.id]) {
      assert Preorder(Nil) == [] && [] + Preorder(f) == Preorder(f);
    } else {
      var (k, r) := Finished(g, f.id, f.kids, f.rest);
      var (more, left) := TakenFrom(g, x, r);
      FinishedPreorder(g, f.id, f.kids, f.rest);
      TakenPreorder(g, x, r);
      TailTrans(left, r, f.rest);
      AppendSeqs([f.id], Preorder(f.kids), Preorder(f.rest));
      AppendSeqs([f.id], Preorder(k), Preorder(r));
      AppendSeqs([f.id] + Preorder(k), Preorder(more), Preorder(left));
    }
  }

  // ---------- what is taken in ----------

  /** id is at the top of f, and it and all entries before it there go below x. */
  predicate AllGoBelow(g: Nodes, x: Id, f: Forest, id: Id) {
    match f
    case Nil => false
    case Cons(i, _, rest) => x in g && i in g && Belongs(g[x], g[i]) && (i == id || AllGoBelow(g, x, rest, id))
  }

  lemma {:induction false} GoBelowLater(g: Nodes, x: Id, f: Forest, later: Forest, id: Id)
    requires AllGoBelow(g, x, f, id) && Tail(later, f) && Distinct(f)
    ensures AllGoBelow(g, x, later, id) || id !in Ids(later)
  {
    if later != f {
      TailIds(later, f.rest);
      if f.id != id { GoBelowLater(g, x, f.rest, later, id); }
    }
  }

  lemma {:induction false} TailIds(later: Forest, f: Forest)
    requires Tail(later, f)
    ensures Ids(later) <= Ids(f) && (Distinct(f) ==> Distinct(later))
  {
    if later != f { TailIds(later, f.rest); }
  }

  lemma {:induction false} GoBelowIsIn(g: Nodes, x: Id, f: Forest, id: Id)
    requires AllGoBelow(g, x, f, id)
    ensures id in Ids(f)
  {
    if f.id != id { GoBelowIsIn(g, x, f.rest, id); }
  }

  lemma SameMembers(a: seq<Id>, b: seq<Id>, c: seq<Id>, d: seq<Id>)
    requires a + b == c + d
    ensures forall id :: id in a || id in b <==> id in c || id in d
  {
    forall id ensures id in a || id in b <==> id in a + b {}
    forall id ensures id in c || id in d <==> id in c + d {}
  }

  /** The entries of both parts are those of the whole. */
  lemma SplitIds(k: Forest, r: Forest, before: Forest, after: Forest)
    requires Preorder(k) + Preorder(r) == Preorder(before) + Preorder(after)
    ensures Ids(k) + Ids(r) == Ids(before) + Ids(after)
  {
    hide Preorder, Ids;
    PreorderIds(k); PreorderIds(r); PreorderIds(before); PreorderIds(after);
    SameMembers(Preorder(k), Preorder(r), Preorder(before), Preorder(after));
  }

  /** Every entry that goes below x, with all those between them, ends up below x. */
  lemma {:induction false} AllTaken(g: Nodes, x: Id, f: Forest, id: Id)
    requires AllGoBelow(g, x, f, id) && Distinct(f)
    ensures id in Ids(TakenFrom(g, x, f).0)
    decreases Count(f)
  {
    if f.id != id {
      var (k, r) := Finished(g, f.id, f.kids, f.rest);
      FinishedPreorder(g, f.id, f.kids, f.rest);
      SplitIds(k, r, f.kids, f.rest);
      TailIds(r, f.rest);
      GoBelowIsIn(g, x, f.rest, id);
      GoBelowLater(g, x, f.rest, r, id);
      if AllGoBelow(g, x, r, id) { AllTaken(g, x, r, id); }
    }
  }

  /** Only entries that go below x are taken in directly, and the first that is left does not. */
  lemma {:induction false} OnlyThese(g: Nodes, x: Id, f: Forest)
    ensures var (k, r) := TakenFrom(g, x, f);
      && (forall id :: id in Roots(k) ==> x in g && id in g && Belongs(g[x], g[id]))
      && (r != Nil && x in g && r.id in g ==> !Belongs(g[x], g[r.id]))
    decreases Count(f)
  {
    if f != Nil && x in g && f.id in g && Belongs(g[x], g[f.id]) {
      var (k, r) := Finished(g, f.id, f.kids, f.rest);
      OnlyThese(g, x, r);
    }
  }

  // ---------- what is dissolved ----------

  /** id is at the top of f, with these children. */
  predicate AtTop(f: Forest, id: Id, kids: Forest) {
    f != Nil && ((f.id == id && f.kids == kids) || AtTop(f.rest, id, kids))
  }

  lemma {:induction f} AtTopAppend(f: Forest, g: Forest, id: Id, kids: Forest)
    ensures AtTop(Append(f, g), id, kids) <==> AtTop(f, id, kids) || AtTop(g, id, kids)
  {
  }

  /** An entry with a prompt keeps its children; one without hands them over to its own level, where they follow it and are
      dissolved in turn. */
  lemma {:induction false} Dissolved(g: Nodes, f: Forest, id: Id, kids: Forest)
    requires AtTop(f, id, kids) && id in g
    ensures AtTop(Flattened(g, f), id, if Prompted(g[id]) then kids else Nil)
    decreases Count(f)
  {
    AppendPreorder(f.kids, f.rest);
    if !(f.id == id && f.kids == kids) {
      if f.kids != Nil && f.id in g && !Prompted(g[f.id]) {
        AtTopAppend(f.kids, f.rest, id, kids);
        Dissolved(g, Append(f.kids, f.rest), id, kids);
      } else {
        Dissolved(g, f.rest, id, kids);
      }
    }
  }

  lemma {:induction false} HandedOver(g: Nodes, f: Forest, id: Id, kids: Forest, c: Id, below: Forest)
    requires AtTop(f, id, kids) && id in g && !Prompted(g[id]) && AtTop(kids, c, below) && c in g
    ensures AtTop(Flattened(g, f), c, if Prompted(g[c]) then below else Nil)
    decreases Count(f)
  {
    AppendPreorder(f.kids, f.rest);
    if f.id == id && f.kids == kids {
      AtTopAppend(kids, f.rest, c, below);
      Dissolved(g, Append(kids, f.rest), c, below);
    } else if f.kids != Nil && f.id in g && !Prompted(g[f.id]) {
      AtTopAppend(f.kids, f.rest, id, kids);
      HandedOver(g, Append(f.kids, f.rest), id, kids, c, below);
    } else {
      HandedOver(g, f.rest, id, kids, c, below);
    }
  }

  lemma {:induction false} FlattenedRoots(g: Nodes, f: Forest)
    ensures Roots(f) <= Roots(Flattened(g, f)) && (Flattened(g, f) == Nil <==> f == Nil)
    decreases Count(f)
  {
    if f != Nil {
      AppendPreorder(f.kids, f.rest);
      if f.kids != Nil && f.id in g && !Prompted(g[f.id]) {
        FlattenedRoots(g, Append(f.kids, f.rest));
      } else {
        FlattenedRoots(g, f.rest);
      }
    }
  }

  // ---------- one entry and those that follow it ----------

  /** An entry with a symbol and without children, followed by an entry that goes below it: that one becomes its child, and
      so does every later one, or a descendant, up to the first that does not go below. */
  lemma FollowersTakenIn(g: Nodes, x: Id, after: Forest, id: Id)
    requires x in g && g[x].sym.Some? && Distinct(after) && AllGoBelow(g, x, after, id)
    ensures after.id in Roots(Finished(g, x, Nil, after).0)
    ensures id in Ids(Finished(g, x, Nil, after).0)
  {
    var kids := TakenFrom(g, x, after).0;
    AllTaken(g, x, after, id);
    FlattenedRoots(g, kids);
    FlattenedPreorder(g, kids);
    PreorderIds(kids);
    PreorderIds(Flattened(g, kids));
  }

  /** An entry that has children of its own, or no symbol, takes in nothing: it keeps the entries that were below it. */
  lemma OthersTakeNothing(g: Nodes, x: Id, before: Forest, after: Forest)
    requires before != Nil || x !in g || g[x].sym.None?
    ensures Preorder(Finished(g, x, before, after).0) == Preorder(before) && Finished(g, x, before, after).1 == after
  {
    FlattenedPreorder(g, Gathered(g, x, before, after).0);
    FinishedAllPreorder(g, before);
  }

  /** The condition e decides where the entry goes: that of its prompt, or without a prompt its dependency. */
  predicate Decides(x: Menu, e: Expr) { if x.prompt.Some? then x.prompt.value == Some(e) else x.dep == Some(e) }

  /** Exactly when an entry goes below another one, as long as no constants are among the operands: an operand of its condition
      is the symbol above, or it mentions that symbol and the prompt there is always visible, or, having several operands, it
      has all those of the prompt. */
  lemma BelongsExactly(x: Menu, y: Menu, e: Expr)
    requires x.sym.Some? && Decides(y, e)
    requires var cond := if x.prompt.Some? then x.prompt.value else None;
      Rearrange.ConstantFree(NotNo(Some(e))) && Rearrange.ConstantFree(NotNo(cond))
    ensures var s, cond := x.sym.value, if x.prompt.Some? then x.prompt.value else None;
      Belongs(x, y) <==>
        && Mentions(e, s)
        && (|| (exists p: Spine.Path :: Spine.Leaf(AND, e, p) && RestsOn(Spine.At(AND, e, p), s))
            || NotNo(cond) == Sym(SYM_YES)
            || (IsBin(AND, NotNo(Some(e))) && Rearrange.Parts(AND, NotNo(cond)) <= Rearrange.Parts(AND, NotNo(Some(e)))))
  {
    hide NotNo, Nests;
    NestsExactly(x.sym.value, if x.prompt.Some? then x.prompt.value else None, Some(e));
  }

  /** In particular if an operand of its condition, at any place, is the symbol or asks that it be not n. */
  lemma DependingFollower(g: Nodes, x: Id, after: Forest, e: Expr, p: Spine.Path)
    requires x in g && g[x].sym.Some? && after != Nil && after.id in g && Distinct(after)
    requires Decides(g[after.id], e) && Spine.Leaf(AND, e, p) && RestsOn(Spine.At(AND, e, p), g[x].sym.value)
    ensures after.id in Roots(Finished(g, x, Nil, after).0)
  {
    NestsWithOperand(g[x].sym.value, PromptCondition(g[x]), Condition(g[after.id]), p);
    FollowersTakenIn(g, x, after, after.id);
  }

  /** At a finished level, an entry with a symbol that has no children is not followed by one that goes below it. */
  predicate Tight(g: Nodes, f: Forest) {
    match f
    case Nil => true
    case Cons(id, kids, rest) =>
      (kids == Nil && rest != Nil && id in g && rest.id in g && g[id].sym.Some? ==> !Belongs(g[id], g[rest.id])) && Tight(g, rest)
  }

  lemma {:induction false} LevelsAreTight(g: Nodes, f: Forest)
    ensures Tight(g, FinishedAll(g, f))
    decreases Count(f)
  {
    if f != Nil {
      var (k, r) := Finished(g, f.id, f.kids, f.rest);
      LevelsAreTight(g, r);
      FlattenedRoots(g, Gathered(g, f.id, f.kids, f.rest).0);
      OnlyThese(g, f.id, f.rest);
      FirstStays(g, f.kids);
      FirstStays(g, r);
    }
  }

  lemma FirstStays(g: Nodes, f: Forest)
    ensures f == Nil <==> FinishedAll(g, f) == Nil
    ensures f != Nil ==> FinishedAll(g, f).id == f.id
  {
  }

  // ---------- at any depth ----------

  /** Somewhere in f, d follows c directly, and c has no children. */
  predicate Follows(f: Forest, c: Id, d: Id) {
    f != Nil && ((f.id == c && f.kids == Nil && f.rest != Nil && f.rest.id == d) || Follows(f.kids, c, d) || Follows(f.rest, c, d))
  }

  /** Somewhere in f, d is a child of c. */
  predicate ChildOf(f: Forest, c: Id, d: Id) {
    f != Nil && ((f.id == c && d in Roots(f.kids)) || ChildOf(f.kids, c, d) || ChildOf(f.rest, c, d))
  }

  /** d goes below c, and c keeps its children. */
  predicate GoesBelow(g: Nodes, c: Id, d: Id) {
    c in g && d in g && g[c].sym.Some? && Prompted(g[c]) && Belongs(g[c], g[d])
  }

  lemma {:induction f} ChildOfAppend(f: Forest, g: Forest, c: Id, d: Id)
    ensures ChildOf(Append(f, g), c, d) <==> ChildOf(f, c, d) || ChildOf(g, c, d)
  {
  }

  lemma {:induction false} FlattenedKeepsChild(g: Nodes, f: Forest, c: Id, d: Id)
    requires ChildOf(f, c, d) && c in g && Prompted(g[c])
    ensures ChildOf(Flattened(g, f), c, d)
    decreases Count(f)
  {
    AppendPreorder(f.kids, f.rest);
    if f.kids != Nil && f.id in g && !Prompted(g[f.id]) {
      ChildOfAppend(f.kids, f.rest, c, d);
      FlattenedKeepsChild(g, Append(f.kids, f.rest), c, d);
    } else if ChildOf(f.rest, c, d) {
      FlattenedKeepsChild(g, f.rest, c, d);
    }
  }

  lemma FirstTaken(g: Nodes, x: Id, f: Forest)
    requires x in g && f != Nil && f.id in g && Belongs(g[x], g[f.id])
    ensures TakenFrom(g, x, f).0 != Nil && TakenFrom(g, x, f).0.id == f.id
  {
  }

  lemma {:induction false} FinishedNests(g: Nodes, x: Id, before: Forest, after: Forest, c: Id, d: Id)
    requires GoesBelow(g, c, d) && Follows(Cons(x, before, after), c, d)
    ensures var (k, r) := Finished(g, x, before, after); ChildOf(Cons(x, k, Nil), c, d) || Follows(r, c, d)
    decreases Count(before) + Count(after), 2
  {
    var (kids, r) := Gathered(g, x, before, after);
    if before != Nil {
      if Follows(before, c, d) {
        FinishedAllNests(g, before, c, d);
        FlattenedKeepsChild(g, kids, c, d);
      }
    } else if x in g && g[x].sym.Some? {
      if x == c && after != Nil && after.id == d {
        assert kids == TakenFrom(g, x, after).0;
        FirstTaken(g, x, after);
        FlattenedRoots(g, kids);
        assert d in Roots(kids);
      } else {
        TakenNests(g, x, after, c, d);
        if ChildOf(kids, c, d) { FlattenedKeepsChild(g, kids, c, d); }
      }
    }
  }

  lemma {:induction false} FinishedAllNests(g: Nodes, f: Forest, c: Id, d: Id)
    requires GoesBelow(g, c, d) && Follows(f, c, d)
    ensures ChildOf(FinishedAll(g, f), c, d)
    decreases Count(f), 0
  {
    var (k, r) := Finished(g, f.id, f.kids, f.rest);
    FinishedNests(g, f.id, f.kids, f.rest, c, d);
    if Follows(r, c, d) { FinishedAllNests(g, r, c, d); }
  }

  lemma {:induction false} TakenNests(g: Nodes, x: Id, f: Forest, c: Id, d: Id)
    requires GoesBelow(g, c, d) && Follows(f, c, d)
    ensures var (k, r) := TakenFrom(g, x, f); ChildOf(k, c, d) || Follows(r, c, d)
    decreases Count(f), 0
  {
    if x in g && f.id in g && Belongs(g[x], g[f.id]) {
      var (k, r) := Finished(g, f.id, f.kids, f.rest);
      FinishedNests(g, f.id, f.kids, f.rest, c, d);
      if Follows(r, c, d) { TakenNests(g, x, r, c, d); }
    }
  }

  /** Wherever in the menu an entry with a symbol and a prompt, and without children, is followed by one that goes below it,
      the second is a child of the first in the finished menu. */
  lemma NestedAnywhere(g: Nodes, root: Id, f: Forest, c: Id, d: Id)
    requires GoesBelow(g, c, d) && Follows(f, c, d)
    ensures ChildOf(Finished(g, root, f, Nil).0, c, d)
  {
    var (k, r) := Gathered(g, root, f, Nil);
    FinishedAllNests(g, f, c, d);
    FlattenedKeepsChild(g, k, c, d);
  }

  /** In particular if an operand of the second one's condition is the first one's symbol. */
  lemma DependingAnywhere(g: Nodes, root: Id, f: Forest, c: Id, d: Id, e: Expr, p: Spine.Path)
    requires c in g && d in g && g[c].sym.Some? && Prompted(g[c]) && Follows(f, c, d)
    requires Decides(g[d], e) && Spine.Leaf(AND, e, p) && RestsOn(Spine.At(AND, e, p), g[c].sym.value)
    ensures ChildOf(Finished(g, root, f, Nil).0, c, d)
  {
    NestsWithOperand(g[c].sym.value, PromptCondition(g[c]), Condition(g[d]), p);
    NestedAnywhere(g, root, f, c, d);
  }
}
