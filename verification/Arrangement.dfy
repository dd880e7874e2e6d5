/** What menu_finalize (scripts/config/menu.c) makes of a menu, as functions of the original tree: first the conditions of
    all entries, then where each entry goes. */
module Arrangement {
  import opened Exprs
  import opened MenuTree
  import opened Forests
  import opened Nesting
  import opened Simplify

  // ---------- conditions ----------

  /** The condition that decides about nesting. */
  function Condition(x: Menu): Option<Expr> { if x.prompt.Some? then x.prompt.value else x.dep }

  function PromptCondition(x: Menu): Option<Expr> { if x.prompt.Some? then x.prompt.value else None }

  /** What the children of x are placed under. */
  function ParentDep(x: Menu): Option<Expr> { if x.prompt.Some? then x.prompt.value else x.dep }

  /** An entry with its conditions placed under above. */
  function PlacedUnder(above: Option<Expr>, x: Menu): Menu {
    var base := Under(above, x.dep);
    x.(dep := base,
       prompt := if x.prompt.Some? then Some(PropUnder(base, x.sym, x.prompt.value)) else None,
       others := seq(|x.others|, i requires 0 <= i < |x.others| => PropUnder(base, x.sym, x.others[i])))
  }

  /** The entries with their final conditions: every one is placed under its original parent, from the top down. */
  ghost function Goal(m: Nodes, p: Id, f: Forest): Nodes
    decreases f
  {
    match f
    case Nil => m
    case Cons(id, kids, rest) =>
      if id !in m || p !in m then m
      else Goal(Goal(m[id := PlacedUnder(ParentDep(m[p]), m[id])], id, kids), p, rest)
  }

  /** An entry without its links. */
  function Bare(x: Menu): Menu { x.(list := None, next := None, parent := None) }

  /** The entry has its final conditions. */
  predicate Final(m: Nodes, g: Nodes, id: Id) { id in m && id in g && Bare(m[id]) == Bare(g[id]) }

  ghost predicate AllFinal(m: Nodes, g: Nodes, ids: set<Id>) { forall id :: id in ids ==> Final(m, g, id) }

  /** The forest below p is still to be placed, and will then have its final conditions. */
  predicate Ahead(m: Nodes, g: Nodes, p: Id, f: Forest)
    decreases f
  {
    match f
    case Nil => true
    case Cons(id, kids, rest) =>
      && id in m && p in g && id in g && Bare(g[id]) == Bare(PlacedUnder(ParentDep(g[p]), m[id]))
      && Ahead(m, g, id, kids) && Ahead(m, g, p, rest)
  }

  /** The entries at the top of f have their final conditions, those below are still to be placed. */
  predicate Ready(m: Nodes, g: Nodes, f: Forest) {
    match f
    case Nil => true
    case Cons(id, kids, rest) => Final(m, g, id) && Ahead(m, g, id, kids) && Ready(m, g, rest)
  }

  predicate SameBare(m: Nodes, n: Nodes) { m.Keys == n.Keys && forall id :: id in m ==> Bare(m[id]) == Bare(n[id]) }

  lemma BareStatic(m: Nodes, n: Nodes)
    requires SameBare(m, n)
    ensures SameStatic(m, n)
  {
    forall id | id in m ensures n[id].sym == m[id].sym && n[id].text == m[id].text && n[id].prompt == m[id].prompt {
      assert n[id].sym == Bare(n[id]).sym && n[id].text == Bare(n[id]).text && n[id].prompt == Bare(n[id]).prompt;
      assert m[id].sym == Bare(m[id]).sym && m[id].text == Bare(m[id]).text && m[id].prompt == Bare(m[id]).prompt;
    }
  }

  lemma BareTwice(m: Nodes, n: Nodes, k: Nodes)
    requires SameBare(m, n) && SameBare(n, k)
    ensures SameBare(m, k)
  {
  }

  lemma Untouched(m: Nodes, ids: set<Id>)
    ensures Touches(m, m, ids) && SameBare(m, m)
  {
  }

  lemma BareUpdate(m: Nodes, n: Nodes, z: Id, v: Menu)
    requires SameBare(m, n) && z in n && Bare(v) == Bare(n[z])
    ensures SameBare(m, n[z := v])
  {
  }

  lemma FinalBare(m: Nodes, n: Nodes, g: Nodes, ids: set<Id>)
    requires AllFinal(m, g, ids) && SameBare(m, n)
    ensures AllFinal(n, g, ids)
  {
  }

  lemma {:induction false} AheadSame(m: Nodes, n: Nodes, g: Nodes, p: Id, f: Forest)
    requires Ahead(m, g, p, f) && forall id :: id in Ids(f) && id in m ==> id in n && Bare(n[id]) == Bare(m[id])
    ensures Ahead(n, g, p, f)
    decreases f
  {
    if f != Nil {
      PlacedBare(ParentDep(g[p]), m[f.id], n[f.id]);
      AheadSame(m, n, g, f.id, f.kids);
      AheadSame(m, n, g, p, f.rest);
    }
  }

  lemma PlacedBare(above: Option<Expr>, x: Menu, y: Menu)
    requires Bare(x) == Bare(y)
    ensures Bare(PlacedUnder(above, x)) == Bare(PlacedUnder(above, y))
  {
    assert x.dep == Bare(x).dep && y.dep == Bare(y).dep && x.sym == Bare(x).sym && y.sym == Bare(y).sym;
    assert x.prompt == Bare(x).prompt && y.prompt == Bare(y).prompt;
    assert x.others == Bare(x).others && y.others == Bare(y).others && x.text == Bare(x).text && y.text == Bare(y).text;
    assert PlacedUnder(above, x).others == PlacedUnder(above, y).others;
  }

  lemma {:induction false} ReadySame(m: Nodes, n: Nodes, g: Nodes, f: Forest)
    requires Ready(m, g, f) && forall id :: id in Ids(f) && id in m ==> id in n && Bare(n[id]) == Bare(m[id])
    ensures Ready(n, g, f)
    decreases f
  {
    if f != Nil {
      AheadSame(m, n, g, f.id, f.kids);
      ReadySame(m, n, g, f.rest);
    }
  }

  /** Placing the entries at the top of f makes the forest ready. */
  lemma {:induction false} PlacedReady(m: Nodes, n: Nodes, g: Nodes, p: Id, f: Forest)
    requires Ahead(m, g, p, f) && Distinct(f) && p in n && p in g && Bare(n[p]) == Bare(g[p])
    requires forall id :: id in Roots(f) ==> id in m && id in n && Bare(n[id]) == Bare(PlacedUnder(ParentDep(n[p]), m[id]))
    requires forall id :: id in Ids(f) - Roots(f) && id in m ==> id in n && n[id] == m[id]
    ensures Ready(n, g, f)
    decreases f
  {
    if f != Nil {
      RootsAreIds(f.rest);
      assert ParentDep(n[p]) == ParentDep(g[p]) by { assert ParentDep(n[p]) == ParentDep(Bare(n[p])); }
      AheadSame(m, n, g, f.id, f.kids);
      PlacedReady(m, n, g, p, f.rest);
    }
  }

  lemma PlacedAll(m: Nodes, n: Nodes, g: Nodes, p: Id, f: Forest)
    requires Touches(m, n, Roots(f)) && SameStatic(m, g) && Final(m, g, p) && p !in Ids(f) && Distinct(f) && Ahead(m, g, p, f)
    requires p in n && forall id :: id in Roots(f) ==> id in m && n[id] == PlacedUnder(ParentDep(n[p]), m[id])
    ensures Ready(n, g, f) && SameStatic(n, g) && n[p] == m[p]
  {
    RootsAreIds(f);
    TouchesKeeps(m, n, Roots(f), p);
    PlacedReady(m, n, g, p, f);
  }

  lemma ReadyOutside(m: Nodes, n: Nodes, g: Nodes, ids: set<Id>, f: Forest)
    requires Touches(m, n, ids) && Ids(f) !! ids && Ready(m, g, f)
    ensures Ready(n, g, f)
  {
    ReadySame(m, n, g, f);
  }

  ghost predicate Within(m: Nodes, f: Forest) { forall id :: id in Ids(f) ==> id in m }

  lemma {:induction false} GoalSame(m: Nodes, p: Id, f: Forest)
    requires Distinct(f) && p !in Ids(f) && p in m && Within(m, f)
    ensures SameStatic(m, Goal(m, p, f)) && forall id :: id in m && id !in Ids(f) ==> Goal(m, p, f)[id] == m[id]
    decreases f
  {
    if f != Nil {
      var m1 := m[f.id := PlacedUnder(ParentDep(m[p]), m[f.id])];
      GoalSame(m1, f.id, f.kids);
      GoalSame(Goal(m1, f.id, f.kids), p, f.rest);
    }
  }

  /** The final conditions are those of the goal. */
  lemma {:induction false} GoalAhead(m: Nodes, p: Id, f: Forest)
    requires Distinct(f) && p !in Ids(f) && p in m && Within(m, f)
    ensures Ahead(m, Goal(m, p, f), p, f)
    decreases f
  {
    if f != Nil {
      var m1 := m[f.id := PlacedUnder(ParentDep(m[p]), m[f.id])];
      var m2, g := Goal(m1, f.id, f.kids), Goal(m, p, f);
      GoalSame(m1, f.id, f.kids);
      GoalSame(m2, p, f.rest);
      GoalSame(m, p, f);
      GoalAheadKids(m, m1, m2, g, f);
      GoalAhead(m2, p, f.rest);
      assert g == Goal(m2, p, f.rest);
      AheadSame(m2, m, g, p, f.rest);
      assert g[f.id] == m1[f.id];
    }
  }

  lemma {:induction false} GoalAheadKids(m: Nodes, m1: Nodes, m2: Nodes, g: Nodes, f: Forest)
    requires f != Nil && Distinct(f) && Within(m1, f) && m2 == Goal(m1, f.id, f.kids)
    requires forall id :: id in Ids(f.kids) ==> id in m && m[id] == m1[id] && id in g && id in m2 && g[id] == m2[id]
    requires f.id in m2 && f.id in g && g[f.id] == m2[f.id]
    ensures Ahead(m, g, f.id, f.kids)
    decreases f, 0
  {
    GoalAhead(m1, f.id, f.kids);
    AheadGoal(m1, m2, g, f.id, f.kids);
    AheadSame(m1, m, g, f.id, f.kids);
  }

  /** Being ahead of one goal is being ahead of any other with the same entries. */
  lemma {:induction false} AheadGoal(m: Nodes, g: Nodes, h: Nodes, p: Id, f: Forest)
    requires Ahead(m, g, p, f) && p in g && p in h && h[p] == g[p] && forall id :: id in Ids(f) && id in g ==> id in h && h[id] == g[id]
    ensures Ahead(m, h, p, f)
    decreases f
  {
    if f != Nil {
      AheadGoal(m, g, h, f.id, f.kids);
      AheadGoal(m, g, h, p, f.rest);
    }
  }

  // ---------- conditions and the entries above ----------

  /** q is above id in the forest. */
  predicate IsAbove(f: Forest, q: Id, id: Id) {
    match f
    case Nil => false
    case Cons(x, kids, rest) => (q == x && id in Ids(kids)) || IsAbove(kids, q, id) || IsAbove(rest, q, id)
  }

  lemma {:induction false} AboveIsIn(f: Forest, q: Id, id: Id)
    requires IsAbove(f, q, id)
    ensures id in Ids(f) && q in Ids(f)
  {
    if IsAbove(f.kids, q, id) { AboveIsIn(f.kids, q, id); }
    if IsAbove(f.rest, q, id) { AboveIsIn(f.rest, q, id); }
  }

  /** One of the conditions of an entry: its dependency, that of its prompt, or that of another property. */
  predicate HasCondition(x: Menu, c: Option<Expr>) { c == x.dep || x.prompt == Some(c) || c in x.others }

  /** A condition placed under another one is n while that one is n, and stays a normal form. */
  lemma PlacedImplies(above: Option<Expr>, x: Menu, y: Menu, c: Option<Expr>, a: Assignment)
    requires a.WellFormed() && OptNnf(above) && Bare(y) == Bare(PlacedUnder(above, x)) && HasCondition(y, c)
    ensures OptValue(a, c) != NO ==> OptValue(a, above) != NO && OptValue(a, y.dep) != NO
    ensures OptNnf(y.dep) && OptNnf(ParentDep(y))
  {
    hide Under, PropUnder;
    var z, base := PlacedUnder(above, x), Under(above, x.dep);
    assert y.dep == Bare(y).dep == Bare(z).dep == base && y.prompt == Bare(y).prompt == Bare(z).prompt;
    assert y.others == Bare(y).others == Bare(z).others;
    UnderImplies(above, x.dep, a);
    if x.prompt.Some? { PropUnderImplies(base, x.sym, x.prompt.value, a); }
    if c in y.others {
      var i :| 0 <= i < |y.others| && y.others[i] == c;
      PropUnderImplies(base, x.sym, x.others[i], a);
    }
  }

  lemma UnderImplies(above: Option<Expr>, e: Option<Expr>, a: Assignment)
    requires a.WellFormed() && OptNnf(above)
    ensures OptValue(a, Under(above, e)) != NO ==> OptValue(a, above) != NO && OptValue(a, e) != NO
    ensures OptNnf(Under(above, e))
  {
    UnderValue(above, e, a);
    PropUnderValue(above, None, e, a);
  }

  lemma PropUnderImplies(base: Option<Expr>, sym: Option<Symbol>, e: Option<Expr>, a: Assignment)
    requires a.WellFormed() && OptNnf(base)
    ensures OptValue(a, PropUnder(base, sym, e)) != NO ==> OptValue(a, base) != NO && OptValue(a, e) != NO
    ensures OptNnf(PropUnder(base, sym, e))
  {
    PropUnderValue(base, sym, e, a);
    UnderImplies(base, e, a);
    var dep := Under(base, e);
    if dep.Some? { TransBoolNnf(dep.value); }
  }

  /** A condition that is not n in a finished menu makes those of all entries that were above it not n: their
      dependencies and what their children are placed under. */
  lemma {:induction false} AheadImplies(m: Nodes, g: Nodes, p: Id, f: Forest, q: Id, id: Id, c: Option<Expr>, a: Assignment)
    requires Ahead(m, g, p, f) && a.WellFormed() && p in g && OptNnf(ParentDep(g[p]))
    requires id in Ids(f) && (q == p || IsAbove(f, q, id))
    requires id in g && HasCondition(g[id], c) && OptValue(a, c) != NO
    ensures q in g && OptValue(a, ParentDep(g[q])) != NO && (q != p ==> OptValue(a, g[q].dep) != NO)
    decreases f
  {
    hide PlacedUnder, ParentDep, Bare, HasCondition, OptNnf;
    var x, above := f.id, ParentDep(g[p]);
    ParentDepIsCondition(g[x]);
    PlacedImplies(above, m[x], g[x], ParentDep(g[x]), a);
    if id in Ids(f.rest) && (q == p || IsAbove(f.rest, q, id)) {
      AheadImplies(m, g, p, f.rest, q, id, c, a);
    } else if id == x && q == p {
      PlacedImplies(above, m[x], g[x], c, a);
    } else if IsAbove(f.kids, q, id) {
      AboveIsIn(f.kids, q, id);
      AheadImplies(m, g, x, f.kids, q, id, c, a);
    } else {
      if IsAbove(f.rest, q, id) { AboveIsIn(f.rest, q, id); }
      AheadImplies(m, g, x, f.kids, x, id, c, a);
    }
  }

  lemma ParentDepIsCondition(x: Menu)
    ensures HasCondition(x, ParentDep(x))
  {
  }

  /** In the finished menu: an entry has a condition that is not n only while the conditions of all its original
      ancestors, those of their prompts and their dependencies, are not n. */
  lemma HandedDown(m: Nodes, p: Id, f: Forest, q: Id, id: Id, c: Option<Expr>, a: Assignment)
    requires Distinct(f) && p !in Ids(f) && p in m && Within(m, f) && a.WellFormed() && OptNnf(ParentDep(m[p]))
    requires id in Ids(f) && (q == p || IsAbove(f, q, id)) && id in Goal(m, p, f) && HasCondition(Goal(m, p, f)[id], c)
    ensures var g := Goal(m, p, f);
      q in g && (OptValue(a, c) != NO ==>
                   && (g[q].prompt.Some? ==> OptValue(a, g[q].prompt.value) != NO)
                   && (q != p || g[q].prompt.None? ==> OptValue(a, g[q].dep) != NO))
  {
    var g := Goal(m, p, f);
    GoalSame(m, p, f);
    GoalAhead(m, p, f);
    if IsAbove(f, q, id) { AboveIsIn(f, q, id); }
    if OptValue(a, c) != NO { AheadImplies(m, g, p, f, q, id, c, a); }
  }

  // ---------- places ----------

  /** y goes below x. */
  predicate Belongs(x: Menu, y: Menu) {
    x.sym.Some? && Nests(x.sym.value, PromptCondition(x), Condition(y))
  }

  lemma BelongsBare(x: Menu, y: Menu)
    ensures Belongs(Bare(x), Bare(y)) == Belongs(x, y)
  {
  }

  /** Entries without a prompt give their children to their own level. */
  ghost function Flattened(g: Nodes, f: Forest): (r: Forest)
    decreases Count(f)
  {
    match f
    case Nil => Nil
    case Cons(id, kids, rest) =>
      AppendPreorder(kids, rest);
      if kids != Nil && id in g && !Prompted(g[id]) then Cons(id, Nil, Flattened(g, Append(kids, rest)))
      else Cons(id, kids, Flattened(g, rest))
  }

  /** The entry x, with the children before and followed by after: its finished children, and what still follows. */
  ghost function Finished(g: Nodes, x: Id, before: Forest, after: Forest): (r: (Forest, Forest))
    ensures Count(r.1) <= Count(after)
    decreases Count(before) + Count(after), 2
  {
    var (kids, rest) := Gathered(g, x, before, after);
    (Flattened(g, kids), rest)
  }

  /** The same before the flattening: children are finished one after the other; an entry with a symbol and no children
      takes in the entries after it that belong below it, up to the first that does not. */
  ghost function Gathered(g: Nodes, x: Id, before: Forest, after: Forest): (r: (Forest, Forest))
    ensures Count(r.1) <= Count(after)
    decreases Count(before) + Count(after), 1
  {
    if before != Nil then (FinishedAll(g, before), after)
    else if x in g && g[x].sym.Some? then TakenFrom(g, x, after)
    else (Nil, after)
  }

  ghost function FinishedAll(g: Nodes, f: Forest): Forest
    decreases Count(f), 0
  {
    match f
    case Nil => Nil
    case Cons(id, kids, rest) =>
      var (kids1, rest1) := Finished(g, id, kids, rest);
      Cons(id, kids1, FinishedAll(g, rest1))
  }

  ghost function TakenFrom(g: Nodes, x: Id, f: Forest): (r: (Forest, Forest))
    ensures Count(r.1) <= Count(f)
    decreases Count(f), 0
  {
    if f == Nil || x !in g || f.id !in g || !Belongs(g[x], g[f.id]) then (Nil, f)
    else
      var (kids, rest) := Finished(g, f.id, f.kids, f.rest);
      var (more, left) := TakenFrom(g, x, rest);
      (Cons(f.id, kids, more), left)
  }

  /** What x will have taken in, with kids taken in already. */
  ghost function TakenSoFar(g: Nodes, x: Id, kids: Forest, rest: Forest): (Forest, Forest) {
    var (more, left) := TakenFrom(g, x, rest);
    (Append(kids, more), left)
  }

  /** The entry menu, the first of rest, has been finished and added to kids. */
  ghost predicate OneTaken(g: Nodes, menu: Id, kids: Forest, rest: Forest, kids': Forest, rest': Forest) {
    rest != Nil && rest.id == menu &&
    var (k, r) := Finished(g, menu, rest.kids, rest.rest);
    kids' == Append(kids, Cons(menu, k, Nil)) && rest' == r
  }

  lemma TakenStep(m: Nodes, g: Nodes, x: Id, menu: Id, kids: Forest, rest: Forest, kids': Forest, rest': Forest)
    requires OneTaken(g, menu, kids, rest, kids', rest') && Final(m, g, x) && Final(m, g, menu) && Belongs(m[x], m[menu])
    ensures TakenSoFar(g, x, kids, rest) == TakenSoFar(g, x, kids', rest')
  {
    BelongsBare(m[x], m[menu]);
    BelongsBare(g[x], g[menu]);
    var (k, r) := Finished(g, menu, rest.kids, rest.rest);
    AppendAssoc(kids, Cons(menu, k, Nil), TakenFrom(g, x, rest').0);
  }

  lemma NoneTaken(m: Nodes, g: Nodes, x: Id, rest: Forest)
    requires Final(m, g, x) && Ready(m, g, rest) && (rest != Nil ==> !Belongs(m[x], m[rest.id]))
    ensures TakenFrom(g, x, rest) == (Nil, rest)
  {
    if rest != Nil {
      BelongsBare(m[x], m[rest.id]);
      BelongsBare(g[x], g[rest.id]);
    }
  }

  lemma TakenInBare(m: Nodes, x: Id, last: Id)
    requires x in m && last in m
    ensures SameBare(m, TakenIn(m, x, last))
  {
  }

  lemma SplicedBare(m: Nodes, menu: Id, last: Id)
    requires menu in m && last in m
    ensures SameBare(m, Spliced(m, menu, last))
  {
  }
}
