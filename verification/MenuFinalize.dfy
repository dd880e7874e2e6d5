/** menu_finalize (scripts/config/menu.c), for menus without choices: conditions are handed down, entries that
    depend on the one before them are nested below it, and menus without a prompt are dissolved. */
module MenuFinalize {
  import opened Exprs
  import opened MenuTree
  import opened Forests
  import opened Nesting
  import opened Arrangement

  class Menus {
    var nodes: Nodes
    ghost const goal: Nodes   // the entries with their final conditions

    constructor (nodes: Nodes, ghost goal: Nodes)
      ensures this.nodes == nodes && this.goal == goal
    {
      this.nodes, this.goal := nodes, goal;
    }

    /** The loop that hands the conditions of x down to its children. */
    method PlaceChildren(x: Id, ghost kids: Forest)
      requires x in nodes && Linked(nodes, nodes[x].list, x, kids, None) && Distinct(kids) && x !in Ids(kids)
      modifies this
      ensures Touches(old(nodes), nodes, Roots(kids)) && Linked(nodes, nodes[x].list, x, kids, None)
      ensures forall id :: id in Roots(kids) ==> id in old(nodes) && nodes[id] == PlacedUnder(ParentDep(nodes[x]), old(nodes)[id])
    {
      var above := ParentDep(nodes[x]);
      var menu := nodes[x].list;
      ghost var todo := kids;
      RootsAreIds(kids);
      LinkedIds(nodes, menu, x, kids, None);
      while menu.Some?
        invariant Touches(old(nodes), nodes, Roots(kids)) && Linked(nodes, nodes[x].list, x, kids, None)
        invariant Linked(nodes, menu, x, todo, None) && Distinct(todo) && Roots(todo) <= Roots(kids)
        invariant forall id :: id in Roots(todo) ==> nodes[id] == old(nodes)[id]
        invariant forall id :: id in Roots(kids) && id !in Roots(todo) ==> nodes[id] == PlacedUnder(above, old(nodes)[id])
        decreases todo
      {
        var placed := PlacedUnder(above, nodes[menu.value]);
        RootsAreIds(todo.rest);
        TouchesOne(old(nodes), nodes, Roots(kids), menu.value, placed);
        LinkedUpdate(nodes, menu.value, placed, nodes[x].list, x, kids, None);
        LinkedUpdate(nodes, menu.value, placed, menu, x, todo, None);
        nodes := nodes[menu.value := placed];
        menu := nodes[menu.value].next;
        todo := todo.rest;
      }
    }

    /** Giving all the entries of a chain another parent; the last of them is returned. */
    method Reparent(first: Id, ghost oldParent: Id, newParent: Id, ghost f: Forest) returns (last: Id)
      requires f != Nil && Linked(nodes, Some(first), oldParent, f, None) && Distinct(f)
      modifies this
      ensures Linked(nodes, Some(first), newParent, f, None) && last == Last(f) && last in nodes
      ensures Touches(old(nodes), nodes, Ids(f)) && SameBare(old(nodes), nodes)
    {
      last := first;
      ghost var done, todo := Nil, f;
      while true
        invariant Append(done, todo) == f && todo != Nil && last == todo.id && last in nodes && last in Ids(f)
        invariant Linked(nodes, Some(first), newParent, done, Some(last))
        invariant Linked(nodes, Some(last), oldParent, todo, None)
        invariant Touches(old(nodes), nodes, Ids(f)) && Ids(done) !! Ids(todo) && Ids(todo) <= Ids(f) && Distinct(todo)
        invariant Last(todo) == Last(f) && SameBare(old(nodes), nodes)
        decreases todo
      {
        ghost var one := Cons(last, todo.kids, Nil);
        var moved := nodes[last].(parent := Some(newParent));
        TouchesOne(old(nodes), nodes, Ids(f), last, moved);
        BareUpdate(old(nodes), nodes, last, moved);
        LinkedUpdate(nodes, last, moved, Some(first), newParent, done, Some(last));
        LinkedUpdate(nodes, last, moved, nodes[last].list, last, todo.kids, None);
        LinkedUpdate(nodes, last, moved, nodes[last].next, oldParent, todo.rest, None);
        nodes := nodes[last := moved];
        assert Linked(nodes, Some(last), newParent, one, nodes[last].next);
        LinkedAppend(nodes, Some(first), newParent, done, Some(last), one, nodes[last].next);
        AppendOne(done, todo);
        done, todo := Append(done, one), todo.rest;
        if nodes[last].next.None? {
          AppendNil(done);
          break;
        }
        last := nodes[last].next.value;
      }
    }

    // ---------- flattening ----------

    /** The last loop of menu_finalize: the children of an entry without a prompt become its followers. */
    method Flatten(x: Id, ghost kids: Forest) returns (ghost flat: Forest)
      requires x in nodes && Linked(nodes, nodes[x].list, x, kids, None) && Distinct(kids) && x !in Ids(kids)
      requires KidsFlat(nodes, kids) && SameStatic(nodes, goal)
      modifies this
      ensures Touches(old(nodes), nodes, Ids(kids)) && Linked(nodes, nodes[x].list, x, flat, None)
      ensures Preorder(flat) == Preorder(kids) && DeepFlat(nodes, flat)
      ensures flat == Flattened(goal, kids) && SameBare(old(nodes), nodes)
    {
      hide Touches, SameBare, SameStatic;
      var menu := nodes[x].list;
      ghost var done, todo := Nil, kids;
      Untouched(nodes, Ids(kids));
      while menu.Some?
        invariant x in nodes && Touches(old(nodes), nodes, Ids(kids)) && SameStatic(nodes, goal)
        invariant Linked(nodes, nodes[x].list, x, done, menu) && Linked(nodes, menu, x, todo, None)
        invariant Preorder(done) + Preorder(todo) == Preorder(kids)
        invariant DeepFlat(nodes, done) && KidsFlat(nodes, todo)
        invariant Flattened(goal, kids) == Append(done, Flattened(goal, todo)) && SameBare(old(nodes), nodes)
        decreases Count(todo)
      {
        hide DeepFlat, KidsFlat, Preorder, Flattened;
        ghost var before := nodes;
        Split(done, todo, kids);
        ghost var one, rest := FlattenOne(x, menu.value, todo);
        TouchesTwice(old(nodes), before, Ids(kids), nodes, Ids(todo));
        TouchesKeeps(before, nodes, Ids(todo), x);
        BareTwice(old(nodes), before, nodes);
        StillStatic(before, nodes, goal);
        LinkedOutside(before, nodes, Ids(todo), before[x].list, x, done, menu);
        FlatFrame(before, nodes, done);
        LinkedAppend(nodes, nodes[x].list, x, done, menu, one, nodes[menu.value].next);
        FlatAppend(nodes, done, one);
        AppendPreorder(done, one);
        AppendSeqs(Preorder(done), Preorder(one), Preorder(rest));
        AppendAssoc(done, one, Flattened(goal, rest));
        done, todo := Append(done, one), rest;
        menu := nodes[menu.value].next;
      }
      flat := done;
      assert todo == Nil;
      AppendNil(done);
    }

    /** One turn of the loop, at the entry menu. */
    method FlattenOne(x: Id, menu: Id, ghost todo: Forest) returns (ghost one: Forest, ghost rest: Forest)
      requires todo != Nil && Linked(nodes, Some(menu), x, todo, None) && Distinct(todo) && KidsFlat(nodes, todo)
      requires SameStatic(nodes, goal)
      modifies this
      ensures Touches(old(nodes), nodes, Ids(todo)) && menu in nodes && SameBare(old(nodes), nodes)
      ensures Flattened(goal, todo) == Append(one, Flattened(goal, rest))
      ensures Linked(nodes, Some(menu), x, one, nodes[menu].next) && Linked(nodes, nodes[menu].next, x, rest, None)
      ensures Preorder(one) + Preorder(rest) == Preorder(todo) && Count(rest) < Count(todo)
      ensures DeepFlat(nodes, one) && KidsFlat(nodes, rest)
    {
      hide Distinct, Bare;
      if nodes[menu].list.Some? && !Prompted(nodes[menu]) {
        one, rest := DissolveOne(x, menu, todo);
      } else {
        one, rest := Cons(menu, todo.kids, Nil), todo.rest;
      }
    }

    lemma DissolvedFlat(m: Nodes, n: Nodes, f: Forest)
      requires f != Nil && KidsFlat(m, f) && SameBare(m, n)
      ensures DeepFlat(n, Cons(f.id, Nil, Nil)) && KidsFlat(n, Append(f.kids, f.rest))
    {
      hide SameBare;
      BareStatic(m, n);
      FlatFrame(m, n, f.kids);
      FlatFrame(m, n, f.rest);
      FlatOfDeep(n, f.kids);
      FlatAppend(n, f.kids, f.rest);
    }

    lemma DissolvedPreorder(f: Forest)
      requires f != Nil
      ensures var rest := Append(f.kids, f.rest);
        Preorder(Cons(f.id, Nil, Nil)) + Preorder(rest) == Preorder(f) && Count(rest) < Count(f)
    {
      AppendPreorder(f.kids, f.rest);
      assert Preorder(Cons(f.id, Nil, Nil)) == [f.id] && Preorder(f) == [f.id] + Preorder(f.kids) + Preorder(f.rest);
      hide Preorder, Append;
      AppendSeqs([f.id], Preorder(f.kids), Preorder(f.rest));
    }

    /** The turn of an entry that has children but no prompt. */
    method DissolveOne(x: Id, menu: Id, ghost todo: Forest) returns (ghost one: Forest, ghost rest: Forest)
      requires todo != Nil && Linked(nodes, Some(menu), x, todo, None) && Distinct(todo) && KidsFlat(nodes, todo)
      requires nodes[menu].list.Some?
      modifies this
      ensures Touches(old(nodes), nodes, Ids(todo)) && menu in nodes && SameBare(old(nodes), nodes)
      ensures one == Cons(menu, Nil, Nil) && rest == Append(todo.kids, todo.rest)
      ensures Linked(nodes, Some(menu), x, one, nodes[menu].next) && Linked(nodes, nodes[menu].next, x, rest, None)
      ensures Preorder(one) + Preorder(rest) == Preorder(todo) && Count(rest) < Count(todo)
      ensures DeepFlat(nodes, one) && KidsFlat(nodes, rest)
    {
      hide Touches, SameBare, SameStatic, Distinct, Bare, KidsFlat, DeepFlat, Preorder, Append;
      ghost var kids, after := todo.kids, todo.rest;
      ghost var before := nodes;
      Dissolve(x, menu, kids, after);
      one, rest := Cons(menu, Nil, Nil), Append(kids, after);
      DissolvedFlat(before, nodes, todo);
      DissolvedPreorder(todo);
    }

    /** menu loses its children; they follow it as children of x. */
    method Dissolve(x: Id, menu: Id, ghost kids: Forest, ghost after: Forest)
      requires Linked(nodes, Some(menu), x, Cons(menu, kids, after), None) && Distinct(Cons(menu, kids, after))
      requires nodes[menu].list.Some?
      modifies this
      ensures Touches(old(nodes), nodes, Ids(Cons(menu, kids, after))) && menu in nodes && SameBare(old(nodes), nodes)
      ensures Linked(nodes, Some(menu), x, Cons(menu, Nil, Nil), nodes[menu].next)
      ensures Linked(nodes, nodes[menu].next, x, Append(kids, after), None)
    {
      ghost var m0, ids := nodes, Ids(Cons(menu, kids, after));
      assert kids != Nil && Linked(nodes, nodes[menu].list, menu, kids, None) && Linked(nodes, nodes[menu].next, x, after, None);
      var last := Reparent(nodes[menu].list.value, menu, x, kids);
      LastIsRoot(kids);
      LinkedOutside(m0, nodes, Ids(kids), m0[menu].next, x, after, None);
      TouchesTwice(m0, m0, ids, nodes, Ids(kids));
      SplicedLinks(nodes, x, menu, kids, after);
      SplicedBare(nodes, menu, last);
      TouchesOne(m0, nodes, ids, last, nodes[last].(next := nodes[menu].next));
      nodes := nodes[last := nodes[last].(next := nodes[menu].next)];
      TouchesOne(m0, nodes, ids, menu, nodes[menu].(next := nodes[menu].list));
      nodes := nodes[menu := nodes[menu].(next := nodes[menu].list)];
      TouchesOne(m0, nodes, ids, menu, nodes[menu].(list := None));
      nodes := nodes[menu := nodes[menu].(list := None)];
    }

    // ---------- nesting ----------

    /** One call of menu_finalize in a loop over entries: the entry menu and what is left after it. */
    method FinalizeOne(menu: Id, ghost par: Id, ghost todo: Forest) returns (ghost one: Forest, ghost rest: Forest)
      requires todo != Nil && Linked(nodes, Some(menu), par, todo, None) && Distinct(todo)
      requires SameStatic(nodes, goal) && Ready(nodes, goal, todo)
      modifies this
      ensures Touches(old(nodes), nodes, Ids(todo)) && menu in nodes
      ensures nodes[menu] == old(nodes)[menu].(list := nodes[menu].list, next := nodes[menu].next)
      ensures one.Cons? && one.id == menu && one.rest == Nil && KidsFlat(nodes, one)
      ensures Linked(nodes, nodes[menu].list, menu, one.kids, None) && Linked(nodes, nodes[menu].next, par, rest, None)
      ensures Preorder(one) + Preorder(rest) == Preorder(todo) && Tail(rest, todo)
      ensures Count(one) + Count(rest) == Count(todo) && Distinct(Cons(menu, one.kids, rest))
      ensures SameStatic(nodes, goal) && Ready(nodes, goal, rest) && AllFinal(nodes, goal, Ids(one))
      ensures (one.kids, rest) == Finished(goal, menu, todo.kids, todo.rest)
      decreases Count(todo), 2
    {
      ghost var kids;
      kids, rest := Finalize(menu, par, todo.kids, todo.rest);
      one := Cons(menu, kids, Nil);
      OneFacts(todo, kids, rest);
    }

    static lemma {:induction false} OneFacts(todo: Forest, kids: Forest, rest: Forest)
      requires todo != Nil && Distinct(todo) && Preorder(Cons(todo.id, kids, rest)) == Preorder(todo)
      ensures var one := Cons(todo.id, kids, Nil);
        && Preorder(one) + Preorder(rest) == Preorder(todo) && Count(one) + Count(rest) == Count(todo)
        && Distinct(Cons(todo.id, kids, rest)) && Ids(one) == {todo.id} + Ids(kids)
    {
      var whole, one := Cons(todo.id, kids, rest), Cons(todo.id, kids, Nil);
      SamePreorder(todo, whole);
      assert Preorder(one) == [todo.id] + Preorder(kids) + [] == [todo.id] + Preorder(kids);
      assert Preorder(whole) == [todo.id] + Preorder(kids) + Preorder(rest);
    }

    /** The entry menu is finalized and becomes a child of x. */
    method AbsorbOne(x: Id, menu: Id, ghost par: Id, ghost todo: Forest) returns (ghost one: Forest, ghost rest: Forest)
      requires todo != Nil && Linked(nodes, Some(menu), par, todo, None) && Distinct(todo)
      requires SameStatic(nodes, goal) && Ready(nodes, goal, todo)
      modifies this
      ensures Touches(old(nodes), nodes, Ids(todo)) && menu in nodes && one != Nil && Last(one) == menu && Roots(one) == {menu}
      ensures Linked(nodes, Some(menu), x, one, nodes[menu].next) && Linked(nodes, nodes[menu].next, par, rest, None)
      ensures Preorder(one) + Preorder(rest) == Preorder(todo) && Count(rest) < Count(todo) && Tail(rest, todo)
      ensures KidsFlat(nodes, one) && Condition(nodes[menu]) == old(Condition(nodes[menu]))
      ensures SameStatic(nodes, goal) && Ready(nodes, goal, rest) && AllFinal(nodes, goal, Ids(one))
      ensures one.Cons? && one.rest == Nil && (one.kids, rest) == Finished(goal, menu, todo.kids, todo.rest)
      decreases Count(todo), 3
    {
      one, rest := FinalizeOne(menu, par, todo);
      ghost var m := nodes;
      assert Bare(m[menu]) == Bare(old(nodes)[menu]);
      Adopt(x, menu, par, one, rest, Ids(todo));
      TouchesTwice(old(nodes), m, Ids(todo), nodes, Ids(todo));
      ConditionBare(old(nodes), m, nodes, goal, menu);
      FinalBare(m, nodes, goal, Ids(one));
      OneRoot(one);
    }

    static lemma OneRoot(one: Forest)
      requires one.Cons? && one.rest == Nil
      ensures Last(one) == one.id && Roots(one) == {one.id}
    {
    }

    /** menu gets x for a parent. */
    method Adopt(x: Id, menu: Id, ghost par: Id, ghost one: Forest, ghost rest: Forest, ghost ids: set<Id>)
      requires menu in nodes && menu in ids && one.Cons? && one.id == menu && one.rest == Nil && KidsFlat(nodes, one)
      requires Linked(nodes, nodes[menu].list, menu, one.kids, None) && Linked(nodes, nodes[menu].next, par, rest, None)
      requires Distinct(Cons(menu, one.kids, rest)) && Ready(nodes, goal, rest)
      modifies this
      ensures Touches(old(nodes), nodes, ids) && SameBare(old(nodes), nodes) && menu in nodes
      ensures Linked(nodes, Some(menu), x, one, nodes[menu].next) && Linked(nodes, nodes[menu].next, par, rest, None)
      ensures KidsFlat(nodes, one) && Ready(nodes, goal, rest)
    {
      var moved := nodes[menu].(parent := Some(x));
      TouchesOne(nodes, nodes, ids, menu, moved);
      LinkedUpdate(nodes, menu, moved, nodes[menu].list, menu, one.kids, None);
      LinkedUpdate(nodes, menu, moved, nodes[menu].next, par, rest, None);
      FlatFrame(nodes, nodes[menu := moved], one);
      ReadySame(nodes, nodes[menu := moved], goal, rest);
      nodes := nodes[menu := moved];
    }

    static lemma ConditionBare(m0: Nodes, m1: Nodes, m2: Nodes, g: Nodes, menu: Id)
      requires menu in m0 && menu in m1 && SameBare(m1, m2) && Bare(m1[menu]) == Bare(m0[menu])
      ensures menu in m2 && Condition(m2[menu]) == Condition(m0[menu])
    {
      assert Bare(m2[menu]).prompt == m2[menu].prompt && Bare(m0[menu]).prompt == m0[menu].prompt;
      assert Bare(m2[menu]).dep == m2[menu].dep && Bare(m0[menu]).dep == m0[menu].dep;
    }

    method AbsorbStep(x: Id, menu: Id, ghost par: Id, ghost kids: Forest, ghost rest: Forest, ghost after: Forest)
      returns (ghost kids': Forest, ghost rest': Forest)
      requires x in nodes && Distinct(Cons(x, Nil, after)) && rest != Nil && Tail(rest, after)
      requires Linked(nodes, nodes[x].next, x, kids, Some(menu)) && Linked(nodes, Some(menu), par, rest, None)
      requires Preorder(kids) + Preorder(rest) == Preorder(after) && KidsFlat(nodes, kids)
      requires SameStatic(nodes, goal) && Ready(nodes, goal, rest) && AllFinal(nodes, goal, Ids(kids))
      modifies this
      ensures SameStatic(nodes, goal) && Ready(nodes, goal, rest') && AllFinal(nodes, goal, Ids(kids'))
      ensures OneTaken(goal, menu, kids, rest, kids', rest')
      ensures Touches(old(nodes), nodes, Ids(after)) && nodes[x] == old(nodes)[x] && menu in nodes
      ensures Linked(nodes, nodes[x].next, x, kids', nodes[menu].next) && Linked(nodes, nodes[menu].next, par, rest', None)
      ensures Preorder(kids') + Preorder(rest') == Preorder(after) && KidsFlat(nodes, kids')
      ensures Tail(rest', after) && Count(rest') < Count(rest) && kids' != Nil && Last(kids') == menu
      ensures Roots(kids') == Roots(kids) + {menu} && Condition(nodes[menu]) == old(Condition(nodes[menu]))
      ensures forall id :: id in Roots(kids) && id in nodes ==> nodes[id] == old(nodes)[id]
      decreases Count(rest), 4
    {
      ghost var before := nodes;
      Split(kids, rest, after);
      ghost var one;
      one, rest' := AbsorbOne(x, menu, par, rest);
      TouchesTwice(before, before, Ids(after), nodes, Ids(rest));
      LinkedOutside(before, nodes, Ids(rest), before[x].next, x, kids, Some(menu));
      FlatFrame(before, nodes, kids);
      LinkedAppend(nodes, nodes[x].next, x, kids, Some(menu), one, nodes[menu].next);
      FlatAppend(nodes, kids, one);
      AppendPreorder(kids, one);
      RootsAreIds(kids);
      LastAppend(kids, one);
      AppendSeqs(Preorder(kids), Preorder(one), Preorder(rest'));
      TailTrans(rest', rest, after);
      kids' := Append(kids, one);
    }

    ghost predicate AllBelong(m: map<Id, Menu>, x: Id, ids: set<Id>) {
      x in m && forall id :: id in ids ==> id in m && Belongs(m[x], m[id])
    }

    /** Moving links leaves conditions and symbols as they are. */
    lemma StillFinal(m: Nodes, n: Nodes, g: Nodes, ids: set<Id>, rest: Forest)
      requires SameBare(m, n) && SameStatic(m, g) && Ready(m, g, rest) && AllFinal(m, g, ids)
      ensures SameStatic(n, g) && Ready(n, g, rest) && AllFinal(n, g, ids)
    {
      FinalBare(m, n, g, ids);
      ReadySame(m, n, g, rest);
      StillStatic(m, n, g);
    }

    lemma StillStatic(m: Nodes, n: Nodes, g: Nodes)
      requires SameBare(m, n) && SameStatic(m, g)
      ensures SameStatic(n, g)
    {
      BareStatic(m, n);
    }

    /** What belongs below x does so whatever the links. */
    lemma StillBelong(m: Nodes, n: Nodes, x: Id, ids: set<Id>, next: Option<Id>)
      requires SameBare(m, n) && AllBelong(m, x, ids)
      ensures AllBelong(n, x, ids)
      ensures next.Some? && next.value in m ==> next.value in n && Belongs(n[x], n[next.value]) == Belongs(m[x], m[next.value])
    {
      hide Belongs;
      forall id | id in m ensures id in n && Belongs(n[x], n[id]) == Belongs(m[x], m[id]) {
        BelongsBare(n[x], n[id]);
        BelongsBare(m[x], m[id]);
      }
    }

    /** One turn of the loop: another entry that belongs below x. */
    method CollectOne(x: Id, menu: Id, ghost par: Id, ghost kids: Forest, ghost rest: Forest, ghost after: Forest)
      returns (ghost kids': Forest, ghost rest': Forest)
      requires x in nodes && Distinct(Cons(x, Nil, after)) && rest != Nil && Tail(rest, after)
      requires Linked(nodes, nodes[x].next, x, kids, Some(menu)) && Linked(nodes, Some(menu), par, rest, None)
      requires Preorder(kids) + Preorder(rest) == Preorder(after) && KidsFlat(nodes, kids)
      requires AllBelong(nodes, x, Roots(kids)) && menu in nodes && Belongs(nodes[x], nodes[menu])
      requires SameStatic(nodes, goal) && Ready(nodes, goal, rest) && AllFinal(nodes, goal, {x} + Ids(kids))
      modifies this
      ensures SameStatic(nodes, goal) && Ready(nodes, goal, rest') && AllFinal(nodes, goal, {x} + Ids(kids'))
      ensures TakenSoFar(goal, x, kids, rest) == TakenSoFar(goal, x, kids', rest')
      ensures Touches(old(nodes), nodes, Ids(after)) && nodes[x] == old(nodes)[x] && menu in nodes
      ensures Linked(nodes, nodes[x].next, x, kids', nodes[menu].next) && Linked(nodes, nodes[menu].next, par, rest', None)
      ensures Preorder(kids') + Preorder(rest') == Preorder(after) && KidsFlat(nodes, kids')
      ensures Tail(rest', after) && Count(rest') < Count(rest) && kids' != Nil && Last(kids') == menu
      ensures AllBelong(nodes, x, Roots(kids'))
      decreases Count(rest), 5
    {
      ghost var m := nodes;
      kids', rest' := AbsorbStep(x, menu, par, kids, rest, after);
      TakenStep(m, goal, x, menu, kids, rest, kids', rest');
      forall id | id in Roots(kids) ensures id in nodes && Belongs(nodes[x], nodes[id]) {
        assert id in m && Belongs(m[x], m[id]);
      }
    }

    /** The loop over the entries after x: as long as they belong below x they get x for a parent. */
    method Collect(x: Id, ghost par: Id, ghost after: Forest)
      returns (lastMenu: Option<Id>, ghost menu: Option<Id>, ghost kids: Forest, ghost rest: Forest)
      requires x in nodes && nodes[x].sym.Some?
      requires Linked(nodes, nodes[x].next, par, after, None) && Distinct(Cons(x, Nil, after))
      requires SameStatic(nodes, goal) && Ready(nodes, goal, after) && Final(nodes, goal, x)
      modifies this
      ensures SameStatic(nodes, goal) && Ready(nodes, goal, rest) && AllFinal(nodes, goal, {x} + Ids(kids))
      ensures (kids, rest) == TakenFrom(goal, x, after)
      ensures Touches(old(nodes), nodes, Ids(after)) && nodes[x] == old(nodes)[x]
      ensures Linked(nodes, nodes[x].next, x, kids, menu) && Linked(nodes, menu, par, rest, None)
      ensures Preorder(kids) + Preorder(rest) == Preorder(after) && Tail(rest, after) && KidsFlat(nodes, kids)
      ensures lastMenu == if kids == Nil then None else Some(Last(kids))
      ensures AllBelong(nodes, x, Roots(kids))
      ensures menu.Some? ==> menu.value in nodes && !Belongs(nodes[x], nodes[menu.value])
      decreases Count(after), 6
    {
      hide Ready, Bare, DeepFlat, TakenFrom;
      var current := nodes[x].next;
      lastMenu := None;
      kids, rest := Nil, after;
      while current.Some? && Belongs(nodes[x], nodes[current.value])
        invariant Touches(old(nodes), nodes, Ids(after)) && nodes[x] == old(nodes)[x]
        invariant Linked(nodes, nodes[x].next, x, kids, current) && Linked(nodes, current, par, rest, None)
        invariant Preorder(kids) + Preorder(rest) == Preorder(after) && Tail(rest, after) && KidsFlat(nodes, kids)
        invariant lastMenu == if kids == Nil then None else Some(Last(kids))
        invariant AllBelong(nodes, x, Roots(kids))
        invariant SameStatic(nodes, goal) && Ready(nodes, goal, rest) && AllFinal(nodes, goal, {x} + Ids(kids))
        invariant TakenSoFar(goal, x, kids, rest) == TakenFrom(goal, x, after)
        decreases Count(rest)
      {
        ghost var before := nodes;
        Split(kids, rest, after);
        kids, rest := CollectOne(x, current.value, par, kids, rest, after);
        TouchesTwice(old(nodes), before, Ids(after), nodes, Ids(after));
        lastMenu := current;
        current := nodes[current.value].next;
      }
      menu := current;
      NoneTaken(nodes, goal, x, rest);
      AppendNil(kids);
    }

    /** The branch of menu_finalize for an entry with a symbol and no children: the entries after it that belong
        below it become its children, up to the first that does not. */
    method Absorb(x: Id, ghost par: Id, ghost after: Forest) returns (ghost kids: Forest, ghost rest: Forest)
      requires x in nodes && nodes[x].list == None && nodes[x].sym.Some?
      requires Linked(nodes, nodes[x].next, par, after, None) && Distinct(Cons(x, Nil, after))
      requires SameStatic(nodes, goal) && Ready(nodes, goal, after) && Final(nodes, goal, x)
      modifies this
      ensures SameStatic(nodes, goal) && Ready(nodes, goal, rest) && AllFinal(nodes, goal, {x} + Ids(kids))
      ensures (kids, rest) == TakenFrom(goal, x, after)
      ensures Touches(old(nodes), nodes, {x} + Ids(after))
      ensures nodes[x] == old(nodes)[x].(list := nodes[x].list, next := nodes[x].next)
      ensures Linked(nodes, nodes[x].list, x, kids, None) && Linked(nodes, nodes[x].next, par, rest, None)
      ensures Preorder(kids) + Preorder(rest) == Preorder(after) && Tail(rest, after) && KidsFlat(nodes, kids)
      ensures AllBelong(nodes, x, Roots(kids))
      ensures var next := nodes[x].next; next.Some? ==> next.value in nodes && !Belongs(nodes[x], nodes[next.value])
      decreases Count(after), 7
    {
      hide TakenFrom, Belongs, Ready, KidsFlat, Preorder, SameStatic, SameBare, AllFinal, Touches;
      ghost var m0, menu := nodes, None;
      var lastMenu;
      lastMenu, menu, kids, rest := Collect(x, par, after);
      Split(kids, rest, after);
      TouchesMore(m0, nodes, Ids(after), {x} + Ids(after));
      if lastMenu.Some? {
        ghost var m1 := nodes;
        TakeIn(x, lastMenu.value, par, kids, menu, rest, {x} + Ids(after));
        StillFinal(m1, nodes, goal, {x} + Ids(kids), rest);
        StillBelong(m1, nodes, x, Roots(kids), menu);
        TouchesTwice(m0, m1, {x} + Ids(after), nodes, {x} + Ids(after));
      }
    }

    static lemma {:induction f} LastAppend(f: Forest, g: Forest)
      requires g != Nil
      ensures Append(f, g) != Nil && Last(Append(f, g)) == Last(g)
    {
    }

    method TakeIn(x: Id, last: Id, ghost par: Id, ghost kids: Forest, ghost menu: Option<Id>, ghost rest: Forest, ghost ids: set<Id>)
      requires kids != Nil && Distinct(kids) && Ids(kids) !! Ids(rest) && x in nodes && x !in Ids(kids) && x !in Ids(rest)
      requires Linked(nodes, nodes[x].next, x, kids, menu) && Linked(nodes, menu, par, rest, None) && last == Last(kids)
      requires Ids(kids) <= ids && x in ids && KidsFlat(nodes, kids)
      modifies this
      ensures Touches(old(nodes), nodes, ids) && nodes[x] == old(nodes)[x].(list := nodes[x].list, next := nodes[x].next)
      ensures SameBare(old(nodes), nodes)
      ensures Linked(nodes, nodes[x].list, x, kids, None) && Linked(nodes, nodes[x].next, par, rest, None) && KidsFlat(nodes, kids)
      ensures forall id :: id in Roots(kids) && id in nodes ==> Condition(nodes[id]) == Condition(old(nodes)[id])
      ensures nodes[x].next == menu && (menu.Some? ==> menu.value in nodes && nodes[menu.value] == old(nodes)[menu.value])
    {
      ghost var m0 := nodes;
      LastIsRoot(kids);
      LastNext(nodes, nodes[x].next, x, kids, menu);
      TakenInLinks(nodes, x, par, kids, menu, rest);
      TakenInBare(nodes, x, last);
      nodes := nodes[x := nodes[x].(list := nodes[x].next)];
      nodes := nodes[x := nodes[x].(next := nodes[last].next)];
      nodes := nodes[last := nodes[last].(next := None)];
      FlatFrame(m0, nodes, kids);
    }

    // ---------- the whole ----------

    /** The loop over the children; the children of a child may grow at the cost of those after it. */
    method FinalizeChildren(x: Id, ghost before: Forest) returns (ghost kids: Forest)
      requires x in nodes && Linked(nodes, nodes[x].list, x, before, None) && Distinct(before) && x !in Ids(before)
      requires SameStatic(nodes, goal) && Ready(nodes, goal, before)
      modifies this
      ensures SameStatic(nodes, goal) && AllFinal(nodes, goal, Ids(kids)) && kids == FinishedAll(goal, before)
      ensures Touches(old(nodes), nodes, Ids(before)) && Linked(nodes, nodes[x].list, x, kids, None)
      ensures Preorder(kids) == Preorder(before) && KidsFlat(nodes, kids)
      decreases Count(before), 3
    {
      hide Ready, Bare, DeepFlat, Finished;
      var menu := nodes[x].list;
      ghost var todo := before;
      kids := Nil;
      while menu.Some?
        invariant Touches(old(nodes), nodes, Ids(before)) && nodes[x] == old(nodes)[x]
        invariant Linked(nodes, nodes[x].list, x, kids, menu) && Linked(nodes, menu, x, todo, None)
        invariant Preorder(kids) + Preorder(todo) == Preorder(before) && KidsFlat(nodes, kids)
        invariant SameStatic(nodes, goal) && Ready(nodes, goal, todo) && AllFinal(nodes, goal, Ids(kids))
        invariant FinishedAll(goal, before) == Append(kids, FinishedAll(goal, todo))
        decreases Count(todo)
      {
        ghost var m := nodes;
        Split(kids, todo, before);
        ghost var one, rest := FinalizeOne(menu.value, x, todo);
        TouchesTwice(old(nodes), m, Ids(before), nodes, Ids(todo));
        LinkedOutside(m, nodes, Ids(todo), m[x].list, x, kids, menu);
        FlatFrame(m, nodes, kids);
        LinkedAppend(nodes, nodes[x].list, x, kids, menu, one, nodes[menu.value].next);
        FlatAppend(nodes, kids, one);
        AppendPreorder(kids, one);
        AppendSeqs(Preorder(kids), Preorder(one), Preorder(rest));
        AppendAssoc(kids, one, FinishedAll(goal, rest));
        kids, todo := Append(kids, one), rest;
        menu := nodes[menu.value].next;
      }
      assert todo == Nil;
      AppendNil(kids);
    }

    /** The part of menu_finalize before the flattening. */
    method Gather(x: Id, ghost par: Id, ghost before: Forest, ghost after: Forest) returns (ghost kids: Forest, ghost rest: Forest)
      requires x in nodes && Distinct(Cons(x, before, after))
      requires Linked(nodes, nodes[x].list, x, before, None) && Linked(nodes, nodes[x].next, par, after, None)
      requires SameStatic(nodes, goal) && Final(nodes, goal, x) && Ahead(nodes, goal, x, before) && Ready(nodes, goal, after)
      modifies this
      ensures Touches(old(nodes), nodes, {x} + Ids(before) + Ids(after))
      ensures nodes[x] == old(nodes)[x].(list := nodes[x].list, next := nodes[x].next)
      ensures Linked(nodes, nodes[x].list, x, kids, None) && Linked(nodes, nodes[x].next, par, rest, None)
      ensures Preorder(kids) + Preorder(rest) == Preorder(before) + Preorder(after)
      ensures Tail(rest, after) && KidsFlat(nodes, kids)
      ensures SameStatic(nodes, goal) && Ready(nodes, goal, rest) && AllFinal(nodes, goal, {x} + Ids(kids))
      ensures (kids, rest) == Gathered(goal, x, before, after)
      decreases Count(before) + Count(after) + 1, 0
    {
      hide Ready, TakenFrom, FinishedAll, Belongs, Bare;
      kids, rest := before, after;
      if nodes[x].list.Some? {
        kids := FinishChildren(x, par, before, after);
      } else {
        assert before == Nil;
        if nodes[x].sym.Some? { kids, rest := Absorb(x, par, after); }
      }
    }

    /** The branch for an entry with children. */
    method FinishChildren(x: Id, ghost par: Id, ghost before: Forest, ghost after: Forest) returns (ghost kids: Forest)
      requires x in nodes && Distinct(Cons(x, before, after))
      requires Linked(nodes, nodes[x].list, x, before, None) && Linked(nodes, nodes[x].next, par, after, None)
      requires SameStatic(nodes, goal) && Final(nodes, goal, x) && Ahead(nodes, goal, x, before) && Ready(nodes, goal, after)
      modifies this
      ensures Touches(old(nodes), nodes, Ids(before)) && nodes[x] == old(nodes)[x]
      ensures Linked(nodes, nodes[x].list, x, kids, None) && Linked(nodes, nodes[x].next, par, after, None)
      ensures Preorder(kids) == Preorder(before) && KidsFlat(nodes, kids) && kids == FinishedAll(goal, before)
      ensures SameStatic(nodes, goal) && Ready(nodes, goal, after) && AllFinal(nodes, goal, Ids(kids))
      decreases Count(before), 4
    {
      hide KidsFlat, FinishedAll, Preorder, SameStatic, Ready, Ahead, Touches;
      ghost var m0 := nodes;
      RootsAreIds(before);
      PlaceChildren(x, before);
      ghost var m1 := nodes;
      TouchesMore(m0, m1, Roots(before), Ids(before));
      TouchesKeeps(m0, m1, Ids(before), x);
      PlacedAll(m0, m1, goal, x, before);
      kids := FinalizeChildren(x, before);
      TouchesTwice(m0, m1, Ids(before), nodes, Ids(before));
      TouchesKeeps(m0, nodes, Ids(before), x);
      LinkedOutside(m0, nodes, Ids(before), m0[x].next, par, after, None);
      ReadyOutside(m0, nodes, goal, Ids(before), after);
    }

    /** The flattening, and what it leaves alone. */
    method FlattenGathered(x: Id, ghost par: Id, ghost gathered: Forest, ghost rest: Forest) returns (ghost kids: Forest)
      requires x in nodes && Linked(nodes, nodes[x].list, x, gathered, None) && Linked(nodes, nodes[x].next, par, rest, None)
      requires Distinct(gathered) && x !in Ids(gathered) && Ids(gathered) !! Ids(rest)
      requires KidsFlat(nodes, gathered) && SameStatic(nodes, goal) && Ready(nodes, goal, rest)
      requires AllFinal(nodes, goal, {x} + Ids(gathered))
      modifies this
      ensures Touches(old(nodes), nodes, Ids(gathered)) && nodes[x] == old(nodes)[x]
      ensures Linked(nodes, nodes[x].list, x, kids, None) && Linked(nodes, nodes[x].next, par, rest, None)
      ensures Preorder(kids) == Preorder(gathered) && DeepFlat(nodes, kids) && kids == Flattened(goal, gathered)
      ensures SameStatic(nodes, goal) && Ready(nodes, goal, rest) && AllFinal(nodes, goal, {x} + Ids(kids))
    {
      ghost var m := nodes;
      kids := Flatten(x, gathered);
      LinkedOutside(m, nodes, Ids(gathered), m[x].next, par, rest, None);
      ReadySame(m, nodes, goal, rest);
      PreorderIds(kids);
      PreorderIds(gathered);
      FinalBare(m, nodes, goal, Ids(kids));
    }

    /** menu_finalize.  The preorder of the entries stays as it was, every child's parent pointer names the
        entry whose list holds it, only prompted entries keep children, and the entries
        that are not taken in still follow. */
    method Finalize(x: Id, ghost par: Id, ghost before: Forest, ghost after: Forest) returns (ghost kids: Forest, ghost rest: Forest)
      requires x in nodes && Distinct(Cons(x, before, after))
      requires Linked(nodes, nodes[x].list, x, before, None) && Linked(nodes, nodes[x].next, par, after, None)
      requires SameStatic(nodes, goal) && Final(nodes, goal, x) && Ahead(nodes, goal, x, before) && Ready(nodes, goal, after)
      modifies this
      ensures Touches(old(nodes), nodes, {x} + Ids(before) + Ids(after))
      ensures nodes[x] == old(nodes)[x].(list := nodes[x].list, next := nodes[x].next)
      ensures Linked(nodes, nodes[x].list, x, kids, None) && Linked(nodes, nodes[x].next, par, rest, None)
      ensures Preorder(Cons(x, kids, rest)) == Preorder(Cons(x, before, after))
      ensures Tail(rest, after) && DeepFlat(nodes, kids)
      ensures SameStatic(nodes, goal) && Ready(nodes, goal, rest) && AllFinal(nodes, goal, {x} + Ids(kids))
      ensures (kids, rest) == Finished(goal, x, before, after)
      decreases Count(before) + Count(after) + 1, 1
    {
      hide Ready, Bare, KidsFlat, Gathered, Flattened, Belongs;
      ghost var m0, ids, whole := nodes, {x} + Ids(before) + Ids(after), Append(before, after);
      AppendPreorder(before, after);
      DistinctAppend(before, after);
      ghost var gathered;
      gathered, rest := Gather(x, par, before, after);
      Split(gathered, rest, whole);
      ghost var m1 := nodes;
      kids := FlattenGathered(x, par, gathered, rest);
      TouchesTwice(m0, m1, ids, nodes, Ids(gathered));
      AppendSeqs([x], Preorder(kids), Preorder(rest));
      AppendSeqs([x], Preorder(before), Preorder(after));
    }
  }

  // ---------- the whole menu ----------

  /** menu_finalize of the root: the finished menu is again a tree with the same entries in the same order; every entry
      has its final conditions and stands where they put it. */
  method FinalizeMenu(menus: Menus, root: Id, ghost before: Forest) returns (ghost after: Forest)
    requires IsTree(menus.nodes, root, before) && menus.goal == Goal(menus.nodes, root, before)
    modifies menus
    ensures IsTree(menus.nodes, root, after) && Preorder(after) == Preorder(before) && DeepFlat(menus.nodes, after)
    ensures Touches(old(menus.nodes), menus.nodes, {root} + Ids(before))
    ensures after == Finished(menus.goal, root, before, Nil).0 && AllFinal(menus.nodes, menus.goal, {root} + Ids(after))
  {
    ghost var rest;
    LinkedWithin(menus.nodes, menus.nodes[root].list, root, before);
    GoalSame(menus.nodes, root, before);
    GoalAhead(menus.nodes, root, before);
    after, rest := menus.Finalize(root, root, before, Nil);
    assert rest == Nil;
    assert Preorder(Cons(root, after, Nil)) == [root] + Preorder(after);
    assert Preorder(Cons(root, before, Nil)) == [root] + Preorder(before);
    assert ([root] + Preorder(after))[1..] == ([root] + Preorder(before))[1..];
    SamePreorder(after, before);
  }

  lemma {:induction false} LinkedWithin(m: Nodes, first: Option<Id>, par: Id, f: Forest)
    requires exists end :: Linked(m, first, par, f, end)
    ensures Within(m, f)
    decreases f
  {
    if f != Nil {
      var end :| Linked(m, first, par, f, end);
      LinkedWithin(m, m[f.id].list, f.id, f.kids);
      LinkedWithin(m, m[f.id].next, par, f.rest);
    }
  }
}
