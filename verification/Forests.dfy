/** Facts about linked forests: what a change of one entry leaves alone, joining and cutting. */
module Forests {
  import opened Exprs
  import opened MenuTree

  function Append(f: Forest, g: Forest): Forest {
    match f
    case Nil => g
    case Cons(id, kids, rest) => Cons(id, kids, Append(rest, g))
  }

  /** The entries at the top level. */
  function Roots(f: Forest): set<Id> {
    match f
    case Nil => {}
    case Cons(id, _, rest) => {id} + Roots(rest)
  }

  function Last(f: Forest): Id
    requires f != Nil
  {
    if f.rest == Nil then f.id else Last(f.rest)
  }

  lemma {:induction f} AppendPreorder(f: Forest, g: Forest)
    ensures Preorder(Append(f, g)) == Preorder(f) + Preorder(g)
    ensures Ids(Append(f, g)) == Ids(f) + Ids(g)
    ensures Count(Append(f, g)) == Count(f) + Count(g)
    ensures Roots(Append(f, g)) == Roots(f) + Roots(g)
  {
    if f != Nil {
      AppendPreorder(f.rest, g);
      assert [f.id] + Preorder(f.kids) + (Preorder(f.rest) + Preorder(g)) == [f.id] + Preorder(f.kids) + Preorder(f.rest) + Preorder(g);
    }
  }

  lemma {:induction f} LastIsRoot(f: Forest)
    requires f != Nil
    ensures Last(f) in Roots(f) && Roots(f) <= Ids(f)
  {
    if f.rest != Nil { LastIsRoot(f.rest); }
  }

  lemma {:induction f} RootsAreIds(f: Forest)
    ensures Roots(f) <= Ids(f)
  {
  }

  function Occurrences(s: seq<Id>, id: Id): nat { multiset(s)[id] }

  ghost predicate NoDuplicates(s: seq<Id>) { forall id: Id :: Occurrences(s, id) <= 1 }

  lemma {:induction f} PreorderIds(f: Forest)
    ensures forall id :: id in Ids(f) <==> id in Preorder(f)
    ensures |Preorder(f)| == Count(f)
  {
  }

  lemma OccurrencesSplit(x: Id, a: seq<Id>, b: seq<Id>, id: Id)
    ensures Occurrences([x] + a + b, id) == (if id == x then 1 else 0) + Occurrences(a, id) + Occurrences(b, id)
    ensures id in a <==> Occurrences(a, id) > 0
    ensures id in b <==> Occurrences(b, id) > 0
  {
    assert multiset([x] + a + b) == multiset([x]) + multiset(a) + multiset(b);
  }

  lemma NoDuplicatesSplit(x: Id, a: seq<Id>, b: seq<Id>)
    ensures NoDuplicates([x] + a + b)
            <==> x !in a && x !in b && (forall id :: id in a ==> id !in b) && NoDuplicates(a) && NoDuplicates(b)
  {
    forall id: Id
      ensures Occurrences([x] + a + b, id) == (if id == x then 1 else 0) + Occurrences(a, id) + Occurrences(b, id)
      ensures (id in a <==> Occurrences(a, id) > 0) && (id in b <==> Occurrences(b, id) > 0)
    {
      OccurrencesSplit(x, a, b, id);
    }
  }

  /** Occurring once is a property of the preorder. */
  lemma {:induction false} DistinctPreorder(f: Forest)
    ensures Distinct(f) <==> NoDuplicates(Preorder(f))
  {
    if f == Nil {
      assert forall id: Id :: Occurrences([], id) == 0;
    } else {
      DistinctPreorder(f.kids);
      DistinctPreorder(f.rest);
      PreorderIds(f.kids);
      PreorderIds(f.rest);
      NoDuplicatesSplit(f.id, Preorder(f.kids), Preorder(f.rest));
    }
  }

  /** Rearranging without changing the preorder loses and repeats nothing. */
  lemma {:induction false} SamePreorder(f: Forest, g: Forest)
    requires Preorder(f) == Preorder(g)
    ensures Ids(f) == Ids(g) && Count(f) == Count(g) && (Distinct(f) <==> Distinct(g))
  {
    PreorderIds(f);
    PreorderIds(g);
    DistinctPreorder(f);
    DistinctPreorder(g);
  }

  lemma NoDuplicatesConcat(a: seq<Id>, b: seq<Id>)
    ensures NoDuplicates(a + b) <==> (forall id :: id in a ==> id !in b) && NoDuplicates(a) && NoDuplicates(b)
  {
    forall id: Id
      ensures Occurrences(a + b, id) == Occurrences(a, id) + Occurrences(b, id)
      ensures (id in a <==> Occurrences(a, id) > 0) && (id in b <==> Occurrences(b, id) > 0)
    {
      OccurrencesSplit(id, a, b, id);
      assert multiset(a + b) == multiset(a) + multiset(b);
    }
  }

  lemma {:induction false} SplitDistinct(done: Forest, todo: Forest, whole: Forest)
    requires Distinct(whole) && Preorder(done) + Preorder(todo) == Preorder(whole)
    ensures Distinct(done) && Distinct(todo)
    ensures forall id :: id in Preorder(done) ==> id !in Preorder(todo)
  {
    DistinctPreorder(whole);
    DistinctPreorder(done);
    DistinctPreorder(todo);
    NoDuplicatesConcat(Preorder(done), Preorder(todo));
  }

  /** The parts of a rearranged forest stay apart. */
  lemma {:induction false} Split(done: Forest, todo: Forest, whole: Forest)
    requires Distinct(whole) && Preorder(done) + Preorder(todo) == Preorder(whole)
    ensures Distinct(done) && Distinct(todo) && Ids(done) !! Ids(todo)
    ensures Ids(done) + Ids(todo) == Ids(whole) && Count(done) + Count(todo) == Count(whole)
  {
    SplitDistinct(done, todo, whole);
    PreorderIds(whole);
    PreorderIds(done);
    PreorderIds(todo);
  }

  predicate SameLinks(x: Menu, y: Menu) { x.list == y.list && x.next == y.next && x.parent == y.parent }

  /** Storing v at z does not disturb a forest that z is not in, nor one whose links it repeats. */
  lemma {:induction false} LinkedUpdate(m: Nodes, z: Id, v: Menu, first: Option<Id>, par: Id, f: Forest, end: Option<Id>)
    requires Linked(m, first, par, f, end) && (z !in Ids(f) || (z in m && SameLinks(m[z], v)))
    ensures Linked(m[z := v], first, par, f, end)
    decreases f
  {
    if f != Nil {
      LinkedUpdate(m, z, v, m[f.id].list, f.id, f.kids, None);
      LinkedUpdate(m, z, v, m[f.id].next, par, f.rest, end);
    }
  }

  lemma {:induction false} LinkedIds(m: Nodes, first: Option<Id>, par: Id, f: Forest, end: Option<Id>)
    requires Linked(m, first, par, f, end)
    ensures forall id :: id in Ids(f) ==> id in m
    decreases f
  {
    if f != Nil {
      LinkedIds(m, m[f.id].list, f.id, f.kids, None);
      LinkedIds(m, m[f.id].next, par, f.rest, end);
    }
  }

  lemma {:induction false} LinkedAppend(m: Nodes, first: Option<Id>, par: Id, f: Forest, mid: Option<Id>, g: Forest, end: Option<Id>)
    requires Linked(m, first, par, f, mid) && Linked(m, mid, par, g, end)
    ensures Linked(m, first, par, Append(f, g), end)
    decreases f
  {
    if f != Nil { LinkedAppend(m, m[f.id].next, par, f.rest, mid, g, end); }
  }

  lemma {:induction false} LastNext(m: Nodes, first: Option<Id>, par: Id, f: Forest, end: Option<Id>)
    requires Linked(m, first, par, f, end) && f != Nil
    ensures Last(f) in m && m[Last(f)].next == end
    decreases f
  {
    if f.rest != Nil { LastNext(m, m[f.id].next, par, f.rest, end); }
  }

  /** Giving the last entry of a chain another successor. */
  lemma {:induction false} SetEnd(m: Nodes, first: Option<Id>, par: Id, f: Forest, end: Option<Id>, end': Option<Id>)
    requires Linked(m, first, par, f, end) && f != Nil && Distinct(f)
    requires Last(f) in m
    ensures Linked(m[Last(f) := m[Last(f)].(next := end')], first, par, f, end')
    decreases f
  {
    var z := Last(f);
    LastIsRoot(f);
    if f.rest != Nil {
      LastIsRoot(f.rest);
      SetEnd(m, m[f.id].next, par, f.rest, end, end');
    }
    LinkedUpdate(m, z, m[z].(next := end'), m[f.id].list, f.id, f.kids, None);
  }

  // ---------- flat forests ----------

  /** The entry appears in menus with a text of its own. */
  predicate Prompted(x: Menu) { x.prompt.Some? && x.text }

  /** Only prompted entries have children. */
  predicate DeepFlat(m: Nodes, f: Forest) {
    match f
    case Nil => true
    case Cons(id, kids, rest) =>
      id in m && (kids == Nil || Prompted(m[id])) && DeepFlat(m, kids) && DeepFlat(m, rest)
  }

  /** The same below the top level. */
  predicate KidsFlat(m: Nodes, f: Forest) {
    match f
    case Nil => true
    case Cons(id, kids, rest) => id in m && DeepFlat(m, kids) && KidsFlat(m, rest)
  }

  /** What never changes: which entries there are, their symbols, and whether they have prompts. */
  predicate SameStatic(m: Nodes, n: Nodes) {
    m.Keys == n.Keys &&
    forall id :: id in m ==> m[id].sym == n[id].sym && m[id].text == n[id].text && m[id].prompt.Some? == n[id].prompt.Some?
  }

  /** Only entries in ids differ, and they keep what never changes. */
  predicate Touches(m: Nodes, n: Nodes, ids: set<Id>) {
    SameStatic(m, n) && forall id :: id in m && id !in ids ==> n[id] == m[id]
  }

  lemma TouchesKeeps(m: Nodes, n: Nodes, ids: set<Id>, x: Id)
    requires Touches(m, n, ids) && x in m && x !in ids
    ensures SameStatic(m, n) && x in n && n[x] == m[x]
  {
  }

  lemma TouchesMore(m: Nodes, n: Nodes, ids: set<Id>, more: set<Id>)
    requires Touches(m, n, ids) && ids <= more
    ensures Touches(m, n, more)
  {
  }

  lemma TouchesOne(m: Nodes, n: Nodes, ids: set<Id>, z: Id, v: Menu)
    requires Touches(m, n, ids) && z in n && z in ids
    requires v.sym == n[z].sym && v.text == n[z].text && v.prompt.Some? == n[z].prompt.Some?
    ensures Touches(m, n[z := v], ids)
  {
  }

  lemma TouchesTwice(m: Nodes, n: Nodes, ids: set<Id>, k: Nodes, more: set<Id>)
    requires Touches(m, n, ids) && Touches(n, k, more) && more <= ids
    ensures Touches(m, k, ids)
  {
  }

  lemma {:induction false} LinkedOutside(m: Nodes, n: Nodes, ids: set<Id>, first: Option<Id>, par: Id, f: Forest, end: Option<Id>)
    requires Touches(m, n, ids) && Ids(f) !! ids && Linked(m, first, par, f, end)
    ensures Linked(n, first, par, f, end)
    decreases f
  {
    if f != Nil {
      LinkedOutside(m, n, ids, m[f.id].list, f.id, f.kids, None);
      LinkedOutside(m, n, ids, m[f.id].next, par, f.rest, end);
    }
  }

  lemma {:induction f} FlatFrame(m: Nodes, n: Nodes, f: Forest)
    requires SameStatic(m, n)
    ensures DeepFlat(m, f) ==> DeepFlat(n, f)
    ensures KidsFlat(m, f) ==> KidsFlat(n, f)
  {
  }

  lemma {:induction f} FlatAppend(m: Nodes, f: Forest, g: Forest)
    ensures DeepFlat(m, f) && DeepFlat(m, g) ==> DeepFlat(m, Append(f, g))
    ensures KidsFlat(m, f) && KidsFlat(m, g) ==> KidsFlat(m, Append(f, g))
  {
  }

  lemma {:induction f} FlatOfDeep(m: Nodes, f: Forest)
    ensures DeepFlat(m, f) ==> KidsFlat(m, f)
  {
  }

  // ---------- dissolving an entry ----------

  /** menu gives up its chain of children, which ends at last and goes on where menu went on. */
  function Spliced(m: Nodes, menu: Id, last: Id): Nodes
    requires menu in m && last in m
  {
    var m1 := m[last := m[last].(next := m[menu].next)];
    var m2 := m1[menu := m1[menu].(next := m1[menu].list)];
    m2[menu := m2[menu].(list := None)]
  }

  lemma {:induction false} SplicedLinks(m: Nodes, x: Id, menu: Id, kids: Forest, after: Forest)
    requires kids != Nil && Distinct(Cons(menu, kids, after)) && menu in m && m[menu].parent == Some(x)
    requires Linked(m, m[menu].list, x, kids, None) && Linked(m, m[menu].next, x, after, None)
    requires Last(kids) in m
    ensures var n := Spliced(m, menu, Last(kids));
      Linked(n, Some(menu), x, Cons(menu, Nil, Nil), n[menu].next) && Linked(n, n[menu].next, x, Append(kids, after), None)
  {
    var z, next := Last(kids), m[menu].next;
    var m1 := m[z := m[z].(next := next)];
    var m2 := m1[menu := m1[menu].(next := m1[menu].list)];
    var n := m2[menu := m2[menu].(list := None)];
    LastIsRoot(kids);
    SetEnd(m, m[menu].list, x, kids, None, next);
    LinkedUpdate(m1, menu, m2[menu], m[menu].list, x, kids, next);
    LinkedUpdate(m2, menu, n[menu], m[menu].list, x, kids, next);
    LinkedUpdate(m, z, m1[z], next, x, after, None);
    LinkedUpdate(m1, menu, m2[menu], next, x, after, None);
    LinkedUpdate(m2, menu, n[menu], next, x, after, None);
    LinkedAppend(n, m[menu].list, x, kids, m[menu].next, after, None);
  }

  lemma {:induction f} AppendAssoc(f: Forest, g: Forest, h: Forest)
    ensures Append(Append(f, g), h) == Append(f, Append(g, h))
  {
  }

  lemma {:induction f} AppendNil(f: Forest)
    ensures Append(f, Nil) == f
  {
  }

  /** Moving the first tree of todo to the end of done. */
  lemma AppendOne(done: Forest, todo: Forest)
    requires todo != Nil
    ensures var one := Cons(todo.id, todo.kids, Nil);
      && Append(Append(done, one), todo.rest) == Append(done, todo)
      && Ids(Append(done, one)) == Ids(done) + {todo.id} + Ids(todo.kids)
  {
    var one := Cons(todo.id, todo.kids, Nil);
    AppendAssoc(done, one, todo.rest);
    AppendPreorder(done, one);
  }

  lemma AppendSeqs(a: seq<Id>, b: seq<Id>, c: seq<Id>)
    ensures a + (b + c) == a + b + c
  {
  }

  lemma {:induction f} DistinctAppend(f: Forest, g: Forest)
    requires Distinct(f) && Distinct(g) && Ids(f) !! Ids(g)
    ensures Distinct(Append(f, g))
  {
    if f != Nil {
      DistinctAppend(f.rest, g);
      AppendPreorder(f.rest, g);
    }
  }

  /** g is what is left of f after some of its first trees. */
  predicate Tail(g: Forest, f: Forest) { g == f || (f != Nil && Tail(g, f.rest)) }

  lemma {:induction f} TailTrans(h: Forest, g: Forest, f: Forest)
    requires Tail(h, g) && Tail(g, f)
    ensures Tail(h, f)
  {
  }

  // ---------- taking in the following entries ----------

  /** x takes in the chain that follows it, up to last. */
  function TakenIn(m: Nodes, x: Id, last: Id): Nodes
    requires x in m && last in m
  {
    var m1 := m[x := m[x].(list := m[x].next)];
    var m2 := m1[x := m1[x].(next := m1[last].next)];
    m2[last := m2[last].(next := None)]
  }

  lemma {:induction false} TakenInLinks(m: Nodes, x: Id, par: Id, done: Forest, menu: Option<Id>, todo: Forest)
    requires done != Nil && Distinct(done) && Ids(done) !! Ids(todo) && x in m && x !in Ids(done) && x !in Ids(todo)
    requires Linked(m, m[x].next, x, done, menu) && Linked(m, menu, par, todo, None) && Last(done) in m
    ensures var n := TakenIn(m, x, Last(done));
      Linked(n, n[x].list, x, done, None) && Linked(n, n[x].next, par, todo, None)
  {
    var z, first := Last(done), m[x].next;
    var m1 := m[x := m[x].(list := first)];
    var m2 := m1[x := m1[x].(next := m1[z].next)];
    LastIsRoot(done);
    LastNext(m, first, x, done, menu);
    LinkedUpdate(m, x, m1[x], first, x, done, menu);
    LinkedUpdate(m1, x, m2[x], first, x, done, menu);
    SetEnd(m2, first, x, done, menu, None);
    LinkedUpdate(m, x, m1[x], menu, par, todo, None);
    LinkedUpdate(m1, x, m2[x], menu, par, todo, None);
    LinkedUpdate(m2, z, m2[z].(next := None), menu, par, todo, None);
  }
}
