/** The linked menu tree (struct menu in scripts/config/expr.h) and the walk of conf_write and
    conf_write_defconfig (scripts/config/confdata.c), which needs no stack. */
module MenuTree {
  import opened Exprs

  type Id = nat

  /** One struct menu.  A pointer is the number of the entry it points to.  prompt holds the condition of the
      prompt, text says whether the prompt has a text, others holds the conditions of the other
      properties of the entry. */
  datatype Menu = Menu(
    list: Option<Id>, next: Option<Id>, parent: Option<Id>,
    sym: Option<Symbol>, prompt: Option<Option<Expr>>, text: bool, dep: Option<Expr>, others: seq<Option<Expr>>)

  type Nodes = map<Id, Menu>

  /** A sequence of trees: the first tree's root and children, and the trees after it. */
  datatype Forest = Nil | Cons(id: Id, kids: Forest, rest: Forest)

  function Preorder(f: Forest): seq<Id> {
    match f
    case Nil => []
    case Cons(id, kids, rest) => [id] + Preorder(kids) + Preorder(rest)
  }

  function Ids(f: Forest): set<Id> {
    match f
    case Nil => {}
    case Cons(id, kids, rest) => {id} + Ids(kids) + Ids(rest)
  }

  /** No entry occurs twice. */
  predicate Distinct(f: Forest) {
    match f
    case Nil => true
    case Cons(id, kids, rest) =>
      id !in Ids(kids) && id !in Ids(rest) && Ids(kids) !! Ids(rest) && Distinct(kids) && Distinct(rest)
  }

  /** The entries linked from first on, as children of par, are the forest f; after it comes end. */
  predicate Linked(m: Nodes, first: Option<Id>, par: Id, f: Forest, end: Option<Id>)
    decreases f
  {
    match f
    case Nil => first == end
    case Cons(id, kids, rest) =>
      && first == Some(id) && id in m && m[id].parent == Some(par)
      && Linked(m, m[id].list, id, kids, None)
      && Linked(m, m[id].next, par, rest, end)
  }

  /** The whole tree below root. */
  predicate IsTree(m: Nodes, root: Id, f: Forest) {
    && root in m && m[root].parent == None && m[root].next == None
    && Linked(m, m[root].list, root, f, None)
    && root !in Ids(f) && Distinct(f)
  }

  function Count(f: Forest): nat {
    match f
    case Nil => 0
    case Cons(_, kids, rest) => 1 + Count(kids) + Count(rest)
  }

  // ---------- the walk ----------

  /** A place in the tree: the forest that starts at the current entry, and for each entry above it, from the
      outermost in, the forest that follows it. */
  datatype Place = Place(here: Forest, above: seq<(Id, Forest)>)

  function Above(above: seq<(Id, Forest)>): seq<Id> {
    if above == [] then [] else Preorder(above[|above| - 1].1) + Above(above[..|above| - 1])
  }

  /** What the walk still has to visit. */
  function Remaining(p: Place): seq<Id> { Preorder(p.here) + Above(p.above) }

  /** The entry whose children are at this level. */
  function Owner(root: Id, above: seq<(Id, Forest)>): Id { if above == [] then root else above[|above| - 1].0 }

  /** The entries above are linked as the place says. */
  predicate LinkedAbove(m: Nodes, root: Id, above: seq<(Id, Forest)>) {
    above == [] ||
    (var (id, rest) := above[|above| - 1];
     var outer := above[..|above| - 1];
     && id in m && m[id].parent == Some(Owner(root, outer))
     && Linked(m, m[id].next, Owner(root, outer), rest, None)
     && LinkedAbove(m, root, outer))
  }

  predicate IsPlace(m: Nodes, root: Id, cur: Option<Id>, p: Place) {
    && root in m && m[root].parent == None && m[root].next == None
    && Linked(m, cur, Owner(root, p.above), p.here, None)
    && LinkedAbove(m, root, p.above)
  }

  lemma RemainingSplit(p: Place)
    requires p.here != Nil
    ensures var kids, rest := p.here.kids, p.here.rest;
      && Remaining(p) == [p.here.id] + (Preorder(kids) + (Preorder(rest) + Above(p.above)))
      && (kids != Nil ==> Preorder(kids) != []) && (rest != Nil ==> Preorder(rest) != [])
      && (kids == Nil ==> Remaining(p) == [p.here.id] + (Preorder(rest) + Above(p.above)))
      && (kids == Nil && rest == Nil ==> Remaining(p) == [p.here.id] + Above(p.above))
  {
    var kids, rest := p.here.kids, p.here.rest;
    assert ([p.here.id] + Preorder(kids) + Preorder(rest)) + Above(p.above)
        == [p.here.id] + (Preorder(kids) + (Preorder(rest) + Above(p.above)));
    assert kids == Nil ==> Preorder(kids) + (Preorder(rest) + Above(p.above)) == Preorder(rest) + Above(p.above);
    assert rest == Nil ==> Preorder(rest) + Above(p.above) == Above(p.above);
  }

  lemma AboveSnoc(above: seq<(Id, Forest)>, id: Id, rest: Forest)
    ensures Above(above + [(id, rest)]) == Preorder(rest) + Above(above)
    ensures (above + [(id, rest)])[..|above|] == above
  {
    assert (above + [(id, rest)])[..|above|] == above;
  }

  /** The step after an entry: its first child, else the next entry, else the next entry after the closest
      entry above that has one. */
  method Advance(m: Nodes, root: Id, cur: Id, ghost p: Place) returns (next: Option<Id>, ghost q: Place)
    requires IsPlace(m, root, Some(cur), p) && p.here != Nil
    ensures IsPlace(m, root, next, q) && (next == None <==> Remaining(q) == [])
    ensures next.Some? ==> q.here != Nil
    ensures Remaining(p) == [cur] + Remaining(q)
  {
    hide Preorder, Above;
    ghost var kids, rest := p.here.kids, p.here.rest;
    RemainingSplit(p);
    assert Linked(m, m[cur].list, cur, kids, None) && Linked(m, m[cur].next, Owner(root, p.above), rest, None);
    if m[cur].list.Some? {
      next, q := m[cur].list, Place(kids, p.above + [(cur, rest)]);
      AboveSnoc(p.above, cur, rest);
    } else if m[cur].next.Some? {
      next, q := m[cur].next, Place(rest, p.above);
    } else {
      next, q := Climb(m, root, m[cur].parent, p.above);
    }
  }

  /** The inner loop: up to the first entry with another one after it. */
  method Climb(m: Nodes, root: Id, parent: Option<Id>, ghost above: seq<(Id, Forest)>) returns (next: Option<Id>, ghost q: Place)
    requires root in m && m[root].parent == None && m[root].next == None
    requires parent == Some(Owner(root, above)) && LinkedAbove(m, root, above)
    ensures IsPlace(m, root, next, q) && (next == None <==> Remaining(q) == [])
    ensures next.Some? ==> q.here != Nil
    ensures Remaining(q) == Above(above)
  {
    next, q := parent, Place(Nil, above);
    while next.Some?
      invariant next.Some? ==> next == Some(Owner(root, q.above)) && LinkedAbove(m, root, q.above)
      invariant next.None? ==> q.above == []
      invariant q.here == Nil && Above(q.above) == Above(above)
      decreases if next.Some? then 1 + |q.above| else 0
    {
      if m[next.value].next.Some? {
        assert q.above != [] && q.above[|q.above| - 1].1 != Nil;
        q := Place(q.above[|q.above| - 1].1, q.above[..|q.above| - 1]);
        next := m[next.value].next;
        break;
      }
      next := m[next.value].parent;
      if q.above != [] { q := Place(Nil, q.above[..|q.above| - 1]); }
    }
  }

  /** The loop over all entries: it visits exactly the recursive preorder of the tree. */
  method Walk(m: Nodes, root: Id, ghost f: Forest) returns (visited: seq<Id>)
    requires IsTree(m, root, f)
    ensures visited == Preorder(f)
  {
    visited := [];
    var menu := m[root].list;
    ghost var p := Place(f, []);
    while menu.Some?
      invariant IsPlace(m, root, menu, p) && (menu == None <==> Remaining(p) == [])
      invariant menu.Some? ==> p.here != Nil
      invariant visited + Remaining(p) == Preorder(f)
      decreases |Remaining(p)|
    {
      visited := visited + [menu.value];
      menu, p := Advance(m, root, menu.value, p);
    }
  }
}
