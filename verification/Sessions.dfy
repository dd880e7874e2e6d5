/** Whole sessions of a program over the configuration (scripts/config/conf.c, scripts/config/mconf.c): looking at
    symbols, setting them and saving, in any order, and what each save prints. */
module Sessions {
  import opened Exprs
  import opened Configuration
  import opened Evaluator
  import opened Changes
  import opened TextChanges
  import opened MenuTree
  import opened Writer

  datatype Action = Look(s: Symbol) | Set(s: Symbol, val: Tristate) | SetString(s: Symbol, text: string) | Save

  /** The user values, those that the stored values were computed from, and whether the change count is above 0.  stale:
      the symbols for which, since everything was last cleared, a value was stored that they had but would not keep. */
  datatype State = State(user: UserValues, seen: UserValues, pending: bool, stale: set<Symbol>)

  // ---------- one action ----------

  /** After a change everything is cleared. */
  function Changed(u: UserValues): State { State(u, u, true, {}) }

  ghost function AfterSet(k: Kconfig, rank: Symbol -> nat, st: State, s: Symbol, val: Tristate): State {
    var c := Calc(k, st.seen, rank, s);
    if !Accepts(k, st.seen, rank, s, val) then st
    else if val != c.val.tri then Changed(SetUser(st.user, s, val))
    else st.(user := SetUser(st.user, s, val),
             stale := if Storable(c.visible, c.rev, val) then st.stale else st.stale + {s})
  }

  ghost function AfterText(k: Kconfig, rank: Symbol -> nat, st: State, s: Symbol, text: string): State {
    if s.IsTri() then
      match TextTri(text)
      case None => st
      case Some(val) => AfterSet(k, rank, st, s, val)
    else if TextInRange(k, Solution(k, st.seen, rank), s, text) && Clears(st.user, s, text) then Changed(SetText(st.user, s, text))
    else st
  }

  ghost function After(k: Kconfig, rank: Symbol -> nat, st: State, x: Action): State {
    match x
    case Look(_) => st
    case Set(s, val) => AfterSet(k, rank, st, s, val)
    case SetString(s, text) => AfterText(k, rank, st, s, text)
    case Save => if st.pending then st.(pending := false) else State(st.user, st.user, false, {})
  }

  /** What a save prints: with changes pending, the values and flags as they are found. */
  ghost function Printed(k: Kconfig, rank: Symbol -> nat, order: seq<Symbol>, st: State): seq<(Symbol, string)> {
    Complete(k, if st.pending then st.seen else st.user, rank, order)
  }

  /** What a save prints is what every symbol has after it: it keeps the user values, and no change is pending then. */
  lemma SaveShows(k: Kconfig, rank: Symbol -> nat, order: seq<Symbol>, st: State)
    ensures var next := After(k, rank, st, Save);
      Printed(k, rank, order, st) == Complete(k, next.seen, rank, order) && next.user == st.user && !next.pending
  {
  }

  /** An accepted text becomes the user value; storing the same one again does nothing, unless it is a hex number without its
      prefix, and any other one clears everything. */
  lemma TextStored(k: Kconfig, rank: Symbol -> nat, st: State, s: Symbol, text: string)
    requires !s.IsTri()
    ensures var next := After(k, rank, st, SetString(s, text));
      var user := if TextInRange(k, Solution(k, st.seen, rank), s, text) then SetText(st.user, s, text) else st.user;
      && next.user == user
      && (user != st.user ==> next.seen == user && next.pending && next.stale == {})
      && (user == st.user && (s.Type() != Hex || "0x" <= text || "0X" <= text) ==> next == st)
  {
    hide Solution, TextInRange, SetText, Clears;
    ClearsExactly(st.user, s, text);
  }

  // ---------- what the stored values know of the user values ----------

  /** The user value of s is the one seen, or was stored without a change of the value of s. */
  ghost predicate ConsistentAt(k: Kconfig, rank: Symbol -> nat, st: State, s: Symbol) {
    var c := Calc(k, st.seen, rank, s);
    || (s !in st.stale && SameAt(st.user, st.seen, s))
    || (s.IsTri() && s in st.user && st.user[s].tri == c.val.tri && (s in st.stale <==> !Storable(c.visible, c.rev, c.val.tri)))
  }

  ghost predicate Consistent(k: Kconfig, rank: Symbol -> nat, st: State) {
    forall s: Symbol :: ConsistentAt(k, rank, st, s)
  }

  /** The symbols that an action may set. */
  predicate Sets(x: Action, s: Symbol) { (x.Set? || x.SetString?) && x.s == s }

  predicate Settable(x: Action) { x.Set? ==> x.s.IsTri() }

  lemma SetKeepsConsistent(k: Kconfig, rank: Symbol -> nat, st: State, s: Symbol, val: Tristate)
    requires Consistent(k, rank, st) && s.IsTri()
    ensures Consistent(k, rank, AfterSet(k, rank, st, s, val))
    ensures AfterSet(k, rank, st, s, val).stale <= st.stale + {s}
  {
    hide Step, Calc;
    var next := AfterSet(k, rank, st, s, val);
    forall t: Symbol ensures ConsistentAt(k, rank, next, t) { assert ConsistentAt(k, rank, st, t); }
  }

  /** Every action keeps it so, and only an action on a symbol makes that symbol stale. */
  lemma ActionKeepsConsistent(k: Kconfig, rank: Symbol -> nat, st: State, x: Action)
    requires Consistent(k, rank, st) && Settable(x)
    ensures Consistent(k, rank, After(k, rank, st, x))
    ensures forall s :: s in After(k, rank, st, x).stale ==> s in st.stale || Sets(x, s)
  {
    hide Step, Calc, TextInRange, Accepts;
    match x
    case Look(_) =>
    case Set(s, val) => SetKeepsConsistent(k, rank, st, s, val);
    case SetString(s, text) =>
      if s.IsTri() && TextTri(text).Some? { SetKeepsConsistent(k, rank, st, s, TextTri(text).value); }
    case Save => assert st.pending ==> forall t: Symbol :: ConsistentAt(k, rank, st, t) ==> ConsistentAt(k, rank, st.(pending := false), t);
  }

  // ---------- a save against the user values ----------

  /** In the same surroundings, a symbol is computed as before exactly if it is not stale. */
  lemma StaleStep(k: Kconfig, rank: Symbol -> nat, st: State, s: Symbol)
    requires Acyclic(k, rank) && ConsistentAt(k, rank, st, s)
    ensures var c, d := Calc(k, st.seen, rank, s), Step(k, st.user, Solution(k, st.seen, rank), s);
      && (s !in st.stale ==> d == c)
      && (s in st.stale ==> d.val.tri != c.val.tri && d == c.(val := d.val) && c.visible != NO)
  {
    var a := Solution(k, st.seen, rank);
    CalcIsSolution(k, st.seen, rank, s);
    if s.IsTri() && s in st.user && st.user[s].tri == TriValue(k, st.seen, a, s) {
      StoredStep(k, st.seen, a, s);
      assert TriValue(k, SetUser(st.seen, s, st.user[s].tri), a, s) == TriValue(k, st.user, a, s);
    }
  }

  /** Up to the first stale symbol everything is computed as before. */
  lemma {:induction false} FreshBelow(k: Kconfig, rank: Symbol -> nat, st: State, t: Symbol)
    requires Acyclic(k, rank) && Consistent(k, rank, st)
    requires forall s :: s in st.stale ==> rank(t) <= rank(s)
    ensures Calc(k, st.user, rank, t) == Step(k, st.user, Solution(k, st.seen, rank), t)
    ensures t !in st.stale ==> Calc(k, st.user, rank, t) == Calc(k, st.seen, rank, t)
    decreases rank(t)
  {
    hide Step;
    assert ConsistentAt(k, rank, st, t);
    StaleStep(k, rank, st, t);
    SameBelowStale(k, rank, st, t);
  }

  lemma {:induction false} SameBelowStale(k: Kconfig, rank: Symbol -> nat, st: State, t: Symbol)
    requires Acyclic(k, rank) && Consistent(k, rank, st)
    requires forall s :: s in st.stale ==> rank(t) <= rank(s)
    ensures Calc(k, st.user, rank, t) == Step(k, st.user, Solution(k, st.seen, rank), t)
    decreases rank(t), 0
  {
    if Typed(t) {
      var r := rank(t);
      var a, b := Below(k, st.user, rank, r), Solution(k, st.seen, rank);
      forall x: Symbol | rank(x) < r ensures a.val(x) == b.val(x) { FreshBelow(k, rank, st, x); }
      AcyclicBelow(k, rank, t);
      StepLocal(k, st.user, rank, r, t, a, b);
    }
  }

  lemma {:induction false} LeastRanked(rank: Symbol -> nat, all: set<Symbol>) returns (s: Symbol)
    requires all != {}
    ensures s in all && forall t :: t in all ==> rank(s) <= rank(t)
    decreases |all|
  {
    s :| s in all;
    if all != {s} {
      var t := LeastRanked(rank, all - {s});
      if rank(t) < rank(s) { s := t; }
    }
  }

  /** The stored values are right for the user values exactly while no symbol is stale. */
  lemma StaleIsExact(k: Kconfig, rank: Symbol -> nat, st: State)
    requires Acyclic(k, rank) && Consistent(k, rank, st)
    ensures SameMeaning(k, st.seen, st.user, rank) <==> st.stale == {}
  {
    if st.stale == {} {
      forall t: Symbol ensures Calc(k, st.user, rank, t) == Calc(k, st.seen, rank, t) { FreshBelow(k, rank, st, t); }
    } else {
      var s := LeastRanked(rank, st.stale);
      FreshBelow(k, rank, st, s);
      assert ConsistentAt(k, rank, st, s);
      StaleStep(k, rank, st, s);
    }
  }

  /** Computed alike, printed alike. */
  lemma {:induction false} SamePrinted(k: Kconfig, u: UserValues, v: UserValues, rank: Symbol -> nat, order: seq<Symbol>)
    requires SameMeaning(k, u, v, rank)
    ensures Complete(k, v, rank, order) == Complete(k, u, rank, order)
    decreases |order|
  {
    hide Step, Calc;
    if order != [] {
      SamePrinted(k, u, v, rank, order[..|order| - 1]);
      var s := order[|order| - 1];
      assert Calc(k, v, rank, s) == Calc(k, u, rank, s) && Calc(k, v, rank, k.modules) == Calc(k, u, rank, k.modules);
      assert Solution(k, v, rank).StringValue(s) == Solution(k, u, rank).StringValue(s);
    }
  }

  lemma TextTellsValue(a: Assignment, b: Assignment, s: Symbol)
    requires a.WellFormed() && b.WellFormed() && s.IsTri() && a.StringValue(s) == b.StringValue(s)
    ensures a.Tri(s) == b.Tri(s)
  {
    assert "y"[0] == 'y' && "m"[0] == 'm' && "n"[0] == 'n';
    assert a.Tri(s) == a.val(s).tri && b.Tri(s) == b.val(s).tri;
  }

  /** A symbol that is printed both times with different values makes the difference. */
  lemma PrintedApart(k: Kconfig, u: UserValues, v: UserValues, rank: Symbol -> nat, order: seq<Symbol>, s: Symbol)
    requires Acyclic(k, rank) && s in order && s.IsTri() && Calc(k, u, rank, s).write && Calc(k, v, rank, s).write
    requires Calc(k, u, rank, s).val.tri != Calc(k, v, rank, s).val.tri
    ensures Complete(k, v, rank, order) != Complete(k, u, rank, order)
  {
    hide Step, Calc;
    ComputedIsWellFormed(k, u, rank);
    ComputedIsWellFormed(k, v, rank);
    var a, b := Solution(k, u, rank), Solution(k, v, rank);
    if a.StringValue(s) == b.StringValue(s) { TextTellsValue(a, b, s); }
    ExpectedLists(WriteOf(Uncached(k, u, rank)), TextOf(a), order);
    ExpectedLists(WriteOf(Uncached(k, v, rank)), TextOf(b), order);
    assert Listed(Complete(k, u, rank, order), s);
  }

  /** The symbol has a menu entry and is not taken from the environment. */
  predicate Shown(k: Kconfig, order: seq<Symbol>, s: Symbol) { s in order && !k.Def(s).auto }

  /** A save prints the complete configuration of the user values exactly if nothing is pending or no symbol is stale. */
  lemma SaveIsExact(k: Kconfig, rank: Symbol -> nat, order: seq<Symbol>, st: State)
    requires Acyclic(k, rank) && Consistent(k, rank, st)
    ensures !st.pending || st.stale == {} ==> Printed(k, rank, order, st) == Complete(k, st.user, rank, order)
    ensures (forall s :: s in st.stale ==> Shown(k, order, s)) ==>
              (Printed(k, rank, order, st) == Complete(k, st.user, rank, order) <==> !st.pending || st.stale == {})
  {
    StaleIsExact(k, rank, st);
    if st.stale == {} {
      SamePrinted(k, st.seen, st.user, rank, order);
    } else if forall s :: s in st.stale ==> Shown(k, order, s) {
      var s := LeastRanked(rank, st.stale);
      StalePrinted(k, rank, order, st, s);
    }
  }

  lemma StalePrinted(k: Kconfig, rank: Symbol -> nat, order: seq<Symbol>, st: State, s: Symbol)
    requires Acyclic(k, rank) && Consistent(k, rank, st) && s in st.stale && Shown(k, order, s)
    requires forall t :: t in st.stale ==> rank(s) <= rank(t)
    ensures Complete(k, st.seen, rank, order) != Complete(k, st.user, rank, order)
  {
    assert ConsistentAt(k, rank, st, s);
    StaleStep(k, rank, st, s);
    FreshBelow(k, rank, st, s);
    CalcIsSolution(k, st.seen, rank, s);
    PrintedApart(k, st.seen, st.user, rank, order, s);
  }

  // ---------- whole sessions ----------

  ghost function AfterAll(k: Kconfig, rank: Symbol -> nat, st: State, xs: seq<Action>): State {
    if xs == [] then st else After(k, rank, AfterAll(k, rank, st, xs[..|xs| - 1]), xs[|xs| - 1])
  }

  /** What the saves print. */
  ghost function Saves(k: Kconfig, rank: Symbol -> nat, order: seq<Symbol>, st: State, xs: seq<Action>): seq<seq<(Symbol, string)>> {
    if xs == [] then []
    else
      var front := xs[..|xs| - 1];
      Saves(k, rank, order, st, front)
      + if xs[|xs| - 1].Save? then [Printed(k, rank, order, AfterAll(k, rank, st, front))] else []
  }

  lemma {:induction false} SessionConsistent(k: Kconfig, rank: Symbol -> nat, st: State, xs: seq<Action>)
    requires Consistent(k, rank, st) && forall x :: x in xs ==> Settable(x)
    ensures Consistent(k, rank, AfterAll(k, rank, st, xs))
    ensures forall s :: s in AfterAll(k, rank, st, xs).stale ==> s in st.stale || exists x :: x in xs && Sets(x, s)
    decreases |xs|
  {
    hide Consistent, After;
    if xs != [] {
      var front, x := xs[..|xs| - 1], xs[|xs| - 1];
      SessionConsistent(k, rank, st, front);
      ActionKeepsConsistent(k, rank, AfterAll(k, rank, st, front), x);
      assert x in xs && forall y :: y in front ==> y in xs;
    }
  }

  /** In any session that sets symbols of the menu, a save prints the complete configuration of the user values at that
      time exactly if no change is pending, or no symbol has been given a value, since everything was last cleared,
      that it had but would not keep. */
  lemma EverySave(k: Kconfig, rank: Symbol -> nat, order: seq<Symbol>, u: UserValues, pending: bool, xs: seq<Action>)
    requires Acyclic(k, rank) && forall x :: x in xs ==> Settable(x)
    requires forall x, s :: x in xs && Sets(x, s) ==> Shown(k, order, s)
    ensures var now := AfterAll(k, rank, State(u, u, pending, {}), xs);
      Printed(k, rank, order, now) == Complete(k, now.user, rank, order) <==> !now.pending || now.stale == {}
  {
    var st := State(u, u, pending, {});
    assert forall s: Symbol :: ConsistentAt(k, rank, st, s);
    SessionConsistent(k, rank, st, xs);
    SaveIsExact(k, rank, order, AfterAll(k, rank, st, xs));
  }

  /** What the saves should print. */
  ghost function Wanted(k: Kconfig, rank: Symbol -> nat, order: seq<Symbol>, st: State, xs: seq<Action>): seq<seq<(Symbol, string)>> {
    if xs == [] then []
    else
      var front := xs[..|xs| - 1];
      Wanted(k, rank, order, st, front)
      + if xs[|xs| - 1].Save? then [Complete(k, AfterAll(k, rank, st, front).user, rank, order)] else []
  }

  /** Every save is made with nothing pending or no symbol stale. */
  ghost predicate SavesSafely(k: Kconfig, rank: Symbol -> nat, st: State, xs: seq<Action>) {
    forall n :: 0 <= n < |xs| && xs[n].Save? ==> var now := AfterAll(k, rank, st, xs[..n]); !now.pending || now.stale == {}
  }

  lemma SafelyMore(k: Kconfig, rank: Symbol -> nat, st: State, xs: seq<Action>)
    requires xs != []
    ensures var front := xs[..|xs| - 1];
      var now := AfterAll(k, rank, st, front);
      SavesSafely(k, rank, st, xs)
      <==> SavesSafely(k, rank, st, front) && (xs[|xs| - 1].Save? ==> !now.pending || now.stale == {})
  {
    hide AfterAll;
    var front := xs[..|xs| - 1];
    forall n | 0 <= n < |front| ensures front[n] == xs[n] && front[..n] == xs[..n] {}
  }

  /** All saves of a session are right exactly if every one is made with nothing pending or no symbol stale. */
  lemma {:induction false} SavesAreRight(k: Kconfig, rank: Symbol -> nat, order: seq<Symbol>, u: UserValues, pending: bool, xs: seq<Action>)
    requires Acyclic(k, rank) && forall x :: x in xs ==> Settable(x)
    requires forall x, s :: x in xs && Sets(x, s) ==> Shown(k, order, s)
    ensures var st := State(u, u, pending, {});
      && |Saves(k, rank, order, st, xs)| == |Wanted(k, rank, order, st, xs)|
      && (Saves(k, rank, order, st, xs) == Wanted(k, rank, order, st, xs) <==> SavesSafely(k, rank, st, xs))
    decreases |xs|
  {
    if xs != [] {
      hide AfterAll, SavesSafely, Complete, Printed, Acyclic;
      var st, front := State(u, u, pending, {}), xs[..|xs| - 1];
      SavesAreRight(k, rank, order, u, pending, front);
      EverySave(k, rank, order, u, pending, front);
      SafelyMore(k, rank, st, xs);
      if xs[|xs| - 1].Save? {
        var now := AfterAll(k, rank, st, front);
        SnocSame(Saves(k, rank, order, st, front), Wanted(k, rank, order, st, front),
                 Printed(k, rank, order, now), Complete(k, now.user, rank, order));
      } else {
        assert Saves(k, rank, order, st, xs) == Saves(k, rank, order, st, front) + [] == Saves(k, rank, order, st, front);
        assert Wanted(k, rank, order, st, xs) == Wanted(k, rank, order, st, front) + [] == Wanted(k, rank, order, st, front);
      }
    }
  }

  lemma SnocSame<T>(a: seq<T>, b: seq<T>, x: T, y: T)
    requires |a| == |b|
    ensures a + [x] == b + [y] <==> a == b && x == y
  {
    if a + [x] == b + [y] {
      assert a == (a + [x])[..|a|] && b == (b + [y])[..|b|];
      assert x == (a + [x])[|a|] && y == (b + [y])[|b|];
    }
  }

  // ---------- on the stored state ----------

  /** The stored state is st, and pending changes come with flags as computed. */
  ghost predicate Represents(ev: Evaluator, count: ChangeCount, st: State)
    reads ev, count
  {
    && Sound(ev) && ev.user == st.user && ev.seen == st.seen
    && (st.pending <==> count.n > 0) && (count.n > 0 ==> FlagsFresh(ev))
  }

  lemma FreshOrder(ev: Evaluator, order: seq<Symbol>)
    requires Sound(ev) && FlagsFresh(ev) && forall s :: s in order ==> Typed(s)
    ensures OrderFresh(ev.valid, ev.fields, Uncached(ev.k, ev.seen, ev.rank), order)
  {
    forall s | s in order && s in ev.valid ensures (s in ev.fields && ev.fields[s].write) == ev.def(s).write {
      assert ev.Get(s).write == ev.def(s).write;
    }
  }

  /** Looking at a symbol. */
  method LookAt(ev: Evaluator, count: ChangeCount, s: Symbol, ghost st: State)
    requires Represents(ev, count, st)
    modifies ev
    ensures Represents(ev, count, st) && s in ev.valid && Shows(ev, s)
  {
    hide Step, Calc, Sound;
    Evaluate(ev, s);
    SoundFields(ev, s);
  }

  /** What is shown of s is as computed. */
  ghost predicate Shows(ev: Evaluator, s: Symbol)
    reads ev
  {
    var c := Calc(ev.k, ev.seen, ev.rank, s);
    s.IsTri() ==> ev.Get(s).curr.tri == c.val.tri && ev.Get(s).visible == c.visible && ev.Get(s).revDep == c.rev
  }

  method SetLooked(ev: Evaluator, count: ChangeCount, s: Symbol, val: Tristate, ghost st: State)
    requires Represents(ev, count, st) && s.IsTri() && s in ev.valid && Shows(ev, s)
    modifies ev, count
    ensures Represents(ev, count, AfterSet(ev.k, ev.rank, st, s, val))
  {
    hide Step, Calc, Accepts;
    var ok := SetTristateValue(ev, count, s, val);
  }

  method SetToText(ev: Evaluator, count: ChangeCount, s: Symbol, text: string, ghost st: State)
    requires Represents(ev, count, st) && s in ev.valid && Shows(ev, s)
    modifies ev, count
    ensures Represents(ev, count, AfterText(ev.k, ev.rank, st, s, text))
  {
    hide Step, Calc, TextInRange, AfterSet;
    if !s.IsTri() {
      var ok := SetStringValue(ev, count, s, text);
    } else if TextTri(text).Some? {
      SetLooked(ev, count, s, TextTri(text).value, st);
    }
  }

  /** One action, on the stored state. */
  method Perform(m: Nodes, root: Id, ghost f: Forest, ev: Evaluator, count: ChangeCount, x: Action, ghost st: State)
    returns (lines: Option<seq<(Symbol, string)>>)
    requires IsTree(m, root, f) && Represents(ev, count, st) && Settable(x)
    modifies ev, count
    ensures Represents(ev, count, After(ev.k, ev.rank, st, x))
    ensures lines == if x.Save? then Some(Printed(ev.k, ev.rank, EntrySymbols(m, Preorder(f)), st)) else None
  {
    hide Step, Calc, AfterSet, AfterText;
    lines := None;
    match x
    case Look(s) =>
      LookAt(ev, count, s, st);
    case Set(s, val) =>
      LookAt(ev, count, s, st);
      SetLooked(ev, count, s, val, st);
    case SetString(s, text) =>
      LookAt(ev, count, s, st);
      SetToText(ev, count, s, text, st);
    case Save =>
      SoundIsClearable(ev);
      if count.n > 0 { FreshOrder(ev, EntrySymbols(m, Preorder(f))); }
      var l := ConfWrite(m, root, f, ev, count);
      lines := Some(l);
  }

  lemma OneMore(k: Kconfig, rank: Symbol -> nat, order: seq<Symbol>, st: State, xs: seq<Action>, n: nat)
    requires n < |xs|
    ensures AfterAll(k, rank, st, xs[..n + 1]) == After(k, rank, AfterAll(k, rank, st, xs[..n]), xs[n])
    ensures Saves(k, rank, order, st, xs[..n + 1]) == Saves(k, rank, order, st, xs[..n])
              + if xs[n].Save? then [Printed(k, rank, order, AfterAll(k, rank, st, xs[..n]))] else []
  {
    assert xs[..n + 1][..n] == xs[..n];
  }

  /** Any session on the stored state is the session above: all its saves print what these functions say. */
  method Session(m: Nodes, root: Id, ghost f: Forest, ev: Evaluator, count: ChangeCount, actions: seq<Action>, ghost st: State)
    returns (saved: seq<seq<(Symbol, string)>>)
    requires IsTree(m, root, f) && Represents(ev, count, st) && forall x :: x in actions ==> Settable(x)
    modifies ev, count
    ensures Represents(ev, count, AfterAll(ev.k, ev.rank, st, actions))
    ensures saved == Saves(ev.k, ev.rank, EntrySymbols(m, Preorder(f)), st, actions)
  {
    hide After, Printed, Sound;
    ghost var order := EntrySymbols(m, Preorder(f));
    saved := [];
    assert actions[..0] == [];
    for i := 0 to |actions|
      invariant Represents(ev, count, AfterAll(ev.k, ev.rank, st, actions[..i]))
      invariant saved == Saves(ev.k, ev.rank, order, st, actions[..i])
    {
      var lines := Perform(m, root, f, ev, count, actions[i], AfterAll(ev.k, ev.rank, st, actions[..i]));
      OneMore(ev.k, ev.rank, order, st, actions, i);
      if lines.Some? { saved := saved + [lines.value]; }
    }
    assert actions[..|actions|] == actions;
  }

  // ---------- a save that is wrong ----------

  /** FOO is y by default and shows up to m.  With a change pending, confirming the y and saving prints y, although the
      user values now make FOO m. */
  lemma WrongSave()
    ensures var k, rank, st := LIMITED_PROMPT, EXAMPLE_RANK, State(map[], map[], true, {});
      var now := AfterAll(k, rank, st, [Set(FOO, YES)]);
      && Acyclic(k, rank) && now.pending && now.stale == {FOO}
      && Printed(k, rank, [FOO], now) == [(FOO, "y")] && Complete(k, now.user, rank, [FOO]) == [(FOO, "m")]
  {
    hide Step, Expected, Calc, Complete;
    var k, rank, st := LIMITED_PROMPT, EXAMPLE_RANK, State(map[], map[], true, {});
    DefaultAboveVisibility();
    FooIs(map[]);
    FooIs(SetUser(map[], FOO, YES));
    assert [Set(FOO, YES)][..0] == [] && AfterAll(k, rank, st, []) == st;
    assert AfterAll(k, rank, st, [Set(FOO, YES)]) == AfterSet(k, rank, st, FOO, YES);
  }

  /** The line of FOO. */
  lemma FooIs(u: UserValues)
    ensures var k, rank := LIMITED_PROMPT, EXAMPLE_RANK;
      var c := Calc(k, u, rank, FOO);
      && c.visible == MOD && c.rev == NO && c.write
      && Complete(k, u, rank, [FOO]) == [(FOO, if c.val.tri == YES then "y" else if c.val.tri == MOD then "m" else "n")]
  {
    var k, rank := LIMITED_PROMPT, EXAMPLE_RANK;
    ExampleValues(u);
    CalcIsSolution(k, u, rank, FOO);
    assert [FOO][..0] == [];
    assert Expected(WriteOf(Uncached(k, u, rank)), TextOf(Solution(k, u, rank)), []) == [];
  }
}
