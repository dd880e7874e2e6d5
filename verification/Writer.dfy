/** The two writers over the menu, conf_write_defconfig and conf_write (scripts/config/confdata.c), on the stored
    state: each symbol is printed at most once although it may have several menu entries. */
module Writer {
  import opened Exprs
  import opened Configuration
  import opened Evaluator
  import opened Changes
  import opened Defconfig
  import opened MenuTree

  // ---------- sym_get_string_default on the stored state ----------

  /** The default of a boolean or tristate symbol, in sym_get_string_default. */
  method TriDefault(ev: Evaluator, s: Symbol) returns (val: Tristate)
    requires ev.Computing(s)
    modifies ev
    ensures ev.Computing(s) && ev.Extends({}) && val == DefaultTri(ev.k, ev.sol, s)
  {
    val := NO;
    var d, vis := ev.DefaultProp(s);
    if d.Some? {
      val := ev.CalcExpr(d.value.expr, ev.rank(s));
      val := Min(val, vis);
    }
  }

  /** The default of a string, int or hex symbol. */
  method TextDefault(ev: Evaluator, s: Symbol) returns (text: string)
    requires ev.Computing(s)
    modifies ev
    ensures ev.Computing(s) && ev.Extends({})
    ensures text == DefaultValue(ev.k, ev.sol, s)
  {
    text := "";
    var d, _ := ev.DefaultProp(s);
    if d.Some? && d.value.expr.Sym? {
      assert Mentions(d.value.expr, d.value.expr.s);
      ev.CalcValue(d.value.expr.s);
      text := ev.Get(d.value.expr.s).curr.text;
    }
  }

  /** sym_get_string_default, on the stored state; it computes the visibility of s once more.  The call
      that makes MODULES valid has nothing to do here. */
  method GetStringDefault(ev: Evaluator, s: Symbol) returns (text: string)
    requires Idle(ev) && s in ev.valid && Typed(s)
    modifies ev
    ensures Idle(ev) && ev.Extends({}) && text == StringDefault(ev.k, ev.sol, s)
  {
    assert ev.Current(s) && ev.Current(ev.k.modules);
    var modulesTri := ev.Get(ev.k.modules).curr.tri;
    Enter(ev, s);
    ev.CalcVisibility(s);
    if s.IsTri() {
      text := DefaultTriText(ev, s, modulesTri);
    } else {
      text := TextDefault(ev, s);
    }
    Leave(ev, s);
  }

  method DefaultTriText(ev: Evaluator, s: Symbol, modulesTri: Tristate) returns (text: string)
    requires ev.Computing(s) && s.IsTri() && ev.DepsCurrent(s) && modulesTri == ev.sol.Tri(ev.k.modules)
    modifies ev
    ensures ev.Computing(s) && ev.Extends({}) && text == StringDefault(ev.k, ev.sol, s)
  {
    ev.DefinitionOf(s);
    var val := TriDefault(ev, s);
    val := Max(val, ev.Get(s).revDep);
    if val == MOD && modulesTri == NO { val := YES; }
    if s.Type() == Boolean && val == MOD { val := YES; }
    text := TriText(val);
  }

  // ---------- what is printed ----------

  /** The symbols of order to keep, each at its first place, with their texts. */
  ghost function Expected(keep: Symbol -> bool, text: Symbol -> string, order: seq<Symbol>): seq<(Symbol, string)> {
    if order == [] then []
    else
      var front, s := order[..|order| - 1], order[|order| - 1];
      Expected(keep, text, front) + if s !in front && keep(s) then [(s, text(s))] else []
  }

  predicate Listed(lines: seq<(Symbol, string)>, s: Symbol) { exists i :: 0 <= i < |lines| && lines[i].0 == s }

  lemma ListedMore(lines: seq<(Symbol, string)>, line: (Symbol, string), s: Symbol)
    ensures Listed(lines + [line], s) <==> Listed(lines, s) || line.0 == s
  {
    var more := lines + [line];
    assert more[|lines|] == line;
    if line.0 == s { assert more[|lines|].0 == s; }
    if Listed(lines, s) {
      var i :| 0 <= i < |lines| && lines[i].0 == s;
      assert more[i].0 == s;
    }
    if Listed(more, s) && line.0 != s {
      var i :| 0 <= i < |more| && more[i].0 == s;
      assert lines[i].0 == s;
    }
  }

  /** Exactly the symbols to keep are listed, each once and with its text. */
  lemma {:induction false} ExpectedLists(keep: Symbol -> bool, text: Symbol -> string, order: seq<Symbol>)
    ensures var lines := Expected(keep, text, order);
      && (forall s :: Listed(lines, s) <==> s in order && keep(s))
      && DifferentSymbols(lines)
      && (forall i :: 0 <= i < |lines| ==> lines[i].1 == text(lines[i].0))
    decreases |order|
  {
    if order != [] {
      var front, s := order[..|order| - 1], order[|order| - 1];
      var before := Expected(keep, text, front);
      ExpectedLists(keep, text, front);
      assert order == front + [s];
      if s !in front && keep(s) {
        forall t ensures Listed(before + [(s, text(s))], t) <==> Listed(before, t) || s == t { ListedMore(before, (s, text(s)), t); }
        forall i | 0 <= i < |before| ensures before[i].0 != s { assert Listed(before, before[i].0); }
      } else {
        assert before + [] == before;
      }
    }
  }

  /** s comes before t: at its first place t has not been seen. */
  predicate SeenBefore(order: seq<Symbol>, s: Symbol, t: Symbol) {
    exists i :: 0 <= i < |order| && order[i] == s && t !in order[..i + 1]
  }

  /** The lines stand in the order in which their symbols are first visited. */
  lemma {:induction false} ExpectedInOrder(keep: Symbol -> bool, text: Symbol -> string, order: seq<Symbol>)
    ensures var lines := Expected(keep, text, order);
      forall i, j :: 0 <= i < j < |lines| ==> SeenBefore(order, lines[i].0, lines[j].0)
    decreases |order|
  {
    if order != [] {
      var front, s := order[..|order| - 1], order[|order| - 1];
      var before, lines := Expected(keep, text, front), Expected(keep, text, order);
      ExpectedInOrder(keep, text, front);
      ExpectedLists(keep, text, front);
      forall i, j | 0 <= i < j < |lines| ensures SeenBefore(order, lines[i].0, lines[j].0) {
        assert lines[i] == before[i];
        if j < |before| {
          assert SeenBefore(front, before[i].0, before[j].0);
          var k :| 0 <= k < |front| && front[k] == before[i].0 && before[j].0 !in front[..k + 1];
          assert order[k] == front[k] && order[..k + 1] == front[..k + 1];
        } else {
          assert lines[j].0 == s && Listed(before, before[i].0);
          var k :| 0 <= k < |front| && front[k] == before[i].0;
          assert order[k] == front[k] && s !in order[..k + 1];
        }
      }
    }
  }

  /** SYMBOL_WRITE: flag gives it for every symbol when it becomes valid or was so at the start; it has been
      cleared on the symbols in done. */
  ghost predicate FlagsFrom(ev: Evaluator, flag: Symbol -> bool, done: seq<Symbol>)
    reads ev
  {
    && (forall s: Symbol {:trigger ev.Get(s)} :: s in ev.valid && Typed(s) ==> ev.Get(s).write == (s !in done && flag(s)))
    && (forall s: Symbol {:trigger flag(s)} :: s !in ev.valid && Typed(s) ==> flag(s) == ev.def(s).write)
    && (forall s :: s in done ==> s in ev.valid)
  }

  lemma FreshIsFrom(ev: Evaluator)
    requires Sound(ev) && FlagsFresh(ev)
    ensures FlagsFrom(ev, WriteOf(ev.def), [])
  {
    hide Step, Calc, Evaluator.Valid;
  }

  /** Clearing SYMBOL_WRITE. */
  method ClearWrite(ev: Evaluator, s: Symbol)
    requires Idle(ev)
    modifies ev`fields
    ensures Idle(ev) && ev.Get(s) == old(ev.Get(s)).(write := false)
    ensures forall t {:trigger ev.Get(t)} :: t != s ==> ev.Get(t) == old(ev.Get(t))
  {
    ev.fields := ev.fields[s := ev.Get(s).(write := false)];
  }

  /** sym_get_string_value of a valid symbol, outside any evaluation. */
  method GetStringValue(ev: Evaluator, s: Symbol) returns (text: string)
    requires Idle(ev) && s in ev.valid
    modifies ev
    ensures Idle(ev) && ev.Extends({}) && text == ev.sol.StringValue(s)
  {
    text := ev.StringValue(s, ev.rank(ev.k.modules) + 1);
  }

  /** The first part of both writers at an entry: is the symbol due?  Its flag is cleared. */
  method TakeDue(ev: Evaluator, s: Symbol, ghost flag: Symbol -> bool, ghost done: seq<Symbol>) returns (due: bool)
    requires Idle(ev) && Typed(s) && FlagsFrom(ev, flag, done)
    modifies ev
    ensures Idle(ev) && FlagsFrom(ev, flag, done + [s])
    ensures ev.user == old(ev.user) && ev.seen == old(ev.seen) && ev.def == old(ev.def) && ev.sol == old(ev.sol)
    ensures due <==> s !in done && flag(s)
  {
    assert flag(s) == flag(s);
    ev.CalcValue(s);
    due := ev.Get(s).write;
    if due { ClearWrite(ev, s); }
  }

  // ---------- conf_write_defconfig ----------

  method DefconfigEntry(ev: Evaluator, s: Symbol, ghost flag: Symbol -> bool, ghost done: seq<Symbol>) returns (line: Option<string>)
    requires Idle(ev) && Typed(s) && FlagsFrom(ev, flag, done)
    modifies ev
    ensures Idle(ev) && FlagsFrom(ev, flag, done + [s])
    ensures ev.user == old(ev.user) && ev.seen == old(ev.seen) && ev.def == old(ev.def) && ev.sol == old(ev.sol)
    ensures line == if s !in done && flag(s) && ev.def(s).visible > ev.def(s).rev
                       && ev.sol.StringValue(s) != StringDefault(ev.k, ev.sol, s)
                    then Some(ev.sol.StringValue(s)) else None
  {
    line := None;
    var due := TakeDue(ev, s, flag, done);
    if !due { return; }
    assert s in (done + [s]);
    assert ev.Current(s);
    if ev.Get(s).visible <= ev.Get(s).revDep { return; }
    var value := GetStringValue(ev, s);
    var default := GetStringDefault(ev, s);
    if value != default { line := Some(value); }
  }

  ghost function InFileOf(k: Kconfig, a: Assignment, def: Symbol -> Computed): Symbol -> bool {
    (s: Symbol) => InFile(k, a, def(s), s)
  }

  ghost function TextOf(a: Assignment): Symbol -> string { (s: Symbol) => a.StringValue(s) }

  ghost function WriteOf(def: Symbol -> Computed): Symbol -> bool { (s: Symbol) => def(s).write }

  method DefconfigEntries(ev: Evaluator, order: seq<Symbol>) returns (lines: seq<(Symbol, string)>)
    requires Idle(ev) && FlagsFrom(ev, WriteOf(ev.def), []) && forall s :: s in order ==> Typed(s)
    modifies ev
    ensures Idle(ev) && ev.user == old(ev.user) && ev.seen == old(ev.seen) && ev.def == old(ev.def) && ev.sol == old(ev.sol)
    ensures FlagsFrom(ev, WriteOf(ev.def), order)
    ensures lines == Expected(InFileOf(ev.k, ev.sol, ev.def), TextOf(ev.sol), order)
  {
    hide Idle, FlagsFrom, StringDefault;
    ghost var def, sol, keep := ev.def, ev.sol, InFileOf(ev.k, ev.sol, ev.def);
    lines := [];
    for i := 0 to |order|
      invariant Idle(ev) && ev.user == old(ev.user) && ev.seen == old(ev.seen) && ev.def == def && ev.sol == sol
      invariant FlagsFrom(ev, WriteOf(def), order[..i])
      invariant lines == Expected(keep, TextOf(sol), order[..i])
    {
      assert order[..i + 1] == order[..i] + [order[i]] && order[..i + 1][..i] == order[..i];
      var line := DefconfigEntry(ev, order[i], WriteOf(def), order[..i]);
      if line.Some? { lines := lines + [(order[i], line.value)]; }
    }
    assert order[..|order|] == order;
  }

  /** conf_write_defconfig, over the typed symbols of the menu in the order they are visited (nothing is printed
      for a symbol without a type). */
  method WriteDefconfig(ev: Evaluator, count: ChangeCount, order: seq<Symbol>) returns (lines: seq<(Symbol, string)>)
    requires Clearable(ev) && forall s :: s in order ==> Typed(s)
    modifies ev, count
    ensures Faithful(ev) && ev.user == old(ev.user) && FlagsFrom(ev, WriteOf(ev.def), order)
    ensures count.n == old(count.n) + 1
    ensures var a, def := Solution(ev.k, ev.user, ev.rank), Uncached(ev.k, ev.user, ev.rank);
            lines == Expected(InFileOf(ev.k, a, def), TextOf(a), order)
  {
    hide Step, Calc, Expected, InFile, Acyclic, FlagsFrom, FlagsFresh, Evaluator.Valid;
    ClearAllValid(ev, count);
    FreshIsFrom(ev);
    lines := DefconfigEntries(ev, order);
  }

  lemma PromptsNeeded(k: Kconfig, a: Assignment, s: Symbol)
    requires Visibility(k, a, s) != NO
    ensures s in k.defs
  {
  }

  // ---------- conf_write ----------

  method ConfigEntry(ev: Evaluator, s: Symbol, ghost flag: Symbol -> bool, ghost done: seq<Symbol>) returns (line: Option<string>)
    requires Idle(ev) && Typed(s) && FlagsFrom(ev, flag, done)
    modifies ev
    ensures Idle(ev) && FlagsFrom(ev, flag, done + [s])
    ensures ev.user == old(ev.user) && ev.seen == old(ev.seen) && ev.def == old(ev.def) && ev.sol == old(ev.sol)
    ensures line == if s !in done && flag(s) then Some(ev.sol.StringValue(s)) else None
  {
    line := None;
    var due := TakeDue(ev, s, flag, done);
    assert s in done + [s];
    if due {
      var value := GetStringValue(ev, s);
      line := Some(value);
    }
  }

  method ConfigEntries(ev: Evaluator, order: seq<Symbol>, ghost flag: Symbol -> bool) returns (lines: seq<(Symbol, string)>)
    requires Idle(ev) && FlagsFrom(ev, flag, []) && forall s :: s in order ==> Typed(s)
    modifies ev
    ensures Idle(ev) && ev.user == old(ev.user) && ev.seen == old(ev.seen) && ev.def == old(ev.def) && ev.sol == old(ev.sol)
    ensures lines == Expected(flag, TextOf(ev.sol), order)
  {
    ghost var def, sol := ev.def, ev.sol;
    lines := [];
    for i := 0 to |order|
      invariant Idle(ev) && ev.user == old(ev.user) && ev.seen == old(ev.seen) && ev.def == def && ev.sol == sol
      invariant FlagsFrom(ev, flag, order[..i])
      invariant lines == Expected(flag, TextOf(sol), order[..i])
    {
      assert order[..i + 1] == order[..i] + [order[i]] && order[..i + 1][..i] == order[..i];
      var line := ConfigEntry(ev, order[i], flag, order[..i]);
      if line.Some? { lines := lines + [(order[i], line.value)]; }
    }
    assert order[..|order|] == order;
  }

  /** SYMBOL_WRITE as it is found: stored where the value is valid, computed elsewhere. */
  ghost function StartFlags(valid: set<Symbol>, fields: map<Symbol, Fields>, def: Symbol -> Computed): Symbol -> bool {
    (s: Symbol) => if s in valid then s in fields && fields[s].write else def(s).write
  }

  /** Two selections print the same exactly when they agree on the symbols of the order. */
  lemma {:induction false} SameSelection(keep: Symbol -> bool, other: Symbol -> bool, text: Symbol -> string, order: seq<Symbol>)
    ensures Expected(keep, text, order) == Expected(other, text, order) <==> forall s :: s in order ==> keep(s) == other(s)
    decreases |order|
  {
    if order != [] && forall s :: s in order ==> keep(s) == other(s) {
      SameSelection(keep, other, text, order[..|order| - 1]);
    }
    ExpectedLists(keep, text, order);
    ExpectedLists(other, text, order);
    if Expected(keep, text, order) == Expected(other, text, order) {
      forall s | s in order ensures keep(s) == other(s) {
        assert Listed(Expected(keep, text, order), s) == Listed(Expected(other, text, order), s);
      }
    }
  }

  /** What conf_write prints if every flag is as computed: the writable symbols, each once. */
  ghost function Complete(k: Kconfig, u: UserValues, rank: Symbol -> nat, order: seq<Symbol>): seq<(Symbol, string)> {
    Expected(WriteOf(Uncached(k, u, rank)), TextOf(Solution(k, u, rank)), order)
  }

  /** The stored write flags of the symbols of order are as computed. */
  ghost predicate OrderFresh(valid: set<Symbol>, fields: map<Symbol, Fields>, def: Symbol -> Computed, order: seq<Symbol>) {
    forall s :: s in order && s in valid ==> (s in fields && fields[s].write) == def(s).write
  }

  /** conf_write.  Only an unchanged configuration is computed afresh; after changes the values and flags are used as
      they are found.  So every writable symbol is printed, each once and no other, with the values for the user values
      seen, exactly when nothing has changed or the flags found are those computed. */
  method WriteConfig(ev: Evaluator, count: ChangeCount, order: seq<Symbol>) returns (lines: seq<(Symbol, string)>)
    requires Clearable(ev) && (count.n > 0 ==> Sound(ev)) && forall s :: s in order ==> Typed(s)
    modifies ev, count
    ensures Sound(ev) && ev.user == old(ev.user) && count.n == 0
    ensures ev.seen == if old(count.n) > 0 then old(ev.seen) else ev.user
    ensures var a, def := Solution(ev.k, ev.seen, ev.rank), Uncached(ev.k, ev.seen, ev.rank);
            lines == Expected(if old(count.n) > 0 then StartFlags(old(ev.valid), old(ev.fields), def) else WriteOf(def), TextOf(a), order)
    ensures lines == Complete(ev.k, ev.seen, ev.rank, order)
            <==> old(count.n) == 0 || OrderFresh(old(ev.valid), old(ev.fields), Uncached(ev.k, ev.seen, ev.rank), order)
  {
    if count.n == 0 {
      lines := WriteAfresh(ev, count, order);
    } else {
      lines := WriteFound(ev, order);
    }
    count.n := 0;
  }

  /** Nothing has changed. */
  method WriteAfresh(ev: Evaluator, count: ChangeCount, order: seq<Symbol>) returns (lines: seq<(Symbol, string)>)
    requires Clearable(ev) && forall s :: s in order ==> Typed(s)
    modifies ev, count
    ensures Sound(ev) && ev.seen == ev.user == old(ev.user)
    ensures lines == Complete(ev.k, ev.seen, ev.rank, order)
  {
    hide Step, Calc, Expected, Acyclic, FlagsFrom, FlagsFresh, Evaluator.Valid;
    ClearAllValid(ev, count);
    FreshIsFrom(ev);
    lines := ConfigEntries(ev, order, WriteOf(ev.def));
  }

  /** Something has changed. */
  method WriteFound(ev: Evaluator, order: seq<Symbol>) returns (lines: seq<(Symbol, string)>)
    requires Sound(ev) && forall s :: s in order ==> Typed(s)
    modifies ev
    ensures Sound(ev) && ev.seen == old(ev.seen) && ev.user == old(ev.user)
    ensures var a, def := Solution(ev.k, ev.seen, ev.rank), Uncached(ev.k, ev.seen, ev.rank);
            && lines == Expected(StartFlags(old(ev.valid), old(ev.fields), def), TextOf(a), order)
            && (lines == Complete(ev.k, ev.seen, ev.rank, order) <==> OrderFresh(old(ev.valid), old(ev.fields), def, order))
  {
    hide Step, Calc, Expected, Acyclic;
    ghost var start := StartFlags(ev.valid, ev.fields, ev.def);
    SameSelection(start, WriteOf(ev.def), TextOf(ev.sol), order);
    lines := ConfigEntries(ev, order, start);
  }

  /** A minimal configuration counts as a change and clears the flags it visits, so a full configuration written
      right after it has no symbol in it.  No caller writes both. */
  method DefconfigThenConfig(ev: Evaluator, count: ChangeCount, order: seq<Symbol>)
    returns (minimal: seq<(Symbol, string)>, full: seq<(Symbol, string)>)
    requires Clearable(ev) && forall s :: s in order ==> Typed(s)
    modifies ev, count
    ensures full == []
  {
    minimal := WriteDefconfig(ev, count, order);
    NothingDue(ev, order);
    full := WriteNothing(ev, count, order);
  }

  /** conf_write after changes, with no flag set on the symbols of order. */
  method WriteNothing(ev: Evaluator, count: ChangeCount, order: seq<Symbol>) returns (lines: seq<(Symbol, string)>)
    requires Sound(ev) && count.n > 0 && forall s :: s in order ==> Typed(s)
    requires forall s :: s in order ==> !StartFlags(ev.valid, ev.fields, Uncached(ev.k, ev.seen, ev.rank))(s)
    modifies ev, count
    ensures lines == []
  {
    ghost var keep := StartFlags(ev.valid, ev.fields, Uncached(ev.k, ev.seen, ev.rank));
    ExpectedLists(keep, TextOf(Solution(ev.k, ev.seen, ev.rank)), order);
    SoundIsClearable(ev);
    lines := WriteConfig(ev, count, order);
    assert lines != [] ==> Listed(lines, lines[0].0);
  }

  lemma NothingDue(ev: Evaluator, order: seq<Symbol>)
    requires FlagsFrom(ev, WriteOf(ev.def), order) && forall s :: s in order ==> Typed(s)
    ensures forall s :: s in order ==> !StartFlags(ev.valid, ev.fields, ev.def)(s)
  {
    forall s | s in order ensures !StartFlags(ev.valid, ev.fields, ev.def)(s) {
      assert ev.Get(s).write == false;
    }
  }

  // ---------- with the walk over the menu ----------

  /** The typed symbols of the entries visited. */
  function EntrySymbols(m: Nodes, visited: seq<Id>): (r: seq<Symbol>)
    ensures forall s :: s in r ==> Typed(s)
  {
    if visited == [] then []
    else
      var id := visited[|visited| - 1];
      EntrySymbols(m, visited[..|visited| - 1]) +
      if id in m && m[id].sym.Some? && Typed(m[id].sym.value) then [m[id].sym.value] else []
  }

  /** Exactly the typed symbols of the entries visited, whatever else the entries hold. */
  lemma {:induction false} EntrySymbolsExactly(m: Nodes, visited: seq<Id>, s: Symbol)
    ensures s in EntrySymbols(m, visited) <==> Typed(s) && exists id :: id in visited && id in m && m[id].sym == Some(s)
    decreases |visited|
  {
    if visited != [] {
      var front, last := visited[..|visited| - 1], visited[|visited| - 1];
      EntrySymbolsExactly(m, front, s);
      assert visited == front + [last];
    }
  }

  /** conf_write on a finished menu: the lines follow the recursive preorder of the entries. */
  method ConfWrite(m: Nodes, root: Id, ghost f: Forest, ev: Evaluator, count: ChangeCount) returns (lines: seq<(Symbol, string)>)
    requires IsTree(m, root, f) && Clearable(ev) && (count.n > 0 ==> Sound(ev))
    modifies ev, count
    ensures Sound(ev) && ev.user == old(ev.user) && count.n == 0
    ensures ev.seen == if old(count.n) > 0 then old(ev.seen) else ev.user
    ensures var order := EntrySymbols(m, Preorder(f));
            lines == Complete(ev.k, ev.seen, ev.rank, order)
            <==> old(count.n) == 0 || OrderFresh(old(ev.valid), old(ev.fields), Uncached(ev.k, ev.seen, ev.rank), order)
  {
    var visited := Walk(m, root, f);
    lines := WriteConfig(ev, count, EntrySymbols(m, visited));
  }
}
