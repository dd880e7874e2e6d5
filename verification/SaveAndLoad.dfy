/** Writing a configuration file and reading it back, from values to text to values: conf_write_defconfig and
    conf_write against conf_read_simple (scripts/config/confdata.c). */
module SaveAndLoad {
  import opened Exprs
  import opened Configuration
  import opened Changes
  import opened Evaluator
  import opened Defconfig
  import opened Writer
  import opened ConfigFile
  import LineReader

  /** The symbols of the menu have legal names and the symbol table finds them. */
  ghost predicate Nameable(find: map<string, Symbol>, order: seq<Symbol>) {
    forall s :: s in order ==> s.Config? && LegalName(s.name) && s.name in find && find[s.name] == s
  }

  /** The printed lines can be read. */
  lemma PrintedIsLegal(find: map<string, Symbol>, keep: Symbol -> bool, text: Symbol -> string, order: seq<Symbol>)
    requires Nameable(find, order) && forall s :: s in order && keep(s) ==> OneLine(s, text(s))
    ensures forall i :: 0 <= i < |Expected(keep, text, order)| ==> LegalLine(find, Expected(keep, text, order)[i])
  {
    hide OneLine;
    var lines := Expected(keep, text, order);
    ExpectedLists(keep, text, order);
    forall i | 0 <= i < |lines| ensures LegalLine(find, lines[i]) {
      assert Listed(lines, lines[i].0);
    }
  }

  /** The values that printed lines stand for. */
  lemma SavedSelection(keep: Symbol -> bool, text: Symbol -> string, order: seq<Symbol>)
    ensures var v := SavedAll(map[], Expected(keep, text, order));
      && (forall s: Symbol :: s in v <==> s in order && keep(s) && LegalValue(s, text(s)))
      && (forall s: Symbol :: s in v ==> v[s] == Saved(s, text(s)))
  {
    hide LegalValue, Saved, Expected, SavedAll, DifferentSymbols;
    var lines := Expected(keep, text, order);
    ExpectedLists(keep, text, order);
    SavedAllValues(map[], lines);
    var v := SavedAll(map[], lines);
    forall s: Symbol ensures s in v <==> Listed(lines, s) && LegalValue(s, text(s)) {
      if Listed(lines, s) && LegalValue(s, text(s)) {
        var i :| 0 <= i < |lines| && lines[i].0 == s;
        assert lines[i].0 in v;
      } else {
        assert SameAt(v, map[], s);
      }
    }
    forall s: Symbol | s in v ensures v[s] == Saved(s, text(s)) {
      var i :| 0 <= i < |lines| && lines[i].0 == s;
      assert lines[i].1 == text(s);
    }
  }

  /** Reading back any printed selection of symbols gives each symbol printed with a legal value the user value it was
      printed with, and no other symbol one. */
  lemma PrintedIsRead(find: map<string, Symbol>, keep: Symbol -> bool, text: Symbol -> string, order: seq<Symbol>)
    requires Nameable(find, order) && forall s :: s in order && keep(s) ==> OneLine(s, text(s))
    ensures var v := ReadFile(find, map[], FileText(Expected(keep, text, order)));
      && (forall s: Symbol :: s in v <==> s in order && keep(s) && LegalValue(s, text(s)))
      && (forall s: Symbol :: s in v ==> v[s] == Saved(s, text(s)))
  {
    hide LegalLine, OneLine, LegalValue, Saved, Expected;
    var lines := Expected(keep, text, order);
    PrintedIsLegal(find, keep, text, order);
    assert forall i :: 0 <= i < |lines| ==> LegalLine(find, lines[i]);
    FileRoundTrip(find, map[], lines);
    SavedSelection(keep, text, order);
  }

  lemma TriValueText(s: Symbol, a: Assignment)
    requires a.WellFormed() && s.IsTri()
    ensures LegalValue(s, a.StringValue(s)) && Saved(s, a.StringValue(s)) == Val(a.Tri(s), "")
  {
    assert a.Tri(s) == a.val(s).tri;
    TriChars();
  }

  /** What is printed for a symbol: its computed value, legal for a boolean or tristate symbol. */
  lemma ComputedText(k: Kconfig, u: UserValues, rank: Symbol -> nat, s: Symbol)
    requires Acyclic(k, rank) && Typed(s)
    ensures var t, val := TextOf(Solution(k, u, rank))(s), Calc(k, u, rank, s).val;
      if s.IsTri() then LegalValue(s, t) && Saved(s, t) == Val(val.tri, "") else t == val.text && Saved(s, t) == Val(NO, val.text)
  {
    ComputedIsWellFormed(k, u, rank);
    if s.IsTri() { TriValueText(s, Solution(k, u, rank)); }
  }

  // ---------- the minimal configuration ----------

  /** The user values that come out of saving a minimal configuration and loading it again. */
  ghost function Reloaded(k: Kconfig, u: UserValues, rank: Symbol -> nat, find: map<string, Symbol>, order: seq<Symbol>)
    : UserValues
  {
    var a, def := Solution(k, u, rank), Uncached(k, u, rank);
    ReadFile(find, map[], FileText(Expected(InFileOf(k, a, def), TextOf(a), order)))
  }

  /** The menu has an entry for every symbol that is defined with a type, and for no symbol without one. */
  predicate Covers(k: Kconfig, order: seq<Symbol>) {
    (forall s :: s in k.defs && Typed(s) ==> s in order) && (forall s :: s in order ==> Typed(s))
  }

  /** The texts in a minimal configuration are numbers, or strings on one line. */
  ghost predicate TextsLegal(k: Kconfig, u: UserValues, rank: Symbol -> nat, order: seq<Symbol>) {
    forall s :: s in order && !s.IsTri() && InFile(k, Solution(k, u, rank), Calc(k, u, rank, s), s) ==>
      LegalValue(s, Calc(k, u, rank, s).val.text)
  }

  lemma ReloadedIsFile(k: Kconfig, u: UserValues, rank: Symbol -> nat, find: map<string, Symbol>, order: seq<Symbol>)
    requires Acyclic(k, rank) && Nameable(find, order) && Covers(k, order) && TextsLegal(k, u, rank, order)
    ensures FileFor(k, u, rank, Reloaded(k, u, rank, find, order))
  {
    hide LegalValue, Saved, OneLine;
    var a, def := Solution(k, u, rank), Uncached(k, u, rank);
    var keep, v := InFileOf(k, a, def), Reloaded(k, u, rank, find, order);
    forall s: Symbol | s in order && keep(s)
      ensures LegalValue(s, TextOf(a)(s)) && OneLine(s, TextOf(a)(s))
      ensures if s.IsTri() then Saved(s, TextOf(a)(s)) == Val(def(s).val.tri, "") else Saved(s, TextOf(a)(s)) == Val(NO, def(s).val.text)
    {
      ComputedText(k, u, rank, s);
      LegalIsOneLine(s, TextOf(a)(s));
    }
    PrintedIsRead(find, keep, TextOf(a), order);
    forall s: Symbol ensures s in v <==> Typed(s) && InFile(k, a, Calc(k, u, rank, s), s) {
      assert keep(s) == InFile(k, a, Calc(k, u, rank, s), s);
      if Typed(s) && keep(s) {
        CalcIsSolution(k, u, rank, s);
        PromptsNeeded(k, a, s);
      }
    }
  }

  /** Saving the minimal configuration as text and loading it gives every symbol the value it had, exactly when
      no symbol is pinned and every text is steady; in a boolean configuration always. */
  lemma MinimalConfigRestores(k: Kconfig, u: UserValues, rank: Symbol -> nat, find: map<string, Symbol>, order: seq<Symbol>)
    requires Acyclic(k, rank) && Nameable(find, order) && Covers(k, order) && TextsLegal(k, u, rank, order)
    ensures var v := Reloaded(k, u, rank, find, order);
      (forall s: Symbol :: Kept(k, u, v, rank, s))
      <==> (forall s: Symbol :: Typed(s) ==> !Pinned(k, u, rank, s) && Steady(k, u, rank, s))
    ensures BooleanOnly(k) ==> forall s: Symbol :: Kept(k, u, Reloaded(k, u, rank, find, order), rank, s)
  {
    var v := Reloaded(k, u, rank, find, order);
    ReloadedIsFile(k, u, rank, find, order);
    FileIsLossless(k, u, rank, v);
    if BooleanOnly(k) { BooleanFile(k, u, rank, v); }
  }

  /** The whole way: the minimal configuration is written from the stored state, printed, and read back through the
      line buffer. */
  method SaveMinimalAndLoad(ev: Evaluator, count: ChangeCount, order: seq<Symbol>, find: map<string, Symbol>) returns (v: UserValues)
    requires Clearable(ev) && Nameable(find, order) && Covers(ev.k, order) && TextsLegal(ev.k, ev.user, ev.rank, order)
    modifies ev, count
    ensures Faithful(ev) && ev.user == old(ev.user)
    ensures v == Reloaded(ev.k, ev.user, ev.rank, find, order)
    ensures (forall s: Symbol :: Kept(ev.k, ev.user, v, ev.rank, s))
            <==> (forall s: Symbol :: Typed(s) ==> !Pinned(ev.k, ev.user, ev.rank, s) && Steady(ev.k, ev.user, ev.rank, s))
  {
    var lines := WriteDefconfig(ev, count, order);
    v := LineReader.ReadConfig(FileText(lines), find, map[]);
    MinimalConfigRestores(ev.k, ev.user, ev.rank, find, order);
  }

  // ---------- the full configuration ----------

  /** The user values that come out of saving the full configuration and loading it again. */
  ghost function FullReloaded(k: Kconfig, u: UserValues, rank: Symbol -> nat, find: map<string, Symbol>, order: seq<Symbol>)
    : UserValues
  {
    var a, def := Solution(k, u, rank), Uncached(k, u, rank);
    ReadFile(find, map[], FileText(Expected(WriteOf(def), TextOf(a), order)))
  }

  /** The printed numbers and strings take one line each.  A number need not have a value. */
  ghost predicate TextsOnOneLine(k: Kconfig, u: UserValues, rank: Symbol -> nat, order: seq<Symbol>) {
    forall s :: s in order ==> Typed(s) && (!s.IsTri() && Calc(k, u, rank, s).write ==> OneLine(s, Calc(k, u, rank, s).val.text))
  }

  /** The symbol is printed with a value that can be read. */
  ghost predicate Readable(s: Symbol, c: Computed) { c.write && (s.IsTri() || LegalValue(s, c.val.text)) }

  /** Every symbol printed with a legal value has its computed value for a user value after loading. */
  lemma FullConfigValues(k: Kconfig, u: UserValues, rank: Symbol -> nat, find: map<string, Symbol>, order: seq<Symbol>)
    requires Acyclic(k, rank) && Nameable(find, order) && TextsOnOneLine(k, u, rank, order)
    ensures var v := FullReloaded(k, u, rank, find, order);
      && (forall s: Symbol :: s in v <==> s in order && Readable(s, Calc(k, u, rank, s)))
      && (forall s: Symbol :: s in v && s.IsTri() ==> v[s].tri == Calc(k, u, rank, s).val.tri)
      && (forall s: Symbol :: s in v && !s.IsTri() ==> v[s].text == Calc(k, u, rank, s).val.text)
  {
    hide LegalValue, Saved, OneLine, Step, Calc;
    var a, def := Solution(k, u, rank), Uncached(k, u, rank);
    forall s: Symbol | s in order && WriteOf(def)(s)
      ensures OneLine(s, TextOf(a)(s)) && (LegalValue(s, TextOf(a)(s)) <==> Readable(s, Calc(k, u, rank, s)))
      ensures if s.IsTri() then Saved(s, TextOf(a)(s)) == Val(def(s).val.tri, "") else Saved(s, TextOf(a)(s)) == Val(NO, def(s).val.text)
    {
      ComputedText(k, u, rank, s);
      if s.IsTri() { LegalIsOneLine(s, TextOf(a)(s)); }
    }
    PrintedIsRead(find, WriteOf(def), TextOf(a), order);
    forall s: Symbol ensures def(s) == Calc(k, u, rank, s) && WriteOf(def)(s) == Calc(k, u, rank, s).write {}
  }

  /** The symbol does not show; or it is left out of the file, being taken from the environment, or its line is refused,
      and the user has not given it another value than it has without one; or its value survives being stored as the
      user value. */
  ghost predicate Survives(k: Kconfig, u: UserValues, rank: Symbol -> nat, s: Symbol) {
    var a, c := Solution(k, u, rank), Calc(k, u, rank, s);
    || c.visible == NO
    || if k.Def(s).auto || !(s.IsTri() || LegalValue(s, c.val.text)) then s in u ==> Chosen(k, a, s, u[s]) == Unset(k, a, s)
       else if s.IsTri() then Storable(c.visible, c.rev, c.val.tri)
       else Clamp(k, a, s, c.val.text) == c.val.text
  }

  /** A full configuration, saved and loaded, gives every symbol the value it had exactly when no printed value lies
      above the visibility of its symbol or outside its range, and no unprinted or refused one comes from the user. */
  lemma FullConfigRestores(k: Kconfig, u: UserValues, rank: Symbol -> nat, find: map<string, Symbol>, order: seq<Symbol>)
    requires Acyclic(k, rank) && Nameable(find, order) && Covers(k, order) && TextsOnOneLine(k, u, rank, order)
    ensures var v := FullReloaded(k, u, rank, find, order);
      (forall s: Symbol :: Kept(k, u, v, rank, s))
      <==> (forall s: Symbol :: Typed(s) ==> Survives(k, u, rank, s))
  {
    hide LegalValue, FullReloaded, Survives;
    var v := FullReloaded(k, u, rank, find, order);
    FullConfigValues(k, u, rank, find, order);
    SameValues(k, u, v, rank);
    forall s: Symbol
      ensures KeptAlone(k, u, v, rank, s) <==> (Typed(s) ==> Survives(k, u, rank, s))
    {
      if Typed(s) && s !in k.defs { assert Step(k, u, Solution(k, u, rank), s).write == false; }
      CalcIsSolution(k, u, rank, s);
      FullStep(k, u, rank, v, s);
    }
  }

  lemma FullStep(k: Kconfig, u: UserValues, rank: Symbol -> nat, v: UserValues, s: Symbol)
    requires Acyclic(k, rank)
    requires Typed(s) ==> (s in v <==> Readable(s, Calc(k, u, rank, s)))
    requires s in v ==> if s.IsTri() then v[s].tri == Calc(k, u, rank, s).val.tri else v[s].text == Calc(k, u, rank, s).val.text
    ensures KeptAlone(k, u, v, rank, s) <==> (Typed(s) ==> Survives(k, u, rank, s))
  {
    hide LegalValue;
    CalcIsSolution(k, u, rank, s);
    if s.IsTri() {
      FullStepTri(k, Solution(k, u, rank), u, v, s);
    } else if Typed(s) {
      FullStepText(k, Solution(k, u, rank), u, v, s);
    }
  }

  lemma FullStepTri(k: Kconfig, a: Assignment, u: UserValues, v: UserValues, s: Symbol)
    requires s.IsTri() && a.modules == k.modules
    requires s in v <==> Written(k, a, s)
    requires s in v ==> v[s].tri == TriValue(k, u, a, s)
    ensures var val, vis, rev := TriValue(k, u, a, s), Visibility(k, a, s), ReverseDependency(k, a, s);
      TriValue(k, v, a, s) == val
      <==> if Written(k, a, s) then Storable(vis, rev, val) else vis == NO || val == UnsetTri(k, a, s)
  {
    var vis, rev := Visibility(k, a, s), ReverseDependency(k, a, s);
    assert EffectiveType(k, a, s) == Boolean ==> vis != MOD && rev != MOD;
  }

  lemma FullStepText(k: Kconfig, a: Assignment, u: UserValues, v: UserValues, s: Symbol)
    requires Typed(s) && !s.IsTri()
    requires s in v <==> Written(k, a, s) && LegalValue(s, TextValue(k, u, a, s))
    requires s in v ==> v[s].text == TextValue(k, u, a, s)
    ensures var t, vis := TextValue(k, u, a, s), Visibility(k, a, s);
      TextValue(k, v, a, s) == t
      <==> vis == NO || if s in v then Clamp(k, a, s, t) == t else t == Clamp(k, a, s, DefaultValue(k, a, s))
  {
    hide LegalValue;
    assert TextValue(k, v, a, s) == Clamp(k, a, s, if Visibility(k, a, s) != NO && s in v then v[s].text else DefaultValue(k, a, s));
    assert TextValue(k, u, a, s) == Clamp(k, a, s, if Visibility(k, a, s) != NO && s in u then u[s].text else DefaultValue(k, a, s));
  }
}
