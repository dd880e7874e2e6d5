/** sym_clear_all_valid, sym_tristate_within_range and sym_set_tristate_value (scripts/config/symbol.c):
    the cache against the definition over whole runs, and the effect of a change. */
module Changes {
  import opened Exprs
  import opened Configuration
  import opened Evaluator

  // ---------- pure facts about user values ----------

  /** The user values agree except on s. */
  ghost predicate SameExcept(u: UserValues, v: UserValues, s: Symbol) {
    forall t: Symbol :: t != s ==> SameAt(u, v, t)
  }

  lemma SameUserSameStep(k: Kconfig, u: UserValues, v: UserValues, a: Assignment, t: Symbol)
    requires SameAt(u, v, t)
    ensures Step(k, v, a, t) == Step(k, u, a, t)
  {
  }

  lemma UntypedStep(k: Kconfig, u: UserValues, v: UserValues, a: Assignment, b: Assignment, t: Symbol)
    requires !Typed(t)
    ensures Step(k, v, b, t) == Step(k, u, a, t)
  {
  }

  /** A user value of s has no influence on what comes before s. */
  lemma {:induction false} ChangeIsLocal(k: Kconfig, u: UserValues, v: UserValues, rank: Symbol -> nat, s: Symbol, t: Symbol)
    requires Acyclic(k, rank) && SameExcept(u, v, s) && rank(t) <= rank(s) && t != s
    ensures Calc(k, u, rank, t) == Calc(k, v, rank, t)
    decreases rank(t)
  {
    hide Step, Acyclic;
    if Typed(t) {
      var r := rank(t);
      var a, b := Below(k, u, rank, r), Below(k, v, rank, r);
      forall x: Symbol | rank(x) < r ensures a.val(x) == b.val(x) {
        ChangeIsLocal(k, u, v, rank, s, x);
      }
      AcyclicBelow(k, rank, t);
      StepLocal(k, u, rank, r, t, a, b);
      SameUserSameStep(k, u, v, b, t);
    } else {
      UntypedStep(k, u, v, Below(k, u, rank, rank(t)), Below(k, v, rank, rank(t)), t);
    }
  }

  /** With another user value, s is computed from the same surroundings. */
  lemma ChangedStep(k: Kconfig, u: UserValues, v: UserValues, rank: Symbol -> nat, s: Symbol)
    requires Acyclic(k, rank) && SameExcept(u, v, s) && Typed(s)
    ensures Calc(k, v, rank, s) == Step(k, v, Solution(k, u, rank), s)
  {
    var r := rank(s);
    forall x: Symbol | rank(x) < r ensures Calc(k, u, rank, x) == Calc(k, v, rank, x) {
      ChangeIsLocal(k, u, v, rank, s, x);
    }
    AcyclicBelow(k, rank, s);
    StepLocal(k, v, rank, r, s, Below(k, v, rank, r), Solution(k, u, rank));
  }

  // ---------- two sets of user values ----------

  /** s has the same value under the user values v as under u. */
  ghost predicate Kept(k: Kconfig, u: UserValues, v: UserValues, rank: Symbol -> nat, s: Symbol) {
    Calc(k, v, rank, s).val == Calc(k, u, rank, s).val
  }

  /** s has the same value under v as under u if all symbols it uses have their values under u. */
  ghost predicate KeptAlone(k: Kconfig, u: UserValues, v: UserValues, rank: Symbol -> nat, s: Symbol) {
    Step(k, v, Solution(k, u, rank), s).val == Calc(k, u, rank, s).val
  }

  lemma {:induction false} SameStepsSameValues(k: Kconfig, u: UserValues, v: UserValues, rank: Symbol -> nat, s: Symbol)
    requires Acyclic(k, rank)
    requires forall t: Symbol :: KeptAlone(k, u, v, rank, t)
    ensures Kept(k, u, v, rank, s)
    decreases rank(s)
  {
    var a := Solution(k, u, rank);
    assert KeptAlone(k, u, v, rank, s);
    if Typed(s) {
      var r := rank(s);
      var b := Below(k, v, rank, r);
      forall x: Symbol | rank(x) < r ensures b.val(x) == a.val(x) {
        SameStepsSameValues(k, u, v, rank, x);
      }
      AcyclicBelow(k, rank, s);
      StepLocal(k, v, rank, r, s, b, a);
    }
  }

  lemma SameValuesSameSteps(k: Kconfig, u: UserValues, v: UserValues, rank: Symbol -> nat, s: Symbol)
    requires Acyclic(k, rank)
    requires forall t: Symbol :: Kept(k, u, v, rank, t)
    ensures KeptAlone(k, u, v, rank, s)
  {
    var a, b := Solution(k, u, rank), Solution(k, v, rank);
    assert Kept(k, u, v, rank, s);
    CalcIsSolution(k, v, rank, s);
    if Typed(s) {
      forall x: Symbol | rank(x) < rank(s) ensures b.val(x) == a.val(x) { assert Kept(k, u, v, rank, x); }
      AcyclicBelow(k, rank, s);
      StepLocal(k, v, rank, rank(s), s, b, a);
    }
  }

  /** Two sets of user values give all symbols the same values exactly when each symbol alone, among the values
      the first set gives, keeps its value under the second. */
  lemma SameValues(k: Kconfig, u: UserValues, v: UserValues, rank: Symbol -> nat)
    requires Acyclic(k, rank)
    ensures (forall s: Symbol :: Kept(k, u, v, rank, s)) <==> (forall s: Symbol :: KeptAlone(k, u, v, rank, s))
  {
    if forall s: Symbol :: KeptAlone(k, u, v, rank, s) {
      forall s: Symbol ensures Kept(k, u, v, rank, s) { SameStepsSameValues(k, u, v, rank, s); }
    }
    if forall s: Symbol :: Kept(k, u, v, rank, s) {
      forall s: Symbol ensures KeptAlone(k, u, v, rank, s) { SameValuesSameSteps(k, u, v, rank, s); }
    }
  }

  // ---------- changing the value of one symbol ----------

  function SetUser(u: UserValues, s: Symbol, val: Tristate): UserValues {
    u[s := Val(val, if s in u then u[s].text else "")]
  }

  /** sym_tristate_within_range, on the computed fields. */
  function WithinRange(typ: SymbolType, vis: Tristate, rev: Tristate, val: Tristate): bool {
    && vis != NO
    && (typ == Boolean || typ == TristateType)
    && !(typ == Boolean && val == MOD)
    && vis > rev
    && rev <= val <= vis
  }

  lemma AcceptedStep(k: Kconfig, u: UserValues, a: Assignment, s: Symbol, val: Tristate)
    requires a.modules == k.modules && s.IsTri()
    requires WithinRange(EffectiveType(k, a, s), Visibility(k, a, s), ReverseDependency(k, a, s), val)
    ensures TriValue(k, SetUser(u, s, val), a, s) == val
  {
  }

  /** A value within range is what the symbol gets. */
  lemma AcceptedTakesEffect(k: Kconfig, u: UserValues, rank: Symbol -> nat, s: Symbol, val: Tristate)
    requires Acyclic(k, rank) && s.IsTri()
    requires var c := Calc(k, u, rank, s);
             WithinRange(EffectiveType(k, Solution(k, u, rank), s), c.visible, c.rev, val)
    ensures Calc(k, SetUser(u, s, val), rank, s).val == Val(val, "n")
  {
    var a := Solution(k, u, rank);
    CalcIsSolution(k, u, rank, s);
    ChangedStep(k, u, SetUser(u, s, val), rank, s);
    assert Step(k, u, a, s).val.tri == TriValue(k, u, a, s);
    AcceptedStep(k, u, a, s, val);
  }

  lemma EffectStep(k: Kconfig, u: UserValues, a: Assignment, s: Symbol, val: Tristate)
    requires a.modules == k.modules && s.IsTri() && val != TriValue(k, u, a, s)
    ensures var vis, rev := Visibility(k, a, s), ReverseDependency(k, a, s);
      TriValue(k, SetUser(u, s, val), a, s) == val
      <==> WithinRange(EffectiveType(k, a, s), vis, rev, val) || (vis != NO && val == rev)
  {
    var vis, rev := Visibility(k, a, s), ReverseDependency(k, a, s);
    assert EffectiveType(k, a, s) == Boolean ==> vis != MOD && rev != MOD;
  }

  /** What the range check refuses would not take effect, except for one value of a visible symbol: the bound
      that a select sets, when it reaches the visibility. */
  lemma RangeIsExact(k: Kconfig, u: UserValues, rank: Symbol -> nat, s: Symbol, val: Tristate)
    requires Acyclic(k, rank) && s.IsTri() && val != Calc(k, u, rank, s).val.tri
    ensures var c := Calc(k, u, rank, s);
      Calc(k, SetUser(u, s, val), rank, s).val.tri == val
      <==> WithinRange(EffectiveType(k, Solution(k, u, rank), s), c.visible, c.rev, val) || (c.visible != NO && val == c.rev)
  {
    var a := Solution(k, u, rank);
    CalcIsSolution(k, u, rank, s);
    ChangedStep(k, u, SetUser(u, s, val), rank, s);
    assert Step(k, u, a, s).val.tri == TriValue(k, u, a, s);
    EffectStep(k, u, a, s, val);
  }

  /** Storing val makes the symbol val. */
  ghost predicate Takes(k: Kconfig, u: UserValues, rank: Symbol -> nat, s: Symbol, val: Tristate) {
    Calc(k, SetUser(u, s, val), rank, s).val.tri == val
  }

  lemma TakesOnly(k: Kconfig, u: UserValues, a: Assignment, s: Symbol, val: Tristate)
    requires a.modules == k.modules && s.IsTri() && Visibility(k, a, s) != NO
    ensures var vis, rev := Visibility(k, a, s), ReverseDependency(k, a, s);
      TriValue(k, SetUser(u, s, val), a, s) == val
      <==> (val == rev || rev <= val <= vis) && !(EffectiveType(k, a, s) == Boolean && val == MOD)
  {
    assert EffectiveType(k, a, s) == Boolean ==> Visibility(k, a, s) != MOD && ReverseDependency(k, a, s) != MOD;
  }

  lemma TakesStep(k: Kconfig, u: UserValues, rank: Symbol -> nat, s: Symbol, val: Tristate)
    requires Acyclic(k, rank) && s.IsTri() && Calc(k, u, rank, s).visible != NO
    ensures var c := Calc(k, u, rank, s);
      Takes(k, u, rank, s, val)
      <==> (val == c.rev || c.rev <= val <= c.visible) && !(EffectiveType(k, Solution(k, u, rank), s) == Boolean && val == MOD)
  {
    hide TriValue, Visibility, ReverseDependency, EffectiveType;
    var a, v := Solution(k, u, rank), SetUser(u, s, val);
    CalcIsSolution(k, u, rank, s);
    ChangedStep(k, u, v, rank, s);
    assert Step(k, v, a, s).val.tri == TriValue(k, v, a, s);
    TakesOnly(k, u, a, s, val);
  }

  /** A value is within range exactly if the symbol shows, takes it, and would take another one too: if there is something to
      choose. */
  lemma RangeIsChoice(k: Kconfig, u: UserValues, rank: Symbol -> nat, s: Symbol, val: Tristate)
    requires Acyclic(k, rank) && s.IsTri()
    ensures var c := Calc(k, u, rank, s);
      WithinRange(EffectiveType(k, Solution(k, u, rank), s), c.visible, c.rev, val)
      <==> c.visible != NO && Takes(k, u, rank, s, val) && exists other :: other != val && Takes(k, u, rank, s, other)
  {
    hide Takes;
    var a, c := Solution(k, u, rank), Calc(k, u, rank, s);
    if c.visible != NO {
      CalcIsSolution(k, u, rank, s);
      assert EffectiveType(k, a, s) == Boolean ==> c.visible != MOD && c.rev != MOD;
      forall v: Tristate
        ensures Takes(k, u, rank, s, v)
                <==> (v == c.rev || c.rev <= v <= c.visible) && !(EffectiveType(k, a, s) == Boolean && v == MOD)
      {
        TakesStep(k, u, rank, s, v);
      }
      assert Takes(k, u, rank, s, c.rev) && (c.visible > c.rev ==> Takes(k, u, rank, s, c.visible));
    }
  }

  /** When storing the value a symbol already has is harmless: a value above the visibility, which only a
      default can have given it, is cut down once it is a user value. */
  predicate Storable(vis: Tristate, rev: Tristate, val: Tristate) { vis == NO || val <= vis || val == rev }

  lemma StoredStep(k: Kconfig, u: UserValues, a: Assignment, s: Symbol)
    requires a.modules == k.modules && s.IsTri()
    ensures var val := TriValue(k, u, a, s);
      TriValue(k, SetUser(u, s, val), a, s) == val
      <==> Storable(Visibility(k, a, s), ReverseDependency(k, a, s), val)
  {
    var vis, rev := Visibility(k, a, s), ReverseDependency(k, a, s);
    assert EffectiveType(k, a, s) == Boolean ==> vis != MOD && rev != MOD;
  }

  /** The exact condition under which a symbol keeps a value it already has when that value is stored. */
  lemma StoredAgain(k: Kconfig, u: UserValues, rank: Symbol -> nat, s: Symbol)
    requires Acyclic(k, rank) && s.IsTri()
    ensures var c := Calc(k, u, rank, s);
      Calc(k, SetUser(u, s, c.val.tri), rank, s).val == c.val <==> Storable(c.visible, c.rev, c.val.tri)
  {
    var a := Solution(k, u, rank);
    var v := SetUser(u, s, Calc(k, u, rank, s).val.tri);
    CalcIsSolution(k, u, rank, s);
    ChangedStep(k, u, v, rank, s);
    assert Step(k, u, a, s).val == Val(TriValue(k, u, a, s), "n");
    assert Step(k, v, a, s).val == Val(TriValue(k, v, a, s), "n");
    StoredStep(k, u, a, s);
  }

  /** All fields of the symbol itself are computed as before. */
  lemma StoredAgainStep(k: Kconfig, u: UserValues, rank: Symbol -> nat, s: Symbol, a: Assignment)
    requires Acyclic(k, rank) && s.IsTri() && a == Below(k, u, rank, rank(s))
    requires var c := Calc(k, u, rank, s); Storable(c.visible, c.rev, c.val.tri)
    ensures Step(k, SetUser(u, s, Calc(k, u, rank, s).val.tri), a, s) == Calc(k, u, rank, s)
  {
    assert a.modules == k.modules && Calc(k, u, rank, s).val.tri == TriValue(k, u, a, s);
    StoredStep(k, u, a, s);
  }

  /** Then no other value changes either. */
  lemma {:induction false} StoredAgainKeepsAll(k: Kconfig, u: UserValues, rank: Symbol -> nat, s: Symbol, t: Symbol)
    requires Acyclic(k, rank) && s.IsTri()
    requires var c := Calc(k, u, rank, s); Storable(c.visible, c.rev, c.val.tri)
    ensures Calc(k, SetUser(u, s, Calc(k, u, rank, s).val.tri), rank, t) == Calc(k, u, rank, t)
    decreases rank(t)
  {
    hide Step, Acyclic;
    var v := SetUser(u, s, Calc(k, u, rank, s).val.tri);
    if Typed(t) {
      var r := rank(t);
      var a, b := Below(k, u, rank, r), Below(k, v, rank, r);
      forall x: Symbol | rank(x) < r ensures a.val(x) == b.val(x) {
        StoredAgainKeepsAll(k, u, rank, s, x);
      }
      AcyclicBelow(k, rank, t);
      StepLocal(k, v, rank, r, t, b, a);
      if t == s { StoredAgainStep(k, u, rank, s, a); } else { SameUserSameStep(k, u, v, a, t); }
    } else {
      UntypedStep(k, u, v, Below(k, u, rank, rank(t)), Below(k, v, rank, rank(t)), t);
    }
  }

  // ---------- a symbol that does not keep its value ----------

  const MODULES := Config("MODULES", Boolean)
  const FOO := Config("FOO", TristateType)

  /** FOO has the prompt condition m and the default y; MODULES is y. */
  const LIMITED_PROMPT := Kconfig(
    map[MODULES := Definition([Default(None, Sym(SYM_YES))], None, None, false),
        FOO := Definition([Prompt(Some(Sym(SYM_MOD))), Default(None, Sym(SYM_YES))], None, None, false)],
    MODULES, (t: string, b: int) => 0, (h: bool, n: int) => "")

  ghost const EXAMPLE_RANK: Symbol -> nat := (s: Symbol) => if !Typed(s) then 0 else if s == MODULES then 1 else 2

  lemma ExampleAcyclic()
    ensures Acyclic(LIMITED_PROMPT, EXAMPLE_RANK)
  {
  }

  /** The properties of a symbol with the prompt condition m and the default y. */
  lemma LimitedProps(a: Assignment, props: seq<Prop>)
    requires props == [Prompt(Some(Sym(SYM_MOD))), Default(None, Sym(SYM_YES))]
    requires a.Tri(SYM_YES) == YES && a.Tri(SYM_MOD) == MOD
    ensures OrPrompts(a, props) == MOD && FirstDefault(a, props) == Some(props[1])
  {
    assert props[..1][..0] == [] && props[..2][..1] == props[..1];
    assert OrPrompts(a, props[..1]) == MOD;
    assert FirstDefault(a, props) == FirstDefault(a, props[1..]);
  }

  /** In the example, whatever the user values: MODULES is y, and FOO shows up to m and has the default y. */
  lemma ExampleValues(u: UserValues)
    ensures var k, rank := LIMITED_PROMPT, EXAMPLE_RANK;
      var a := Solution(k, u, rank);
      && Acyclic(k, rank) && a.Tri(MODULES) == YES && Visibility(k, a, FOO) == MOD
      && ReverseDependency(k, a, FOO) == NO && DefaultTri(k, a, FOO) == YES
  {
    var k, rank := LIMITED_PROMPT, EXAMPLE_RANK;
    var a := Solution(k, u, rank);
    ExampleAcyclic();
    CalcIsSolution(k, u, rank, MODULES);
    assert a.Tri(SYM_YES) == YES && a.Tri(SYM_MOD) == MOD;
    var props := k.Def(MODULES).props;
    assert props == [Default(None, Sym(SYM_YES))] && props[..0] == [] && OrPrompts(a, props) == NO;
    assert Step(k, u, a, MODULES).val.tri == TriValue(k, u, a, MODULES) == YES;
    LimitedProps(a, k.Def(FOO).props);
  }

  /** FOO is y by default; storing that y as the user value makes it m. */
  lemma DefaultAboveVisibility()
    ensures Acyclic(LIMITED_PROMPT, EXAMPLE_RANK)
    ensures Calc(LIMITED_PROMPT, map[], EXAMPLE_RANK, FOO).val.tri == YES
    ensures Calc(LIMITED_PROMPT, SetUser(map[], FOO, YES), EXAMPLE_RANK, FOO).val.tri == MOD
  {
    ExampleValues(map[]);
    ExampleValues(SetUser(map[], FOO, YES));
    CalcIsSolution(LIMITED_PROMPT, map[], EXAMPLE_RANK, FOO);
    CalcIsSolution(LIMITED_PROMPT, SetUser(map[], FOO, YES), EXAMPLE_RANK, FOO);
  }

  // ---------- the stored state against the definition ----------

  ghost function Uncached(k: Kconfig, u: UserValues, rank: Symbol -> nat): Symbol -> Computed {
    (s: Symbol) => Calc(k, u, rank, s)
  }

  /** What holds whenever no value is being computed: every valid symbol has the uncached value that the user values
      seen at its evaluation give it. */
  ghost predicate Sound(ev: Evaluator)
    reads ev
  {
    && ev.Valid() && ev.active == {} && ev.k.modules in ev.valid
    && Acyclic(ev.k, ev.rank)
    && ev.def == Uncached(ev.k, ev.seen, ev.rank) && ev.sol == Solution(ev.k, ev.seen, ev.rank)
  }

  /** No symbol is computed differently under v. */
  ghost predicate SameMeaning(k: Kconfig, u: UserValues, v: UserValues, rank: Symbol -> nat) {
    forall t: Symbol :: Calc(k, v, rank, t) == Calc(k, u, rank, t)
  }

  /** The cache is right: what it was computed from means the same as the user values now. */
  ghost predicate Faithful(ev: Evaluator)
    reads ev
  {
    Sound(ev) && SameMeaning(ev.k, ev.seen, ev.user, ev.rank)
  }

  /** SYMBOL_WRITE is as computed wherever the value is valid. */
  ghost predicate FlagsFresh(ev: Evaluator)
    reads ev
  {
    forall s: Symbol :: s in ev.valid && Typed(s) ==> ev.Get(s).write == ev.def(s).write
  }

  /** What survives a change of the user values. */
  ghost predicate Clearable(ev: Evaluator)
    reads ev
  {
    && Acyclic(ev.k, ev.rank) && ev.active == {} && {SYM_YES, SYM_MOD, SYM_NO} <= ev.valid
    && (forall s: Symbol :: s in ev.valid && !Typed(s) ==> ev.Get(s).curr == Untyped(s))
    && ev.modulesVal == ev.Get(ev.k.modules).curr.tri
  }

  lemma SoundIsClearable(ev: Evaluator)
    requires Sound(ev)
    ensures Clearable(ev)
  {
    forall s: Symbol | s in ev.valid && !Typed(s) ensures ev.Get(s).curr == Untyped(s) {
      assert Explained(ev.k, ev.seen, ev.def, ev.sol, s);
    }
  }

  /** The definition explains every symbol. */
  lemma DefinitionExplains(k: Kconfig, u: UserValues, rank: Symbol -> nat)
    requires Acyclic(k, rank)
    ensures forall s: Symbol {:trigger Explained(k, u, Uncached(k, u, rank), Solution(k, u, rank), s)}
              :: Explained(k, u, Uncached(k, u, rank), Solution(k, u, rank), s)
    ensures forall s: Symbol {:trigger Grounded(k, rank, s)} :: Grounded(k, rank, s)
  {
    forall s: Symbol ensures Explained(k, u, Uncached(k, u, rank), Solution(k, u, rank), s) {
      CalcIsSolution(k, u, rank, s);
    }
    forall s: Symbol ensures Grounded(k, rank, s) {
      if Typed(s) { AcyclicBelow(k, rank, s); }
    }
  }

  /** The global sym_change_count (scripts/config/confdata.c). */
  class ChangeCount {
    var n: nat

    constructor ()
      ensures n == 0
    {
      n := 0;
    }
  }

  /** sym_clear_all_valid: everything but the built-in constants and the symbols of type S_OTHER becomes
      invalid, which counts as a change, and MODULES is computed. */
  method ClearAllValid(ev: Evaluator, count: ChangeCount)
    requires Clearable(ev)
    modifies ev, count
    ensures Faithful(ev) && FlagsFresh(ev) && ev.user == ev.seen == old(ev.user) && count.n == old(count.n) + 1
  {
    Invalidate(ev);
    count.n := count.n + 1;
    ev.CalcValue(ev.k.modules);
  }

  /** The loop of sym_clear_all_valid. */
  method Invalidate(ev: Evaluator)
    requires Clearable(ev)
    modifies ev
    ensures ev.Valid() && ev.active == {} && Acyclic(ev.k, ev.rank) && ev.user == ev.seen == old(ev.user)
    ensures ev.def == Uncached(ev.k, ev.user, ev.rank) && ev.sol == Solution(ev.k, ev.user, ev.rank)
    ensures forall s: Symbol :: s in ev.valid ==> !Typed(s)
  {
    hide Step, Calc, Mentions, Explained, Grounded, Untyped, Uses;
    ev.valid := set s | s in ev.valid && (s in {SYM_YES, SYM_MOD, SYM_NO} || s.Type() == Other);
    ev.seen, ev.def, ev.sol := ev.user, Uncached(ev.k, ev.user, ev.rank), Solution(ev.k, ev.user, ev.rank);
    DefinitionExplains(ev.k, ev.user, ev.rank);
    UntypedCurrent(ev);
  }

  lemma UntypedCurrent(ev: Evaluator)
    requires forall s: Symbol {:trigger Explained(ev.k, ev.seen, ev.def, ev.sol, s)} :: Explained(ev.k, ev.seen, ev.def, ev.sol, s)
    requires forall s: Symbol :: s in ev.valid ==> !Typed(s) && ev.Get(s).curr == Untyped(s)
    ensures forall s: Symbol :: s in ev.valid ==> ev.Current(s)
  {
    forall s: Symbol | s in ev.valid ensures ev.Current(s) {
      assert Explained(ev.k, ev.seen, ev.def, ev.sol, s);
    }
  }

  /** Other user values, after which everything is cleared. */
  method Change(ev: Evaluator, count: ChangeCount, user: UserValues)
    requires Sound(ev)
    modifies ev, count
    ensures Faithful(ev) && FlagsFresh(ev) && ev.user == ev.seen == user && count.n == old(count.n) + 1
  {
    SoundIsClearable(ev);
    ev.user := user;
    ClearAllValid(ev, count);
  }

  /** Evaluating a symbol keeps all this. */
  method Evaluate(ev: Evaluator, s: Symbol)
    requires Sound(ev)
    modifies ev
    ensures Sound(ev) && ev.user == old(ev.user) && ev.seen == old(ev.seen) && old(ev.valid) <= ev.valid && s in ev.valid
    ensures old(FlagsFresh(ev)) ==> FlagsFresh(ev)
  {
    hide Step, Calc, Acyclic, Solution, Uncached, Explained, Grounded;
    ev.CalcValue(s);
  }

  /** Any sequence of evaluations, in any order: every symbol that is valid afterwards holds exactly the
      value, visibility and dependencies of the uncached definition, and its write flag. */
  method EvaluateAll(ev: Evaluator, count: ChangeCount, order: seq<Symbol>)
    requires Clearable(ev)
    modifies ev, count
    ensures Faithful(ev) && ev.user == old(ev.user)
    ensures forall s: Symbol :: s in order ==> s in ev.valid
    ensures forall s: Symbol :: s in ev.valid ==> ev.Get(s).curr == Calc(ev.k, ev.user, ev.rank, s).val
    ensures forall s: Symbol :: s in ev.valid && Typed(s) ==>
              var c := Calc(ev.k, ev.user, ev.rank, s);
              ev.Get(s) == Fields(c.val, c.visible, c.dir, c.rev, c.write)
  {
    hide Step, Calc, Acyclic, Sound, FlagsFresh, SameMeaning;
    ClearAllValid(ev, count);
    for i := 0 to |order|
      invariant Faithful(ev) && FlagsFresh(ev) && ev.user == old(ev.user)
      invariant forall j :: 0 <= j < i ==> order[j] in ev.valid
    {
      Evaluate(ev, order[i]);
    }
    FaithfulEverywhere(ev);
  }

  /** While the cache is right and the flags are as computed, all fields of the valid symbols are the uncached ones. */
  lemma FaithfulEverywhere(ev: Evaluator)
    requires Faithful(ev) && FlagsFresh(ev)
    ensures forall s: Symbol :: s in ev.valid ==> ev.Get(s).curr == Calc(ev.k, ev.user, ev.rank, s).val
    ensures forall s: Symbol :: s in ev.valid && Typed(s) ==>
              var c := Calc(ev.k, ev.user, ev.rank, s);
              ev.Get(s) == Fields(c.val, c.visible, c.dir, c.rev, c.write)
  {
    forall s: Symbol | s in ev.valid
      ensures ev.Get(s).curr == Calc(ev.k, ev.user, ev.rank, s).val && ev.def(s) == Calc(ev.k, ev.user, ev.rank, s)
    {
      assert ev.Current(s);
    }
  }

  /** The symbol has the value or it is within range. */
  ghost predicate Accepts(k: Kconfig, u: UserValues, rank: Symbol -> nat, s: Symbol, val: Tristate) {
    var c := Calc(k, u, rank, s);
    val == c.val.tri || WithinRange(EffectiveType(k, Solution(k, u, rank), s), c.visible, c.rev, val)
  }

  /** The user value val would be the value of s. */
  ghost predicate Reaches(k: Kconfig, u: UserValues, rank: Symbol -> nat, s: Symbol, val: Tristate) {
    var a, c := Solution(k, u, rank), Calc(k, u, rank, s);
    if c.visible == NO then val == UnsetTri(k, a, s)
    else val == c.rev || (c.rev <= val <= c.visible && !(EffectiveType(k, a, s) == Boolean && val == MOD))
  }

  lemma ReachStep(k: Kconfig, u: UserValues, a: Assignment, s: Symbol, val: Tristate)
    requires a.modules == k.modules && s.IsTri()
    ensures var vis, rev := Visibility(k, a, s), ReverseDependency(k, a, s);
      TriValue(k, SetUser(u, s, val), a, s) == val
      <==> if vis == NO then val == UnsetTri(k, a, s)
           else val == rev || (rev <= val <= vis && !(EffectiveType(k, a, s) == Boolean && val == MOD))
  {
    var vis, rev := Visibility(k, a, s), ReverseDependency(k, a, s);
    assert EffectiveType(k, a, s) == Boolean ==> vis != MOD && rev != MOD;
  }

  /** A user value reaches its symbol exactly if it lies between the select bound and the visibility. */
  lemma ReachIsExact(k: Kconfig, u: UserValues, rank: Symbol -> nat, s: Symbol, val: Tristate)
    requires Acyclic(k, rank) && s.IsTri()
    ensures Calc(k, SetUser(u, s, val), rank, s).val.tri == val <==> Reaches(k, u, rank, s, val)
  {
    var a := Solution(k, u, rank);
    CalcIsSolution(k, u, rank, s);
    ChangedStep(k, u, SetUser(u, s, val), rank, s);
    assert Step(k, u, a, s).val.tri == TriValue(k, u, a, s);
    ReachStep(k, u, a, s, val);
  }

  /** A stored value that the cache already has for its symbol leaves the cache right exactly if it is Storable. */
  lemma StoredMeaning(k: Kconfig, u: UserValues, rank: Symbol -> nat, s: Symbol)
    requires Acyclic(k, rank) && s.IsTri()
    ensures var c := Calc(k, u, rank, s);
      SameMeaning(k, u, SetUser(u, s, c.val.tri), rank) <==> Storable(c.visible, c.rev, c.val.tri)
  {
    var c := Calc(k, u, rank, s);
    StoredAgain(k, u, rank, s);
    if Storable(c.visible, c.rev, c.val.tri) {
      forall t: Symbol ensures Calc(k, SetUser(u, s, c.val.tri), rank, t) == Calc(k, u, rank, t) {
        StoredAgainKeepsAll(k, u, rank, s, t);
      }
    }
  }

  /** sym_set_tristate_value: accepted exactly when the symbol already has the value or the value is within
      range.  A value that differs clears the cache; it takes effect exactly if it reaches its symbol, and always if
      the cache was right.  A value the symbol already has is stored without clearing anything, and a right cache
      stays right exactly when it is Storable.  A refused value changes nothing.  The write flags stay as computed,
      and all of them are after a change. */
  method SetTristateValue(ev: Evaluator, count: ChangeCount, s: Symbol, val: Tristate) returns (ok: bool)
    requires Sound(ev) && s in ev.valid && s.IsTri()
    modifies ev, count
    ensures Sound(ev)
    ensures ok <==> old(Accepts(ev.k, ev.seen, ev.rank, s, val))
    ensures ev.user == if ok then SetUser(old(ev.user), s, val) else old(ev.user)
    ensures ok && old(ev.Get(s).curr.tri) != val ==>
              && ev.seen == ev.user && FlagsFresh(ev) && count.n == old(count.n) + 1
              && (Calc(ev.k, ev.user, ev.rank, s).val.tri == val <==> old(Reaches(ev.k, ev.user, ev.rank, s, val)))
              && (old(Faithful(ev)) ==> Calc(ev.k, ev.user, ev.rank, s).val.tri == val)
    ensures !(ok && old(ev.Get(s).curr.tri) != val) ==>
              && count.n == old(count.n) && ev.seen == old(ev.seen) && ev.modulesVal == old(ev.modulesVal)
              && ev.fields == old(ev.fields) && ev.valid == old(ev.valid)
    ensures old(Faithful(ev)) ==>
              (Faithful(ev) <==> old(ev.Get(s).curr.tri) != val || Storable(old(ev.Get(s).visible), old(ev.Get(s).revDep), val))
    ensures old(FlagsFresh(ev)) ==> FlagsFresh(ev)
  {
    hide Step, Calc;
    SoundFields(ev, s);
    SoundFields(ev, ev.k.modules);
    var oldVal := ev.Get(s).curr.tri;
    var typ := if s.Type() == TristateType && ev.modulesVal == NO then Boolean else s.Type();
    assert typ == EffectiveType(ev.k, ev.sol, s);
    if oldVal != val && !WithinRange(typ, ev.Get(s).visible, ev.Get(s).revDep, val) {
      return false;
    }
    if oldVal != val {
      TakesEffect(ev, s, val);
      Change(ev, count, SetUser(ev.user, s, val));
    } else {
      StoreSame(ev, s);
    }
    ok := true;
  }

  /** When an accepted new value takes effect. */
  lemma TakesEffect(ev: Evaluator, s: Symbol, val: Tristate)
    requires Sound(ev) && s.IsTri() && Accepts(ev.k, ev.seen, ev.rank, s, val) && val != Calc(ev.k, ev.seen, ev.rank, s).val.tri
    ensures Calc(ev.k, SetUser(ev.user, s, val), ev.rank, s).val.tri == val <==> Reaches(ev.k, ev.user, ev.rank, s, val)
    ensures Faithful(ev) ==> Calc(ev.k, SetUser(ev.user, s, val), ev.rank, s).val.tri == val
  {
    ReachIsExact(ev.k, ev.user, ev.rank, s, val);
    if Faithful(ev) {
      SameType(ev.k, ev.seen, ev.user, ev.rank, s);
      AcceptedTakesEffect(ev.k, ev.user, ev.rank, s, val);
    }
  }

  lemma SameType(k: Kconfig, u: UserValues, v: UserValues, rank: Symbol -> nat, s: Symbol)
    requires SameMeaning(k, u, v, rank)
    ensures EffectiveType(k, Solution(k, v, rank), s) == EffectiveType(k, Solution(k, u, rank), s)
  {
    assert Calc(k, v, rank, k.modules) == Calc(k, u, rank, k.modules);
  }

  /** Every valid symbol holds the uncached value and dependencies for the user values seen. */
  lemma SoundFields(ev: Evaluator, s: Symbol)
    requires Sound(ev) && s in ev.valid
    ensures var c := Calc(ev.k, ev.seen, ev.rank, s);
      && ev.Get(s).curr == c.val
      && (Typed(s) ==> ev.Get(s).visible == c.visible && ev.Get(s).dirDep == c.dir && ev.Get(s).revDep == c.rev)
  {
    assert ev.def(s) == Calc(ev.k, ev.seen, ev.rank, s);
    assert ev.Current(s);
  }

  /** The branch that stores a value equal to the current one: no flag changes and nothing is cleared. */
  method StoreSame(ev: Evaluator, s: Symbol)
    requires Sound(ev) && s in ev.valid && s.IsTri()
    modifies ev`user
    ensures Sound(ev) && ev.user == SetUser(old(ev.user), s, ev.Get(s).curr.tri)
    ensures old(Faithful(ev)) ==> (Faithful(ev) <==> Storable(ev.Get(s).visible, ev.Get(s).revDep, ev.Get(s).curr.tri))
  {
    hide Step, Calc;
    SoundFields(ev, s);
    if SameMeaning(ev.k, ev.seen, ev.user, ev.rank) { SameMeaningStored(ev.k, ev.seen, ev.user, ev.rank, s); }
    SetOne(ev, s, Val(ev.Get(s).curr.tri, if s in ev.user then ev.user[s].text else ""));
  }

  /** A user value for a valid symbol, with nothing cleared. */
  method SetOne(ev: Evaluator, s: Symbol, val: Val)
    requires Sound(ev) && s in ev.valid
    modifies ev`user
    ensures Sound(ev) && ev.user == old(ev.user)[s := val]
  {
    ghost var was := ev.user;
    ev.user := ev.user[s := val];
    forall t: Symbol ensures t in ev.valid || SameAt(ev.user, ev.seen, t) {
      assert t in ev.valid || SameAt(was, ev.seen, t);
    }
  }

  lemma SameMeaningStored(k: Kconfig, u: UserValues, v: UserValues, rank: Symbol -> nat, s: Symbol)
    requires Acyclic(k, rank) && s.IsTri() && SameMeaning(k, u, v, rank)
    ensures var c := Calc(k, u, rank, s);
      SameMeaning(k, u, SetUser(v, s, c.val.tri), rank) <==> Storable(c.visible, c.rev, c.val.tri)
  {
    assert Calc(k, v, rank, s) == Calc(k, u, rank, s);
    StoredMeaning(k, v, rank, s);
    MeaningMoves(k, u, v, SetUser(v, s, Calc(k, u, rank, s).val.tri), rank);
  }

  lemma MeaningMoves(k: Kconfig, u: UserValues, v: UserValues, w: UserValues, rank: Symbol -> nat)
    requires SameMeaning(k, u, v, rank)
    ensures SameMeaning(k, u, w, rank) <==> SameMeaning(k, v, w, rank)
  {
    if SameMeaning(k, u, w, rank) {
      forall t: Symbol ensures Calc(k, w, rank, t) == Calc(k, v, rank, t) { assert Calc(k, v, rank, t) == Calc(k, u, rank, t); }
    }
    if SameMeaning(k, v, w, rank) {
      forall t: Symbol ensures Calc(k, w, rank, t) == Calc(k, u, rank, t) { assert Calc(k, v, rank, t) == Calc(k, u, rank, t); }
    }
  }

  // ---------- outside any evaluation ----------

  /** No value is being computed and MODULES is known. */
  ghost predicate Idle(ev: Evaluator)
    reads ev
  {
    ev.Valid() && ev.active == {} && ev.k.modules in ev.valid
  }

  /** Starting and ending another computation of the visibility of a valid symbol. */
  method Enter(ev: Evaluator, s: Symbol)
    requires Idle(ev) && s in ev.valid && Typed(s)
    modifies ev`active
    ensures ev.Computing(s) && ev.active == {s}
  {
    assert Grounded(ev.k, ev.rank, s);
    ghost var active := {s};
    ev.active := active;
  }

  method Leave(ev: Evaluator, s: Symbol)
    requires ev.Computing(s) && ev.active == {s} && ev.Current(s) && ev.k.modules in ev.valid
    requires s == ev.k.modules ==> ev.modulesVal == ev.Get(s).curr.tri
    modifies ev`active
    ensures Idle(ev)
  {
    ghost var active := {};
    ev.active := active;
  }
}
