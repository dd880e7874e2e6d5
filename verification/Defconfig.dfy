/** The minimal configuration of conf_write_defconfig (scripts/config/confdata.c), with sym_get_string_default
    (scripts/config/symbol.c): when it means the same as the full one. */
module Defconfig {
  import opened Exprs
  import opened Configuration
  import opened Evaluator
  import opened Changes

  function TriText(v: Tristate): string { if v == NO then "n" else if v == MOD then "m" else "y" }

  /** sym_get_string_default. */
  function StringDefault(k: Kconfig, a: Assignment, s: Symbol): string {
    if s.IsTri() then
      var val := Max(DefaultTri(k, a, s), ReverseDependency(k, a, s));
      var val1 := if val == MOD && a.Tri(k.modules) == NO then YES else val;
      TriText(if val1 == MOD && s.Type() == Boolean then YES else val1)
    else DefaultValue(k, a, s)
  }

  /** conf_write_defconfig writes a line for s. */
  predicate InFile(k: Kconfig, a: Assignment, c: Computed, s: Symbol) {
    c.write && c.visible > c.rev && a.StringValue(s) != StringDefault(k, a, s)
  }

  /** The value s has without a user value. */
  function Unset(k: Kconfig, a: Assignment, s: Symbol): Val {
    if s.IsTri() then Val(UnsetTri(k, a, s), "n") else Val(NO, Clamp(k, a, s, DefaultValue(k, a, s)))
  }

  lemma DefaultText(k: Kconfig, a: Assignment, s: Symbol)
    requires a.WellFormed() && a.modules == k.modules && s.IsTri()
    ensures a.StringValue(s) == StringDefault(k, a, s) <==> a.Tri(s) == UnsetTri(k, a, s)
  {
    assert a.Tri(s) == a.val(s).tri;
    assert "y"[0] == 'y' && "m"[0] == 'm' && "n"[0] == 'n';
    assert a.StringValue(s) == TriText(a.Tri(s));
    assert StringDefault(k, a, s) == TriText(UnsetTri(k, a, s));
  }

  // ---------- the user values a minimal configuration stands for ----------

  /** v is what reading the written lines back gives. */
  ghost predicate FileFor(k: Kconfig, u: UserValues, rank: Symbol -> nat, v: UserValues) {
    forall s: Symbol ::
      && (s in v <==> Typed(s) && InFile(k, Solution(k, u, rank), Calc(k, u, rank, s), s))
      && (s in v ==> if s.IsTri() then v[s].tri == Calc(k, u, rank, s).val.tri else v[s].text == Calc(k, u, rank, s).val.text)
  }

  /** The value that the user value x gives s while it shows. */
  function Chosen(k: Kconfig, a: Assignment, s: Symbol, x: Val): Val {
    if s.IsTri() then Val(Promote(k, a, s, Max(Min(x.tri, Visibility(k, a, s)), ReverseDependency(k, a, s))), "n")
    else Val(NO, Clamp(k, a, s, x.text))
  }

  /** The user value of s matters, but no line can be written for it: s is taken from the environment, or the select
      bound reaches its visibility.  A boolean or tristate symbol is then fixed by the select, unless it shows and is
      selected up to m and has the default y. */
  ghost predicate Pinned(k: Kconfig, u: UserValues, rank: Symbol -> nat, s: Symbol) {
    var a, c := Solution(k, u, rank), Calc(k, u, rank, s);
    && s in u && c.visible != NO
    && if k.Def(s).auto then Chosen(k, a, s, u[s]) != Unset(k, a, s)
       else if s.IsTri() then c.visible == MOD && c.rev == MOD && DefaultTri(k, a, s) == YES
       else c.visible <= c.rev && Chosen(k, a, s, u[s]) != Unset(k, a, s)
  }

  /** These are the symbols without a line that the user has given another value than they have without one. */
  lemma PinnedExactly(k: Kconfig, u: UserValues, rank: Symbol -> nat, s: Symbol)
    requires Acyclic(k, rank) && Typed(s)
    ensures var a, c := Solution(k, u, rank), Calc(k, u, rank, s);
      Pinned(k, u, rank, s) <==> c.visible != NO && c.val != Unset(k, a, s) && (k.Def(s).auto || c.visible <= c.rev)
  {
    var a := Solution(k, u, rank);
    CalcIsSolution(k, u, rank, s);
    if s.IsTri() && !k.Def(s).auto { PinnedStep(k, u, a, s); }
  }

  lemma PinnedStep(k: Kconfig, u: UserValues, a: Assignment, s: Symbol)
    requires a.modules == k.modules && s.IsTri() && !k.Def(s).auto
    ensures var vis, rev := Visibility(k, a, s), ReverseDependency(k, a, s);
      s in u && vis == MOD && rev == MOD && DefaultTri(k, a, s) == YES
      <==> NO < vis <= rev && TriValue(k, u, a, s) != UnsetTri(k, a, s)
  {
    var vis, rev := Visibility(k, a, s), ReverseDependency(k, a, s);
    assert EffectiveType(k, a, s) == Boolean ==> vis != MOD && rev != MOD;
  }

  /** If the user can change s, its text lies within its range, so that it stays what it is when it is put there again. */
  ghost predicate Steady(k: Kconfig, u: UserValues, rank: Symbol -> nat, s: Symbol) {
    var c := Calc(k, u, rank, s);
    !s.IsTri() && !k.Def(s).auto && c.visible > c.rev ==> Clamp(k, Solution(k, u, rank), s, c.val.text) == c.val.text
  }

  /** One symbol, in unchanged surroundings, has the same value with the file as with all user values,
      unless it is pinned or its text is not steady. */
  lemma FileStep(k: Kconfig, u: UserValues, rank: Symbol -> nat, v: UserValues, s: Symbol)
    requires Acyclic(k, rank) && FileFor(k, u, rank, v)
    ensures KeptAlone(k, u, v, rank, s) <==> Typed(s) ==> !Pinned(k, u, rank, s) && Steady(k, u, rank, s)
  {
    var a := Solution(k, u, rank);
    CalcIsSolution(k, u, rank, s);
    if Typed(s) { PinnedExactly(k, u, rank, s); }
    if s.IsTri() {
      ComputedIsWellFormed(k, u, rank);
      DefaultText(k, a, s);
      assert a.Tri(s) == Calc(k, u, rank, s).val.tri == TriValue(k, u, a, s);
      FileStepTri(k, a, u, v, s);
    } else if Typed(s) {
      assert a.StringValue(s) == a.val(s).text == TextValue(k, u, a, s);
      FileStepText(k, a, u, v, s);
    }
  }

  lemma FileStepTri(k: Kconfig, a: Assignment, u: UserValues, v: UserValues, s: Symbol)
    requires s.IsTri() && a.modules == k.modules
    requires s in v <==> Written(k, a, s) && Visibility(k, a, s) > ReverseDependency(k, a, s)
                         && TriValue(k, u, a, s) != UnsetTri(k, a, s)
    requires s in v ==> v[s].tri == TriValue(k, u, a, s)
    ensures TriValue(k, v, a, s) == TriValue(k, u, a, s)
            <==> !(&& Visibility(k, a, s) != NO && TriValue(k, u, a, s) != UnsetTri(k, a, s)
                   && (k.Def(s).auto || Visibility(k, a, s) <= ReverseDependency(k, a, s)))
  {
  }

  lemma FileStepText(k: Kconfig, a: Assignment, u: UserValues, v: UserValues, s: Symbol)
    requires Typed(s) && !s.IsTri()
    requires s in v <==> Written(k, a, s) && Visibility(k, a, s) > ReverseDependency(k, a, s)
                         && TextValue(k, u, a, s) != DefaultValue(k, a, s)
    requires s in v ==> v[s].text == TextValue(k, u, a, s)
    ensures var t, vis, rev := TextValue(k, u, a, s), Visibility(k, a, s), ReverseDependency(k, a, s);
      TextValue(k, v, a, s) == t
      <==> && !(vis != NO && t != Clamp(k, a, s, DefaultValue(k, a, s)) && (k.Def(s).auto || vis <= rev))
           && (!k.Def(s).auto && vis > rev ==> Clamp(k, a, s, t) == t)
  {
    assert TextValue(k, v, a, s) == Clamp(k, a, s, if Visibility(k, a, s) != NO && s in v then v[s].text else DefaultValue(k, a, s));
    assert TextValue(k, u, a, s) == Clamp(k, a, s, if Visibility(k, a, s) != NO && s in u then u[s].text else DefaultValue(k, a, s));
  }

  /** The minimal configuration gives every symbol the value it had with all user values, exactly when
      no symbol is pinned and every text is steady. */
  lemma FileIsLossless(k: Kconfig, u: UserValues, rank: Symbol -> nat, v: UserValues)
    requires Acyclic(k, rank) && FileFor(k, u, rank, v)
    ensures (forall s: Symbol :: Kept(k, u, v, rank, s))
            <==> (forall s: Symbol :: Typed(s) ==> !Pinned(k, u, rank, s) && Steady(k, u, rank, s))
  {
    SameValues(k, u, v, rank);
    forall s: Symbol
      ensures KeptAlone(k, u, v, rank, s) <==> Typed(s) ==> !Pinned(k, u, rank, s) && Steady(k, u, rank, s)
    {
      FileStep(k, u, rank, v, s);
    }
  }

  /** The range that applies to s, if any, is not turned around, and its bounds survive being printed and read. */
  predicate RangeSound(k: Kconfig, a: Assignment, s: Symbol) {
    var range := FirstRange(a, k.Def(s).props);
    (s.Type() == Int || s.Type() == Hex) && range.Some? ==>
      var base := Base(s, 0);
      var lo := k.strtoll(a.val(range.value.lo).text, Base(range.value.lo, base));
      var hi := k.strtoll(a.val(range.value.hi).text, Base(range.value.hi, base));
      && lo <= hi
      && k.strtoll(k.format(s.Type() == Hex, lo), base) == lo && k.strtoll(k.format(s.Type() == Hex, hi), base) == hi
  }

  /** With such ranges every text is steady. */
  lemma SoundRangesAreSteady(k: Kconfig, u: UserValues, rank: Symbol -> nat, s: Symbol)
    requires Acyclic(k, rank) && Typed(s) && RangeSound(k, Solution(k, u, rank), s)
    ensures Steady(k, u, rank, s)
  {
    CalcIsSolution(k, u, rank, s);
  }

  /** Without its line, in unchanged surroundings, a symbol keeps its value exactly if that is its unset value. */
  lemma LineRemoved(k: Kconfig, u: UserValues, rank: Symbol -> nat, v: UserValues, s: Symbol)
    requires Acyclic(k, rank) && FileFor(k, u, rank, v) && s in v
    ensures KeptAlone(k, u, v - {s}, rank, s) <==> Calc(k, u, rank, s).val == Unset(k, Solution(k, u, rank), s)
    ensures s.IsTri() ==> Calc(k, u, rank, s).val != Unset(k, Solution(k, u, rank), s)
  {
    var a := Solution(k, u, rank);
    CalcIsSolution(k, u, rank, s);
    assert Step(k, v - {s}, a, s).val == Unset(k, a, s);
    if s.IsTri() {
      ComputedIsWellFormed(k, u, rank);
      DefaultText(k, a, s);
    }
  }

  /** A line matters, once the symbols before it have their values, exactly if its value is not the unset one: the line
      of a boolean or tristate symbol always does, that of a number does not if the range turns its default into it. */
  lemma LineMatters(k: Kconfig, u: UserValues, rank: Symbol -> nat, v: UserValues, s: Symbol)
    requires Acyclic(k, rank) && FileFor(k, u, rank, v) && s in v
    requires forall t: Symbol :: rank(t) < rank(s) ==> Kept(k, u, v, rank, t)
    ensures Kept(k, u, v - {s}, rank, s) <==> Calc(k, u, rank, s).val == Unset(k, Solution(k, u, rank), s)
    ensures s.IsTri() ==> !Kept(k, u, v - {s}, rank, s)
  {
    hide Step, Calc, Unset;
    var a, b, w := Solution(k, u, rank), Solution(k, v, rank), v - {s};
    LineRemoved(k, u, rank, v, s);
    forall t: Symbol | rank(t) < rank(s) ensures b.val(t) == a.val(t) { assert Kept(k, u, v, rank, t); }
    ChangedStep(k, v, w, rank, s);
    AcyclicBelow(k, rank, s);
    StepLocal(k, w, rank, rank(s), s, b, a);
  }

  /** In a minimal configuration that loses nothing, no line is redundant but those of such numbers. */
  lemma EveryLineMatters(k: Kconfig, u: UserValues, rank: Symbol -> nat, v: UserValues, s: Symbol)
    requires Acyclic(k, rank) && FileFor(k, u, rank, v) && s in v
    requires forall t: Symbol :: Typed(t) ==> !Pinned(k, u, rank, t) && Steady(k, u, rank, t)
    ensures Kept(k, u, v - {s}, rank, s) <==> !s.IsTri() && Calc(k, u, rank, s).val == Unset(k, Solution(k, u, rank), s)
  {
    FileIsLossless(k, u, rank, v);
    LineMatters(k, u, rank, v, s);
    LineRemoved(k, u, rank, v, s);
  }

  /** With boolean symbols only, nothing is ever pinned. */
  predicate BooleanOnly(k: Kconfig) {
    forall s :: s in k.defs && Typed(s) ==> s.Type() == Boolean && !k.defs[s].auto
  }

  lemma BooleanNeverPinned(k: Kconfig, u: UserValues, rank: Symbol -> nat, s: Symbol)
    requires Acyclic(k, rank) && BooleanOnly(k) && Typed(s)
    ensures !Pinned(k, u, rank, s) && Steady(k, u, rank, s)
  {
    CalcIsSolution(k, u, rank, s);
  }

  /** In a boolean configuration the minimal file always keeps every value, and every line matters. */
  lemma BooleanFile(k: Kconfig, u: UserValues, rank: Symbol -> nat, v: UserValues)
    requires Acyclic(k, rank) && BooleanOnly(k) && FileFor(k, u, rank, v)
    ensures forall s: Symbol :: Kept(k, u, v, rank, s)
    ensures forall s: Symbol :: s in v ==> !Kept(k, u, v - {s}, rank, s)
  {
    forall s: Symbol | Typed(s) ensures !Pinned(k, u, rank, s) && Steady(k, u, rank, s) { BooleanNeverPinned(k, u, rank, s); }
    FileIsLossless(k, u, rank, v);
    forall s: Symbol | s in v ensures !Kept(k, u, v - {s}, rank, s) {
      LineMatters(k, u, rank, v, s);
      CalcIsSolution(k, u, rank, s);
    }
  }

  // ---------- a tristate symbol whose value is lost ----------

  /** FOO is visible up to m, selected by m and m by user choice, but its default is y. */
  const SELECTED := Kconfig(
    map[MODULES := Definition([Default(None, Sym(SYM_YES))], None, None, false),
        FOO := Definition([Prompt(Some(Sym(SYM_MOD))), Default(None, Sym(SYM_YES))], None, Some(Sym(SYM_MOD)), false)],
    MODULES, (t: string, b: int) => 0, (h: bool, n: int) => "")

  lemma SelectedAcyclic()
    ensures Acyclic(SELECTED, EXAMPLE_RANK)
  {
  }

  /** The values in the example, whatever the user has set: FOO shows up to m, is selected up to m and has the default
      y. */
  lemma SelectedValues(u: UserValues)
    ensures var k, rank := SELECTED, EXAMPLE_RANK;
      var a := Solution(k, u, rank);
      && Acyclic(k, rank) && a.Tri(MODULES) == YES && Visibility(k, a, FOO) == MOD
      && ReverseDependency(k, a, FOO) == MOD && DefaultTri(k, a, FOO) == YES
  {
    var k, rank := SELECTED, EXAMPLE_RANK;
    var a := Solution(k, u, rank);
    SelectedAcyclic();
    CalcIsSolution(k, u, rank, MODULES);
    assert a.Tri(SYM_YES) == YES && a.Tri(SYM_MOD) == MOD;
    var props := k.Def(MODULES).props;
    assert props == [Default(None, Sym(SYM_YES))] && props[..0] == [] && OrPrompts(a, props) == NO;
    assert Step(k, u, a, MODULES).val.tri == TriValue(k, u, a, MODULES) == YES;
    LimitedProps(a, k.Def(FOO).props);
  }

  /** The user has set FOO to m, and it is m; but no line can be written for it, so whatever the lines say, FOO is y when
      they are read back. */
  lemma TristateLost(v: UserValues)
    requires FileFor(SELECTED, map[FOO := Val(MOD, "")], EXAMPLE_RANK, v)
    ensures var k, u, rank := SELECTED, map[FOO := Val(MOD, "")], EXAMPLE_RANK;
      && Acyclic(k, rank) && Pinned(k, u, rank, FOO) && FOO !in v
      && Calc(k, u, rank, FOO).val.tri == MOD && Calc(k, v, rank, FOO).val.tri == YES
  {
    var k, u, rank := SELECTED, map[FOO := Val(MOD, "")], EXAMPLE_RANK;
    SelectedValues(u);
    SelectedValues(v);
    CalcIsSolution(k, u, rank, FOO);
    CalcIsSolution(k, v, rank, FOO);
  }

  // ---------- a redundant line ----------

  const NUM := Config("NUM", Int)

  /** NUM shows, has the default 5 and the range from 10 to 20. */
  const RANGED := Kconfig(
    map[NUM := Definition([Prompt(None), Default(None, Sym(Const("5"))), Range(None, Const("10"), Const("20"))], None, None, false)],
    SYM_NO,
    (t: string, b: int) => if t == "5" then 5 else if t == "10" then 10 else 20,
    (h: bool, n: int) => if n == 10 then "10" else "20")

  /** Without any user value NUM is 10, and a line is written for it because that is not its default; but without the
      line it is 10 as well. */
  lemma RedundantLine(v: UserValues)
    requires FileFor(RANGED, map[], EXAMPLE_RANK, v)
    ensures Acyclic(RANGED, EXAMPLE_RANK) && NUM in v && Kept(RANGED, map[], v - {NUM}, EXAMPLE_RANK, NUM)
  {
    var k, u: UserValues, rank := RANGED, map[], EXAMPLE_RANK;
    RangedValue(u);
    BelowNum(v);
    LineMatters(k, u, rank, v, NUM);
  }

  lemma BelowNum(v: UserValues)
    ensures forall t: Symbol :: EXAMPLE_RANK(t) < EXAMPLE_RANK(NUM) ==> Kept(RANGED, map[], v, EXAMPLE_RANK, t)
  {
    RangedAcyclic();
    forall t: Symbol | EXAMPLE_RANK(t) < EXAMPLE_RANK(NUM) ensures Kept(RANGED, map[], v, EXAMPLE_RANK, t) {
      UndefinedKept(RANGED, map[], v, EXAMPLE_RANK, t);
    }
  }

  lemma RangedAcyclic()
    ensures Acyclic(RANGED, EXAMPLE_RANK)
  {
  }

  lemma RangedValue(u: UserValues)
    requires NUM !in u
    ensures var k, rank := RANGED, EXAMPLE_RANK;
      var a, c := Solution(k, u, rank), Calc(k, u, rank, NUM);
      && Acyclic(k, rank) && c.val == Val(NO, "10") == Unset(k, a, NUM) && c.visible == YES && c.rev == NO && c.write
      && InFile(k, a, c, NUM)
  {
    var k, rank := RANGED, EXAMPLE_RANK;
    var a := Solution(k, u, rank);
    RangedAcyclic();
    CalcIsSolution(k, u, rank, NUM);
    ConstantTexts(k, u, rank);
    RangedProps(a);
    assert a.StringValue(NUM) == a.val(NUM).text == "10" && StringDefault(k, a, NUM) == DefaultValue(k, a, NUM) == "5";
    assert |"5"| == 1 && |"10"| == 2;
  }

  lemma ConstantTexts(k: Kconfig, u: UserValues, rank: Symbol -> nat)
    ensures forall n: string :: Solution(k, u, rank).val(Const(n)).text == n
  {
  }

  lemma UndefinedKept(k: Kconfig, u: UserValues, v: UserValues, rank: Symbol -> nat, t: Symbol)
    requires Acyclic(k, rank) && t !in k.defs
    ensures Kept(k, u, v, rank, t)
  {
    CalcIsSolution(k, u, rank, t);
    CalcIsSolution(k, v, rank, t);
  }

  lemma RangedProps(a: Assignment)
    requires a.val(Const("5")).text == "5" && a.val(Const("10")).text == "10" && a.val(Const("20")).text == "20"
    ensures Visibility(RANGED, a, NUM) == YES && DefaultValue(RANGED, a, NUM) == "5" && Clamp(RANGED, a, NUM, "5") == "10"
  {
    var props := RANGED.Def(NUM).props;
    assert |"5"| == 1 && |"10"| == 2 && |"20"| == 2 && "10"[0] == '1' && "20"[0] == '2';
    assert props[..3][..2] == props[..2] && props[..2][..1] == props[..1] && props[..1][..0] == [] && props[..3] == props;
    assert OrPrompts(a, props[..1]) == YES && OrPrompts(a, props[..2]) == YES;
    assert FirstDefault(a, props) == FirstDefault(a, props[1..]) == Some(props[1]);
    assert FirstRange(a, props) == FirstRange(a, props[1..]) == FirstRange(a, props[1..][1..]);
    assert props[1..][1..][0] == props[2];
  }
}
