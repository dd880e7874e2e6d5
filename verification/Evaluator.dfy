/** The caching evaluator (sym_calc_value and its helpers in scripts/config/symbol.c, expr_calc_value in
    scripts/config/expr.c): values are stored in the symbols and SYMBOL_VALID says which are current. */
module Evaluator {
  import opened Exprs
  import opened Configuration

  /** The fields of struct symbol that evaluation assigns; write is the flag SYMBOL_WRITE. */
  datatype Fields = Fields(curr: Val, visible: Tristate, dirDep: Tristate, revDep: Tristate, write: bool)

  /** The definition of s: one step from the assignment. */
  ghost predicate Explained(k: Kconfig, u: UserValues, def: Symbol -> Computed, sol: Assignment, s: Symbol) {
    def(s) == Step(k, u, sol, s) && sol.val(s) == def(s).val
  }

  /** What s is computed from comes before s. */
  ghost predicate Grounded(k: Kconfig, rank: Symbol -> nat, s: Symbol) {
    Typed(s) ==> DefBelow(k, rank, rank(s), s) && (s != k.modules ==> rank(k.modules) < rank(s))
  }

  class Evaluator {
    const k: Kconfig
    var user: UserValues
    var valid: set<Symbol>              // SYMBOL_VALID
    var fields: map<Symbol, Fields>
    var modulesVal: Tristate            // the global modules_val

    ghost const rank: Symbol -> nat     // witnesses that the configuration is acyclic
    ghost var active: set<Symbol>       // the symbols whose value is being computed
    ghost var seen: UserValues          // the user values that the stored values were computed from
    ghost var def: Symbol -> Computed   // the uncached definition for these, and the assignment it yields
    ghost var sol: Assignment

    constructor (k: Kconfig, user: UserValues, ghost rank: Symbol -> nat)
      ensures this.k == k && this.user == this.seen == user && this.rank == rank
      ensures active == {} && valid == {SYM_YES, SYM_MOD, SYM_NO} && modulesVal == NO
      ensures forall s :: Get(s) == if s in valid then Fields(Untyped(s), NO, NO, NO, false) else Fields(Val(NO, ""), NO, NO, NO, false)
    {
      this.k, this.user, this.seen, this.rank := k, user, user, rank;
      valid, active, modulesVal := {SYM_YES, SYM_MOD, SYM_NO}, {}, NO;
      fields := map s | s in {SYM_YES, SYM_MOD, SYM_NO} :: Fields(Untyped(s), NO, NO, NO, false);
      def := (s: Symbol) => Computed(Val(NO, ""), NO, NO, NO, false);
      sol := Assignment((s: Symbol) => Val(NO, ""), k.modules);
    }

    function Get(s: Symbol): Fields
      reads this`fields
    {
      if s in fields then fields[s] else Fields(Val(NO, ""), NO, NO, NO, false)
    }

    /** The stored fields of s agree with the definition. */
    ghost predicate Current(s: Symbol)
      reads this
    {
      Get(s).curr == sol.val(s) && (Typed(s) ==> DepsCurrent(s))
    }

    ghost predicate DepsCurrent(s: Symbol)
      reads this
    {
      Get(s).visible == def(s).visible && Get(s).dirDep == def(s).dir && Get(s).revDep == def(s).rev
    }

    ghost predicate Valid()
      reads this
    {
      && sol.modules == k.modules && (k.modules == SYM_NO || k.modules.Type() == Boolean)
      && (forall s: Symbol {:trigger Explained(k, seen, def, sol, s)} :: Explained(k, seen, def, sol, s))
      && (forall s: Symbol {:trigger Grounded(k, rank, s)} :: Grounded(k, rank, s))
      && (forall s: Symbol {:trigger SameAt(user, seen, s)} :: s in valid || SameAt(user, seen, s))
      && active <= valid
      && {SYM_YES, SYM_MOD, SYM_NO} <= valid - active
      && (forall s :: s in valid && s !in active ==> Current(s))
      && (k.modules !in active ==> modulesVal == Get(k.modules).curr.tri)
    }

    /** Values ranked below r may be asked for: MODULES is known, and nothing being computed is among them. */
    ghost predicate Ready(r: nat)
      reads this
    {
      && (r <= rank(k.modules) || (k.modules in valid && k.modules !in active))
      && (forall p :: p in active ==> r <= rank(p))
    }

    /** Only symbols that were not valid before have changed, apart from except. */
    twostate predicate Extends(except: set<Symbol>)
      reads this
    {
      && user == old(user) && seen == old(seen) && active == old(active) && def == old(def) && sol == old(sol)
      && old(valid) <= valid && (k.modules in old(valid) ==> modulesVal == old(modulesVal))
      && (forall s {:trigger Get(s)} :: s in old(valid) && s !in except ==> Get(s) == old(Get(s)))
      && (forall s {:trigger Get(s)} :: s in valid && s !in old(valid) && Typed(s) ==> Get(s).write == def(s).write)
    }

    /** sym_calc_value */
    method CalcValue(s: Symbol)
      requires Valid() && s !in active && Ready(rank(s))
      requires forall p :: p in active ==> rank(s) < rank(p)
      modifies this
      ensures Valid() && s in valid && Extends({}) && Current(s)
      decreases rank(s) + 1, 0
    {
      if s in valid {
        return;
      } else if Typed(s) {
        CalcFresh(s);
      } else {
        assert Explained(k, seen, def, sol, s);
        valid := valid + {s};
        fields := fields[s := Get(s).(curr := Val(NO, s.name))];
      }
    }

    method CalcFresh(s: Symbol)
      requires Valid() && s !in valid && Typed(s) && Ready(rank(s))
      requires forall p :: p in active ==> rank(s) < rank(p)
      modifies this
      ensures Valid() && s in valid && Extends({}) && Current(s)
      decreases rank(s), 10
    {
      hide Step, Explained, DefBelow;
      assert Grounded(k, rank, s) && SameAt(user, seen, s);
      ghost var outer := active;
      valid, active := valid + {s}, active + {s};
      var oldVal := Get(s).curr;
      CalcTyped(s);
      Finish(s, outer, oldVal);
    }

    /** s has been computed. */
    method Finish(s: Symbol, ghost outer: set<Symbol>, oldVal: Val)
      requires Computing(s) && Current(s) && active == outer + {s} && s !in outer
      requires s == k.modules ==> modulesVal == oldVal.tri
      modifies this`modulesVal, this`active
      ensures Valid() && active == outer && (s != k.modules ==> modulesVal == old(modulesVal))
    {
      hide Step, Explained, DefBelow;
      if Get(s).curr != oldVal && s == k.modules {
        modulesVal := Get(s).curr.tri;
      }
      active := outer;
    }

    // ---------- parts of sym_calc_value ----------

    /** s is the symbol being computed. */
    ghost predicate Computing(s: Symbol)
      reads this
    {
      && Valid() && s in active && s in valid && Typed(s) && Ready(rank(s)) && DefBelow(k, rank, rank(s), s)
      && (s.Type() == TristateType ==> k.modules in valid && k.modules !in active)
    }

    /** The part for symbols with a declared type. */
    method CalcTyped(s: Symbol)
      requires Computing(s) && SameAt(user, seen, s)
      modifies this
      ensures Computing(s) && Extends({s})
      ensures Current(s) && Get(s).write == def(s).write
      decreases rank(s), 9
    {
      hide Step, Written, TriValue, TextValue, Valid;
      Store(s, Get(s).(write := false));
      CalcVisibility(s);
      if s.IsTri() {
        StoreTri(s);
      } else {
        StoreText(s);
      }
      if k.Def(s).auto { Store(s, Get(s).(write := false)); }
    }

    /** The result apart from the effect of SYMBOL_AUTO on the flag SYMBOL_WRITE. */
    ghost predicate Finished(s: Symbol)
      reads this
    {
      Current(s) && ((!k.Def(s).auto && Get(s).write) <==> def(s).write)
    }

    method StoreTri(s: Symbol)
      requires Computing(s) && SameAt(user, seen, s) && s.IsTri() && DepsCurrent(s) && !Get(s).write
      modifies this
      ensures Computing(s) && Extends({s}) && Finished(s)
      decreases rank(s), 8
    {
      hide Step, TriValue, FirstDefault, DirectDependency, DefBelow, Valid;
      Store(s, Get(s).(curr := Val(NO, "n")));
      var v := CalcTri(s);
      Store(s, Get(s).(curr := Val(v, "n")));
      DefinitionOf(s);
    }

    method StoreText(s: Symbol)
      requires Computing(s) && SameAt(user, seen, s) && !s.IsTri() && DepsCurrent(s) && !Get(s).write
      modifies this
      ensures Computing(s) && Extends({s}) && Finished(s)
      decreases rank(s), 8
    {
      hide Step, Clamp, TextValue, TriValue, FirstDefault, DirectDependency, DefBelow, Valid;
      Store(s, Get(s).(curr := Val(NO, "")));
      var text := CalcText(s);
      Store(s, Get(s).(curr := Val(NO, text)));
      ValidateRange(s);
      DefinitionOf(s);
    }

    /** Assigning fields of the symbol being computed. */
    method Store(s: Symbol, f: Fields)
      requires Computing(s)
      modifies this`fields
      ensures Computing(s) && Get(s) == f
      ensures forall t {:trigger Get(t)} :: t != s ==> Get(t) == old(Get(t))
    {
      fields := fields[s := f];
    }

    /** The definition of a typed symbol, field by field. */
    lemma DefinitionOf(s: Symbol)
      requires Valid() && Typed(s)
      ensures def(s).visible == Visibility(k, sol, s)
      ensures def(s).dir == DirectDependency(k, sol, s)
      ensures def(s).rev == ReverseDependency(k, sol, s)
      ensures def(s).write == Written(k, sol, s)
      ensures sol.val(s) == if s.IsTri() then Val(TriValue(k, seen, sol, s), "n") else Val(NO, TextValue(k, seen, sol, s))
    {
      assert Explained(k, seen, def, sol, s);
    }

    /** sym_calc_visibility */
    method CalcVisibility(s: Symbol)
      requires Computing(s)
      modifies this
      ensures Computing(s) && Extends({s}) && DepsCurrent(s)
      ensures Get(s).curr == old(Get(s).curr) && Get(s).write == old(Get(s).write)
      decreases rank(s), 6
    {
      hide Step, Valid;
      var vis := PromptVisibility(s);
      Store(s, Get(s).(visible := vis));
      CalcDependencies(s);
      DefinitionOf(s);
    }

    /** The part of sym_calc_visibility about the dependencies. */
    method CalcDependencies(s: Symbol)
      requires Computing(s)
      modifies this
      ensures Computing(s) && Extends({s})
      ensures Get(s) == old(Get(s)).(dirDep := DirectDependency(k, sol, s), revDep := ReverseDependency(k, sol, s))
      decreases rank(s), 5
    {
      hide Step, Visibility, Valid;
      var dir := CalcOpt(k.Def(s).dirDep, rank(s));
      Store(s, Get(s).(dirDep := if dir == MOD then YES else dir));
      var rev := SelectVisibility(s);
      Store(s, Get(s).(revDep := rev));
    }

    /** The part of sym_calc_visibility about the prompts. */
    method PromptVisibility(s: Symbol) returns (tri: Tristate)
      requires Computing(s)
      modifies this
      ensures Computing(s) && Extends({}) && tri == Visibility(k, sol, s)
      decreases rank(s), 5
    {
      tri := OrAllPrompts(s);
      var boolean := IsBoolean(s);
      if tri == MOD && (s.Type() != TristateType || boolean) { tri := YES; }
    }

    method OrAllPrompts(s: Symbol) returns (tri: Tristate)
      requires Computing(s)
      modifies this
      ensures Computing(s) && Extends({}) && tri == OrPrompts(sol, k.Def(s).props)
      decreases rank(s), 4
    {
      hide Step, Valid;
      var props := k.Def(s).props;
      tri := NO;
      for i := 0 to |props|
        invariant Computing(s) && Extends({})
        invariant tri == OrPrompts(sol, props[..i])
      {
        assert props[..i + 1][..i] == props[..i];
        if props[i].Prompt? {
          assert PropBelow(k, rank, rank(s), props[i]);
          var v := CalcOpt(props[i].visible, rank(s));
          tri := Max(tri, v);
        }
      }
      assert props[..|props|] == props;
    }

    /** The part of sym_calc_visibility about the symbols that select this one. */
    method SelectVisibility(s: Symbol) returns (tri: Tristate)
      requires Computing(s)
      modifies this
      ensures Computing(s) && Extends({}) && tri == ReverseDependency(k, sol, s)
      decreases rank(s), 4
    {
      tri := NO;
      if k.Def(s).revDep.Some? { tri := CalcExpr(k.Def(s).revDep.value, rank(s)); }
      var boolean := IsBoolean(s);
      if tri == MOD && boolean { tri := YES; }
    }

    /** sym_get_type gives S_BOOLEAN. */
    method IsBoolean(s: Symbol) returns (b: bool)
      requires Computing(s)
      ensures b <==> EffectiveType(k, sol, s) == Boolean
    {
      assert Current(k.modules) || s.Type() != TristateType;
      b := s.Type() == Boolean || (s.Type() == TristateType && modulesVal == NO);
    }

    /** sym_get_default_prop, with the condition of the property found. */
    method DefaultProp(s: Symbol) returns (d: Option<Prop>, vis: Tristate)
      requires Computing(s)
      modifies this
      ensures Computing(s) && Extends({})
      ensures d == FirstDefault(sol, k.Def(s).props)
      ensures d.Some? ==> vis == OptValue(sol, d.value.visible) && PropBelow(k, rank, rank(s), d.value)
      decreases rank(s), 4
    {
      hide Step, Valid;
      var props := k.Def(s).props;
      for i := 0 to |props|
        invariant Computing(s) && Extends({})
        invariant FirstDefault(sol, props) == FirstDefault(sol, props[i..])
      {
        assert props[i..][1..] == props[i + 1..];
        if props[i].Default? {
          assert PropBelow(k, rank, rank(s), props[i]);
          vis := CalcOpt(props[i].visible, rank(s));
          if vis != NO { return Some(props[i]), vis; }
        }
      }
      return None, NO;
    }

    /** The boolean and tristate case. */
    method CalcTri(s: Symbol) returns (v: Tristate)
      requires Computing(s) && SameAt(user, seen, s) && s.IsTri() && DepsCurrent(s)
      modifies this
      ensures Computing(s) && Extends({s}) && Get(s) == old(Get(s)).(write := Get(s).write)
      ensures v == TriValue(k, seen, sol, s)
      ensures Get(s).write <==> old(Get(s).write) || Visibility(k, sol, s) != NO || ReverseDependency(k, sol, s) != NO
                                || FirstDefault(sol, k.Def(s).props).Some?
      decreases rank(s), 6
    {
      hide Step, Visibility, ReverseDependency, DirectDependency, DefaultTri, FirstDefault, DefBelow, Valid;
      DefinitionOf(s);
      if Get(s).visible != NO { Store(s, Get(s).(write := true)); }
      if Get(s).visible != NO && s in user {
        v := Min(user[s].tri, Get(s).visible);
      } else {
        if Get(s).revDep != NO { Store(s, Get(s).(write := true)); }
        v := CalcDefault(s);
      }
      v := Max(v, Get(s).revDep);
      var boolean := IsBoolean(s);
      if v == MOD && boolean { v := YES; }
    }

    method CalcDefault(s: Symbol) returns (v: Tristate)
      requires Computing(s)
      modifies this
      ensures Computing(s) && Extends({s}) && Get(s) == old(Get(s)).(write := Get(s).write)
      ensures v == DefaultTri(k, sol, s)
      ensures Get(s).write <==> old(Get(s).write) || FirstDefault(sol, k.Def(s).props).Some?
      decreases rank(s), 5
    {
      hide Step, DefBelow, Valid;
      v := NO;
      var d, vis := DefaultProp(s);
      if d.Some? {
        Store(s, Get(s).(write := true));
        v := CalcExpr(d.value.expr, rank(s));
        v := Min(v, vis);
      }
    }

    /** The string, int and hex case, before the range is applied. */
    method CalcText(s: Symbol) returns (text: string)
      requires Computing(s) && SameAt(user, seen, s) && !s.IsTri() && DepsCurrent(s)
      modifies this
      ensures Computing(s) && Extends({s}) && Get(s) == old(Get(s)).(write := Get(s).write)
      ensures Clamp(k, sol, s, text) == TextValue(k, seen, sol, s)
      ensures Get(s).write <==> old(Get(s).write) || Visibility(k, sol, s) != NO || DefaultSymbol(k, sol, s).Some?
      decreases rank(s), 6
    {
      hide Step, Clamp, Visibility, FirstDefault, DefBelow, Valid;
      DefinitionOf(s);
      text := "";
      if Get(s).visible != NO {
        Store(s, Get(s).(write := true));
        if s in user { return user[s].text; }
      }
      text := CalcTextDefault(s);
    }

    method CalcTextDefault(s: Symbol) returns (text: string)
      requires Computing(s)
      modifies this
      ensures Computing(s) && Extends({s}) && Get(s) == old(Get(s)).(write := Get(s).write)
      ensures text == DefaultValue(k, sol, s)
      ensures Get(s).write <==> old(Get(s).write) || DefaultSymbol(k, sol, s).Some?
      decreases rank(s), 5
    {
      hide Step, FirstDefault, DefBelow, Valid;
      text := "";
      var d, _ := DefaultProp(s);
      if d.Some? && d.value.expr.Sym? {
        var ds := d.value.expr.s;
        assert Mentions(d.value.expr, ds);
        Store(s, Get(s).(write := true));
        CalcValue(ds);
        text := Get(ds).curr.text;
      }
    }

    /** sym_validate_range */
    method ValidateRange(s: Symbol)
      requires Computing(s) && !s.IsTri() && Get(s).curr.tri == NO
      modifies this
      ensures Computing(s) && Extends({s})
      ensures Get(s) == old(Get(s)).(curr := Val(NO, Clamp(k, sol, s, old(Get(s).curr.text))))
      decreases rank(s), 5
    {
      hide Step, FirstRange, ExprBelow, Valid;
      if s.Type() != Int && s.Type() != Hex { return; }
      var range := RangeProp(s);
      if range.None? { return; }
      LimitTo(s, range.value);
    }

    /** The part of sym_validate_range with a range to be applied. */
    method LimitTo(s: Symbol, range: Prop)
      requires Computing(s) && (s.Type() == Int || s.Type() == Hex) && Get(s).curr.tri == NO
      requires FirstRange(sol, k.Def(s).props) == Some(range) && PropBelow(k, rank, rank(s), range)
      modifies this
      ensures Computing(s) && Extends({s})
      ensures Get(s) == old(Get(s)).(curr := Val(NO, Clamp(k, sol, s, old(Get(s).curr.text))))
      decreases rank(s), 4
    {
      hide Step, FirstRange, ExprBelow, Valid;
      var base := Base(s, 0);
      var val := k.strtoll(Get(s).curr.text, base);
      var val2 := RangeVal(range.lo, base, rank(s));
      if val >= val2 {
        val2 := RangeVal(range.hi, base, rank(s));
        if val <= val2 { return; }
      }
      Store(s, Get(s).(curr := Val(NO, k.format(s.Type() == Hex, val2))));
    }

    /** sym_get_range_prop */
    method RangeProp(s: Symbol) returns (p: Option<Prop>)
      requires Computing(s)
      modifies this
      ensures Computing(s) && Extends({})
      ensures p == FirstRange(sol, k.Def(s).props)
      ensures p.Some? ==> PropBelow(k, rank, rank(s), p.value)
      decreases rank(s), 4
    {
      hide Step, Valid;
      var props := k.Def(s).props;
      for i := 0 to |props|
        invariant Computing(s) && Extends({})
        invariant FirstRange(sol, props) == FirstRange(sol, props[i..])
      {
        assert props[i..][1..] == props[i + 1..];
        if props[i].Range? {
          assert PropBelow(k, rank, rank(s), props[i]);
          var vis := CalcOpt(props[i].visible, rank(s));
          if vis != NO { return Some(props[i]); }
        }
      }
      return None;
    }

    /** sym_get_range_val */
    method RangeVal(t: Symbol, base: int, ghost r: nat) returns (n: int)
      requires Valid() && Ready(r) && rank(t) < r
      modifies this
      ensures Valid() && Ready(r) && Extends({}) && n == k.strtoll(sol.val(t).text, Base(t, base))
      decreases r, 1
    {
      CalcValue(t);
      n := k.strtoll(Get(t).curr.text, Base(t, base));
    }

    // ---------- expr_calc_value ----------

    method CalcExpr(e: Expr, ghost r: nat) returns (v: Tristate)
      requires Valid() && Ready(r) && ExprBelow(k, rank, r, e)
      modifies this
      ensures Valid() && Ready(r) && Extends({}) && v == Value(sol, e)
      decreases r, 2, e
    {
      hide Step, Valid;
      match e {
        case Sym(s) =>
          assert Mentions(e, s);
          CalcValue(s);
          v := Get(s).curr.tri;
        case Not(f) =>
          assert forall t :: Mentions(f, t) ==> Mentions(e, t);
          v := CalcExpr(f, r);
          v := Negate(v);
        case Bin(op, l, m) =>
          assert forall t :: Mentions(l, t) || Mentions(m, t) ==> Mentions(e, t);
          v := CalcExpr(l, r);
          var w := CalcExpr(m, r);
          v := op.Apply(v, w);
        case Compare(equal, l, m) =>
          assert Mentions(e, l) && Mentions(e, m);
          CalcValue(l);
          CalcValue(m);
          var str1 := StringValue(l, r);
          var str2 := StringValue(m, r);
          v := if (str1 == str2) == equal then YES else NO;
      }
    }

    method CalcOpt(e: Option<Expr>, ghost r: nat) returns (v: Tristate)
      requires Valid() && Ready(r) && OptBelow(k, rank, r, e)
      modifies this
      ensures Valid() && Ready(r) && Extends({}) && v == OptValue(sol, e)
      decreases r, 3
    {
      if e.None? { return YES; }
      v := CalcExpr(e.value, r);
    }

    /** sym_get_string_value */
    method StringValue(s: Symbol, ghost r: nat) returns (text: string)
      requires Valid() && Ready(r) && s in valid && s !in active && (s.IsTri() ==> rank(k.modules) < r)
      modifies this
      ensures Valid() && Ready(r) && Extends({}) && text == sol.StringValue(s)
      decreases r, 1
    {
      assert Current(s);
      if !s.IsTri() { return Get(s).curr.text; }
      if Get(s).curr.tri == NO { return "n"; }
      if Get(s).curr.tri == YES { return "y"; }
      CalcValue(k.modules);
      text := if Get(k.modules).curr.tri == NO then "n" else "m";
    }
  }
}
