/** What the property list of a symbol comes to (scripts/config/symbol.c), said on the list itself: how far the symbol
    shows, which default counts and what it gives, and which range applies. */
module Active {
  import opened Exprs
  import opened Configuration

  // ---------- prompts ----------

  predicate PromptAt(a: Assignment, props: seq<Prop>, i: nat, v: Tristate) {
    i < |props| && props[i].Prompt? && OptValue(a, props[i].visible) == v
  }

  lemma {:induction false} PromptsMaximum(a: Assignment, props: seq<Prop>)
    ensures forall i :: 0 <= i < |props| && props[i].Prompt? ==> OptValue(a, props[i].visible) <= OrPrompts(a, props)
    ensures OrPrompts(a, props) == NO || exists i: nat :: PromptAt(a, props, i, OrPrompts(a, props))
    decreases |props|
  {
    if props != [] {
      var front, last := props[..|props| - 1], props[|props| - 1];
      PromptsMaximum(a, front);
      assert forall i :: 0 <= i < |front| ==> front[i] == props[i];
      if OrPrompts(a, props) == OrPrompts(a, front) && OrPrompts(a, props) != NO {
        var i: nat :| PromptAt(a, front, i, OrPrompts(a, front));
        assert PromptAt(a, props, i, OrPrompts(a, props));
      } else {
        assert OrPrompts(a, props) != NO ==> PromptAt(a, props, |props| - 1, OrPrompts(a, props));
      }
    }
  }

  /** Modules can be built, and the symbol can be one. */
  predicate CanBeModule(k: Kconfig, a: Assignment, s: Symbol) { s.Type() == TristateType && a.Tri(k.modules) != NO }

  /** A symbol shows as far as its most visible prompt does; what shows up to m shows up to y if it cannot be m. */
  lemma ShowsExactly(k: Kconfig, a: Assignment, s: Symbol)
    ensures var props := k.Def(s).props;
      && (Visibility(k, a, s) != NO <==> exists i: nat :: PromptAt(a, props, i, YES) || PromptAt(a, props, i, MOD))
      && (Visibility(k, a, s) == YES <==>
            exists i: nat :: PromptAt(a, props, i, YES) || (PromptAt(a, props, i, MOD) && !CanBeModule(k, a, s)))
  {
    var props := k.Def(s).props;
    PromptsMaximum(a, props);
    if i: nat :| PromptAt(a, props, i, YES) { assert OrPrompts(a, props) == YES; }
    if i: nat :| PromptAt(a, props, i, MOD) { assert OrPrompts(a, props) >= MOD; }
  }

  /** A direct dependency is met, as y, unless its condition is n; without a condition it is. A select counts for what its
      condition is, but as y instead of m if the symbol cannot be m. */
  lemma DependenciesExactly(k: Kconfig, a: Assignment, s: Symbol)
    ensures var dep, sel := k.Def(s).dirDep, k.Def(s).revDep;
      var dir, rev := DirectDependency(k, a, s), ReverseDependency(k, a, s);
      && dir != MOD && (dir == NO <==> dep.Some? && Value(a, dep.value) == NO)
      && (rev != NO <==> sel.Some? && Value(a, sel.value) != NO)
      && (s.IsTri() ==> (rev == YES <==>
            sel.Some? && (Value(a, sel.value) == YES || (Value(a, sel.value) == MOD && !CanBeModule(k, a, s)))))
  {
  }

  // ---------- defaults and ranges ----------

  /** The property counts, if it is of the right kind. */
  predicate Enabled(a: Assignment, p: Prop) { !p.Entry? && OptValue(a, p.visible) != NO }

  /** props[j] is the first default whose condition is not n. */
  predicate DefaultAt(a: Assignment, props: seq<Prop>, j: nat) {
    j < |props| && props[j].Default? && Enabled(a, props[j])
    && forall i :: 0 <= i < j && props[i].Default? ==> !Enabled(a, props[i])
  }

  /** props[j] is the first range whose condition is not n. */
  predicate RangeAt(a: Assignment, props: seq<Prop>, j: nat) {
    j < |props| && props[j].Range? && Enabled(a, props[j])
    && forall i :: 0 <= i < j && props[i].Range? ==> !Enabled(a, props[i])
  }

  lemma {:induction false} FirstDefaultAt(a: Assignment, props: seq<Prop>, j: nat)
    requires DefaultAt(a, props, j)
    ensures FirstDefault(a, props) == Some(props[j])
    decreases |props|
  {
    if j > 0 {
      forall i | 0 <= i < |props| - 1 ensures props[1..][i] == props[i + 1] {}
      FirstDefaultAt(a, props[1..], j - 1);
    }
  }

  lemma {:induction false} NoFirstDefault(a: Assignment, props: seq<Prop>)
    requires forall i :: 0 <= i < |props| && props[i].Default? ==> !Enabled(a, props[i])
    ensures FirstDefault(a, props) == None
    decreases |props|
  {
    if props != [] { NoFirstDefault(a, props[1..]); }
  }

  lemma {:induction false} FirstRangeAt(a: Assignment, props: seq<Prop>, j: nat)
    requires RangeAt(a, props, j)
    ensures FirstRange(a, props) == Some(props[j])
    decreases |props|
  {
    if j > 0 {
      forall i | 0 <= i < |props| - 1 ensures props[1..][i] == props[i + 1] {}
      FirstRangeAt(a, props[1..], j - 1);
    }
  }

  lemma {:induction false} NoFirstRange(a: Assignment, props: seq<Prop>)
    requires forall i :: 0 <= i < |props| && props[i].Range? ==> !Enabled(a, props[i])
    ensures FirstRange(a, props) == None
    decreases |props|
  {
    if props != [] { NoFirstRange(a, props[1..]); }
  }

  /** What a symbol has without a user value: the first default whose condition is not n gives its value, limited by the
      condition, or the text of the symbol it names; a select raises it.  Without such a default it is n, or empty. */
  lemma DefaultCounts(k: Kconfig, a: Assignment, s: Symbol, j: nat)
    requires DefaultAt(a, k.Def(s).props, j)
    ensures var p := k.Def(s).props[j];
      && UnsetTri(k, a, s)
         == Promote(k, a, s, Max(Min(Value(a, p.expr), OptValue(a, p.visible)), ReverseDependency(k, a, s)))
      && DefaultValue(k, a, s) == if p.expr.Sym? then a.val(p.expr.s).text else ""
  {
    FirstDefaultAt(a, k.Def(s).props, j);
  }

  lemma NoDefaultCounts(k: Kconfig, a: Assignment, s: Symbol)
    requires forall j: nat :: !DefaultAt(a, k.Def(s).props, j)
    ensures UnsetTri(k, a, s) == ReverseDependency(k, a, s) && DefaultValue(k, a, s) == ""
  {
    NoneAt(a, k.Def(s).props, |k.Def(s).props|);
    NoFirstDefault(a, k.Def(s).props);
  }

  lemma {:induction false} NoneAt(a: Assignment, props: seq<Prop>, n: nat)
    requires n <= |props| && forall j: nat :: !DefaultAt(a, props, j)
    ensures forall i :: 0 <= i < n && props[i].Default? ==> !Enabled(a, props[i])
  {
    if n > 0 {
      NoneAt(a, props, n - 1);
      assert !DefaultAt(a, props, n - 1);
    }
  }

  /** The same for the computed value of a symbol that is hidden or not set by the user. */
  lemma ComputedDefault(k: Kconfig, u: UserValues, rank: Symbol -> nat, s: Symbol, j: nat)
    requires Acyclic(k, rank) && Typed(s)
    requires s !in u || Calc(k, u, rank, s).visible == NO
    requires DefaultAt(Solution(k, u, rank), k.Def(s).props, j)
    ensures var a, c, p := Solution(k, u, rank), Calc(k, u, rank, s), k.Def(s).props[j];
      c.val == if s.IsTri() then Val(Promote(k, a, s, Max(Min(Value(a, p.expr), OptValue(a, p.visible)), c.rev)), "n")
               else Val(NO, Clamp(k, a, s, if p.expr.Sym? then a.val(p.expr.s).text else ""))
  {
    CalcIsSolution(k, u, rank, s);
    DefaultCounts(k, Solution(k, u, rank), s, j);
  }

  /** Without a default that counts it is what a select makes it, or the empty text put into its range. */
  lemma ComputedEmpty(k: Kconfig, u: UserValues, rank: Symbol -> nat, s: Symbol)
    requires Acyclic(k, rank) && Typed(s)
    requires s !in u || Calc(k, u, rank, s).visible == NO
    requires forall j: nat :: !DefaultAt(Solution(k, u, rank), k.Def(s).props, j)
    ensures var a, c := Solution(k, u, rank), Calc(k, u, rank, s);
      c.val == if s.IsTri() then Val(c.rev, "n") else Val(NO, Clamp(k, a, s, ""))
  {
    CalcIsSolution(k, u, rank, s);
    NoDefaultCounts(k, Solution(k, u, rank), s);
  }

  /** A symbol is written if it shows, is selected, or has a default that counts (for a text: one that names a symbol);
      never if it is taken from the environment. */
  lemma WrittenExactly(k: Kconfig, a: Assignment, s: Symbol)
    ensures var props := k.Def(s).props;
      Written(k, a, s) <==>
        && !k.Def(s).auto
        && (|| (exists i: nat :: PromptAt(a, props, i, YES) || PromptAt(a, props, i, MOD))
            || (s.IsTri() && ReverseDependency(k, a, s) != NO)
            || exists j: nat :: DefaultAt(a, props, j) && (s.IsTri() || props[j].expr.Sym?))
  {
    var props := k.Def(s).props;
    ShowsExactly(k, a, s);
    if j: nat :| DefaultAt(a, props, j) {
      FirstDefaultAt(a, props, j);
      OnlyOneAt(a, props, j);
    } else {
      NoneAt(a, props, |props|);
      NoFirstDefault(a, props);
    }
  }

  lemma OnlyOneAt(a: Assignment, props: seq<Prop>, j: nat)
    requires DefaultAt(a, props, j)
    ensures forall i: nat :: DefaultAt(a, props, i) ==> i == j
  {
  }

  /** A selected symbol is at least what it is selected to, whatever the user has set. */
  lemma SelectForces(k: Kconfig, u: UserValues, rank: Symbol -> nat, s: Symbol)
    requires Acyclic(k, rank) && s.IsTri() && k.Def(s).revDep.Some?
    ensures Calc(k, u, rank, s).val.tri >= Value(Solution(k, u, rank), k.Def(s).revDep.value)
  {
    CalcIsSolution(k, u, rank, s);
  }

  // ---------- ranges ----------

  lemma OneRangeAt(a: Assignment, props: seq<Prop>, j: nat)
    requires RangeAt(a, props, j)
    ensures forall i: nat :: RangeAt(a, props, i) ==> i == j
  {
  }

  lemma {:induction false} NoRangeAt(a: Assignment, props: seq<Prop>, n: nat)
    requires n <= |props| && forall j: nat :: !RangeAt(a, props, j)
    ensures forall i :: 0 <= i < n && props[i].Range? ==> !Enabled(a, props[i])
  {
    if n > 0 {
      NoRangeAt(a, props, n - 1);
      assert !RangeAt(a, props, n - 1);
    }
  }

  /** The bounds of a range, read in the base of the symbol that gives them. */
  function Lower(k: Kconfig, a: Assignment, s: Symbol, range: Prop): int
    requires range.Range?
  {
    k.strtoll(a.val(range.lo).text,
      if range.lo.Type() == Int then 10 else if range.lo.Type() == Hex then 16 else if s.Type() == Int then 10 else 16)
  }

  function Upper(k: Kconfig, a: Assignment, s: Symbol, range: Prop): int
    requires range.Range?
  {
    k.strtoll(a.val(range.hi).text,
      if range.hi.Type() == Int then 10 else if range.hi.Type() == Hex then 16 else if s.Type() == Int then 10 else 16)
  }

  function Number(k: Kconfig, s: Symbol, text: string): int { k.strtoll(text, if s.Type() == Int then 10 else 16) }

  /** The first range whose condition is not n applies: a number below it becomes the lower bound, one above it the
      upper bound, and any other stays. */
  lemma RangeApplies(k: Kconfig, a: Assignment, s: Symbol, text: string, j: nat)
    requires s.Type() in {Int, Hex} && RangeAt(a, k.Def(s).props, j)
    ensures var range := k.Def(s).props[j];
      var n, lo, hi := Number(k, s, text), Lower(k, a, s, range), Upper(k, a, s, range);
      && (n < lo ==> Clamp(k, a, s, text) == k.format(s.Type() == Hex, lo))
      && (lo <= n && hi < n ==> Clamp(k, a, s, text) == k.format(s.Type() == Hex, hi))
      && (lo <= n <= hi ==> Clamp(k, a, s, text) == text)
  {
    FirstRangeAt(a, k.Def(s).props, j);
  }

  /** Without such a range every text stays. */
  lemma NoRangeApplies(k: Kconfig, a: Assignment, s: Symbol, text: string)
    requires s.Type() !in {Int, Hex} || forall i :: 0 <= i < |k.Def(s).props| && k.Def(s).props[i].Range? ==> !Enabled(a, k.Def(s).props[i])
    ensures Clamp(k, a, s, text) == text
  {
    if s.Type() in {Int, Hex} { NoFirstRange(a, k.Def(s).props); }
  }

  /** If the bounds survive being printed and read, the computed number lies in the range, and no number of the range is
      nearer to the one put in. */
  lemma NearestInRange(k: Kconfig, a: Assignment, s: Symbol, text: string, j: nat, m: int)
    requires s.Type() in {Int, Hex} && RangeAt(a, k.Def(s).props, j)
    requires var lo, hi, hex := Lower(k, a, s, k.Def(s).props[j]), Upper(k, a, s, k.Def(s).props[j]), s.Type() == Hex;
      lo <= m <= hi && Number(k, s, k.format(hex, lo)) == lo && Number(k, s, k.format(hex, hi)) == hi
    ensures var range := k.Def(s).props[j];
      var n, r := Number(k, s, text), Number(k, s, Clamp(k, a, s, text));
      && Lower(k, a, s, range) <= r <= Upper(k, a, s, range)
      && (if r < n then n - r else r - n) <= (if m < n then n - m else m - n)
  {
    RangeApplies(k, a, s, text, j);
  }
}
