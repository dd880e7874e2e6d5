/** Choice groups (sym_calc_choice, sym_choice_default and the choice branches of sym_calc_value and
    sym_set_tristate_value, scripts/config/symbol.c): which member of a choice is y. */
module Choices {
  import opened Exprs
  import opened Configuration

  /** A choice symbol and its members, in the order of the menu. */
  datatype Group = Group(k: Kconfig, choice: Symbol, members: seq<Symbol>)

  /** What the user set: the flag SYMBOL_DEF_USER, the tristate stored with it, and the picked member. */
  datatype Wishes = Wishes(flagged: set<Symbol>, tri: map<Symbol, Tristate>, pick: Option<Symbol>)

  function At(m: map<Symbol, Tristate>, s: Symbol): Tristate { if s in m then m[s] else NO }

  /** The values of the other symbols, with the choice at tri. */
  function Around(g: Group, env: Assignment, tri: Tristate): Assignment {
    Assignment((s: Symbol) => if s == g.choice then Val(tri, "n") else env.val(s), env.modules)
  }

  ghost predicate UsesMember(g: Group, p: Prop) { exists s :: s in g.members && PropMentions(p, s) }

  /** A member uses no member. */
  ghost predicate MemberBuilt(g: Group, m: Symbol) {
    m.IsTri() && forall p :: p in g.k.Def(m).props ==> !UsesMember(g, p)
  }

  /** The choice uses neither a member nor itself, except in its defaults, and these name members. */
  ghost predicate ChoiceBuilt(g: Group) {
    var d := g.k.Def(g.choice);
    && g.choice.IsTri()
    && (forall s :: s in [g.choice] + g.members ==> !OptMentions(d.revDep, s))
    && (forall p :: p in d.props && p.Prompt? ==> !UsesMember(g, p) && !PropMentions(p, g.choice))
    && (forall i :: 0 <= i < |d.props| && d.props[i].Default? ==> d.props[i].expr.Sym? && d.props[i].expr.s in g.members)
  }

  ghost predicate WellBuilt(g: Group) {
    ChoiceBuilt(g) && g.choice !in g.members && g.k.modules !in [g.choice] + g.members
    && forall m {:trigger MemberBuilt(g, m)} :: m in g.members ==> MemberBuilt(g, m)
  }

  function Shows(g: Group, env: Assignment, tri: Tristate, m: Symbol): Tristate {
    Visibility(g.k, Around(g, env, tri), m)
  }

  predicate GovernsMember(g: Group, env: Assignment, m: Symbol) {
    && Shows(g, env, NO, m) == NO
    && (EffectiveType(g.k, env, g.choice) == TristateType ==> Shows(g, env, MOD, m) != YES)
  }

  /** Members hide when the choice is n and cannot be y when it is m; menu_finalize sees to it. */
  predicate Governs(g: Group, env: Assignment) {
    forall m {:trigger GovernsMember(g, env, m)} :: m in g.members ==> GovernsMember(g, env, m)
  }

  /** The guard that menu_finalize puts in front of the conditions of a member. */
  function Guard(g: Group, m: Symbol): Expr {
    if g.choice.Type() == TristateType && m.Type() != TristateType then Compare(true, g.choice, SYM_YES)
    else Sym(g.choice)
  }

  predicate Guarded(g: Group, m: Symbol) {
    forall p :: p in g.k.Def(m).props && p.Prompt? ==>
      p.visible.Some? && IsBin(AND, p.visible.value) && p.visible.value.l == Guard(g, m)
  }

  lemma {:induction false} GuardBounds(g: Group, m: Symbol, a: Assignment, props: seq<Prop>)
    requires forall p :: p in props && p.Prompt? ==>
               p.visible.Some? && IsBin(AND, p.visible.value) && p.visible.value.l == Guard(g, m)
    ensures OrPrompts(a, props) <= Value(a, Guard(g, m))
    decreases |props|
  {
    if props != [] { GuardBounds(g, m, a, props[..|props| - 1]); }
  }

  /** With these guards the choice governs its members. */
  lemma GuardsGovern(g: Group, env: Assignment)
    requires WellBuilt(g) && env.modules == g.k.modules && env.WellFormed()
    requires forall m :: m in g.members ==> Guarded(g, m)
    ensures Governs(g, env)
  {
    forall m | m in g.members ensures GovernsMember(g, env, m) {
      GuardBounds(g, m, Around(g, env, NO), g.k.Def(m).props);
      GuardBounds(g, m, Around(g, env, MOD), g.k.Def(m).props);
      assert env.StringValue(SYM_YES) == "y" && "y"[0] == 'y' && "m"[0] == 'm' && "n"[0] == 'n';
    }
  }

  // ---------- which member is selected ----------

  /** An enabled default whose member shows. */
  predicate Offers(g: Group, a: Assignment, p: Prop) {
    p.Default? && OptValue(a, p.visible) != NO && p.expr.Sym? && Visibility(g.k, a, p.expr.s) != NO
  }

  /** The member that the first of the properties from i on offers. */
  function Offered(g: Group, a: Assignment, props: seq<Prop>, i: nat): (r: Option<Symbol>)
    requires i <= |props|
    ensures r.None? <==> forall j :: i <= j < |props| ==> !Offers(g, a, props[j])
    ensures r.Some? ==> exists j :: i <= j < |props| && Offers(g, a, props[j]) && props[j].expr.s == r.value
                                    && forall h :: i <= h < j ==> !Offers(g, a, props[h])
    decreases |props| - i
  {
    if i == |props| then None
    else if Offers(g, a, props[i]) then Some(props[i].expr.s)
    else Offered(g, a, props, i + 1)
  }

  /** The first of the members from i on that shows. */
  function FirstShown(g: Group, a: Assignment, members: seq<Symbol>, i: nat): (r: Option<Symbol>)
    requires i <= |members|
    ensures r.None? <==> forall j :: i <= j < |members| ==> Visibility(g.k, a, members[j]) == NO
    ensures r.Some? ==> exists j :: i <= j < |members| && members[j] == r.value && Visibility(g.k, a, members[j]) != NO
                                    && forall h :: i <= h < j ==> Visibility(g.k, a, members[h]) == NO
    decreases |members| - i
  {
    if i == |members| then None
    else if Visibility(g.k, a, members[i]) != NO then Some(members[i])
    else FirstShown(g, a, members, i + 1)
  }

  /** The user's pick if it shows, else what the defaults offer, else the first member that shows. */
  function Favourite(g: Group, a: Assignment, pick: Option<Symbol>): Option<Symbol> {
    var props := g.k.Def(g.choice).props;
    if pick.Some? && Visibility(g.k, a, pick.value) != NO then pick
    else if Offered(g, a, props, 0).Some? then Offered(g, a, props, 0)
    else FirstShown(g, a, g.members, 0)
  }

  predicate PickIsMember(g: Group, w: Wishes) { w.pick.Some? ==> w.pick.value in g.members }

  /** There is a favourite exactly when a member shows, and it is one that shows. */
  lemma FavouriteShows(g: Group, a: Assignment, w: Wishes)
    requires WellBuilt(g) && PickIsMember(g, w)
    ensures var r := Favourite(g, a, w.pick);
      && (r.Some? <==> exists m :: m in g.members && Visibility(g.k, a, m) != NO)
      && (r.Some? ==> r.value in g.members && Visibility(g.k, a, r.value) != NO)
  {
  }

  // ---------- the values of a choice group ----------

  /** The value of the choice before its members are looked at: its defaults do not count. */
  function WishedTri(g: Group, env: Assignment, w: Wishes): Tristate {
    var c := g.choice;
    var vis := Visibility(g.k, env, c);
    var base := if vis != NO && c in w.flagged then Min(At(w.tri, c), vis) else NO;
    Promote(g.k, env, c, Max(base, ReverseDependency(g.k, env, c)))
  }

  function Selected(g: Group, env: Assignment, w: Wishes): Option<Symbol> {
    if WishedTri(g, env, w) == YES then Favourite(g, Around(g, env, YES), w.pick) else None
  }

  /** The choice falls back to n when no member shows. */
  function ChoiceTri(g: Group, env: Assignment, w: Wishes): Tristate {
    var tri := WishedTri(g, env, w);
    if tri == YES && Selected(g, env, w).None? then NO else tri
  }

  /** The value of a member that cannot be y by selection: as for other symbols. */
  function OwnTri(g: Group, a: Assignment, w: Wishes, m: Symbol): Tristate {
    var vis := Visibility(g.k, a, m);
    Promote(g.k, a, m, if vis != NO && m in w.flagged then Min(At(w.tri, m), vis) else DefaultTri(g.k, a, m))
  }

  function MemberTri(g: Group, env: Assignment, w: Wishes, m: Symbol): Tristate {
    var a := Around(g, env, ChoiceTri(g, env, w));
    if Visibility(g.k, a, m) == YES then if Selected(g, env, w) == Some(m) then YES else NO
    else OwnTri(g, a, w, m)
  }

  /** How far a choice is wished to be on: as far as the user has set it, but not further than it shows, and at least as far
      as a select asks; its defaults do not count. */
  lemma WishedExactly(g: Group, env: Assignment, w: Wishes)
    requires env.modules == g.k.modules && g.choice.IsTri()
    ensures var c := g.choice;
      var vis, rev, tri := Visibility(g.k, env, c), ReverseDependency(g.k, env, c), WishedTri(g, env, w);
      && rev <= tri
      && (vis == NO || c !in w.flagged ==> tri == rev)
      && (vis != NO && c in w.flagged && vis <= At(w.tri, c) ==> tri == Max(vis, rev))
      && (vis != NO && c in w.flagged && At(w.tri, c) < vis ==>
            tri == Max(rev, if At(w.tri, c) == MOD && EffectiveType(g.k, env, c) == Boolean then YES else At(w.tri, c)))
  {
  }

  /** The user's pick does not decide: there is none, or it does not show. */
  predicate NoPick(g: Group, a: Assignment, w: Wishes) { w.pick.None? || Visibility(g.k, a, w.pick.value) == NO }

  /** A choice that is y selects the user's pick if that shows. */
  lemma SelectedPick(g: Group, env: Assignment, w: Wishes)
    requires WishedTri(g, env, w) == YES && w.pick.Some? && Visibility(g.k, Around(g, env, YES), w.pick.value) != NO
    ensures Selected(g, env, w) == w.pick && ChoiceTri(g, env, w) == YES
  {
  }

  /** Otherwise it selects the member named by the first default whose condition is not n and whose member shows. */
  lemma SelectedDefault(g: Group, env: Assignment, w: Wishes, j: nat)
    requires WishedTri(g, env, w) == YES && NoPick(g, Around(g, env, YES), w)
    requires var a, props := Around(g, env, YES), g.k.Def(g.choice).props;
      && j < |props| && props[j].Default? && OptValue(a, props[j].visible) != NO && props[j].expr.Sym?
      && Visibility(g.k, a, props[j].expr.s) != NO
      && forall i :: 0 <= i < j && props[i].Default? && OptValue(a, props[i].visible) != NO && props[i].expr.Sym? ==>
           Visibility(g.k, a, props[i].expr.s) == NO
    ensures Selected(g, env, w) == Some(g.k.Def(g.choice).props[j].expr.s) && ChoiceTri(g, env, w) == YES
  {
    OfferedAt(g, Around(g, env, YES), g.k.Def(g.choice).props, 0, j);
  }

  lemma {:induction false} OfferedAt(g: Group, a: Assignment, props: seq<Prop>, i: nat, j: nat)
    requires i <= j < |props| && Offers(g, a, props[j]) && forall h :: i <= h < j ==> !Offers(g, a, props[h])
    ensures Offered(g, a, props, i) == Some(props[j].expr.s)
    decreases j - i
  {
    if i < j { OfferedAt(g, a, props, i + 1, j); }
  }

  /** Without one it selects the first member that shows; it is n if there is none either. */
  lemma SelectedFirst(g: Group, env: Assignment, w: Wishes, i: nat)
    requires WishedTri(g, env, w) == YES && NoPick(g, Around(g, env, YES), w) && i <= |g.members|
    requires var a, props := Around(g, env, YES), g.k.Def(g.choice).props;
      && (forall j :: 0 <= j < |props| && props[j].Default? && OptValue(a, props[j].visible) != NO && props[j].expr.Sym? ==>
            Visibility(g.k, a, props[j].expr.s) == NO)
      && (forall h :: 0 <= h < i ==> Visibility(g.k, a, g.members[h]) == NO)
      && (i < |g.members| ==> Visibility(g.k, a, g.members[i]) != NO)
    ensures Selected(g, env, w) == if i < |g.members| then Some(g.members[i]) else None
    ensures ChoiceTri(g, env, w) == if i < |g.members| then YES else NO
  {
    var a, props := Around(g, env, YES), g.k.Def(g.choice).props;
    NoneOffered(g, a, props, 0);
    FirstShownAt(g, a, g.members, 0, i);
  }

  lemma {:induction false} NoneOffered(g: Group, a: Assignment, props: seq<Prop>, i: nat)
    requires i <= |props| && forall j :: i <= j < |props| ==> !Offers(g, a, props[j])
    ensures Offered(g, a, props, i) == None
    decreases |props| - i
  {
    if i < |props| { NoneOffered(g, a, props, i + 1); }
  }

  lemma {:induction false} FirstShownAt(g: Group, a: Assignment, members: seq<Symbol>, i: nat, j: nat)
    requires i <= j <= |members| && forall h :: i <= h < j ==> Visibility(g.k, a, members[h]) == NO
    requires j < |members| ==> Visibility(g.k, a, members[j]) != NO
    ensures FirstShown(g, a, members, i) == if j < |members| then Some(members[j]) else None
    decreases j - i
  {
    if i < j { FirstShownAt(g, a, members, i + 1, j); }
  }

  predicate NoDefaults(g: Group) {
    forall m, p :: m in g.members && p in g.k.Def(m).props ==> !p.Default?
  }

  /** A member that does not show fully is not y, unless a default of its own makes it so. */
  lemma OwnIsNotYes(g: Group, a: Assignment, w: Wishes, m: Symbol)
    requires m.IsTri() && a.modules == g.k.modules && Visibility(g.k, a, m) != YES
    requires forall p :: p in g.k.Def(m).props ==> !p.Default?
    ensures OwnTri(g, a, w, m) != YES
  {
    assert FirstDefault(a, g.k.Def(m).props).None?;
  }

  /** The default of m counts, because m is hidden or the user has not set it, and makes it y. */
  predicate YesByDefault(g: Group, a: Assignment, w: Wishes, m: Symbol) {
    (Visibility(g.k, a, m) == NO || m !in w.flagged) && Promote(g.k, a, m, DefaultTri(g.k, a, m)) == YES
  }

  /** Only its default can make a member y that does not show fully. */
  lemma OwnIsDefault(g: Group, a: Assignment, w: Wishes, m: Symbol)
    requires m.IsTri() && a.modules == g.k.modules && Visibility(g.k, a, m) != YES
    ensures OwnTri(g, a, w, m) == YES <==> YesByDefault(g, a, w, m)
  {
  }

  /** When the choice is y, members that have no defaults are n or m but for the selected one, and that one is y
      exactly if it shows fully; in a boolean choice it always does. With defaults, what is needed besides is that
      no member outside the selection has a default that counts and makes it y. */
  lemma Exclusive(g: Group, env: Assignment, w: Wishes)
    requires WellBuilt(g) && PickIsMember(g, w) && env.modules == g.k.modules && ChoiceTri(g, env, w) == YES
    ensures Selected(g, env, w).Some? && Selected(g, env, w).value in g.members
    ensures var a, sel := Around(g, env, YES), Selected(g, env, w).value;
      && (NoDefaults(g) ==> forall m :: m in g.members ==>
            (MemberTri(g, env, w, m) == YES <==> m == sel && Visibility(g.k, a, sel) == YES))
      && (forall m :: m in g.members && m != sel && Visibility(g.k, a, m) == YES ==> MemberTri(g, env, w, m) == NO)
      && (sel.Type() == Boolean ==> Visibility(g.k, a, sel) == YES)
      && (Visibility(g.k, a, sel) == YES ==>
            ((forall m :: m in g.members ==> (MemberTri(g, env, w, m) == YES <==> m == sel))
             <==> forall m :: m in g.members && Visibility(g.k, a, m) != YES ==> !YesByDefault(g, a, w, m)))
  {
    var a, sel := Around(g, env, YES), Selected(g, env, w).value;
    FavouriteShows(g, a, w);
    forall m | m in g.members && Visibility(g.k, a, m) != YES ensures OwnTri(g, a, w, m) == YES <==> YesByDefault(g, a, w, m) {
      assert MemberBuilt(g, m);
      OwnIsDefault(g, a, w, m);
    }
    if NoDefaults(g) {
      forall m | m in g.members && Visibility(g.k, a, m) != YES ensures OwnTri(g, a, w, m) != YES {
        assert MemberBuilt(g, m);
        OwnIsNotYes(g, a, w, m);
      }
    }
  }

  /** In a boolean choice that is not y all members are n, and it is y exactly when it is wished to be and a
      member shows. */
  lemma BooleanChoice(g: Group, env: Assignment, w: Wishes)
    requires WellBuilt(g) && PickIsMember(g, w) && env.modules == g.k.modules && Governs(g, env)
    requires NoDefaults(g) && g.choice.Type() == Boolean
    ensures ChoiceTri(g, env, w) == YES
            <==> WishedTri(g, env, w) == YES && exists m :: m in g.members && Shows(g, env, YES, m) != NO
    ensures ChoiceTri(g, env, w) != YES ==> forall m :: m in g.members ==> MemberTri(g, env, w, m) == NO
  {
    FavouriteShows(g, Around(g, env, YES), w);
    if ChoiceTri(g, env, w) != YES {
      assert ChoiceTri(g, env, w) == NO;
      forall m | m in g.members ensures MemberTri(g, env, w, m) == NO {
        assert GovernsMember(g, env, m);
        assert FirstDefault(Around(g, env, NO), g.k.Def(m).props).None?;
      }
    }
  }

  // ---------- what an evaluation and a pick do to the wishes ----------

  /** Evaluating a choice drops its user flag if a member shows that has none. */
  predicate Dropped(g: Group, env: Assignment, w: Wishes) {
    WishedTri(g, env, w) == YES && exists m :: m in g.members && Shows(g, env, YES, m) != NO && m !in w.flagged
  }

  function After(g: Group, env: Assignment, w: Wishes): Wishes {
    if Dropped(g, env, w) then w.(flagged := w.flagged - {g.choice}) else w
  }

  /** The next evaluation then gives the choice another value, exactly when only the user made it y. */
  lemma DroppedChoice(g: Group, env: Assignment, w: Wishes)
    requires WellBuilt(g) && PickIsMember(g, w) && env.modules == g.k.modules
    ensures ChoiceTri(g, env, After(g, env, w)) == ChoiceTri(g, env, w)
            <==> !Dropped(g, env, w) || ReverseDependency(g.k, env, g.choice) == YES
  {
    FavouriteShows(g, Around(g, env, YES), w);
  }

  function Shown(g: Group, a: Assignment): set<Symbol> {
    set m | m in g.members && Visibility(g.k, a, m) != NO
  }

  /** Giving member m the value val; y makes it the pick and marks the choice and all members that show. */
  function Wish(g: Group, a: Assignment, w: Wishes, m: Symbol, val: Tristate): Wishes {
    if val == YES then Wishes(w.flagged + {m, g.choice} + Shown(g, a), w.tri[m := val], Some(m))
    else Wishes(w.flagged + {m}, w.tri[m := val], w.pick)
  }

  /** A member that shows fully can be picked: at the next evaluation it is y, the choice still is, and nothing
      is dropped. */
  lemma PickTakesEffect(g: Group, env: Assignment, w: Wishes, m: Symbol)
    requires WellBuilt(g) && PickIsMember(g, w) && env.modules == g.k.modules
    requires ChoiceTri(g, env, w) == YES && m in g.members && Shows(g, env, YES, m) == YES
    ensures var next := Wish(g, Around(g, env, YES), After(g, env, w), m, YES);
      && ChoiceTri(g, env, next) == YES && Selected(g, env, next) == Some(m)
      && MemberTri(g, env, next, m) == YES && !Dropped(g, env, next)
  {
    var next := Wish(g, Around(g, env, YES), After(g, env, w), m, YES);
    assert WishedTri(g, env, next) == YES;
  }

  /** While the choice is not y, a member takes any value up to its visibility. */
  lemma PartTakesEffect(g: Group, env: Assignment, w: Wishes, m: Symbol, val: Tristate)
    requires WellBuilt(g) && PickIsMember(g, w) && env.modules == g.k.modules && Governs(g, env)
    requires WishedTri(g, env, w) != YES && m in g.members
    requires val <= Shows(g, env, ChoiceTri(g, env, w), m) == MOD
    ensures var next := Wish(g, Around(g, env, ChoiceTri(g, env, w)), w, m, val);
      ChoiceTri(g, env, next) == ChoiceTri(g, env, w) && MemberTri(g, env, next, m) == val
  {
    var next := Wish(g, Around(g, env, ChoiceTri(g, env, w)), w, m, val);
    assert MemberBuilt(g, m) && val != YES;
    assert WishedTri(g, env, next) == WishedTri(g, env, w);
  }

  /** The effect of an accepted n or m on a member that shows up to m, whatever the choice is: the next evaluation
      gives the choice the value it would have had anyway, and the member takes val exactly if it still shows up to m,
      or if it is hidden and its default is val. */
  lemma PartEffect(g: Group, env: Assignment, w: Wishes, m: Symbol, val: Tristate)
    requires WellBuilt(g) && PickIsMember(g, w) && env.modules == g.k.modules && Governs(g, env) && m in g.members
    requires val <= Shows(g, env, ChoiceTri(g, env, w), m) == MOD
    ensures var next := Wish(g, Around(g, env, ChoiceTri(g, env, w)), After(g, env, w), m, val);
      var tri := ChoiceTri(g, env, next);
      && tri == ChoiceTri(g, env, After(g, env, w))
      && (MemberTri(g, env, next, m) == val <==>
            || Shows(g, env, tri, m) == MOD
            || (Shows(g, env, tri, m) == NO && Promote(g.k, Around(g, env, tri), m, DefaultTri(g.k, Around(g, env, tri), m)) == val))
      && (tri == ChoiceTri(g, env, w) ==> MemberTri(g, env, next, m) == val)
  {
    var after := After(g, env, w);
    var next := Wish(g, Around(g, env, ChoiceTri(g, env, w)), after, m, val);
    assert MemberBuilt(g, m) && GovernsMember(g, env, m);
    assert WishedTri(g, env, next) == WishedTri(g, env, after);
    assert WishedTri(g, env, w) != YES ==> after == w;
    FavouriteShows(g, Around(g, env, YES), w);
  }

  /** sym_tristate_within_range of a member with this visibility. */
  predicate InRange(g: Group, env: Assignment, m: Symbol, val: Tristate, vis: Tristate) {
    var boolean := (m.Type() == TristateType && vis == YES) || EffectiveType(g.k, env, m) == Boolean;
    vis != NO && !(boolean && val == MOD) && if vis == YES then val == YES else val <= vis
  }

  /** A new value of a member is within range exactly if it would take effect, as long as the choice keeps its value. */
  lemma MemberRangeIsExact(g: Group, env: Assignment, w: Wishes, m: Symbol, val: Tristate)
    requires WellBuilt(g) && PickIsMember(g, w) && env.modules == g.k.modules && Governs(g, env) && m in g.members
    requires val != MemberTri(g, env, w, m)
    requires var tri := ChoiceTri(g, env, w);
      ChoiceTri(g, env, Wish(g, Around(g, env, tri), After(g, env, w), m, val)) == tri
    ensures var tri := ChoiceTri(g, env, w);
      InRange(g, env, m, val, Shows(g, env, tri, m))
      <==> MemberTri(g, env, Wish(g, Around(g, env, tri), After(g, env, w), m, val), m) == val
  {
    var tri := ChoiceTri(g, env, w);
    assert MemberBuilt(g, m) && GovernsMember(g, env, m);
    if Shows(g, env, tri, m) == YES && val == YES {
      PickTakesEffect(g, env, w, m);
    } else if Shows(g, env, tri, m) == MOD && val != YES {
      PartEffect(g, env, w, m, val);
    }
  }

  // ---------- a choice that loses its value ----------

  const PICK := Config("PICK", Boolean)
  const ONE := Config("ONE", Boolean)

  /** An optional choice with one member. */
  const OPTIONAL := Group(
    Kconfig(map[PICK := Definition([Prompt(None)], None, None, true),
                ONE := Definition([Prompt(Some(Bin(AND, Sym(PICK), Sym(SYM_YES))))], None, None, false)],
      SYM_NO, (t: string, b: int) => 0, (h: bool, n: int) => ""),
    PICK, [ONE])

  const PLAIN := Assignment(
    (s: Symbol) => Val(if s == SYM_YES then YES else if s == SYM_MOD then MOD else NO, s.name), SYM_NO)

  /** The user has set the choice to y but not seen its member: the choice is y, and n when evaluated again. */
  lemma ChoiceLost()
    ensures var w := Wishes({PICK}, map[PICK := YES], None);
      && WellBuilt(OPTIONAL) && Governs(OPTIONAL, PLAIN)
      && Dropped(OPTIONAL, PLAIN, w) && ChoiceTri(OPTIONAL, PLAIN, w) == YES
      && ChoiceTri(OPTIONAL, PLAIN, After(OPTIONAL, PLAIN, w)) == NO
  {
    var g, w := OPTIONAL, Wishes({PICK}, map[PICK := YES], None);
    var p, o := g.k.Def(PICK).props, g.k.Def(ONE).props;
    assert p[..0] == [] && o[..0] == [];
    assert OrPrompts(PLAIN, p) == YES && WishedTri(g, PLAIN, w) == YES;
    var a := Around(g, PLAIN, YES);
    assert a.Tri(PICK) == YES && a.Tri(SYM_YES) == YES && Value(a, Bin(AND, Sym(PICK), Sym(SYM_YES))) == YES;
    assert OrPrompts(a, o) == YES && Shows(g, PLAIN, YES, ONE) == YES;
    assert g.members[0] == ONE && ONE in g.members;
    OptionalBuilt();
    GuardsGovernBoolean();
  }

  lemma OptionalBuilt()
    ensures WellBuilt(OPTIONAL)
  {
    assert MemberBuilt(OPTIONAL, ONE);
  }

  lemma GuardsGovernBoolean()
    ensures Governs(OPTIONAL, PLAIN)
  {
    GuardBounds(OPTIONAL, ONE, Around(OPTIONAL, PLAIN, NO), OPTIONAL.k.Def(ONE).props);
  }

  // ---------- the evaluation ----------

  /** val and vis are the value and visibility of m. */
  predicate Right(g: Group, env: Assignment, w: Wishes, m: Symbol, val: Tristate, vis: Tristate) {
    val == MemberTri(g, env, w, m) && vis == Shows(g, env, ChoiceTri(g, env, w), m)
  }

  lemma ShowsIs(g: Group, env: Assignment, tri: Tristate, m: Symbol)
    ensures Shows(g, env, tri, m) == Visibility(g.k, Around(g, env, tri), m)
  {
  }

  class Choice {
    const g: Group
    const env: Assignment
    var wishes: Wishes
    var valid: set<Symbol>              // SYMBOL_VALID
    var visible: map<Symbol, Tristate>
    var tri: map<Symbol, Tristate>      // curr.tri
    var selected: Option<Symbol>        // curr.val of the choice
    ghost var base: Wishes              // the wishes when the cached values were last cleared

    constructor (g: Group, env: Assignment, wishes: Wishes)
      requires WellBuilt(g) && env.modules == g.k.modules && Governs(g, env) && PickIsMember(g, wishes)
      ensures this.g == g && this.env == env && base == wishes && valid == {} && Valid()
    {
      this.g, this.env, this.wishes, base := g, env, wishes, wishes;
      valid, visible, tri, selected := {}, map[], map[], None;
    }

    ghost predicate Built()
      reads this
    {
      WellBuilt(g) && env.modules == g.k.modules && Governs(g, env) && PickIsMember(g, base)
    }

    /** The stored values of the valid symbols, but for those in busy, are the ones that base calls for. */
    ghost predicate Current(busy: set<Symbol>)
      reads this
    {
      && Built()
      && (g.choice !in valid ==> wishes == base)
      && (g.choice in valid ==>
            && At(tri, g.choice) == ChoiceTri(g, env, base) && selected == Selected(g, env, base)
            && wishes == After(g, env, base))
      && (forall m :: m in g.members && m in valid && m !in busy ==> g.choice in valid)
      && (forall m :: m in g.members && m in valid && m !in busy ==> Right(g, env, base, m, At(tri, m), At(visible, m)))
    }

    ghost predicate Valid()
      reads this
    {
      Current({})
    }

    /** sym_choice_default. */
    method ChoiceDefault() returns (def: Option<Symbol>)
      requires Built() && forall m :: m in g.members ==> At(visible, m) == Shows(g, env, YES, m)
      requires At(tri, g.choice) == YES
      ensures def == Favourite(g, Around(g, env, YES), None)
    {
      var a, props := Around(g, env, At(tri, g.choice)), g.k.Def(g.choice).props;
      for i := 0 to |props|
        invariant Offered(g, a, props, i) == Offered(g, a, props, 0)
      {
        if !props[i].Default? || OptValue(a, props[i].visible) == NO { continue; }
        if At(visible, props[i].expr.s) != NO { return Some(props[i].expr.s); }
      }
      for i := 0 to |g.members|
        invariant FirstShown(g, a, g.members, i) == FirstShown(g, a, g.members, 0)
      {
        if At(visible, g.members[i]) != NO { return Some(g.members[i]); }
      }
      return None;
    }

    /** sym_calc_choice. */
    method CalcChoice() returns (def: Option<Symbol>)
      requires Built() && wishes == base && At(tri, g.choice) == YES && WishedTri(g, env, base) == YES
      modifies this`visible, this`tri, this`wishes
      ensures def == Favourite(g, Around(g, env, YES), base.pick)
      ensures wishes == After(g, env, base)
      ensures tri == if def.None? then old(tri)[g.choice := NO] else old(tri)
      ensures forall m :: m in g.members ==> At(visible, m) == Shows(g, env, YES, m)
    {
      var flag := g.choice in wishes.flagged;
      for i := 0 to |g.members|
        invariant tri == old(tri) && wishes == old(wishes)
        invariant forall j :: 0 <= j < i ==> At(visible, g.members[j]) == Shows(g, env, YES, g.members[j])
        invariant flag <==> g.choice in wishes.flagged
                            && forall j :: 0 <= j < i && Shows(g, env, YES, g.members[j]) != NO ==> g.members[j] in wishes.flagged
      {
        var m := g.members[i];
        visible := visible[m := Visibility(g.k, Around(g, env, At(tri, g.choice)), m)];
        if At(visible, m) != NO { flag := flag && m in wishes.flagged; }
      }
      if !flag { wishes := wishes.(flagged := wishes.flagged - {g.choice}); }
      if wishes.pick.Some? && At(visible, wishes.pick.value) != NO { return wishes.pick; }
      def := ChoiceDefault();
      if def == None { tri := tri[g.choice := NO]; }
    }

    /** The part of sym_calc_value that comes before the members of a choice. */
    method GroupValue() returns (newval: Tristate)
      requires Built() && At(visible, g.choice) == Visibility(g.k, env, g.choice)
      ensures newval == WishedTri(g, env, wishes)
    {
      newval := NO;
      if At(visible, g.choice) != NO && g.choice in wishes.flagged {
        newval := Min(At(wishes.tri, g.choice), At(visible, g.choice));
      }
      newval := Max(newval, ReverseDependency(g.k, env, g.choice));
      if newval == MOD && EffectiveType(g.k, env, g.choice) == Boolean { newval := YES; }
    }

    /** sym_calc_value of the choice. */
    method CalcGroup(ghost busy: set<Symbol>)
      requires Current(busy) && g.choice !in valid
      modifies this
      ensures Current(busy) && g.choice in valid && valid == old(valid) + {g.choice} && base == old(base)
    {
      valid, visible := valid + {g.choice}, visible[g.choice := Visibility(g.k, env, g.choice)];
      var newval := GroupValue();
      tri, selected := tri[g.choice := newval], None;
      if newval == YES { selected := CalcChoice(); }
    }

    /** The part of sym_calc_value that follows the visibility of a member. */
    method MemberValue(m: Symbol) returns (newval: Tristate)
      requires Current({m}) && m in g.members && g.choice in valid
      requires At(visible, m) == Shows(g, env, ChoiceTri(g, env, base), m)
      ensures newval == MemberTri(g, env, base, m)
    {
      assert MemberBuilt(g, m);
      var a := Around(g, env, At(tri, g.choice));
      if At(visible, m) == YES { return if selected == Some(m) then YES else NO; }
      if At(visible, m) != NO && m in wishes.flagged {
        newval := Min(At(wishes.tri, m), At(visible, m));
      } else {
        newval := DefaultTri(g.k, a, m);
      }
      if newval == MOD && EffectiveType(g.k, a, m) == Boolean { newval := YES; }
    }

    /** sym_calc_value of a member. Its prompts name the choice, which is therefore computed first. */
    method CalcMember(m: Symbol)
      requires Valid() && m in g.members
      modifies this
      ensures Valid() && valid == old(valid) + {m, g.choice} && base == old(base)
    {
      if m in valid { return; }
      valid := valid + {m};
      if g.choice !in valid { CalcGroup({m}); }
      StoreMember(m);
    }

    method StoreMember(m: Symbol)
      requires Current({m}) && m in g.members && m in valid && g.choice in valid
      modifies this`visible, this`tri
      ensures Valid()
    {
      hide MemberTri, Shows, Selected, ChoiceTri, MemberBuilt, ChoiceBuilt, Governs, Visibility;
      ShowsIs(g, env, At(tri, g.choice), m);
      visible := visible[m := Visibility(g.k, Around(g, env, At(tri, g.choice)), m)];
      assert forall x :: x in g.members && x in valid && x != m ==> Right(g, env, base, x, At(tri, x), At(visible, x)) by {
        assert forall x {:trigger At(visible, x)} :: x != m ==> At(visible, x) == At(old(visible), x);
      }
      var newval := MemberValue(m);
      tri := tri[m := newval];
    }

    /** Any run of evaluations, in any order: all values are those that the wishes at its start call for. */
    method Evaluate(order: seq<Symbol>)
      requires Valid() && forall s :: s in order ==> s == g.choice || s in g.members
      modifies this
      ensures Valid() && base == old(base) && forall s :: s in order ==> s in valid
      ensures forall s :: s in old(valid) ==> s in valid
    {
      for i := 0 to |order|
        invariant Valid() && base == old(base) && valid >= old(valid)
        invariant forall j :: 0 <= j < i ==> order[j] in valid
      {
        if order[i] != g.choice { CalcMember(order[i]); } else if g.choice !in valid { CalcGroup({}); }
      }
    }

    /** What an accepted n or m of a member means for the next evaluation, if the choice was at before. */
    ghost predicate PartTaken(m: Symbol, val: Tristate, before: Tristate)
      reads this
    {
      var now := ChoiceTri(g, env, base);
      var a := Around(g, env, now);
      && (now == before ==> MemberTri(g, env, base, m) == val)
      && (MemberTri(g, env, base, m) == val <==>
            Visibility(g.k, a, m) == MOD || (Visibility(g.k, a, m) == NO && Promote(g.k, a, m, DefaultTri(g.k, a, m)) == val))
    }

    /** sym_set_tristate_value of a member, on a group with current values. A refused value changes nothing; a
        picked member is y when evaluated again, and so is the choice; another value takes effect if the choice keeps
        its own, and otherwise if the member still shows up to m or has it by default. */
    method SetMember(m: Symbol, val: Tristate) returns (ok: bool)
      requires Valid() && m in g.members && g.choice in valid && forall x :: x in g.members ==> x in valid
      modifies this
      ensures ok <==> old(At(tri, m)) == val || InRange(g, env, m, val, old(At(visible, m)))
      ensures !ok ==> unchanged(this)
      ensures ok ==> wishes == Wish(g, Around(g, env, old(At(tri, g.choice))), old(wishes), m, val)
      ensures ok && old(At(tri, m)) != val ==> valid == {} && base == wishes && Valid()
      ensures ok && old(At(tri, m)) != val && val == YES && old(At(tri, g.choice)) == YES ==>
                ChoiceTri(g, env, base) == YES && Selected(g, env, base) == Some(m) && MemberTri(g, env, base, m) == YES
      ensures ok && old(At(tri, m)) != val && val != YES ==> PartTaken(m, val, old(At(tri, g.choice)))
    {
      var oldval := At(tri, m);
      assert Right(g, env, base, m, At(tri, m), At(visible, m));
      if oldval != val && !InRange(g, env, m, val, At(visible, m)) { return false; }
      if val == YES && oldval != val && At(tri, g.choice) == YES { PickTakesEffect(g, env, base, m); }
      if val != YES && oldval != val { PartEffect(g, env, base, m, val); }
      SetWish(m, val);
      if oldval != val {
        valid, base := {}, wishes;
      }
      return true;
    }

    method SetWish(m: Symbol, val: Tristate)
      requires Valid() && m in g.members && g.choice in valid && forall x :: x in g.members ==> x in valid
      modifies this`wishes
      ensures wishes == Wish(g, Around(g, env, At(tri, g.choice)), old(wishes), m, val)
    {
      wishes := wishes.(flagged := wishes.flagged + {m});
      if val == YES {
        wishes := wishes.(pick := Some(m), flagged := wishes.flagged + {g.choice});
        assert forall x :: x in g.members ==> Right(g, env, base, x, At(tri, x), At(visible, x));
        MarkShown();
      }
      wishes := wishes.(tri := wishes.tri[m := val]);
    }

    /** All members that show get the user flag. */
    method MarkShown()
      modifies this`wishes
      ensures wishes == old(wishes).(flagged := old(wishes).flagged + set m | m in g.members && At(visible, m) != NO)
    {
      for i := 0 to |g.members|
        invariant wishes == old(wishes).(flagged := old(wishes).flagged
                    + set j | 0 <= j < i && At(visible, g.members[j]) != NO :: g.members[j])
      {
        if At(visible, g.members[i]) != NO { wishes := wishes.(flagged := wishes.flagged + {g.members[i]}); }
      }
    }
  }
}
