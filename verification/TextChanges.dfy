/** sym_string_within_range and sym_set_string_value (scripts/config/symbol.c): setting a symbol to a text. */
module TextChanges {
  import opened Exprs
  import opened Configuration
  import opened Active
  import opened Evaluator
  import opened Changes
  import opened ConfigFile

  /** sym_string_valid, for the symbols whose value is a text. */
  predicate ValidText(s: Symbol, text: string) {
    match s.Type()
    case String => true
    case Int => ValidInt(text)
    case Hex => ValidHex(text)
    case _ => false
  }

  /** The number lies within the range. */
  predicate Within(k: Kconfig, a: Assignment, s: Symbol, range: Prop, text: string)
    requires range.Range?
  {
    var base := Base(s, 0);
    && k.strtoll(text, base) >= k.strtoll(a.val(range.lo).text, Base(range.lo, base))
    && k.strtoll(text, base) <= k.strtoll(a.val(range.hi).text, Base(range.hi, base))
  }

  /** sym_string_within_range, for the symbols whose value is a text: visibility does not matter. */
  predicate TextInRange(k: Kconfig, a: Assignment, s: Symbol, text: string) {
    var range := FirstRange(a, k.Def(s).props);
    ValidText(s, text) && (s.Type() == String || range.None? || Within(k, a, s, range.value, text))
  }

  /** A text is accepted if it is valid and, for a number, lies within the first range whose condition is not n. */
  lemma AcceptedTexts(k: Kconfig, a: Assignment, s: Symbol, text: string)
    ensures var props := k.Def(s).props;
      TextInRange(k, a, s, text) <==>
        && s.Type() in {String, Int, Hex}
        && (s.Type() == Int ==> ValidInt(text)) && (s.Type() == Hex ==> ValidHex(text))
        && forall j: nat :: s.Type() in {Int, Hex} && RangeAt(a, props, j) ==>
             Lower(k, a, s, props[j]) <= Number(k, s, text) <= Upper(k, a, s, props[j])
  {
    var props := k.Def(s).props;
    if s.Type() in {Int, Hex} {
      if j: nat :| RangeAt(a, props, j) {
        FirstRangeAt(a, props, j);
        OneRangeAt(a, props, j);
      } else {
        NoRangeAt(a, props, |props|);
        NoFirstRange(a, props);
      }
    }
  }

  predicate Prefixed(text: string) { |text| >= 2 && text[0] == '0' && (text[1] == 'x' || text[1] == 'X') }

  /** The text that is stored: a hex number gets its prefix. */
  function UserText(s: Symbol, text: string): string {
    if s.Type() == Hex && !Prefixed(text) then "0x" + text else text
  }

  /** A legal text is stored as it is, but a hex number always behind 0x or 0X; it stays legal. */
  lemma StoredText(s: Symbol, text: string)
    requires ValidText(s, text)
    ensures var t := UserText(s, text);
      && ValidText(s, t) && (t == text || (s.Type() == Hex && t == "0x" + text))
      && (s.Type() == Hex ==> "0x" <= t || "0X" <= t)
      && ("0x" <= text || "0X" <= text ==> t == text)
  {
    if s.Type() == Hex && !Prefixed(text) { assert ("0x" + text)[2..] == text; }
  }

  function SetText(u: UserValues, s: Symbol, text: string): UserValues {
    u[s := Val(if s in u then u[s].tri else NO, UserText(s, text))]
  }

  /** The prefix of a hex number does not change what strtoll makes of it. */
  ghost predicate ReadsPrefix(k: Kconfig) {
    forall t: string :: ValidHex(t) && !Prefixed(t) ==> k.strtoll("0x" + t, 16) == k.strtoll(t, 16)
  }

  lemma TextStep(k: Kconfig, u: UserValues, a: Assignment, s: Symbol, text: string)
    requires ReadsPrefix(k) && TextInRange(k, a, s, text)
    ensures var t := UserText(s, text);
      TextValue(k, SetText(u, s, text), a, s) == t <==> Visibility(k, a, s) != NO || TextValue(k, u, a, s) == t
  {
    var t := UserText(s, text);
    assert k.strtoll(t, Base(s, 0)) == k.strtoll(text, Base(s, 0));
    assert Clamp(k, a, s, t) == t;
  }

  lemma TextIsTyped(k: Kconfig, a: Assignment, s: Symbol, text: string)
    requires TextInRange(k, a, s, text)
    ensures Typed(s) && !s.IsTri()
  {
  }

  /** A text within range is what the symbol gets, exactly if the symbol shows or had it already. */
  lemma TextTakesEffect(k: Kconfig, u: UserValues, rank: Symbol -> nat, s: Symbol, text: string)
    requires Acyclic(k, rank) && ReadsPrefix(k) && TextInRange(k, Solution(k, u, rank), s, text)
    ensures var c, t := Calc(k, u, rank, s), UserText(s, text);
      Calc(k, SetText(u, s, text), rank, s).val.text == t <==> c.visible != NO || c.val.text == t
  {
    hide TextInRange, Calc, UserText, Visibility, TextValue;
    var a := Solution(k, u, rank);
    assert Typed(s) && !s.IsTri() by { TextIsTyped(k, a, s, text); }
    CalcIsSolution(k, u, rank, s);
    ChangedStep(k, u, SetText(u, s, text), rank, s);
    TextStep(k, u, a, s, text);
  }

  /** sym_string_within_range on the stored state. */
  method StringWithinRange(ev: Evaluator, s: Symbol, text: string) returns (ok: bool)
    requires Idle(ev) && s in ev.valid && !s.IsTri()
    modifies ev
    ensures Idle(ev) && ev.Extends({}) && ok == TextInRange(ev.k, ev.sol, s, text)
  {
    if !ValidText(s, text) { return false; }
    if s.Type() == String { return true; }
    assert ev.Current(s) && ev.Current(ev.k.modules);
    Enter(ev, s);
    ok := NumberInRange(ev, s, text);
    Leave(ev, s);
  }

  method NumberInRange(ev: Evaluator, s: Symbol, text: string) returns (ok: bool)
    requires ev.Computing(s) && (s.Type() == Int || s.Type() == Hex)
    modifies ev
    ensures ev.Computing(s) && ev.Extends({})
    ensures var range := FirstRange(ev.sol, ev.k.Def(s).props);
            ok == (range.None? || Within(ev.k, ev.sol, s, range.value, text))
  {
    var range := ev.RangeProp(s);
    if range.None? { return true; }
    var base := Base(s, 0);
    var val := ev.k.strtoll(text, base);
    var bound := ev.RangeVal(range.value.lo, base, ev.rank(s));
    if val < bound { return false; }
    bound := ev.RangeVal(range.value.hi, base, ev.rank(s));
    ok := val <= bound;
  }

  /** The tristate that a text stands for. */
  function TextTri(text: string): Option<Tristate> {
    if text == "" then None
    else if text[0] in {'y', 'Y'} then Some(YES)
    else if text[0] in {'m', 'M'} then Some(MOD)
    else if text[0] in {'n', 'N'} then Some(NO)
    else None
  }

  /** Storing the text clears the cache: not if the user had set it already, and always for a hex number without its
      prefix. */
  predicate Clears(u: UserValues, s: Symbol, text: string) {
    !(s in u && u[s].text == text) || UserText(s, text) != text
  }

  /** So everything is cleared whenever the user value becomes another one, and besides only for a hex number without its
      prefix. */
  lemma ClearsExactly(u: UserValues, s: Symbol, text: string)
    ensures Clears(u, s, text) <==> SetText(u, s, text) != u || (s.Type() == Hex && !("0x" <= text || "0X" <= text))
  {
    if s in u && SetText(u, s, text) == u { assert SetText(u, s, text)[s] == u[s]; }
    if !Clears(u, s, text) { assert SetText(u, s, text)[s] == u[s]; }
  }

  function LowerCase(c: char): char { if 'A' <= c <= 'Z' then c - 'A' + 'a' else c }

  /** A text stands for a tristate exactly if it begins with the letter that is printed for it, in either case; m is
      printed for m only while MODULES is not n. */
  lemma TextTriExactly(a: Assignment, s: Symbol, text: string)
    requires s.IsTri() && (a.Tri(s) == MOD ==> a.Tri(a.modules) != NO)
    ensures TextTri(text) == Some(a.Tri(s)) <==> text != "" && [LowerCase(text[0])] == a.StringValue(s)
  {
    assert "y"[0] == 'y' && "m"[0] == 'm' && "n"[0] == 'n';
  }

  /** sym_set_string_value of a symbol whose value is a text: accepted exactly if valid and within range, whether the
      symbol shows or not.  It takes effect exactly if the symbol shows or has the text already.  The cache stays
      right, and the flags stay as computed. */
  method SetStringValue(ev: Evaluator, count: ChangeCount, s: Symbol, text: string) returns (ok: bool)
    requires Sound(ev) && s in ev.valid && !s.IsTri()
    modifies ev, count
    ensures Sound(ev)
    ensures ok <==> TextInRange(ev.k, old(Solution(ev.k, ev.seen, ev.rank)), s, text)
    ensures ev.user == if ok then SetText(old(ev.user), s, text) else old(ev.user)
    ensures ok && Clears(old(ev.user), s, text) ==> ev.seen == ev.user && FlagsFresh(ev) && count.n == old(count.n) + 1
    ensures !(ok && Clears(old(ev.user), s, text)) ==> ev.seen == old(ev.seen) && count.n == old(count.n)
    ensures old(Faithful(ev)) ==> Faithful(ev)
    ensures old(Faithful(ev)) && ok && ReadsPrefix(ev.k) ==>
              var c, t := old(Calc(ev.k, ev.user, ev.rank, s)), UserText(s, text);
              Calc(ev.k, ev.user, ev.rank, s).val.text == t <==> c.visible != NO || c.val.text == t
    ensures old(FlagsFresh(ev)) ==> FlagsFresh(ev)
  {
    hide Step, Calc, TextInRange;
    ok := CheckText(ev, s, text);
    if !ok { return; }
    if SameMeaning(ev.k, ev.seen, ev.user, ev.rank) && ReadsPrefix(ev.k) { SeenTextTakesEffect(ev, s, text); }
    if Clears(ev.user, s, text) {
      Change(ev, count, SetText(ev.user, s, text));
    } else {
      assert SetText(ev.user, s, text) == ev.user;
    }
  }

  /** Checking a text evaluates the range, and changes no value. */
  method CheckText(ev: Evaluator, s: Symbol, text: string) returns (ok: bool)
    requires Sound(ev) && s in ev.valid && !s.IsTri()
    modifies ev
    ensures Sound(ev) && ev.user == old(ev.user) && ev.seen == old(ev.seen)
    ensures ok == TextInRange(ev.k, Solution(ev.k, ev.seen, ev.rank), s, text)
    ensures old(FlagsFresh(ev)) ==> FlagsFresh(ev)
  {
    ok := StringWithinRange(ev, s, text);
  }

  lemma SeenTextTakesEffect(ev: Evaluator, s: Symbol, text: string)
    requires Faithful(ev) && ReadsPrefix(ev.k) && TextInRange(ev.k, Solution(ev.k, ev.seen, ev.rank), s, text)
    ensures var c, t := Calc(ev.k, ev.user, ev.rank, s), UserText(s, text);
      Calc(ev.k, SetText(ev.user, s, text), ev.rank, s).val.text == t <==> c.visible != NO || c.val.text == t
  {
    SameTexts(ev.k, ev.seen, ev.user, ev.rank, s, text);
    TextTakesEffect(ev.k, ev.user, ev.rank, s, text);
  }

  lemma SameTexts(k: Kconfig, u: UserValues, v: UserValues, rank: Symbol -> nat, s: Symbol, text: string)
    requires Acyclic(k, rank) && Typed(s) && SameMeaning(k, u, v, rank)
    ensures TextInRange(k, Solution(k, v, rank), s, text) == TextInRange(k, Solution(k, u, rank), s, text)
  {
    var a, b := Solution(k, u, rank), Solution(k, v, rank);
    forall x: Symbol ensures b.val(x) == a.val(x) { assert Calc(k, v, rank, x) == Calc(k, u, rank, x); }
    AcyclicBelow(k, rank, s);
    PropsLocal(k, rank, rank(s), k.Def(s).props, a, b);
  }
}
