/** The hash table of symbols (strhash, sym_lookup and sym_find, scripts/config/symbol.c). */
module SymbolTable {
  import opened Exprs

  /** The flag a symbol is created with: none, SYMBOL_CONST or SYMBOL_CHOICE. */
  datatype Kind = Plain | Constant | Choice

  /** A symbol: one of the three constants, or the id-th one that was allocated. */
  datatype Entry = Builtin(tri: Tristate) | Made(id: nat, name: Option<string>, kind: Kind)

  const SIZE: nat := 9973

  function StrHash(name: string): bv32 {
    if name == "" then 2166136261
    else (StrHash(name[..|name| - 1]) ^ (name[|name| - 1] as bv32)) * 0x01000193
  }

  function Slot(name: Option<string>): (r: nat)
    ensures r < SIZE
  {
    if name.None? then 0 else (StrHash(name.value) as nat) % SIZE
  }

  function BuiltinOf(name: string): Option<Entry> {
    if |name| == 1 && name[0] == 'y' then Some(Builtin(YES))
    else if |name| == 1 && name[0] == 'm' then Some(Builtin(MOD))
    else if |name| == 1 && name[0] == 'n' then Some(Builtin(NO))
    else None
  }

  predicate Named(e: Entry, name: string) { e.Made? && e.name == Some(name) }

  // ---------- the table as the list of all allocated symbols ----------

  /** The chain of a bucket: the symbols that belong there, the newest first. */
  function Chain(log: seq<Entry>, b: nat): seq<Entry>
    requires AllMade(log)
  {
    if log == [] then []
    else
      var last, front := log[|log| - 1], log[..|log| - 1];
      (if Slot(last.name) == b then [last] else []) + Chain(front, b)
  }

  predicate AllMade(log: seq<Entry>) { forall i :: 0 <= i < |log| ==> log[i].Made? }

  lemma {:induction false} ChainHolds(log: seq<Entry>, b: nat)
    requires AllMade(log)
    ensures forall e :: e in Chain(log, b) <==> e in log && Slot(e.name) == b
  {
    if log != [] {
      var last, front := log[|log| - 1], log[..|log| - 1];
      ChainHolds(front, b);
      assert forall e :: e in log <==> e in front || e == last;
    }
  }

  /** The newest symbol of a name that is not a constant. */
  function Newest(log: seq<Entry>, name: string): (r: Option<Entry>)
    ensures r.None? <==> forall i :: 0 <= i < |log| ==> !(Named(log[i], name) && log[i].kind != Constant)
    ensures r.Some? ==> exists i :: 0 <= i < |log| && log[i] == r.value && Named(log[i], name) && log[i].kind != Constant
                                    && forall j :: i < j < |log| ==> !(Named(log[j], name) && log[j].kind != Constant)
  {
    if log == [] then None
    else
      var last := log[|log| - 1];
      if Named(last, name) && last.kind != Constant then Some(last) else Newest(log[..|log| - 1], name)
  }

  /** The first hit of a search along a chain, from position i on. */
  function Hit(chain: seq<Entry>, name: string, i: nat): Option<Entry>
    requires i <= |chain|
    decreases |chain| - i
  {
    if i == |chain| then None
    else if Named(chain[i], name) && chain[i].kind != Constant then Some(chain[i])
    else Hit(chain, name, i + 1)
  }

  lemma {:induction false} HitBehind(x: Entry, chain: seq<Entry>, name: string, i: nat)
    requires i <= |chain|
    ensures Hit([x] + chain, name, i + 1) == Hit(chain, name, i)
    decreases |chain| - i
  {
    if i < |chain| { HitBehind(x, chain, name, i + 1); }
  }

  /** Searching the chain of the name finds what a search of all symbols would. */
  lemma {:induction false} ChainFindsNewest(log: seq<Entry>, name: string)
    requires AllMade(log)
    ensures Hit(Chain(log, Slot(Some(name))), name, 0) == Newest(log, name)
  {
    hide Slot;
    if log != [] {
      var b, last, front := Slot(Some(name)), log[|log| - 1], log[..|log| - 1];
      ChainFindsNewest(front, name);
      if Slot(last.name) == b { HitBehind(last, Chain(front, b), name, 0); }
      assert [] + Chain(front, b) == Chain(front, b);
    }
  }

  /** No two symbols with the same name and the same kind; the names y, m and n are not used. */
  predicate OneEach(log: seq<Entry>) {
    && (forall i :: 0 <= i < |log| ==> log[i].Made? && log[i].id == i && (log[i].name.Some? ==> BuiltinOf(log[i].name.value).None?))
    && (forall i, j :: 0 <= i < j < |log| && log[i].name.Some? ==> !(log[i].name == log[j].name && log[i].kind == log[j].kind))
  }

  predicate CommonName(e: Entry, f: Entry) {
    e.Made? && f.Made? && e.name.Some? && e.name == f.name && e.kind != Constant && f.kind != Constant
  }

  /** A request of sym_lookup. */
  datatype Request = Request(name: Option<string>, kind: Kind)

  function BuiltinFor(q: Request): Option<Entry> { if q.name.None? then None else BuiltinOf(q.name.value) }

  predicate Answers(r: Entry, q: Request) {
    if BuiltinFor(q).Some? then BuiltinFor(q) == Some(r) else r.Made? && r.name == q.name && r.kind == q.kind
  }

  /** Requests that must get the same symbol: the constants have only names, the others also a kind. */
  predicate SameSymbol(p: Request, q: Request) {
    p.name.Some? && p.name == q.name && (BuiltinFor(p).Some? || p.kind == q.kind)
  }

  lemma SameAnswer(p: Request, q: Request, r: Entry)
    requires Answers(r, p) && Answers(r, q) && p.name.Some?
    ensures SameSymbol(p, q)
  {
    if BuiltinFor(p).Some? {
      assert p.name.value == [p.name.value[0]] && q.name.value == [q.name.value[0]];
    }
  }

  /** The names y, m and n, and no others, always give the three constants. */
  lemma ConstantsByName(r: Entry, q: Request)
    requires Answers(r, q)
    ensures r == Builtin(YES) <==> q.name == Some("y")
    ensures r == Builtin(MOD) <==> q.name == Some("m")
    ensures r == Builtin(NO) <==> q.name == Some("n")
    ensures r.Made? <==> q.name !in {Some("y"), Some("m"), Some("n")}
  {
    if q.name.Some? && |q.name.value| == 1 { assert q.name.value == [q.name.value[0]]; }
  }

  /** Some name is asked for as a choice and as a plain symbol. */
  predicate AskedAsBoth(requests: seq<Request>) {
    exists i, j :: 0 <= i < |requests| && 0 <= j < |requests| && requests[i].name.Some? && BuiltinFor(requests[i]).None?
                   && requests[i].name == requests[j].name && requests[i].kind == Plain && requests[j].kind == Choice
  }

  /** log holds the symbols that a new table made for the requests. */
  predicate MadeFor(log: seq<Entry>, requests: seq<Request>, rs: seq<Entry>) {
    && OneEach(log) && |rs| == |requests| && (forall e :: e in log ==> e in rs)
    && forall i :: 0 <= i < |rs| ==> Answers(rs[i], requests[i]) && (rs[i].Made? ==> rs[i] in log)
  }

  predicate NamesShared(log: seq<Entry>) { exists i, j :: 0 <= i < j < |log| && CommonName(log[i], log[j]) }

  lemma SharedThenAsked(log: seq<Entry>, requests: seq<Request>, rs: seq<Entry>)
    requires MadeFor(log, requests, rs) && NamesShared(log)
    ensures AskedAsBoth(requests)
  {
    var i, j :| 0 <= i < j < |log| && CommonName(log[i], log[j]);
    var plain, choice := if log[i].kind == Plain then log[i] else log[j], if log[i].kind == Plain then log[j] else log[i];
    assert plain in rs && choice in rs;
    var p, q :| 0 <= p < |rs| && 0 <= q < |rs| && rs[p] == plain && rs[q] == choice;
    assert requests[p].name == requests[q].name;
  }

  lemma AskedThenShared(log: seq<Entry>, requests: seq<Request>, rs: seq<Entry>)
    requires MadeFor(log, requests, rs) && AskedAsBoth(requests)
    ensures NamesShared(log)
  {
    hide OneEach, BuiltinOf;
    var p, q :| 0 <= p < |requests| && 0 <= q < |requests| && requests[p].name.Some? && BuiltinFor(requests[p]).None?
                && requests[p].name == requests[q].name && requests[p].kind == Plain && requests[q].kind == Choice;
    assert Answers(rs[p], requests[p]) && Answers(rs[q], requests[q]);
    var i, j :| 0 <= i < |log| && 0 <= j < |log| && log[i] == rs[p] && log[j] == rs[q];
    assert CommonName(log[i], log[j]) && CommonName(log[j], log[i]) && i != j;
  }

  /** Two symbols that are not constants share a name exactly when that name was asked for as both. */
  lemma SharedNames(log: seq<Entry>, requests: seq<Request>, rs: seq<Entry>)
    requires MadeFor(log, requests, rs)
    ensures NamesShared(log) <==> AskedAsBoth(requests)
  {
    if NamesShared(log) { SharedThenAsked(log, requests, rs); }
    if AskedAsBoth(requests) { AskedThenShared(log, requests, rs); }
  }

  /** Where no name is shared, sym_find finds the symbol of every name that has one. */
  lemma OneSymbolPerName(log: seq<Entry>, e: Entry)
    requires OneEach(log) && !NamesShared(log) && e in log && e.name.Some? && e.kind != Constant
    ensures Newest(log, e.name.value) == Some(e)
  {
    var r := Newest(log, e.name.value);
    var i, j :| 0 <= i < |log| && 0 <= j < |log| && log[i] == e && log[j] == r.value;
    assert CommonName(log[i], log[j]) && CommonName(log[j], log[i]);
  }

  /** The smallest case: A is asked for as a choice and then as a plain symbol, which makes two symbols; sym_find
      finds the second. */
  lemma SharedByTwo()
    ensures var log := [Made(0, Some("A"), Choice), Made(1, Some("A"), Plain)];
      && MadeFor(log, [Request(Some("A"), Choice), Request(Some("A"), Plain)], log)
      && NamesShared(log) && Newest(log, "A") == Some(log[1])
  {
    var log := [Made(0, Some("A"), Choice), Made(1, Some("A"), Plain)];
    assert "A"[0] == 'A' && CommonName(log[0], log[1]);
  }

  class Table {
    const hash: array<seq<Entry>>   // symbol_hash
    ghost var log: seq<Entry>       // all symbols that were allocated, in order
    var count: nat

    ghost predicate Valid()
      reads this, hash
    {
      && hash.Length == SIZE && count == |log| && OneEach(log)
      && forall b :: 0 <= b < SIZE ==> hash[b] == Chain(log, b)
    }

    constructor ()
      ensures Valid() && log == [] && fresh(hash)
    {
      hash := new seq<Entry>[SIZE](b => []);
      log, count := [], 0;
    }

    /** sym_lookup: the symbol of that name and kind, made if there is none. */
    method Lookup(q: Request) returns (r: Entry)
      requires Valid()
      modifies this, hash
      ensures Valid() && Answers(r, q)
      ensures BuiltinFor(q).Some? ==> log == old(log)
      ensures BuiltinFor(q).None? && q.name.Some? && (exists e :: e in old(log) && Answers(e, q)) ==> log == old(log) && r in log
      ensures BuiltinFor(q).None? && (q.name.None? || forall e :: e in old(log) ==> !Answers(e, q)) ==>
                log == old(log) + [r] && r.id == |old(log)|
    {
      if q.name.Some? {
        if BuiltinOf(q.name.value).Some? { return BuiltinOf(q.name.value).value; }
        var found := Search(q);
        if found.Some? { return found.value; }
      }
      r := Insert(q);
    }

    /** The loop of sym_lookup along one chain. */
    method Search(q: Request) returns (r: Option<Entry>)
      requires Valid() && q.name.Some? && BuiltinFor(q).None?
      ensures r.None? ==> forall e :: e in log ==> !Answers(e, q)
      ensures r.Some? ==> r.value in log && Answers(r.value, q)
    {
      var chain := hash[Slot(q.name)];
      ChainHolds(log, Slot(q.name));
      for i := 0 to |chain|
        invariant forall j :: 0 <= j < i ==> !Answers(chain[j], q)
      {
        assert chain[i] in chain;
        if chain[i].name == q.name && chain[i].kind == q.kind { return Some(chain[i]); }
      }
      return None;
    }

    /** The end of sym_lookup: a new symbol at the head of its chain. */
    method Insert(q: Request) returns (r: Entry)
      requires Valid() && BuiltinFor(q).None? && (q.name.None? || forall e :: e in log ==> !Answers(e, q))
      modifies this, hash
      ensures Valid() && Answers(r, q) && log == old(log) + [r] && r.id == |old(log)|
    {
      var b := Slot(q.name);
      r := Made(count, q.name, q.kind);
      Appended(log, r);
      hash[b] := [r] + hash[b];
      log, count := log + [r], count + 1;
      assert forall i :: 0 <= i < |log| - 1 ==> log[i] in old(log);
    }

    /** sym_find: what a search through all symbols finds. */
    method Find(name: Option<string>) returns (r: Option<Entry>)
      requires Valid()
      ensures r == if name.None? then None
                   else if BuiltinOf(name.value).Some? then BuiltinOf(name.value)
                   else Newest(log, name.value)
    {
      if name.None? { return None; }
      if BuiltinOf(name.value).Some? { return BuiltinOf(name.value); }
      var chain := hash[Slot(name)];
      ChainFindsNewest(log, name.value);
      for i := 0 to |chain|
        invariant Hit(chain, name.value, i) == Hit(chain, name.value, 0)
      {
        if Named(chain[i], name.value) && chain[i].kind != Constant { return Some(chain[i]); }
      }
      return None;
    }
  }

  /** The chains after one more symbol. */
  lemma Appended(log: seq<Entry>, r: Entry)
    requires AllMade(log) && r.Made?
    ensures forall b :: 0 <= b < SIZE ==>
              Chain(log + [r], b) == if b == Slot(r.name) then [r] + Chain(log, b) else Chain(log, b)
  {
    assert (log + [r])[..|log|] == log;
  }

  /** Any run of lookups: two of them get the same symbol exactly when they must.  In a new table, two symbols that
      are not constants share a name exactly when some name is asked for as a choice and as a plain symbol. */
  method Run(table: Table, requests: seq<Request>) returns (rs: seq<Entry>)
    requires table.Valid()
    modifies table, table.hash
    ensures table.Valid() && old(table.log) <= table.log && |rs| == |requests|
    ensures forall i :: 0 <= i < |rs| ==> Answers(rs[i], requests[i])
    ensures forall i, j :: 0 <= i < j < |rs| ==> (rs[i] == rs[j] <==> SameSymbol(requests[i], requests[j]))
    ensures forall e :: e in table.log ==> e in old(table.log) || e in rs
    ensures old(table.log) == [] ==> (NamesShared(table.log) <==> AskedAsBoth(requests))
  {
    rs := [];
    for n := 0 to |requests|
      invariant table.Valid() && old(table.log) <= table.log && |rs| == n
      invariant forall i :: 0 <= i < n ==> Answers(rs[i], requests[i]) && (rs[i].Made? ==> rs[i] in table.log)
      invariant forall i, j :: 0 <= i < j < n ==> (rs[i] == rs[j] <==> SameSymbol(requests[i], requests[j]))
      invariant forall e :: e in table.log ==> e in old(table.log) || e in rs
    {
      ghost var was := table.log;
      var r := table.Lookup(requests[n]);
      forall i | 0 <= i < n ensures rs[i] == r <==> SameSymbol(requests[i], requests[n]) {
        if rs[i] == r && requests[i].name.Some? { SameAnswer(requests[i], requests[n], r); }
        if SameSymbol(requests[i], requests[n]) { assert Answers(rs[i], requests[n]); }
      }
      rs := rs + [r];
    }
    if old(table.log) == [] { SharedNames(table.log, requests, rs); }
  }
}
