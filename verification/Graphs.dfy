/** Finite graphs over symbols: orders in which everything a symbol leads to comes earlier, and cycles. */
module Graphs {
  import opened Exprs

  type Graph = Symbol -> set<Symbol>

  ghost predicate IsPath(next: Graph, p: seq<Symbol>) { forall i :: 0 <= i < |p| - 1 ==> p[i + 1] in next(p[i]) }

  lemma PathSnoc(next: Graph, p: seq<Symbol>, s: Symbol)
    requires IsPath(next, p) && (p != [] ==> s in next(p[|p| - 1]))
    ensures IsPath(next, p + [s])
  {
    var q := p + [s];
    forall i | 0 <= i < |q| - 1 ensures q[i + 1] in next(q[i]) {
      if i < |p| - 1 { assert p[i + 1] in next(p[i]); }
    }
  }

  lemma PathSuffix(next: Graph, p: seq<Symbol>, i: nat)
    requires IsPath(next, p) && i <= |p|
    ensures IsPath(next, p[i..])
  {
    forall j | 0 <= j < |p[i..]| - 1 ensures p[i..][j + 1] in next(p[i..][j]) { assert p[i + j + 1] in next(p[i + j]); }
  }

  ghost predicate IsCycle(next: Graph, p: seq<Symbol>) { |p| >= 2 && p[0] == p[|p| - 1] && IsPath(next, p) }

  ghost predicate HasCycle(next: Graph) { exists p :: IsCycle(next, p) }

  ghost predicate Closed(next: Graph, all: set<Symbol>) { forall s, t :: s in all && t in next(s) ==> t in all }

  /** Everything a symbol leads to comes before it. */
  ghost predicate Ordered(next: Graph, done: seq<Symbol>) {
    forall i :: 0 <= i < |done| ==> forall t :: t in next(done[i]) ==> t in done[..i]
  }

  function FirstIndex(done: seq<Symbol>, s: Symbol): (i: nat)
    requires s in done
    ensures i < |done| && done[i] == s && s !in done[..i]
  {
    if done[0] == s then 0 else
      var i := FirstIndex(done[1..], s);
      assert done[..i + 1] == [done[0]] + done[1..][..i];
      i + 1
  }

  lemma {:induction false} FirstIndexLeast(done: seq<Symbol>, s: Symbol, j: nat)
    requires j < |done| && done[j] == s
    ensures FirstIndex(done, s) <= j
  {
    if j > 0 && done[0] != s { FirstIndexLeast(done[1..], s, j - 1); }
  }

  /** Along such an order every path descends. */
  lemma {:induction false} PathDescends(next: Graph, done: seq<Symbol>, p: seq<Symbol>)
    requires Ordered(next, done) && IsPath(next, p) && |p| >= 2 && p[0] in done
    ensures p[|p| - 1] in done && FirstIndex(done, p[|p| - 1]) < FirstIndex(done, p[0])
  {
    var i := FirstIndex(done, p[0]);
    assert p[1] in next(p[0]) && p[1] in done[..i];
    var j :| 0 <= j < i && done[j] == p[1];
    FirstIndexLeast(done, p[1], j);
    if |p| > 2 {
      PathSuffix(next, p, 1);
      PathDescends(next, done, p[1..]);
    }
  }

  /** Such an order of all symbols that lead anywhere excludes cycles. */
  lemma OrderedIsAcyclic(next: Graph, done: seq<Symbol>)
    requires Ordered(next, done) && forall s :: next(s) != {} ==> s in done
    ensures !HasCycle(next)
  {
    forall p | IsCycle(next, p) ensures false {
      assert p[1] in next(p[0]);
      PathDescends(next, done, p);
    }
  }

  lemma OrderedSnoc(next: Graph, before: seq<Symbol>, s: Symbol)
    requires Ordered(next, before) && forall t :: t in next(s) ==> t in before
    ensures Ordered(next, before + [s])
  {
    var after := before + [s];
    forall i | 0 <= i < |before| ensures after[..i] == before[..i] && after[i] == before[i] {}
    assert after[..|before|] == before;
  }

  // ---------- without a cycle there is such an order ----------

  /** More places than symbols: one of them comes twice. */
  lemma {:induction false} Pigeonhole(p: seq<Symbol>, all: set<Symbol>) returns (i: nat, j: nat)
    requires |p| > |all| && forall s :: s in p ==> s in all
    ensures i < j < |p| && p[i] == p[j]
    decreases |p|
  {
    var front, last := p[..|p| - 1], p[|p| - 1];
    if last in front {
      j := |p| - 1;
      i :| 0 <= i < |front| && front[i] == last;
    } else {
      i, j := Pigeonhole(front, all - {last});
    }
  }

  /** Where every symbol leads to another one of the set, there are paths of any length. */
  lemma {:induction false} LongPath(next: Graph, rest: set<Symbol>, s: Symbol, n: nat) returns (p: seq<Symbol>)
    requires s in rest && forall x :: x in rest ==> next(x) * rest != {}
    ensures |p| == n + 1 && p[0] == s && IsPath(next, p) && forall x :: x in p ==> x in rest
    decreases n
  {
    p := [s];
    if n > 0 {
      var t :| t in next(s) * rest;
      var tail := LongPath(next, rest, t, n - 1);
      p := [s] + tail;
      forall i | 0 <= i < |p| - 1 ensures p[i + 1] in next(p[i]) {
        if i > 0 { assert tail[i - 1 + 1] in next(tail[i - 1]); }
      }
    }
  }

  lemma SomeCycle(next: Graph, rest: set<Symbol>)
    requires rest != {} && forall x :: x in rest ==> next(x) * rest != {}
    ensures HasCycle(next)
  {
    var s :| s in rest;
    var p := LongPath(next, rest, s, |rest|);
    var i, j := Pigeonhole(p, rest);
    var q := p[i..j + 1];
    forall m | 0 <= m < |q| - 1 ensures q[m + 1] in next(q[m]) { assert p[i + m + 1] in next(p[i + m]); }
    assert IsCycle(next, q);
  }

  lemma {:induction false} AcyclicIsOrdered(next: Graph, all: set<Symbol>, done: seq<Symbol>) returns (r: seq<Symbol>)
    requires Closed(next, all) && !HasCycle(next) && Ordered(next, done)
    ensures Ordered(next, r) && forall s :: s in all || s in done ==> s in r
    decreases all - set s | s in done
  {
    var found := set s | s in done;
    var rest := all - found;
    if rest == {} {
      r := done;
      forall s | s in all ensures s in r { assert s !in rest; }
    } else if x :| x in rest && next(x) * rest == {} {
      forall t | t in next(x) ensures t in done { assert t in all && t !in next(x) * rest; }
      OrderedSnoc(next, done, x);
      assert x in (done + [x]) && x !in done && forall s :: s in done ==> s in (done + [x]);
      r := AcyclicIsOrdered(next, all, done + [x]);
    } else {
      SomeCycle(next, rest);
    }
  }
}
