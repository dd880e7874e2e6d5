/** clean_space_tabs and strwidth (scripts/cleanpatch, copied in scripts/cleanfile): blanks are rewritten without
    moving anything. Tab stops are eight columns apart. */
module Whitespace {

  // ---------- what a string looks like ----------

  /** The tab stops between the left edge and col: the quotient by 8. */
  function Stops(col: nat): (r: nat)
    ensures 8 * r <= col < 8 * r + 8
  {
    if col < 8 then 0 else Stops(col - 8) + 1
  }

  function NextStop(col: nat): nat { 8 * (Stops(col) + 1) }

  /** The columns since the last tab stop. */
  function Past(col: nat): nat { col - 8 * Stops(col) }

  predicate Returns(cr: bool, c: char) { c == '\n' || (cr && c == '\r') }

  /** The column after c; a carriage return goes back to the left edge only if cr says so. */
  function Advance(cr: bool, col: nat, c: char): nat {
    if c == '\t' then NextStop(col) else if Returns(cr, c) then 0 else col + 1
  }

  /** A visible character (or line end) and where it stands; End is the place after the last character. */
  datatype Mark = Mark(c: char, col: nat) | End(col: nat)

  function Layout(cr: bool, col: nat, s: string): seq<Mark>
    decreases |s|
  {
    if s == "" then [End(col)]
    else if s[0] == ' ' || s[0] == '\t' then Layout(cr, Advance(cr, col, s[0]), s[1..])
    else [Mark(s[0], col)] + Layout(cr, Advance(cr, col, s[0]), s[1..])
  }

  predicate NoReturns(s: string) { forall i :: 0 <= i < |s| ==> s[i] != '\r' }

  // ---------- the rewriting ----------

  function Run(c: char, n: nat): (r: string)
    ensures |r| == n && forall i :: 0 <= i < n ==> r[i] == c
  {
    seq(n, i => c)
  }

  /** The tabs that reach from pos to the tab stop after nsp more columns. */
  function Tabs(pos: nat, nsp: nat): (r: nat)
    ensures 1 <= r <= nsp + 1
  {
    Stops(pos + nsp) + 1 - Stops(pos)
  }

  /** The rewritten rest of a string, at column pos with nsp spaces pending. */
  function CleanFrom(pos: nat, nsp: nat, s: string): string
    decreases |s|
  {
    if s == "" then Run(' ', nsp)
    else if s[0] == '\t' then Run('\t', Tabs(pos, nsp)) + CleanFrom(NextStop(pos + nsp), 0, s[1..])
    else if s[0] == ' ' then CleanFrom(pos, nsp + 1, s[1..])
    else Run(' ', nsp) + [s[0]] + CleanFrom(Advance(true, pos + nsp, s[0]), 0, s[1..])
  }

  function Clean(s: string): string { CleanFrom(0, 0, s) }

  /** The shift and mask arithmetic, on numbers that are not negative: x & ~7 is x / 8 * 8 and x >> 3 is x / 8. */
  lemma MaskAndShift(pos: nat, nsp: nat)
    ensures (pos + nsp + 8) / 8 * 8 == NextStop(pos + nsp)
    ensures NextStop(pos + nsp) / 8 - pos / 8 == Tabs(pos, nsp)
  {
    assert pos / 8 == Stops(pos) && (pos + nsp) / 8 == Stops(pos + nsp);
  }

  lemma Regroup(lo: string, a: string, b: string, c: string)
    ensures lo + (a + b + c) == lo + a + b + c && lo + (a + b) == lo + a + b
  {
  }

  method CleanSpaceTabs(li: string) returns (lo: string)
    ensures lo == Clean(li)
  {
    lo := "";
    var pos: nat, nsp: nat := 0, 0;
    assert li[0..] == li;
    for i := 0 to |li|
      invariant lo + CleanFrom(pos, nsp, li[i..]) == Clean(li)
    {
      var c := li[i];
      assert li[i..][0] == c && li[i..][1..] == li[i + 1..];
      if c == '\t' {
        MaskAndShift(pos, nsp);
        Regroup(lo, Run('\t', Tabs(pos, nsp)), CleanFrom(NextStop(pos + nsp), 0, li[i + 1..]), "");
        var npos := (pos + nsp + 8) / 8 * 8;
        var ntab := npos / 8 - pos / 8;
        lo := lo + Run('\t', ntab);
        pos, nsp := npos, 0;
      } else if c == '\n' || c == '\r' {
        Regroup(lo, Run(' ', nsp), [c], CleanFrom(0, 0, li[i + 1..]));
        lo := lo + Run(' ', nsp);
        pos, nsp := pos + nsp, 0;
        lo := lo + [c];
        pos := 0;
      } else if c == ' ' {
        nsp := nsp + 1;
      } else {
        Regroup(lo, Run(' ', nsp), [c], CleanFrom(pos + nsp + 1, 0, li[i + 1..]));
        lo := lo + Run(' ', nsp);
        pos, nsp := pos + nsp, 0;
        lo := lo + [c];
        pos := pos + 1;
      }
    }
    lo := lo + Run(' ', nsp);
  }

  // ---------- what the rewriting keeps ----------

  predicate SpaceBeforeTab(s: string) { exists i :: 0 < i < |s| && s[i - 1] == ' ' && s[i] == '\t' }

  lemma LayoutRun(cr: bool, col: nat, nsp: nat, s: string)
    ensures Layout(cr, col, Run(' ', nsp) + s) == Layout(cr, col + nsp, s)
    decreases nsp
  {
    if nsp == 0 {
      assert Run(' ', 0) + s == s;
    } else {
      assert (Run(' ', nsp) + s)[1..] == Run(' ', nsp - 1) + s;
      LayoutRun(cr, col + 1, nsp - 1, s);
    }
  }

  lemma LayoutTabs(cr: bool, col: nat, n: nat, s: string)
    ensures Layout(cr, col, Run('\t', n) + s) == Layout(cr, if n == 0 then col else 8 * (Stops(col) + n), s)
    decreases n
  {
    if n == 0 {
      assert Run('\t', 0) + s == s;
    } else {
      assert (Run('\t', n) + s)[1..] == Run('\t', n - 1) + s;
      LayoutTabs(cr, NextStop(col), n - 1, s);
    }
  }

  lemma LayoutCons(cr: bool, col: nat, nsp: nat, c: char, s: string)
    requires c != ' ' && c != '\t'
    ensures Layout(cr, col, Run(' ', nsp) + [c] + s)
            == [Mark(c, col + nsp)] + Layout(cr, Advance(cr, col + nsp, c), s)
  {
    assert Run(' ', nsp) + [c] + s == Run(' ', nsp) + ([c] + s);
    LayoutRun(cr, col, nsp, [c] + s);
    assert ([c] + s)[1..] == s;
  }

  /** The tabs that replace a space run and its tab were counted at column q but start at column p: they reach
      the same place if the run crosses as many tab stops from p as from q. */
  predicate SameStops(q: nat, p: nat, nsp: nat) { Stops(q + nsp) - Stops(q) == Stops(p + nsp) - Stops(p) }

  /** Every space run before a tab crosses as many tab stops counted the way clean_space_tabs counts (column q,
      back to 0 at a carriage return) as it does counted the way cr says (column p). */
  predicate Aligned(cr: bool, q: nat, p: nat, nsp: nat, s: string)
    decreases |s|
  {
    s == "" ||
    if s[0] == '\t' then SameStops(q, p, nsp) && Aligned(cr, NextStop(q + nsp), NextStop(p + nsp), 0, s[1..])
    else if s[0] == ' ' then Aligned(cr, q, p, nsp + 1, s[1..])
    else Aligned(cr, Advance(true, q + nsp, s[0]), Advance(cr, p + nsp, s[0]), 0, s[1..])
  }

  /** The layout of the rewritten rest of a string when it is put at column p. */
  function CleanLayout(cr: bool, q: nat, p: nat, nsp: nat, s: string): seq<Mark>
    decreases |s|
  {
    if s == "" then [End(p + nsp)]
    else if s[0] == '\t' then CleanLayout(cr, NextStop(q + nsp), 8 * (Stops(p) + Tabs(q, nsp)), 0, s[1..])
    else if s[0] == ' ' then CleanLayout(cr, q, p, nsp + 1, s[1..])
    else [Mark(s[0], p + nsp)] + CleanLayout(cr, Advance(true, q + nsp, s[0]), Advance(cr, p + nsp, s[0]), 0, s[1..])
  }

  lemma {:induction false} CleanLaidOut(cr: bool, q: nat, p: nat, nsp: nat, s: string)
    ensures Layout(cr, p, CleanFrom(q, nsp, s)) == CleanLayout(cr, q, p, nsp, s)
    decreases |s|
  {
    if s == "" {
      assert Run(' ', nsp) + "" == Run(' ', nsp);
      LayoutRun(cr, p, nsp, "");
    } else if s[0] == '\t' {
      LayoutTabs(cr, p, Tabs(q, nsp), CleanFrom(NextStop(q + nsp), 0, s[1..]));
      CleanLaidOut(cr, NextStop(q + nsp), 8 * (Stops(p) + Tabs(q, nsp)), 0, s[1..]);
    } else if s[0] == ' ' {
      CleanLaidOut(cr, q, p, nsp + 1, s[1..]);
    } else {
      var q1 := Advance(true, q + nsp, s[0]);
      LayoutCons(cr, p, nsp, s[0], CleanFrom(q1, 0, s[1..]));
      CleanLaidOut(cr, q1, Advance(cr, p + nsp, s[0]), 0, s[1..]);
    }
  }

  lemma TabKeeps(cr: bool, q: nat, p: nat, nsp: nat, s: string)
    requires s != "" && s[0] == '\t' && SameStops(q, p, nsp)
    ensures CleanLayout(cr, q, p, nsp, s) == CleanLayout(cr, NextStop(q + nsp), NextStop(p + nsp), 0, s[1..])
    ensures Layout(cr, p + nsp, s) == Layout(cr, NextStop(p + nsp), s[1..])
  {
  }

  lemma {:induction false} AlignedKeeps(cr: bool, q: nat, p: nat, nsp: nat, s: string)
    requires Aligned(cr, q, p, nsp, s)
    ensures CleanLayout(cr, q, p, nsp, s) == Layout(cr, p + nsp, s)
    decreases |s|
  {
    if s == "" {
    } else if s[0] == '\t' {
      AlignedKeeps(cr, NextStop(q + nsp), NextStop(p + nsp), 0, s[1..]);
      TabKeeps(cr, q, p, nsp, s);
    } else if s[0] == ' ' {
      AlignedKeeps(cr, q, p, nsp + 1, s[1..]);
    } else {
      var q1, p1 := Advance(true, q + nsp, s[0]), Advance(cr, p + nsp, s[0]);
      AlignedKeeps(cr, q1, p1, 0, s[1..]);
      assert Layout(cr, p + nsp, s) == [Mark(s[0], p + nsp)] + Layout(cr, p1, s[1..]);
    }
  }

  lemma StopsAt(col: nat, r: int)
    requires 8 * r <= col < 8 * r + 8
    ensures Stops(col) == r
  {
  }

  lemma StopsDiffer(q: nat, p: nat, p1: nat, nsp: nat)
    requires Past(q) == Past(p) == Past(p1) && p != p1
    ensures SameStops(q, p, nsp) && NextStop(p + nsp) != NextStop(p1 + nsp)
    ensures Past(NextStop(q + nsp)) == Past(NextStop(p + nsp)) == Past(NextStop(p1 + nsp)) == 0
  {
    StopsAt(p + nsp, Stops(q + nsp) + Stops(p) - Stops(q));
    StopsAt(p1 + nsp, Stops(q + nsp) + Stops(p1) - Stops(q));
    StopsAt(NextStop(q + nsp), Stops(q + nsp) + 1);
    StopsAt(NextStop(p + nsp), Stops(p + nsp) + 1);
    StopsAt(NextStop(p1 + nsp), Stops(p1 + nsp) + 1);
  }

  /** Once the columns differ by whole tab stops, they differ up to the next visible character. */
  lemma {:induction false} ShiftStays(cr: bool, q: nat, p: nat, p1: nat, nsp: nat, s: string)
    requires Past(q) == Past(p) == Past(p1) && p != p1
    ensures CleanLayout(cr, q, p, nsp, s) != Layout(cr, p1 + nsp, s)
    decreases |s|
  {
    if s == "" {
      assert CleanLayout(cr, q, p, nsp, s)[0] != Layout(cr, p1 + nsp, s)[0];
    } else if s[0] == '\t' {
      StopsDiffer(q, p, p1, nsp);
      ShiftStays(cr, NextStop(q + nsp), NextStop(p + nsp), NextStop(p1 + nsp), 0, s[1..]);
    } else if s[0] == ' ' {
      ShiftStays(cr, q, p, p1, nsp + 1, s[1..]);
    } else {
      assert CleanLayout(cr, q, p, nsp, s)[0] != Layout(cr, p1 + nsp, s)[0];
    }
  }

  lemma MissedStop(q: nat, p: nat, nsp: nat)
    requires !SameStops(q, p, nsp)
    ensures var r := 8 * (Stops(p) + Tabs(q, nsp));
      r != NextStop(p + nsp) && Past(NextStop(q + nsp)) == Past(r) == Past(NextStop(p + nsp))
  {
    StopsAt(8 * (Stops(p) + Tabs(q, nsp)), Stops(p) + Tabs(q, nsp));
    StopsAt(NextStop(q + nsp), Stops(q + nsp) + 1);
    StopsAt(NextStop(p + nsp), Stops(p + nsp) + 1);
  }

  lemma {:induction false} UnalignedMoves(cr: bool, q: nat, p: nat, nsp: nat, s: string)
    requires !Aligned(cr, q, p, nsp, s)
    ensures CleanLayout(cr, q, p, nsp, s) != Layout(cr, p + nsp, s)
    decreases |s|
  {
    if s[0] == '\t' {
      if SameStops(q, p, nsp) {
        UnalignedMoves(cr, NextStop(q + nsp), NextStop(p + nsp), 0, s[1..]);
      } else {
        MissedStop(q, p, nsp);
        ShiftStays(cr, NextStop(q + nsp), 8 * (Stops(p) + Tabs(q, nsp)), NextStop(p + nsp), 0, s[1..]);
      }
    } else if s[0] == ' ' {
      UnalignedMoves(cr, q, p, nsp + 1, s[1..]);
    } else {
      var q1, p1 := Advance(true, q + nsp, s[0]), Advance(cr, p + nsp, s[0]);
      UnalignedMoves(cr, q1, p1, 0, s[1..]);
      SameHead(Mark(s[0], p + nsp), CleanLayout(cr, q1, p1, 0, s[1..]), Layout(cr, p1, s[1..]));
    }
  }

  lemma SameHead(m: Mark, x: seq<Mark>, y: seq<Mark>)
    requires x != y
    ensures [m] + x != [m] + y
  {
    assert ([m] + x)[1..] == x && ([m] + y)[1..] == y;
  }

  /** Every visible character keeps its column, and the string its end, exactly when it is aligned. */
  lemma CleanKeepsColumns(cr: bool, s: string)
    ensures Layout(cr, 0, Clean(s)) == Layout(cr, 0, s) <==> Aligned(cr, 0, 0, 0, s)
  {
    CleanLaidOut(cr, 0, 0, 0, s);
    if Aligned(cr, 0, 0, 0, s) { AlignedKeeps(cr, 0, 0, 0, s); } else { UnalignedMoves(cr, 0, 0, 0, s); }
  }

  /** If carriage returns go back to the left edge, every string is aligned; if they do not, every string without
      them is. */
  lemma {:induction false} UsuallyAligned(cr: bool, q: nat, nsp: nat, s: string)
    requires cr || NoReturns(s)
    ensures Aligned(cr, q, q, nsp, s)
    decreases |s|
  {
    if s == "" {
    } else if s[0] == '\t' {
      UsuallyAligned(cr, NextStop(q + nsp), 0, s[1..]);
    } else if s[0] == ' ' {
      UsuallyAligned(cr, q, nsp + 1, s[1..]);
    } else {
      UsuallyAligned(cr, Advance(cr, q + nsp, s[0]), 0, s[1..]);
    }
  }

  // ---------- strwidth ----------

  function Farther(a: nat, b: nat): nat { if a < b then b else a }

  /** The width of the rest of a string that starts at column col; carriage returns count as a column. */
  function WidthFrom(col: nat, s: string): nat
    decreases |s|
  {
    if s == "" then col
    else if s[0] == '\n' then Farther(col, WidthFrom(0, s[1..]))
    else WidthFrom(Advance(false, col, s[0]), s[1..])
  }

  function Width(s: string): nat { WidthFrom(0, s) }

  method StrWidth(li: string) returns (mlen: nat)
    ensures mlen == Width(li)
  {
    var pos: nat := 0;
    mlen := 0;
    for i := 0 to |li|
      invariant Farther(mlen, WidthFrom(pos, li[i..])) == Width(li)
    {
      var c := li[i];
      assert li[i..][1..] == li[i + 1..];
      if c == '\t' {
        MaskAndShift(pos, 0);
        pos := (pos + 8) / 8 * 8;
      } else if c == '\n' {
        if pos > mlen { mlen := pos; }
        pos := 0;
      } else {
        pos := pos + 1;
      }
    }
    if pos > mlen { mlen := pos; }
  }

  /** The column after the last character. */
  function ColumnAfter(col: nat, s: string): nat
    decreases |s|
  {
    if s == "" then col else ColumnAfter(Advance(false, col, s[0]), s[1..])
  }

  /** The width is the farthest column that any beginning of the string reaches. */
  lemma {:induction false} WidthIsFarthest(col: nat, s: string)
    ensures forall i :: 0 <= i <= |s| ==> ColumnAfter(col, s[..i]) <= WidthFrom(col, s)
    ensures exists i :: 0 <= i <= |s| && ColumnAfter(col, s[..i]) == WidthFrom(col, s)
    decreases |s|
  {
    assert ColumnAfter(col, s[..0]) == col;
    if s != "" {
      var next := Advance(false, col, s[0]);
      WidthIsFarthest(next, s[1..]);
      forall i | 1 <= i <= |s| ensures ColumnAfter(col, s[..i]) == ColumnAfter(next, s[1..][..i - 1]) {
        assert s[..i][1..] == s[1..][..i - 1];
      }
      assert ColumnAfter(next, s[1..][..0]) == next;
      var j :| 0 <= j <= |s[1..]| && ColumnAfter(next, s[1..][..j]) == WidthFrom(next, s[1..]);
      assert ColumnAfter(col, s[..j + 1]) == WidthFrom(next, s[1..]);
    }
  }

  /** The width can be read off the layout: it is the farthest line end. */
  function FarthestEnd(marks: seq<Mark>): nat {
    if marks == [] then 0
    else Farther(if marks[0].End? || marks[0].c == '\n' then marks[0].col else 0, FarthestEnd(marks[1..]))
  }

  lemma {:induction false} WidthOfLayout(col: nat, s: string)
    ensures WidthFrom(col, s) == FarthestEnd(Layout(false, col, s))
    decreases |s|
  {
    if s != "" {
      var next := Advance(false, col, s[0]);
      WidthOfLayout(next, s[1..]);
      var rest := Layout(false, next, s[1..]);
      assert ([Mark(s[0], col)] + rest)[1..] == rest;
    }
  }

  /** An aligned string, in particular one without carriage returns, keeps its width. */
  lemma CleanKeepsWidth(s: string)
    ensures Aligned(false, 0, 0, 0, s) ==> Width(Clean(s)) == Width(s)
    ensures NoReturns(s) ==> Width(Clean(s)) == Width(s) && Layout(false, 0, Clean(s)) == Layout(false, 0, s)
  {
    CleanKeepsColumns(false, s);
    WidthOfLayout(0, s);
    WidthOfLayout(0, Clean(s));
    if NoReturns(s) { UsuallyAligned(false, 0, 0, s); }
  }

  /** Not so with carriage returns: here the tab after the two spaces reaches column 16, its replacement only 8. */
  lemma ReturnsMoveWidth()
    ensures var s := "123456" + (['\r'] + "  \t"); !Aligned(false, 0, 0, 0, s) && Width(s) == 16 && Width(Clean(s)) == 8
  {
    AfterLine("123456", "  \t");
    AfterLine("123456", "\t");
    assert "  \t"[1..] == " \t" && " \t"[1..] == "\t" && "\t"[1..] == "";
    assert Run('\t', Tabs(0, 2)) + Run(' ', 0) == "\t";
  }

  /** A line of visible characters and a carriage return, with something after it. */
  lemma AfterLine(x: string, s: string)
    requires forall i :: 0 <= i < |x| ==> Visible(x[i])
    ensures var t := x + (['\r'] + s);
      && Width(t) == WidthFrom(|x| + 1, s) && Clean(t) == x + (['\r'] + CleanFrom(0, 0, s))
      && Aligned(false, 0, 0, 0, t) == Aligned(false, 0, |x| + 1, 0, s)
  {
    AfterPlain(0, x, ['\r'] + s);
    AfterReturn(|x|, s);
  }

  lemma AfterReturn(col: nat, s: string)
    ensures WidthFrom(col, ['\r'] + s) == WidthFrom(col + 1, s)
    ensures CleanFrom(col, 0, ['\r'] + s) == ['\r'] + CleanFrom(0, 0, s)
    ensures Aligned(false, col, col, 0, ['\r'] + s) == Aligned(false, 0, col + 1, 0, s)
  {
    assert (['\r'] + s)[1..] == s && Run(' ', 0) + ['\r'] == ['\r'];
  }

  predicate Visible(c: char) { c != ' ' && c != '\t' && c != '\r' && c != '\n' }

  /** Visible characters before any carriage return pass through. */
  lemma {:induction false} AfterPlain(col: nat, x: string, s: string)
    requires forall i :: 0 <= i < |x| ==> Visible(x[i])
    ensures WidthFrom(col, x + s) == WidthFrom(col + |x|, s)
    ensures CleanFrom(col, 0, x + s) == x + CleanFrom(col + |x|, 0, s)
    ensures Aligned(false, col, col, 0, x + s) == Aligned(false, col + |x|, col + |x|, 0, s)
    decreases |x|
  {
    if x == "" {
      assert x + s == s && x + CleanFrom(col, 0, s) == CleanFrom(col, 0, s);
    } else {
      assert (x + s)[1..] == x[1..] + s;
      AfterPlain(col + 1, x[1..], s);
      var rest := CleanFrom(col + |x|, 0, s);
      assert Run(' ', 0) + [x[0]] + (x[1..] + rest) == x + rest;
    }
  }

  // ---------- the text itself ----------

  lemma TidyJoin(x: string, y: string)
    requires !SpaceBeforeTab(x) && !SpaceBeforeTab(y)
    requires x == "" || y == "" || x[|x| - 1] != ' ' || y[0] != '\t'
    ensures !SpaceBeforeTab(x + y)
  {
    var z := x + y;
    forall i | 0 < i < |z| ensures !(z[i - 1] == ' ' && z[i] == '\t') {
      if i < |x| {
        assert z[i - 1] == x[i - 1] && z[i] == x[i];
      } else if i > |x| {
        assert z[i - 1] == y[i - 1 - |x|] && z[i] == y[i - |x|];
      }
    }
  }

  lemma {:induction false} CleanIsTidy(pos: nat, nsp: nat, s: string)
    ensures !SpaceBeforeTab(CleanFrom(pos, nsp, s))
    decreases |s|
  {
    if s == "" {
    } else if s[0] == '\t' {
      CleanIsTidy(NextStop(pos + nsp), 0, s[1..]);
      TidyJoin(Run('\t', Tabs(pos, nsp)), CleanFrom(NextStop(pos + nsp), 0, s[1..]));
    } else if s[0] == ' ' {
      CleanIsTidy(pos, nsp + 1, s[1..]);
    } else {
      var next := Advance(true, pos + nsp, s[0]);
      CleanIsTidy(next, 0, s[1..]);
      TidyJoin(Run(' ', nsp) + [s[0]], CleanFrom(next, 0, s[1..]));
    }
  }

  lemma {:induction false} TidyStays(pos: nat, nsp: nat, s: string)
    requires !SpaceBeforeTab(Run(' ', nsp) + s)
    ensures CleanFrom(pos, nsp, s) == Run(' ', nsp) + s
    decreases |s|
  {
    var all := Run(' ', nsp) + s;
    if s == "" {
    } else if s[0] == ' ' {
      assert all == Run(' ', nsp + 1) + s[1..];
      TidyStays(pos, nsp + 1, s[1..]);
    } else {
      var rest := Run(' ', 0) + s[1..];
      assert nsp > 0 ==> all[nsp - 1] == ' ' && all[nsp] == s[0];
      forall i | 0 < i < |rest| ensures !(rest[i - 1] == ' ' && rest[i] == '\t') {
        assert rest[i - 1] == all[i + nsp] && rest[i] == all[i + nsp + 1];
      }
      TidyStays(if s[0] == '\t' then NextStop(pos + nsp) else Advance(true, pos + nsp, s[0]), 0, s[1..]);
      assert all == Run(' ', nsp) + [s[0]] + rest;
      if s[0] == '\t' { assert Run('\t', Tabs(pos, nsp)) == [s[0]] && Run(' ', nsp) + [s[0]] == [s[0]]; }
    }
  }

  /** One character, with what is written for it and how the rest is cleaned. */
  lemma CleanStep(pos: nat, nsp: nat, s: string) returns (out: string, next: nat, pending: nat)
    requires s != ""
    ensures forall t: string :: t != "" && t[0] == s[0] ==> CleanFrom(pos, nsp, t) == out + CleanFrom(next, pending, t[1..])
    ensures s[0] != ' ' ==> out != "" && out[|out| - 1] == s[0] && pending == 0
  {
    if s[0] == '\t' {
      out, next, pending := Run('\t', Tabs(pos, nsp)), NextStop(pos + nsp), 0;
    } else if s[0] == ' ' {
      out, next, pending := "", pos, nsp + 1;
    } else {
      out, next, pending := Run(' ', nsp) + [s[0]], Advance(true, pos + nsp, s[0]), 0;
    }
  }

  /** The last character stays the last unless it is a blank, and so does a newline after it. */
  lemma {:induction false} EndStays(pos: nat, nsp: nat, x: string, e: string)
    requires e in {"", "\n"} && if x == "" then nsp == 0 else x[|x| - 1] != ' ' && x[|x| - 1] != '\t'
    ensures var c := CleanFrom(pos, nsp, x);
      CleanFrom(pos, nsp, x + e) == c + e && (x != "" ==> c != "" && c[|c| - 1] == x[|x| - 1])
    decreases |x|
  {
    hide CleanFrom;
    if x == "" {
      CleanEnd(pos, e);
    } else {
      var out, next, pending := CleanStep(pos, nsp, x);
      assert (x + e)[1..] == x[1..] + e && (x + e)[0] == x[0];
      EndStays(next, pending, x[1..], e);
      LastOf(out, CleanFrom(next, pending, x[1..]), e);
      if |x| == 1 { CleanEnd(next, ""); }
    }
  }

  lemma CleanEnd(pos: nat, e: string)
    requires e in {"", "\n"}
    ensures CleanFrom(pos, 0, "") == "" && CleanFrom(pos, 0, "" + e) == e
  {
    assert "" + e == e && Run(' ', 0) == "" && (e != "" ==> e[1..] == "");
  }

  lemma LastOf(out: string, c: string, e: string)
    ensures out + (c + e) == (out + c) + e
    ensures c != "" ==> (out + c)[|out + c| - 1] == c[|c| - 1]
    ensures c == "" ==> out + c == out
  {
  }

  /** The result has no space directly before a tab; strings without one, and only they, are left alone. */
  lemma CleanFixpoints(s: string)
    ensures !SpaceBeforeTab(Clean(s))
    ensures Clean(s) == s <==> !SpaceBeforeTab(s)
    ensures Clean(Clean(s)) == Clean(s)
  {
    CleanIsTidy(0, 0, s);
    forall t: string | !SpaceBeforeTab(t) ensures Clean(t) == t {
      assert Run(' ', 0) + t == t;
      TidyStays(0, 0, t);
    }
  }

  /** Each tab is preceded by no space, or by a single one in the last column before a tab stop. */
  predicate KeepsLength(pos: nat, nsp: nat, s: string)
    decreases |s|
  {
    s == "" ||
    if s[0] == '\t' then (nsp == 0 || (nsp == 1 && Past(pos) == 7)) && KeepsLength(NextStop(pos + nsp), 0, s[1..])
    else if s[0] == ' ' then KeepsLength(pos, nsp + 1, s[1..])
    else KeepsLength(Advance(true, pos + nsp, s[0]), 0, s[1..])
  }

  lemma {:induction false} CleanLength(pos: nat, nsp: nat, s: string)
    ensures |CleanFrom(pos, nsp, s)| <= nsp + |s|
    ensures |CleanFrom(pos, nsp, s)| == nsp + |s| <==> KeepsLength(pos, nsp, s)
    decreases |s|
  {
    if s == "" {
    } else if s[0] == '\t' {
      CleanLength(NextStop(pos + nsp), 0, s[1..]);
    } else if s[0] == ' ' {
      CleanLength(pos, nsp + 1, s[1..]);
    } else {
      CleanLength(Advance(true, pos + nsp, s[0]), 0, s[1..]);
    }
  }

  /** Of one string: it is changed without changing its length, exactly if some spaces stand before a tab and each such
      run becomes as many tabs. */
  lemma ChangedInPlace(s: string)
    ensures |Clean(s)| <= |s|
    ensures Clean(s) != s && |Clean(s)| == |s| <==> SpaceBeforeTab(s) && KeepsLength(0, 0, s)
  {
    CleanLength(0, 0, s);
    CleanFixpoints(s);
  }

  /** Visible characters keep their place in the count. */
  lemma {:induction false} KeepsPlain(col: nat, x: string, s: string)
    requires forall i :: 0 <= i < |x| ==> Visible(x[i])
    ensures KeepsLength(col, 0, x + s) == KeepsLength(col + |x|, 0, s)
    decreases |x|
  {
    if x == "" {
      assert x + s == s;
    } else {
      assert (x + s)[1..] == x[1..] + s;
      KeepsPlain(col + 1, x[1..], s);
    }
  }

  /** Seven characters and a space before a tab: the space becomes a tab. */
  lemma SpaceBecomesTab(s: string)
    requires NoTabs(s)
    ensures var t := "1234567" + (" \t" + s); SpaceBeforeTab(t) && KeepsLength(0, 0, t)
  {
    var t := "1234567" + (" \t" + s);
    assert t[7] == ' ' && t[8] == '\t';
    KeepsPlain(0, "1234567", " \t" + s);
    assert (" \t" + s)[0] == ' ' && (" \t" + s)[1..] == "\t" + s;
    assert ("\t" + s)[0] == '\t' && ("\t" + s)[1..] == s;
    NoTabsKeep(NextStop(8), 0, s);
  }

  predicate NoTabs(s: string) { forall i :: 0 <= i < |s| ==> s[i] != '\t' }

  lemma {:induction false} NoTabsKeep(pos: nat, nsp: nat, s: string)
    requires NoTabs(s)
    ensures KeepsLength(pos, nsp, s)
    decreases |s|
  {
    if s == "" {
    } else if s[0] == ' ' {
      NoTabsKeep(pos, nsp + 1, s[1..]);
    } else {
      NoTabsKeep(Advance(true, pos + nsp, s[0]), 0, s[1..]);
    }
  }
}
