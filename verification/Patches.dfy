/** The hunk loop of scripts/cleanpatch: added lines are cleaned, blank lines added at the end of a hunk are dropped,
    and the hunk header is corrected. */
module Patches {
  import opened Exprs
  import opened Whitespace

  /** A line of a patch file; the texts end with the newline.  slack: the characters of a header beyond its usual
      form (spaces and leading zeros), which are lost when it is printed anew. */
  datatype Line =
    | Header(mstart: nat, minus: nat, pstart: nat, plus: nat, tail: string, slack: nat)
    | Added(text: string)
    | Removed(text: string)
    | Context(text: string)
    | Other(text: string)

  predicate InHunk(l: Line) { l.Added? || l.Removed? || l.Context? }

  function OldCount(h: seq<Line>): nat {
    if h == [] then 0 else OldCount(h[..|h| - 1]) + if h[|h| - 1].Added? then 0 else 1
  }

  function NewCount(h: seq<Line>): nat {
    if h == [] then 0 else NewCount(h[..|h| - 1]) + if h[|h| - 1].Removed? then 0 else 1
  }

  // ---------- a patch is plain lines and hunks ----------

  datatype Item = Plain(line: Line) | Hunk(header: Line, body: seq<Line>)

  /** A hunk has as many lines of each side as its header says. */
  predicate Counted(i: Item) {
    if i.Plain? then !i.line.Header?
    else i.header.Header? && (forall l :: l in i.body ==> InHunk(l))
         && OldCount(i.body) == i.header.minus && NewCount(i.body) == i.header.plus
  }

  predicate Empty(i: Item) { i.Hunk? && i.body == [] }

  function ItemLines(i: Item): seq<Line> { if i.Plain? then [i.line] else [i.header] + i.body }

  function Render(items: seq<Item>): seq<Line> {
    if items == [] then [] else ItemLines(items[0]) + Render(items[1..])
  }

  /** Where a reader of the file is: outside hunks, or in one with this many lines to come. */
  datatype Place = Outside | Inside(header: Line, body: seq<Line>, minus: nat, plus: nat)

  /** The items of a patch file; None if a hunk is malformed. A header that announces no lines is no item. */
  function Parse(at: Place, lines: seq<Line>): Option<seq<Item>>
    decreases |lines|
  {
    if lines == [] then if at.Outside? then Some([]) else None
    else
      var l, rest := lines[0], lines[1..];
      if at.Outside? then
        if !l.Header? then Before(Plain(l), Parse(Outside, rest))
        else if l.minus == 0 && l.plus == 0 then Parse(Outside, rest)
        else Parse(Inside(l, [], l.minus, l.plus), rest)
      else
        var minus, plus := at.minus - (if l.Added? then 0 else 1), at.plus - if l.Removed? then 0 else 1;
        if !InHunk(l) || minus < 0 || plus < 0 then None
        else if minus == 0 && plus == 0 then Before(Hunk(at.header, at.body + [l]), Parse(Outside, rest))
        else Parse(Inside(at.header, at.body + [l], minus, plus), rest)
  }

  function Before(i: Item, items: Option<seq<Item>>): Option<seq<Item>> {
    if items.None? then None else Some([i] + items.value)
  }

  predicate PlaceOk(at: Place) {
    at.Inside? ==> at.header.Header? && (forall l :: l in at.body ==> InHunk(l)) && at.minus + at.plus > 0
                   && OldCount(at.body) + at.minus == at.header.minus && NewCount(at.body) + at.plus == at.header.plus
  }

  lemma {:induction false} ParseCounts(at: Place, lines: seq<Line>)
    requires PlaceOk(at) && Parse(at, lines).Some?
    ensures forall i :: i in Parse(at, lines).value ==> Counted(i) && !Empty(i)
    decreases |lines|
  {
    if lines != [] {
      var l, rest := lines[0], lines[1..];
      if at.Outside? {
        ParseCounts(if l.Header? && l.minus + l.plus > 0 then Inside(l, [], l.minus, l.plus) else Outside, rest);
      } else {
        var minus, plus := at.minus - (if l.Added? then 0 else 1), at.plus - if l.Removed? then 0 else 1;
        assert (at.body + [l])[..|at.body|] == at.body;
        ParseCounts(if minus == 0 && plus == 0 then Outside else Inside(at.header, at.body + [l], minus, plus), rest);
      }
    }
  }

  function NonEmpty(items: seq<Item>): seq<Item> {
    if items == [] then [] else (if Empty(items[0]) then [] else [items[0]]) + NonEmpty(items[1..])
  }

  /** The rest of a hunk is read up to its last line and no further. */
  lemma {:induction false} ParseBody(header: Line, h: seq<Line>, k: nat, rest: seq<Line>)
    requires Counted(Hunk(header, h)) && k < |h|
    ensures OldCount(h[..k]) <= header.minus && NewCount(h[..k]) <= header.plus
    ensures var minus, plus := header.minus - OldCount(h[..k]), header.plus - NewCount(h[..k]);
      minus + plus > 0
      && Parse(Inside(header, h[..k], minus, plus), h[k..] + rest) == Before(Hunk(header, h), Parse(Outside, rest))
    decreases |h| - k
  {
    assert h[..k + 1][..k] == h[..k] && h[..k + 1] == h[..k] + [h[k]];
    assert (h[k..] + rest)[1..] == h[k + 1..] + rest;
    if k + 1 == |h| {
      assert h[..k + 1] == h && h[k + 1..] + rest == rest;
    } else {
      ParseBody(header, h, k + 1, rest);
    }
  }

  /** One step of reading outside hunks. */
  lemma ParseOutside(line: Line, rest: seq<Line>)
    ensures Parse(Outside, [line] + rest)
            == if !line.Header? then Before(Plain(line), Parse(Outside, rest))
               else if line.minus == 0 && line.plus == 0 then Parse(Outside, rest)
               else Parse(Inside(line, [], line.minus, line.plus), rest)
  {
    assert ([line] + rest)[1..] == rest;
  }

  lemma ItemParsed(i: Item, rest: seq<Line>)
    requires Counted(i)
    ensures Parse(Outside, ItemLines(i) + rest)
            == if Empty(i) then Parse(Outside, rest) else Before(i, Parse(Outside, rest))
  {
    hide Parse, Before;
    if i.Plain? {
      ParseOutside(i.line, rest);
    } else {
      ParseOutside(i.header, i.body + rest);
      assert ItemLines(i) + rest == [i.header] + (i.body + rest);
      if i.body == [] {
        assert i.body + rest == rest;
      } else {
        assert i.body[..0] == [] && i.body[0..] == i.body;
        ParseBody(i.header, i.body, 0, rest);
      }
    }
  }

  /** Items that are counted right can be read back, but for hunks without lines. */
  lemma {:induction false} RenderIsParsed(items: seq<Item>)
    requires forall i :: i in items ==> Counted(i)
    ensures Parse(Outside, Render(items)) == Some(NonEmpty(items))
    decreases |items|
  {
    if items != [] {
      assert items[0] in items;
      RenderIsParsed(items[1..]);
      ItemParsed(items[0], Render(items[1..]));
      assert [] + NonEmpty(items[1..]) == NonEmpty(items[1..]);
    }
  }

  // ---------- cleaning ----------

  predicate StripChar(c: char) { c == ' ' || c == '\t' || c == '\r' }

  function StripEnd(t: string): (r: string)
    ensures r <= t && (forall i :: |r| <= i < |t| ==> StripChar(t[i]))
    ensures r != "" ==> !StripChar(r[|r| - 1])
  {
    if t != "" && StripChar(t[|t| - 1]) then StripEnd(t[..|t| - 1]) else t
  }

  /** Without the blanks at the end of the line, whether or not a newline follows. */
  function Strip(t: string): string {
    if t != "" && t[|t| - 1] == '\n' then StripEnd(t[..|t| - 1]) + "\n" else StripEnd(t)
  }

  function CleanLine(l: Line): Line { if l.Added? then Added(Clean(Strip(l.text))) else l }

  function CleanLines(h: seq<Line>): (r: seq<Line>)
    ensures |r| == |h| && forall k :: 0 <= k < |h| ==> r[k] == CleanLine(h[k])
  {
    seq(|h|, k requires 0 <= k < |h| => CleanLine(h[k]))
  }

  predicate AddedBlank(l: Line) { l == Added("\n") }

  /** Without the blank lines added after everything else of the new side. */
  function Trimmed(h: seq<Line>): seq<Line> {
    if h == [] then []
    else
      var last, front := h[|h| - 1], h[..|h| - 1];
      if AddedBlank(last) then Trimmed(front)
      else if last.Removed? then Trimmed(front) + [last]
      else h
  }

  function Dropped(h: seq<Line>): nat {
    if h == [] then 0
    else
      var last, front := h[|h| - 1], h[..|h| - 1];
      if AddedBlank(last) then Dropped(front) + 1 else if last.Removed? then Dropped(front) else 0
  }

  /** The header that announces n new lines less, of which there are enough in a counted hunk. */
  function Less(header: Line, n: nat): Line
    requires header.Header?
  {
    if 0 < n <= header.plus then header.(plus := header.plus - n, slack := 0) else header
  }

  function CleanItem(i: Item): Item {
    if i.Plain? || !i.header.Header? then i
    else
      var h := CleanLines(i.body);
      Hunk(Less(i.header, Dropped(h)), Trimmed(h))
  }

  function CleanItems(items: seq<Item>): (r: seq<Item>)
    ensures |r| == |items| && forall k :: 0 <= k < |r| ==> r[k] == CleanItem(items[k])
  {
    seq(|items|, k requires 0 <= k < |items| => CleanItem(items[k]))
  }

  lemma {:induction false} CleanCounts(h: seq<Line>)
    requires forall l :: l in h ==> InHunk(l)
    ensures OldCount(CleanLines(h)) == OldCount(h) && NewCount(CleanLines(h)) == NewCount(h)
    ensures forall l :: l in CleanLines(h) ==> InHunk(l)
  {
    if h != [] {
      CleanCounts(h[..|h| - 1]);
      assert CleanLines(h)[..|h| - 1] == CleanLines(h[..|h| - 1]);
    }
  }

  lemma {:induction false} TrimCounts(h: seq<Line>)
    ensures NewCount(Trimmed(h)) + Dropped(h) == NewCount(h)
    ensures OldCount(Trimmed(h)) == OldCount(h)
    ensures forall l :: l in Trimmed(h) ==> l in h
  {
    if h != [] {
      var last, front := h[|h| - 1], h[..|h| - 1];
      TrimCounts(front);
      assert (Trimmed(front) + [last])[..|Trimmed(front)|] == Trimmed(front);
    }
  }

  // ---------- what cleaning keeps ----------

  /** The lines of one side of a hunk. */
  function OldSide(h: seq<Line>): seq<string> {
    if h == [] then []
    else
      var last := h[|h| - 1];
      OldSide(h[..|h| - 1]) + if last.Removed? || last.Context? then [last.text] else []
  }

  function NewSide(h: seq<Line>): seq<Line> {
    if h == [] then [] else NewSide(h[..|h| - 1]) + if h[|h| - 1].Removed? then [] else [h[|h| - 1]]
  }

  /** Dropping the blank lines at the end of the new side. */
  function WithoutBlankEnd(s: seq<Line>): seq<Line> {
    if s != [] && AddedBlank(s[|s| - 1]) then WithoutBlankEnd(s[..|s| - 1]) else s
  }

  lemma {:induction false} TrimOldSide(h: seq<Line>)
    ensures OldSide(Trimmed(h)) == OldSide(h)
  {
    if h != [] {
      var last, front := h[|h| - 1], h[..|h| - 1];
      TrimOldSide(front);
      assert (Trimmed(front) + [last])[..|Trimmed(front)|] == Trimmed(front);
    }
  }

  lemma {:induction false} TrimNewSide(h: seq<Line>)
    ensures NewSide(Trimmed(h)) == WithoutBlankEnd(NewSide(h))
  {
    if h != [] {
      var last, front := h[|h| - 1], h[..|h| - 1];
      TrimNewSide(front);
      if last.Removed? {
        assert (Trimmed(front) + [last])[..|Trimmed(front)|] == Trimmed(front);
        assert NewSide(h) == NewSide(front) && NewSide(Trimmed(h)) == NewSide(Trimmed(front));
      } else {
        assert (NewSide(front) + [last])[..|NewSide(front)|] == NewSide(front);
      }
    }
  }

  lemma {:induction false} CleanSides(h: seq<Line>)
    ensures OldSide(CleanLines(h)) == OldSide(h)
    ensures NewSide(CleanLines(h)) == CleanLines(NewSide(h))
  {
    if h != [] {
      CleanSides(h[..|h| - 1]);
      assert CleanLines(h)[..|h| - 1] == CleanLines(h[..|h| - 1]);
    }
  }

  predicate BlankChar(c: char) { c in {' ', '\t', '\r'} }

  lemma {:induction false} StripIs(x: string, n: nat)
    requires n <= |x| && (n > 0 ==> !BlankChar(x[n - 1])) && forall i :: n <= i < |x| ==> BlankChar(x[i])
    ensures StripEnd(x) == x[..n]
  {
    if n < |x| {
      StripIs(x[..|x| - 1], n);
      assert x[..|x| - 1][..n] == x[..n];
    }
  }

  /** A line that is added loses the blanks and carriage returns at its end, and what is before them is cleaned: no space
      is left before a tab, the last character stays, and so does the newline. */
  lemma CleanedLine(t: string, n: nat, e: string)
    requires n + |e| <= |t| && e == (if t != "" && t[|t| - 1] == '\n' then "\n" else "")
    requires (n > 0 ==> !BlankChar(t[n - 1])) && forall i :: n <= i < |t| - |e| ==> BlankChar(t[i])
    ensures var c := Clean(t[..n]);
      && CleanLine(Added(t)) == Added(c + e) && !SpaceBeforeTab(c + e)
      && (n > 0 ==> c != "" && c[|c| - 1] == t[n - 1])
  {
    hide StripEnd, CleanFrom;
    var x := t[..|t| - |e|];
    StripIs(x, n);
    assert x[..n] == t[..n] && (e == "" ==> x == t);
    EndStays(0, 0, t[..n], e);
    CleanFixpoints(t[..n] + e);
  }

  /** Cleaning a hunk keeps what it replaces, line by line; what it puts there is cleaned and loses the blank lines
      it adds at its end; and the header still says how many lines there are. */
  lemma CleanHunk(i: Item)
    requires Counted(i) && i.Hunk?
    ensures var c := CleanItem(i);
      && Counted(c) && OldSide(c.body) == OldSide(i.body)
      && NewSide(c.body) == WithoutBlankEnd(CleanLines(NewSide(i.body)))
      && c.header == i.header.(plus := c.header.plus, slack := c.header.slack)
      && (NewCount(c.body) < NewCount(i.body) ==> c.header.slack == 0)
      && (NewCount(c.body) == NewCount(i.body) ==> c.header == i.header)
  {
    CleanCounts(i.body);
    TrimCounts(CleanLines(i.body));
    CleanSides(i.body);
    TrimOldSide(CleanLines(i.body));
    TrimNewSide(CleanLines(i.body));
  }

  // ---------- hunks that vanish ----------

  predicate Blanks(t: string) { forall k :: 0 <= k < |t| ==> StripChar(t[k]) }

  /** Nothing but blanks before the newline; a text that starts with its newline would be treated alike. */
  predicate BlankText(t: string) {
    t != "" && ((t[|t| - 1] == '\n' && Blanks(t[..|t| - 1])) || (t[0] == '\n' && Blanks(t[1..])))
  }

  lemma StripsToNewline(t: string)
    ensures Strip(t) == "\n" <==> BlankText(t)
  {
    if t != "" && t[|t| - 1] == '\n' {
      var u := t[..|t| - 1];
      var r := StripEnd(u);
      assert r == "" <==> r + "\n" == "\n";
      assert r != "" ==> !StripChar(u[|r| - 1]);
      assert |t| > 1 ==> t[1..][|t| - 2] == '\n';
    } else if t != "" {
      var r := StripEnd(t);
      assert "\n"[0] == '\n' && (r == "\n" ==> t[0] == r[0]);
      assert forall k :: 0 <= k < |t| - 1 ==> t[1..][k] == t[k + 1];
      if BlankText(t) {
        assert |r| == 1 && r[0] == '\n';
      }
    }
  }

  lemma {:induction false} CleanNotEmpty(pos: nat, nsp: nat, s: string)
    requires nsp > 0 || s != ""
    ensures CleanFrom(pos, nsp, s) != ""
    decreases |s|
  {
    if s != "" && s[0] == ' ' { CleanNotEmpty(pos, nsp + 1, s[1..]); }
  }

  lemma {:induction false} SpacesFirst(pos: nat, nsp: nat, s: string)
    requires nsp > 0
    ensures CleanFrom(pos, nsp, s) != "" && (CleanFrom(pos, nsp, s)[0] == ' ' || CleanFrom(pos, nsp, s)[0] == '\t')
    decreases |s|
  {
    CleanNotEmpty(pos, nsp, s);
    if s != "" && s[0] == ' ' { SpacesFirst(pos, nsp + 1, s[1..]); }
  }

  /** Only the newline is cleaned to a newline. */
  lemma CleansToNewline(s: string)
    ensures Clean(s) == "\n" <==> s == "\n"
  {
    assert "\n" == ['\n'];
    if s == "" {
      assert Clean(s) == Run(' ', 0);
    } else if s[0] == ' ' {
      SpacesFirst(0, 1, s[1..]);
      assert Clean(s) == CleanFrom(0, 1, s[1..]);
    } else if s[0] == '\t' {
      assert Clean(s)[0] == Run('\t', Tabs(0, 0))[0] == '\t';
    } else {
      var rest := CleanFrom(Advance(true, 0, s[0]), 0, s[1..]);
      if s[1..] != "" { CleanNotEmpty(Advance(true, 0, s[0]), 0, s[1..]); } else { assert rest == Run(' ', 0); }
      assert Run(' ', 0) + [s[0]] == [s[0]];
      assert Clean(s) == [s[0]] + rest && s == [s[0]] + s[1..];
    }
  }

  /** A line that adds only blanks. */
  predicate AddsBlank(l: Line) { l.Added? && BlankText(l.text) }

  lemma CleanedBlank(l: Line)
    ensures AddedBlank(CleanLine(l)) <==> AddsBlank(l)
  {
    if l.Added? {
      StripsToNewline(l.text);
      CleansToNewline(Strip(l.text));
    }
  }

  lemma {:induction false} AllTrimmed(h: seq<Line>)
    ensures Trimmed(h) == [] <==> forall l :: l in h ==> AddedBlank(l)
  {
    if h != [] {
      var last, front := h[|h| - 1], h[..|h| - 1];
      AllTrimmed(front);
      assert h == front + [last];
    }
  }

  /** The hunk does nothing but add blank lines. */
  predicate OnlyBlank(i: Item) { i.Hunk? && forall l :: l in i.body ==> AddsBlank(l) }

  lemma VanishingHunk(i: Item)
    requires Counted(i)
    ensures Empty(CleanItem(i)) <==> OnlyBlank(i)
  {
    if i.Hunk? {
      var h := CleanLines(i.body);
      AllTrimmed(h);
      forall k | 0 <= k < |h| ensures AddedBlank(h[k]) <==> AddsBlank(i.body[k]) { CleanedBlank(i.body[k]); }
      if forall l :: l in h ==> AddedBlank(l) {
        forall l | l in i.body ensures AddsBlank(l) {
          var k :| 0 <= k < |i.body| && i.body[k] == l;
          assert h[k] in h;
        }
      }
    }
  }

  /** The items but for the hunks that only add blank lines. */
  function Lasting(items: seq<Item>): seq<Item> {
    if items == [] then [] else (if OnlyBlank(items[0]) then [] else [items[0]]) + Lasting(items[1..])
  }

  lemma CleanFirst(i: Item, rest: seq<Item>)
    ensures CleanItems([i] + rest) == [CleanItem(i)] + CleanItems(rest)
  {
    var all := [i] + rest;
    assert all[0] == i && forall k :: 1 <= k < |all| ==> all[k] == rest[k - 1];
  }

  lemma NonEmptyFirst(i: Item, rest: seq<Item>)
    ensures NonEmpty([i] + rest) == if Empty(i) then NonEmpty(rest) else [i] + NonEmpty(rest)
  {
    assert ([i] + rest)[1..] == rest && [] + NonEmpty(rest) == NonEmpty(rest);
  }

  lemma {:induction false} LastingItems(items: seq<Item>)
    requires forall i :: i in items ==> Counted(i)
    ensures NonEmpty(CleanItems(items)) == CleanItems(Lasting(items))
    decreases |items|
  {
    if items != [] {
      var i, rest := items[0], items[1..];
      assert i in items && items == [i] + rest;
      LastingItems(rest);
      VanishingHunk(i);
      CleanFirst(i, rest);
      CleanFirst(i, Lasting(rest));
      NonEmptyFirst(CleanItem(i), CleanItems(rest));
      assert Lasting(items) == if OnlyBlank(i) then Lasting(rest) else [i] + Lasting(rest);
    }
  }

  /** A cleaned patch is a patch: it is read back as the cleaned items, but for the hunks that only add blank lines. */
  lemma CleanedIsPatch(lines: seq<Line>)
    requires Parse(Outside, lines).Some?
    ensures forall i :: i in Parse(Outside, lines).value ==> Counted(i)
    ensures var items := Parse(Outside, lines).value;
      Parse(Outside, Render(CleanItems(items))) == Some(CleanItems(Lasting(items)))
  {
    ParseCounts(Outside, lines);
    var items := Parse(Outside, lines).value;
    forall i | i in CleanItems(items) ensures Counted(i) {
      var k :| 0 <= k < |items| && i == CleanItem(items[k]);
      if items[k].Hunk? { CleanHunk(items[k]); }
    }
    RenderIsParsed(CleanItems(items));
    LastingItems(items);
  }

  /** A hunk that adds one line of blanks is cleaned to a header that announces nothing, which is lost when the result
      is read again. */
  lemma HunkVanishes()
    ensures var patch := [Header(1, 0, 1, 1, "", 0), Added(" \n")];
      && Parse(Outside, patch) == Some([Hunk(patch[0], [patch[1]])])
      && Render(CleanItems([Hunk(patch[0], [patch[1]])])) == [Header(1, 0, 1, 0, "", 0)]
      && Parse(Outside, [Header(1, 0, 1, 0, "", 0)]) == Some([])
  {
    var header, line := Header(1, 0, 1, 1, "", 0), Added(" \n");
    var i := Hunk(header, [line]);
    OneHunk(header, line);
    assert " \n"[0] == ' ' && " \n"[1] == '\n';
    CleanedBlank(line);
    var h := CleanLines([line]);
    assert h == [CleanLine(line)] && h[..0] == [] && CleanLine(line) == Added("\n");
    assert Trimmed([]) == [] && Dropped([]) == 0;
    assert CleanItems([i]) == [CleanItem(i)] && [CleanItem(i)][1..] == [];
    assert ItemLines(CleanItem(i)) == [Header(1, 0, 1, 0, "", 0)];
    assert Render([CleanItem(i)]) == ItemLines(CleanItem(i)) + [];
    assert [Header(1, 0, 1, 0, "", 0)][1..] == [];
  }

  // ---------- when the file is written back ----------

  /** The characters of a number that is printed in decimal. */
  function Digits(n: nat): nat { if n < 10 then 1 else 1 + Digits(n / 10) }

  lemma {:induction false} DigitsMonotone(m: nat, n: nat)
    requires m <= n
    ensures Digits(m) <= Digits(n)
  {
    if m >= 10 { DigitsMonotone(m / 10, n / 10); }
  }

  /** The bytes of a line. */
  function Length(l: Line): nat {
    match l
    case Header(mstart, minus, pstart, plus, tail, slack) =>
      12 + Digits(mstart) + Digits(minus) + Digits(pstart) + Digits(plus) + |tail| + slack
    case Other(text) => |text|
    case _ => 1 + |l.text|
  }

  function Total(lines: seq<Line>): nat {
    if lines == [] then 0 else Total(lines[..|lines| - 1]) + Length(lines[|lines| - 1])
  }

  lemma {:induction false} TotalJoin(a: seq<Line>, b: seq<Line>)
    ensures Total(a + b) == Total(a) + Total(b)
    decreases |b|
  {
    if b == [] {
      assert a + b == a;
    } else {
      assert (a + b)[..|a + b| - 1] == a + b[..|b| - 1];
      TotalJoin(a, b[..|b| - 1]);
    }
  }

  /** The line has its length after cleaning: nothing is stripped from it, and every run of spaces before a tab becomes
      as many tabs. */
  predicate KeepsLine(l: Line) { l.Added? ==> Strip(l.text) == l.text && KeepsLength(0, 0, l.text) }

  lemma {:induction false} StripEndLength(t: string)
    ensures |StripEnd(t)| <= |t| && (|StripEnd(t)| == |t| <==> StripEnd(t) == t)
  {
  }

  lemma CleanedLength(l: Line)
    ensures Length(CleanLine(l)) <= Length(l)
    ensures Length(CleanLine(l)) == Length(l) <==> KeepsLine(l)
    ensures KeepsLine(l) && l.Added? ==> (CleanLine(l) == l <==> !SpaceBeforeTab(l.text))
    ensures KeepsLine(l) ==> (AddedBlank(CleanLine(l)) <==> AddedBlank(l))
  {
    if l.Added? {
      var t := l.text;
      if t != "" && t[|t| - 1] == '\n' {
        StripEndLength(t[..|t| - 1]);
        assert t == t[..|t| - 1] + "\n";
      } else {
        StripEndLength(t);
      }
      assert |Strip(t)| <= |t| && (|Strip(t)| == |t| <==> Strip(t) == t);
      CleanLength(0, 0, Strip(t));
      CleanFixpoints(t);
      CleansToNewline(t);
    }
  }

  lemma {:induction false} CleanedTotal(h: seq<Line>)
    ensures Total(CleanLines(h)) <= Total(h)
    ensures Total(CleanLines(h)) == Total(h) <==> forall l :: l in h ==> KeepsLine(l)
  {
    if h != [] {
      var front := h[..|h| - 1];
      CleanedTotal(front);
      CleanedLength(h[|h| - 1]);
      assert CleanLines(h)[..|h| - 1] == CleanLines(front) && h == front + [h[|h| - 1]];
    }
  }

  lemma {:induction false} TrimmedTotal(h: seq<Line>)
    ensures Total(Trimmed(h)) + 2 * Dropped(h) == Total(h)
  {
    if h != [] {
      var last, front := h[|h| - 1], h[..|h| - 1];
      TrimmedTotal(front);
      assert (Trimmed(front) + [last])[..|Trimmed(front)|] == Trimmed(front);
      assert AddedBlank(last) ==> Length(last) == 2;
    }
  }

  lemma {:induction false} DroppedAlike(h: seq<Line>)
    requires forall l :: l in h ==> KeepsLine(l)
    ensures Dropped(CleanLines(h)) == Dropped(h)
  {
    if h != [] {
      var front := h[..|h| - 1];
      assert h == front + [h[|h| - 1]] && CleanLines(h)[..|h| - 1] == CleanLines(front);
      DroppedAlike(front);
      CleanedLength(h[|h| - 1]);
    }
  }

  /** The item has its length after cleaning. */
  predicate KeepsItem(i: Item) { i.Hunk? ==> Dropped(i.body) == 0 && forall l :: l in i.body ==> KeepsLine(l) }

  lemma LessLength(header: Line, n: nat)
    requires header.Header?
    ensures Length(Less(header, n)) <= Length(header)
  {
    if 0 < n <= header.plus { DigitsMonotone(header.plus - n, header.plus); }
  }

  lemma ItemTotal(i: Item)
    requires Counted(i)
    ensures Total(ItemLines(CleanItem(i))) <= Total(ItemLines(i))
    ensures Total(ItemLines(CleanItem(i))) == Total(ItemLines(i)) <==> KeepsItem(i)
  {
    if i.Hunk? {
      var h := CleanLines(i.body);
      TotalJoin([i.header], i.body);
      TotalJoin([Less(i.header, Dropped(h))], Trimmed(h));
      OneTotal(i.header);
      OneTotal(Less(i.header, Dropped(h)));
      LessLength(i.header, Dropped(h));
      CleanedTotal(i.body);
      TrimmedTotal(h);
      if forall l :: l in i.body ==> KeepsLine(l) { DroppedAlike(i.body); }
    }
  }

  lemma OneTotal(l: Line)
    ensures Total([l]) == Length(l)
  {
    assert [l][..0] == [];
  }

  lemma {:induction false} ItemsTotal(items: seq<Item>)
    requires forall i :: i in items ==> Counted(i)
    ensures Total(Render(CleanItems(items))) <= Total(Render(items))
    ensures Total(Render(CleanItems(items))) == Total(Render(items)) <==> forall i :: i in items ==> KeepsItem(i)
    decreases |items|
  {
    if items != [] {
      var i, rest := items[0], items[1..];
      assert i in items && items == [i] + rest;
      assert CleanItems(items)[1..] == CleanItems(rest);
      ItemTotal(i);
      ItemsTotal(rest);
      TotalJoin(ItemLines(i), Render(rest));
      TotalJoin(ItemLines(CleanItem(i)), Render(CleanItems(rest)));
    }
  }

  /** No header announces nothing. */
  predicate Announced(lines: seq<Line>) { forall l :: l in lines && l.Header? ==> l.minus + l.plus > 0 }

  /** What has been read of the hunk at this place. */
  function Begun(at: Place): seq<Line> { if at.Outside? then [] else [at.header] + at.body }

  /** The render r of what was read accounts for the lines after begun. */
  ghost predicate Accounts(r: seq<Line>, begun: seq<Line>, lines: seq<Line>) {
    && Total(r) <= Total(begun) + Total(lines)
    && (Total(r) == Total(begun) + Total(lines) <==> Announced(lines))
    && (Announced(lines) ==> r == begun + lines)
  }

  lemma AccountsBefore(r: seq<Line>, a: seq<Line>, l: Line, rest: seq<Line>)
    requires !l.Header? && Accounts(r, a + [l], rest)
    ensures Accounts(r, a, [l] + rest)
  {
    TotalJoin(a, [l]);
    TotalJoin([l], rest);
    assert a + [l] + rest == a + ([l] + rest);
    assert Announced([l] + rest) <==> Announced(rest);
  }

  lemma AccountsAfter(r: seq<Line>, a: seq<Line>, rest: seq<Line>)
    requires Accounts(r, [], rest)
    ensures Accounts(a + r, a, rest)
  {
    TotalJoin(a, r);
    assert [] + rest == rest;
  }

  /** The items hold all lines but the headers that announce nothing. */
  lemma {:induction false} ParsedTotal(at: Place, lines: seq<Line>)
    requires Parse(at, lines).Some?
    ensures Accounts(Render(Parse(at, lines).value), Begun(at), lines)
    decreases |lines|, 0
  {
    if lines != [] {
      var l, rest := lines[0], lines[1..];
      assert lines == [l] + rest;
      if at.Outside? { ParsedOutside(l, rest); } else { ParsedInside(at, l, rest); }
    } else {
      assert Begun(Outside) + [] == [];
    }
  }

  lemma {:induction false} ParsedOutside(l: Line, rest: seq<Line>)
    requires Parse(Outside, [l] + rest).Some?
    ensures Accounts(Render(Parse(Outside, [l] + rest).value), [], [l] + rest)
    decreases |rest|, 1
  {
    assert ([l] + rest)[1..] == rest;
    if !l.Header? {
      ParsedTotal(Outside, rest);
      var items := Parse(Outside, rest).value;
      assert ([Plain(l)] + items)[1..] == items;
      AccountsAfter(Render(items), [l], rest);
      assert [] + [l] == [l];
      AccountsBefore([l] + Render(items), [], l, rest);
    } else if l.minus == 0 && l.plus == 0 {
      ParsedTotal(Outside, rest);
      TotalJoin([l], rest);
      OneTotal(l);
      assert l in [l] + rest;
    } else {
      ParsedTotal(Inside(l, [], l.minus, l.plus), rest);
      TotalJoin([l], rest);
      assert [l] + [] == [l] && [] + ([l] + rest) == [l] + rest;
      assert Announced([l] + rest) <==> Announced(rest);
    }
  }

  lemma {:induction false} ParsedInside(at: Place, l: Line, rest: seq<Line>)
    requires at.Inside? && Parse(at, [l] + rest).Some?
    ensures Accounts(Render(Parse(at, [l] + rest).value), Begun(at), [l] + rest)
    decreases |rest|, 1
  {
    assert ([l] + rest)[1..] == rest;
    var minus, plus := at.minus - (if l.Added? then 0 else 1), at.plus - if l.Removed? then 0 else 1;
    var begun := [at.header] + (at.body + [l]);
    assert Begun(at) + [l] == begun;
    if minus == 0 && plus == 0 {
      ParsedTotal(Outside, rest);
      var items := Parse(Outside, rest).value;
      AccountsAfter(Render(items), begun, rest);
      assert ([Hunk(at.header, at.body + [l])] + items)[1..] == items;
    } else {
      ParsedTotal(Inside(at.header, at.body + [l], minus, plus), rest);
    }
    AccountsBefore(Render(Parse(at, [l] + rest).value), Begun(at), l, rest);
  }

  /** Cleaning leaves the length of the file as it is. */
  predicate KeepsTotal(lines: seq<Line>)
    requires Parse(Outside, lines).Some?
  {
    Announced(lines) && forall i :: i in Parse(Outside, lines).value ==> KeepsItem(i)
  }

  /** Some added line of a hunk has a space before a tab. */
  predicate Untidy(items: seq<Item>) {
    exists i, l :: i in items && i.Hunk? && l in i.body && l.Added? && SpaceBeforeTab(l.text)
  }

  lemma {:induction false} TidyItems(items: seq<Item>)
    requires forall i :: i in items ==> Counted(i) && KeepsItem(i)
    ensures CleanItems(items) == items <==> !Untidy(items)
  {
    forall i | i in items ensures CleanItem(i) == i <==> !Untidy([i]) {
      TidyItem(i);
    }
    assert forall k :: 0 <= k < |items| ==> CleanItems(items)[k] == CleanItem(items[k]) && items[k] in items;
    assert Untidy(items) <==> exists i :: i in items && Untidy([i]);
  }

  lemma TidyItem(i: Item)
    requires Counted(i) && KeepsItem(i)
    ensures CleanItem(i) == i <==> !Untidy([i])
  {
    if i.Hunk? {
      var h := CleanLines(i.body);
      DroppedAlike(i.body);
      NothingTrimmed(h);
      forall k | 0 <= k < |h| ensures h[k] == i.body[k] <==> !(i.body[k].Added? && SpaceBeforeTab(i.body[k].text)) {
        assert i.body[k] in i.body;
        CleanedLength(i.body[k]);
      }
      assert i == Hunk(i.header, i.body) && i in [i];
      if Untidy([i]) {
        var j, l :| j in [i] && j.Hunk? && l in j.body && l.Added? && SpaceBeforeTab(l.text);
        var k :| 0 <= k < |i.body| && i.body[k] == l;
        assert h[k] != i.body[k];
      }
    }
  }

  lemma {:induction false} NothingTrimmed(h: seq<Line>)
    requires Dropped(h) == 0
    ensures Trimmed(h) == h
  {
    if h != [] && h[|h| - 1].Removed? { NothingTrimmed(h[..|h| - 1]); }
  }

  lemma {:induction false} RenderInjective(items: seq<Item>)
    requires forall i :: i in items ==> Counted(i) && KeepsItem(i)
    ensures Render(CleanItems(items)) == Render(items) <==> CleanItems(items) == items
    decreases |items|
  {
    if items != [] && Render(CleanItems(items)) == Render(items) {
      var i, rest := items[0], items[1..];
      assert i in items && CleanItems(items)[1..] == CleanItems(rest);
      if i.Hunk? {
        DroppedAlike(i.body);
        NothingTrimmed(CleanLines(i.body));
      }
      var a, b := ItemLines(CleanItem(i)), ItemLines(i);
      assert |a| == |b| && (a + Render(CleanItems(rest)))[..|a|] == a && (b + Render(rest))[..|b|] == b;
      assert (a + Render(CleanItems(rest)))[|a|..] == Render(CleanItems(rest)) && (b + Render(rest))[|b|..] == Render(rest);
      RenderInjective(rest);
      assert i.Hunk? ==> a[1..] == CleanItem(i).body && b[1..] == i.body;
      assert CleanItems(items) == [CleanItem(i)] + CleanItems(rest) && items == [i] + rest;
    }
  }

  /** The script writes the result only if its length differs.  So a file is cleaned in vain exactly if every length
      is kept, by the whole file, and yet some added line has a space before a tab. */
  lemma CleanedInVain(lines: seq<Line>)
    requires Parse(Outside, lines).Some?
    ensures var out := Render(CleanItems(Parse(Outside, lines).value));
      && Total(out) <= Total(lines)
      && (Total(out) == Total(lines) <==> KeepsTotal(lines))
      && (Total(out) == Total(lines) && out != lines <==> KeepsTotal(lines) && Untidy(Parse(Outside, lines).value))
  {
    var items := Parse(Outside, lines).value;
    ParseCounts(Outside, lines);
    ParsedTotal(Outside, lines);
    ItemsTotal(items);
    if KeepsTotal(lines) {
      RenderInjective(items);
      TidyItems(items);
      assert [] + lines == lines;
    }
  }

  /** A file cleaned in vain: the line becomes seven characters and two tabs, and the script does not write it. */
  lemma InVain()
    ensures var patch := [Header(1, 0, 1, 1, "", 0), Added("1234567" + (" \t" + "x\n"))];
      && Parse(Outside, patch) == Some([Hunk(patch[0], [patch[1]])])
      && KeepsTotal(patch) && Untidy([Hunk(patch[0], [patch[1]])])
  {
    var header, line := Header(1, 0, 1, 1, "", 0), Added("1234567" + (" \t" + "x\n"));
    var i := Hunk(header, [line]);
    OneHunk(header, line);
    SpaceBecomesTab("x\n");
    var u := line.text[..|line.text| - 1];
    assert line.text[|line.text| - 1] == '\n' && u[|u| - 1] == 'x' && StripEnd(u) == u && line.text == u + "\n";
    assert [line][..0] == [] && Dropped([line]) == 0;
    assert i in [i] && line in i.body;
    assert header in [header, line];
  }

  lemma OneHunk(header: Line, line: Line)
    requires header.Header? && header.minus == 0 && header.plus == 1 && line.Added?
    ensures Parse(Outside, [header, line]) == Some([Hunk(header, [line])])
  {
    var i := Hunk(header, [line]);
    assert [header, line][1..] == [line] && [line][1..] == [] && [] + [line] == [line];
    assert Parse(Inside(header, [], 0, 1), [line]) == Some([i] + []);
    assert [i] + [] == [i];
  }

  // ---------- the loops ----------

  lemma TrimLast(x: seq<Line>, l: Line, h: seq<Line>)
    ensures AddedBlank(l) ==> Trimmed(x + [l]) + h == Trimmed(x) + h
    ensures l.Removed? ==> Trimmed(x + [l]) + h == Trimmed(x) + ([l] + h)
    ensures !AddedBlank(l) && !l.Removed? ==> Trimmed(x + [l]) + h == x + ([l] + h)
    ensures x + [l] + h == x + ([l] + h)
    ensures Dropped(x + [l]) == if AddedBlank(l) then Dropped(x) + 1 else if l.Removed? then Dropped(x) else 0
  {
    assert (x + [l])[..|x|] == x;
  }

  /** The loop has walked back over all but the first i lines of the body b. */
  predicate Walked(b: seq<Line>, i: nat, done: bool, adj: int, h: seq<Line>) {
    && i <= |b| && Trimmed(b) == (if done then b[..i] else Trimmed(b[..i])) + h
    && Dropped(b) == adj + if done then 0 else Dropped(b[..i])
  }

  lemma WalkOn(b: seq<Line>, i: nat, done: bool, adj: int, h: seq<Line>)
    requires 0 < i <= |b| && InHunk(b[i - 1]) && Walked(b, i, done, adj, h)
    ensures var l := b[i - 1];
      if !done && AddedBlank(l) then Walked(b, i - 1, done, adj + 1, h)
      else Walked(b, i - 1, done || !l.Removed?, adj, [l] + h)
  {
    assert b[..i] == b[..i - 1] + [b[i - 1]];
    TrimLast(b[..i - 1], b[i - 1], h);
  }

  /** The end of a hunk: walk it backwards, leave out blank added lines until another line of the new side is met,
      and correct the header. */
  method FinishHunk(hunk: seq<Line>) returns (h: seq<Line>)
    requires hunk != [] && hunk[0].Header? && forall l :: l in hunk[1..] ==> InHunk(l)
    requires Dropped(hunk[1..]) <= hunk[0].plus
    ensures h == [Less(hunk[0], Dropped(hunk[1..]))] + Trimmed(hunk[1..])
  {
    ghost var b := hunk[1..];
    h := [];
    var adj, done := 0, false;
    var i := |hunk| - 1;
    assert b[..i] == b && Trimmed(b) + h == Trimmed(b);
    while i > 0
      invariant 0 <= i < |hunk| && adj >= 0 && Walked(b, i, done, adj, h)
    {
      var l := hunk[i];
      assert l == b[i - 1] && InHunk(l);
      WalkOn(b, i, done, adj, h);
      if !done && l == Added("\n") {
        adj := adj + 1;
      } else {
        if l.Context? || l.Added? { done := true; }
        h := [l] + h;
      }
      i := i - 1;
    }
    assert b[..0] == [] && [] + h == h;
    h := [if adj > 0 then hunk[0].(plus := hunk[0].plus - adj, slack := 0) else hunk[0]] + h;
  }

  function Behind(done: seq<Item>, items: Option<seq<Item>>): Option<seq<Item>> {
    if items.None? then None else Some(done + items.value)
  }

  predicate AllCounted(items: seq<Item>) { forall i {:trigger Counted(i)} :: i in items ==> Counted(i) }

  lemma {:induction false} RenderMore(items: seq<Item>, i: Item)
    ensures Render(items + [i]) == Render(items) + ItemLines(i)
  {
    if items == [] {
      assert [i][1..] == [] && [] + [i] == [i];
      assert Render([i]) == ItemLines(i) + Render([]);
    } else {
      assert (items + [i])[1..] == items[1..] + [i];
      RenderMore(items[1..], i);
    }
  }

  lemma CleanMore(items: seq<Item>, i: Item)
    ensures CleanItems(items + [i]) == CleanItems(items) + [CleanItem(i)]
  {
    var all := items + [i];
    assert all[|items|] == i && forall k :: 0 <= k < |items| ==> all[k] == items[k];
  }

  lemma BehindMore(done: seq<Item>, i: Item, later: Option<seq<Item>>)
    ensures Behind(done, Before(i, later)) == Behind(done + [i], later)
  {
    if later.Some? { assert done + ([i] + later.value) == done + [i] + later.value; }
  }

  lemma MoreDone(done: seq<Item>, i: Item, later: Option<seq<Item>>)
    requires AllCounted(done) && Counted(i)
    ensures AllCounted(done + [i]) && Behind(done, Before(i, later)) == Behind(done + [i], later)
    ensures Render(CleanItems(done + [i])) == Render(CleanItems(done)) + ItemLines(CleanItem(i))
  {
    BehindMore(done, i, later);
    CleanMore(done, i);
    RenderMore(CleanItems(done), CleanItem(i));
  }

  /** The state of the loop; bytes: the length of the lines put out so far; bad: the file is known to be malformed. */
  datatype State = State(lines: seq<Line>, bytes: nat, hunk: seq<Line>, place: Place, bad: bool)

  /** st is what the loop has made of the input before the rest. */
  ghost predicate Reached(input: seq<Line>, st: State, done: seq<Item>, rest: seq<Line>) {
    && PlaceOk(st.place) && AllCounted(done) && st.lines == Render(CleanItems(done)) && st.bytes == Total(st.lines)
    && (st.place.Inside? ==> st.hunk == [st.place.header] + CleanLines(st.place.body))
    && Parse(Outside, input) == if st.bad then None else Behind(done, Parse(st.place, rest))
  }

  /** One line outside hunks. */
  method OutsideLine(ghost input: seq<Line>, st: State, ghost done: seq<Item>, line: Line, ghost rest: seq<Line>)
    returns (next: State, ghost more: seq<Item>)
    requires !st.bad && st.place.Outside? && Reached(input, st, done, [line] + rest)
    ensures Reached(input, next, more, rest)
  {
    next, more := st, done;
    assert ([line] + rest)[1..] == rest;
    if !line.Header? {
      next := st.(lines := st.lines + [line], bytes := st.bytes + Length(line));
      MoreDone(done, Plain(line), Parse(Outside, rest));
      more := done + [Plain(line)];
    } else if line.minus != 0 || line.plus != 0 {
      next := st.(hunk := [line], place := Inside(line, [], line.minus, line.plus));
    }
  }

  lemma Grow(at: Place, line: Line, minus: int, plus: int)
    requires PlaceOk(at) && at.Inside? && InHunk(line) && minus >= 0 && plus >= 0
    requires minus == at.minus - (if line.Added? then 0 else 1) && plus == at.plus - if line.Removed? then 0 else 1
    ensures minus + plus > 0 ==> PlaceOk(Inside(at.header, at.body + [line], minus, plus))
    ensures minus + plus == 0 ==> Counted(Hunk(at.header, at.body + [line]))
    ensures CleanLines(at.body + [line]) == CleanLines(at.body) + [CleanLine(line)]
  {
    assert (at.body + [line])[..|at.body|] == at.body;
  }

  /** One step of reading in a hunk. */
  lemma ParseInside(at: Place, line: Line, rest: seq<Line>)
    requires at.Inside?
    ensures var minus, plus := at.minus - (if line.Added? then 0 else 1), at.plus - if line.Removed? then 0 else 1;
      Parse(at, [line] + rest)
      == if !InHunk(line) || minus < 0 || plus < 0 then None
         else if minus == 0 && plus == 0 then Before(Hunk(at.header, at.body + [line]), Parse(Outside, rest))
         else Parse(Inside(at.header, at.body + [line], minus, plus), rest)
  {
    assert ([line] + rest)[1..] == rest;
  }

  /** One line in a hunk. */
  method HunkLine(ghost input: seq<Line>, st: State, ghost done: seq<Item>, line: Line, ghost rest: seq<Line>)
    returns (next: State, ghost more: seq<Item>)
    requires !st.bad && st.place.Inside? && Reached(input, st, done, [line] + rest)
    ensures Reached(input, next, more, rest)
  {
    hide Parse, Render, CleanItems, AllCounted, Total, Before, CleanLines, OldCount, NewCount;
    next, more := st, done;
    ParseInside(st.place, line, rest);
    var minus: int, plus: int := st.place.minus, st.place.plus;
    if !line.Removed? { plus := plus - 1; }
    if !line.Added? { minus := minus - 1; }
    if !InHunk(line) || plus < 0 || minus < 0 { return st.(bad := true), done; }
    Grow(st.place, line, minus, plus);
    var hunk := st.hunk + [CleanLine(line)];
    assert hunk == [st.place.header] + (CleanLines(st.place.body) + [CleanLine(line)]);
    next := st.(hunk := hunk, place := Inside(st.place.header, st.place.body + [line], minus, plus));
    if plus == 0 && minus == 0 {
      next, more := EndHunk(st, done, hunk, st.place.body + [line], Parse(Outside, rest));
    }
  }

  /** The hunk is complete. */
  method EndHunk(st: State, ghost done: seq<Item>, hunk: seq<Line>, ghost body: seq<Line>, ghost later: Option<seq<Item>>)
    returns (next: State, ghost more: seq<Item>)
    requires st.place.Inside? && AllCounted(done) && Counted(Hunk(st.place.header, body))
    requires st.lines == Render(CleanItems(done)) && st.bytes == Total(st.lines) && hunk == [st.place.header] + CleanLines(body)
    ensures next.place == Outside && !next.bad && PlaceOk(Outside) && AllCounted(more)
    ensures next.lines == Render(CleanItems(more)) && next.bytes == Total(next.lines)
    ensures Behind(done, Before(Hunk(st.place.header, body), later)) == Behind(more, later)
  {
    hide Render, CleanItems, AllCounted, Total, Before, Behind, CleanLines, Counted, CleanItem, ItemLines;
    ghost var item := Hunk(st.place.header, body);
    var h := FlushHunk(hunk, st.place.header, body);
    MoreDone(done, item, later);
    more := done + [item];
    TotalJoin(st.lines, h);
    var bytes := CountBytes(h, st.bytes);
    next := State(st.lines + h, bytes, [], Outside, false);
  }

  /** The loop that transfers a hunk. */
  method CountBytes(h: seq<Line>, start: nat) returns (bytes: nat)
    ensures bytes == start + Total(h)
  {
    bytes := start;
    for i := 0 to |h|
      invariant bytes == start + Total(h[..i])
    {
      assert h[..i + 1][..i] == h[..i];
      bytes := bytes + Length(h[i]);
    }
    assert h[..|h|] == h;
  }

  /** The lines of a finished hunk are those of the cleaned item. */
  method FlushHunk(hunk: seq<Line>, ghost header: Line, ghost body: seq<Line>) returns (h: seq<Line>)
    requires Counted(Hunk(header, body)) && hunk == [header] + CleanLines(body)
    ensures h == ItemLines(CleanItem(Hunk(header, body)))
  {
    assert hunk[1..] == CleanLines(body);
    CleanCounts(body);
    TrimCounts(CleanLines(body));
    h := FinishHunk(hunk);
  }

  /** The whole loop: an error exactly for files with a malformed hunk, and otherwise all items cleaned; the result is
      written exactly if it is shorter. */
  method CleanPatch(input: seq<Line>) returns (lines: seq<Line>, err: bool, write: bool)
    ensures err <==> Parse(Outside, input).None?
    ensures !err ==> AllCounted(Parse(Outside, input).value) && lines == Render(CleanItems(Parse(Outside, input).value))
    ensures write <==> !err && !KeepsTotal(input)
  {
    var st, inBytes := State([], 0, [], Outside, false), 0;
    ghost var done: seq<Item> := [];
    assert input[0..] == input && (Parse(Outside, input).Some? ==> [] + Parse(Outside, input).value == Parse(Outside, input).value);
    for n := 0 to |input|
      invariant Reached(input, st, done, input[n..])
      invariant !st.bad && inBytes == Total(input[..n])
    {
      assert input[n..] == [input[n]] + input[n + 1..] && input[..n + 1][..n] == input[..n];
      inBytes := inBytes + Length(input[n]);
      if st.place.Outside? {
        st, done := OutsideLine(input, st, done, input[n], input[n + 1..]);
      } else {
        st, done := HunkLine(input, st, done, input[n], input[n + 1..]);
      }
      if st.bad { return [], true, false; }
    }
    assert done + [] == done && input[..|input|] == input;
    lines, err := st.lines, st.place.Inside?;
    write := !err && inBytes != st.bytes;
    if !err { CleanedInVain(input); }
  }
}
