/** The text of a configuration file: kconfig_print_symbol and conf_write_symbol on one side, conf_read_simple and
    conf_set_sym_val on the other (scripts/config/confdata.c), with sym_string_valid (scripts/config/symbol.c). */
module ConfigFile {
  import opened Exprs
  import opened Configuration
  import opened Escaping

  const PREFIX := "CONFIG_"
  const NOT_SET := "is not set"

  // ---------- writing ----------

  function PrintSymbol(s: Symbol, value: string): string {
    if s.IsTri() && value != "" && value[0] == 'n' then "# " + PREFIX + s.name + " " + NOT_SET + "\n"
    else PREFIX + s.name + "=" + value + "\n"
  }

  /** conf_write_symbol, for a symbol with the given string value. */
  function Render(s: Symbol, value: string): string {
    if !Typed(s) then "" else PrintSymbol(s, if s.Type() == String then Escaped(value) else value)
  }

  function FileText(lines: seq<(Symbol, string)>): string {
    if lines == [] then "" else Render(lines[0].0, lines[0].1) + FileText(lines[1..])
  }

  // ---------- reading ----------

  /** strchr: the place of the first c, or the length if there is none. */
  function Index(s: string, c: char): (n: nat)
    ensures n <= |s| && (n < |s| ==> s[n] == c) && c !in s[..n]
  {
    if s == "" || s[0] == c then 0
    else
      var n := Index(s[1..], c);
      assert s[..n + 1] == [s[0]] + s[1..][..n];
      n + 1
  }

  predicate Digit(c: char) { '0' <= c <= '9' }

  predicate HexDigit(c: char) { Digit(c) || 'a' <= c <= 'f' || 'A' <= c <= 'F' }

  /** sym_string_valid for int: an optional minus and digits, the first of which is not an idle zero. */
  predicate ValidInt(s: string) {
    var d := if s != "" && s[0] == '-' then s[1..] else s;
    d != "" && (forall c :: c in d ==> Digit(c)) && (d[0] == '0' ==> |d| == 1)
  }

  /** sym_string_valid for hex. */
  predicate ValidHex(s: string) {
    var d := if |s| >= 2 && s[0] == '0' && (s[1] == 'x' || s[1] == 'X') then s[2..] else s;
    d != "" && forall c :: c in d ==> HexDigit(c)
  }

  /** conf_set_sym_val for the user values. */
  function SetSymVal(user: UserValues, s: Symbol, p: string): UserValues {
    match s.Type()
    case TristateType =>
      if p != "" && p[0] == 'm' then user[s := Val(MOD, "")] else SetBoolean(user, s, p)
    case Boolean => SetBoolean(user, s, p)
    case String =>
      if p == "" || p[0] != '"' then user
      else (match Unescape(p[1..])
        case None => user
        case Some(t) => user[s := Val(NO, t)])
    case Int => if ValidInt(p) then user[s := Val(NO, p)] else user
    case Hex => if ValidHex(p) then user[s := Val(NO, p)] else user
    case _ => user
  }

  function SetBoolean(user: UserValues, s: Symbol, p: string): UserValues {
    if p != "" && p[0] == 'y' then user[s := Val(YES, "")]
    else if p != "" && p[0] == 'n' then user[s := Val(NO, "")]
    else user
  }

  /** The text of a value up to the end of its line, without the carriage return before it. */
  function CutLine(p: string): string {
    var n := Index(p, '\n');
    if n < |p| && n > 0 && p[n - 1] == '\r' then p[..n - 1] else p[..n]
  }

  /** One line of conf_read_simple; find is the symbol table. */
  function ReadLine(find: map<string, Symbol>, user: UserValues, line: string): UserValues {
    if line != "" && line[0] == '#' then
      if !(|line| >= 9 && line[2..9] == PREFIX) then user
      else
        var rest := line[9..];
        var n := Index(rest, ' ');
        if n == |rest| || !(NOT_SET <= rest[n + 1..]) || rest[..n] !in find then user
        else
          var s := find[rest[..n]];
          if s.IsTri() then user[s := Val(NO, "")] else user
    else if PREFIX <= line then
      var rest := line[7..];
      var n := Index(rest, '=');
      if n == |rest| || rest[..n] !in find then user
      else SetSymVal(user, find[rest[..n]], CutLine(rest[n + 1..]))
    else user
  }

  /** The loop of conf_read_simple over the lines. */
  function ReadFile(find: map<string, Symbol>, user: UserValues, text: string): UserValues
    decreases |text|
  {
    if text == "" then user
    else
      var n := Index(text, '\n');
      if n == |text| then ReadLine(find, user, text)
      else ReadFile(find, ReadLine(find, user, text[..n + 1]), text[n + 1..])
  }

  // ---------- what can be read ----------

  /** A user value of the kind that the type of its symbol calls for: m for tristate symbols only, a legal number, or a text. */
  predicate LegalUser(s: Symbol, v: Val) {
    match s.Type()
    case TristateType => v.text == ""
    case Boolean => v.text == "" && v.tri != MOD
    case String => v.tri == NO
    case Int => v.tri == NO && ValidInt(v.text)
    case Hex => v.tri == NO && ValidHex(v.text)
    case _ => false
  }

  predicate AllLegal(user: UserValues) { forall s :: s in user ==> LegalUser(s, user[s]) }

  /** The user value of s is new in r. */
  predicate NewIn(r: UserValues, user: UserValues, s: Symbol) { s in r && (s !in user || user[s] != r[s]) }

  /** A line changes at most one symbol, one of the table, and gives it a value of its kind. */
  lemma LineSetsOne(find: map<string, Symbol>, user: UserValues, line: string)
    ensures var r := ReadLine(find, user, line);
      && r.Keys >= user.Keys
      && (forall s :: NewIn(r, user, s) ==> s in find.Values && LegalUser(s, r[s]))
      && (forall s, t :: NewIn(r, user, s) && NewIn(r, user, t) ==> s == t)
  {
    hide Index, CutLine, SetSymVal;
    if !(line != "" && line[0] == '#') && PREFIX <= line {
      var rest := line[7..];
      var n := Index(rest, '=');
      if n < |rest| && rest[..n] in find { ValueSetsOne(user, find[rest[..n]], CutLine(rest[n + 1..])); }
    }
  }

  lemma ValueSetsOne(user: UserValues, s: Symbol, p: string)
    ensures var r := SetSymVal(user, s, p);
      && r.Keys >= user.Keys && forall t :: NewIn(r, user, t) ==> t == s && LegalUser(s, r[s])
  {
    hide Unescape, ValidInt, ValidHex;
  }

  /** Whatever a file holds, reading it leaves only values that are legal for their symbols. */
  lemma {:induction false} OnlyLegalIsRead(find: map<string, Symbol>, user: UserValues, text: string)
    requires AllLegal(user)
    ensures AllLegal(ReadFile(find, user, text))
    decreases |text|
  {
    hide ReadLine, LegalUser;
    if text != "" {
      var n := Index(text, '\n');
      var line := if n == |text| then text else text[..n + 1];
      LineSetsOne(find, user, line);
      if n < |text| { OnlyLegalIsRead(find, ReadLine(find, user, line), text[n + 1..]); }
    }
  }

  predicate AllDigits(d: string) { forall i :: 0 <= i < |d| ==> Digit(d[i]) }

  /** The number that digits stand for. */
  function Decimal(d: string): nat
    requires AllDigits(d)
  {
    if d == "" then 0 else 10 * Decimal(d[..|d| - 1]) + (d[|d| - 1] - '0') as nat
  }

  function Digits(n: nat): string {
    (if n < 10 then "" else Digits(n / 10)) + [(n % 10) as char + '0']
  }

  /** Digits without an idle zero in front. */
  predicate Canonical(d: string) { d != "" && AllDigits(d) && (d[0] == '0' ==> |d| == 1) }

  lemma {:induction false} SameDecimal(s: string, t: string)
    requires Canonical(s) && Canonical(t) && Decimal(s) == Decimal(t)
    ensures s == t
    decreases |s|
  {
    var f, g := s[..|s| - 1], t[..|t| - 1];
    if f != "" { LeadingDigit(f); }
    if g != "" { LeadingDigit(g); }
    assert s == f + [s[|s| - 1]] && t == g + [t[|t| - 1]];
    if f != "" && g != "" { SameDecimal(f, g); }
  }

  lemma {:induction false} LeadingDigit(d: string)
    requires d != "" && AllDigits(d) && d[0] != '0'
    ensures Decimal(d) > 0
  {
    if |d| > 1 { LeadingDigit(d[..|d| - 1]); } else { assert d[..0] == "" && Decimal(d[..0]) == 0; }
  }

  lemma {:induction false} DigitsDecimal(n: nat)
    ensures Canonical(Digits(n)) && (n > 0 ==> Digits(n)[0] != '0') && Decimal(Digits(n)) == n
  {
    var d := Digits(n);
    if n >= 10 { DigitsDecimal(n / 10); }
    assert d[..|d| - 1] == if n < 10 then "" else Digits(n / 10);
  }

  lemma ValidCanonical(s: string)
    ensures ValidInt(s) <==> Canonical(if s != "" && s[0] == '-' then s[1..] else s)
  {
    var d := if s != "" && s[0] == '-' then s[1..] else s;
    assert (forall c :: c in d ==> Digit(c)) <==> AllDigits(d);
  }

  /** The legal integers are the numbers in their one decimal form, each with and without a minus. */
  lemma ValidIntExactly(s: string)
    ensures ValidInt(s) <==> exists n: nat :: s == Digits(n) || s == ['-'] + Digits(n)
  {
    hide ValidInt, Decimal, Digits;
    ValidCanonical(s);
    var d := if s != "" && s[0] == '-' then s[1..] else s;
    if n: nat :| s == Digits(n) || s == ['-'] + Digits(n) {
      DigitsDecimal(n);
      assert d == Digits(n);
    }
    if ValidInt(s) {
      DigitsDecimal(Decimal(d));
      SameDecimal(d, Digits(Decimal(d)));
      assert s == d || s == ['-'] + d;
    }
  }

  /** A hexadecimal number is hexadecimal digits, at least one, behind 0x, 0X or nothing. */
  lemma ValidHexExactly(s: string)
    ensures ValidHex(s) <==> exists d :: d != "" && (s == d || s == "0x" + d || s == "0X" + d)
                                         && forall i :: 0 <= i < |d| ==> HexDigit(d[i])
  {
    if ValidHex(s) {
      var d := if |s| >= 2 && s[0] == '0' && (s[1] == 'x' || s[1] == 'X') then s[2..] else s;
      assert forall i :: 0 <= i < |d| ==> d[i] in d;
      assert s == d || s == "0x" + d || s == "0X" + d;
    }
    if d :| d != "" && (s == d || s == "0x" + d || s == "0X" + d) && forall i :: 0 <= i < |d| ==> HexDigit(d[i]) {
      if s == d { assert |s| > 1 ==> HexDigit(s[1]); } else { assert s[2..] == d; }
    }
  }

  // ---------- round trip ----------

  predicate NameChar(c: char) { 'a' <= c <= 'z' || 'A' <= c <= 'Z' || Digit(c) || c == '_' }

  predicate LegalName(n: string) { forall i :: 0 <= i < |n| ==> NameChar(n[i]) }

  /** A value that a symbol of the type can have after evaluation. */
  predicate LegalValue(s: Symbol, value: string) {
    match s.Type()
    case Boolean => value == "y" || value == "n"
    case TristateType => value == "y" || value == "m" || value == "n"
    case Int => ValidInt(value)
    case Hex => ValidHex(value)
    case String => '\n' !in value
    case _ => false
  }

  /** What is printed for the value is one line.  It need not be a legal value: a number that shows without having
      been given a value is printed as an empty text. */
  predicate OneLine(s: Symbol, value: string) {
    match s.Type()
    case Int | Hex => '\n' !in value && (value != "" ==> value[|value| - 1] != '\r')
    case _ => LegalValue(s, value)
  }

  predicate LegalLine(find: map<string, Symbol>, line: (Symbol, string)) {
    line.0.Config? && LegalName(line.0.name) && line.0.name in find && find[line.0.name] == line.0 && OneLine(line.0, line.1)
  }

  /** The user value that a string value stands for. */
  function Saved(s: Symbol, value: string): Val {
    if s.IsTri() then Val(if value == "y" then YES else if value == "m" then MOD else NO, "") else Val(NO, value)
  }

  /** What a line leaves: a legal value becomes the user value, another one is refused. */
  function Store(user: UserValues, s: Symbol, value: string): UserValues {
    if LegalValue(s, value) then user[s := Saved(s, value)] else user
  }

  function SavedAll(user: UserValues, lines: seq<(Symbol, string)>): UserValues
    decreases |lines|
  {
    if lines == [] then user else SavedAll(Store(user, lines[0].0, lines[0].1), lines[1..])
  }

  lemma {:induction false} IndexOf(a: string, c: char, b: string)
    requires c !in a
    ensures Index(a + [c] + b, c) == |a|
  {
    var s := a + [c] + b;
    if a != "" {
      IndexOf(a[1..], c, b);
      assert s[1..] == a[1..] + [c] + b;
    }
  }

  lemma {:induction false} BodyOneLine(s: string)
    requires '\n' !in s
    ensures '\n' !in Body(s)
  {
    if s != "" { BodyOneLine(s[1..]); }
  }

  lemma NumberChars(value: string)
    requires ValidInt(value) || ValidHex(value)
    ensures value != "" && '\n' !in value && value[|value| - 1] != '\r'
  {
    if ValidInt(value) {
      ValidCanonical(value);
      DigitsAtEnd(value, if value[0] == '-' then value[1..] else value);
    } else {
      ValidHexExactly(value);
      var d :| d != "" && (value == d || value == "0x" + d || value == "0X" + d) && forall i :: 0 <= i < |d| ==> HexDigit(d[i]);
      DigitsAtEnd(value, d);
    }
  }

  lemma DigitsAtEnd(value: string, d: string)
    requires d != "" && (value == d || value == "-" + d || value == "0x" + d || value == "0X" + d)
    requires forall i :: 0 <= i < |d| ==> HexDigit(d[i])
    ensures value != "" && '\n' !in value && value[|value| - 1] != '\r'
  {
    assert value[|value| - 1] == d[|d| - 1];
  }

  lemma LegalIsOneLine(s: Symbol, text: string)
    requires LegalValue(s, text)
    ensures OneLine(s, text)
  {
    if s.Type() == Int || s.Type() == Hex { NumberChars(text); }
  }

  lemma StringRoundTrip(user: UserValues, s: Symbol, value: string)
    requires s.Type() == String && '\n' !in value
    ensures var printed := Escaped(value);
      && '\n' !in printed && (printed != "" ==> printed[|printed| - 1] != '\r')
      && SetSymVal(user, s, printed) == user[s := Val(NO, value)]
  {
    hide Body, Unescape;
    BodyOneLine(value);
    EscapeRoundTrip(value, "");
    assert Escaped(value)[1..] == Body(value) + ['"'] + "";
  }

  /** What is printed for a value is one line, and reading the value back stores it if it is legal. */
  lemma ValueRoundTrip(user: UserValues, s: Symbol, value: string)
    requires OneLine(s, value)
    ensures var printed := if s.Type() == String then Escaped(value) else value;
      && '\n' !in printed && (printed != "" ==> printed[|printed| - 1] != '\r')
      && SetSymVal(user, s, printed) == Store(user, s, value)
  {
    hide Escaped, Body, Unescape;
    match s.Type()
    case String => StringRoundTrip(user, s, value);
    case Int =>
    case Hex =>
    case Boolean => TriChars();
    case TristateType => TriChars();
  }

  lemma TriChars()
    ensures "y"[0] == 'y' && "m"[0] == 'm' && "n"[0] == 'n'
  {
  }

  lemma NameHasNo(n: string, c: char)
    requires LegalName(n) && !NameChar(c)
    ensures c !in n
  {
  }

  /** A line is cut after its prefix and at the first c behind it. */
  lemma CutAt(prefix: string, name: string, c: char, tail: string)
    requires c !in name
    ensures var line := prefix + name + [c] + tail;
      && line[..|prefix|] == prefix
      && var rest := line[|prefix|..];
         Index(rest, c) == |name| && |name| < |rest| && rest[..|name|] == name && rest[|name| + 1..] == tail
  {
    var line := prefix + name + [c] + tail;
    assert line[|prefix|..] == name + [c] + tail;
    IndexOf(name, c, tail);
  }

  lemma CutPrinted(printed: string)
    requires '\n' !in printed && (printed != "" ==> printed[|printed| - 1] != '\r')
    ensures CutLine(printed + "\n") == printed
  {
    IndexOf(printed, '\n', "");
    assert printed + "\n" == printed + ['\n'] + "";
    assert (printed + "\n")[..|printed|] == printed;
  }

  /** The branch of conf_read_simple for assignments. */
  lemma ReadAssigned(find: map<string, Symbol>, user: UserValues, line: string)
    requires PREFIX <= line
    ensures var rest := line[7..];
      var n := Index(rest, '=');
      ReadLine(find, user, line)
      == if n == |rest| || rest[..n] !in find then user else SetSymVal(user, find[rest[..n]], CutLine(rest[n + 1..]))
  {
    hide SetSymVal, CutLine, Index;
    assert line[0] == PREFIX[0] == 'C';
  }

  /** A line "CONFIG_name=printed". */
  lemma ReadAssignment(find: map<string, Symbol>, user: UserValues, s: Symbol, printed: string)
    requires s.Config? && LegalName(s.name) && s.name in find && find[s.name] == s
    requires '\n' !in printed && (printed != "" ==> printed[|printed| - 1] != '\r')
    ensures ReadLine(find, user, PREFIX + s.name + "=" + printed + "\n") == SetSymVal(user, s, printed)
  {
    hide SetSymVal, CutLine, Index, ReadLine, LegalName;
    var line := PREFIX + s.name + "=" + printed + "\n";
    assert line == PREFIX + s.name + ['='] + (printed + "\n");
    NameHasNo(s.name, '=');
    CutAt(PREFIX, s.name, '=', printed + "\n");
    CutPrinted(printed);
    ReadAssigned(find, user, line);
  }

  /** The branch of conf_read_simple for comments. */
  lemma ReadComment(find: map<string, Symbol>, user: UserValues, line: string)
    requires |line| >= 9 && line[0] == '#' && line[2..9] == PREFIX
    ensures var rest := line[9..];
      var n := Index(rest, ' ');
      ReadLine(find, user, line)
      == if n < |rest| && NOT_SET <= rest[n + 1..] && rest[..n] in find && find[rest[..n]].IsTri()
         then user[find[rest[..n]] := Val(NO, "")] else user
  {
    hide SetSymVal, CutLine, Index;
  }

  /** A line "# CONFIG_name is not set". */
  lemma ReadNotSet(find: map<string, Symbol>, user: UserValues, s: Symbol)
    requires s.Config? && LegalName(s.name) && s.name in find && find[s.name] == s && s.IsTri()
    ensures ReadLine(find, user, "# " + PREFIX + s.name + " " + NOT_SET + "\n") == user[s := Val(NO, "")]
  {
    hide Index, ReadLine, LegalName;
    var line := "# " + PREFIX + s.name + " " + NOT_SET + "\n";
    assert line == ("# " + PREFIX) + s.name + [' '] + (NOT_SET + "\n");
    NameHasNo(s.name, ' ');
    CutAt("# " + PREFIX, s.name, ' ', NOT_SET + "\n");
    assert line[2..9] == line[..9][2..] == PREFIX;
    ReadComment(find, user, line);
  }

  /** What is printed for a symbol that is not n. */
  lemma RenderAssigned(s: Symbol, value: string)
    requires Typed(s) && (s.IsTri() ==> value != "" && value[0] != 'n')
    ensures Render(s, value) == PREFIX + s.name + "=" + (if s.Type() == String then Escaped(value) else value) + "\n"
  {
    hide Escaped;
  }

  /** Reading a printed line stores exactly the printed value; the line ends at its only newline. */
  lemma LineRoundTrip(find: map<string, Symbol>, user: UserValues, s: Symbol, value: string)
    requires LegalLine(find, (s, value))
    ensures var line := Render(s, value);
      && |line| > 0 && line[|line| - 1] == '\n' && '\n' !in line[..|line| - 1]
      && ReadLine(find, user, line) == Store(user, s, value)
  {
    hide ReadLine, Escaped, SetSymVal;
    var line := Render(s, value);
    TriChars();
    NameHasNo(s.name, '\n');
    if s.IsTri() && value == "n" {
      ReadNotSet(find, user, s);
      assert line[..|line| - 1] == "# " + PREFIX + s.name + " " + NOT_SET;
    } else {
      var printed := if s.Type() == String then Escaped(value) else value;
      ValueRoundTrip(user, s, value);
      RenderAssigned(s, value);
      ReadAssignment(find, user, s, printed);
      assert line[..|line| - 1] == PREFIX + s.name + "=" + printed;
    }
  }

  /** Reading a file back gives every printed symbol exactly its printed value, where that is legal. */
  lemma {:induction false} FileRoundTrip(find: map<string, Symbol>, user: UserValues, lines: seq<(Symbol, string)>)
    requires forall i :: 0 <= i < |lines| ==> LegalLine(find, lines[i])
    ensures ReadFile(find, user, FileText(lines)) == SavedAll(user, lines)
    decreases |lines|
  {
    if lines != [] {
      hide ReadLine, Render, Store, LegalLine;
      var line := Render(lines[0].0, lines[0].1);
      var text := FileText(lines);
      LineRoundTrip(find, user, lines[0].0, lines[0].1);
      var front := line[..|line| - 1];
      IndexOf(front, '\n', FileText(lines[1..]));
      assert text == front + ['\n'] + FileText(lines[1..]);
      assert text[..|line|] == line && text[|line|..] == FileText(lines[1..]);
      FileRoundTrip(find, Store(user, lines[0].0, lines[0].1), lines[1..]);
    }
  }

  /** With distinct symbols, that is: exactly the symbols printed with a legal value get user values, and these. */
  lemma {:induction false} SavedAllValues(user: UserValues, lines: seq<(Symbol, string)>)
    requires DifferentSymbols(lines)
    ensures forall i :: 0 <= i < |lines| && LegalValue(lines[i].0, lines[i].1) ==>
              lines[i].0 in SavedAll(user, lines) && SavedAll(user, lines)[lines[i].0] == Saved(lines[i].0, lines[i].1)
    ensures forall s :: (forall i :: 0 <= i < |lines| && lines[i].0 == s ==> !LegalValue(s, lines[i].1)) ==>
              SameAt(SavedAll(user, lines), user, s)
    decreases |lines|
  {
    hide LegalValue, Saved;
    if lines != [] {
      var next := Store(user, lines[0].0, lines[0].1);
      var rest := lines[1..];
      SavedAllValues(next, rest);
      assert forall i :: 0 <= i < |rest| ==> rest[i] == lines[i + 1];
      forall i | 0 <= i < |lines| && LegalValue(lines[i].0, lines[i].1)
        ensures lines[i].0 in SavedAll(user, lines) && SavedAll(user, lines)[lines[i].0] == Saved(lines[i].0, lines[i].1)
      {
        if i > 0 {
          assert rest[i - 1] == lines[i];
        } else {
          assert SameAt(SavedAll(next, rest), next, lines[0].0);
        }
      }
      forall s | forall i :: 0 <= i < |lines| && lines[i].0 == s ==> !LegalValue(s, lines[i].1)
        ensures SameAt(SavedAll(user, lines), user, s)
      {
        assert SameAt(SavedAll(next, rest), next, s);
        assert lines[0].0 == s ==> !LegalValue(s, lines[0].1);
      }
    }
  }

  // ---------- lines that end in carriage return and newline ----------

  /** The text with a carriage return before every newline. */
  function WithReturns(text: string): string {
    if text == "" then "" else (if text[0] == '\n' then "\r\n" else [text[0]]) + WithReturns(text[1..])
  }

  lemma {:induction false} FirstIndexOf(a: string, b: string, c: char)
    requires c in a
    ensures Index(a, c) < |a| && Index(a + b, c) == Index(a, c)
  {
    if a[0] != c {
      assert c in a[1..] by { var i :| 0 <= i < |a| && a[i] == c; assert a[1..][i - 1] == c; }
      assert (a + b)[1..] == a[1..] + b;
      FirstIndexOf(a[1..], b, c);
    }
  }

  lemma {:induction false} NoIndexOf(a: string, c: char)
    requires c !in a
    ensures Index(a, c) == |a|
  {
    if a != "" { NoIndexOf(a[1..], c); }
  }

  /** Cutting the end of a line off a value. */
  lemma CutReturn(q: string)
    requires '\r' !in q && '\n' !in q
    ensures CutLine(q + "\r\n") == q && CutLine(q + "\n") == q
  {
    IndexOf(q + "\r", '\n', "");
    assert q + "\r\n" == (q + "\r") + ['\n'] + "";
    assert (q + "\r\n")[|q|] == '\r' && (q + "\r\n")[..|q|] == q;
    CutPrinted(q);
  }

  /** An assignment with the given ending. */
  lemma AssignmentEnding(find: map<string, Symbol>, user: UserValues, l: string, ending: string)
    requires '\r' !in l && '\n' !in l && PREFIX <= l && ending in {"\n", "\r\n"}
    ensures ReadLine(find, user, l + ending)
            == if '=' !in l[7..] then user
               else var n := Index(l[7..], '=');
                 if l[7..][..n] !in find then user else SetSymVal(user, find[l[7..][..n]], l[7..][n + 1..])
  {
    hide SetSymVal, CutLine, Index;
    var line, rest := l + ending, l[7..];
    assert PREFIX <= line && line[7..] == rest + ending;
    ReadAssigned(find, user, line);
    if '=' in rest {
      FirstIndexOf(rest, ending, '=');
      var n := Index(rest, '=');
      assert (rest + ending)[..n] == rest[..n] && (rest + ending)[n + 1..] == rest[n + 1..] + ending;
      CutReturn(rest[n + 1..]);
    } else {
      NoIndexOf(rest + ending, '=');
    }
  }

  /** A comment line with the given ending. */
  lemma CommentEnding(find: map<string, Symbol>, user: UserValues, l: string, ending: string)
    requires |l| >= 9 && l[0] == '#' && l[2..9] == PREFIX && ending in {"\n", "\r\n"}
    ensures ReadLine(find, user, l + ending)
            == if ' ' !in l[9..] then user
               else var n := Index(l[9..], ' ');
                 if NOT_SET <= l[9..][n + 1..] && l[9..][..n] in find && find[l[9..][..n]].IsTri()
                 then user[find[l[9..][..n]] := Val(NO, "")] else user
  {
    hide Index;
    var line, rest := l + ending, l[9..];
    assert line[2..9] == PREFIX && line[9..] == rest + ending;
    ReadComment(find, user, line);
    if ' ' in rest {
      FirstIndexOf(rest, ending, ' ');
      var n := Index(rest, ' ');
      var tail := rest[n + 1..];
      assert (rest + ending)[..n] == rest[..n] && (rest + ending)[n + 1..] == tail + ending;
      PrefixStays(tail, ending);
    } else {
      NoIndexOf(rest + ending, ' ');
    }
  }

  lemma PrefixStays(tail: string, ending: string)
    requires ending in {"\n", "\r\n"}
    ensures NOT_SET <= tail + ending <==> NOT_SET <= tail
  {
    if |tail| < |NOT_SET| { assert (tail + ending)[|tail|] == ending[0]; }
  }

  /** Other lines say nothing. */
  lemma OtherEnding(find: map<string, Symbol>, user: UserValues, l: string, ending: string)
    requires ending in {"\n", "\r\n"} && !(PREFIX <= l) && !(|l| >= 9 && l[0] == '#' && l[2..9] == PREFIX)
    ensures ReadLine(find, user, l + ending) == user
  {
    hide SetSymVal, CutLine, Index;
    var line := l + ending;
    if 2 <= |l| < 9 <= |line| { assert line[2..9][|l| - 2] == line[|l|] == ending[0]; }
    if |l| < 7 <= |line| { assert line[|l|] == ending[0]; }
  }

  lemma LineEnding(find: map<string, Symbol>, user: UserValues, l: string)
    requires '\r' !in l && '\n' !in l
    ensures ReadLine(find, user, l + "\r\n") == ReadLine(find, user, l + "\n")
  {
    hide ReadLine, SetSymVal, Index;
    if PREFIX <= l {
      AssignmentEnding(find, user, l, "\n");
      AssignmentEnding(find, user, l, "\r\n");
    } else if |l| >= 9 && l[0] == '#' && l[2..9] == PREFIX {
      CommentEnding(find, user, l, "\n");
      CommentEnding(find, user, l, "\r\n");
    } else {
      OtherEnding(find, user, l, "\n");
      OtherEnding(find, user, l, "\r\n");
    }
  }

  lemma {:induction false} ReturnsSplit(l: string, rest: string)
    requires '\n' !in l
    ensures WithReturns(l + "\n" + rest) == l + "\r\n" + WithReturns(rest) && WithReturns(l) == l
  {
    if l != "" {
      ReturnsSplit(l[1..], rest);
      assert (l + "\n" + rest)[1..] == l[1..] + "\n" + rest;
    } else {
      assert ("\n" + rest)[1..] == rest;
    }
  }

  /** A file reads the same with either line ending. */
  lemma {:induction false} ReturnsReadAlike(find: map<string, Symbol>, user: UserValues, text: string)
    requires '\r' !in text
    ensures ReadFile(find, user, WithReturns(text)) == ReadFile(find, user, text)
    decreases |text|
  {
    hide ReadLine, Index;
    var n := Index(text, '\n');
    if n == |text| {
      assert text[..n] == text;
      ReturnsSplit(text, "");
    } else {
      var l, rest := text[..n], text[n + 1..];
      assert text == l + "\n" + rest && text[..n + 1] == l + "\n";
      ReturnsSplit(l, rest);
      LineEnding(find, user, l);
      FirstLine(find, user, l, "\r\n", WithReturns(rest));
      FirstLine(find, user, l, "\n", rest);
      ReturnsReadAlike(find, ReadLine(find, user, l + "\n"), rest);
    }
  }

  lemma FirstLine(find: map<string, Symbol>, user: UserValues, l: string, ending: string, rest: string)
    requires '\n' !in l && ending in {"\n", "\r\n"}
    ensures ReadFile(find, user, l + ending + rest) == ReadFile(find, ReadLine(find, user, l + ending), rest)
  {
    hide ReadLine, Index;
    var front := l + ending[..|ending| - 1];
    var text := l + ending + rest;
    assert text == front + ['\n'] + rest;
    IndexOf(front, '\n', rest);
    assert text[..|front| + 1] == l + ending && text[|front| + 1..] == rest;
  }
}
