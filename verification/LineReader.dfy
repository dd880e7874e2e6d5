/** add_byte, compat_getline and the line loop of conf_read_simple (scripts/config/confdata.c): a file is read line by
    line into a buffer that grows. Allocation does not fail. */
module LineReader {
  import opened Exprs
  import opened Configuration
  import opened ConfigFile

  const LINE_GROWTH := 16

  /** Where the line that holds position i ends, after its newline if it has one. */
  function LineEnd(text: string, i: nat): (r: nat)
    requires i <= |text|
    ensures i <= r <= |text| && (i < |text| ==> i < r)
    decreases |text| - i
  {
    if i == |text| then i else if text[i] == '\n' then i + 1 else LineEnd(text, i + 1)
  }

  lemma LineEndAtEnd(text: string)
    ensures LineEnd(text, |text|) == |text|
  {
  }

  /** One more byte of a line. */
  lemma LineGrows(text: string, start: nat, p: nat)
    requires start <= p < |text|
    ensures text[start..p + 1] == text[start..p] + [text[p]]
    ensures LineEnd(text, p) == if text[p] == '\n' then p + 1 else LineEnd(text, p + 1)
  {
  }

  class Reader {
    const text: string       // the file
    var pos: nat             // the next byte getc returns
    var line: array<char>    // *lineptr; its length is *n

    ghost predicate Valid()
      reads this
    {
      pos <= |text|
    }

    constructor (text: string)
      ensures this.text == text && pos == 0 && Valid() && fresh(line) && line.Length == 0
    {
      this.text, this.pos := text, 0;
      line := new char[0];
    }

    /** add_byte: put c at slen, doubling the buffer when it is full. */
    method AddByte(c: char, slen: nat)
      requires slen <= line.Length
      modifies this`line, line
      ensures line == old(line) || fresh(line)
      ensures line.Length == if slen < old(line.Length) then old(line.Length) else 2 * (slen + LINE_GROWTH)
      ensures line[..slen + 1] == old(line[..slen]) + [c]
    {
      var newSize := slen + 1;
      if newSize > line.Length {
        newSize := newSize + LINE_GROWTH - 1;
        newSize := newSize * 2;
        var was := line[..slen];
        var nline := new char[newSize](i => if 0 <= i < |was| then was[i] else '\0');
        assert nline[..slen] == was;
        line := nline;
      }
      line[slen] := c;
      assert line[..slen + 1] == line[..slen] + [c];
    }

    /** The NUL after a line. */
    method Terminate(slen: nat)
      requires slen <= line.Length
      modifies this`line, line
      ensures line == old(line) || fresh(line)
      ensures slen < line.Length && line[..slen] == old(line[..slen]) && line[slen] == '\0'
    {
      AddByte('\0', slen);
      assert line[..slen] == line[..slen + 1][..slen] && line[slen] == line[..slen + 1][slen];
    }

    /** compat_getline: the next line and a NUL after it, or -1 at the end of the file. */
    method GetLine() returns (len: int)
      requires Valid()
      modifies this, line
      ensures Valid() && (line == old(line) || fresh(line))
      ensures old(pos) == |text| <==> len == -1
      ensures old(pos) == |text| ==> pos == |text|
      ensures pos == LineEnd(text, old(pos))
      ensures old(pos) < |text| ==>
                0 < len < line.Length && pos == old(pos) + len && line[..len] == text[old(pos)..pos] && line[len] == '\0'
    {
      hide LineEnd;
      var slen: nat := 0;
      LineEndAtEnd(text);
      while true
        invariant Valid() && (line == old(line) || fresh(line)) && pos == old(pos) + slen
        invariant slen <= line.Length && line[..slen] == text[old(pos)..pos] && LineEnd(text, pos) == LineEnd(text, old(pos))
        decreases |text| - pos
      {
        if pos == |text| {
          Terminate(slen);
          return if slen == 0 then -1 else slen;
        }
        LineGrows(text, old(pos), pos);
        var c := text[pos];
        pos := pos + 1;
        AddByte(c, slen);
        slen := slen + 1;
        if c == '\n' {
          Terminate(slen);
          return slen;
        }
      }
    }
  }

  lemma {:induction false} LineEndIndex(text: string, start: nat, k: nat)
    requires start + k <= |text| && '\n' !in text[start..start + k]
    ensures var n := Index(text[start..], '\n');
      LineEnd(text, start + k) == if start + n == |text| then |text| else start + n + 1
    decreases |text| - start - k
  {
    var rest := text[start..];
    var n := Index(rest, '\n');
    assert rest[..k] == text[start..start + k];
    if start + k < |text| && text[start + k] != '\n' {
      assert text[start..start + k + 1] == text[start..start + k] + [text[start + k]];
      LineEndIndex(text, start, k + 1);
    }
  }

  /** Taking the lines from position i on one by one. */
  ghost function OverLines<T>(step: (T, string) -> T, t: T, text: string, i: nat): T
    requires i <= |text|
    decreases |text| - i
  {
    if i == |text| then t else OverLines(step, step(t, text[i..LineEnd(text, i)]), text, LineEnd(text, i))
  }

  /** The loop of conf_read_simple, around what it does with a line. */
  method EachLine<T>(text: string, step: (T, string) -> T, t: T) returns (r: T)
    ensures r == OverLines(step, t, text, 0)
  {
    r := t;
    var reader := new Reader(text);
    ghost var start := 0;
    var len := reader.GetLine();
    while len != -1
      invariant reader.Valid() && fresh(reader) && fresh(reader.line) && reader.text == text
      invariant 0 <= start <= reader.pos && reader.pos == LineEnd(text, start)
      invariant len == -1 <==> start == |text|
      invariant len != -1 ==> 0 < len < reader.line.Length && reader.line[..len] == text[start..reader.pos]
      invariant OverLines(step, r, text, start) == OverLines(step, t, text, 0)
      decreases |text| - start
    {
      r := step(r, reader.line[..len]);
      start := reader.pos;
      len := reader.GetLine();
    }
  }

  lemma ReadNext(find: map<string, Symbol>, user: UserValues, text: string, i: nat)
    requires i < |text|
    ensures var e := LineEnd(text, i);
      ReadFile(find, user, text[i..]) == ReadFile(find, ReadLine(find, user, text[i..e]), text[e..])
  {
    var e := LineEnd(text, i);
    LineEndIndex(text, i, 0);
    ReadFirst(find, user, text[i..], e - i);
    assert text[i..][..e - i] == text[i..e] && text[i..][e - i..] == text[e..];
  }

  lemma {:induction false} OverLinesReads(find: map<string, Symbol>, user: UserValues, text: string, i: nat)
    requires i <= |text|
    ensures OverLines((u: UserValues, line: string) => ReadLine(find, u, line), user, text, i) == ReadFile(find, user, text[i..])
    decreases |text| - i
  {
    if i < |text| {
      ReadNext(find, user, text, i);
      OverLinesReads(find, ReadLine(find, user, text[i..LineEnd(text, i)]), text, LineEnd(text, i));
    }
  }

  lemma ReadFirst(find: map<string, Symbol>, user: UserValues, text: string, n: nat)
    requires text != "" && n <= |text| && n == if Index(text, '\n') == |text| then |text| else Index(text, '\n') + 1
    ensures ReadFile(find, user, text) == ReadFile(find, ReadLine(find, user, text[..n]), text[n..])
  {
    hide ReadLine, Index;
    if n == |text| {
      assert text[..n] == text && text[n..] == "";
      assert ReadFile(find, ReadLine(find, user, text), "") == ReadLine(find, user, text);
    }
  }

  /** Reading a file through the buffer gives the same user values as reading its text. */
  method ReadConfig(text: string, find: map<string, Symbol>, user: UserValues) returns (r: UserValues)
    ensures r == ReadFile(find, user, text)
  {
    r := EachLine(text, (u: UserValues, line: string) => ReadLine(find, u, line), user);
    OverLinesReads(find, user, text, 0);
    assert text[0..] == text;
  }
}
