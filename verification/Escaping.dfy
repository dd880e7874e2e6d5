/** Quoted strings: sym_escape_string_value (scripts/config/symbol.c) and the unescaping inside the line buffer in
    conf_set_sym_val (scripts/config/confdata.c). */
module Escaping {
  import opened Exprs

  predicate Special(c: char) { c == '"' || c == '\\' }

  /** s with a backslash before every quote and backslash. */
  function Body(s: string): string {
    if s == "" then "" else (if Special(s[0]) then ['\\', s[0]] else [s[0]]) + Body(s[1..])
  }

  function Escaped(s: string): string { ['"'] + Body(s) + ['"'] }

  /** What the reader makes of the text after the opening quote: everything up to the first quote that is not
      escaped, without the backslashes.  A backslash with nothing after it makes the text invalid. */
  function Unescape(s: string): Option<string> {
    if s == "" then None
    else if s[0] == '"' then Some("")
    else if s[0] == '\\' then
      if |s| == 1 then None
      else match Unescape(s[2..]) case None => None case Some(t) => Some([s[1]] + t)
    else match Unescape(s[1..]) case None => None case Some(t) => Some([s[0]] + t)
  }

  /** t with a backslash before the characters that are marked. */
  function Marked(t: string, marks: seq<bool>): string
    requires |marks| == |t|
  {
    if t == "" then "" else (if marks[0] then ['\\', t[0]] else [t[0]]) + Marked(t[1..], marks[1..])
  }

  /** The reader takes a backslash before any character for that character, and everything else as it is, up to the first
      quote without one. */
  lemma {:induction false} UnescapeMarked(t: string, marks: seq<bool>, after: string)
    requires |marks| == |t| && forall i :: 0 <= i < |t| && Special(t[i]) ==> marks[i]
    ensures Unescape(Marked(t, marks) + ['"'] + after) == Some(t)
  {
    if t == "" {
      assert Marked(t, marks) + ['"'] + after == ['"'] + after;
    } else {
      var rest := Marked(t[1..], marks[1..]) + ['"'] + after;
      UnescapeMarked(t[1..], marks[1..], after);
      assert t == [t[0]] + t[1..];
      if marks[0] {
        assert Marked(t, marks) + ['"'] + after == ['\\', t[0]] + rest;
        assert (['\\', t[0]] + rest)[2..] == rest;
      } else {
        assert Marked(t, marks) + ['"'] + after == [t[0]] + rest;
      }
    }
  }

  /** Without such a quote, or with a backslash as the last character before the end, there is no string. */
  lemma {:induction false} UnescapeUnclosed(t: string, marks: seq<bool>)
    requires |marks| == |t| && forall i :: 0 <= i < |t| && Special(t[i]) ==> marks[i]
    ensures Unescape(Marked(t, marks)) == None && Unescape(Marked(t, marks) + ['\\']) == None
  {
    if t == "" {
      assert Marked(t, marks) + ['\\'] == ['\\'];
    } else {
      var rest := Marked(t[1..], marks[1..]);
      UnescapeUnclosed(t[1..], marks[1..]);
      if marks[0] {
        assert Marked(t, marks) == ['\\', t[0]] + rest && (['\\', t[0]] + rest)[2..] == rest;
        assert Marked(t, marks) + ['\\'] == ['\\', t[0]] + (rest + ['\\']);
        assert (['\\', t[0]] + (rest + ['\\']))[2..] == rest + ['\\'];
      } else {
        assert Marked(t, marks) + ['\\'] == [t[0]] + (rest + ['\\']);
      }
    }
  }

  /** Unescaping undoes escaping, whatever follows the closing quote. */
  lemma {:induction false} EscapeRoundTrip(s: string, after: string)
    ensures Unescape(Body(s) + ['"'] + after) == Some(s)
  {
    if s == "" {
      assert Body(s) + ['"'] + after == ['"'] + after;
    } else {
      EscapeRoundTrip(s[1..], after);
      var rest := Body(s[1..]) + ['"'] + after;
      assert s == [s[0]] + s[1..];
      if Special(s[0]) {
        assert Body(s) + ['"'] + after == ['\\', s[0]] + rest;
        assert (['\\', s[0]] + rest)[2..] == rest;
      } else {
        assert Body(s) + ['"'] + after == [s[0]] + rest;
      }
    }
  }

  function CountSpecial(s: string): nat { if s == "" then 0 else (if Special(s[0]) then 1 else 0) + CountSpecial(s[1..]) }

  lemma {:induction false} BodyLength(s: string)
    ensures |Body(s)| == |s| + CountSpecial(s)
  {
    if s != "" { BodyLength(s[1..]); }
  }

  /** strcspn(s, "\"\\"): the length of the part before the first special character. */
  function Span(s: string): (n: nat)
    ensures n <= |s| && (n < |s| ==> Special(s[n]))
    ensures forall i :: 0 <= i < n ==> !Special(s[i])
  {
    if s == "" || Special(s[0]) then 0 else 1 + Span(s[1..])
  }

  /** The first character is special. */
  lemma BodySpecial(s: string)
    requires s != "" && Special(s[0])
    ensures Span(s) == 0 && Body(s) == ['\\', s[0]] + Body(s[1..]) && CountSpecial(s) == 1 + CountSpecial(s[1..])
  {
  }

  /** The first character is an ordinary one. */
  lemma BodyOrdinary(s: string)
    requires s != "" && !Special(s[0])
    ensures Span(s) == 1 + Span(s[1..]) && Body(s) == [s[0]] + Body(s[1..]) && CountSpecial(s) == CountSpecial(s[1..])
  {
  }

  /** The body of s: its ordinary characters up to n, and then rest. */
  lemma BodyJoin(s: string, n: nat, rest: string)
    requires n < |s|
    ensures [s[0]] + (s[1..][..n] + rest) == s[..n + 1] + rest
  {
    assert s[..n + 1] == [s[0]] + s[1..][..n];
  }

  lemma {:induction false} BodySpan(s: string)
    ensures var n := Span(s);
      && Body(s) == s[..n] + (if n < |s| then ['\\', s[n]] + Body(s[n + 1..]) else "")
      && CountSpecial(s) == if n < |s| then 1 + CountSpecial(s[n + 1..]) else 0
  {
    if s == "" {
    } else if Special(s[0]) {
      BodySpecial(s);
    } else {
      hide Body, Span, CountSpecial;
      var t := s[1..];
      var n := Span(t);
      BodySpan(t);
      BodyOrdinary(s);
      if n < |t| {
        assert t[n + 1..] == s[n + 2..] && t[n] == s[n + 1];
        BodyJoin(s, n, ['\\', t[n]] + Body(t[n + 1..]));
      } else {
        BodyJoin(s, n, "");
      }
    }
  }

  /** The first pass of sym_escape_string_value: the size of the buffer. */
  method BufferSize(s: string) returns (reslen: nat)
    ensures reslen == |Escaped(s)| + 1
  {
    reslen := |s| + 2 + 1;
    var p := 0;
    while true
      invariant p <= |s|
      invariant reslen + CountSpecial(s[p..]) == |s| + 3 + CountSpecial(s)
      decreases |s| - p
    {
      BodySpan(s[p..]);
      var l := Span(s[p..]);
      assert p + l < |s| ==> s[p..][l + 1..] == s[p + l + 1..];
      p := p + l;
      if p == |s| { break; }
      reslen := reslen + 1;
      p := p + 1;
    }
    BodyLength(s);
  }

  /** strncat: t is appended to the n characters in the buffer. */
  method Concat(res: array<char>, n: nat, t: string) returns (m: nat)
    requires n + |t| < res.Length
    modifies res
    ensures m == n + |t| && res[..m] == old(res[..n]) + t && res[m] == '\0'
  {
    forall i | 0 <= i < |t| { res[n + i] := t[i]; }
    m := n + |t|;
    res[m] := '\0';
  }

  /** The buffer holds done, and rest is still to be escaped. */
  predicate Partial(done: string, rest: string, s: string) { done + Body(rest) == ['"'] + Body(s) }

  /** One turn of the loop: the ordinary characters, then a backslash and the character that needs it. */
  lemma PartialStep(done: string, rest: string, s: string)
    requires Partial(done, rest, s)
    ensures var l := Span(rest);
      if l == |rest| then done + rest[..l] == ['"'] + Body(s)
      else
        && |done| + l + 2 < |Escaped(s)|
        && Partial(done + rest[..l] + ['\\'] + [rest[l]], rest[l + 1..], s)
  {
    var l := Span(rest);
    BodySpan(rest);
    assert |done| + |Body(rest)| == |done + Body(rest)|;
    if l < |rest| {
      var tail := Body(rest[l + 1..]);
      assert done + (rest[..l] + (['\\', rest[l]] + tail)) == done + rest[..l] + ['\\'] + [rest[l]] + tail;
    }
  }

  /** sym_escape_string_value: the second pass fills the buffer exactly, up to its terminating zero. */
  method EscapeString(s: string) returns (res: array<char>)
    ensures fresh(res) && res[..] == Escaped(s) + ['\0']
  {
    hide Body;
    var reslen := BufferSize(s);
    res := new char[reslen](_ => '\0');
    var n := Concat(res, 0, "\"");
    var p := 0;
    assert s[0..] == s;
    while true
      invariant p <= |s| && 0 <= n < res.Length
      invariant Partial(res[..n], s[p..], s)
      decreases |s| - p
    {
      ghost var before := res[..n];
      PartialStep(before, s[p..], s);
      var l := Span(s[p..]);
      Fits(before, s[p..][..l], s);
      n := Concat(res, n, s[p..][..l]);
      p := p + l;
      if p == |s| { break; }
      n := Concat(res, n, "\\");
      n := Concat(res, n, [s[p]]);
      p := p + 1;
    }
    n := Concat(res, n, "\"");
    assert res[..] == res[..n] + ['\0'];
  }

  lemma Fits(done: string, t: string, s: string)
    ensures done + t == ['"'] + Body(s) ==> |done| + |t| == |Escaped(s)| - 1
  {
    assert |done + t| == |done| + |t|;
  }

  /** memmove(p, p + 1, strlen(p)): the character at p is removed. */
  method RemoveAt(buf: array<char>, p: nat, len: nat)
    requires p < len < buf.Length && buf[len] == '\0'
    modifies buf
    ensures buf[..p] == old(buf[..p]) && buf[p..len - 1] == old(buf[p + 1..len]) && buf[len - 1] == '\0'
  {
    forall i | p <= i < len { buf[i] := buf[i + 1]; }
  }

  /** What is kept from the start of the text together with what is still to be read. */
  function Read(buf: seq<char>, start: nat, p: nat, len: nat): Option<string>
    requires start <= p <= len <= |buf|
  {
    Prepend(buf[start..p], Unescape(buf[p..len]))
  }

  lemma ReadSpan(buf: seq<char>, start: nat, p: nat, len: nat)
    requires start <= p <= len <= |buf|
    ensures var q := p + Span(buf[p..len]); q <= len && Read(buf, start, p, len) == Read(buf, start, q, len)
  {
    var rest := buf[p..len];
    var l := Span(rest);
    SpanUnescape(rest);
    PrependTwice(buf[start..p], rest[..l], Unescape(rest[l..]));
    assert rest[l..] == buf[p + l..len] && buf[start..p] + rest[..l] == buf[start..p + l];
  }

  /** Removing a backslash and passing over the character behind it. */
  lemma ReadEscaped(buf: seq<char>, after: seq<char>, start: nat, p: nat, len: nat)
    requires start <= p && p + 1 < len <= |buf| && len - 1 <= |after| && buf[p] == '\\'
    requires after[..p] == buf[..p] && after[p..len - 1] == buf[p + 1..len]
    ensures Read(buf, start, p, len) == Read(after, start, p + 1, len - 1)
  {
    var rest := buf[p..len];
    assert rest[0] == '\\' && rest[2..] == buf[p + 2..len];
    PrependTwice(buf[start..p], [rest[1]], Unescape(rest[2..]));
    assert after[p] == after[p..len - 1][0] == rest[1];
    assert after[start..p] == after[..p][start..] == buf[start..p];
    assert after[start..p + 1] == buf[start..p] + [rest[1]];
    assert after[p + 1..len - 1] == after[p..len - 1][1..] == rest[2..];
  }

  method DropBackslash(buf: array<char>, start: nat, p: nat, len: nat)
    requires start <= p && p + 1 < len < buf.Length && buf[len] == '\0' && buf[p] == '\\'
    modifies buf
    ensures Read(buf[..], start, p + 1, len - 1) == Read(old(buf[..]), start, p, len)
    ensures buf[..start] == old(buf[..start]) && buf[len - 1] == '\0'
  {
    ghost var before := buf[..];
    RemoveAt(buf, p, len);
    assert buf[..start] == buf[..p][..start] && before[..start] == before[..p][..start];
    assert buf[..][..p] == before[..p] && buf[..][p..len - 1] == before[p + 1..len];
    ReadEscaped(before, buf[..], start, p, len);
  }

  /** What is left at the end of the text, at a closing quote, and at a lone backslash. */
  lemma ReadLast(buf: seq<char>, start: nat, p: nat, len: nat)
    requires start <= p <= len <= |buf|
    ensures p == len ==> Read(buf, start, p, len) == None
    ensures p < len && buf[p] == '"' ==> Read(buf, start, p, len) == Some(buf[start..p])
    ensures p + 1 == len && buf[p] == '\\' ==> Read(buf, start, p, len) == None
  {
    assert p == len ==> buf[p..len] == "";
    assert p < len ==> buf[p..len][0] == buf[p];
    assert p + 1 == len ==> buf[p..len] == [buf[p]];
    assert buf[start..p] + "" == buf[start..p];
  }

  method SkipOrdinary(buf: array<char>, ghost start: nat, p: nat, len: nat) returns (q: nat)
    requires start <= p <= len <= buf.Length
    ensures p <= q <= len && Read(buf[..], start, q, len) == Read(buf[..], start, p, len)
    ensures q < len ==> Special(buf[q])
  {
    ghost var now := buf[..];
    assert now[p..len] == buf[p..len];
    ReadSpan(now, start, p, len);
    q := p + Span(buf[p..len]);
    assert q < len ==> buf[p..len][q - p] == buf[q];
  }

  /** The unescaping loop of conf_set_sym_val, inside the line buffer: the text starts at start and ends with the zero
      at end.  Each backslash is removed by moving the rest of the text down by one; the closing quote is
      overwritten with a zero, which is where the result ends. */
  method UnescapeInPlace(buf: array<char>, start: nat, end: nat) returns (stop: Option<nat>)
    requires start <= end < buf.Length && buf[end] == '\0'
    modifies buf
    ensures match Unescape(old(buf[start..end]))
            case None => stop == None
            case Some(t) => stop == Some(start + |t|) && start + |t| <= end && buf[start..start + |t|] == t && buf[start + |t|] == '\0'
    ensures buf[..start] == old(buf[..start])
  {
    hide Read, Unescape;
    var p, len := start, end;
    ReadFirst(buf[..], start, end);
    assert buf[..][start..end] == buf[start..end];
    ghost var goal := Unescape(buf[start..end]);
    while true
      invariant start <= p <= len <= end && buf[len] == '\0'
      invariant buf[..start] == old(buf[..start])
      invariant Read(buf[..], start, p, len) == goal
      decreases len - p
    {
      p := SkipOrdinary(buf, start, p, len);
      ReadLast(buf[..], start, p, len);
      if p == len { return None; }
      if buf[p] == '"' {
        assert buf[..][start..p] == buf[start..p];
        Terminate(buf, start, p);
        return Some(p);
      }
      if p + 1 == len {
        // the move copies the zero; the next search starts at the zero that was there before, and finds nothing
        RemoveAt(buf, p, len);
        assert buf[..start] == buf[..p][..start];
        return None;
      }
      DropBackslash(buf, start, p, len);
      p, len := p + 1, len - 1;
    }
  }

  lemma ReadFirst(buf: seq<char>, start: nat, end: nat)
    requires start <= end <= |buf|
    ensures Read(buf, start, start, end) == Unescape(buf[start..end])
  {
    PrependTwice("", "", Unescape(buf[start..end]));
    assert buf[start..start] == "";
  }

  method Terminate(buf: array<char>, ghost start: nat, p: nat)
    requires start <= p < buf.Length
    modifies buf
    ensures buf[p] == '\0' && buf[..start] == old(buf[..start]) && buf[start..p] == old(buf[start..p])
  {
    ghost var before := buf[..];
    buf[p] := '\0';
    assert before[..start] == old(buf[..start]) && before[start..p] == old(buf[start..p]);
    assert buf[..start] == before[..start] && buf[start..p] == before[start..p];
  }

  function Prepend(a: string, o: Option<string>): Option<string> { if o.None? then None else Some(a + o.value) }

  lemma PrependTwice(a: string, b: string, o: Option<string>)
    ensures Prepend(a, Prepend(b, o)) == Prepend(a + b, o)
    ensures Prepend("", o) == o
  {
    if o.Some? { assert a + (b + o.value) == a + b + o.value && "" + o.value == o.value; }
  }

  /** Ordinary characters pass unchanged. */
  lemma {:induction false} SpanUnescape(s: string)
    ensures var n := Span(s); Unescape(s) == Prepend(s[..n], Unescape(s[n..]))
  {
    if s != "" && !Special(s[0]) {
      SpanUnescape(s[1..]);
      var n := Span(s[1..]);
      assert s[1..][n..] == s[n + 1..] && s[..n + 1] == [s[0]] + s[1..][..n];
      PrependTwice([s[0]], s[1..][..n], Unescape(s[n + 1..]));
    } else {
      assert s[0..] == s;
      PrependTwice("", "", Unescape(s));
    }
  }
}
