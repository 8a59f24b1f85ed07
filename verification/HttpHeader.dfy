/** Finding and splitting the response header (http/http.c). */
module HttpHeader {
  import opened Octets

  type Text = seq<Octet>

  const CRLF: Text := [13, 10]

  /** The end of a line at position i. */
  predicate Eol(s: Text, i: int) {
    0 <= i && i + 2 <= |s| && s[i] == 13 && s[i + 1] == 10
  }

  /** A line ends with carriage return and line feed. */
  lemma EolIsCrLf(s: Text, i: nat)
    requires i + 2 <= |s|
    ensures Eol(s, i) <==> s[i] as int == '\r' as int && s[i + 1] as int == '\n' as int
  {
  }

  /** The first end of a line from position i on, or the length of s. */
  function FirstEol(s: Text, i: nat): nat
    requires i <= |s|
    decreases |s| - i
  {
    if i + 2 > |s| then |s| else if Eol(s, i) then i else FirstEol(s, i + 1)
  }

  lemma {:induction false} FirstEolIs(s: Text, i: nat)
    requires i <= |s|
    ensures i <= FirstEol(s, i) <= |s| && (FirstEol(s, i) < |s| ==> Eol(s, FirstEol(s, i)))
    ensures forall q :: i <= q < FirstEol(s, i) ==> !Eol(s, q)
    decreases |s| - i
  {
    if i + 2 <= |s| && !Eol(s, i) {
      FirstEolIs(s, i + 1);
    }
  }

  /** The first end of a line is characterized by being one, with none before it. */
  lemma {:induction false} FirstEolUnique(s: Text, i: nat, p: nat)
    requires i <= p <= |s| && (p < |s| ==> Eol(s, p)) && forall q :: i <= q < p ==> !Eol(s, q)
    ensures p == FirstEol(s, i)
    decreases |s| - i
  {
    if i < p && i + 2 <= |s| {
      assert !Eol(s, i);
      FirstEolUnique(s, i + 1, p);
    }
  }

  /** findeol(&buf[bufpos], buflen - bufpos), as a position in the whole buffer. */
  method FindEol(buf: Text, bufpos: nat) returns (p: nat)
    requires bufpos <= |buf|
    ensures p == FirstEol(buf, bufpos)
  {
    p := bufpos;
    while p + 2 <= |buf|
      invariant bufpos <= p <= |buf| && FirstEol(buf, bufpos) == FirstEol(buf, p)
    {
      if Eol(buf, p) {
        return;
      }
      p := p + 1;
    }
    p := |buf|;
  }

  /** The lines from position i on, each without the end of line after it. */
  function LinesFrom(s: Text, i: nat): seq<Text>
    decreases |s| - i
  {
    if i >= |s| then []
    else
      FirstEolIs(s, i);
      [s[i..FirstEol(s, i)]] + LinesFrom(s, FirstEol(s, i) + 2)
  }

  /** Lines, each followed by the end of a line. */
  function Joined(lines: seq<Text>): Text {
    if lines == [] then [] else lines[0] + CRLF + Joined(lines[1..])
  }

  /** From position i on, the text consists of complete lines. */
  ghost predicate AtLine(s: Text, i: nat) {
    i == |s| || (i + 2 <= |s| && Eol(s, |s| - 2))
  }

  /** After a line there is another one, or the text ends. */
  lemma LineStep(s: Text, i: nat)
    requires AtLine(s, i) && i < |s|
    ensures i <= FirstEol(s, i) && FirstEol(s, i) + 2 <= |s| && AtLine(s, FirstEol(s, i) + 2) && Eol(s, FirstEol(s, i))
  {
    FirstEolIs(s, i);
    var p := FirstEol(s, i);
    assert p > |s| - 2 ==> !Eol(s, |s| - 2);
  }

  /** Joining the lines gives back the text. */
  lemma {:induction false} LinesJoin(s: Text, i: nat)
    requires i <= |s| && AtLine(s, i)
    ensures Joined(LinesFrom(s, i)) == s[i..]
    decreases |s| - i
  {
    if i < |s| {
      LineStep(s, i);
      var p := FirstEol(s, i);
      LinesJoin(s, p + 2);
      LinesCons(s, i, p);
      JoinLine(s, i, p, LinesFrom(s, p + 2));
    }
  }

  lemma LinesCons(s: Text, i: nat, p: nat)
    requires i < |s| && p == FirstEol(s, i) && i <= p <= |s|
    ensures LinesFrom(s, i) == [s[i..p]] + LinesFrom(s, p + 2)
  {
  }

  lemma JoinLine(s: Text, i: nat, p: nat, rest: seq<Text>)
    requires i <= p && Eol(s, p) && Joined(rest) == s[p + 2..]
    ensures Joined([s[i..p]] + rest) == s[i..]
  {
    JoinedCons(s[i..p], rest);
    LineText(s, i, p);
  }

  lemma JoinedCons(line: Text, rest: seq<Text>)
    ensures Joined([line] + rest) == line + CRLF + Joined(rest)
  {
    assert ([line] + rest)[1..] == rest;
  }

  /** A line and what follows its end. */
  lemma LineText(s: Text, i: nat, p: nat)
    requires i <= p && Eol(s, p)
    ensures s[i..] == s[i..p] + CRLF + s[p + 2..]
  {
    assert s[p..p + 2] == CRLF;
    assert s[i..] == s[i..p] + s[p..p + 2] + s[p + 2..];
  }

  /** No line contains the end of a line. */
  lemma {:induction false} LinesAreLines(s: Text, i: nat, k: nat, x: int)
    requires k < |LinesFrom(s, i)|
    ensures !Eol(LinesFrom(s, i)[k], x)
    decreases |s| - i
  {
    FirstEolIs(s, i);
    var p := FirstEol(s, i);
    if k == 0 {
      assert Eol(s[i..p], x) ==> Eol(s, i + x);
    } else {
      LinesAreLines(s, p + 2, k - 1, x);
    }
  }

  /** A header: it ends with an empty line. */
  ghost predicate IsHead(s: Text) {
    Eol(s, |s| - 4) && Eol(s, |s| - 2)
  }

  /** The last line of a header is empty, and there is one before it. */
  lemma {:induction false} HeadLines(s: Text, i: nat)
    requires IsHead(s) && i + 4 <= |s|
    ensures |LinesFrom(s, i)| >= 2 && LinesFrom(s, i)[|LinesFrom(s, i)| - 1] == []
    decreases |s| - i
  {
    FirstEolIs(s, i);
    var p := FirstEol(s, i);
    assert p > |s| - 4 ==> !Eol(s, |s| - 4);
    var rest := LinesFrom(s, p + 2);
    assert LinesFrom(s, i) == [s[i..p]] + rest;
    if p + 2 == |s| - 2 {
      EmptyLast(s);
    } else {
      assert p + 2 != |s| - 3;
      HeadLines(s, p + 2);
    }
    assert LinesFrom(s, i)[|rest|] == rest[|rest| - 1];
  }

  lemma EmptyLast(s: Text)
    requires Eol(s, |s| - 2)
    ensures LinesFrom(s, |s| - 2) == [[]]
  {
    var i := |s| - 2;
    assert FirstEol(s, i) == i && s[i..i] == [] && LinesFrom(s, i + 2) == [];
  }

  // ------------------------------------------------------------ the two passes

  /** Count header lines. */
  method CountLines(head: Text) returns (n: nat)
    requires AtLine(head, 0)
    ensures n == |LinesFrom(head, 0)|
  {
    n := 0;
    var bufpos := 0;
    while bufpos < |head|
      invariant bufpos <= |head| && AtLine(head, bufpos)
      invariant n + |LinesFrom(head, bufpos)| == |LinesFrom(head, 0)|
      decreases |head| - bufpos
    {
      LineStep(head, bufpos);
      var eol := FindEol(head, bufpos);
      n, bufpos := n + 1, eol + 2;
    }
  }

  /** sgetline(buf, buflen, bufpos, linelen): there is always a line to get. */
  method GetLine(head: Text, bufpos: nat) returns (line: Text, next: nat)
    requires bufpos < |head| && AtLine(head, bufpos)
    ensures bufpos < next <= |head| && AtLine(head, next)
    ensures LinesFrom(head, bufpos) == [line] + LinesFrom(head, next)
    ensures next == bufpos + |line| + 2
  {
    LineStep(head, bufpos);
    var eol := FindEol(head, bufpos);
    assert eol < |head|;
    LinesCons(head, bufpos, eol);
    line, next := head[bufpos..eol], eol + 2;
  }

  /** The parsing pass, and the sanity checks before and after it. */
  method SplitHead(head: Text) returns (status: Text, headers: seq<Text>)
    requires IsHead(head)
    ensures [status] + headers + [[]] == LinesFrom(head, 0)
    ensures Joined([status] + headers + [[]]) == head
  {
    HeadLines(head, 0);
    LinesJoin(head, 0);
    assert head[0..] == head;
    var nheaders := CountLines(head);
    assert nheaders >= 2;
    nheaders := nheaders - 2;
    var bufpos;
    status, bufpos := GetLine(head, 0);
    headers, bufpos := HeaderPass(head, bufpos, nheaders);
    ghost var all, rest := LinesFrom(head, 0), LinesFrom(head, bufpos);
    assert all[|all| - 1] == rest[0] && rest == [[]];
    LastLine(head, bufpos);
    assert bufpos + 2 == |head|;
  }

  /** Grab the header lines after the status line. */
  method HeaderPass(head: Text, start: nat, nheaders: nat) returns (headers: seq<Text>, bufpos: nat)
    requires start <= |head| && AtLine(head, start) && |LinesFrom(head, start)| == nheaders + 1
    ensures bufpos <= |head| && AtLine(head, bufpos) && |headers| == nheaders
    ensures LinesFrom(head, start) == headers + LinesFrom(head, bufpos)
  {
    headers, bufpos := [], start;
    var i := 0;
    while i < nheaders
      invariant i <= nheaders && bufpos <= |head| && AtLine(head, bufpos) && |headers| == i
      invariant LinesFrom(head, start) == headers + LinesFrom(head, bufpos)
    {
      var line;
      line, bufpos := GetLine(head, bufpos);
      headers, i := headers + [line], i + 1;
    }
  }

  lemma LastLine(s: Text, i: nat)
    requires i <= |s| && AtLine(s, i) && LinesFrom(s, i) == [[]]
    ensures i + 2 == |s|
  {
    LineStep(s, i);
    var p := FirstEol(s, i);
    var lines := LinesFrom(s, i);
    assert lines[0] == s[i..p] && lines[1..] == LinesFrom(s, p + 2);
    assert |s[i..p]| == 0;
  }

  // ------------------------------------------------------ names and values

  predicate IsOws(c: Octet) {
    c == 32 || c == 9
  }

  /** Optional white space is spaces and horizontal tabs; a colon ends the name of a field. */
  lemma SeparatorCodes(c: Octet)
    ensures IsOws(c) <==> c as int == ' ' as int || c as int == '\t' as int
    ensures c == 58 <==> c as int == ':' as int
  {
  }

  predicate AllOws(s: Text) {
    forall i :: 0 <= i < |s| ==> IsOws(s[i])
  }

  predicate Trimmed(s: Text) {
    s != [] ==> !IsOws(s[0]) && !IsOws(s[|s| - 1])
  }

  /** A header line taken apart: white space around the value, and at the end of the line, is not part of it. */
  datatype Field = Field(name: Text, colon: bool, lead: Text, value: Text, trail: Text)

  function FieldText(f: Field): Text {
    f.name + (if f.colon then [58] else []) + (f.lead + f.value + f.trail)
  }

  /** The name goes up to the first colon; without one it is all of the line. */
  ghost predicate FieldOk(f: Field) {
    && 58 !in f.name && AllOws(f.lead) && AllOws(f.trail) && Trimmed(f.value) && (f.value == [] ==> f.lead == [])
    && (!f.colon ==> f.value == [] && (f.name != [] ==> !IsOws(f.name[|f.name| - 1])))
  }

  /** White space, a trimmed value and white space can be told apart in one way only. */
  lemma TrimUnique(a: Text, v: Text, b: Text, a': Text, v': Text, b': Text)
    requires AllOws(a) && AllOws(b) && Trimmed(v) && (v == [] ==> a == []) && a + v + b == a' + v' + b'
    requires AllOws(a') && AllOws(b') && Trimmed(v') && (v' == [] ==> a' == [])
    ensures a == a' && v == v' && b == b'
  {
    var s := a + v + b;
    Bounds(a, v, b, s, 0, 0);
    Bounds(a', v', b', s, 0, 0);
    if v != [] {
      Bounds(a', v', b', s, |a|, |a| + |v| - 1);
    }
    if v' != [] {
      Bounds(a, v, b, s, |a'|, |a'| + |v'| - 1);
    }
    assert |a| == |a'| && |v| == |v'|;
    assert a == s[..|a|] && v == s[|a|..|a| + |v|] && b == s[|a| + |v|..];
    assert a' == s[..|a'|] && v' == s[|a'|..|a'| + |v'|] && b' == s[|a'| + |v'|..];
  }

  /** What is not white space lies within the value. */
  lemma Bounds(a: Text, v: Text, b: Text, s: Text, i: nat, j: nat)
    requires AllOws(a) && AllOws(b) && s == a + v + b
    ensures i < |s| && !IsOws(s[i]) ==> |a| <= i < |a| + |v|
    ensures j < |s| && !IsOws(s[j]) ==> |a| <= j < |a| + |v|
    ensures v != [] && Trimmed(v) ==> !IsOws(s[|a|]) && !IsOws(s[|a| + |v| - 1])
  {
  }

  /** There is only one way to take a line apart. */
  lemma FieldUnique(f: Field, g: Field)
    requires FieldOk(f) && FieldOk(g) && FieldText(f) == FieldText(g)
    ensures f == g
  {
    ColonAt(f);
    ColonAt(g);
    var s := FieldText(f);
    if f.colon {
      assert g.colon && |f.name| == |g.name|;
      assert f.name == s[..|f.name|] && g.name == s[..|g.name|];
      assert f.lead + f.value + f.trail == s[|f.name| + 1..] && g.lead + g.value + g.trail == s[|g.name| + 1..];
      TrimUnique(f.lead, f.value, f.trail, g.lead, g.value, g.trail);
    } else {
      NoColonUnique(f, g);
    }
  }

  /** Where the first colon is. */
  lemma ColonAt(f: Field)
    requires FieldOk(f)
    ensures f.colon ==> |f.name| < |FieldText(f)| && FieldText(f)[|f.name|] == 58 && 58 !in FieldText(f)[..|f.name|]
    ensures !f.colon ==> 58 !in FieldText(f)
  {
    assert f.colon ==> FieldText(f)[..|f.name|] == f.name;
  }

  lemma TailIsOws(name: Text, trail: Text, i: int)
    requires AllOws(trail)
    ensures |name| <= i < |name + trail| ==> IsOws((name + trail)[i])
    ensures name != [] ==> (name + trail)[|name| - 1] == name[|name| - 1]
  {
  }

  lemma NoColonUnique(f: Field, g: Field)
    requires FieldOk(f) && FieldOk(g) && FieldText(f) == FieldText(g) && !f.colon && !g.colon
    ensures f == g
  {
    var s := FieldText(f);
    assert s == f.name + f.trail && s == g.name + g.trail;
    TailIsOws(f.name, f.trail, |g.name| - 1);
    TailIsOws(g.name, g.trail, |f.name| - 1);
    assert |f.name| == |g.name|;
    assert f.name == s[..|f.name|] && g.name == s[..|g.name|];
    assert f.trail == s[|f.name|..] && g.trail == s[|g.name|..];
  }

  /** strlen(s) < linelen */
  method HasNul(line: Text) returns (r: bool)
    ensures r <==> 0 in line
  {
    for i := 0 to |line|
      invariant 0 !in line[..i]
    {
      if line[i] == 0 {
        return true;
      }
    }
    assert line[..|line|] == line;
    return false;
  }

  /** The length of a line without the white space at its end. */
  method TrimEnd(s: Text) returns (n: nat)
    ensures n <= |s| && AllOws(s[n..]) && (n > 0 ==> !IsOws(s[n - 1]))
  {
    n := |s|;
    while n > 0 && IsOws(s[n - 1])
      invariant n <= |s| && AllOws(s[n..])
    {
      n := n - 1;
    }
  }

  /** strcspn(s, ":") */
  method ColonPos(s: Text) returns (n: nat)
    ensures n <= |s| && 58 !in s[..n] && (n < |s| ==> s[n] == 58)
  {
    n := 0;
    while n < |s| && s[n] != 58
      invariant n <= |s| && 58 !in s[..n]
    {
      n := n + 1;
    }
  }

  /** strspn(s, " \t") */
  method LeadingOws(s: Text) returns (n: nat)
    ensures n <= |s| && AllOws(s[..n]) && (n < |s| ==> !IsOws(s[n]))
  {
    n := 0;
    while n < |s| && IsOws(s[n])
      invariant n <= |s| && AllOws(s[..n])
    {
      n := n + 1;
    }
  }

  /** Split a header line into name and value. */
  method ParseField(line: Text) returns (f: Field)
    ensures FieldOk(f) && FieldText(f) == line
  {
    var n := TrimEnd(line);
    var s := line[..n];
    var c := ColonPos(s);
    if c == n {
      f := Field(s, false, [], [], line[n..]);
      assert s[..c] == s;
      return;
    }
    var v := s[c + 1..];
    var k := LeadingOws(v);
    f := Field(s[..c], true, v[..k], v[k..], line[n..]);
    JoinField(line, n, c, k);
  }

  lemma JoinField(line: Text, n: nat, c: nat, k: nat)
    requires n <= |line| && c < n && line[c] == 58 && k <= n - c - 1
    ensures var v := line[..n][c + 1..];
      line == line[..n][..c] + [58] + (v[..k] + v[k..] + line[n..])
  {
    var v := line[..n][c + 1..];
    assert v[..k] + v[k..] == v;
    assert line == line[..n] + line[n..];
    assert line[..n] == line[..n][..c] + [58] + v;
  }

  /** The lines of a header without the empty one at its end: the status line and header lines. */
  ghost function HeadOf(head: Text): seq<Text>
    requires |LinesFrom(head, 0)| >= 2
  {
    LinesFrom(head, 0)[..|LinesFrom(head, 0)| - 1]
  }

  /** The header of a response: refused exactly if a line of it holds a NUL, and otherwise taken apart. */
  method ParseHead(head: Text) returns (ok: bool, status: Text, fields: seq<Field>)
    requires IsHead(head)
    ensures |LinesFrom(head, 0)| >= 2 && status == HeadOf(head)[0]
    ensures ok <==> forall i :: 0 <= i < |HeadOf(head)| ==> 0 !in HeadOf(head)[i]
    ensures ok ==> |fields| == |HeadOf(head)| - 1 && TakenApart(fields, HeadOf(head)[1..])
  {
    var headers;
    status, headers := SplitHead(head);
    assert HeadOf(head) == [status] + headers && HeadOf(head)[1..] == headers;
    fields := [];
    var nul := HasNul(status);
    ok := !nul;
    if ok {
      ok, fields := ParseFields(headers);
      assert forall i :: 0 <= i < |headers| ==> headers[i] == HeadOf(head)[i + 1];
      assert forall i :: 0 < i < |HeadOf(head)| ==> HeadOf(head)[i] == headers[i - 1];
    }
  }

  /** The fields are those of the first lines. */
  ghost predicate TakenApart(fields: seq<Field>, lines: seq<Text>) {
    |fields| <= |lines| && forall i :: 0 <= i < |fields| ==> FieldOk(fields[i]) && FieldText(fields[i]) == lines[i]
  }

  method ParseFields(lines: seq<Text>) returns (ok: bool, fields: seq<Field>)
    ensures ok <==> forall i :: 0 <= i < |lines| ==> 0 !in lines[i]
    ensures ok ==> |fields| == |lines| && TakenApart(fields, lines)
  {
    fields := [];
    for i := 0 to |lines|
      invariant |fields| == i && TakenApart(fields, lines) && forall j :: 0 <= j < i ==> 0 !in lines[j]
    {
      var nul := HasNul(lines[i]);
      if nul {
        return false, [];
      }
      var f := ParseField(lines[i]);
      fields := fields + [f];
    }
    ok := true;
  }
}
