/**
 Finding a member of a JSON object (util/json.c).

 A pointer into the buffer is described by the bytes from it to the end, so that
 the end pointer is the empty string; bytes are written as characters.
 */
module Json {
  import opened Machine

  type Bytes = string

  predicate IsWs(c: char) {
    c == '\t' || c == '\n' || c == '\r' || c == ' '
  }

  predicate IsNumChar(c: char) {
    c == '+' || c == '-' || '0' <= c <= '9' || c == '.' || c == 'e' || c == 'E'
  }

  // ------------------------------------------------------------- what is skipped

  function SkipWs(s: Bytes): (r: Bytes)
    ensures |r| <= |s| && (r != [] ==> !IsWs(r[0]))
  {
    if s != [] && IsWs(s[0]) then SkipWs(s[1..]) else s
  }

  function SkipLiteral(s: Bytes): (r: Bytes)
    ensures |r| <= |s| && (s != [] ==> |r| < |s|)
  {
    if |s| >= 5 && s[..5] == "false" then s[5..]
    else if |s| >= 4 && s[..4] == "null" then s[4..]
    else if |s| >= 4 && s[..4] == "true" then s[4..]
    else []
  }

  /** The loop of skip_string, after the opening quote. */
  function SkipStringTail(s: Bytes): (r: Bytes)
    ensures |r| <= |s|
  {
    if s == [] then []
    else if s[0] == '"' then s[1..]
    else if s[0] != '\\' then SkipStringTail(s[1..])
    else if |s| == 1 then []
    else if s[1] != 'u' then SkipStringTail(s[2..])
    else if |s| < 6 then s[2..]
    else SkipStringTail(s[6..])
  }

  function SkipString(s: Bytes): (r: Bytes)
    requires s != []
    ensures |r| < |s|
  {
    SkipStringTail(s[1..])
  }

  function SkipNumber(s: Bytes): (r: Bytes)
    ensures |r| <= |s| && (s != [] && IsNumChar(s[0]) ==> |r| < |s|)
  {
    if s != [] && IsNumChar(s[0]) then SkipNumber(s[1..]) else s
  }

  function SkipValue(s: Bytes): (r: Bytes)
    ensures |r| <= |s| && (s != [] ==> |r| < |s|)
    decreases |s|, 0
  {
    if s == [] then []
    else if s[0] == 'f' || s[0] == 'n' || s[0] == 't' then SkipLiteral(s)
    else if s[0] == '"' then SkipString(s)
    else if s[0] == '[' then
      var r := SkipWs(s[1..]);
      if r == [] then [] else if r[0] == ']' then r[1..] else SkipElements(r)
    else if s[0] == '{' then
      var r := SkipWs(s[1..]);
      if r == [] then [] else if r[0] == '}' then r[1..] else SkipMembers(r)
    else if IsNumChar(s[0]) then SkipNumber(s)
    else []
  }

  /** The loop of skip_array. */
  function SkipElements(s: Bytes): (r: Bytes)
    ensures |r| <= |s| && (s != [] ==> |r| < |s|)
    decreases |s|, 1
  {
    var v := SkipWs(SkipValue(s));
    if v == [] then []
    else if v[0] == ']' then v[1..]
    else if v[0] != ',' then []
    else SkipElements(SkipWs(v[1..]))
  }

  /** The loop of skip_object. */
  function SkipMembers(s: Bytes): (r: Bytes)
    ensures |r| <= |s| && (s != [] ==> |r| < |s|)
    decreases |s|, 1
  {
    if s == [] || s[0] != '"' then []
    else
      var c := SkipWs(SkipString(s));
      if c == [] || c[0] != ':' then []
      else
        var v := SkipWs(SkipValue(SkipWs(c[1..])));
        if v == [] then []
        else if v[0] == '}' then v[1..]
        else if v[0] != ',' then []
        else SkipMembers(SkipWs(v[1..]))
  }

  // -------------------------------------------------------------------- matching

  /** The character an escape stands for; None for an escape JSON does not have, \u aside. */
  function Unescape(c: char): (char, bool) {
    if c == '"' || c == '\\' || c == '/' then (c, true)
    else if c == 'b' then ('\U{08}', true)
    else if c == 'f' then ('\U{0C}', true)
    else if c == 'n' then ('\n', true)
    else if c == 'r' then ('\r', true)
    else if c == 't' then ('\t', true)
    else (c, false)
  }

  /** What C sees at the start of a string: its first character or the terminating NUL. */
  function First(name: string): char {
    if name == [] then '\0' else name[0]
  }

  function Rest(name: string): (r: string) {
    if name == [] then [] else name[1..]
  }

  /** match_str(buf, end, s, foundit), with the flag found so far. */
  function Match(s: Bytes, name: string, found: bool): (r: (Bytes, bool))
    ensures |r.0| <= |s|
    decreases |s|
  {
    if s == [] then ([], found)
    else if s[0] == '"' then (s[1..], found && name == [])
    else if s[0] != '\\' then Match(s[1..], Rest(name), found && s[0] == First(name))
    else if |s| == 1 then ([], found)
    else if s[1] == 'u' then
      if |s| < 6 then ([], found) else Match(s[6..], Rest(name), false)
    else
      var (c, ok) := Unescape(s[1]);
      if !ok then ([], false) else Match(s[2..], Rest(name), found && c == First(name))
  }

  /** The loop of json_find, at the start of a member. */
  function FindMember(s: Bytes, name: string): (r: Bytes)
    ensures |r| <= |s|
    decreases |s|
  {
    var q := SkipWs(s);
    if q == [] || q[0] != '"' then []
    else
      var (m, found) := Match(q[1..], name, true);
      var c := SkipWs(m);
      if c == [] || c[0] != ':' then []
      else
        var v := SkipWs(c[1..]);
        if found then v
        else
          var e := SkipWs(SkipValue(v));
          if e == [] || e[0] != ',' then [] else FindMember(e[1..], name)
  }

  /** json_find(buf, end, s) */
  function Find(s: Bytes, name: string): (r: Bytes)
    ensures |r| <= |s|
  {
    var b := SkipWs(s);
    if b == [] || b[0] != '{' then [] else FindMember(b[1..], name)
  }

  // ------------------------------------------------------- the grammar of RFC 8259

  /** A character of a string, as written (section 7). */
  datatype Piece = Plain(c: char) | Escape(c: char) | Unicode(hex: string)

  /** Values with every spelling and all white space they are written with (sections 2 to 7). */
  datatype Value =
    | Literal(text: string)
    | Number(text: string)
    | String(pieces: seq<Piece>)
    | Array(ws: string, elems: Elements)
    | Object(ws: string, members: Members)

  datatype Elements =
    | NoElements
    | Element(before: string, v: Value, after: string, rest: Elements)

  datatype Members =
    | NoMembers
    | Member(before: string, name: seq<Piece>, beforeColon: string, afterColon: string, v: Value, after: string, rest: Members)

  /** White space (section 2): horizontal tab, line feed, carriage return or space. */
  predicate Blank(c: char) {
    var code := c as int;
    code == 0x09 || code == 0x0A || code == 0x0D || code == 0x20
  }

  /** The code skips exactly the white space of the grammar. */
  lemma WsIsBlank(c: char)
    ensures IsWs(c) <==> Blank(c)
  {
  }

  predicate AllWs(s: string) {
    forall i :: 0 <= i < |s| ==> Blank(s[i])
  }

  predicate Digits(s: string) {
    s != [] && forall i :: 0 <= i < |s| ==> '0' <= s[i] <= '9'
  }

  /** A number (section 6): an integer without leading zeros, a fraction and an exponent. */
  datatype Decimal = Decimal(minus: bool, whole: string, fraction: Option<string>, exponent: Option<(string, string)>)

  predicate ExponentMark(s: string) {
    s == "e" || s == "E" || s == "e+" || s == "E+" || s == "e-" || s == "E-"
  }

  predicate DecimalOk(d: Decimal) {
    && Digits(d.whole) && (|d.whole| > 1 ==> d.whole[0] != '0')
    && (d.fraction.Some? ==> Digits(d.fraction.value))
    && (d.exponent.Some? ==> ExponentMark(d.exponent.value.0) && Digits(d.exponent.value.1))
  }

  function RenderDecimal(d: Decimal): string {
    (if d.minus then "-" else "") + d.whole
    + (if d.fraction.Some? then "." + d.fraction.value else "")
    + (if d.exponent.Some? then d.exponent.value.0 + d.exponent.value.1 else "")
  }

  predicate NumChars(s: string) {
    forall i :: 0 <= i < |s| ==> IsNumChar(s[i])
  }

  /** Every number of the grammar is taken for one. */
  lemma NumbersAreOk(d: Decimal)
    requires DecimalOk(d)
    ensures Ok(Number(RenderDecimal(d)), true)
  {
    var sign, frac := if d.minus then "-" else "", if d.fraction.Some? then "." + d.fraction.value else "";
    var exp := if d.exponent.Some? then d.exponent.value.0 + d.exponent.value.1 else "";
    assert NumChars(sign) && NumChars(d.whole) && NumChars(frac) && NumChars(exp);
    assert RenderDecimal(d) == sign + d.whole + frac + exp;
  }

  /** The character an escape stands for (section 7). */
  function Meaning(c: char): char {
    if c == 'b' then 0x08 as char
    else if c == 'f' then 0x0C as char
    else if c == 'n' then 0x0A as char
    else if c == 'r' then 0x0D as char
    else if c == 't' then 0x09 as char
    else c
  }

  /** The escapes of the grammar, \u aside, are those that the code knows, with the same meaning. */
  lemma UnescapeMeans(c: char)
    ensures Unescape(c).0 == Meaning(c)
    ensures Unescape(c).1 <==> c in "\"\\/bfnrt"
  {
    assert "\"\\/bfnrt" == ['"', '\\', '/', 'b', 'f', 'n', 'r', 't'];
  }

  predicate IsHex(c: char) {
    '0' <= c <= '9' || 'a' <= c <= 'f' || 'A' <= c <= 'F'
  }

  /** Pieces of section 7; or, if not strict, whatever skip_string takes for one. */
  predicate PieceOk(p: Piece, strict: bool) {
    match p
    case Plain(c) => c != '"' && c != '\\' && (strict ==> c >= ' ')
    case Escape(c) => c != 'u' && (strict ==> Unescape(c).1)
    case Unicode(hex) => |hex| == 4 && (strict ==> forall i :: 0 <= i < 4 ==> IsHex(hex[i]))
  }

  predicate PiecesOk(ps: seq<Piece>, strict: bool) {
    forall i :: 0 <= i < |ps| ==> PieceOk(ps[i], strict)
  }

  /**
   Well-formed values; numbers may be any characters that occur in numbers, which includes all of
   section 6. Without strictness, strings may hold control characters and unknown escapes too.
   */
  predicate Ok(v: Value, strict: bool) {
    match v
    case Literal(text) => text == "false" || text == "null" || text == "true"
    case Number(text) => text != [] && NumChars(text)
    case String(ps) => PiecesOk(ps, strict)
    case Array(ws, elems) => AllWs(ws) && ElementsOk(elems, strict)
    case Object(ws, members) => AllWs(ws) && MembersOk(members, strict)
  }

  predicate ElementsOk(es: Elements, strict: bool) {
    es.Element? ==> AllWs(es.before) && Ok(es.v, strict) && AllWs(es.after) && ElementsOk(es.rest, strict)
  }

  predicate MembersOk(ms: Members, strict: bool) {
    ms.Member? ==>
      && AllWs(ms.before) && PiecesOk(ms.name, strict) && AllWs(ms.beforeColon) && AllWs(ms.afterColon)
      && Ok(ms.v, strict) && AllWs(ms.after) && MembersOk(ms.rest, strict)
  }

  /** Every escape is one that match_str knows. */
  predicate Known(ps: seq<Piece>) {
    forall i :: 0 <= i < |ps| ==> ps[i].Escape? ==> Unescape(ps[i].c).1
  }

  predicate NamesKnown(ms: Members) {
    ms.Member? ==> Known(ms.name) && NamesKnown(ms.rest)
  }

  /** What is strictly well formed is well formed, and its names are known. */
  lemma {:induction false} StrictIsOk(v: Value)
    requires Ok(v, true)
    ensures Ok(v, false)
    decreases v
  {
    match v
    case Literal(_) =>
    case Number(_) =>
    case String(_) =>
    case Array(_, elems) => StrictElements(elems);
    case Object(_, members) => StrictMembers(members);
  }

  lemma {:induction false} StrictElements(es: Elements)
    requires ElementsOk(es, true)
    ensures ElementsOk(es, false)
    decreases es
  {
    if es.Element? {
      StrictIsOk(es.v);
      StrictElements(es.rest);
    }
  }

  lemma {:induction false} StrictMembers(ms: Members)
    requires MembersOk(ms, true)
    ensures MembersOk(ms, false) && NamesKnown(ms)
    decreases ms
  {
    if ms.Member? {
      StrictIsOk(ms.v);
      StrictMembers(ms.rest);
    }
  }

  function RenderPiece(p: Piece): string {
    match p
    case Plain(c) => [c]
    case Escape(c) => ['\\', c]
    case Unicode(hex) => ['\\', 'u'] + hex
  }

  function RenderPieces(ps: seq<Piece>): string {
    if ps == [] then [] else RenderPiece(ps[0]) + RenderPieces(ps[1..])
  }

  /** The text of a value, followed by rest. */
  function Render(v: Value, rest: Bytes): Bytes
    decreases v, 1
  {
    match v
    case Literal(text) => text + rest
    case Number(text) => text + rest
    case String(ps) => ['"'] + RenderPieces(ps) + (['"'] + rest)
    case Array(ws, elems) => ['['] + (if elems.NoElements? then ws + ([']'] + rest) else RenderElements(elems, [']'] + rest))
    case Object(ws, members) => ['{'] + (if members.NoMembers? then ws + (['}'] + rest) else RenderMembers(members, ['}'] + rest))
  }

  /** A comma-separated list of elements, followed by rest. */
  function RenderElements(es: Elements, rest: Bytes): Bytes
    requires es.Element?
    decreases es, 0
  {
    es.before + Render(es.v, es.after + if es.rest.NoElements? then rest else [','] + RenderElements(es.rest, rest))
  }

  function RenderMembers(ms: Members, rest: Bytes): Bytes
    requires ms.Member?
    decreases ms, 0
  {
    ms.before + (['"'] + RenderPieces(ms.name) + (['"'] + (ms.beforeColon + ([':'] + (ms.afterColon +
      Render(ms.v, ms.after + if ms.rest.NoMembers? then rest else [','] + RenderMembers(ms.rest, rest)))))))
  }

  // ---------------------------------------------------- skipping what is well formed

  lemma {:induction false} WsThen(ws: string, rest: Bytes)
    requires AllWs(ws)
    ensures SkipWs(ws + rest) == SkipWs(rest)
  {
    if ws == [] {
      assert ws + rest == rest;
    } else {
      WsThen(ws[1..], rest);
      assert (ws + rest)[1..] == ws[1..] + rest;
      WsIsBlank(ws[0]);
    }
  }

  lemma {:induction false} NumberThen(text: string, rest: Bytes)
    requires NumChars(text)
    requires rest == [] || !IsNumChar(rest[0])
    ensures SkipNumber(text + rest) == rest
  {
    if text == [] {
      assert text + rest == rest;
    } else {
      NumberThen(text[1..], rest);
      assert (text + rest)[1..] == text[1..] + rest;
    }
  }

  /** The text of a string body splits into its first piece and the others. */
  lemma PiecesSplit(ps: seq<Piece>, rest: Bytes)
    requires ps != []
    ensures RenderPieces(ps) + rest == RenderPiece(ps[0]) + (RenderPieces(ps[1..]) + rest)
  {
  }

  lemma {:induction false} StringThen(ps: seq<Piece>, rest: Bytes)
    requires PiecesOk(ps, false)
    ensures SkipStringTail(RenderPieces(ps) + (['"'] + rest)) == rest
  {
    if ps == [] {
      assert RenderPieces(ps) + (['"'] + rest) == ['"'] + rest;
    } else {
      var t, more := RenderPieces(ps) + (['"'] + rest), RenderPieces(ps[1..]) + (['"'] + rest);
      StringThen(ps[1..], rest);
      PiecesSplit(ps, ['"'] + rest);
      match ps[0]
      case Plain(c) =>
        assert t == [c] + more && t[1..] == more;
      case Escape(c) =>
        assert t == ['\\', c] + more && t[2..] == more;
      case Unicode(hex) =>
        assert t == ['\\', 'u'] + hex + more && t[6..] == more;
    }
  }

  /** The characters match_str compares with the name and its terminating NUL; \u never matches. */
  predicate Spells(ps: seq<Piece>, name: string) {
    if ps == [] then name == []
    else match ps[0]
      case Plain(c) => c == First(name) && Spells(ps[1..], Rest(name))
      case Escape(c) => Unescape(c).0 == First(name) && Spells(ps[1..], Rest(name))
      case Unicode(_) => false
  }

  /** What a string without \u stands for. */
  function Decoded(ps: seq<Piece>): string
    requires forall i :: 0 <= i < |ps| ==> !ps[i].Unicode?
  {
    if ps == [] then []
    else [if ps[0].Plain? then ps[0].c else Meaning(ps[0].c)] + Decoded(ps[1..])
  }

  /** For strings of the grammar, that is equality of the name and what the string stands for. */
  lemma {:induction false} SpellsDecoded(ps: seq<Piece>, name: string)
    requires PiecesOk(ps, true)
    ensures Spells(ps, name) <==> (forall i :: 0 <= i < |ps| ==> !ps[i].Unicode?) && Decoded(ps) == name
  {
    if ps != [] && !ps[0].Unicode? {
      UnescapeMeans(ps[0].c);
      SpellsDecoded(ps[1..], Rest(name));
      assert (forall i :: 0 <= i < |ps| ==> !ps[i].Unicode?) <==> forall i :: 0 <= i < |ps[1..]| ==> !ps[1..][i].Unicode? by {
        assert ps == [ps[0]] + ps[1..];
      }
      if name != [] {
        assert name == [name[0]] + name[1..];
      }
    }
  }

  function Nuls(k: nat): string {
    seq(k, _ => '\0')
  }

  predicate NoNul(name: string) {
    forall i :: 0 <= i < |name| ==> name[i] != '\0'
  }

  /** A name as C has it, without NUL, is spelled by exactly the strings that stand for it and any number of NULs. */
  lemma {:induction false} SpellsWithNuls(ps: seq<Piece>, name: string)
    requires NoNul(name) && forall i :: 0 <= i < |ps| ==> !ps[i].Unicode?
    ensures Spells(ps, name) <==> exists k: nat :: Decoded(ps) == name + Nuls(k)
    decreases |ps|
  {
    if ps == [] {
      assert name + Nuls(0) == name;
    } else {
      SpellsWithNuls(ps[1..], Rest(name));
      var c := if ps[0].Plain? then ps[0].c else Meaning(ps[0].c);
      UnescapeMeans(ps[0].c);
      assert Decoded(ps) == [c] + Decoded(ps[1..]);
      if Spells(ps, name) {
        var k: nat :| Decoded(ps[1..]) == Rest(name) + Nuls(k);
        OneMore(c, Decoded(ps[1..]), name, k);
      }
      if k: nat :| Decoded(ps) == name + Nuls(k) {
        OneLess(c, Decoded(ps[1..]), name, k);
      }
    }
  }

  /** A character in front, on both sides. */
  lemma OneMore(c: char, rest: string, name: string, k: nat)
    requires rest == Rest(name) + Nuls(k) && c == First(name)
    ensures exists n: nat :: [c] + rest == name + Nuls(n)
  {
    if name == [] {
      assert [c] + rest == name + Nuls(k + 1);
    } else {
      assert [c] + rest == name + Nuls(k);
    }
  }

  lemma OneLess(c: char, rest: string, name: string, k: nat)
    requires [c] + rest == name + Nuls(k)
    ensures c == First(name) && exists n: nat :: rest == Rest(name) + Nuls(n)
  {
    var t := [c] + rest;
    assert c == t[0] && rest == t[1..];
    if name == [] {
      assert t == Nuls(k) && k > 0;
      assert rest == Rest(name) + Nuls(k - 1);
    } else {
      assert t[0] == name[0];
      assert rest == Rest(name) + Nuls(k);
    }
  }

  lemma {:induction false} MatchThen(ps: seq<Piece>, rest: Bytes, name: string, found: bool)
    requires PiecesOk(ps, false) && Known(ps)
    ensures Match(RenderPieces(ps) + (['"'] + rest), name, found) == (rest, found && Spells(ps, name))
  {
    if ps == [] {
      assert RenderPieces(ps) + (['"'] + rest) == ['"'] + rest;
    } else {
      var t, more := RenderPieces(ps) + (['"'] + rest), RenderPieces(ps[1..]) + (['"'] + rest);
      PiecesSplit(ps, ['"'] + rest);
      match ps[0]
      case Plain(c) =>
        assert t == [c] + more && t[1..] == more;
        MatchThen(ps[1..], rest, Rest(name), found && c == First(name));
      case Escape(c) =>
        assert t == ['\\', c] + more && t[2..] == more;
        MatchThen(ps[1..], rest, Rest(name), found && Unescape(c).0 == First(name));
      case Unicode(hex) =>
        assert t == ['\\', 'u'] + hex + more && t[6..] == more;
        MatchThen(ps[1..], rest, Rest(name), false);
    }
  }

  /** What may follow a number: the end, or something that does not continue it. */
  predicate Ends(rest: Bytes) {
    rest == [] || !IsNumChar(rest[0])
  }

  lemma RenderFirst(v: Value, rest: Bytes)
    requires Ok(v, false)
    ensures var t := Render(v, rest); t != [] && !IsWs(t[0]) && t[0] != ']' && t[0] != '}' && SkipWs(t) == t
  {
  }

  /** White space and a delimiter end any number. */
  lemma EndsAfterWs(ws: string, rest: Bytes)
    requires AllWs(ws) && rest != [] && !IsNumChar(rest[0])
    ensures Ends(ws + rest)
  {
    if ws != [] {
      assert (ws + rest)[0] == ws[0];
    } else {
      assert ws + rest == rest;
    }
  }

  lemma LiteralThen(text: string, rest: Bytes)
    requires text == "false" || text == "null" || text == "true"
    ensures SkipLiteral(text + rest) == rest
  {
    var t := text + rest;
    if text == "false" {
      assert t[..5] == "false" && t[5..] == rest;
    } else {
      assert t[..4] == text && t[4..] == rest;
      assert t[0] != 'f';
      if |t| >= 5 {
        assert t[..5][0] != "false"[0];
      }
      if text == "true" {
        assert t[..4][0] != "null"[0];
      }
    }
  }

  /** skip_value stops exactly at the end of any value. */
  lemma {:induction false} ValueThen(v: Value, rest: Bytes)
    requires Ok(v, false) && Ends(rest)
    ensures SkipValue(Render(v, rest)) == rest
    decreases v, 1
  {
    match v
    case Literal(_) => ScalarThen(v, rest);
    case Number(_) => ScalarThen(v, rest);
    case String(ps) => QuotedThen(ps, rest);
    case Array(ws, elems) => ArrayThen(ws, elems, rest);
    case Object(ws, members) => ObjectThen(ws, members, rest);
  }

  lemma ScalarThen(v: Value, rest: Bytes)
    requires Ok(v, false) && Ends(rest) && (v.Literal? || v.Number?)
    ensures SkipValue(Render(v, rest)) == rest
  {
    var t := v.text + rest;
    assert t[0] == v.text[0];
    if v.Literal? {
      LiteralThen(v.text, rest);
    } else {
      NumberThen(v.text, rest);
      assert IsNumChar(v.text[0]);
    }
  }

  lemma QuotedThen(ps: seq<Piece>, rest: Bytes)
    requires PiecesOk(ps, false)
    ensures SkipValue(Render(String(ps), rest)) == rest
  {
    var t := Render(String(ps), rest);
    assert t[0] == '"' && t[1..] == RenderPieces(ps) + (['"'] + rest);
    StringThen(ps, rest);
  }

  /** An empty list: white space and the closing bracket. */
  lemma ClosesAfterWs(ws: string, close: char, rest: Bytes)
    requires AllWs(ws) && !IsWs(close)
    ensures SkipWs(ws + ([close] + rest)) == [close] + rest
  {
    WsThen(ws, [close] + rest);
    assert SkipWs([close] + rest) == [close] + rest;
  }

  lemma {:induction false} ArrayThen(ws: string, elems: Elements, rest: Bytes)
    requires AllWs(ws) && ElementsOk(elems, false)
    ensures SkipValue(Render(Array(ws, elems), rest)) == rest
    decreases elems, 3
  {
    var t := Render(Array(ws, elems), rest);
    if elems.NoElements? {
      assert t[1..] == ws + ([']'] + rest);
      ClosesAfterWs(ws, ']', rest);
    } else {
      assert t[1..] == RenderElements(elems, [']'] + rest);
      ElementsThen(elems, rest);
    }
  }

  lemma {:induction false} ObjectThen(ws: string, members: Members, rest: Bytes)
    requires AllWs(ws) && MembersOk(members, false)
    ensures SkipValue(Render(Object(ws, members), rest)) == rest
    decreases members, 3
  {
    var t := Render(Object(ws, members), rest);
    if members.NoMembers? {
      assert t[1..] == ws + (['}'] + rest);
      ClosesAfterWs(ws, '}', rest);
    } else {
      assert t[1..] == RenderMembers(members, ['}'] + rest);
      MembersThen(members, rest);
    }
  }

  lemma {:induction false} ElementsThen(es: Elements, rest: Bytes)
    requires es.Element? && ElementsOk(es, false)
    ensures var t := SkipWs(RenderElements(es, [']'] + rest)); t != [] && t[0] != ']' && SkipElements(t) == rest
    decreases es, 0
  {
    var next := if es.rest.NoElements? then [']'] + rest else [','] + RenderElements(es.rest, [']'] + rest);
    WsThen(es.before, Render(es.v, es.after + next));
    RenderFirst(es.v, es.after + next);
    EndsAfterWs(es.after, next);
    ValueThen(es.v, es.after + next);
    WsThen(es.after, next);
    assert SkipWs(next) == next;
    if es.rest.Element? {
      assert next[1..] == RenderElements(es.rest, [']'] + rest);
      ElementsThen(es.rest, rest);
    }
  }

  /** The part of a member from its colon on. */
  function AfterName(ms: Members, rest: Bytes): Bytes
    requires ms.Member?
  {
    ms.beforeColon + ([':'] + (ms.afterColon + Render(ms.v, ms.after + Next(ms, rest))))
  }

  /** What follows a member and its white space. */
  function Next(ms: Members, rest: Bytes): Bytes
    requires ms.Member?
  {
    if ms.rest.NoMembers? then rest else [','] + RenderMembers(ms.rest, rest)
  }

  /** What may follow the last member: a comma or a closing brace. */
  predicate Delimited(rest: Bytes) {
    rest != [] && (rest[0] == ',' || rest[0] == '}')
  }

  /** Both skip_object and json_find get from a member's name to its value, and past it, in the same way. */
  lemma {:induction false} MemberThen(ms: Members, rest: Bytes)
    requires ms.Member? && MembersOk(ms, false) && Delimited(rest)
    ensures var c := SkipWs(AfterName(ms, rest));
      && c != [] && c[0] == ':'
      && SkipWs(c[1..]) == Render(ms.v, ms.after + Next(ms, rest))
      && SkipWs(SkipValue(SkipWs(c[1..]))) == Next(ms, rest)
    decreases ms, 0
  {
    var next := Next(ms, rest);
    var value := Render(ms.v, ms.after + next);
    ColonThen(ms.beforeColon, ms.afterColon, value);
    RenderFirst(ms.v, ms.after + next);
    EndsAfterWs(ms.after, next);
    ValueThen(ms.v, ms.after + next);
    WsThen(ms.after, next);
    assert SkipWs(next) == next;
  }

  /** From a name to what follows the colon. */
  lemma ColonThen(before: string, after: string, tail: Bytes)
    requires AllWs(before) && AllWs(after)
    ensures var c := SkipWs(before + ([':'] + (after + tail))); c != [] && c[0] == ':' && SkipWs(c[1..]) == SkipWs(tail)
  {
    var colon := [':'] + (after + tail);
    WsThen(before, colon);
    assert SkipWs(colon) == colon && colon[1..] == after + tail;
    WsThen(after, tail);
  }

  /** The member list begins, after white space, with the quote of its first name. */
  lemma MembersStart(ms: Members, rest: Bytes)
    requires ms.Member? && AllWs(ms.before)
    ensures SkipWs(RenderMembers(ms, rest)) == ['"'] + RenderPieces(ms.name) + (['"'] + AfterName(ms, rest))
  {
    var q := ['"'] + RenderPieces(ms.name) + (['"'] + AfterName(ms, rest));
    assert RenderMembers(ms, rest) == ms.before + q;
    WsThen(ms.before, q);
    assert SkipWs(q) == q;
  }

  /** skip_object passes over one member. */
  lemma {:induction false} SkipOne(ms: Members, rest: Bytes)
    requires ms.Member? && MembersOk(ms, false) && Delimited(rest)
    ensures var t, next := SkipWs(RenderMembers(ms, rest)), Next(ms, rest);
      && t != [] && t[0] == '"'
      && SkipMembers(t) == if next[0] == '}' then next[1..] else SkipMembers(SkipWs(next[1..]))
    decreases ms, 1
  {
    MembersStart(ms, rest);
    var t := SkipWs(RenderMembers(ms, rest));
    assert t[1..] == RenderPieces(ms.name) + (['"'] + AfterName(ms, rest));
    StringThen(ms.name, AfterName(ms, rest));
    MemberThen(ms, rest);
    SkipColon(t, AfterName(ms, rest));
  }

  /** skip_object at a name, in terms of what follows the name. */
  lemma SkipColon(t: Bytes, afterName: Bytes)
    requires t != [] && t[0] == '"' && SkipString(t) == afterName
    requires var c := SkipWs(afterName); c != [] && c[0] == ':'
    ensures var next := SkipWs(SkipValue(SkipWs(SkipWs(afterName)[1..])));
      SkipMembers(t) == if next == [] then [] else if next[0] == '}' then next[1..] else if next[0] != ',' then [] else SkipMembers(SkipWs(next[1..]))
  {
  }

  lemma {:induction false} MembersThen(ms: Members, rest: Bytes)
    requires ms.Member? && MembersOk(ms, false)
    ensures var t := SkipWs(RenderMembers(ms, ['}'] + rest)); t != [] && t[0] != '}' && SkipMembers(t) == rest
    decreases ms, 2
  {
    SkipOne(ms, ['}'] + rest);
    if ms.rest.Member? {
      assert Next(ms, ['}'] + rest)[1..] == RenderMembers(ms.rest, ['}'] + rest);
      MembersThen(ms.rest, rest);
    } else {
      assert Next(ms, ['}'] + rest)[1..] == rest;
    }
  }

  // ---------------------------------------------------------------- finding a member

  /** Whether some member spells the name. */
  predicate HasName(ms: Members, name: string) {
    ms.Member? && (Spells(ms.name, name) || HasName(ms.rest, name))
  }

  /** Where the value of the first member that spells name starts, or the end. */
  function ValueOf(ms: Members, name: string, rest: Bytes): Bytes {
    if ms.NoMembers? then []
    else if Spells(ms.name, name) then Render(ms.v, ms.after + Next(ms, rest))
    else ValueOf(ms.rest, name, rest)
  }

  lemma QuoteThen(before: string, a: Bytes, b: Bytes)
    requires AllWs(before)
    ensures var q := SkipWs(before + (['"'] + a + b)); q != [] && q[0] == '"' && q[1..] == a + b
  {
    var q := ['"'] + a + b;
    WsThen(before, q);
    assert SkipWs(q) == q && q[1..] == a + b;
  }

  /** What json_find makes of one name and colon, whatever follows. */
  lemma NameThen(before: string, name: string, ps: seq<Piece>, beforeColon: string, afterColon: string, tail: Bytes)
    requires AllWs(before) && PiecesOk(ps, false) && Known(ps) && AllWs(beforeColon) && AllWs(afterColon)
    ensures var q := SkipWs(before + (['"'] + RenderPieces(ps) + (['"'] + (beforeColon + ([':'] + (afterColon + tail))))));
      && q != [] && q[0] == '"'
      && var m := Match(q[1..], name, true);
         && m.1 == Spells(ps, name)
         && var c := SkipWs(m.0); c != [] && c[0] == ':' && SkipWs(c[1..]) == SkipWs(tail)
  {
    var colon := beforeColon + ([':'] + (afterColon + tail));
    QuoteThen(before, RenderPieces(ps), ['"'] + colon);
    MatchThen(ps, colon, name, true);
    ColonThen(beforeColon, afterColon, tail);
  }

  /** One member is either the one looked for, or passed over. */
  lemma FindOne(ms: Members, name: string, rest: Bytes)
    requires ms.Member? && MembersOk(ms, false) && Known(ms.name) && Delimited(rest)
    ensures FindMember(RenderMembers(ms, rest), name)
            == if Spells(ms.name, name) then Render(ms.v, ms.after + Next(ms, rest))
               else if Next(ms, rest)[0] == ',' then FindMember(Next(ms, rest)[1..], name)
               else []
  {
    var value := Render(ms.v, ms.after + Next(ms, rest));
    NameThen(ms.before, name, ms.name, ms.beforeColon, ms.afterColon, value);
    RenderFirst(ms.v, ms.after + Next(ms, rest));
    MemberThen(ms, rest);
    MembersStart(ms, rest);
  }

  /** The first member that spells the name is found; without one, the search goes on behind the list. */
  lemma {:induction false} FindMemberThen(ms: Members, name: string, rest: Bytes)
    requires ms.Member? && MembersOk(ms, false) && NamesKnown(ms) && Delimited(rest)
    ensures FindMember(RenderMembers(ms, rest), name)
            == if HasName(ms, name) then ValueOf(ms, name, rest)
               else if rest[0] == ',' then FindMember(rest[1..], name)
               else []
  {
    FindOne(ms, name, rest);
    if ms.rest.Member? && !Spells(ms.name, name) {
      assert Next(ms, rest)[1..] == RenderMembers(ms.rest, rest);
      FindMemberThen(ms.rest, name, rest);
    }
  }

  lemma {:induction false} ValueOfAbsent(ms: Members, name: string, rest: Bytes)
    requires !HasName(ms, name)
    ensures ValueOf(ms, name, rest) == []
  {
    if ms.Member? {
      ValueOfAbsent(ms.rest, name, rest);
    }
  }

  /** For every object, json_find returns the value of the first member whose name spells s without \u, or the end. */
  lemma FindCorrect(before: string, ws: string, ms: Members, name: string, rest: Bytes)
    requires AllWs(before) && Ok(Object(ws, ms), true)
    ensures Find(before + Render(Object(ws, ms), rest), name) == ValueOf(ms, name, ['}'] + rest)
  {
    var t := Render(Object(ws, ms), rest);
    StrictMembers(ms);
    WsThen(before, t);
    assert SkipWs(t) == t;
    if ms.NoMembers? {
      assert t[1..] == ws + (['}'] + rest);
      ClosesAfterWs(ws, '}', rest);
    } else {
      assert t[1..] == RenderMembers(ms, ['}'] + rest);
      FindMemberThen(ms, name, ['}'] + rest);
      if !HasName(ms, name) {
        ValueOfAbsent(ms, name, ['}'] + rest);
      }
    }
  }

  lemma {:induction false} UnicodeNeverSpells(ps: seq<Piece>, name: string, i: nat)
    requires i < |ps| && ps[i].Unicode?
    ensures !Spells(ps, name)
  {
    if i > 0 {
      UnicodeNeverSpells(ps[1..], Rest(name), i - 1);
    }
  }

  /** Every name has a \u in it. */
  ghost predicate AllUnicode(ms: Members) {
    ms.Member? ==> (exists i :: 0 <= i < |ms.name| && ms.name[i].Unicode?) && AllUnicode(ms.rest)
  }

  lemma {:induction false} UnicodeHasNoName(ms: Members, name: string)
    requires AllUnicode(ms)
    ensures !HasName(ms, name)
  {
    if ms.Member? {
      var i :| 0 <= i < |ms.name| && ms.name[i].Unicode?;
      UnicodeNeverSpells(ms.name, name, i);
      UnicodeHasNoName(ms.rest, name);
    }
  }

  /** In an object whose names are all written with \u nothing is found, whatever the names stand for. */
  lemma UnicodeNamesAreMissed(before: string, ws: string, ms: Members, name: string, rest: Bytes)
    requires AllWs(before) && Ok(Object(ws, ms), true) && AllUnicode(ms)
    ensures Find(before + Render(Object(ws, ms), rest), name) == []
  {
    FindCorrect(before, ws, ms, name, rest);
    UnicodeHasNoName(ms, name);
    ValueOfAbsent(ms, name, ['}'] + rest);
  }

  // ------------------------------------------------- exactly when something is found

  /** An opening brace, members each followed by a comma, and then the text more. */
  function Opened(before: string, ms: Members, more: Bytes): Bytes {
    before + (['{'] + if ms.NoMembers? then more else RenderMembers(ms, [','] + more))
  }

  /** A name and a colon, followed by tail. */
  function Named(before: string, ps: seq<Piece>, beforeColon: string, tail: Bytes): Bytes {
    before + (['"'] + RenderPieces(ps) + (['"'] + (beforeColon + ([':'] + tail))))
  }

  /** Members that json_find passes over on its way to a name that matches. */
  ghost predicate Passed(ms: Members, name: string) {
    MembersOk(ms, false) && NamesKnown(ms) && !HasName(ms, name)
  }

  /** A name that matches. */
  ghost predicate Wanted(before: string, ps: seq<Piece>, beforeColon: string, name: string) {
    AllWs(before) && PiecesOk(ps, false) && Known(ps) && AllWs(beforeColon) && Spells(ps, name)
  }

  /** Nothing behind the colon of the name matters: not the value, nor whether the object ends. */
  lemma FindStopsAtColon(start: string, ms: Members, name: string, before: string, ps: seq<Piece>, beforeColon: string, tail: Bytes)
    requires AllWs(start) && Passed(ms, name) && Wanted(before, ps, beforeColon, name)
    ensures Find(Opened(start, ms, Named(before, ps, beforeColon, tail)), name) == SkipWs(tail)
  {
    var more := Named(before, ps, beforeColon, tail);
    FindNamed(name, before, ps, beforeColon, tail);
    var t := ['{'] + if ms.NoMembers? then more else RenderMembers(ms, [','] + more);
    WsThen(start, t);
    assert SkipWs(t) == t;
    if ms.NoMembers? {
      assert t[1..] == more;
    } else {
      assert t[1..] == RenderMembers(ms, [','] + more);
      FindMemberThen(ms, name, [','] + more);
      assert ([','] + more)[1..] == more;
    }
  }

  lemma FindNamed(name: string, before: string, ps: seq<Piece>, beforeColon: string, tail: Bytes)
    requires Wanted(before, ps, beforeColon, name)
    ensures FindMember(Named(before, ps, beforeColon, tail), name) == SkipWs(tail)
  {
    NameThen(before, name, ps, beforeColon, "", tail);
    assert "" + tail == tail;
  }

  /** The pieces of a name written without escapes. */
  function Plainly(name: string): seq<Piece> {
    seq(|name|, i requires 0 <= i < |name| => Plain(name[i]))
  }

  lemma {:induction false} PlainlySpells(name: string)
    ensures Spells(Plainly(name), name) && RenderPieces(Plainly(name)) == name
  {
    if name != [] {
      assert Plainly(name)[1..] == Plainly(name[1..]);
      PlainlySpells(name[1..]);
    }
  }

  /** Whatever follows the colon, be it a value or not, and whether or not the object is ever closed. */
  lemma UnfinishedObjectIsSearched(name: string, tail: Bytes)
    requires '"' !in name && '\\' !in name
    ensures Find(['{', '"'] + name + ['"', ':'] + tail, name) == SkipWs(tail)
  {
    PlainlySpells(name);
    FindStopsAtColon("", NoMembers, name, "", Plainly(name), "", tail);
    OpenedPlainly(name, tail);
  }

  lemma OpenedPlainly(name: string, tail: Bytes)
    ensures Opened("", NoMembers, Named("", Plainly(name), "", tail)) == ['{', '"'] + name + ['"', ':'] + tail
  {
    PlainlySpells(name);
  }

  lemma {:induction false} PlainlyDecoded(name: string)
    ensures Decoded(Plainly(name)) == name
  {
    if name != [] {
      assert Plainly(name)[1..] == Plainly(name[1..]);
      PlainlyDecoded(name[1..]);
    }
  }

  /** A name that ends with NUL bytes is taken for the name without them. */
  lemma NulsAreOverlooked(name: string, k: nat, tail: Bytes)
    requires NoNul(name) && '"' !in name && '\\' !in name
    ensures Find(['{', '"'] + (name + Nuls(k)) + ['"', ':'] + tail, name) == SkipWs(tail)
  {
    var written := name + Nuls(k);
    PlainlyDecoded(written);
    SpellsWithNuls(Plainly(written), name);
    FindStopsAtColon("", NoMembers, name, "", Plainly(written), "", tail);
    OpenedPlainly(written, tail);
  }

  /** White space at the start of a text. */
  lemma {:induction false} SplitWs(s: Bytes) returns (ws: string)
    ensures AllWs(ws) && s == ws + SkipWs(s)
  {
    ws := "";
    if s != [] && IsWs(s[0]) {
      WsIsBlank(s[0]);
      var more := SplitWs(s[1..]);
      ws := [s[0]] + more;
    }
  }

  lemma {:induction false} SplitNumber(s: Bytes) returns (text: string)
    ensures NumChars(text) && s == text + SkipNumber(s)
    ensures s != [] && IsNumChar(s[0]) ==> text != []
  {
    text := "";
    if s != [] && IsNumChar(s[0]) {
      var more := SplitNumber(s[1..]);
      text := [s[0]] + more;
    }
  }

  /** What skip_string passes over is a string, unless an escape is cut off less than four bytes before the end. */
  lemma {:induction false} SplitString(s: Bytes) returns (ps: seq<Piece>)
    requires |SkipStringTail(s)| >= 4
    ensures PiecesOk(ps, false) && s == RenderPieces(ps) + (['"'] + SkipStringTail(s))
  {
    ps := [];
    if s[0] != '"' {
      var p, n := Piece1(s);
      var more := SplitString(s[n..]);
      ps := [p] + more;
      JoinPiece(p, more, s, n, ['"'] + SkipStringTail(s));
    }
  }

  lemma JoinPiece(p: Piece, more: seq<Piece>, s: Bytes, n: nat, rest: Bytes)
    requires n <= |s| && RenderPiece(p) == s[..n] && s[n..] == RenderPieces(more) + rest
    ensures s == RenderPieces([p] + more) + rest
  {
    ConsPieces(p, more);
    Regroup(s, n, RenderPieces(more), rest);
  }

  lemma ConsPieces(p: Piece, more: seq<Piece>)
    ensures RenderPieces([p] + more) == RenderPiece(p) + RenderPieces(more)
  {
    assert ([p] + more)[1..] == more;
  }

  lemma Regroup(s: Bytes, n: nat, more: Bytes, rest: Bytes)
    requires n <= |s| && s[n..] == more + rest
    ensures s == s[..n] + more + rest
  {
    assert s == s[..n] + s[n..];
  }

  /** The first piece of a string that goes on, and its length. */
  lemma Piece1(s: Bytes) returns (p: Piece, n: nat)
    requires |SkipStringTail(s)| >= 4 && s[0] != '"'
    ensures 0 < n <= |s| && PieceOk(p, false) && RenderPiece(p) == s[..n] && SkipStringTail(s) == SkipStringTail(s[n..])
    ensures p.Escape? ==> |s| > 1 && s[0] == '\\' && p.c == s[1]
  {
    if s[0] != '\\' {
      p, n := Plain(s[0]), 1;
    } else if s[1] != 'u' {
      p, n := Escape(s[1]), 2;
      assert s[..2] == ['\\', s[1]];
    } else {
      p, n := Unicode(s[2..6]), 6;
      assert s[..6] == ['\\', 'u'] + s[2..6];
    }
  }

  /** What match_str passes over is a string of known escapes. */
  lemma {:induction false} SplitMatch(s: Bytes, name: string, found: bool) returns (ps: seq<Piece>)
    requires Match(s, name, found).0 != []
    ensures PiecesOk(ps, false) && Known(ps) && s == RenderPieces(ps) + (['"'] + Match(s, name, found).0)
    decreases |s|
  {
    var rest := Match(s, name, found).0;
    ps := [];
    if s[0] != '"' {
      var p, n, f := MatchPiece(s, name, found);
      var more := SplitMatch(s[n..], Rest(name), f);
      ps := [p] + more;
      JoinPiece(p, more, s, n, ['"'] + rest);
    }
  }

  lemma MatchPiece(s: Bytes, name: string, found: bool) returns (p: Piece, n: nat, f: bool)
    requires Match(s, name, found).0 != [] && s[0] != '"'
    ensures 0 < n <= |s| && PieceOk(p, false) && (p.Escape? ==> Unescape(p.c).1) && RenderPiece(p) == s[..n]
    ensures Match(s, name, found) == Match(s[n..], Rest(name), f)
  {
    if s[0] != '\\' {
      p, n, f := Plain(s[0]), 1, found && s[0] == First(name);
    } else if s[1] != 'u' {
      p, n, f := Escape(s[1]), 2, found && Unescape(s[1]).0 == First(name);
      assert s[..2] == ['\\', s[1]];
    } else {
      p, n, f := Unicode(s[2..6]), 6, false;
      assert s[..6] == ['\\', 'u'] + s[2..6];
    }
  }

  lemma SplitLiteral(s: Bytes) returns (text: string)
    requires SkipLiteral(s) != []
    ensures (text == "false" || text == "null" || text == "true") && s == text + SkipLiteral(s)
  {
    if |s| >= 5 && s[..5] == "false" {
      text := "false";
      assert s == s[..5] + s[5..];
    } else {
      text := s[..4];
      assert s == s[..4] + s[4..];
    }
  }

  /** What skip_value passes over is a value. */
  lemma {:induction false} SplitValue(s: Bytes) returns (v: Value)
    requires |SkipValue(s)| >= 4
    ensures Ok(v, false) && s == Render(v, SkipValue(s))
    decreases |s|, 1
  {
    if s[0] == '[' {
      v := SplitArray(s);
    } else if s[0] == '{' {
      v := SplitObject(s);
    } else if s[0] == '"' {
      v := SplitQuoted(s);
    } else {
      v := SplitScalar(s);
    }
  }

  lemma SplitQuoted(s: Bytes) returns (v: Value)
    requires s != [] && s[0] == '"' && |SkipString(s)| >= 4
    ensures Ok(v, false) && s == Render(v, SkipString(s))
  {
    var ps := SplitString(s[1..]);
    v := String(ps);
    assert s == ['"'] + s[1..];
  }

  lemma SplitScalar(s: Bytes) returns (v: Value)
    requires SkipValue(s) != [] && s[0] != '[' && s[0] != '{' && s[0] != '"'
    ensures Ok(v, false) && s == Render(v, SkipValue(s))
  {
    if s[0] == 'f' || s[0] == 'n' || s[0] == 't' {
      var text := SplitLiteral(s);
      v := Literal(text);
    } else {
      var text := SplitNumber(s);
      v := Number(text);
    }
  }

  lemma {:induction false} SplitArray(s: Bytes) returns (v: Value)
    requires |SkipValue(s)| >= 4 && s[0] == '['
    ensures Ok(v, false) && s == Render(v, SkipValue(s))
    decreases |s|, 0
  {
    var ws := SplitWs(s[1..]);
    var r := SkipWs(s[1..]);
    assert s == ['['] + s[1..];
    if r[0] == ']' {
      v := Array(ws, NoElements);
      assert r == [']'] + r[1..];
    } else {
      var es := SplitElements(ws, r);
      v := Array("", es);
    }
  }

  lemma {:induction false} SplitObject(s: Bytes) returns (v: Value)
    requires |SkipValue(s)| >= 4 && s[0] == '{'
    ensures Ok(v, false) && s == Render(v, SkipValue(s))
    decreases |s|, 0
  {
    var ws := SplitWs(s[1..]);
    var r := SkipWs(s[1..]);
    assert s == ['{'] + s[1..];
    if r[0] == '}' {
      v := Object(ws, NoMembers);
      assert r == ['}'] + r[1..];
    } else {
      var ms := SplitMembers(ws, r);
      v := Object("", ms);
    }
  }

  /** What the loop of skip_array passes over, after white space ws, is a list of elements. */
  lemma {:induction false} SplitElements(ws: string, s: Bytes) returns (es: Elements)
    requires AllWs(ws) && |SkipElements(s)| >= 4
    ensures es.Element? && ElementsOk(es, false) && ws + s == RenderElements(es, [']'] + SkipElements(s))
    decreases |s|, 2
  {
    var v := SplitValue(s);
    var after := SplitWs(SkipValue(s));
    var e := SkipWs(SkipValue(s));
    assert e == [e[0]] + e[1..];
    if e[0] == ']' {
      es := Element(ws, v, after, NoElements);
    } else {
      var ws' := SplitWs(e[1..]);
      var rest := SplitElements(ws', SkipWs(e[1..]));
      es := Element(ws, v, after, rest);
    }
  }

  /** What the loop of skip_object passes over, after white space ws, is a list of members. */
  lemma {:induction false} SplitMembers(ws: string, s: Bytes) returns (ms: Members)
    requires AllWs(ws) && |SkipMembers(s)| >= 4
    ensures ms.Member? && MembersOk(ms, false) && ws + s == RenderMembers(ms, ['}'] + SkipMembers(s))
    decreases |s|, 2
  {
    var name := SplitString(s[1..]);
    var beforeColon := SplitWs(SkipString(s));
    var c := SkipWs(SkipString(s));
    var afterColon := SplitWs(c[1..]);
    var t := SkipWs(c[1..]);
    var v := SplitValue(t);
    var after := SplitWs(SkipValue(t));
    var e := SkipWs(SkipValue(t));
    assert e == [e[0]] + e[1..] && c == [c[0]] + c[1..] && s == [s[0]] + s[1..];
    if e[0] == '}' {
      ms := Member(ws, name, beforeColon, afterColon, v, after, NoMembers);
    } else {
      var ws' := SplitWs(e[1..]);
      var rest := SplitMembers(ws', SkipWs(e[1..]));
      ms := Member(ws, name, beforeColon, afterColon, v, after, rest);
    }
    JoinMember(ms, ['}'] + SkipMembers(s), s[1..], SkipString(s), c, t);
  }

  /** The text of a member, put together from its parts. */
  lemma JoinMember(ms: Members, rest: Bytes, afterQuote: Bytes, afterName: Bytes, c: Bytes, t: Bytes)
    requires ms.Member? && afterQuote == RenderPieces(ms.name) + (['"'] + afterName)
    requires afterName == ms.beforeColon + c && c == [':'] + (ms.afterColon + t) && t == Render(ms.v, ms.after + Next(ms, rest))
    ensures ms.before + (['"'] + afterQuote) == RenderMembers(ms, rest)
  {
    assert ['"'] + RenderPieces(ms.name) + (['"'] + afterName) == ['"'] + afterQuote;
  }

  /** A search that succeeds has at least a name, a colon and something behind it to look at. */
  lemma FindNeedsFour(s: Bytes, name: string)
    requires FindMember(s, name) != []
    ensures |s| >= 4
  {
    var q := SkipWs(s);
    var m := Match(q[1..], name, true).0;
    MatchAdvances(q[1..], name, true);
  }

  lemma {:induction false} MatchAdvances(s: Bytes, name: string, found: bool)
    requires Match(s, name, found).0 != []
    ensures |Match(s, name, found).0| < |s|
    decreases |s|
  {
    if s[0] != '"' {
      var p, n, f := MatchPiece(s, name, found);
      MatchAdvances(s[n..], Rest(name), f);
    }
  }

  /** A text in which json_find finds the name: where the search stops, and the text from there on. */
  datatype Hit = Hit(ms: Members, before: string, ps: seq<Piece>, beforeColon: string, tail: Bytes)

  /** The members up to the name, as a text that follows the opening brace. */
  ghost predicate Hits(s: Bytes, name: string, h: Hit) {
    && Passed(h.ms, name) && Wanted(h.before, h.ps, h.beforeColon, name)
    && var more := Named(h.before, h.ps, h.beforeColon, h.tail);
       s == if h.ms.NoMembers? then more else RenderMembers(h.ms, [','] + more)
  }

  /** A name that does not match, and its value: passed over on the way to the hit. */
  lemma HitAfter(m: Members, name: string, next: Bytes, h: Hit) returns (h': Hit)
    requires m.Member? && m.rest.NoMembers? && MembersOk(m, false) && Known(m.name) && !Spells(m.name, name)
    requires Hits(next, name, h)
    ensures Hits(RenderMembers(m, [','] + next), name, h') && h'.tail == h.tail
  {
    h' := h.(ms := m.(rest := h.ms));
  }

  /** A search that succeeds has passed over members, found the name, and stopped at its colon. */
  lemma {:induction false} SplitFind(s: Bytes, name: string) returns (h: Hit)
    requires FindMember(s, name) != []
    ensures Hits(s, name, h) && FindMember(s, name) == SkipWs(h.tail)
    decreases |s|
  {
    var before, ps, beforeColon, tail := SplitName(s, name);
    if Spells(ps, name) {
      h := Hit(NoMembers, before, ps, beforeColon, tail);
    } else {
      var m, next := SplitPassed(s, name, before, ps, beforeColon, tail);
      var h0 := SplitFind(next, name);
      h := HitAfter(m, name, next, h0);
    }
  }

  /** How a search goes on behind a value that is not wanted. */
  function FindAfter(v: Bytes, name: string): Bytes {
    var e := SkipWs(SkipValue(v));
    if e == [] || e[0] != ',' then [] else FindMember(e[1..], name)
  }

  /** The name and the colon that a search gets to first. */
  lemma SplitName(s: Bytes, name: string) returns (before: string, ps: seq<Piece>, beforeColon: string, tail: Bytes)
    requires FindMember(s, name) != []
    ensures AllWs(before) && PiecesOk(ps, false) && Known(ps) && AllWs(beforeColon) && s == Named(before, ps, beforeColon, tail)
    ensures FindMember(s, name) == if Spells(ps, name) then SkipWs(tail) else FindAfter(SkipWs(tail), name)
  {
    var q := SkipWs(s);
    var m := Match(q[1..], name, true);
    var c := SkipWs(m.0);
    tail := c[1..];
    assert FindMember(s, name) == if m.1 then SkipWs(tail) else FindAfter(SkipWs(tail), name);
    before := SplitWs(s);
    beforeColon := SplitWs(m.0);
    ps := SplitMatch(q[1..], name, true);
    MatchThen(ps, m.0, name, true);
    JoinNamed(s, before, q, ps, m.0, beforeColon, c);
  }

  lemma JoinNamed(s: Bytes, before: string, q: Bytes, ps: seq<Piece>, m: Bytes, beforeColon: string, c: Bytes)
    requires s == before + q && q != [] && q[0] == '"' && q[1..] == RenderPieces(ps) + (['"'] + m)
    requires m == beforeColon + c && c != [] && c[0] == ':'
    ensures s == Named(before, ps, beforeColon, c[1..])
  {
    assert q == ['"'] + q[1..] && c == [':'] + c[1..];
    assert ['"'] + RenderPieces(ps) + (['"'] + m) == q;
  }

  /** A member whose name does not match, and what follows its comma. */
  lemma SplitPassed(s: Bytes, name: string, before: string, ps: seq<Piece>, beforeColon: string, tail: Bytes)
    returns (m: Members, next: Bytes)
    requires FindAfter(SkipWs(tail), name) != [] && s == Named(before, ps, beforeColon, tail)
    requires AllWs(before) && PiecesOk(ps, false) && Known(ps) && AllWs(beforeColon)
    ensures m.Member? && m.rest.NoMembers? && m.name == ps && MembersOk(m, false)
    ensures s == RenderMembers(m, [','] + next) && FindAfter(SkipWs(tail), name) == FindMember(next, name) && |next| < |s|
  {
    var e := SkipWs(SkipValue(SkipWs(tail)));
    next := e[1..];
    FindNeedsFour(next, name);
    var afterColon, value, after := SplitRest(tail);
    m := Member(before, ps, beforeColon, afterColon, value, after, NoMembers);
    JoinPassed(m, [','] + next, tail);
  }

  /** A value, and the comma behind it. */
  lemma SplitRest(tail: Bytes) returns (afterColon: string, value: Value, after: string)
    requires var e := SkipWs(SkipValue(SkipWs(tail))); |e| >= 5 && e[0] == ','
    ensures var e := SkipWs(SkipValue(SkipWs(tail)));
      && AllWs(afterColon) && Ok(value, false) && AllWs(after) && |e| <= |tail|
      && tail == afterColon + Render(value, after + ([','] + e[1..]))
  {
    var v := SkipWs(tail);
    var e := SkipWs(SkipValue(v));
    afterColon := SplitWs(tail);
    value, after := SplitValueWs(v);
    assert e == [','] + e[1..];
  }

  lemma SplitValueWs(s: Bytes) returns (v: Value, after: string)
    requires |SkipValue(s)| >= 4
    ensures Ok(v, false) && AllWs(after) && s == Render(v, after + SkipWs(SkipValue(s)))
  {
    v := SplitValue(s);
    after := SplitWs(SkipValue(s));
  }

  /** The text of a single member, from its parts. */
  lemma JoinPassed(m: Members, rest: Bytes, tail: Bytes)
    requires m.Member? && m.rest.NoMembers? && tail == m.afterColon + Render(m.v, m.after + rest)
    ensures Named(m.before, m.name, m.beforeColon, tail) == RenderMembers(m, rest)
  {
  }

  /** White space, an opening brace, and a text with a hit. */
  ghost predicate FoundAt(s: Bytes, name: string, start: string, h: Hit) {
    && AllWs(start) && Passed(h.ms, name) && Wanted(h.before, h.ps, h.beforeColon, name)
    && s == Opened(start, h.ms, Named(h.before, h.ps, h.beforeColon, h.tail))
  }

  lemma FoundShape(s: Bytes, name: string) returns (start: string, h: Hit)
    requires Find(s, name) != []
    ensures FoundAt(s, name, start, h) && Find(s, name) == SkipWs(h.tail)
  {
    start := SplitWs(s);
    var b := SkipWs(s);
    h := SplitFind(b[1..], name);
    JoinOpened(start, b, h.ms, Named(h.before, h.ps, h.beforeColon, h.tail));
  }

  lemma JoinOpened(start: string, b: Bytes, ms: Members, more: Bytes)
    requires b != [] && b[0] == '{' && b[1..] == if ms.NoMembers? then more else RenderMembers(ms, [','] + more)
    ensures start + b == Opened(start, ms, more)
  {
    assert b == ['{'] + b[1..];
  }

  /**
   For arbitrary bytes, json_find returns something other than the end exactly if there is an opening
   brace, members that do not match, each with a comma, a name that matches, a colon, and something
   other than white space behind it; and that is what it returns.
   */
  lemma FoundExactly(s: Bytes, name: string, r: Bytes)
    requires r != []
    ensures Find(s, name) == r <==> exists start: string, h: Hit :: FoundAt(s, name, start, h) && SkipWs(h.tail) == r
  {
    if Find(s, name) == r {
      var start, h := FoundShape(s, name);
    }
    forall start: string, h: Hit | FoundAt(s, name, start, h)
      ensures Find(s, name) == SkipWs(h.tail)
    {
      FindStopsAtColon(start, h.ms, name, h.before, h.ps, h.beforeColon, h.tail);
    }
  }

  // -------------------------------------------------------------------- the functions

  method SkipWsAt(buf: Bytes, i0: nat) returns (i: nat)
    requires i0 <= |buf|
    ensures i0 <= i <= |buf| && buf[i..] == SkipWs(buf[i0..])
    ensures AllWs(buf[i0..i]) && (i < |buf| ==> !Blank(buf[i]))
  {
    i := i0;
    while i < |buf|
      invariant i0 <= i <= |buf| && SkipWs(buf[i..]) == SkipWs(buf[i0..])
      invariant AllWs(buf[i0..i])
    {
      if buf[i] as int != 0x09 && buf[i] as int != 0x0A && buf[i] as int != 0x0D && buf[i] as int != 0x20 {
        WsIsBlank(buf[i]);
        break;
      }
      WsIsBlank(buf[i]);
      assert buf[i..][1..] == buf[i + 1..];
      assert buf[i0..i + 1] == buf[i0..i] + [buf[i]];
      i := i + 1;
    }
  }

  method SkipLiteralAt(buf: Bytes, i: nat) returns (r: nat)
    requires i <= |buf|
    ensures i <= r <= |buf| && buf[r..] == SkipLiteral(buf[i..])
  {
    if |buf| - i >= 5 && buf[i..i + 5] == "false" {
      assert buf[i..][..5] == buf[i..i + 5] && buf[i..][5..] == buf[i + 5..];
      return i + 5;
    }
    assert |buf| - i >= 5 ==> buf[i..][..5] == buf[i..i + 5];
    if |buf| - i >= 4 && buf[i..i + 4] == "null" {
      assert buf[i..][..4] == buf[i..i + 4] && buf[i..][4..] == buf[i + 4..];
      return i + 4;
    }
    assert |buf| - i >= 4 ==> buf[i..][..4] == buf[i..i + 4];
    if |buf| - i >= 4 && buf[i..i + 4] == "true" {
      assert buf[i..][4..] == buf[i + 4..];
      return i + 4;
    }
    return |buf|;
  }

  method SkipStringAt(buf: Bytes, i0: nat) returns (i: nat)
    requires i0 < |buf|
    ensures i0 < i <= |buf| && buf[i..] == SkipString(buf[i0..])
  {
    i := i0 + 1;
    assert buf[i0..][1..] == buf[i..];
    var done := i == |buf|;
    while !done
      invariant i0 < i <= |buf|
      invariant SkipString(buf[i0..]) == if done then buf[i..] else SkipStringTail(buf[i..])
      decreases !done, |buf| - i
    {
      i, done := CharAt(buf, i);
    }
  }

  /** The body of the loop of skip_string: one character, possibly escaped. */
  method CharAt(buf: Bytes, i0: nat) returns (i: nat, done: bool)
    requires i0 <= |buf|
    ensures i0 <= i <= |buf| && (i0 < |buf| ==> i0 < i) && (i0 == |buf| ==> done)
    ensures SkipStringTail(buf[i0..]) == if done then buf[i..] else SkipStringTail(buf[i..])
  {
    if i0 == |buf| {
      return i0, true;
    }
    var s := buf[i0..];
    assert s[1..] == buf[i0 + 1..];
    if buf[i0] == '"' {
      return i0 + 1, true;
    }
    if buf[i0] != '\\' {
      return i0 + 1, false;
    }
    if i0 + 1 == |buf| {
      return i0 + 1, true;
    }
    assert s[2..] == buf[i0 + 2..];
    if buf[i0 + 1] != 'u' {
      return i0 + 2, false;
    }
    if |buf| - (i0 + 2) < 4 {
      return i0 + 2, true;
    }
    assert s[6..] == buf[i0 + 6..];
    return i0 + 6, false;
  }

  method SkipNumberAt(buf: Bytes, i0: nat) returns (i: nat)
    requires i0 <= |buf|
    ensures i0 <= i <= |buf| && buf[i..] == SkipNumber(buf[i0..])
  {
    i := i0;
    while i < |buf|
      invariant i0 <= i <= |buf| && SkipNumber(buf[i..]) == SkipNumber(buf[i0..])
    {
      if !IsNumChar(buf[i]) {
        break;
      }
      assert buf[i..][1..] == buf[i + 1..];
      i := i + 1;
    }
  }

  /** The body of the loop of skip_array: one element and what follows it. */
  method ElementAt(buf: Bytes, i0: nat) returns (i: nat, done: bool)
    requires i0 <= |buf|
    ensures i0 <= i <= |buf| && (i0 < |buf| ==> i0 < i) && (i0 == |buf| ==> done)
    ensures SkipElements(buf[i0..]) == if done then buf[i..] else SkipElements(buf[i..])
    decreases |buf| - i0, 2
  {
    i := SkipValueAt(buf, i0);
    i := SkipWsAt(buf, i);
    i, done := DelimiterAt(buf, i, ']');
  }

  /** What follows an element or a member: the end of the list, a comma, or something else. */
  method DelimiterAt(buf: Bytes, i0: nat, close: char) returns (i: nat, done: bool)
    requires i0 <= |buf| && close != ','
    ensures i0 <= i <= |buf| && (i0 < |buf| ==> i0 < i)
    ensures var e := buf[i0..];
      && done == !(e != [] && e[0] == ',')
      && buf[i..] == if !done then SkipWs(e[1..]) else if e != [] && e[0] == close then e[1..] else []
  {
    assert buf[|buf|..] == [];
    if i0 == |buf| {
      return i0, true;
    }
    assert buf[i0..][1..] == buf[i0 + 1..];
    if buf[i0] == close {
      return i0 + 1, true;
    }
    if buf[i0] != ',' {
      return |buf|, true;
    }
    i := SkipWsAt(buf, i0 + 1);
    done := false;
  }

  method SkipArrayAt(buf: Bytes, i0: nat) returns (i: nat)
    requires i0 < |buf| && buf[i0] == '['
    ensures i0 < i <= |buf| && buf[i..] == SkipValue(buf[i0..])
    decreases |buf| - i0, 0
  {
    assert buf[i0..][1..] == buf[i0 + 1..];
    i := SkipWsAt(buf, i0 + 1);
    if i == |buf| {
      return;
    }
    if buf[i] == ']' {
      assert buf[i..][1..] == buf[i + 1..];
      return i + 1;
    }
    var done := false;
    while !done
      invariant i0 < i <= |buf|
      invariant SkipValue(buf[i0..]) == if done then buf[i..] else SkipElements(buf[i..])
      decreases !done, |buf| - i
    {
      i, done := ElementAt(buf, i);
    }
  }

  /** From a member's name to its value, and past it: a colon must follow. */
  method NameAndValueAt(buf: Bytes, i0: nat) returns (i: nat, ok: bool)
    requires i0 < |buf| && buf[i0] == '"'
    ensures i0 < i <= |buf|
    ensures var c := SkipWs(SkipString(buf[i0..]));
      ok == (c != [] && c[0] == ':') && (ok ==> buf[i..] == SkipWs(SkipValue(SkipWs(c[1..]))))
    decreases |buf| - i0, 2
  {
    i := SkipStringAt(buf, i0);
    i := SkipWsAt(buf, i);
    if i == |buf| || buf[i] != ':' {
      return |buf|, false;
    }
    assert buf[i..][1..] == buf[i + 1..];
    i := SkipWsAt(buf, i + 1);
    i := SkipValueAt(buf, i);
    i := SkipWsAt(buf, i);
    return i, true;
  }

  /** The body of the loop of skip_object: one member and what follows it. */
  method MemberAt(buf: Bytes, i0: nat) returns (i: nat, done: bool)
    requires i0 <= |buf|
    ensures i0 <= i <= |buf| && (i0 < |buf| ==> i0 < i) && (i0 == |buf| ==> done)
    ensures SkipMembers(buf[i0..]) == if done then buf[i..] else SkipMembers(buf[i..])
    decreases |buf| - i0, 3
  {
    assert buf[|buf|..] == [];
    if i0 == |buf| || buf[i0] != '"' {
      return |buf|, true;
    }
    var ok;
    i, ok := NameAndValueAt(buf, i0);
    if !ok {
      return |buf|, true;
    }
    i, done := DelimiterAt(buf, i, '}');
  }

  method SkipObjectAt(buf: Bytes, i0: nat) returns (i: nat)
    requires i0 < |buf| && buf[i0] == '{'
    ensures i0 < i <= |buf| && buf[i..] == SkipValue(buf[i0..])
    decreases |buf| - i0, 0
  {
    assert buf[i0..][1..] == buf[i0 + 1..];
    i := SkipWsAt(buf, i0 + 1);
    if i == |buf| {
      return;
    }
    if buf[i] == '}' {
      assert buf[i..][1..] == buf[i + 1..];
      return i + 1;
    }
    var done := false;
    while !done
      invariant i0 < i <= |buf|
      invariant SkipValue(buf[i0..]) == if done then buf[i..] else SkipMembers(buf[i..])
      decreases !done, |buf| - i
    {
      i, done := MemberAt(buf, i);
    }
  }

  method SkipValueAt(buf: Bytes, i: nat) returns (r: nat)
    requires i <= |buf|
    ensures i <= r <= |buf| && buf[r..] == SkipValue(buf[i..]) && (i < |buf| ==> i < r)
    decreases |buf| - i, 1
  {
    if i == |buf| {
      return i;
    }
    assert buf[i..][0] == buf[i];
    match buf[i]
    case 'f' => r := SkipLiteralAt(buf, i);
    case 'n' => r := SkipLiteralAt(buf, i);
    case 't' => r := SkipLiteralAt(buf, i);
    case '"' => r := SkipStringAt(buf, i);
    case '[' => r := SkipArrayAt(buf, i);
    case '{' => r := SkipObjectAt(buf, i);
    case _ =>
      if IsNumChar(buf[i]) {
        r := SkipNumberAt(buf, i);
      } else {
        r := |buf|;
      }
  }

  /** One pass of the loop of match_str: a character of the string, compared with the first of name. */
  method MatchCharAt(buf: Bytes, i0: nat, name: string, found: bool) returns (i: nat, foundit: bool, done: bool)
    requires i0 <= |buf|
    ensures i0 <= i <= |buf| && (!done ==> i0 < i)
    ensures Match(buf[i0..], name, found) == if done then (buf[i..], foundit) else Match(buf[i..], Rest(name), foundit)
  {
    foundit := found;
    assert buf[|buf|..] == [];
    if i0 == |buf| {
      return |buf|, foundit, true;
    }
    var t := buf[i0..];
    assert t[1..] == buf[i0 + 1..];
    var ch := buf[i0];
    i := i0 + 1;
    if ch == '"' {
      return i, foundit && name == [], true;
    }
    if ch == '\\' {
      if i == |buf| {
        return |buf|, foundit, true;
      }
      assert t[2..] == buf[i + 1..];
      var c := buf[i];
      i := i + 1;
      if c == 'u' {
        if |buf| - i < 4 {
          return |buf|, foundit, true;
        }
        assert t[6..] == buf[i + 4..];
        return i + 4, false, false;
      }
      var (u, ok) := Unescape(c);
      if !ok {
        return |buf|, false, true;
      }
      ch := u;
    }
    if ch != First(name) {
      foundit := false;
    }
    return i, foundit, false;
  }

  /** match_str(buf, end, s, foundit) */
  method MatchStrAt(buf: Bytes, i0: nat, s: string) returns (i: nat, foundit: bool)
    requires i0 <= |buf|
    ensures i0 <= i <= |buf| && (buf[i..], foundit) == Match(buf[i0..], s, true)
  {
    foundit := true;
    i := i0;
    var name, done := s, false;
    while !done
      invariant i0 <= i <= |buf|
      invariant Match(buf[i0..], s, true) == if done then (buf[i..], foundit) else Match(buf[i..], name, foundit)
      decreases !done, |buf| - i
    {
      i, foundit, done := MatchCharAt(buf, i, name, foundit);
      name := Rest(name);
    }
  }

  /** SCAN(buf, end, ch): skip white space and one given character. */
  method ScanAt(buf: Bytes, i0: nat, ch: char) returns (i: nat, ok: bool)
    requires i0 <= |buf|
    ensures var t := SkipWs(buf[i0..]); ok == (t != [] && t[0] == ch) && (ok ==> i0 < i <= |buf| && buf[i..] == t[1..])
  {
    i := SkipWsAt(buf, i0);
    if i == |buf| || buf[i] != ch {
      return |buf|, false;
    }
    assert buf[i..][1..] == buf[i + 1..];
    return i + 1, true;
  }

  /** json_find(buf, end, s) */
  method FindAt(buf: Bytes, s: string) returns (i: nat)
    ensures i <= |buf| && buf[i..] == Find(buf, s)
  {
    var ok;
    assert buf[0..] == buf;
    i, ok := ScanAt(buf, 0, '{');
    if !ok {
      return |buf|;
    }
    while true
      invariant i <= |buf| && FindMember(buf[i..], s) == Find(buf, s)
      decreases |buf| - i
    {
      i, ok := ScanAt(buf, i, '"');
      if !ok {
        return |buf|;
      }
      var foundit;
      i, foundit := MatchStrAt(buf, i, s);
      i, ok := ScanAt(buf, i, ':');
      if !ok {
        return |buf|;
      }
      i := SkipWsAt(buf, i);
      if foundit {
        return;
      }
      i := SkipValueAt(buf, i);
      i, ok := ScanAt(buf, i, ',');
      if !ok {
        return |buf|;
      }
    }
  }
}
