/** Base64 (util/b64encode.c), against section 4.3.2.4 of RFC 1421. */
module Base64 {
  import opened Machine
  import opened Octets

  // --------------------------------------------------------------- reference

  /** b64chars[v]; the value 64 is the padding character. */
  function CharAt(v: nat): char
    requires v <= 64
  {
    if v < 26 then 'A' + v as char
    else if v < 52 then 'a' + (v - 26) as char
    else if v < 62 then '0' + (v - 52) as char
    else if v == 62 then '+'
    else if v == 63 then '/'
    else '='
  }

  /** strchr(b64chars, c) - b64chars, or -1 where strchr finds nothing. */
  function Position(c: char): int {
    if 'A' <= c <= 'Z' then c as int - 'A' as int
    else if 'a' <= c <= 'z' then c as int - 'a' as int + 26
    else if '0' <= c <= '9' then c as int - '0' as int + 52
    else if c == '+' then 62
    else if c == '/' then 63
    else if c == '=' then 64
    else -1
  }

  /** The alphabet of section 4.3.2.4 of RFC 1421, in parts. */
  const UPPER: string := "ABCDEFGHIJKLMNOPQRSTUVWXYZ"
  const LOWER: string := "abcdefghijklmnopqrstuvwxyz"
  const DIGITS: string := "0123456789"
  const ALPHABET: string := UPPER + LOWER + DIGITS + "+/="

  /** The character of a value is the one that the alphabet has at that place. */
  lemma CharInAlphabet(v: nat)
    requires v <= 64
    ensures |ALPHABET| == 65 && CharAt(v) == ALPHABET[v]
  {
    assert |UPPER| == 26 && |LOWER| == 26 && |DIGITS| == 10;
    if v < 26 {
      UpperAt(v);
      assert ALPHABET[v] == UPPER[v];
    } else if v < 52 {
      LowerAt(v - 26);
      assert ALPHABET[v] == LOWER[v - 26];
    } else if v < 62 {
      DigitAt(v - 52);
      assert ALPHABET[v] == DIGITS[v - 52];
    } else {
      assert ALPHABET[v] == "+/="[v - 62];
    }
  }

  lemma UpperAt(i: nat)
    requires i < 26
    ensures UPPER[i] == 'A' + i as char
  {
  }

  lemma LowerAt(i: nat)
    requires i < 26
    ensures LOWER[i] == 'a' + i as char
  {
  }

  lemma DigitAt(i: nat)
    requires i < 10
    ensures DIGITS[i] == '0' + i as char
  {
  }

  /** Every character of the alphabet has exactly one position. */
  lemma PositionCorrect(c: char, v: nat)
    requires v <= 64
    ensures Position(CharAt(v)) == v
    ensures -1 <= Position(c) <= 64 && (Position(c) >= 0 ==> CharAt(Position(c)) == c)
  {
  }

  /** Octet i, or zero if it is missing. */
  function At(x: seq<Octet>, i: nat): (v: nat)
    ensures v < 256
  {
    if i < |x| then x[i] else 0
  }

  /** The 24 bits of up to three octets, the missing ones taken as zero. */
  function Bits24(x: seq<Octet>): (t: nat)
    ensures t < 0x1000000
  {
    65536 * At(x, 0) + 256 * At(x, 1) + At(x, 2)
  }

  /** Six bits of 24, from the left. */
  function Sextet(t: nat, j: nat): (d: nat)
    requires t < 0x1000000
    ensures d < 64
  {
    if j == 0 then t / 262144 else if j == 1 then t / 4096 % 64 else if j == 2 then t / 64 % 64 else t % 64
  }

  /** Four characters for 24 bits, of which len octets count. */
  function FourChars(t: nat, len: nat): (s: string)
    requires t < 0x1000000
    ensures |s| == 4
  {
    seq(4, j requires 0 <= j < 4 => if j <= len then CharAt(Sextet(t, j)) else '=')
  }

  /** Four characters for one to three octets. */
  function EncodedGroup(x: seq<Octet>): (s: string)
    ensures |s| == 4
  {
    FourChars(Bits24(x), |x|)
  }

  function Encoded(x: seq<Octet>): (s: string) {
    if x == [] then []
    else if |x| <= 3 then EncodedGroup(x)
    else EncodedGroup(x[..3]) + Encoded(x[3..])
  }

  /** The value of a character, the padding character counting as zero. */
  function SixBits(c: char): (v: nat)
    ensures v < 64
  {
    if 0 <= Position(c) < 64 then Position(c) else 0
  }

  function Value24(s: string): (t: nat)
    requires |s| == 4
    ensures t < 0x1000000
  {
    262144 * SixBits(s[0]) + 4096 * SixBits(s[1]) + 64 * SixBits(s[2]) + SixBits(s[3])
  }

  /** The three octets of 24 bits. */
  function Octets24(t: nat): (x: seq<Octet>)
    requires t < 0x1000000
    ensures |x| == 3
  {
    [t / 65536, t / 256 % 256, t % 256]
  }

  /** The three octets of four characters. */
  function GroupOctets(s: string): (x: seq<Octet>)
    requires |s| == 4
    ensures |x| == 3
  {
    var a, b, c, d := SixBits(s[0]), SixBits(s[1]), SixBits(s[2]), SixBits(s[3]);
    [4 * a + b / 16, 16 * (b % 16) + c / 4, 64 * (c % 4) + d]
  }

  /** All octets of a whole number of groups, including those that padding stands for. */
  function Decoded(s: string): (x: seq<Octet>) {
    if |s| < 4 then [] else GroupOctets(s[..4]) + Decoded(s[4..])
  }

  function Equals(n: nat): string {
    seq(n, _ => '=')
  }

  /** Text over the alphabet, with d padding characters at its end and nowhere else. */
  ghost predicate PaddedBy(s: string, d: nat) {
    d <= |s| && s[|s| - d..] == Equals(d) && forall i :: 0 <= i < |s| - d ==> 0 <= Position(s[i]) < 64
  }

  /** What is valid: whole groups, and at most two padding characters, at the end. */
  ghost predicate Acceptable(s: string) {
    |s| % 4 == 0 && exists d: nat :: d <= 2 && PaddedBy(s, d)
  }

  // -------------------------------------------------------------- round trip

  lemma SextetsJoin(t: nat)
    requires t < 0x1000000
    ensures 262144 * Sextet(t, 0) + 4096 * Sextet(t, 1) + 64 * Sextet(t, 2) + Sextet(t, 3) == t
  {
    var a := t / 64;
    var b := a / 64;
    By4096(b, 64 * (a % 64) + t % 64);
    Quotient(t, b / 64, 4096 * (b % 64) + 64 * (a % 64) + t % 64);
  }

  lemma OctetsSplit(a: Octet, b: Octet, c: Octet)
    ensures var t := 65536 * a + 256 * b + c; t / 65536 == a && t / 256 % 256 == b && t % 256 == c
  {
  }

  lemma SplitByFour(a: nat, b: nat, c: nat, d: nat)
    requires a < 64 && b < 64 && c < 64 && d < 64
    ensures 4 * a + b / 16 < 256 && 16 * (b % 16) + c / 4 < 256 && 64 * (c % 4) + d < 256
    ensures 65536 * (4 * a + b / 16) + 256 * (16 * (b % 16) + c / 4) + (64 * (c % 4) + d) == 262144 * a + 4096 * b + 64 * c + d
  {
  }

  /** The octets of a group are those of its 24 bits. */
  lemma GroupBits(s: string)
    requires |s| == 4
    ensures Octets24(Value24(s)) == GroupOctets(s)
  {
    SplitByFour(SixBits(s[0]), SixBits(s[1]), SixBits(s[2]), SixBits(s[3]));
    var x := GroupOctets(s);
    OctetsSplit(x[0], x[1], x[2]);
  }

  /** Bits of missing octets are zero. */
  lemma MissingBits(x: seq<Octet>)
    requires 1 <= |x| <= 2
    ensures Sextet(Bits24(x), 3) == 0 && (|x| == 1 ==> Sextet(Bits24(x), 2) == 0)
  {
  }

  /** How many padding characters n octets need. */
  function PadCount(n: nat): (d: nat)
    ensures d <= 2
  {
    if n % 3 == 0 then 0 else 3 - n % 3
  }

  lemma GroupValue(x: seq<Octet>)
    requires 1 <= |x| <= 3
    ensures Value24(EncodedGroup(x)) == Bits24(x) && PaddedBy(EncodedGroup(x), 3 - |x|)
  {
    var t := Bits24(x);
    PositionCorrect('A', Sextet(t, 0));
    PositionCorrect('A', Sextet(t, 1));
    PositionCorrect('A', Sextet(t, 2));
    PositionCorrect('A', Sextet(t, 3));
    if |x| < 3 {
      MissingBits(x);
    }
    SextetsJoin(t);
  }

  lemma GroupRoundTrip(x: seq<Octet>)
    requires 1 <= |x| <= 3
    ensures GroupOctets(EncodedGroup(x))[..|x|] == x
  {
    GroupValue(x);
    GroupBits(EncodedGroup(x));
    OctetsSplit(At(x, 0), At(x, 1), At(x, 2));
  }

  lemma {:induction false} EncodedLength(x: seq<Octet>)
    ensures |Encoded(x)| == (|x| + 2) / 3 * 4
    decreases |x|
  {
    if |x| > 3 {
      EncodedLength(x[3..]);
    }
  }

  lemma {:induction false} DecodedLength(s: string)
    ensures |Decoded(s)| == |s| / 4 * 3
    decreases |s|
  {
    if |s| >= 4 {
      DecodedLength(s[4..]);
    }
  }

  /** Decoding is defined group by group. */
  lemma DecodedJoin(g: string, s: string)
    requires |g| == 4
    ensures Decoded(g + s) == GroupOctets(g) + Decoded(s)
  {
    assert (g + s)[..4] == g && (g + s)[4..] == s;
  }

  lemma PaddedJoin(g: string, s: string, d: nat)
    requires |g| == 4 && PaddedBy(g, 0) && PaddedBy(s, d)
    ensures PaddedBy(g + s, d)
  {
    assert (g + s)[|g + s| - d..] == s[|s| - d..];
  }

  /** x, followed by n more octets. */
  ghost predicate Starts(whole: seq<Octet>, x: seq<Octet>, n: nat) {
    |whole| == |x| + n && whole[..|x|] == x
  }

  lemma StartsJoin(a: seq<Octet>, whole: seq<Octet>, x: seq<Octet>, n: nat)
    requires Starts(whole, x, n)
    ensures Starts(a + whole, a + x, n)
  {
  }

  /** s is an encoding of x that the code accepts and decodes to x. */
  ghost predicate Encodes(s: string, x: seq<Octet>) {
    |s| % 4 == 0 && PaddedBy(s, PadCount(|x|)) && Starts(Decoded(s), x, PadCount(|x|))
  }

  lemma DecodedGroup(g: string)
    requires |g| == 4
    ensures Decoded(g) == GroupOctets(g)
  {
    DecodedJoin(g, []);
    assert g + [] == g;
  }

  lemma OneGroup(g: string, x: seq<Octet>)
    requires |g| == 4 && 1 <= |x| <= 3 && PaddedBy(g, 3 - |x|) && GroupOctets(g)[..|x|] == x
    ensures Encodes(g, x)
  {
    DecodedGroup(g);
    assert PadCount(|x|) == 3 - |x|;
  }

  lemma GroupEncodes(x: seq<Octet>)
    requires 1 <= |x| <= 3
    ensures Encodes(EncodedGroup(x), x)
  {
    GroupRoundTrip(x);
    GroupValue(x);
    OneGroup(EncodedGroup(x), x);
  }

  lemma PadAfterGroup(n: nat)
    ensures PadCount(3 + n) == PadCount(n)
  {
  }

  lemma FourMore(n: nat)
    ensures (4 + n) % 4 == n % 4
  {
  }

  lemma JoinEncodes(g: string, x: seq<Octet>, s: string, y: seq<Octet>)
    requires |g| == 4 && |x| == 3 && PaddedBy(g, 0) && GroupOctets(g) == x && Encodes(s, y)
    ensures Encodes(g + s, x + y)
  {
    PaddedJoin(g, s, PadCount(|y|));
    DecodedJoin(g, s);
    StartsJoin(x, Decoded(s), y, PadCount(|y|));
    PadAfterGroup(|y|);
    assert Starts(Decoded(g + s), x + y, PadCount(|x + y|));
    FourMore(|s|);
  }

  lemma EncodedCons(x: seq<Octet>, y: seq<Octet>)
    requires |x| == 3
    ensures Encoded(x + y) == EncodedGroup(x) + Encoded(y)
  {
    assert (x + y)[..3] == x && (x + y)[3..] == y;
    assert y == [] ==> x + y == x;
  }

  lemma NothingEncodes()
    ensures Encodes(Encoded([]), [])
  {
  }

  lemma FullGroup(x: seq<Octet>)
    requires |x| == 3
    ensures PaddedBy(EncodedGroup(x), 0) && GroupOctets(EncodedGroup(x)) == x
  {
    GroupRoundTrip(x);
    GroupValue(x);
  }

  lemma ConsEncodes(x: seq<Octet>, y: seq<Octet>)
    requires |x| == 3 && Encodes(Encoded(y), y)
    ensures Encodes(Encoded(x + y), x + y)
  {
    FullGroup(x);
    JoinEncodes(EncodedGroup(x), x, Encoded(y), y);
    EncodedCons(x, y);
  }

  /** Decoding what was encoded gives back every octet, and the code accepts it. */
  lemma {:induction false} RoundTrip(x: seq<Octet>)
    ensures Encodes(Encoded(x), x)
    decreases |x|
  {
    if x == [] {
      NothingEncodes();
    } else if |x| <= 3 {
      GroupEncodes(x);
      assert Encoded(x) == EncodedGroup(x);
    } else {
      RoundTrip(x[3..]);
      ConsEncodes(x[..3], x[3..]);
      assert x[..3] + x[3..] == x;
    }
  }

  // --------------------------------------------------------------- the code

  /** Shift three octets in, those that are missing as zero. */
  method ReadThree(x: seq<Octet>) returns (t: nat)
    ensures t == Bits24(x)
  {
    t := 0;
    var j := 0;
    while j < 3
      invariant j <= 3 && (j == 0 ==> t == 0) && (j == 1 ==> t == At(x, 0))
      invariant j == 2 ==> t == 256 * At(x, 0) + At(x, 1)
      invariant j == 3 ==> t == Bits24(x)
    {
      t := ShiftIn(t, x, j);
      j := j + 1;
    }
  }

  /** t <<= 8; if (j < len) t += *in++ */
  method ShiftIn(t: nat, x: seq<Octet>, j: nat) returns (t': nat)
    requires t < 65536
    ensures t' == 256 * t + At(x, j)
  {
    t' := t * 256 % TWO32;
    if j < |x| {
      t' := (t' + x[j]) % TWO32;
    }
  }

  /** A number of which only the low 24 bits matter, the upper six of them being a. */
  ghost predicate Top(t: nat, a: nat, rest: nat) {
    a < 64 && rest < 262144 && t % 16777216 == 262144 * a + rest
  }

  /** Reading the upper six bits, and shifting by six. */
  lemma TopSix(t: nat, a: nat, rest: nat)
    requires Top(t, a, rest)
    ensures t / 262144 % 64 == a && t * 64 % TWO32 % 16777216 == 64 * rest
  {
    var q := t / 16777216;
    assert t == q * 16777216 + 262144 * a + rest;
    Quotient(t, 64 * q + a, rest);
    assert t * 64 == 64 * rest + (64 * q + a) * 16777216;
    Modulo(64 * rest, 64 * q + a);
    Remainder(q, a);
  }

  lemma Quotient(t: nat, q: nat, r: nat)
    requires t == 262144 * q + r && r < 262144
    ensures t / 262144 == q
  {
  }

  lemma Remainder(q: nat, a: nat)
    requires a < 64
    ensures (64 * q + a) % 64 == a
  {
  }

  lemma Modulo(r: nat, q: nat)
    requires r < 16777216
    ensures (r + q * 16777216) % TWO32 % 16777216 == r
  {
    var p := q / 256;
    assert r + q * 16777216 == r + q % 256 * 16777216 + p * TWO32;
    assert (r + q * 16777216) % TWO32 == r + q % 256 * 16777216;
  }

  /** The sextets of d from number j on, followed by zeros. */
  function Rest(d: seq<nat>, j: nat): nat
    requires |d| == 4
  {
    if j == 0 then 262144 * d[0] + 4096 * d[1] + 64 * d[2] + d[3]
    else if j == 1 then 262144 * d[1] + 4096 * d[2] + 64 * d[3]
    else if j == 2 then 262144 * d[2] + 4096 * d[3]
    else if j == 3 then 262144 * d[3]
    else 0
  }

  /** Write one of 4 bytes. */
  method WriteOne(t: nat, j: nat, len: nat, ghost d: seq<nat>) returns (c: char, t': nat)
    requires j < 4 && |d| == 4 && (forall i :: 0 <= i < 4 ==> d[i] < 64) && t % 16777216 == Rest(d, j)
    ensures c == (if j <= len then CharAt(d[j]) else '=') && t' % 16777216 == Rest(d, j + 1)
  {
    assert d[0] < 64 && d[1] < 64 && d[2] < 64 && d[3] < 64;
    TopSix(t, d[j], Rest(d, j) - 262144 * d[j]);
    c := if j <= len then CharAt(t / 262144 % 64) else '=';
    t' := t * 64 % TWO32;
  }

  /** Write 4 bytes. */
  method WriteFour(t0: nat, len: nat) returns (out: string)
    requires t0 < 0x1000000
    ensures out == FourChars(t0, len)
  {
    out := [];
    ghost var d := [Sextet(t0, 0), Sextet(t0, 1), Sextet(t0, 2), Sextet(t0, 3)];
    SextetsJoin(t0);
    assert forall i :: 0 <= i < 4 ==> d[i] == Sextet(t0, i);
    var t: nat, j := t0, 0;
    while j < 4
      invariant j <= 4 && out == FourChars(t0, len)[..j] && t % 16777216 == Rest(d, j)
    {
      var c;
      c, t := WriteOne(t, j, len, d);
      out, j := out + [c], j + 1;
    }
  }

  lemma {:induction false} EncodedSnoc(a: seq<Octet>, n: nat, b: seq<Octet>)
    requires |a| == 3 * n && 1 <= |b| <= 3
    ensures Encoded(a + b) == Encoded(a) + EncodedGroup(b)
    decreases n
  {
    if n == 0 {
      assert a + b == b;
    } else {
      assert (a + b)[..3] == a[..3] && (a + b)[3..] == a[3..] + b;
      EncodedSnoc(a[3..], n - 1, b);
      assert n == 1 ==> a[..3] == a && a[3..] == [];
    }
  }

  /** b64encode(in, out, len) */
  method Encode(x: seq<Octet>) returns (out: string)
    ensures out == Encoded(x) + ['\0']
  {
    out := [];
    var pos, len := 0, |x|;
    ghost var n: nat := 0;
    while len > 0
      invariant 0 <= pos <= |x| && pos + len == |x| && (len > 0 ==> pos == 3 * n) && out == Encoded(x[..pos])
    {
      var four := EncodeStep(x, pos, len, n, out);
      out := out + four;
      if len < 3 {
        pos, len := |x|, 0;
      } else {
        pos, len := pos + 3, len - 3;
      }
      n := n + 1;
    }
    assert x[..pos] == x;
    out := out + ['\0'];
  }

  /** Octets after the third do not matter. */
  lemma SameGroup(y: seq<Octet>)
    requires |y| > 0
    ensures FourChars(Bits24(y), |y|) == EncodedGroup(y[..if |y| < 3 then |y| else 3])
  {
    if |y| < 3 {
      assert y[..|y|] == y;
    } else {
      assert Bits24(y[..3]) == Bits24(y);
    }
  }

  /** One group of octets becomes four characters. */
  method EncodeStep(x: seq<Octet>, pos: nat, len: nat, ghost n: nat, ghost out: string) returns (four: string)
    requires pos + len == |x| && len > 0 && pos == 3 * n && out == Encoded(x[..pos])
    ensures out + four == Encoded(x[..if len < 3 then |x| else pos + 3])
  {
    var t := ReadThree(x[pos..]);
    four := WriteFour(t, len);
    ghost var group := x[pos..if len < 3 then |x| else pos + 3];
    SameGroup(x[pos..]);
    assert group == x[pos..][..|group|];
    EncodedSnoc(x[..pos], n, group);
    assert x[..pos] + group == x[..pos + |group|];
  }

  // ------------------------------------------------------------ decoding

  lemma PaddedAll(s: string, d: nat, i: nat)
    requires PaddedBy(s, d) && i < |s|
    ensures 0 <= Position(s[i]) <= 64 && (s[i] == '=' <==> i >= |s| - d)
  {
    if i >= |s| - d {
      assert s[i] == s[|s| - d..][i - (|s| - d)];
    }
  }

  lemma PaddedBoth(s: string, d: nat, e: nat, i: nat)
    requires PaddedBy(s, d) && PaddedBy(s, e) && i < |s|
    ensures i >= |s| - d <==> i >= |s| - e
  {
    PaddedAll(s, d, i);
    PaddedAll(s, e, i);
  }

  lemma PaddedUnique(s: string, d: nat, e: nat)
    requires PaddedBy(s, d) && PaddedBy(s, e)
    ensures d == e
  {
    var most := if d < e then e else d;
    if most > 0 {
      PaddedBoth(s, d, e, |s| - most);
    }
  }

  /** A character that spoils the input, after i good ones. */
  lemma Spoiled(s: string, i: nat, dead: nat)
    requires i < |s| && PaddedBy(s[..i], dead) && (Position(s[i]) < 0 || (s[i] != '=' && dead > 0))
    ensures !Acceptable(s)
  {
    if Acceptable(s) {
      var d: nat :| d <= 2 && PaddedBy(s, d);
      PaddedAll(s, d, i);
      if dead > 0 {
        PaddedAll(s, d, i - 1);
        PaddedAll(s[..i], dead, i - 1);
      }
    }
  }

  lemma GoodNext(s: string, i: nat, dead: nat)
    requires i < |s| && PaddedBy(s[..i], dead) && Position(s[i]) >= 0 && (s[i] == '=' || dead == 0)
    ensures PaddedBy(s[..i + 1], if s[i] == '=' then dead + 1 else dead)
  {
    var p := s[..i + 1];
    if s[i] == '=' {
      assert p[i - dead..] == s[..i][i - dead..] + ['='];
      assert Equals(dead) + ['='] == Equals(dead + 1);
    }
  }

  /** Whether a text is acceptable, and how many padding characters it has. */
  method Validate(s: string) returns (ok: bool, deadbytes: nat)
    ensures ok <==> Acceptable(s)
    ensures ok ==> deadbytes <= 2 && PaddedBy(s, deadbytes)
  {
    deadbytes := 0;
    if |s| % 4 != 0 {
      return false, 0;
    }
    var i := 0;
    while i < |s|
      invariant i <= |s| && PaddedBy(s[..i], deadbytes)
    {
      if Position(s[i]) < 0 {
        Spoiled(s, i, deadbytes);
        return false, 0;
      }
      if s[i] != '=' && deadbytes > 0 {
        Spoiled(s, i, deadbytes);
        return false, 0;
      }
      GoodNext(s, i, deadbytes);
      if s[i] == '=' {
        deadbytes := deadbytes + 1;
      }
      i := i + 1;
    }
    assert s[..i] == s;
    ok := deadbytes <= 2;
    if !ok {
      forall d: nat | PaddedBy(s, d)
        ensures d == deadbytes
      {
        PaddedUnique(s, d, deadbytes);
      }
    }
  }

  /** Parse 4 bytes. */
  method ParseFour(s: string) returns (t: nat)
    requires |s| == 4 && forall i :: 0 <= i < 4 ==> Position(s[i]) >= 0
    ensures t == Value24(s)
  {
    t := 0;
    var i := 0;
    while i < 4
      invariant i <= 4 && (i == 0 ==> t == 0) && (i == 1 ==> t == SixBits(s[0]))
      invariant i == 2 ==> t == 64 * SixBits(s[0]) + SixBits(s[1])
      invariant i == 3 ==> t == 4096 * SixBits(s[0]) + 64 * SixBits(s[1]) + SixBits(s[2])
      invariant i == 4 ==> t == Value24(s)
    {
      t := ParseOne(t, s[i]);
      i := i + 1;
    }
  }

  /** t <<= 6; t += pos & 0x3f */
  method ParseOne(t: nat, c: char) returns (t': nat)
    requires t < 262144 && Position(c) >= 0
    ensures t' == 64 * t + SixBits(c)
  {
    LowSix(c);
    var pos := Position(c) % 64;
    t' := t * 64 % TWO32;
    assert t' == 64 * t;
    t' := (t' + pos) % TWO32;
  }

  lemma LowSix(c: char)
    requires Position(c) >= 0
    ensures Position(c) % 64 == SixBits(c)
  {
    PositionCorrect(c, 0);
  }

  /** Reading the upper eight of 24 bits, and shifting by eight. */
  lemma TopEight(t: nat, a: nat, rest: nat)
    requires a < 256 && rest < 65536 && t % 16777216 == 65536 * a + rest
    ensures t / 65536 % 256 == a && t * 256 % TWO32 % 16777216 == 256 * rest
  {
    var q := t / 16777216;
    assert t == 65536 * (256 * q + a) + rest;
    QuotientEight(t, 256 * q + a, rest);
    assert t * 256 == 256 * rest + (256 * q + a) * 16777216;
    Modulo(256 * rest, 256 * q + a);
    RemainderEight(q, a);
  }

  lemma QuotientEight(t: nat, q: nat, r: nat)
    requires t == 65536 * q + r && r < 65536
    ensures t / 65536 == q
  {
  }

  lemma RemainderEight(q: nat, a: nat)
    requires a < 256
    ensures (256 * q + a) % 256 == a
  {
  }

  /** The octets of x from number j on, followed by zeros. */
  function OctetRest(x: seq<Octet>, j: nat): nat {
    if j == 0 then 65536 * At(x, 0) + 256 * At(x, 1) + At(x, 2)
    else if j == 1 then 65536 * At(x, 1) + 256 * At(x, 2)
    else if j == 2 then 65536 * At(x, 2)
    else 0
  }

  /** out[i] = (t >> 16) & 0xff; t <<= 8 */
  method OutputOne(t: nat, j: nat, ghost x: seq<Octet>) returns (b: Octet, t': nat)
    requires |x| == 3 && j < 3 && t % 16777216 == OctetRest(x, j)
    ensures b == x[j] && t' % 16777216 == OctetRest(x, j + 1)
  {
    TopEight(t, At(x, j), OctetRest(x, j) - 65536 * At(x, j));
    b := t / 65536 % 256;
    t' := t * 256 % TWO32;
  }

  /** Output 3 bytes. */
  method OutputThree(t0: nat) returns (out: seq<Octet>)
    requires t0 < 0x1000000
    ensures out == Octets24(t0)
  {
    out := [];
    ghost var x := Octets24(t0);
    var t: nat, j := t0, 0;
    while j < 3
      invariant j <= 3 && out == x[..j] && t % 16777216 == OctetRest(x, j)
    {
      var b;
      b, t := OutputOne(t, j, x);
      out, j := out + [b], j + 1;
    }
  }

  lemma {:induction false} DecodedSnoc(a: string, n: nat, g: string)
    requires |a| == 4 * n && |g| == 4
    ensures Decoded(a + g) == Decoded(a) + GroupOctets(g)
    decreases n
  {
    if n == 0 {
      DecodedJoin(g, []);
      assert a + g == g && g + [] == g;
    } else {
      assert (a + g)[..4] == a[..4] && (a + g)[4..] == a[4..] + g;
      DecodedSnoc(a[4..], n - 1, g);
    }
  }

  /** Parse 4 bytes; output 3 bytes. */
  method DecodeGroup(g: string) returns (three: seq<Octet>)
    requires |g| == 4 && forall i :: 0 <= i < 4 ==> Position(g[i]) >= 0
    ensures three == GroupOctets(g)
  {
    var t := ParseFour(g);
    three := OutputThree(t);
    GroupBits(g);
  }

  /** One group of the loop. */
  method DecodeStep(s: string, pos: nat, ghost n: nat, ghost out: seq<Octet>) returns (three: seq<Octet>)
    requires pos + 4 <= |s| && pos == 4 * n && out == Decoded(s[..pos])
    requires forall i :: 0 <= i < |s| ==> Position(s[i]) >= 0
    ensures |three| == 3 && out + three == Decoded(s[..pos + 4])
  {
    var group := s[pos..pos + 4];
    three := DecodeGroup(group);
    DecodedSnoc(s[..pos], n, group);
    assert s[..pos] + group == s[..pos + 4];
  }

  /** b64decode(in, inlen, out, outlen): accepts exactly the acceptable inputs. */
  method Decode(s: string) returns (ok: bool, out: seq<Octet>, outlen: nat)
    ensures ok <==> Acceptable(s)
    ensures ok ==> out == Decoded(s) && |out| == |s| / 4 * 3 && outlen <= |out| && PaddedBy(s, |out| - outlen)
  {
    out, outlen := [], 0;
    var deadbytes;
    ok, deadbytes := Validate(s);
    if !ok {
      return;
    }
    forall i | 0 <= i < |s|
      ensures Position(s[i]) >= 0
    {
      PaddedAll(s, deadbytes, i);
    }
    out, outlen := DecodeGroups(s);
    DecodedLength(s);
    outlen := outlen - deadbytes;
  }

  /** Decode group by group. */
  method DecodeGroups(s: string) returns (out: seq<Octet>, outlen: nat)
    requires |s| % 4 == 0 && forall i :: 0 <= i < |s| ==> Position(s[i]) >= 0
    ensures out == Decoded(s) && outlen == |out|
  {
    out, outlen := [], 0;
    var pos := 0;
    ghost var n: nat := 0;
    while pos < |s|
      invariant 0 <= pos <= |s| && pos == 4 * n && out == Decoded(s[..pos]) && outlen == |out|
    {
      var three := DecodeStep(s, pos, n, out);
      out := out + three;
      pos, n, outlen := pos + 4, n + 1, outlen + 3;
    }
    assert s[..pos] == s;
  }

  /** Decoding an encoding yields the original octets, and nothing else. */
  lemma DecodeEncode(x: seq<Octet>, outlen: nat)
    requires outlen <= |Decoded(Encoded(x))| && PaddedBy(Encoded(x), |Decoded(Encoded(x))| - outlen)
    ensures Acceptable(Encoded(x)) && Decoded(Encoded(x))[..outlen] == x
  {
    RoundTrip(x);
    PaddedUnique(Encoded(x), |Decoded(Encoded(x))| - outlen, PadCount(|x|));
  }

  // ------------------------------------------- which texts are encodings

  /** The bits of the last character that padding cuts off are zero. */
  ghost predicate Canonical(s: string, d: nat)
    requires d <= 2 && (d > 0 ==> |s| >= 4)
  {
    (d == 1 ==> SixBits(s[|s| - 2]) % 4 == 0) && (d == 2 ==> SixBits(s[|s| - 3]) % 16 == 0)
  }

  lemma SextetsOf(a: nat, b: nat, c: nat, d: nat)
    requires a < 64 && b < 64 && c < 64 && d < 64
    ensures var t := 262144 * a + 4096 * b + 64 * c + d;
            t < 0x1000000 && Sextet(t, 0) == a && Sextet(t, 1) == b && Sextet(t, 2) == c && Sextet(t, 3) == d
  {
    var t := 262144 * a + 4096 * b + 64 * c + d;
    By64(4096 * a + 64 * b + c, d);
    By64(64 * a + b, c);
    By64(a, b);
    By4096(64 * a + b, 64 * c + d);
    Quotient(t, a, 4096 * b + 64 * c + d);
    assert t / 64 == 64 * (64 * a + b) + c;
    assert t / 4096 == 64 * a + b;
  }

  lemma By64(q: nat, r: nat)
    requires r < 64
    ensures (64 * q + r) / 64 == q && (64 * q + r) % 64 == r
  {
  }

  lemma By4096(q: nat, r: nat)
    requires r < 4096
    ensures (4096 * q + r) / 4096 == q
  {
  }

  lemma SameChar(c: char, v: nat)
    requires 0 <= Position(c) < 64 && v < 64
    ensures CharAt(v) == c <==> v == SixBits(c)
  {
    PositionCorrect(c, v);
  }

  /** The 24 bits of what is kept of a group. */
  lemma KeptBits(a: nat, b: nat, c: nat, d: nat)
    requires a < 64 && b < 64 && c < 64 && d < 64
    ensures 65536 * (4 * a + b / 16) == 262144 * a + 4096 * (b - b % 16)
    ensures 256 * (16 * (b % 16) + c / 4) == 4096 * (b % 16) + 64 * (c - c % 4)
  {
  }

  lemma GroupReencode(g: string, d: nat)
    requires |g| == 4 && d <= 2 && PaddedBy(g, d)
    ensures EncodedGroup(GroupOctets(g)[..3 - d]) == g <==> Canonical(g, d)
  {
    var a, b, c, e := SixBits(g[0]), SixBits(g[1]), SixBits(g[2]), SixBits(g[3]);
    var x := GroupOctets(g)[..3 - d];
    KeptBits(a, b, c, e);
    SplitByFour(a, b, c, e);
    var b', c', e' := if d == 2 then b - b % 16 else b, if d == 2 then 0 else if d == 1 then c - c % 4 else c, if d == 0 then e else 0;
    assert Bits24(x) == 262144 * a + 4096 * b' + 64 * c' + e';
    SextetsOf(a, b', c', e');
    Compare(g, d, a, b', c', e');
  }

  /** Which sextets give the characters of g. */
  lemma Compare(g: string, d: nat, a: nat, b: nat, c: nat, e: nat)
    requires |g| == 4 && d <= 2 && PaddedBy(g, d) && a < 64 && b < 64 && c < 64 && e < 64
    requires var t := 262144 * a + 4096 * b + 64 * c + e;
             t < 0x1000000 && Sextet(t, 0) == a && Sextet(t, 1) == b && Sextet(t, 2) == c && Sextet(t, 3) == e
    ensures FourChars(262144 * a + 4096 * b + 64 * c + e, 3 - d) == g
            <==> a == SixBits(g[0]) && b == SixBits(g[1]) && (d < 2 ==> c == SixBits(g[2])) && (d < 1 ==> e == SixBits(g[3]))
  {
    PaddedAll(g, d, 2);
    PaddedAll(g, d, 3);
    SameChar(g[0], a);
    SameChar(g[1], b);
    if d < 2 {
      SameChar(g[2], c);
    }
    if d < 1 {
      SameChar(g[3], e);
    }
    var f := FourChars(262144 * a + 4096 * b + 64 * c + e, 3 - d);
    assert f == g <==> f[0] == g[0] && f[1] == g[1] && f[2] == g[2] && f[3] == g[3];
  }

  /** The groups before the last have no padding. */
  lemma PaddedRest(s: string, d: nat)
    requires d <= 2 && PaddedBy(s, d) && |s| >= 8
    ensures PaddedBy(s[..4], 0) && PaddedBy(s[4..], d)
  {
    assert s[4..][|s| - 4 - d..] == s[|s| - d..];
  }

  /** The octets that decoding yields. */
  function Kept(s: string, d: nat): seq<Octet>
    requires d <= |Decoded(s)|
  {
    Decoded(s)[..|Decoded(s)| - d]
  }

  lemma KeptRest(s: string, d: nat)
    requires |s| >= 8 && d <= |Decoded(s[4..])|
    ensures d <= |Decoded(s)| && Kept(s, d) == GroupOctets(s[..4]) + Kept(s[4..], d)
  {
  }

  /** A first group without padding changes nothing. */
  lemma ReencodeStep(g: string, rest: string, y: seq<Octet>)
    requires |g| == 4 && EncodedGroup(GroupOctets(g)) == g
    ensures Encoded(GroupOctets(g) + y) == g + rest <==> Encoded(y) == rest
  {
    EncodedCons(GroupOctets(g), y);
    if g + Encoded(y) == g + rest {
      assert (g + Encoded(y))[4..] == (g + rest)[4..];
    }
  }

  lemma GroupReencodeAll(g: string)
    requires |g| == 4 && PaddedBy(g, 0)
    ensures EncodedGroup(GroupOctets(g)) == g
  {
    GroupReencode(g, 0);
    assert GroupOctets(g)[..3] == GroupOctets(g);
  }

  lemma LastGroup(s: string, d: nat)
    requires |s| == 4 && d <= 2 && PaddedBy(s, d)
    ensures |Decoded(s)| == 3 && (Encoded(Kept(s, d)) == s <==> Canonical(s, d))
  {
    DecodedGroup(s);
    GroupReencode(s, d);
    assert Kept(s, d) == GroupOctets(s)[..3 - d];
  }

  /** Encoding what was decoded gives back the text exactly if the bits cut off were zero. */
  lemma {:induction false} EncodeDecode(s: string, d: nat)
    requires |s| % 4 == 0 && d <= 2 && PaddedBy(s, d)
    ensures d <= |Decoded(s)| && (d > 0 ==> |s| >= 4)
    ensures Encoded(Kept(s, d)) == s <==> Canonical(s, d)
    decreases |s|
  {
    if |s| == 4 {
      LastGroup(s, d);
    } else if |s| > 4 {
      PaddedRest(s, d);
      EncodeDecode(s[4..], d);
      ReencodeRest(s, d);
      CanonicalRest(s, d);
    }
  }

  /** The first of several groups matters neither for the round trip nor for the bits cut off. */
  lemma ReencodeRest(s: string, d: nat)
    requires |s| >= 8 && PaddedBy(s[..4], 0) && d <= |Decoded(s[4..])|
    ensures d <= |Decoded(s)| && (Encoded(Kept(s, d)) == s <==> Encoded(Kept(s[4..], d)) == s[4..])
  {
    KeptRest(s, d);
    GroupReencodeAll(s[..4]);
    ReencodeStep(s[..4], s[4..], Kept(s[4..], d));
    assert s == s[..4] + s[4..];
  }

  lemma CanonicalRest(s: string, d: nat)
    requires |s| >= 8 && d <= 2
    ensures Canonical(s, d) <==> Canonical(s[4..], d)
  {
  }
}
