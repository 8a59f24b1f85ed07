/**
 Command-line options (util/getopt.c), from a table of registered options. A run of
 calls is compared with the documented ways to spell options (util/getopt.h).
 */
module Getopt {
  import opened Machine
  /** A string of the C language: no NUL within. */
  type CStr = s: string | forall i :: 0 <= i < |s| ==> s[i] != '\0'

  /** A slot of the option table, which is sparse. */
  datatype Slot = Empty | Opt(os: CStr, hasarg: bool)

  type Table = seq<Slot>

  /** s[i], where the terminating NUL can be read too. */
  function Char(s: CStr, i: nat): (c: char)
    requires i <= |s|
    ensures c == '\0' <==> i == |s|
  {
    if i < |s| then s[i] else '\0'
  }

  /** Whether os is the option, or the option followed by '='. */
  predicate Matches(slot: Slot, os: CStr) {
    slot.Opt? && |slot.os| <= |os| && os[..|slot.os|] == slot.os
    && (Char(os, |slot.os|) == '\0' || Char(os, |slot.os|) == '=')
  }

  /** The forms a registered option can have: "-X" or "--foo". */
  predicate ShortName(os: CStr) {
    |os| == 2 && os[0] == '-' && os[1] != '-' && os[1] != '='
  }

  predicate LongName(os: CStr) {
    |os| > 2 && os[0] == '-' && os[1] == '-' && forall i :: 0 <= i < |os| ==> os[i] != '='
  }

  /** A table of options with valid and distinct names, free of '='. */
  ghost predicate Registered(t: Table) {
    (forall i :: 0 <= i < |t| && t[i].Opt? ==> ShortName(t[i].os) || LongName(t[i].os))
    && forall i, j :: 0 <= i < j < |t| && t[i].Opt? && t[j].Opt? ==> t[i].os != t[j].os
  }

  /** The first slot from i on that matches, or the size of the table. */
  function SearchFrom(t: Table, os: CStr, i: nat): (r: nat)
    requires i <= |t|
    ensures i <= r <= |t| && (r < |t| ==> Matches(t[r], os))
    decreases |t| - i
  {
    if i == |t| || Matches(t[i], os) then i else SearchFrom(t, os, i + 1)
  }

  /** searchopt(os) */
  method SearchOpt(t: Table, os: CStr) returns (r: nat)
    ensures r == SearchFrom(t, os, 0)
  {
    r := 0;
    while r < |t|
      invariant r <= |t| && SearchFrom(t, os, 0) == SearchFrom(t, os, r)
    {
      if Matches(t[r], os) {
        return;
      }
      r := r + 1;
    }
  }

  lemma {:induction false} SearchIsFirst(t: Table, os: CStr, i: nat, k: nat)
    requires i <= k < |t| && Matches(t[k], os)
    ensures SearchFrom(t, os, i) <= k
    decreases k - i
  {
    if i < k && !Matches(t[i], os) {
      SearchIsFirst(t, os, i + 1, k);
    }
  }

  /** With names free of '=', at most one name matches. */
  lemma MatchUnique(a: Slot, b: Slot, os: CStr)
    requires Matches(a, os) && Matches(b, os)
    requires (ShortName(a.os) || LongName(a.os)) && (ShortName(b.os) || LongName(b.os))
    ensures a.os == b.os
  {
  }

  /** An option is found by its name, also if '=' and a value follow. */
  lemma SearchFinds(t: Table, os: CStr, k: nat)
    requires Registered(t) && k < |t| && Matches(t[k], os)
    ensures SearchFrom(t, os, 0) == k
  {
    SearchIsFirst(t, os, 0, k);
    var r := SearchFrom(t, os, 0);
    MatchUnique(t[r], t[k], os);
  }

  /** A name without '=' matches only itself. */
  lemma MatchesItself(slot: Slot, os: CStr)
    requires slot.Opt? && Matches(slot, os) && forall i :: 0 <= i < |os| ==> os[i] != '='
    ensures slot.os == os
  {
    assert os[..|os|] == os;
  }

  /** The test that a name has to pass: one dash and one character, or two dashes and at least one. */
  predicate ValidForm(os: CStr) {
    |os| >= 2 && os[0] == '-' && if os[1] == '-' then |os| > 2 else |os| == 2
  }

  /**
   getopt_register_opt(os, ln, hasarg): dies unless the name is valid and nothing registered matches it.
   Names may hold '='; if they do not, the table stays one of distinct names, and the name is refused
   exactly if it is there already.
   */
  method RegisterOpt(t: Table, os: CStr, ln: nat, hasarg: bool) returns (r: Option<Table>)
    requires ln < |t| && t[ln].Empty?
    ensures r.Some? <==> ValidForm(os) && forall i :: 0 <= i < |t| ==> !Matches(t[i], os)
    ensures r.Some? ==> r.value == t[ln := Opt(os, hasarg)]
    ensures Registered(t) && (forall i :: 0 <= i < |os| ==> os[i] != '=') ==>
      && (r.Some? <==> ValidForm(os) && forall i :: 0 <= i < |t| ==> t[i] != Opt(os, true) && t[i] != Opt(os, false))
      && (r.Some? ==> Registered(r.value))
  {
    if |os| == 0 || os[0] != '-' || Char(os, 1) == '\0'
       || (Char(os, 1) == '-' && Char(os, 2) == '\0') || (Char(os, 1) != '-' && Char(os, 2) != '\0') {
      return None;
    }
    var k := SearchOpt(t, os);
    if forall i :: 0 <= i < |os| ==> os[i] != '=' {
      OnlyItself(t, os);
    }
    if k != |t| {
      return None;
    }
    forall i | 0 <= i < |t|
      ensures !Matches(t[i], os)
    {
      if Matches(t[i], os) {
        SearchIsFirst(t, os, 0, i);
      }
    }
    r := Some(t[ln := Opt(os, hasarg)]);
  }

  /** For a name without '=', matching is being the same. */
  lemma OnlyItself(t: Table, os: CStr)
    requires forall i :: 0 <= i < |os| ==> os[i] != '='
    ensures forall i :: 0 <= i < |t| ==> (Matches(t[i], os) <==> t[i] == Opt(os, true) || t[i] == Opt(os, false))
  {
    forall i | 0 <= i < |t|
      ensures Matches(t[i], os) <==> t[i] == Opt(os, true) || t[i] == Opt(os, false)
    {
      if Matches(t[i], os) {
        MatchesItself(t[i], os);
        assert t[i] == Opt(os, t[i].hasarg);
      } else if t[i].Opt? {
        assert os[..|os|] == os;
      }
    }
  }

  // --------------------------------------------------------------- one call

  /** Where the next option is looked for: a word, and a position in it within packed options. */
  datatype Cursor = Cursor(word: nat, at: nat)

  datatype Kind =
    | Finished
    | Unknown(os: CStr)
    | Got(opt: nat, arg: Option<CStr>)
    | Missing(opt: nat)
    | Excess(opt: nat)

  datatype Step = Step(kind: Kind, next: Cursor)

  ghost predicate Sound(argv: seq<CStr>, c: Cursor) {
    c.at > 0 ==> c.word < |argv| && c.at < |argv[c.word]|
  }

  /** The option "-x". */
  function Dash(x: char): CStr
    requires x != '\0'
  {
    ['-', x]
  }

  /** After a character of packed options. */
  function AfterChar(word: CStr, c: Cursor): Cursor {
    if c.at + 1 < |word| then Cursor(c.word, c.at + 1) else Cursor(c.word + 1, 0)
  }

  /** An option with an argument that was not given yet, before cursor c. */
  function FromNextWord(argv: seq<CStr>, k: nat, c: Cursor): Step {
    if c.word < |argv| then Step(Got(k, Some(argv[c.word])), Cursor(c.word + 1, 0)) else Step(Missing(k), c)
  }

  /** The single-character option at a position of a word. */
  function ShortStep(t: Table, argv: seq<CStr>, c: Cursor): Step
    requires c.word < |argv| && 0 < c.at < |argv[c.word]|
  {
    var word := argv[c.word];
    var k := SearchFrom(t, Dash(word[c.at]), 0);
    var next := AfterChar(word, c);
    if k == |t| then Step(Unknown(Dash(word[c.at])), next)
    else if !t[k].hasarg then Step(Got(k, None), next)
    else if next.at > 0 then Step(Got(k, Some(word[next.at..])), Cursor(c.word + 1, 0))
    else FromNextWord(argv, k, next)
  }

  /** The long option that is the word at the cursor. */
  function LongStep(t: Table, argv: seq<CStr>, c: Cursor): Step
    requires c.word < |argv|
  {
    var word := argv[c.word];
    var k := SearchFrom(t, word, 0);
    var next := Cursor(c.word + 1, 0);
    if k == |t| then Step(Unknown(word), next)
    else
      var n := |t[k].os|;
      if n < |word| then Step(if t[k].hasarg then Got(k, Some(word[n + 1..])) else Excess(k), next)
      else if t[k].hasarg then FromNextWord(argv, k, next)
      else Step(Got(k, None), next)
  }

  /** What the next call does. */
  function NextStep(t: Table, argv: seq<CStr>, c: Cursor): Step
    requires Sound(argv, c)
  {
    if c.word >= |argv| then Step(Finished, c)
    else
      var word := argv[c.word];
      if c.at > 0 then ShortStep(t, argv, c)
      else if |word| < 2 || word[0] != '-' then Step(Finished, c)
      else if word[1] != '-' then ShortStep(t, argv, Cursor(c.word, 1))
      else if |word| == 2 then Step(Finished, Cursor(c.word + 1, 0))
      else LongStep(t, argv, c)
  }

  lemma NextStepSound(t: Table, argv: seq<CStr>, c: Cursor)
    requires Sound(argv, c)
    ensures Sound(argv, NextStep(t, argv, c).next)
    ensures NextStep(t, argv, c).kind.Finished? || Later(c, NextStep(t, argv, c).next)
  {
  }

  /** The cursor has moved on. */
  ghost predicate Later(c: Cursor, d: Cursor) {
    c.word < d.word || (c.word == d.word && c.at < d.at)
  }

  // ------------------------------------------------------ documented spellings

  /** How a word of packed options ends. */
  datatype Tail = NoTail | Attached(opt: nat, arg: CStr) | Separate(opt: nat, arg: CStr)

  /** A documented way to give options: -abc, -abcfoo, -abc foo, --foo, --foo bar, --foo=bar. */
  datatype Form =
    | Packed(flags: seq<nat>, tail: Tail)
    | Long(opt: nat)
    | LongSeparate(opt: nat, arg: CStr)
    | LongEquals(opt: nat, arg: CStr)

  ghost predicate IsShort(t: Table, k: nat, hasarg: bool) {
    k < |t| && t[k].Opt? && ShortName(t[k].os) && t[k].hasarg == hasarg
  }

  ghost predicate IsLong(t: Table, k: nat, hasarg: bool) {
    k < |t| && t[k].Opt? && LongName(t[k].os) && t[k].hasarg == hasarg
  }

  /** A use of options of the table, in one of the documented forms. */
  ghost predicate ProperForm(t: Table, f: Form) {
    match f
    case Packed(flags, tail) =>
      (forall i :: 0 <= i < |flags| ==> IsShort(t, flags[i], false))
      && (match tail
          case NoTail => flags != []
          case Attached(k, arg) => IsShort(t, k, true) && arg != []
          case Separate(k, arg) => IsShort(t, k, true))
    case Long(k) => IsLong(t, k, false)
    case LongSeparate(k, _) => IsLong(t, k, true)
    case LongEquals(k, _) => IsLong(t, k, true)
  }

  /** The word is a dash, the letters of the flags, and what the tail adds. */
  ghost predicate PackedWord(t: Table, word: CStr, flags: seq<nat>, tail: Tail)
    requires ProperForm(t, Packed(flags, tail))
  {
    var n := |flags|;
    |word| > n && word[0] == '-' && (forall i :: 0 <= i < n ==> word[i + 1] == t[flags[i]].os[1])
    && match tail
       case NoTail => |word| == n + 1
       case Attached(k, arg) => |word| == n + 2 + |arg| && word[n + 1] == t[k].os[1] && word[n + 2..] == arg
       case Separate(k, _) => |word| == n + 2 && word[n + 1] == t[k].os[1]
  }

  /** How many words a form takes. */
  function Width(f: Form): nat {
    if f.LongSeparate? || (f.Packed? && f.tail.Separate?) then 2 else 1
  }

  /** The words from number w on spell the form. */
  ghost predicate Spelled(t: Table, argv: seq<CStr>, w: nat, f: Form)
    requires ProperForm(t, f)
  {
    w + Width(f) <= |argv| &&
    match f
    case Packed(flags, tail) => PackedWord(t, argv[w], flags, tail) && (tail.Separate? ==> argv[w + 1] == tail.arg)
    case Long(k) => argv[w] == t[k].os
    case LongSeparate(k, arg) => argv[w] == t[k].os && argv[w + 1] == arg
    case LongEquals(k, arg) => argv[w] == t[k].os + ['='] + arg
  }

  /** The options a form stands for, with their arguments. */
  function TailUses(tail: Tail): seq<Kind> {
    match tail
    case NoTail => []
    case Attached(k, arg) => [Got(k, Some(arg))]
    case Separate(k, arg) => [Got(k, Some(arg))]
  }

  function FlagUses(flags: seq<nat>, n: nat): (u: seq<Kind>)
    requires n <= |flags|
    decreases |flags| - n
  {
    if n == |flags| then [] else [Got(flags[n], None)] + FlagUses(flags, n + 1)
  }

  function Uses(f: Form): seq<Kind> {
    match f
    case Packed(flags, tail) => FlagUses(flags, 0) + TailUses(tail)
    case Long(k) => [Got(k, None)]
    case LongSeparate(k, arg) => [Got(k, Some(arg))]
    case LongEquals(k, arg) => [Got(k, Some(arg))]
  }

  /** Successive calls from c on report exactly the uses, and get to the cursor end. */
  ghost predicate Yields(t: Table, argv: seq<CStr>, c: Cursor, uses: seq<Kind>, end: Cursor)
    decreases |uses|
  {
    Sound(argv, c) &&
    if uses == [] then c == end
    else
      var s := NextStep(t, argv, c);
      s.kind == uses[0] && Yields(t, argv, s.next, uses[1..], end)
  }

  lemma {:induction false} YieldsJoin(t: Table, argv: seq<CStr>, c: Cursor, a: seq<Kind>, d: Cursor, b: seq<Kind>, e: Cursor)
    requires Yields(t, argv, c, a, d) && Yields(t, argv, d, b, e)
    ensures Yields(t, argv, c, a + b, e)
    decreases |a|
  {
    if a == [] {
      assert a + b == b;
    } else {
      assert (a + b)[0] == a[0] && (a + b)[1..] == a[1..] + b;
      YieldsJoin(t, argv, NextStep(t, argv, c).next, a[1..], d, b, e);
    }
  }

  lemma YieldsOne(t: Table, argv: seq<CStr>, c: Cursor, u: Kind, e: Cursor)
    requires Sound(argv, c) && Sound(argv, e) && NextStep(t, argv, c) == Step(u, e)
    ensures Yields(t, argv, c, [u], e)
  {
    assert [u][1..] == [];
  }

  lemma YieldsCons(t: Table, argv: seq<CStr>, c: Cursor, u: Kind, d: Cursor, rest: seq<Kind>, e: Cursor)
    requires Sound(argv, c) && NextStep(t, argv, c) == Step(u, d) && Yields(t, argv, d, rest, e)
    ensures Yields(t, argv, c, [u] + rest, e)
  {
    assert ([u] + rest)[1..] == rest;
  }

  lemma FlagUsesCons(flags: seq<nat>, n: nat, more: seq<Kind>)
    requires n < |flags|
    ensures FlagUses(flags, n) + more == [Got(flags[n], None)] + (FlagUses(flags, n + 1) + more)
  {
  }

  /** The cursor before letter n of a word of packed options. */
  function LetterCursor(w: nat, n: nat): Cursor {
    if n == 0 then Cursor(w, 0) else Cursor(w, n + 1)
  }

  /** The call before letter n looks at that letter. */
  lemma LetterStep(t: Table, argv: seq<CStr>, w: nat, n: nat, k: nat)
    requires Registered(t) && w < |argv| && n + 1 < |argv[w]| && argv[w][0] == '-' && argv[w][1] != '-'
    requires k < |t| && t[k].Opt? && ShortName(t[k].os) && argv[w][n + 1] == t[k].os[1]
    ensures Sound(argv, LetterCursor(w, n))
    ensures NextStep(t, argv, LetterCursor(w, n)) == ShortStep(t, argv, Cursor(w, n + 1))
    ensures SearchFrom(t, Dash(argv[w][n + 1]), 0) == k
  {
    assert Dash(argv[w][n + 1]) == t[k].os;
    SearchFinds(t, Dash(argv[w][n + 1]), k);
  }

  lemma FirstLetter(t: Table, word: CStr, flags: seq<nat>, tail: Tail)
    requires ProperForm(t, Packed(flags, tail)) && PackedWord(t, word, flags, tail)
    ensures |word| > 1 && word[1] != '-'
  {
    if flags != [] {
      assert word[0 + 1] == t[flags[0]].os[1];
    }
  }

  /** The tail of packed options. */
  lemma TailYields(t: Table, argv: seq<CStr>, w: nat, flags: seq<nat>, tail: Tail)
    requires Registered(t) && ProperForm(t, Packed(flags, tail)) && Spelled(t, argv, w, Packed(flags, tail)) && !tail.NoTail?
    ensures Yields(t, argv, LetterCursor(w, |flags|), TailUses(tail), Cursor(w + Width(Packed(flags, tail)), 0))
  {
    FirstLetter(t, argv[w], flags, tail);
    LetterStep(t, argv, w, |flags|, tail.opt);
    YieldsOne(t, argv, LetterCursor(w, |flags|), Got(tail.opt, Some(tail.arg)), Cursor(w + Width(Packed(flags, tail)), 0));
  }

  /** Packed options from letter n on. */
  lemma {:induction false} FlagsYield(t: Table, argv: seq<CStr>, w: nat, flags: seq<nat>, tail: Tail, n: nat)
    requires Registered(t) && ProperForm(t, Packed(flags, tail)) && Spelled(t, argv, w, Packed(flags, tail))
    requires n < |flags| || (n == |flags| && !tail.NoTail?)
    ensures Yields(t, argv, LetterCursor(w, n), FlagUses(flags, n) + TailUses(tail), Cursor(w + Width(Packed(flags, tail)), 0))
    decreases |flags| - n
  {
    if n == |flags| {
      TailYields(t, argv, w, flags, tail);
      assert FlagUses(flags, n) + TailUses(tail) == TailUses(tail);
    } else {
      FlagStep(t, argv, w, flags, tail, n);
      var last := n + 1 == |flags| && tail.NoTail?;
      var next := if last then Cursor(w + 1, 0) else LetterCursor(w, n + 1);
      var rest := FlagUses(flags, n + 1) + TailUses(tail);
      if !last {
        FlagsYield(t, argv, w, flags, tail, n + 1);
      }
      YieldsCons(t, argv, LetterCursor(w, n), Got(flags[n], None), next, rest, Cursor(w + Width(Packed(flags, tail)), 0));
      FlagUsesCons(flags, n, TailUses(tail));
    }
  }

  /** A flag, and where the next letter is. */
  lemma FlagStep(t: Table, argv: seq<CStr>, w: nat, flags: seq<nat>, tail: Tail, n: nat)
    requires Registered(t) && ProperForm(t, Packed(flags, tail)) && Spelled(t, argv, w, Packed(flags, tail)) && n < |flags|
    ensures Sound(argv, LetterCursor(w, n))
    ensures var next := if n + 1 == |flags| && tail.NoTail? then Cursor(w + 1, 0) else LetterCursor(w, n + 1);
            Sound(argv, next) && NextStep(t, argv, LetterCursor(w, n)) == Step(Got(flags[n], None), next)
  {
    FirstLetter(t, argv[w], flags, tail);
    LetterStep(t, argv, w, n, flags[n]);
  }

  /** Calls on a form report its uses, and get behind its words. */
  lemma FormYields(t: Table, argv: seq<CStr>, w: nat, f: Form)
    requires Registered(t) && ProperForm(t, f) && Spelled(t, argv, w, f)
    ensures Yields(t, argv, Cursor(w, 0), Uses(f), Cursor(w + Width(f), 0))
  {
    if f.Packed? {
      FlagsYield(t, argv, w, f.flags, f.tail, 0);
    } else {
      SearchFinds(t, argv[w], f.opt);
      if f.LongEquals? {
        assert argv[w][|t[f.opt].os| + 1..] == f.arg;
      }
      YieldsOne(t, argv, Cursor(w, 0), Uses(f)[0], Cursor(w + Width(f), 0));
    }
  }

  // ------------------------------------------------------ improper uses

  /** No option has this name. */
  ghost predicate NoOption(t: Table, name: CStr) {
    forall i :: 0 <= i < |t| && t[i].Opt? ==> t[i].os != name
  }

  /** The cursor behind a word of packed options, or before its next letter. */
  function BehindLetter(word: CStr, w: nat, n: nat): Cursor {
    if n + 1 < |word| then Cursor(w, n + 1) else Cursor(w + 1, 0)
  }

  /** A letter that no option has is reported alone, and the letters that follow it are looked at next. */
  lemma UnknownLetter(t: Table, argv: seq<CStr>, w: nat, n: nat)
    requires Registered(t) && w < |argv| && 0 < n < |argv[w]| && argv[w][0] == '-' && argv[w][1] != '-'
    requires NoOption(t, ['-', argv[w][n]])
    ensures Sound(argv, LetterCursor(w, n - 1))
    ensures NextStep(t, argv, LetterCursor(w, n - 1)) == Step(Unknown(['-', argv[w][n]]), BehindLetter(argv[w], w, n))
  {
    var os := Dash(argv[w][n]);
    forall k | 0 <= k < |t|
      ensures !Matches(t[k], os)
    {
    }
    assert SearchFrom(t, os, 0) == |t|;
  }

  /** A long option that no option matches, with or without a value, is reported as it is. */
  lemma UnknownLong(t: Table, argv: seq<CStr>, w: nat)
    requires Registered(t) && w < |argv| && |argv[w]| > 2 && argv[w][..2] == "--"
    requires forall n :: 2 < n <= |argv[w]| && (n == |argv[w]| || argv[w][n] == '=') ==> NoOption(t, argv[w][..n])
    ensures NextStep(t, argv, Cursor(w, 0)) == Step(Unknown(argv[w]), Cursor(w + 1, 0))
  {
    var word := argv[w];
    assert word[0] == word[..2][0] && word[1] == word[..2][1];
    forall k | 0 <= k < |t|
      ensures !Matches(t[k], word)
    {
    }
    assert SearchFrom(t, word, 0) == |t|;
  }

  /** An option whose argument is missing at the end of the command line, as the last letter of packed options. */
  lemma MissingAfterLetter(t: Table, argv: seq<CStr>, w: nat, n: nat, k: nat)
    requires Registered(t) && IsShort(t, k, true) && w + 1 == |argv| && 0 < n && n + 1 == |argv[w]|
    requires argv[w][0] == '-' && argv[w][1] != '-' && argv[w][n] == t[k].os[1]
    ensures Sound(argv, LetterCursor(w, n - 1))
    ensures NextStep(t, argv, LetterCursor(w, n - 1)) == Step(Missing(k), Cursor(w + 1, 0))
  {
    LetterStep(t, argv, w, n - 1, k);
  }

  /** The same for a long option. */
  lemma MissingAfterLong(t: Table, argv: seq<CStr>, w: nat, k: nat)
    requires Registered(t) && IsLong(t, k, true) && w + 1 == |argv| && argv[w] == t[k].os
    ensures NextStep(t, argv, Cursor(w, 0)) == Step(Missing(k), Cursor(w + 1, 0))
  {
    SearchFinds(t, argv[w], k);
  }

  /** A value given to an option that takes none is reported, and dropped. */
  lemma ValueInExcess(t: Table, argv: seq<CStr>, w: nat, k: nat, value: CStr)
    requires Registered(t) && IsLong(t, k, false) && w < |argv| && argv[w] == t[k].os + ['='] + value
    ensures NextStep(t, argv, Cursor(w, 0)) == Step(Excess(k), Cursor(w + 1, 0))
  {
    SearchFinds(t, argv[w], k);
  }

  // ------------------------------------------------------ whole command lines

  /** The words from number w on spell the forms, up to word number end. */
  ghost predicate SpelledAll(t: Table, argv: seq<CStr>, w: nat, forms: seq<Form>, end: nat)
    decreases |forms|
  {
    if forms == [] then w == end && end <= |argv|
    else ProperForm(t, forms[0]) && Spelled(t, argv, w, forms[0])
         && SpelledAll(t, argv, w + Width(forms[0]), forms[1..], end)
  }

  function AllUses(forms: seq<Form>): seq<Kind> {
    if forms == [] then [] else Uses(forms[0]) + AllUses(forms[1..])
  }

  lemma {:induction false} FormsYield(t: Table, argv: seq<CStr>, w: nat, forms: seq<Form>, end: nat)
    requires Registered(t) && SpelledAll(t, argv, w, forms, end)
    ensures Yields(t, argv, Cursor(w, 0), AllUses(forms), Cursor(end, 0))
    decreases |forms|
  {
    if forms != [] {
      FormYields(t, argv, w, forms[0]);
      FormsYield(t, argv, w + Width(forms[0]), forms[1..], end);
      YieldsJoin(t, argv, Cursor(w, 0), Uses(forms[0]), Cursor(w + Width(forms[0]), 0), AllUses(forms[1..]), Cursor(end, 0));
    }
  }

  /** Options end with the command line, at "--", or at a word that is not an option. */
  ghost predicate EndsAt(argv: seq<CStr>, end: nat) {
    end >= |argv| || argv[end] == "--" || |argv[end]| < 2 || argv[end][0] != '-'
  }

  /** Where the other arguments start: "--" is skipped. */
  function OthersAt(argv: seq<CStr>, end: nat): nat {
    if end < |argv| && argv[end] == "--" then end + 1 else end
  }

  /** A command line is read as exactly the options it spells, and the rest is left. */
  lemma CommandLine(t: Table, argv: seq<CStr>, forms: seq<Form>, end: nat)
    requires Registered(t) && SpelledAll(t, argv, 1, forms, end) && EndsAt(argv, end)
    ensures Yields(t, argv, Cursor(1, 0), AllUses(forms), Cursor(end, 0))
    ensures NextStep(t, argv, Cursor(end, 0)) == Step(Finished, Cursor(OthersAt(argv, end), 0))
  {
    FormsYield(t, argv, 1, forms, end);
  }

  // ---------------------------------------------------------------- the code

  /** Which registered option the last call found. */
  datatype Found = Chosen(k: nat) | OptMissing | OptDefault

  class Getopt {
    const argv: seq<CStr>
    const opts: Table
    var optind: nat
    var packed: nat  // position of packedopts in the current word, or 0 for none
    var optarg: Option<CStr>
    var found: Found

    ghost predicate Valid()
      reads this
    {
      Registered(opts) && Sound(argv, Cursor(optind, packed))
    }

    ghost function Here(): Cursor
      reads this
    {
      Cursor(optind, packed)
    }

    /** The state after reset() and registration. */
    constructor (argv: seq<CStr>, opts: Table)
      requires Registered(opts)
      ensures Valid() && Here() == Cursor(1, 0) && this.argv == argv && this.opts == opts
    {
      this.argv, this.opts := argv, opts;
      optind, packed, optarg, found := 1, 0, None, OptDefault;
    }

    /** What a call returns, and what it leaves in optarg and opt_found. */
    ghost predicate Reports(kind: Kind, r: Option<CStr>)
      reads this
    {
      match kind
      case Finished => r == None && optarg == None
      case Unknown(os) => r == Some(os) && found == OptDefault && optarg == None
      case Got(k, arg) => k < |opts| && opts[k].Opt? && r == Some(opts[k].os) && found == Chosen(k) && optarg == arg
      case Missing(k) => k < |opts| && opts[k].Opt? && r == Some(opts[k].os) && found == OptMissing && optarg == None
      case Excess(k) => k < |opts| && opts[k].Opt? && r == Some(opts[k].os) && found == OptDefault && optarg == None
    }

    /** getopt(argc, argv), once initialized */
    method Next() returns (r: Option<CStr>)
      requires Valid()
      modifies this
      ensures Valid() && Here() == NextStep(opts, argv, old(Here())).next
      ensures Reports(NextStep(opts, argv, old(Here())).kind, r)
    {
      NextStepSound(opts, argv, Here());
      optarg := None;
      if optind >= |argv| {
        return None;
      }
      var word := argv[optind];
      if packed == 0 && |word| > 0 && word[0] == '-' && Char(word, 1) != '-' && Char(word, 1) != '\0' {
        packed := 1;
      }
      if packed != 0 {
        r := NextShort(word);
        return;
      }
      var os := None;
      if |word| > 0 && word[0] == '-' && Char(word, 1) == '-' {
        if Char(word, 2) != '\0' {
          os := Some(word);
        }
        optind := optind + 1;
      }
      if os == None {
        return None;
      }
      r := NextLong(word);
    }

    /** Fish one out of packed single-character options. */
    method NextShort(word: CStr) returns (r: Option<CStr>)
      requires Registered(opts) && optind < |argv| && word == argv[optind] && 0 < packed < |word| && optarg == None
      modifies this
      ensures Here() == ShortStep(opts, argv, old(Here())).next
      ensures Reports(ShortStep(opts, argv, old(Here())).kind, r)
    {
      var popt := Dash(word[packed]);
      packed := packed + 1;
      if packed == |word| {
        packed := 0;
        optind := optind + 1;
      }
      var k := SearchOpt(opts, popt);
      if k == |opts| {
        found := OptDefault;
        return Some(popt);
      }
      assert |opts[k].os| == 2;
      found := Chosen(k);
      if opts[k].hasarg {
        if packed != 0 {
          optarg := Some(word[packed..]);
          packed := 0;
          optind := optind + 1;
        }
        TakeNextWord();
      }
      r := Some(opts[k].os);
    }

    /** A word that starts with "--", which optind has passed already. */
    method NextLong(word: CStr) returns (r: Option<CStr>)
      requires Registered(opts) && 0 < optind <= |argv| && word == argv[optind - 1] && packed == 0 && optarg == None
      modifies this
      ensures Here() == LongStep(opts, argv, Cursor(old(optind) - 1, 0)).next
      ensures Reports(LongStep(opts, argv, Cursor(old(optind) - 1, 0)).kind, r)
    {
      var k := SearchOpt(opts, word);
      if k == |opts| {
        found := OptDefault;
        return Some(word);
      }
      found := Chosen(k);
      var n := |opts[k].os|;
      if opts[k].hasarg {
        if Char(word, n) == '=' {
          optarg := Some(word[n + 1..]);
        }
        TakeNextWord();
      } else if Char(word, n) == '=' {
        found := OptDefault;
      }
      r := Some(opts[k].os);
    }

    /** If there is no argument yet, take one from the remaining command line. */
    method TakeNextWord()
      modifies this`optarg, this`optind, this`found
      ensures old(optarg) != None ==> optarg == old(optarg) && optind == old(optind) && found == old(found)
      ensures old(optarg) == None && old(optind) < |argv| ==>
                optarg == Some(argv[old(optind)]) && optind == old(optind) + 1 && found == old(found)
      ensures old(optarg) == None && old(optind) >= |argv| ==> optarg == None && optind == old(optind) && found == OptMissing
    {
      if optarg == None && optind < |argv| {
        optarg := Some(argv[optind]);
        optind := optind + 1;
      }
      if optarg == None {
        found := OptMissing;
      }
    }
  }

  lemma {:induction false} AllGot(forms: seq<Form>, i: nat)
    requires i < |AllUses(forms)|
    ensures AllUses(forms)[i].Got?
    decreases |forms|
  {
    var first := Uses(forms[0]);
    if i < |first| {
      UsesGot(forms[0], i);
    } else {
      AllGot(forms[1..], i - |first|);
    }
  }

  lemma UsesGot(f: Form, i: nat)
    requires i < |Uses(f)|
    ensures Uses(f)[i].Got?
  {
    if f.Packed? {
      FlagsGot(f.flags, 0);
    }
  }

  lemma {:induction false} FlagsGot(flags: seq<nat>, n: nat)
    requires n <= |flags|
    ensures forall i :: 0 <= i < |FlagUses(flags, n)| ==> FlagUses(flags, n)[i].Got?
    decreases |flags| - n
  {
    if n < |flags| {
      FlagsGot(flags, n + 1);
    }
  }

  /** A getopt loop: call until it returns NULL, and keep what was found. */
  method Options(g: Getopt, ghost forms: seq<Form>, ghost end: nat) returns (uses: seq<Kind>)
    requires g.Valid() && g.Here() == Cursor(1, 0)
    requires SpelledAll(g.opts, g.argv, 1, forms, end) && EndsAt(g.argv, end)
    modifies g
    ensures uses == AllUses(forms) && g.optind == OthersAt(g.argv, end)
  {
    CommandLine(g.opts, g.argv, forms, end);
    forall i | 0 <= i < |AllUses(forms)|
      ensures AllUses(forms)[i].Got?
    {
      AllGot(forms, i);
    }
    uses := Collect(g, AllUses(forms), Cursor(end, 0), OthersAt(g.argv, end));
  }

  method Collect(g: Getopt, ghost all: seq<Kind>, ghost end: Cursor, ghost others: nat) returns (uses: seq<Kind>)
    requires g.Valid() && Yields(g.opts, g.argv, g.Here(), all, end) && forall i :: 0 <= i < |all| ==> all[i].Got?
    requires Sound(g.argv, end) && NextStep(g.opts, g.argv, end) == Step(Finished, Cursor(others, 0))
    modifies g
    ensures uses == all && g.optind == others
  {
    uses := [];
    ghost var n := 0;
    var more := true;
    while more
      invariant n <= |all| && uses == all[..n]
      invariant more ==> g.Valid() && Yields(g.opts, g.argv, g.Here(), all[n..], end)
      invariant !more ==> n == |all| && g.optind == others
      decreases more, |all| - n
    {
      var use;
      more, use := OneOption(g, all[n..], end, others);
      if more {
        assert all[n..][1..] == all[n + 1..];
        uses, n := uses + [use], n + 1;
      }
    }
  }

  /** One turn of the loop, where left is still to be found. */
  method OneOption(g: Getopt, ghost left: seq<Kind>, ghost end: Cursor, ghost others: nat) returns (more: bool, use: Kind)
    requires g.Valid() && Yields(g.opts, g.argv, g.Here(), left, end) && (left != [] ==> left[0].Got?)
    requires Sound(g.argv, end) && NextStep(g.opts, g.argv, end) == Step(Finished, Cursor(others, 0))
    modifies g
    ensures more <==> left != []
    ensures more ==> use == left[0] && g.Valid() && Yields(g.opts, g.argv, g.Here(), left[1..], end)
    ensures !more ==> g.optind == others
  {
    var ch := g.Next();
    more, use := ch != None, Finished;
    if more {
      use := Got(g.found.k, g.optarg);
    }
  }
}
